/** The optional-value type the model uses for Rust's `Option` and for the
    outcome of code that may panic (`unwrap`, an index out of bounds):
    `None` is the panic, `Some(v)` the normal return. */
module Wrappers {
  datatype Option<+T> = None | Some(value: T)
}
