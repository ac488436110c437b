/** `PublicSignals`: the ordered public inputs of the circuit, first as
    decimal strings, then as scalar-field elements. */
module Signals {
  import opened Wrappers
  import opened Curve

  /** The circuit constant that is always the first public input. */
  const CircuitConstant: string :=
    "17117841954853285987668489547323623797569071287263030350231384311492698179645"

  datatype PublicSignals = PublicSignals(signals: seq<string>)

  /** `PublicSignals::from`: wraps the given vector. */
  function From(signals: seq<string>): PublicSignals
  {
    PublicSignals(signals)
  }

  /** `PublicSignals::from_values`: the circuit constant followed by the date. */
  function FromValues(currentDate: string): PublicSignals
  {
    PublicSignals([CircuitConstant, currentDate])
  }

  /** `From` keeps the vector as given, element for element. */
  lemma FromKeepsSignals(signals: seq<string>)
    ensures |From(signals).signals| == |signals|
    ensures forall i :: 0 <= i < |signals| ==> From(signals).signals[i] == signals[i]
  {
  }

  /** `FromValues` yields exactly two signals, the constant first and the
      date second; the first does not depend on the date, and different
      dates give different signal vectors. */
  lemma FromValuesOrder(date: string, otherDate: string)
    ensures |FromValues(date).signals| == 2
    ensures FromValues(date).signals[0] == CircuitConstant
    ensures FromValues(date).signals[1] == date
    ensures FromValues(date).signals[0] == FromValues(otherDate).signals[0]
    ensures FromValues(date) == FromValues(otherDate) <==> date == otherDate
  {
  }

  /** What `get` computes: every signal parsed in order, or `None` (a panic)
      as soon as one of them does not parse. */
  function ParseAll(signals: seq<string>, parseFr: string -> Option<Fr>): (r: Option<seq<Fr>>)
    ensures r.Some? ==> |r.value| == |signals|
  {
    if signals == [] then Some([])
    else match parseFr(signals[0])
      case None => None
      case Some(x) =>
        match ParseAll(signals[1..], parseFr)
        case None => None
        case Some(rest) => Some([x] + rest)
  }

  /** `ParseAll` succeeds exactly when every signal parses, and then
      element i is the parse of signal i; there is no partial result. */
  lemma {:induction false} ParseAllSpec(signals: seq<string>, parseFr: string -> Option<Fr>)
    ensures ParseAll(signals, parseFr).Some?
            <==> forall i :: 0 <= i < |signals| ==> parseFr(signals[i]).Some?
    ensures ParseAll(signals, parseFr).Some? ==>
              forall i :: 0 <= i < |signals| ==>
                ParseAll(signals, parseFr).value[i] == parseFr(signals[i]).value
  {
    if signals != [] {
      ParseAllSpec(signals[1..], parseFr);
      if parseFr(signals[0]).Some? && ParseAll(signals[1..], parseFr).Some? {
        forall i | 0 <= i < |signals|
          ensures ParseAll(signals, parseFr).value[i] == parseFr(signals[i]).value
        {
          if i > 0 {
            assert signals[1..][i - 1] == signals[i];
          }
        }
      }
      if !(forall i :: 0 <= i < |signals| ==> parseFr(signals[i]).Some?) {
        var j :| 0 <= j < |signals| && parseFr(signals[j]).None?;
        if j > 0 {
          assert signals[1..][j - 1] == signals[j];
        }
      }
    }
  }

  /** `PublicSignals::get`: pushes `Fr::from_str(s).unwrap()` for every
      signal in turn; a signal that does not parse panics (`None`). */
  method Get(ps: PublicSignals, parseFr: string -> Option<Fr>) returns (r: Option<seq<Fr>>)
    ensures r.Some? <==> forall i :: 0 <= i < |ps.signals| ==> parseFr(ps.signals[i]).Some?
    ensures r.Some? ==> |r.value| == |ps.signals|
    ensures r.Some? ==> forall i :: 0 <= i < |ps.signals| ==> r.value[i] == parseFr(ps.signals[i]).value
    ensures r == ParseAll(ps.signals, parseFr)
  {
    ParseAllSpec(ps.signals, parseFr);
    var inputs: seq<Fr> := [];
    for k := 0 to |ps.signals|
      invariant |inputs| == k
      invariant forall i :: 0 <= i < k ==> parseFr(ps.signals[i]).Some?
      invariant forall i :: 0 <= i < k ==> inputs[i] == parseFr(ps.signals[i]).value
    {
      var parsed := parseFr(ps.signals[k]);
      if parsed.None? {
        return None;
      }
      inputs := inputs + [parsed.value];
    }
    assert inputs == ParseAll(ps.signals, parseFr).value;
    return Some(inputs);
  }

  /** The public inputs `get(from_values(date))` builds, in order: the parsed
      constant, then the parsed date. */
  lemma PublicInputsOfDate(date: string, parseFr: string -> Option<Fr>)
    ensures ParseAll(FromValues(date).signals, parseFr).Some?
            <==> parseFr(CircuitConstant).Some? && parseFr(date).Some?
    ensures ParseAll(FromValues(date).signals, parseFr).Some? ==>
              ParseAll(FromValues(date).signals, parseFr).value
              == [parseFr(CircuitConstant).value, parseFr(date).value]
  {
    ParseAllSpec(FromValues(date).signals, parseFr);
  }
}
