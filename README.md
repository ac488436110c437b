# cw-zk-base: the proof-of-age query, modelled in Dafny

cw-zk-base is a CosmWasm contract with one read-only query. `ProofAge` takes a
Groth16 proof produced by a circom circuit over BN254 (snarkjs's `bn128`). The
contract takes the block time, turns it into the current UTC date written as
`YYYYMMDD`, and builds the public inputs `[circuit constant, date]`. It then
returns the verdict of the Groth16 check against a verifying key compiled into
the contract.

This project models that pipeline:

- `wrappers.dfy` (`Wrappers`): `Option`. `None` stands for a Rust panic (an
  `unwrap` on an error, an index past the end of a `Vec`).
- `curve.dfy` (`Curve`): the BN254 field types, G1/G2 points as projective
  coordinate tuples, `VerifyingKey`, `Proof`, and `Backend`. `Backend` holds
  the operations the contract borrows from outside code: `Fq::from_str`,
  `Fr::from_str`, `CircomProof::to_proof`, and the Groth16 check. They are
  function-valued parameters, so every result holds for every behaviour of
  those libraries.
- `signals.dfy` (`Signals`): `PublicSignals::from`, `from_values` and `get`.
  `get` is a loop that pushes into a vector. It is modelled as the method
  `Get` with a `for` loop, proved against the function `ParseAll`.
- `vk_codec.dfy` (`VkCodec`): `VerifyingKeyJson::to_verifying_key`. Its
  partner is an encoder that writes a key back out as a document, with a
  round-trip lemma.
- `verifier.dfy` (`Verifier`): `Verifier::new` and `verify_proof`.
- `calendar.dfy` (`Calendar`): the calendar library's
  `NaiveDateTime::from_timestamp_opt(secs, 0)`. The day is `secs / 86400`
  rounded down. The date is proved to be the one whose midnight, by the
  "Seconds Since the Epoch" formula of POSIX.1-2017 (XBD section 4.16), is the
  timestamp with its time of day removed. Floor division extends the formula
  to the whole proleptic Gregorian calendar.
- `date_format.dfy` (`DateFormat`): `format("%Y%m%d")`, with a parser back
  from eight digits as its partner.
- `contract.dfy` (`Contract`): the `as i64` cast of the block seconds,
  `proof_age` and `query`.

The embedded verifying-key document is a parameter (`embedded`). The key
document and the proof arrive already decoded from JSON.

## Model

| member | source | states |
|---|---|---|
| `Signals.FromKeepsSignals` | src/verifier.rs:13-15 | `from` keeps the vector unchanged: same length, same element at every index |
| `Signals.FromValuesOrder` | src/verifier.rs:16-22 | `from_values(d)` has exactly two signals, the fixed constant first and `d` second; the first is the same for every date; two dates give equal signals only if they are equal |
| `Signals.From` | src/verifier.rs:13-15 | no contract of its own; `FromKeepsSignals` states it |
| `Signals.FromValues` | src/verifier.rs:16-22 | no contract of its own; `FromValuesOrder` states it |
| `Signals.ParseAll` | src/verifier.rs:28-34 | the parsed vector has as many elements as there are signals |
| `Signals.ParseAllSpec` | src/verifier.rs:28-34 | parsing succeeds exactly when every signal parses, and then element i is the parse of signal i, so there is never a partial vector |
| `Signals.Get` | src/verifier.rs:28-34 | the loop panics exactly when some signal does not parse; otherwise it returns one field element per signal, in order, equal to `ParseAll` |
| `Signals.PublicInputsOfDate` | src/contract.rs:52-54 | `get(from_values(date))` is `[parse(constant), parse(date)]` in that order, and fails exactly when one of the two does not parse |
| `VkCodec.ToFq2` | src/verifier.rs:82-85 | an Fq2 is built exactly when its row has at least two strings and both parse |
| `VkCodec.ToG1` | src/verifier.rs:75-79 | a G1 point is built exactly when there are at least three coordinates and each of the first three parses |
| `VkCodec.ToG2` | src/verifier.rs:80-96 | a G2 point is built exactly when there are at least three rows and each of rows 0..2 gives an Fq2 |
| `VkCodec.ToG1List` | src/verifier.rs:134-144 | the basis has one point per `IC` entry, point i built from entry i; one bad entry fails the whole list |
| `VkCodec.ToVerifyingKey` | src/verifier.rs:74-153 | the key is built exactly when alpha, beta, gamma, delta and every `IC` entry are; `gamma_abc_g1` has the length of `IC` |
| `VkCodec.ToG2SomeIff` | src/verifier.rs:80-96 | a G2 point is built exactly when the rows have the 3x2 shape and all six strings parse |
| `VkCodec.ToVerifyingKeySucceedsIff` | src/verifier.rs:74-153 | the key is built exactly when every array is long enough and every string read parses; a shorter array or one bad string fails it |
| `VkCodec.ToG1RoundTrip` | src/verifier.rs:75-79 | a G1 point written as `[x, y, z]` reads back as the same point |
| `VkCodec.ToG2RoundTrip` | src/verifier.rs:80-132 | a G2 point written as rows `[c0, c1]` for x, y, z reads back as the same point |
| `VkCodec.ToVerifyingKeyRoundTrip` | src/verifier.rs:74-153 | decoding a written-out key gives the same key: index 0 is c0, triples are x, y, z, `IC` i is basis point i, and beta, gamma and delta are never swapped |
| `VkCodec.ToG2Trimmed` | src/verifier.rs:80-132 | strings past index 1 of a row, and rows past index 2, do not change a G2 point |
| `VkCodec.ToVerifyingKeyIgnoresUnread` | src/verifier.rs:62-153 | trailing elements and `vk_alphabeta_12` change neither the key nor whether it can be built |
| `Verifier.New` | src/verifier.rs:44-50 | no contract of its own; `NewVerifiesWithEmbeddedKey` states it |
| `Verifier.VerifyProof` | src/verifier.rs:52-59 | panics when the stored document is malformed or the number of inputs is not one less than the number of `IC` entries; otherwise the outcome is the Groth16 check's with the key decoded from that document, its error being a panic too |
| `Verifier.VerifyProofDependsOnReadKeyOnly` | src/verifier.rs:52-59 | verifiers whose documents agree on what the codec reads give the same answer on every proof and input, so repeated calls agree |
| `Verifier.NewVerifiesWithEmbeddedKey` | src/verifier.rs:44-59 | a verifier from `new` runs the Groth16 check with the key of the embedded document, and panics on an input vector that is not one shorter than its `IC` |
| `Calendar.DaysBeforeMonthStep` | src/contract.rs:46 | the cumulative month table agrees with the month lengths and sums to the year's length |
| `Calendar.PosixMidnightIsEpochDay` | src/contract.rs:46 | the POSIX seconds formula at midnight is 86400 times the date's day number |
| `Calendar.DaysBeforeYearStep` | src/contract.rs:46 | each year adds 366 days when it is a Gregorian leap year and 365 otherwise |
| `Calendar.YearOfDay` | src/contract.rs:46 | the year found holds the given day |
| `Calendar.MonthOfDay` | src/contract.rs:46 | the month found holds the given day of the year |
| `Calendar.CivilFromDays` | src/contract.rs:46 | the date of a day number is valid and has that day number |
| `Calendar.EpochDayInjective` | src/contract.rs:46 | two valid dates with the same day number are equal, so the date found is the only one |
| `Calendar.CivilFromEpochDay` | src/contract.rs:46 | converting a valid date's day number gives the date back |
| `Calendar.YearInRangeIff` | src/contract.rs:46 | a day's year lies in `lo..hi` exactly when the day lies between the start of `lo` and the end of `hi` |
| `Calendar.FromTimestampOpt` | src/contract.rs:46 | `None` exactly outside the supported seconds range; otherwise a valid date in the supported years and a second of the day that together give back the timestamp |
| `Calendar.FromTimestampIsPosixDate` | src/contract.rs:46 | the projected date's POSIX midnight is `t - t mod 86400`, and no other valid date has that midnight |
| `Calendar.SameDaySameDate` | src/contract.rs:46 | timestamps with the same `t / 86400` project to the same date |
| `Calendar.TestClockDate` | src/contract.rs:77 | 1683556139 is 2023-05-08 at second 52139 of the day |
| `DateFormat.FixedDigits` | src/contract.rs:51 | a fixed-width rendering has exactly the width asked for and only decimal digits |
| `DateFormat.FixedDigitsValue` | src/contract.rs:51 | reading a fixed-width rendering back gives the number modulo 10^width |
| `DateFormat.YearText` | src/contract.rs:51 | `%Y` is four digits reading back as the year for years 0..9999; other years get a sign followed by the absolute year |
| `DateFormat.FormatYmd` | src/contract.rs:51 | no contract of its own; `FormatYmdEightDigitsIff`, `FormatYmdRoundTrip` and `FormatYmdInjective` state it |
| `DateFormat.FormatYmdEightDigitsIff` | src/contract.rs:51 | the date string is eight decimal digits exactly when the year is in 0..9999 |
| `DateFormat.FormatYmdRoundTrip` | src/contract.rs:51 | parsing the eight digits as year, month and day gives the date back |
| `DateFormat.FormatYmdInjective` | src/contract.rs:51 | different dates in years 0..9999 give different strings |
| `DateFormat.TestDateText` | src/verifier.rs:171 | 2023-05-08 renders as the test's date signal `20230508` |
| `Contract.AsI64` | src/contract.rs:46 | the cast gives the one i64 congruent to the seconds modulo 2^64, and values below 2^63 pass unchanged |
| `Contract.ProofAge` | src/contract.rs:45-63 | an unprojectable clock gives `Ok(false)`; otherwise the answer is the verdict on the decoded proof with inputs `[parse(constant), parse(date)]` in that order, and it panics exactly when the proof, a signal or the key fails to decode, the embedded `IC` does not have exactly three entries, or the Groth16 check itself errs |
| `Contract.Query` | src/contract.rs:39-43 | `ProofAge` is answered by `proof_age` and nothing else |
| `Contract.CurrentDate` | src/contract.rs:46-51 | a date signal exists exactly when the block time, cast to `i64`, lies in the calendar's supported range; `CurrentDateIsPosixDate` says which date it renders |
| `Contract.CurrentDateIsPosixDate` | src/contract.rs:46-51 | the date signal is the rendering of the valid date whose POSIX midnight is the block time with the time of day removed |
| `Contract.CurrentDateEightDigitsIff` | src/contract.rs:50-51 | the date signal is eight ASCII digits exactly when the block time falls in years 0..9999 |
| `Contract.ProofAgeIgnoresTimeOfDay` | src/contract.rs:46-51 | block times on the same UTC day give the same date signal and the same answer |
| `Contract.WrappedClockPrecedesEpoch` | src/contract.rs:46 | block seconds of 2^63 or more become a negative i64, read as no date or as a date before 1970 |
| `Contract.TestClockDateSignal` | src/contract.rs:77 | the test's block time gives the date signal `20230508` |
| `Contract.ProofAgeAtTestClock` | src/verifier.rs:171-173 | at the test's block time, `proof_age` asks what the verifier's own test asks: the proof against `[constant, "20230508"]` |

## Left out

- The Groth16 pairing check (`prepare_verifying_key`, ark-groth16's `verify_proof`) is the backend's `groth16Verify`, uninterpreted: its verdict, and whether the pairing itself errs (a final exponentiation with no value), are whatever the backend says, and that error is a panic. The input-count error, for an input vector whose length plus one differs from the length of `gamma_abc_g1`, is modelled explicitly in `Verifier.VerifyProof`. It follows ark-groth16's `prepare_inputs`, whose code is not part of this model.
- `Fq::from_str` and `Fr::from_str` are backend parsers: their reduction and rejection rules are not modelled. `str_to_fq` is `parseFq`, and its `unwrap` is the `None` case.
- The projective-to-affine conversion (`G1Affine::from`, `G2Affine::from`) is not modelled. The key keeps the projective coordinates the document gives.
- Curve and subgroup membership checks are not modelled, because the code constructs points without any check. Every failure is a panic or `false`.
- JSON decoding (`serde_json`), the `include_str!` of `circuit/verification_key.json`, and `PublicSignals::from_json` are not modelled: documents arrive already decoded. `circuit/verification_key.json` is not part of this model.
- `CircomProof::to_proof` (src/circom_proof.rs) is not part of this model. It is the backend's `toProof`.
- The calendar library's year limits (-262144 and 262143) are constants, not derived. Its internal `i32` day-count checks are not modelled, because the year limit is reached long before them.
- The `%Y` rendering of years outside 0..9999 follows the calendar library's documentation (a sign, then at least four digits). It is not derived from the library's code.
- `Timestamp::seconds()` (nanoseconds to whole seconds) is not modelled: the environment carries whole seconds. Because that conversion divides a `u64` nanosecond count by 10^9, real block seconds stay far below 2^63; `Contract.WrappedClockPrecedesEpoch` covers seconds the contract cannot receive, and is kept to record what the `as i64` cast would do with them. `to_binary` serialisation of the answer is not modelled either.
- `instantiate` is not modelled: it only writes the contract version to storage. `execute` is `unimplemented!()` over an empty message type, so it can never be called. The `min_age` field of the instantiate message is never read.
