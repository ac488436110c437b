/** The contract's query path: `query` routes `ProofAge` to `proof_age`,
    which turns the block time into the current UTC date string, builds the
    public signals from it and asks the verifier about the caller's proof. */
module Contract {
  import opened Wrappers
  import opened Curve
  import opened Signals
  import opened VkCodec
  import V = Verifier
  import opened Calendar
  import opened DateFormat

  const TwoTo63: int := 0x8000_0000_0000_0000
  const TwoTo64: int := 0x1_0000_0000_0000_0000

  type U64 = x: int | 0 <= x < TwoTo64

  /** The part of the host's `Env` the query reads: the block time in whole seconds. */
  datatype Env = Env(blockTimeSeconds: U64)

  datatype QueryMsg = ProofAge(proof: CircomProof)

  /** Rust's `as i64` on a `u64`: the value read as a two's-complement 64-bit integer. */
  function AsI64(s: U64): (r: int)
    ensures -TwoTo63 <= r < TwoTo63
    ensures (s - r) % TwoTo64 == 0
    ensures s < TwoTo63 ==> r == s
  {
    if s < TwoTo63 then s else s - TwoTo64
  }

  /** The timestamp projected to `format("%Y%m%d")` of its UTC date, or `None`
      when the calendar cannot represent it. */
  function CurrentDate(env: Env): (r: Option<string>)
    ensures r.Some? <==> FirstSupportedSecond() <= AsI64(env.blockTimeSeconds) < EndOfSupportedSeconds()
  {
    match FromTimestampOpt(AsI64(env.blockTimeSeconds))
    case None => None
    case Some(dateTime) => Some(FormatYmd(dateTime.date))
  }

  /** `proof_age`. `None` is a panic (an `unwrap` in the proof decoder, the
      signal parser or the verifier, including the verifier's refusal of two
      inputs against a key whose basis does not have three points and the
      Groth16 check's own error);
      `Some(false)` is also the answer for a clock that cannot be turned into
      a date. */
  function ProofAge(env: Env, proof: CircomProof, backend: Backend, embedded: VerifyingKeyJson): (r: Option<bool>)
    ensures CurrentDate(env).None? ==> r == Some(false)
    ensures CurrentDate(env).Some? && r.Some? ==>
              var date := CurrentDate(env).value;
              && backend.toProof(proof).Some?
              && backend.parseFr(CircuitConstant).Some?
              && backend.parseFr(date).Some?
              && ToVerifyingKey(embedded, backend.parseFq).Some?
              && |embedded.ic| == 3
    ensures CurrentDate(env).Some? ==>
              var date := CurrentDate(env).value;
              (&& backend.toProof(proof).Some?
               && backend.parseFr(CircuitConstant).Some?
               && backend.parseFr(date).Some?
               && ToVerifyingKey(embedded, backend.parseFq).Some?
               && |embedded.ic| == 3)
              ==>
              r == backend.groth16Verify(
                     ToVerifyingKey(embedded, backend.parseFq).value,
                     backend.toProof(proof).value,
                     [backend.parseFr(CircuitConstant).value, backend.parseFr(date).value])
  {
    match CurrentDate(env)
    case None => Some(false)
    case Some(currDate) =>
      var publicSignals := FromValues(currDate);
      PublicInputsOfDate(currDate, backend.parseFr);
      ToVerifyingKeySucceedsIff(embedded, backend.parseFq);
      match (backend.toProof(proof), ParseAll(publicSignals.signals, backend.parseFr))
      case (Some(arkProof), Some(inputs)) => V.VerifyProof(V.New(embedded), arkProof, inputs, backend)
      case _ => None
  }

  /** `query`: the only message is `ProofAge`, answered by `proof_age` alone. */
  function Query(env: Env, msg: QueryMsg, backend: Backend, embedded: VerifyingKeyJson): (r: Option<bool>)
    ensures r == ProofAge(env, msg.proof, backend, embedded)
  {
    match msg
    case ProofAge(proof) => ProofAge(env, proof, backend, embedded)
  }

  // ---------------------------------------------------------------------------
  // The clock and the date signal.

  /** The date signal is the rendering of the one valid date whose POSIX
      midnight is the block time with its time of day removed. */
  lemma CurrentDateIsPosixDate(env: Env, d: Date)
    requires ValidDate(d) && MinYear <= d.year <= MaxYear
    requires var t := AsI64(env.blockTimeSeconds);
             PosixSecondsSinceEpoch(0, 0, 0, DayOfYear(d), d.year - 1900) == t - t % SecondsPerDay
    ensures CurrentDate(env) == Some(FormatYmd(d))
  {
    var t := AsI64(env.blockTimeSeconds);
    PosixMidnightIsEpochDay(d);
    assert EpochDay(d) == t / SecondsPerDay;
    CivilFromEpochDay(d);
  }

  /** When the clock projects, the date signal is eight ASCII digits exactly
      when the block time falls in the years 0 to 9999. */
  lemma CurrentDateEightDigitsIff(env: Env)
    requires CurrentDate(env).Some?
    ensures var s := CurrentDate(env).value;
            var t := AsI64(env.blockTimeSeconds);
            |s| == 8 && AllDigits(s)
            <==> DaysBeforeYear(0) * SecondsPerDay <= t < DaysBeforeYear(10000) * SecondsPerDay
  {
    var t := AsI64(env.blockTimeSeconds);
    var d := FromTimestampOpt(t).value.date;
    FormatYmdEightDigitsIff(d);
    CivilFromEpochDay(d);
    assert EpochDay(d) == t / SecondsPerDay;
    YearInRangeIff(t / SecondsPerDay, 0, 9999);
  }

  /** The time of day is discarded: block times on the same day give the same
      answer for every proof. */
  lemma ProofAgeIgnoresTimeOfDay(env1: Env, env2: Env, proof: CircomProof, backend: Backend,
                                 embedded: VerifyingKeyJson)
    requires AsI64(env1.blockTimeSeconds) / SecondsPerDay == AsI64(env2.blockTimeSeconds) / SecondsPerDay
    ensures CurrentDate(env1) == CurrentDate(env2)
    ensures ProofAge(env1, proof, backend, embedded) == ProofAge(env2, proof, backend, embedded)
  {
    SameDaySameDate(AsI64(env1.blockTimeSeconds), AsI64(env2.blockTimeSeconds));
  }

  lemma EpochDayFrom1970(d: Date)
    requires ValidDate(d) && d.year >= 1970
    ensures EpochDay(d) >= 0
  {
    DayOfYearBounds(d);
    if d.year > 1970 {
      DaysBeforeYearMonotonic(1970, d.year);
    }
  }

  /** A block time of 2^63 seconds or more wraps to a negative `i64`, so it
      is read either as no date at all or as a date before 1970. */
  lemma WrappedClockPrecedesEpoch(env: Env)
    requires env.blockTimeSeconds >= TwoTo63
    ensures AsI64(env.blockTimeSeconds) < 0
    ensures FromTimestampOpt(AsI64(env.blockTimeSeconds)).Some? ==>
              FromTimestampOpt(AsI64(env.blockTimeSeconds)).value.date.year < 1970
  {
    var t := AsI64(env.blockTimeSeconds);
    if FromTimestampOpt(t).Some? && FromTimestampOpt(t).value.date.year >= 1970 {
      EpochDayFrom1970(FromTimestampOpt(t).value.date);
    }
  }

  // ---------------------------------------------------------------------------
  // The clock value of the contract's test.

  lemma TestClockDateSignal(env: Env)
    requires env.blockTimeSeconds == 1683556139
    ensures CurrentDate(env) == Some("20230508")
  {
    TestClockDate();
    TestDateText();
  }

  /** At the test's block time, `proof_age` asks the verifier exactly what the
      verifier's own test asks it: the proof against the signals
      `[CircuitConstant, "20230508"]`, in that order. */
  lemma ProofAgeAtTestClock(env: Env, proof: CircomProof, backend: Backend, embedded: VerifyingKeyJson)
    requires env.blockTimeSeconds == 1683556139
    ensures var inputs := ParseAll(From([CircuitConstant, "20230508"]).signals, backend.parseFr);
            ProofAge(env, proof, backend, embedded)
            == if backend.toProof(proof).Some? && inputs.Some?
               then V.VerifyProof(V.New(embedded), backend.toProof(proof).value, inputs.value, backend)
               else None
  {
    TestClockDateSignal(env);
    PublicInputsOfDate("20230508", backend.parseFr);
  }
}
