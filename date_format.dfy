/** `format("%Y%m%d")` of a UTC date: the year (zero-padded to four digits,
    or signed when outside 0..9999, as the calendar library documents),
    then the month and the day, each zero-padded to two digits. */
module DateFormat {
  import opened Wrappers
  import opened Calendar

  predicate IsDigit(c: char)
  {
    '0' <= c <= '9'
  }

  predicate AllDigits(s: string)
  {
    forall i :: 0 <= i < |s| ==> IsDigit(s[i])
  }

  function DigitChar(n: int): (c: char)
    requires 0 <= n < 10
    ensures IsDigit(c) && c as int - '0' as int == n
  {
    ('0' as int + n) as char
  }

  function Pow10(w: nat): (p: nat)
    ensures p >= 1
  {
    if w == 0 then 1 else 10 * Pow10(w - 1)
  }

  /** The last `w` decimal digits of `n`, zero-padded on the left. */
  function FixedDigits(n: nat, w: nat): (s: string)
    ensures |s| == w && AllDigits(s)
  {
    if w == 0 then "" else FixedDigits(n / 10, w - 1) + [DigitChar(n % 10)]
  }

  /** The number of decimal digits of `n` without leading zeros. */
  function NumDigits(n: nat): (k: nat)
    ensures k >= 1
  {
    if n < 10 then 1 else 1 + NumDigits(n / 10)
  }

  /** The value of a string of decimal digits. */
  function DecimalValue(s: string): nat
    requires AllDigits(s)
  {
    if s == [] then 0
    else DecimalValue(s[..|s| - 1]) * 10 + (s[|s| - 1] as int - '0' as int)
  }

  lemma MulAtLeast(m: nat, j: int)
    requires m >= 1 && j >= 1
    ensures m * j >= m
  {
    assert m * j == m * (j - 1) + m;
  }

  /** The remainder is the unique `t` with `n == m * k + t` and `0 <= t < m`. */
  lemma ModUnique(n: int, m: nat, k: int, t: int)
    requires m >= 1 && n == m * k + t && 0 <= t < m
    ensures n % m == t
  {
    var q := n / m;
    assert n == m * q + n % m;
    assert m * (k - q) == n % m - t;
    if k - q >= 1 {
      MulAtLeast(m, k - q);
    } else if q - k >= 1 {
      MulAtLeast(m, q - k);
    }
  }

  lemma ModOfSplit(n: nat, p: nat)
    requires p >= 1
    ensures ((n / 10) % p) * 10 + n % 10 == n % (10 * p)
  {
    var q, r := n / 10, n % 10;
    var k, t := q / p, q % p;
    assert q == p * k + t;
    assert n == (10 * p) * k + (10 * t + r) by {
      assert n == 10 * q + r;
      assert 10 * q == 10 * (p * k) + 10 * t;
      assert 10 * (p * k) == (10 * p) * k;
    }
    assert 10 * t + r < 10 * p by {
      assert t <= p - 1;
      assert 10 * t <= 10 * p - 10;
    }
    ModUnique(n, 10 * p, k, 10 * t + r);
  }

  /** Reading back `FixedDigits(n, w)` gives `n` modulo 10^w. */
  lemma {:induction false} FixedDigitsValue(n: nat, w: nat)
    ensures DecimalValue(FixedDigits(n, w)) == n % Pow10(w)
  {
    if w > 0 {
      var s := FixedDigits(n, w);
      assert s[..|s| - 1] == FixedDigits(n / 10, w - 1);
      FixedDigitsValue(n / 10, w - 1);
      ModOfSplit(n, Pow10(w - 1));
    }
  }

  /** `FixedDigits` of a number below 10^w reads back as the number. */
  lemma FixedDigitsRoundTrip(n: nat, w: nat)
    requires n < Pow10(w)
    ensures DecimalValue(FixedDigits(n, w)) == n
  {
    FixedDigitsValue(n, w);
  }

  lemma {:induction false} NumDigitsBound(n: nat)
    ensures n < Pow10(NumDigits(n))
  {
    if n >= 10 {
      NumDigitsBound(n / 10);
    }
  }

  lemma {:induction false} Pow10Monotonic(v: nat, w: nat)
    requires v <= w
    ensures Pow10(v) <= Pow10(w)
  {
    if v < w {
      Pow10Monotonic(v, w - 1);
    }
  }

  function Abs(y: int): nat
  {
    if y < 0 then -y else y
  }

  /** `%Y`: four zero-padded digits for years 0 to 9999; other years carry a
      sign and at least four digits. */
  function YearText(y: int): (s: string)
    ensures 0 <= y <= 9999 ==> |s| == 4 && AllDigits(s) && DecimalValue(s) == y
    ensures !(0 <= y <= 9999) ==> |s| >= 5 && s[0] == (if y < 0 then '-' else '+')
    ensures !(0 <= y <= 9999) ==> AllDigits(s[1..]) && DecimalValue(s[1..]) == Abs(y)
  {
    if 0 <= y <= 9999 then
      FixedDigitsRoundTrip(y, 4);
      FixedDigits(y, 4)
    else
      var width := if NumDigits(Abs(y)) < 4 then 4 else NumDigits(Abs(y));
      var digits := FixedDigits(Abs(y), width);
      NumDigitsBound(Abs(y));
      Pow10Monotonic(NumDigits(Abs(y)), width);
      FixedDigitsRoundTrip(Abs(y), width);
      assert ((if y < 0 then "-" else "+") + digits)[1..] == digits;
      (if y < 0 then "-" else "+") + digits
  }

  /** `format("%Y%m%d")` of a date. */
  function FormatYmd(d: Date): string
    requires ValidDate(d)
  {
    YearText(d.year) + FixedDigits(d.month, 2) + FixedDigits(d.day, 2)
  }

  /** The inverse of `FormatYmd` on eight-digit strings. */
  function ParseYmd(s: string): Option<Date>
  {
    if |s| == 8 && AllDigits(s) then
      Some(Date(DecimalValue(s[..4]), DecimalValue(s[4..6]), DecimalValue(s[6..])))
    else None
  }

  /** A date of years 0 to 9999 is written as exactly eight decimal digits,
      and no date of another year is. */
  lemma FormatYmdEightDigitsIff(d: Date)
    requires ValidDate(d)
    ensures |FormatYmd(d)| == 8 && AllDigits(FormatYmd(d)) <==> 0 <= d.year <= 9999
  {
    if !(0 <= d.year <= 9999) {
      assert !IsDigit(FormatYmd(d)[0]);
    }
  }

  /** Reading the eight digits back as year, month and day gives the date:
      the rendering loses nothing and puts the fields in Y, M, D order. */
  lemma FormatYmdRoundTrip(d: Date)
    requires ValidDate(d) && 0 <= d.year <= 9999
    ensures ParseYmd(FormatYmd(d)) == Some(d)
  {
    var s := FormatYmd(d);
    FormatYmdEightDigitsIff(d);
    assert s[..4] == YearText(d.year);
    assert s[4..6] == FixedDigits(d.month, 2);
    assert s[6..] == FixedDigits(d.day, 2);
    FixedDigitsRoundTrip(d.month, 2);
    FixedDigitsRoundTrip(d.day, 2);
  }

  /** Different dates of years 0 to 9999 give different strings. */
  lemma FormatYmdInjective(d1: Date, d2: Date)
    requires ValidDate(d1) && 0 <= d1.year <= 9999
    requires ValidDate(d2) && 0 <= d2.year <= 9999
    requires FormatYmd(d1) == FormatYmd(d2)
    ensures d1 == d2
  {
    FormatYmdRoundTrip(d1);
    FormatYmdRoundTrip(d2);
  }

  /** The date of the contract's test renders as the test's date signal. */
  lemma TestDateText()
    ensures FormatYmd(Date(2023, 5, 8)) == "20230508"
  {
  }
}
