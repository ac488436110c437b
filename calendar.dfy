/** The proleptic Gregorian calendar and the conversion the contract asks of
    the calendar library (`NaiveDateTime::from_timestamp_opt(secs, 0)`):
    seconds since the Unix epoch to a UTC date and second of the day, as
    POSIX.1-2017, XBD section 4.16 "Seconds Since the Epoch", defines it. */
module Calendar {
  import opened Wrappers

  const SecondsPerDay: int := 86400

  /** The calendar library's first and last supported years (chrono 0.4's
      `MIN_YEAR` and `MAX_YEAR`); dates outside them cannot be represented. */
  const MinYear: int := -262144
  const MaxYear: int := 262143

  /** A calendar date; year 0 is 1 BCE (astronomical numbering). */
  datatype Date = Date(year: int, month: int, day: int)

  /** A date and time without a zone; the nanosecond part is always 0 here. */
  datatype NaiveDateTime = NaiveDateTime(date: Date, secondOfDay: int)

  predicate IsLeapYear(y: int)
  {
    y % 4 == 0 && (y % 100 != 0 || y % 400 == 0)
  }

  function DaysInYear(y: int): int
  {
    if IsLeapYear(y) then 366 else 365
  }

  function DaysInMonth(y: int, m: int): int
    requires 1 <= m <= 12
  {
    if m == 2 then (if IsLeapYear(y) then 29 else 28)
    else if m == 4 || m == 6 || m == 9 || m == 11 then 30
    else 31
  }

  predicate ValidDate(d: Date)
  {
    1 <= d.month <= 12 && 1 <= d.day <= DaysInMonth(d.year, d.month)
  }

  /** Days of year `y` before the first of month `m`; `m = 13` gives the whole year. */
  function DaysBeforeMonth(y: int, m: int): int
    requires 1 <= m <= 13
  {
    [0, 31, 59, 90, 120, 151, 181, 212, 243, 273, 304, 334, 365][m - 1]
      + (if m > 2 && IsLeapYear(y) then 1 else 0)
  }

  /** The cumulative table agrees with the month lengths, and covers the year. */
  lemma DaysBeforeMonthStep(y: int, m: int)
    requires 1 <= m <= 12
    ensures DaysBeforeMonth(y, m + 1) == DaysBeforeMonth(y, m) + DaysInMonth(y, m)
    ensures DaysBeforeMonth(y, 1) == 0 && DaysBeforeMonth(y, 13) == DaysInYear(y)
  {
  }

  lemma DaysBeforeMonthMonotonic(y: int, m1: int, m2: int)
    requires 1 <= m1 < m2 <= 13
    ensures DaysBeforeMonth(y, m1) < DaysBeforeMonth(y, m2)
  {
  }

  /** `tm_yday`: days since the first of January of the date's year. */
  function DayOfYear(d: Date): int
    requires 1 <= d.month <= 12
  {
    DaysBeforeMonth(d.year, d.month) + d.day - 1
  }

  /** The expression of POSIX.1-2017, XBD section 4.16, with `tm_year` the
      year minus 1900. POSIX gives it for years from 1970 on, where its
      divisions have non-negative operands; floor division extends it to
      the whole proleptic calendar. */
  function PosixSecondsSinceEpoch(tmSec: int, tmMin: int, tmHour: int, tmYday: int, tmYear: int): int
  {
    tmSec + tmMin * 60 + tmHour * 3600 + tmYday * 86400 + (tmYear - 70) * 31536000
      + ((tmYear - 69) / 4) * 86400 - ((tmYear - 1) / 100) * 86400 + ((tmYear + 299) / 400) * 86400
  }

  /** Days from 1970-01-01 to the first of January of year `y`. */
  function DaysBeforeYear(y: int): int
  {
    365 * (y - 1970) + (y - 1969) / 4 - (y - 1901) / 100 + (y - 1601) / 400
  }

  /** The number of the date's day counted from 1970-01-01 (day 0). */
  function EpochDay(d: Date): int
    requires 1 <= d.month <= 12
  {
    DaysBeforeYear(d.year) + DayOfYear(d)
  }

  /** POSIX's formula at midnight is 86400 times the epoch day. */
  lemma PosixMidnightIsEpochDay(d: Date)
    requires 1 <= d.month <= 12
    ensures PosixSecondsSinceEpoch(0, 0, 0, DayOfYear(d), d.year - 1900) == EpochDay(d) * SecondsPerDay
  {
  }

  /** Each year adds its own length. */
  lemma DaysBeforeYearStep(y: int)
    ensures DaysBeforeYear(y + 1) == DaysBeforeYear(y) + DaysInYear(y)
  {
    LeapTermStep(y, 1969, 4);
    LeapTermStep(y, 1901, 100);
    LeapTermStep(y, 1601, 400);
  }

  /** One of the three leap terms of `DaysBeforeYear`: `(y - base) / k` gains
      one from year `y` to year `y + 1` exactly when `k` divides `y`. */
  lemma LeapTermStep(y: int, base: int, k: int)
    requires (base, k) == (1969, 4) || (base, k) == (1901, 100) || (base, k) == (1601, 400)
    ensures (y + 1 - base) / k == (y - base) / k + (if y % k == 0 then 1 else 0)
  {
    FloorDivStep(y - base, k);
    if k == 4 {
      assert (y + 1 - base) % 4 == 0 <==> y % 4 == 0;
    } else if k == 100 {
      assert (y + 1 - base) % 100 == 0 <==> y % 100 == 0;
    } else {
      assert (y + 1 - base) % 400 == 0 <==> y % 400 == 0;
    }
  }

  /** Rounding down `a / k` gains one exactly when `a + 1` is a multiple of `k`. */
  lemma FloorDivStep(a: int, k: int)
    requires k == 4 || k == 100 || k == 400
    ensures (a + 1) / k == a / k + (if (a + 1) % k == 0 then 1 else 0)
  {
    var q, r := a / k, a % k;
    assert a == k * q + r && 0 <= r < k;
    if r == k - 1 {
      assert a + 1 == k * (q + 1);
    } else {
      assert a + 1 == k * q + (r + 1);
    }
  }

  /** Four hundred years hold 146097 days; each year's start is within a few
      days of the average year's. */
  lemma DaysBeforeYearBounds(y: int)
    ensures 146097 * (y - 1970) - 506 <= 400 * DaysBeforeYear(y) <= 146097 * (y - 1970) + 589
  {
  }

  lemma DaysBeforeYearMonotonic(y1: int, y2: int)
    requires y1 < y2
    ensures DaysBeforeYear(y1) < DaysBeforeYear(y2)
  {
    if y2 == y1 + 1 {
      DaysBeforeYearStep(y1);
    } else {
      DaysBeforeYearBounds(y1);
      DaysBeforeYearBounds(y2);
    }
  }

  /** The year that holds epoch day `z`. */
  function YearOfDay(z: int): (y: int)
    ensures DaysBeforeYear(y) <= z < DaysBeforeYear(y + 1)
  {
    var y0 := 1970 + (400 * z) / 146097;
    DaysBeforeYearBounds(y0 - 1);
    DaysBeforeYearBounds(y0);
    DaysBeforeYearBounds(y0 + 1);
    DaysBeforeYearBounds(y0 + 2);
    if z < DaysBeforeYear(y0) then y0 - 1
    else if z < DaysBeforeYear(y0 + 1) then y0
    else y0 + 1
  }

  /** The month, searched from `m` on, that holds day `doy` of year `y`. */
  function MonthOfDay(y: int, doy: int, m: int): (r: int)
    requires 1 <= m <= 12 && DaysBeforeMonth(y, m) <= doy < DaysInYear(y)
    ensures m <= r <= 12
    ensures DaysBeforeMonth(y, r) <= doy < DaysBeforeMonth(y, r) + DaysInMonth(y, r)
    decreases 12 - m
  {
    DaysBeforeMonthStep(y, m);
    if m == 12 || doy < DaysBeforeMonth(y, m + 1) then m
    else MonthOfDay(y, doy, m + 1)
  }

  /** The calendar date of epoch day `z`. */
  function CivilFromDays(z: int): (d: Date)
    ensures ValidDate(d) && EpochDay(d) == z
  {
    var y := YearOfDay(z);
    DaysBeforeYearStep(y);
    var doy := z - DaysBeforeYear(y);
    var m := MonthOfDay(y, doy, 1);
    Date(y, m, doy - DaysBeforeMonth(y, m) + 1)
  }

  /** A valid date's day of the year lies within its year. */
  lemma DayOfYearBounds(d: Date)
    requires ValidDate(d)
    ensures 0 <= DayOfYear(d) < DaysInYear(d.year)
  {
    DaysBeforeMonthStep(d.year, d.month);
    if d.month < 12 {
      DaysBeforeMonthMonotonic(d.year, d.month + 1, 13);
    }
  }

  /** The year is determined by the epoch day. */
  lemma EpochDayDeterminesYear(a: Date, b: Date)
    requires ValidDate(a) && ValidDate(b) && a.year < b.year
    ensures EpochDay(a) < EpochDay(b)
  {
    DayOfYearBounds(a);
    DayOfYearBounds(b);
    DaysBeforeYearStep(a.year);
    if a.year + 1 < b.year {
      DaysBeforeYearMonotonic(a.year + 1, b.year);
    }
  }

  /** Within one year, the month and day are determined by the day of the year. */
  lemma DayOfYearDeterminesDate(a: Date, b: Date)
    requires ValidDate(a) && ValidDate(b) && a.year == b.year && DayOfYear(a) == DayOfYear(b)
    ensures a == b
  {
    DaysBeforeMonthStep(a.year, a.month);
    DaysBeforeMonthStep(b.year, b.month);
    if a.month < b.month {
      DaysBeforeMonthMonotonic(a.year, a.month + 1, b.month + 1);
      if a.month + 1 < b.month {
        DaysBeforeMonthMonotonic(a.year, a.month + 1, b.month);
      }
    } else if b.month < a.month {
      DaysBeforeMonthMonotonic(a.year, b.month + 1, a.month + 1);
      if b.month + 1 < a.month {
        DaysBeforeMonthMonotonic(a.year, b.month + 1, a.month);
      }
    }
  }

  /** Different valid dates have different epoch days, so the date found by
      `CivilFromDays` is the only one with that day number. */
  lemma EpochDayInjective(a: Date, b: Date)
    requires ValidDate(a) && ValidDate(b)
    requires EpochDay(a) == EpochDay(b)
    ensures a == b
  {
    if a.year < b.year {
      EpochDayDeterminesYear(a, b);
    } else if b.year < a.year {
      EpochDayDeterminesYear(b, a);
    } else {
      DayOfYearDeterminesDate(a, b);
    }
  }

  /** First second the calendar can represent, and the first one past its end. */
  function FirstSupportedSecond(): int
  {
    DaysBeforeYear(MinYear) * SecondsPerDay
  }

  function EndOfSupportedSeconds(): int
  {
    DaysBeforeYear(MaxYear + 1) * SecondsPerDay
  }

  /** `NaiveDateTime::from_timestamp_opt(secs, 0)`: the day is `secs` divided
      by 86400 rounded down, the second of the day the remainder; `None` when
      the date's year is outside the supported range. */
  function FromTimestampOpt(secs: int): (r: Option<NaiveDateTime>)
    ensures r.Some? <==> FirstSupportedSecond() <= secs < EndOfSupportedSeconds()
    ensures r.Some? ==> ValidDate(r.value.date) && MinYear <= r.value.date.year <= MaxYear
    ensures r.Some? ==> 0 <= r.value.secondOfDay < SecondsPerDay
    ensures r.Some? ==> EpochDay(r.value.date) * SecondsPerDay + r.value.secondOfDay == secs
  {
    var date := CivilFromDays(secs / SecondsPerDay);
    YearInRangeIff(secs / SecondsPerDay, MinYear, MaxYear);
    if MinYear <= date.year <= MaxYear then Some(NaiveDateTime(date, secs % SecondsPerDay))
    else None
  }

  lemma YearAtLeastIff(y: int, z: int, lo: int)
    requires DaysBeforeYear(y) <= z < DaysBeforeYear(y + 1)
    ensures lo <= y <==> DaysBeforeYear(lo) <= z
  {
    if lo < y {
      DaysBeforeYearMonotonic(lo, y);
    } else if y + 1 < lo {
      DaysBeforeYearMonotonic(y + 1, lo);
    }
  }

  lemma YearAtMostIff(y: int, z: int, hi: int)
    requires DaysBeforeYear(y) <= z < DaysBeforeYear(y + 1)
    ensures y <= hi <==> z < DaysBeforeYear(hi + 1)
  {
    if y < hi {
      DaysBeforeYearMonotonic(y + 1, hi + 1);
    } else if hi + 1 < y {
      DaysBeforeYearMonotonic(hi + 1, y);
    }
  }

  /** The year of epoch day `z` lies in `lo..hi` exactly when `z` lies between
      the first of January of `lo` and the end of `hi`. */
  lemma YearInRangeIff(z: int, lo: int, hi: int)
    ensures lo <= CivilFromDays(z).year <= hi <==> DaysBeforeYear(lo) <= z < DaysBeforeYear(hi + 1)
  {
    var d := CivilFromDays(z);
    DayOfYearBounds(d);
    DaysBeforeYearStep(d.year);
    YearAtLeastIff(d.year, z, lo);
    YearAtMostIff(d.year, z, hi);
  }

  /** The POSIX relation: the projected date's midnight, by the formula of
      XBD section 4.16, is the timestamp with its time of day removed, and
      that date is the only valid one with this property. */
  lemma FromTimestampIsPosixDate(secs: int, other: Date)
    requires FromTimestampOpt(secs).Some?
    ensures var d := FromTimestampOpt(secs).value.date;
            PosixSecondsSinceEpoch(0, 0, 0, DayOfYear(d), d.year - 1900) == secs - secs % SecondsPerDay
    ensures ValidDate(other) &&
            PosixSecondsSinceEpoch(0, 0, 0, DayOfYear(other), other.year - 1900) == secs - secs % SecondsPerDay
            ==> other == FromTimestampOpt(secs).value.date
  {
    var d := FromTimestampOpt(secs).value.date;
    PosixMidnightIsEpochDay(d);
    if ValidDate(other) &&
       PosixSecondsSinceEpoch(0, 0, 0, DayOfYear(other), other.year - 1900) == secs - secs % SecondsPerDay {
      PosixMidnightIsEpochDay(other);
      EpochDayInjective(other, d);
    }
  }

  /** Two timestamps on the same day (same `secs / 86400`) give the same date. */
  lemma SameDaySameDate(s1: int, s2: int)
    requires s1 / SecondsPerDay == s2 / SecondsPerDay
    ensures FromTimestampOpt(s1).Some? == FromTimestampOpt(s2).Some?
    ensures FromTimestampOpt(s1).Some? ==> FromTimestampOpt(s1).value.date == FromTimestampOpt(s2).value.date
  {
  }

  /** The epoch day of a valid date converts back to that date. */
  lemma CivilFromEpochDay(d: Date)
    requires ValidDate(d)
    ensures CivilFromDays(EpochDay(d)) == d
  {
    EpochDayInjective(CivilFromDays(EpochDay(d)), d);
  }

  lemma TestClockDayNumber(secs: int)
    requires secs == 1683556139
    ensures FromTimestampOpt(secs).Some?
    ensures EpochDay(FromTimestampOpt(secs).value.date) == 19485
    ensures FromTimestampOpt(secs).value.secondOfDay == 52139
  {
    assert FirstSupportedSecond() <= secs < EndOfSupportedSeconds();
    var got := FromTimestampOpt(secs).value;
    assert EpochDay(got.date) * SecondsPerDay + got.secondOfDay == secs;
  }

  lemma TestClockDayIsDate(a: Date)
    requires ValidDate(a) && EpochDay(a) == 19485
    ensures a == Date(2023, 5, 8)
  {
    var expected := Date(2023, 5, 8);
    assert ValidDate(expected) && EpochDay(expected) == 19485;
    EpochDayInjective(a, expected);
  }

  /** The clock value of the contract's test: 2023-05-08, 14:28:59 UTC. */
  lemma TestClockDate()
    ensures FromTimestampOpt(1683556139) == Some(NaiveDateTime(Date(2023, 5, 8), 52139))
  {
    TestClockDayNumber(1683556139);
    TestClockDayIsDate(FromTimestampOpt(1683556139).value.date);
  }
}
