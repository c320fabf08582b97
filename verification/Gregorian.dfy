/**
 The proleptic Gregorian calendar that tztime.c computes with: leap years, the
 number of days before a year or a month, and the second count of a date. A date
 is compared with the code only through these definitions.
 */
module Gregorian {
  import opened Division

  const EPOCH_YEAR: int := 1970
  const SECSPERDAY: int := 86400

  predicate IsLeap(y: int) { y % 4 == 0 && (y % 100 != 0 || y % 400 == 0) }

  function YearLength(y: int): int { if IsLeap(y) then 366 else 365 }

  /**
   Leap years through the end of year y, counted from year zero. The code
   reflects negative years onto non-negative ones because C division truncates;
   the result is the usual formula with rounding towards minus infinity.
   */
  function LeapsThruEndOf(y: int): (r: int)
    ensures r == y / 4 - y / 100 + y / 400
    decreases y < 0
  {
    if y >= 0 then y / 4 - y / 100 + y / 400
    else
      DivReflect(-(y + 1), 4);
      DivReflect(-(y + 1), 100);
      DivReflect(-(y + 1), 400);
      -(LeapsThruEndOf(-(y + 1)) + 1)
  }

  /** Days from 1 January 1970 to 1 January of year y, by the formula of timesub. */
  function DaysBefore(y: int): int {
    365 * (y - EPOCH_YEAR) + LeapsThruEndOf(y - 1) - LeapsThruEndOf(EPOCH_YEAR - 1)
  }

  lemma LeapStep(y: int)
    ensures LeapsThruEndOf(y) - LeapsThruEndOf(y - 1) == if IsLeap(y) then 1 else 0
  {
    DivPred(y, 4);
    DivPred(y, 100);
    DivPred(y, 400);
    FourHundreds(y);
  }

  lemma FourHundreds(y: int)
    ensures y % 400 == 0 ==> y % 100 == 0
    ensures y % 100 == 0 ==> y % 4 == 0
  {
  }

  /** The formula adds up the lengths of the years. */
  lemma DaysBeforeStep(y: int)
    ensures DaysBefore(y + 1) == DaysBefore(y) + YearLength(y)
    ensures DaysBefore(EPOCH_YEAR) == 0
  {
    LeapStep(y);
  }

  /** Between 365 and 366 days per year, and never more than 1461 per four years by more than two days. */
  lemma YearSpan(a: int, b: int)
    requires a <= b
    ensures 365 * (b - a) <= DaysBefore(b) - DaysBefore(a) <= 366 * (b - a)
    ensures 4 * (DaysBefore(b) - DaysBefore(a)) <= 1461 * (b - a) + 8
  {
    LeapBounds(a - 1, b - 1);
  }

  lemma LeapBounds(a: int, b: int)
    requires a <= b
    ensures 0 <= LeapsThruEndOf(b) - LeapsThruEndOf(a) <= b - a
    ensures 4 * (LeapsThruEndOf(b) - LeapsThruEndOf(a)) <= b - a + 8
  {
    LeapMonotone(a, b);
    assert 4 * (b / 4) <= b && a < 4 * (a / 4) + 4;
    assert 100 * (b / 100) <= b < 100 * (b / 100) + 100 && 100 * (a / 100) <= a < 100 * (a / 100) + 100;
    assert 400 * (b / 400) <= b < 400 * (b / 400) + 400 && 400 * (a / 400) <= a < 400 * (a / 400) + 400;
    assert b / 400 - a / 400 <= b / 100 - a / 100 + 1;
  }

  lemma {:induction false} LeapMonotone(a: int, b: int)
    requires a <= b
    ensures 0 <= LeapsThruEndOf(b) - LeapsThruEndOf(a) <= b - a
    decreases b - a
  {
    if a < b {
      LeapMonotone(a, b - 1);
      LeapStep(b);
    }
  }

  lemma YearsAreOrdered(a: int, b: int)
    ensures a < b ==> DaysBefore(a) < DaysBefore(b)
  {
    if a < b {
      YearSpan(a, b);
    }
  }

  // ----- the year a day falls in -----

  predicate InYear(y: int, d: int) { DaysBefore(y) <= d < DaysBefore(y + 1) }

  lemma {:induction false} YearExists(y: int, d: int)
    ensures exists z :: InYear(z, d)
    decreases if d < DaysBefore(y) then DaysBefore(y) - d else d - DaysBefore(y)
  {
    if InYear(y, d) {
    } else if d < DaysBefore(y) {
      DaysBeforeStep(y - 1);
      if d < DaysBefore(y - 1) {
        YearExists(y - 1, d);
      } else {
        assert InYear(y - 1, d);
      }
    } else {
      DaysBeforeStep(y);
      YearExists(y + 1, d);
    }
  }

  ghost function YearOf(d: int): (y: int)
    ensures InYear(y, d)
  {
    YearExists(EPOCH_YEAR, d);
    var y :| InYear(y, d);
    y
  }

  lemma YearIsUnique(y: int, d: int)
    requires InYear(y, d)
    ensures y == YearOf(d)
  {
    var z := YearOf(d);
    YearsAreOrdered(y + 1, z);
    YearsAreOrdered(z + 1, y);
  }

  lemma YearOfIsMonotone(d: int, e: int)
    requires d <= e
    ensures YearOf(d) <= YearOf(e)
  {
    var y, z := YearOf(d), YearOf(e);
    if z < y {
      YearsAreOrdered(z + 1, y);
    }
  }

  /** DaysBefore(y) <= d says that the year of d is y or later. */
  lemma YearOfBounds(y: int, d: int)
    ensures DaysBefore(y) <= d <==> y <= YearOf(d)
  {
    var z := YearOf(d);
    YearsAreOrdered(z + 1, y);
    YearsAreOrdered(y, z);
  }

  // ----- months -----

  /** mon_lengths. */
  function MonthLength(leap: bool, m: int): int
    requires 0 <= m < 12
  {
    if m == 1 then (if leap then 29 else 28)
    else if m == 3 || m == 5 || m == 8 || m == 10 then 30
    else 31
  }

  /** Days of the year before month m. */
  function MonthStart(leap: bool, m: int): int
    requires 0 <= m <= 12
  {
    if m == 0 then 0 else MonthStart(leap, m - 1) + MonthLength(leap, m - 1)
  }

  lemma MonthStarts(leap: bool)
    ensures MonthStart(leap, 1) == 31 && MonthStart(leap, 0) == 0
    ensures var f := if leap then 1 else 0;
            MonthStart(leap, 2) == 59 + f && MonthStart(leap, 3) == 90 + f && MonthStart(leap, 4) == 120 + f
            && MonthStart(leap, 5) == 151 + f && MonthStart(leap, 6) == 181 + f && MonthStart(leap, 7) == 212 + f
            && MonthStart(leap, 8) == 243 + f && MonthStart(leap, 9) == 273 + f && MonthStart(leap, 10) == 304 + f
            && MonthStart(leap, 11) == 334 + f && MonthStart(leap, 12) == 365 + f
  {
    assert MonthStart(leap, 3) == MonthStart(leap, 2) + 31;
    assert MonthStart(leap, 6) == MonthStart(leap, 5) + 30;
    assert MonthStart(leap, 9) == MonthStart(leap, 8) + 30;
  }

  lemma {:induction false} MonthsAreOrdered(leap: bool, m: int, n: int)
    requires 0 <= m < n <= 12
    ensures MonthStart(leap, m) + MonthLength(leap, m) <= MonthStart(leap, n)
    decreases n - m
  {
    if m + 1 < n {
      MonthsAreOrdered(leap, m, n - 1);
    }
  }

  // ----- dates -----

  /** A broken-down time, tm_year already turned into the year number. */
  datatype Civil = Civil(year: int, mon: int, mday: int, hour: int, min: int, sec: int)

  predicate IsCivil(c: Civil) {
    && 0 <= c.mon < 12 && 1 <= c.mday <= MonthLength(IsLeap(c.year), c.mon)
    && 0 <= c.hour < 24 && 0 <= c.min < 60 && 0 <= c.sec < 60
  }

  /** Day number of a date, counted from 1 January 1970. */
  function DayNumber(year: int, mon: int, mday: int): int
    requires 0 <= mon < 12
  {
    DaysBefore(year) + MonthStart(IsLeap(year), mon) + mday - 1
  }

  /** Seconds from the Epoch to a date and time, both in the same zone. */
  function Seconds(c: Civil): int
    requires 0 <= c.mon < 12
  {
    DayNumber(c.year, c.mon, c.mday) * SECSPERDAY + c.hour * 3600 + c.min * 60 + c.sec
  }

  lemma DayIsInYear(c: Civil)
    requires IsCivil(c)
    ensures InYear(c.year, DayNumber(c.year, c.mon, c.mday))
  {
    var leap := IsLeap(c.year);
    MonthStarts(leap);
    DaysBeforeStep(c.year);
    MonthsAreOrdered(leap, c.mon, 12);
    assert 0 <= MonthStart(leap, c.mon) by {
      if c.mon > 0 {
        MonthsAreOrdered(leap, 0, c.mon);
      }
    }
  }

  /** Lexicographic order of the fields. */
  predicate Before(c: Civil, d: Civil) {
    || c.year < d.year
    || (c.year == d.year && (c.mon < d.mon
        || (c.mon == d.mon && (c.mday < d.mday
            || (c.mday == d.mday && (c.hour < d.hour
                || (c.hour == d.hour && (c.min < d.min
                    || (c.min == d.min && c.sec < d.sec)))))))))
  }

  lemma DaysAreOrdered(c: Civil, d: Civil)
    requires IsCivil(c) && IsCivil(d)
    requires c.year < d.year || (c.year == d.year && (c.mon < d.mon || (c.mon == d.mon && c.mday < d.mday)))
    ensures DayNumber(c.year, c.mon, c.mday) < DayNumber(d.year, d.mon, d.mday)
  {
    if c.year < d.year {
      DayIsInYear(c);
      DayIsInYear(d);
      YearsAreOrdered(c.year + 1, d.year);
    } else if c.mon < d.mon {
      MonthsAreOrdered(IsLeap(c.year), c.mon, d.mon);
    }
  }

  /** Dates in field order are in the order of their second counts. */
  lemma SecondsAreOrdered(c: Civil, d: Civil)
    requires IsCivil(c) && IsCivil(d) && Before(c, d)
    ensures Seconds(c) < Seconds(d)
  {
    if c.year != d.year || c.mon != d.mon || c.mday != d.mday {
      DaysAreOrdered(c, d);
    }
  }

  /** A second count determines the in-range date. */
  lemma CivilIsUnique(c: Civil, d: Civil)
    requires IsCivil(c) && IsCivil(d) && Seconds(c) == Seconds(d)
    ensures c == d
  {
    if Before(c, d) {
      SecondsAreOrdered(c, d);
    } else if Before(d, c) {
      SecondsAreOrdered(d, c);
    }
  }

  /** Weekday of a day number, 0 = Sunday: 1 January 1970 was a Thursday. */
  function Weekday(d: int): int { (d + 4) % 7 }
}
