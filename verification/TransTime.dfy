/**
 transtime of tztime.c: the instant at which a rule of a POSIX TZ string
 (section 8.3 of POSIX.1) takes effect in a given year.
 */
module TransTime {
  import opened Division
  import opened Gregorian
  import TimeSub

  /** A parsed rule; getrule keeps the numbers in the ranges RuleOk states. */
  datatype Rule =
    | JulianDay(day: int, time: int)                       // Jn, 29 February never counted
    | DayOfYear(day: int, time: int)                       // n, counted from 0
    | MonthNthDay(mon: int, week: int, day: int, time: int)  // Mm.n.d

  predicate RuleOk(r: Rule) {
    match r
    case JulianDay(day, _) => 1 <= day <= 365
    case DayOfYear(day, _) => 0 <= day <= 365
    case MonthNthDay(mon, week, day, _) => 1 <= mon <= 12 && 1 <= week <= 5 && 0 <= day < 7
  }

  // ----- what a rule means -----

  /** Day d is the given weekday's week-th occurrence in the month, or its last one for week 5. */
  predicate IsNthWeekday(year: int, mon: int, week: int, wday: int, d: int)
    requires 0 <= mon < 12
  {
    var first := DayNumber(year, mon, 1);
    && first <= d < first + MonthLength(IsLeap(year), mon)
    && Weekday(d) == wday
    && (if week < 5 then 7 * (week - 1) <= d - first < 7 * week
        else first + MonthLength(IsLeap(year), mon) <= d + 7)
  }

  /** The rule names one day only. */
  lemma NthWeekdayIsUnique(year: int, mon: int, week: int, wday: int, d: int, e: int)
    requires 0 <= mon < 12 && 1 <= week <= 5
    requires IsNthWeekday(year, mon, week, wday, d) && IsNthWeekday(year, mon, week, wday, e)
    ensures d == e
  {
    hide DaysBefore, IsLeap;
    SameWeekday(d, e);
  }

  lemma SameWeekday(d: int, e: int)
    requires Weekday(d) == Weekday(e) && -7 < d - e < 7
    ensures d == e
  {
  }

  /** The day of the year that Jn names: the date of the n-th day of a common year. */
  predicate IsJulianDay(year: int, n: int, d: int) {
    exists mon, mday :: 0 <= mon < 12 && 1 <= mday <= MonthLength(false, mon)
                        && MonthStart(false, mon) + mday == n && DayNumber(year, mon, mday) == d
  }

  ghost predicate Means(year: int, r: Rule, d: int)
    requires RuleOk(r)
  {
    match r
    case JulianDay(day, _) => IsJulianDay(year, day, d)
    case DayOfYear(day, _) => d == DaysBefore(year) + day
    case MonthNthDay(mon, week, day, _) => IsNthWeekday(year, mon - 1, week, day, d)
  }

  // ----- Zeller's congruence -----

  /** The day of the week of the first day of month mon (1..12), as the code computes it. */
  function ZellerDow(year: int, mon: int): int
    requires year >= 1 && 1 <= mon <= 12
  {
    var m1 := (mon + 9) % 12 + 1;
    var yy0 := if mon <= 2 then year - 1 else year;
    var yy1 := yy0 / 100;
    var yy2 := yy0 % 100;
    var dow := TruncMod((26 * m1 - 2) / 10 + 1 + yy2 + yy2 / 4 + yy1 / 4 - 2 * yy1, 7);
    if dow < 0 then dow + 7 else dow
  }

  /** The month term of the congruence, against the number of days before the month. */
  lemma MonthTerm(leap: bool, mon: int)
    requires 1 <= mon <= 12
    ensures var m1 := (mon + 9) % 12 + 1;
            var days := if mon <= 2 then MonthStart(leap, mon - 1)
                        else MonthStart(leap, mon - 1) - 365 - (if leap then 1 else 0);
            (days - (26 * m1 - 2) / 10) % 7 == 0
  {
    MonthStarts(leap);
  }

  lemma CenturyLeaps(y: int)
    requires y >= 0
    ensures LeapsThruEndOf(y) == 24 * (y / 100) + (y % 100) / 4 + (y / 100) / 4
  {
    var a, b := y / 100, y % 100;
    DivUnique(y, 4, 25 * a + b / 4, b % 4);
    DivUnique(y, 400, a / 4, 100 * (a % 4) + b);
  }

  /** 1 January of the year after y, in the terms of the congruence, modulo 7. */
  lemma NextNewYear(y: int)
    requires y >= 0
    ensures (DaysBefore(y + 1) + 4 - (1 + y % 100 + (y % 100) / 4 + (y / 100) / 4 - 2 * (y / 100))) % 7 == 0
  {
    CenturyLeaps(y);
    var a, b := y / 100, y % 100;
    var n := DaysBefore(y + 1) + 4 - (1 + b + b / 4 + a / 4 - 2 * a);
    assert n == 7 * (5218 * a + 52 * b - 102737);
    DivUnique(n, 7, 5218 * a + 52 * b - 102737, 0);
  }

  lemma SumOfMultiples(a: int, b: int)
    requires a % 7 == 0 && b % 7 == 0
    ensures (a + b) % 7 == 0
  {
    DivUnique(a + b, 7, a / 7 + b / 7, 0);
  }

  lemma CongruentRemainder(n: int, s: int)
    requires (n - s) % 7 == 0
    ensures n % 7 == var m := TruncMod(s, 7); if m < 0 then m + 7 else m
  {
    var m := TruncMod(s, 7);
    var q := TruncDiv(s, 7);
    var c := (n - s) / 7 + q - (if m < 0 then 1 else 0);
    DivUnique(n, 7, c, if m < 0 then m + 7 else m);
  }

  /** The first day of the month falls where the congruence says, by the calendar's own count. */
  lemma Zeller(year: int, mon: int)
    requires year >= 1 && 1 <= mon <= 12
    ensures ZellerDow(year, mon) == Weekday(DayNumber(year, mon - 1, 1))
  {
    hide DaysBefore, MonthStart;
    var m1 := (mon + 9) % 12 + 1;
    var yy0 := if mon <= 2 then year - 1 else year;
    var rest := 1 + yy0 % 100 + (yy0 % 100) / 4 + (yy0 / 100) / 4 - 2 * (yy0 / 100);
    var f := (26 * m1 - 2) / 10;
    var days := if mon <= 2 then MonthStart(IsLeap(year), mon - 1)
                else MonthStart(IsLeap(year), mon - 1) - YearLength(year);
    MonthTerm(IsLeap(year), mon);
    NextNewYear(yy0);
    DaysBeforeStep(year);
    var n := DayNumber(year, mon - 1, 1) + 4;
    assert n - (f + rest) == (DaysBefore(yy0 + 1) + 4 - rest) + (days - f);
    SumOfMultiples(DaysBefore(yy0 + 1) + 4 - rest, days - f);
    CongruentRemainder(n, f + rest);
  }

  // ----- transtime -----

  /** The loop that adds up the months before mon. */
  method MonthOffset(leap: bool, mon: int) returns (days: int)
    requires 1 <= mon <= 12
    ensures days == MonthStart(leap, mon - 1)
  {
    days := 0;
    var i := 0;
    while i < mon - 1
      invariant 0 <= i <= mon - 1 && days == MonthStart(leap, i)
    {
      days := days + MonthLength(leap, i);
      i := i + 1;
    }
  }

  /** The loop that moves from the first such weekday to the week-th, stopping at the month's last. */
  method NthInMonth(first: int, length: int, week: int, wday: int, dow: int) returns (d: int)
    requires 28 <= length <= 31 && 1 <= week <= 5 && 0 <= wday < 7 && dow == Weekday(first)
    ensures 0 <= d < length && Weekday(first + d) == wday
    ensures if week < 5 then 7 * (week - 1) <= d < 7 * week else length <= d + 7
  {
    d := wday - dow;
    if d < 0 {
      d := d + 7;
    }
    var i := 1;
    while i < week
      invariant 1 <= i <= week && 7 * (i - 1) <= d < 7 * i && d < length && Weekday(first + d) == wday
    {
      if d + 7 >= length {
        return;
      }
      NextOccurrence(first + d);
      d := d + 7;
      i := i + 1;
    }
  }

  lemma NextOccurrence(d: int)
    ensures Weekday(d + 7) == Weekday(d)
  {
  }

  /** Month by month: adding the leap day from 1 March on keeps the date. */
  lemma JulianDate(year: int, n: int)
    requires 1 <= n <= 365
    ensures IsJulianDay(year, n, DaysBefore(year) + n - 1 + (if IsLeap(year) && n >= 60 then 1 else 0))
  {
    hide DaysBefore, IsLeap;
    var mon := CommonMonth(n);
    var mday := n - MonthStart(false, mon);
    LeapShift(IsLeap(year), mon, mday);
    assert DayNumber(year, mon, mday) == DaysBefore(year) + n - 1 + (if IsLeap(year) && n >= 60 then 1 else 0);
  }

  lemma CommonMonth(n: int) returns (mon: int)
    requires 1 <= n <= 365
    ensures 0 <= mon < 12 && 1 <= n - MonthStart(false, mon) <= MonthLength(false, mon)
  {
    MonthStarts(false);
    mon := if n <= 31 then 0 else if n <= 59 then 1 else if n <= 90 then 2 else if n <= 120 then 3
           else if n <= 151 then 4 else if n <= 181 then 5 else if n <= 212 then 6 else if n <= 243 then 7
           else if n <= 273 then 8 else if n <= 304 then 9 else if n <= 334 then 10 else 11;
  }

  lemma LeapShift(leap: bool, mon: int, mday: int)
    requires 0 <= mon < 12 && 1 <= mday <= MonthLength(false, mon)
    ensures MonthStart(leap, mon) == MonthStart(false, mon) + (if leap && MonthStart(false, mon) + mday >= 60 then 1 else 0)
  {
    MonthStarts(leap);
    MonthStarts(false);
  }

  /**
   The instant the rule takes effect: its local time on the day it means. offset
   is what the caller adds to local time to get UTC.
   */
  method Transition(janfirst: int, year: int, rule: Rule, offset: int) returns (value: int)
    requires RuleOk(rule) && year >= 1 && janfirst == DaysBefore(year) * SECSPERDAY
    ensures exists day :: Means(year, rule, day) && value == day * SECSPERDAY + rule.time + offset
  {
    ghost var day;
    hide DaysBefore, IsLeap, IsNthWeekday, IsJulianDay, ZellerDow;
    value := janfirst;
    match rule {
      case JulianDay(n, _) =>
        value := janfirst + (n - 1) * SECSPERDAY;
        if IsLeap(year) && n >= 60 {
          value := value + SECSPERDAY;
        }
        day := DaysBefore(year) + n - 1 + (if IsLeap(year) && n >= 60 then 1 else 0);
        JulianDate(year, n);
      case DayOfYear(n, _) =>
        value := janfirst + n * SECSPERDAY;
        day := DaysBefore(year) + n;
      case MonthNthDay(mon, week, wday, _) =>
        var months, d := MonthRule(year, mon, week, wday);
        value := value + months * SECSPERDAY;
        value := value + d * SECSPERDAY;
        day := DaysBefore(year) + months + d;
    }
    value := value + rule.time + offset;
    assert Means(year, rule, day);
  }

  method MonthRule(year: int, mon: int, week: int, wday: int) returns (months: int, d: int)
    requires year >= 1 && 1 <= mon <= 12 && 1 <= week <= 5 && 0 <= wday < 7
    ensures IsNthWeekday(year, mon - 1, week, wday, DaysBefore(year) + months + d)
  {
    hide DaysBefore, Weekday, ZellerDow;
    months := MonthOffset(IsLeap(year), mon);
    var dow := ZellerDow(year, mon);
    Zeller(year, mon);
    d := NthInMonth(DayNumber(year, mon - 1, 1), MonthLength(IsLeap(year), mon - 1), week, wday, dow);
  }

  /** timesub shows the day an Mm.n.d rule takes effect with that month and that weekday. */
  method ShowTransitionDay(year: int, rule: Rule) returns (tm: TimeSub.Option<TimeSub.Tm>)
    requires RuleOk(rule) && rule.MonthNthDay? && year >= 1
    ensures tm.Some? <==> year <= TimeSub.INT_MAX
    ensures tm.Some? ==>
              && tm.value.year + TimeSub.TM_YEAR_BASE == year && tm.value.mon == rule.mon - 1
              && tm.value.wday == rule.day
              && (if rule.week < 5 then 7 * (rule.week - 1) < tm.value.mday <= 7 * rule.week
                  else MonthLength(IsLeap(year), rule.mon - 1) < tm.value.mday + 7)
  {
    hide DaysBefore, IsLeap, Weekday, TimeSub.Representable, Seconds;
    var value := Transition(DaysBefore(year) * SECSPERDAY, year, rule, 0);
    ghost var day :| Means(year, rule, day) && value == day * SECSPERDAY + rule.time + 0;
    var midnight := value - rule.time;
    tm := TimeSub.Convert(midnight, 0);
    ghost var c := Civil(year, rule.mon - 1, day - DayNumber(year, rule.mon - 1, 1) + 1, 0, 0, 0);
    MidnightOf(c, day);
    DayOfTheYear(c, day);
    if tm.Some? {
      CivilIsUnique(c, TimeSub.ToCivil(tm.value));
    }
  }

  /** timesub represents the midnights of all years from 1 that are ints. */
  lemma DayOfTheYear(c: Civil, day: int)
    requires IsCivil(c) && day == DayNumber(c.year, c.mon, c.mday) && c.year >= 1
    ensures TimeSub.Representable(day * SECSPERDAY, 0) <==> c.year <= TimeSub.INT_MAX
  {
    hide DaysBefore, IsLeap;
    DayIsInYear(c);
    YearIsUnique(c.year, day);
    DivUnique(day * SECSPERDAY, SECSPERDAY, day, 0);
    DivUnique(-day * SECSPERDAY, SECSPERDAY, -day, 0);
  }

  lemma MidnightOf(c: Civil, day: int)
    requires 0 <= c.mon < 12 && c.hour == 0 && c.min == 0 && c.sec == 0
    requires c.mday == day - DayNumber(c.year, c.mon, 1) + 1
    ensures Seconds(c) == day * SECSPERDAY && (day * SECSPERDAY) / SECSPERDAY == day
  {
    hide DaysBefore, IsLeap;
    DivUnique(day * SECSPERDAY, SECSPERDAY, day, 0);
  }
}
