/**
 timesub of tztime.c for an empty leap-second table: a time_t and an offset as a broken-down time.
 */
module TimeSub {

  // long and time_t are 64 bits wide and int is 32 bits wide; only the arithmetic on int can overflow
  // for the values the callers pass, and it is modelled with its wrap-around.
  import opened Division
  import opened Gregorian

  datatype Option<T> = None | Some(value: T)

  const INT_MIN: int := -0x8000_0000
  const INT_MAX: int := 0x7fff_ffff
  const TM_YEAR_BASE: int := 1900

  predicate FitsInt(x: int) { INT_MIN <= x <= INT_MAX }

  /** Conversion to int of a value that may not fit. */
  function WrapInt(x: int): (r: int)
    ensures FitsInt(r) && (FitsInt(x) ==> r == x)
    ensures r == x <==> FitsInt(x)
  {
    (x - INT_MIN) % 0x1_0000_0000 + INT_MIN
  }

  /** increment_overflow: unsigned addition, then a comparison with the old value. */
  function IncrementOverflow(number: int, delta: int): (r: (int, bool))
    requires FitsInt(number) && FitsInt(delta)
    ensures r.1 <==> !FitsInt(number + delta)
    ensures !r.1 ==> r.0 == number + delta
  {
    var number1 := WrapInt(number + delta);
    (number1, if delta >= 0 then number1 < number else number1 > number)
  }

  /** struct tm, with tm_year counted from 1900. */
  datatype Tm = Tm(
    sec: int, min: int, hour: int, mday: int, mon: int, year: int, wday: int, yday: int, isdst: int)

  function ToCivil(tm: Tm): Civil {
    Civil(tm.year + TM_YEAR_BASE, tm.mon, tm.mday, tm.hour, tm.min, tm.sec)
  }

  // ----- the year-jumping loop -----

  /** One jump: towards the year of the day, never past it, and by at least one year. */
  lemma JumpStep(y: int, tdays: int, k: int)
    requires tdays < 0 || tdays >= YearLength(y)
    requires var q := TruncDiv(tdays, 366); k == if q != 0 then q else if tdays < 0 then -1 else 1
    ensures var rest := tdays - (DaysBefore(y + k) - DaysBefore(y));
            && (tdays >= 0 ==> k >= 1 && 0 <= rest < tdays)
            && (tdays < 0 ==> k <= -1 && tdays < rest < YearLength(y + k))
  {
    if tdays >= 0 {
      YearSpan(y, y + k);
      DaysBeforeStep(y);
    } else {
      YearSpan(y + k, y);
      DaysBeforeStep(y + k);
    }
  }

  /** A quotient that is no int belongs to a day whose year is no int either. */
  lemma JumpTooFar(y: int, tdays: int)
    requires FitsInt(y)
    requires tdays >= 0 ==> EPOCH_YEAR <= y
    requires tdays < 0 ==> y <= EPOCH_YEAR
    requires !FitsInt(TruncDiv(tdays, 366))
    ensures !FitsInt(YearOf(DaysBefore(y) + tdays))
  {
    var z := YearOf(DaysBefore(y) + tdays);
    if tdays >= 0 {
      YearOfBounds(y, DaysBefore(y) + tdays);
      YearSpan(y, z + 1);
    } else {
      YearOfBounds(y, DaysBefore(y) + tdays);
      YearSpan(z, y);
    }
  }

  /** What the loop of timesub keeps about the year y it has reached and the days left. */
  predicate Jumping(d: int, y: int, tdays: int) {
    && INT_MIN < y <= INT_MAX && tdays == d - DaysBefore(y)
    && (d >= 0 ==> tdays >= 0 && EPOCH_YEAR <= y)
    && (d < 0 ==> tdays < YearLength(y) && y <= EPOCH_YEAR)
  }

  lemma JumpKeeps(d: int, y: int, tdays: int, k: int)
    requires Jumping(d, y, tdays) && (tdays < 0 || tdays >= YearLength(y))
    requires var q := TruncDiv(tdays, 366); k == if q != 0 then q else if tdays < 0 then -1 else 1
    ensures !FitsInt(y + k) ==> !FitsInt(YearOf(d))
    ensures y + k == INT_MIN ==> YearOf(d) <= INT_MIN && d - DaysBefore(y + k) <= 366
    ensures INT_MIN < y + k <= INT_MAX ==> Jumping(d, y + k, d - DaysBefore(y + k))
    ensures var rest := d - DaysBefore(y + k); if tdays < 0 then tdays < rest else 0 <= rest < tdays
  {
    JumpStep(y, tdays, k);
    NoOvershoot(d, y + k);
  }

  /**
   At y = INT_MIN the subtraction y - 1 wraps around to INT_MAX, and far too many leap days
   are taken off. The next jump then leaves int.
   */
  ghost predicate Lost(d: int, y: int, tdays: int) { y == INT_MIN && tdays < -366 && YearOf(d) <= INT_MIN }

  lemma WrappedLeapDays()
    ensures WrapInt(INT_MIN - 1) == INT_MAX && LeapsThruEndOf(INT_MAX) - LeapsThruEndOf(INT_MIN - 1) > 1000
  {
    DivUnique(-1, 0x1_0000_0000, -1, 0xffff_ffff);
  }

  /** The years the loop can reach. */
  predicate Reachable(y: int) { INT_MIN < y <= INT_MAX }

  /** The loop body. */
  method Jump(ghost d: int, y: int, tdays: int) returns (r: Option<(int, int)>)
    requires (Jumping(d, y, tdays) && (tdays < 0 || tdays >= YearLength(y))) || Lost(d, y, tdays)
    ensures Lost(d, y, tdays) ==> r.None?
    ensures r.None? ==> !Reachable(YearOf(d))
    ensures r.Some? ==> Jumping(d, r.value.0, r.value.1) || Lost(d, r.value.0, r.value.1)
    ensures r.Some? && Jumping(d, r.value.0, r.value.1) ==>
              (if tdays < 0 then tdays < r.value.1 else 0 <= r.value.1 < tdays)
  {
    hide DaysBefore, WrapInt, YearLength, LeapsThruEndOf;
    var tdelta := TruncDiv(tdays, 366);
    var idelta := WrapInt(tdelta);
    if tdelta - idelta >= 1 || idelta - tdelta >= 1 {
      if !Lost(d, y, tdays) {
        JumpTooFar(y, tdays);
      }
      return None;
    }
    if idelta == 0 {
      idelta := if tdays < 0 then -1 else 1;
    }
    if !Lost(d, y, tdays) {
      JumpKeeps(d, y, tdays, idelta);
    } else {
      DownByOne(tdays);
    }
    var (newy, overflow) := IncrementOverflow(y, idelta);
    if overflow {
      return None;
    }
    hide TruncDiv, IncrementOverflow;
    var leapdays := LeapsThruEndOf(WrapInt(newy - 1)) - LeapsThruEndOf(y - 1);
    var rest := tdays - (newy - y) * 365;
    rest := rest - leapdays;
    DaysLeft(d, y, tdays, newy, rest);
    r := Some((newy, rest));
  }

  /** The days left after a jump are those of the new year, or far too few at INT_MIN. */
  lemma DaysLeft(d: int, y: int, tdays: int, newy: int, rest: int)
    requires FitsInt(newy) && tdays == d - DaysBefore(y)
    requires rest == tdays - (newy - y) * 365 - (LeapsThruEndOf(WrapInt(newy - 1)) - LeapsThruEndOf(y - 1))
    ensures newy > INT_MIN ==> rest == d - DaysBefore(newy)
    ensures newy == INT_MIN && d - DaysBefore(newy) <= 366 ==> rest < -366
  {
    hide DaysBefore, WrapInt, LeapsThruEndOf;
    DaysOfJump(y, newy);
    WrappedLeapDays();
    assert newy > INT_MIN ==> WrapInt(newy - 1) == newy - 1;
  }

  lemma DownByOne(tdays: int)
    requires tdays < -366
    ensures TruncDiv(tdays, 366) <= -1
  {
  }

  lemma DaysOfJump(y: int, z: int)
    ensures DaysBefore(z) - DaysBefore(y) == (z - y) * 365 + LeapsThruEndOf(z - 1) - LeapsThruEndOf(y - 1)
  {
    hide LeapsThruEndOf;
  }

  /** The while loop of timesub: it ends for every day and fails only if the year is INT_MIN or no int. */
  method JumpToYear(d: int) returns (r: Option<(int, int)>)
    ensures r.Some? <==> Reachable(YearOf(d))
    ensures r.Some? ==> r.value.0 == YearOf(d) && r.value.1 == d - DaysBefore(YearOf(d))
  {
    hide LeapsThruEndOf;
    var y, tdays := EPOCH_YEAR, d;
    DaysBeforeStep(EPOCH_YEAR);
    EpochIsZero();
    while tdays < 0 || tdays >= YearLength(y)
      invariant Jumping(d, y, tdays) || Lost(d, y, tdays)
      decreases y > INT_MIN, tdays < 0, if tdays < 0 then -tdays else tdays
    {
      var next := Jump(d, y, tdays);
      if next.None? {
        return None;
      }
      y, tdays := next.value.0, next.value.1;
    }
    DaysBeforeStep(y);
    YearIsUnique(y, d);
    r := Some((y, tdays));
  }

  lemma EpochIsZero()
    ensures DaysBefore(EPOCH_YEAR) == 0
  {
  }

  /** A year that is not past the day's year is at most as extreme as it. */
  lemma NoOvershoot(d: int, y: int)
    requires d >= 0 ==> DaysBefore(y) <= d
    requires d < 0 ==> d < DaysBefore(y) + YearLength(y)
    ensures d >= 0 ==> y <= YearOf(d)
    ensures d < 0 ==> YearOf(d) <= y
  {
    YearOfBounds(y, d);
    YearOfBounds(y + 1, d);
    DaysBeforeStep(y);
  }

  // ----- offset and carry -----

  /** The two loops that bring rem into one day. */
  method CarryDays(rem0: int, idays0: int) returns (rem: int, idays: int)
    ensures 0 <= rem < SECSPERDAY
    ensures idays * SECSPERDAY + rem == idays0 * SECSPERDAY + rem0
  {
    rem, idays := rem0, idays0;
    while rem < 0
      invariant idays * SECSPERDAY + rem == idays0 * SECSPERDAY + rem0
      decreases -rem
    {
      rem := rem + SECSPERDAY;
      idays := idays - 1;
    }
    while rem >= SECSPERDAY
      invariant 0 <= rem && idays * SECSPERDAY + rem == idays0 * SECSPERDAY + rem0
    {
      rem := rem - SECSPERDAY;
      idays := idays + 1;
    }
  }

  /** The two loops that bring idays into one year; they fail only if that year is no int. */
  method CarryYears(y0: int, idays0: int) returns (r: Option<(int, int)>)
    requires FitsInt(y0)
    ensures var d := DaysBefore(y0) + idays0;
            && (r.Some? <==> FitsInt(YearOf(d)))
            && (r.Some? ==> r.value.0 == YearOf(d) && r.value.1 == d - DaysBefore(YearOf(d)))
  {
    hide DaysBefore, IsLeap, WrapInt;
    var y, idays := y0, idays0;
    ghost var d := DaysBefore(y0) + idays0;
    while idays < 0
      invariant FitsInt(y) && DaysBefore(y) + idays == d
      invariant y == y0 || idays < YearLength(y)
      decreases -idays
    {
      YearOfBounds(y, d);
      var (y', overflow) := IncrementOverflow(y, -1);
      if overflow {
        return None;
      }
      y := y';
      DaysBeforeStep(y);
      idays := idays + YearLength(y);
    }
    while idays >= YearLength(y)
      invariant FitsInt(y) && DaysBefore(y) + idays == d && idays >= 0
      decreases idays
    {
      DaysBeforeStep(y);
      YearOfBounds(y + 1, d);
      idays := idays - YearLength(y);
      var (y', overflow) := IncrementOverflow(y, 1);
      if overflow {
        return None;
      }
      y := y';
    }
    DaysBeforeStep(y);
    YearIsUnique(y, d);
    r := Some((y, idays));
  }

  /** The month loop. */
  method FindMonth(leap: bool, yday: int) returns (mon: int, mday: int)
    requires 0 <= yday < MonthStart(leap, 12)
    ensures 0 <= mon < 12 && 1 <= mday <= MonthLength(leap, mon)
    ensures MonthStart(leap, mon) + mday - 1 == yday
  {
    var idays := yday;
    mon := 0;
    while idays >= MonthLength(leap, mon)
      invariant 0 <= mon < 12 && idays >= 0 && MonthStart(leap, mon) + idays == yday
      decreases 12 - mon
    {
      idays := idays - MonthLength(leap, mon);
      mon := mon + 1;
    }
    mday := idays + 1;
  }

  /** The weekday formula with its C remainders; the difference y - EPOCH_YEAR is an int that may wrap. */
  function WdayOf(y: int, idays: int): (w: int)
    requires FitsInt(y)
    ensures 0 <= w < 7
    ensures w == (Weekday(DaysBefore(y) + idays) + (if y >= INT_MIN + EPOCH_YEAR then 0 else 4)) % 7
  {
    var diff := WrapInt(y - EPOCH_YEAR);
    var sum := 4 + TruncMod(diff, 7) * (365 % 7)
               + LeapsThruEndOf(y - 1) - LeapsThruEndOf(EPOCH_YEAR - 1) + idays;
    var m := TruncMod(sum, 7);
    var w := if m < 0 then m + 7 else m;
    WdayCongruence(y, idays, diff, sum, w);
    w
  }

  /** The difference is right, or too large by 2^32, which is 4 modulo 7. */
  lemma WrappedYears(y: int)
    requires FitsInt(y)
    ensures WrapInt(y - EPOCH_YEAR) == y - EPOCH_YEAR + (if y >= INT_MIN + EPOCH_YEAR then 0 else 0x1_0000_0000)
  {
    if y < INT_MIN + EPOCH_YEAR {
      var x := y - EPOCH_YEAR - INT_MIN;
      DivUnique(x, 0x1_0000_0000, -1, x + 0x1_0000_0000);
    }
  }

  lemma WdayCongruence(y: int, idays: int, diff: int, sum: int, w: int)
    requires FitsInt(y) && diff == WrapInt(y - EPOCH_YEAR)
    requires sum == 4 + TruncMod(diff, 7) + LeapsThruEndOf(y - 1) - LeapsThruEndOf(EPOCH_YEAR - 1) + idays
    requires w == (var m := TruncMod(sum, 7); if m < 0 then m + 7 else m)
    ensures 0 <= w < 7
    ensures w == (Weekday(DaysBefore(y) + idays) + (if y >= INT_MIN + EPOCH_YEAR then 0 else 4)) % 7
  {
    hide WrapInt, LeapsThruEndOf;
    WrappedYears(y);
    var extra := if y >= INT_MIN + EPOCH_YEAR then 0 else 1;
    var q, p := TruncDiv(diff, 7), TruncDiv(sum, 7);
    var n := DaysBefore(y) + idays + 4;
    var down := if TruncMod(sum, 7) < 0 then 1 else 0;
    assert diff == 7 * q + TruncMod(diff, 7) && sum == 7 * p + TruncMod(sum, 7);
    assert n == sum - TruncMod(diff, 7) + 365 * (y - EPOCH_YEAR);
    assert n + extra * 0x1_0000_0000 == sum + 364 * (y - EPOCH_YEAR) + 7 * q;
    var c := p + 52 * (y - EPOCH_YEAR) + q - down - extra * 613566756;
    assert n + 4 * extra == 7 * c + w;
    DivUnique(n + 4 * extra, 7, c, w);
    SameRemainder(n, 4 * extra);
  }

  lemma SameRemainder(n: int, k: int)
    ensures (n % 7 + k) % 7 == (n + k) % 7
  {
    var q := n / 7;
    var r := n % 7 + k;
    DivUnique(n + k, 7, q + r / 7, r % 7);
  }

  lemma WeekdayRange(d: int)
    ensures 0 <= Weekday(d) < 7
  {
  }

  /** The weekday is right exactly from the year on in which the difference fits an int. */
  lemma WeekdayIsRightExactly(y: int, idays: int)
    requires FitsInt(y)
    ensures WdayOf(y, idays) == Weekday(DaysBefore(y) + idays) <==> y >= INT_MIN + EPOCH_YEAR
  {
    hide WdayOf, DaysBefore;
  }

  // ----- timesub -----

  /**
   The times timesub can represent: the year without the offset is an int other than
   INT_MIN, and the year with the offset and its distance from 1900 are ints.
   */
  ghost predicate Representable(t: int, offset: int) {
    && Reachable(YearOf(TruncDiv(t, SECSPERDAY)))
    && INT_MIN + TM_YEAR_BASE <= YearOf((t + offset) / SECSPERDAY) <= INT_MAX
  }

  /**
   tm shows the instant t in a zone that is offset seconds ahead of UTC. In the 70 lowest
   years the weekday is four days off.
   */
  ghost predicate Shows(tm: Tm, t: int, offset: int) {
    && IsCivil(ToCivil(tm)) && Seconds(ToCivil(tm)) == t + offset
    && tm.yday == MonthStart(IsLeap(tm.year + TM_YEAR_BASE), tm.mon) + tm.mday - 1
    && tm.wday == (Weekday((t + offset) / SECSPERDAY) + (if tm.year >= INT_MIN + 70 then 0 else 4)) % 7
  }

  /**
   timesub converts exactly the representable times, and the fields it fills in
   are those of the one in-range date with that second count. The weekday is right exactly
   from tm_year INT_MIN + 70 on.
   */
  method Convert(t: int, offset: int) returns (r: Option<Tm>)
    ensures r.Some? <==> Representable(t, offset)
    ensures r.Some? ==> Shows(r.value, t, offset) && FitsInt(r.value.year) && r.value.isdst == 0
    ensures r.Some? ==> (r.value.wday == Weekday((t + offset) / SECSPERDAY) <==> r.value.year >= INT_MIN + 70)
  {
    hide DaysBefore, IsCivil, Seconds, Weekday, IncrementOverflow;
    var tdays := TruncDiv(t, SECSPERDAY);
    var rem := t - tdays * SECSPERDAY;
    var jump := JumpToYear(tdays);
    if jump.None? {
      return None;
    }
    var y, idays := jump.value.0, jump.value.1;
    var seconds := idays * SECSPERDAY;
    DivUnique(seconds, SECSPERDAY, idays, 0);
    idays := TruncDiv(seconds, SECSPERDAY);
    rem, idays := CarryDays(rem + offset, idays);
    ghost var day := (t + offset) / SECSPERDAY;
    DivUnique(t + offset, SECSPERDAY, DaysBefore(y) + idays, rem);
    var settled := CarryYears(y, idays);
    if settled.None? {
      return None;
    }
    y, idays := settled.value.0, settled.value.1;
    assert DaysBefore(y) + idays == day;
    var (year, overflow) := IncrementOverflow(y, -TM_YEAR_BASE);
    if overflow {
      return None;
    }
    r := FillIn(y, idays, rem, day);
    WeekdayRange(day);
  }

  /** The fields computed from the year, the day of the year and the second of the day. */
  method FillIn(y: int, idays: int, rem: int, ghost day: int) returns (r: Option<Tm>)
    requires FitsInt(y) && FitsInt(y - TM_YEAR_BASE) && InYear(y, day) && idays == day - DaysBefore(y) && 0 <= rem < SECSPERDAY
    ensures r.Some? && Shows(r.value, day * SECSPERDAY + rem, 0) && r.value.year == y - TM_YEAR_BASE
    ensures r.value.isdst == 0
  {
    MonthStarts(IsLeap(y));
    DaysBeforeStep(y);
    var mon, mday := FindMonth(IsLeap(y), idays);
    var hour, rest := rem / 3600, rem % 3600;
    var tm := Tm(rest % 60, rest / 60, hour, mday, mon, y - TM_YEAR_BASE, WdayOf(y, idays), idays, 0);
    DivUnique(day * SECSPERDAY + rem, SECSPERDAY, day, rem);
    r := Some(tm);
  }
}
