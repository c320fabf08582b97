/**
 time2sub of tztime.c for a zone with one fixed offset: the fields are
 normalised, and the whole range of time_t is searched for the time that
 timesub turns into them.
 */
module MkTime {
  import opened Division
  import opened Gregorian
  import opened TimeSub

  const TIME_T_MIN: int := -0x8000_0000_0000_0000
  const TIME_T_MAX: int := 0x7fff_ffff_ffff_ffff

  // ----- field normalisation -----

  /** normalize_overflow: carries units into tens, base units to one ten. */
  function NormalizeOverflow(tens: int, units: int, base: int): (r: (int, int, bool))
    requires FitsInt(tens) && FitsInt(units) && 1 < base
    ensures r.1 == units % base
    ensures r.2 <==> !FitsInt(tens + units / base)
    ensures !r.2 ==> r.0 == tens + units / base
  {
    var tensdelta := if units >= 0 then units / base else -1 - (-1 - units) / base;
    TensDelta(units, base);
    var (t, overflow) := IncrementOverflow(tens, tensdelta);
    (t, units - tensdelta * base, overflow)
  }

  lemma TensDelta(units: int, base: int)
    requires FitsInt(units) && 1 < base
    ensures units < 0 ==> units / base == -1 - (-1 - units) / base
    ensures FitsInt(units / base) && units - (units / base) * base == units % base
  {
    DivReflect(-1 - units, base);
    var q := units / base;
    if q > 0 {
      MulAtLeast(q, base);
    } else if q < 0 {
      NegativeQuotient(units, base);
    }
  }

  lemma NegativeQuotient(units: int, base: int)
    requires units < 0 && 1 < base
    ensures units <= units / base
  {
    QuotientOfNegation(units, base);
  }

  lemma QuotientOfNegation(units: int, base: int)
    requires units < 0 && 1 < base
    ensures units / base >= units
  {
    var q, r := units / base, units % base;
    assert units == base * q + r;
    if q < units {
      ProductBelow(base, q);
    }
  }

  lemma ProductBelow(base: int, q: int)
    requires 1 < base && q < 0
    ensures base * q <= q + q
  {
    var n := -q;
    assert base * n >= 2 * n by {
      if base > 2 {
        MulAtLeast(n, base - 2);
      }
    }
  }

  /**
   The day a possibly out-of-range year, month and day of the month denote:
   months carry into years and days count on from the first of the month.
   */
  function FieldDay(year: int, mon: int, mday: int): int {
    DayNumber(year + mon / 12, mon % 12, mday)
  }

  /** The second count that the fields of tm denote, in range or not. */
  function FieldSeconds(tm: Tm): int {
    FieldDay(tm.year + TM_YEAR_BASE, tm.mon, tm.mday) * SECSPERDAY + tm.hour * 3600 + tm.min * 60 + tm.sec
  }

  predicate FieldsFit(tm: Tm) {
    FitsInt(tm.sec) && FitsInt(tm.min) && FitsInt(tm.hour) && FitsInt(tm.mday) && FitsInt(tm.mon) && FitsInt(tm.year)
  }

  /** Moving by a year along the same month, in either direction, moves by the length the loops use. */
  lemma SameMonthNextYear(y: int, mon: int)
    requires 0 <= mon < 12
    ensures var li := if 1 < mon then y + 1 else y;
            DaysBefore(y + 1) + MonthStart(IsLeap(y + 1), mon)
            == DaysBefore(y) + MonthStart(IsLeap(y), mon) + YearLength(li)
  {
    DaysBeforeStep(y);
    MonthStarts(IsLeap(y));
    MonthStarts(IsLeap(y + 1));
  }

  /** The two while loops and the for loop that bring the day of the month into range. */
  method NormalizeDate(year0: int, mon0: int, mday0: int) returns (y: int, mon: int, mday: int)
    requires 0 <= mon0 < 12
    ensures 0 <= mon < 12 && 1 <= mday <= MonthLength(IsLeap(y), mon)
    ensures DayNumber(y, mon, mday) == DayNumber(year0, mon0, mday0)
  {
    hide DaysBefore, IsLeap;
    y, mon, mday := year0, mon0, mday0;
    while mday <= 0
      invariant DayNumber(y, mon, mday) == DayNumber(year0, mon0, mday0)
      decreases -mday
    {
      y := y - 1;
      SameMonthNextYear(y, mon);
      var li := if 1 < mon then y + 1 else y;
      mday := mday + YearLength(li);
    }
    while mday > 366
      invariant mday > 0 && DayNumber(y, mon, mday) == DayNumber(year0, mon0, mday0)
      decreases mday
    {
      SameMonthNextYear(y, mon);
      var li := if 1 < mon then y + 1 else y;
      mday := mday - YearLength(li);
      y := y + 1;
    }
    while mday > MonthLength(IsLeap(y), mon)
      invariant 0 <= mon < 12 && mday > 0 && DayNumber(y, mon, mday) == DayNumber(year0, mon0, mday0)
      decreases mday
    {
      NextMonth(y, mon);
      mday := mday - MonthLength(IsLeap(y), mon);
      mon := mon + 1;
      if mon >= 12 {
        mon := 0;
        y := y + 1;
      }
    }
  }

  lemma NextMonth(y: int, mon: int)
    requires 0 <= mon < 12
    ensures MonthStart(IsLeap(y), mon + 1) == MonthStart(IsLeap(y), mon) + MonthLength(IsLeap(y), mon)
    ensures DaysBefore(y + 1) == DaysBefore(y) + MonthStart(IsLeap(y), 12)
  {
    MonthStarts(IsLeap(y));
    DaysBeforeStep(y);
  }

  /** Minutes, hours and days after the carries, as long as none overflowed. */
  function CarriedMin(tm: Tm, normSecs: bool): int { tm.min + (if normSecs then tm.sec / 60 else 0) }

  function CarriedHour(tm: Tm, normSecs: bool): int { tm.hour + CarriedMin(tm, normSecs) / 60 }

  function CarriedMday(tm: Tm, normSecs: bool): int { tm.mday + CarriedHour(tm, normSecs) / 24 }

  /** The day the normalised fields fall on. */
  function CarriedDay(tm: Tm, normSecs: bool): int {
    FieldDay(tm.year + TM_YEAR_BASE, tm.mon, CarriedMday(tm, normSecs))
  }

  /** The tm_sec and tm_year of the normalised fields. */
  function NormalSec(tm: Tm, normSecs: bool): int { if normSecs then tm.sec % 60 else tm.sec }

  ghost function NormalYear(tm: Tm, normSecs: bool): int { YearOf(CarriedDay(tm, normSecs)) - TM_YEAR_BASE }

  /** The normalisation succeeds: no carry leaves int, and neither does the year it arrives at. */
  ghost predicate Normalizable(tm: Tm, normSecs: bool) {
    && FitsInt(CarriedMin(tm, normSecs)) && FitsInt(CarriedHour(tm, normSecs)) && FitsInt(CarriedMday(tm, normSecs))
    && FitsInt(YearOf(CarriedDay(tm, normSecs)) - TM_YEAR_BASE)
  }

  /**
   The normalisation part of time2sub. It succeeds exactly when Normalizable says,
   and the result denotes the same second count with every field but perhaps the
   seconds in range.
   */
  method NormalizeFields(tm: Tm, normSecs: bool) returns (r: Option<Tm>)
    requires FieldsFit(tm)
    ensures r.Some? <==> Normalizable(tm, normSecs)
    ensures r.Some? ==>
              && FieldsFit(r.value) && IsCivil(ToCivil(r.value.(sec := 0))) && r.value.isdst == tm.isdst
              && Seconds(ToCivil(r.value)) == FieldSeconds(tm)
              && r.value.sec == NormalSec(tm, normSecs) && r.value.year == NormalYear(tm, normSecs)
  {
    var sec, min := tm.sec, tm.min;
    if normSecs {
      var (m, s, overflow) := NormalizeOverflow(tm.min, tm.sec, 60);
      if overflow {
        return None;
      }
      min, sec := m, s;
    }
    var (hour, min', overflow1) := NormalizeOverflow(tm.hour, min, 60);
    if overflow1 {
      return None;
    }
    var (mday, hour', overflow2) := NormalizeOverflow(tm.mday, hour, 24);
    if overflow2 {
      return None;
    }
    r := PlaceDate(tm, normSecs, sec, min', hour', mday);
  }

  /** The same from the carried day on; all the arithmetic on y is on long. */
  method PlaceDate(tm: Tm, normSecs: bool, sec: int, min: int, hour: int, mday: int) returns (r: Option<Tm>)
    requires FieldsFit(tm) && sec == (if normSecs then tm.sec % 60 else tm.sec)
    requires min == CarriedMin(tm, normSecs) % 60 && hour == CarriedHour(tm, normSecs) % 24
    requires mday == CarriedMday(tm, normSecs) && FitsInt(mday)
    ensures r.Some? <==> FitsInt(YearOf(CarriedDay(tm, normSecs)) - TM_YEAR_BASE)
    ensures r.Some? ==>
              && FieldsFit(r.value) && IsCivil(ToCivil(r.value.(sec := 0))) && r.value.isdst == tm.isdst
              && Seconds(ToCivil(r.value)) == FieldSeconds(tm) && r.value.sec == sec
              && r.value.year == NormalYear(tm, normSecs)
  {
    hide DaysBefore, IsLeap;
    var y, mon, d := NormalizeDate(tm.year + tm.mon / 12 + TM_YEAR_BASE, tm.mon % 12, mday);
    DateYear(y, mon, d);
    if !FitsInt(y - TM_YEAR_BASE) {
      return None;
    }
    CarriesAddUp(tm, normSecs);
    r := Some(Tm(sec, min, hour, d, mon, y - TM_YEAR_BASE, tm.wday, tm.yday, tm.isdst));
  }

  lemma DateYear(y: int, mon: int, mday: int)
    requires 0 <= mon < 12 && 1 <= mday <= MonthLength(IsLeap(y), mon)
    ensures y == YearOf(DayNumber(y, mon, mday))
  {
    DayIsInYear(Civil(y, mon, mday, 0, 0, 0));
    YearIsUnique(y, DayNumber(y, mon, mday));
  }

  lemma CarriesAddUp(tm: Tm, normSecs: bool)
    ensures var sec := if normSecs then tm.sec % 60 else tm.sec;
            CarriedDay(tm, normSecs) * SECSPERDAY + (CarriedHour(tm, normSecs) % 24) * 3600
            + (CarriedMin(tm, normSecs) % 60) * 60 + sec == FieldSeconds(tm)
  {
    var m, h := CarriedMin(tm, normSecs), CarriedHour(tm, normSecs);
    assert 60 * (m / 60) + m % 60 == m && 24 * (h / 24) + h % 24 == h;
    assert CarriedDay(tm, normSecs) == FieldDay(tm.year + TM_YEAR_BASE, tm.mon, tm.mday) + h / 24;
    assert normSecs ==> 60 * (tm.sec / 60) + tm.sec % 60 == tm.sec;
  }

  // ----- the binary search -----

  /** tmcomp; the difference of the years is an int that may wrap. */
  function TmComp(a: Tm, b: Tm): int {
    if a.year != b.year then WrapInt(a.year - b.year)
    else if a.mon != b.mon then a.mon - b.mon
    else if a.mday != b.mday then a.mday - b.mday
    else if a.hour != b.hour then a.hour - b.hour
    else if a.min != b.min then a.min - b.min
    else a.sec - b.sec
  }

  /** Comparing fields compares second counts, as long as the difference of the years is an int. */
  lemma TmCompSign(a: Tm, b: Tm)
    requires IsCivil(ToCivil(a)) && IsCivil(ToCivil(b)) && FitsInt(a.year - b.year)
    ensures TmComp(a, b) > 0 <==> Seconds(ToCivil(a)) > Seconds(ToCivil(b))
    ensures TmComp(a, b) < 0 <==> Seconds(ToCivil(a)) < Seconds(ToCivil(b))
  {
    hide Seconds, IsCivil;
    assert a.year != b.year ==> TmComp(a, b) == a.year - b.year;
    var c, d := ToCivil(a), ToCivil(b);
    if Before(c, d) {
      SecondsAreOrdered(c, d);
    } else if Before(d, c) {
      SecondsAreOrdered(d, c);
    } else {
      assert c == d;
    }
  }

  /** Otherwise the sign is the opposite one. */
  lemma TmCompWraps(a: Tm, b: Tm)
    requires FitsInt(a.year) && FitsInt(b.year) && !FitsInt(a.year - b.year)
    ensures TmComp(a, b) < 0 <==> a.year > b.year
    ensures TmComp(a, b) > 0 <==> a.year < b.year
  {
    var x := a.year - b.year - INT_MIN;
    if a.year > b.year {
      DivUnique(x, 0x1_0000_0000, 1, x - 0x1_0000_0000);
    } else {
      DivUnique(x, 0x1_0000_0000, -1, x + 0x1_0000_0000);
    }
  }

  /** A year number in between two others is an int if they are. */
  lemma YearBetween(lo: int, d: int, hi: int)
    requires lo <= d <= hi
    ensures YearOf(lo) <= YearOf(d) <= YearOf(hi)
  {
    YearOfIsMonotone(lo, d);
    YearOfIsMonotone(d, hi);
  }

  lemma NearEpoch(d: int)
    requires -24856 <= d <= 24855
    ensures 1901 <= YearOf(d) <= 2100
  {
    YearOfBounds(1901, d);
    YearOfBounds(2101, d);
  }

  /** If timesub fails at t, every time it can represent lies on the other side, towards the Epoch. */
  lemma FailureIsExtreme(t: int, t0: int, offset: int)
    requires FitsInt(offset) && !Representable(t, offset) && Representable(t0, offset)
    ensures if t > 0 then t0 < t else t0 > t
  {
    NearEpoch(0);
    if t > 0 && t <= t0 {
      DivMonotone(0, t, SECSPERDAY);
      DivMonotone(t, t0, SECSPERDAY);
      YearBetween(TruncDiv(0, SECSPERDAY), TruncDiv(t, SECSPERDAY), TruncDiv(t0, SECSPERDAY));
      DivMonotone(INT_MIN, t + offset, SECSPERDAY);
      DivMonotone(t + offset, t0 + offset, SECSPERDAY);
      NearEpoch(INT_MIN / SECSPERDAY);
      YearBetween(INT_MIN / SECSPERDAY, (t + offset) / SECSPERDAY, (t0 + offset) / SECSPERDAY);
    } else if t <= 0 && t0 <= t {
      DivMonotone(t, 0, SECSPERDAY);
      DivMonotone(t0, t, SECSPERDAY);
      YearBetween(TruncDiv(t0, SECSPERDAY), TruncDiv(t, SECSPERDAY), TruncDiv(0, SECSPERDAY));
      DivMonotone(t + offset, INT_MAX, SECSPERDAY);
      DivMonotone(t0 + offset, t + offset, SECSPERDAY);
      NearEpoch(INT_MAX / SECSPERDAY);
      YearBetween((t0 + offset) / SECSPERDAY, (t + offset) / SECSPERDAY, INT_MAX / SECSPERDAY);
    }
  }

  /** The tm_year that timesub shows at t. */
  ghost function ShownYear(t: int, offset: int): int { YearOf((t + offset) / SECSPERDAY) - TM_YEAR_BASE }

  /**
   What a probe at t tells about the sought time t0 in the given year: the right direction, if
   timesub fails at t or the years can be compared, and otherwise the wrong one.
   */
  ghost predicate Verdict(dir: int, t: int, t0: int, year: int, offset: int) {
    && (dir == 0 ==> t == t0 && Representable(t, offset))
    && (!Representable(t, offset) ==> dir == if t > 0 then 1 else -1)
    && (Representable(t, offset) ==>
          var diff := ShownYear(t, offset) - year;
          if FitsInt(diff) then
            && (dir > 0 <==> t0 < t) && (dir < 0 <==> t < t0)
            && (dir > 0 ==> diff >= 0) && (dir < 0 ==> diff <= 0)
          else (dir < 0 <==> diff > 0) && (dir > 0 <==> diff < 0))
  }

  /** The comparison inside the search loop, for the sought time t0. */
  method Probe(t: int, offset: int, target: Tm, ghost t0: int) returns (dir: int)
    requires FitsInt(offset) && IsCivil(ToCivil(target)) && FitsInt(target.year)
    requires t0 == Seconds(ToCivil(target)) - offset
    ensures Verdict(dir, t, t0, target.year, offset)
  {
    hide Seconds, IsCivil, TmComp;
    var mytm := Convert(t, offset);
    if mytm.None? {
      dir := if t > 0 then 1 else -1;
    } else {
      dir := TmComp(mytm.value, target);
      YearShown(mytm.value, t, offset);
      if FitsInt(mytm.value.year - target.year) {
        TmCompSign(mytm.value, target);
        YearSign(mytm.value, target);
      } else {
        TmCompWraps(mytm.value, target);
      }
    }
  }

  lemma YearSign(a: Tm, b: Tm)
    requires FitsInt(a.year - b.year)
    ensures TmComp(a, b) > 0 ==> a.year >= b.year
    ensures TmComp(a, b) < 0 ==> a.year <= b.year
  {
  }

  lemma YearShown(tm: Tm, t: int, offset: int)
    requires IsCivil(ToCivil(tm)) && Seconds(ToCivil(tm)) == t + offset
    ensures tm.year == ShownYear(t, offset)
  {
    hide DaysBefore, IsLeap;
    var c := ToCivil(tm);
    var day := DayNumber(c.year, c.mon, c.mday);
    DivUnique(t + offset, SECSPERDAY, day, c.hour * 3600 + c.min * 60 + c.sec);
    DateYear(c.year, c.mon, c.mday);
  }

  lemma ShownYearIsMonotone(t: int, u: int, offset: int)
    requires t <= u
    ensures ShownYear(t, offset) <= ShownYear(u, offset)
  {
    DivMonotone(t + offset, u + offset, SECSPERDAY);
    YearOfIsMonotone((t + offset) / SECSPERDAY, (u + offset) / SECSPERDAY);
  }

  /** The first probe of the search. */
  lemma FirstProbe(offset: int)
    requires FitsInt(offset)
    ensures Representable(-1, offset) && 1 <= ShownYear(-1, offset) <= 200
  {
    assert TruncDiv(-1, SECSPERDAY) == 0;
    NearEpoch(0);
    DivMonotone(INT_MIN - 1, offset - 1, SECSPERDAY);
    DivMonotone(offset - 1, INT_MAX - 1, SECSPERDAY);
    NearEpoch((offset - 1) / SECSPERDAY);
  }

  /** Years before the Epoch have 365 to 366 days. */
  lemma DaysBounds(y: int)
    requires y <= EPOCH_YEAR
    ensures 366 * (y - EPOCH_YEAR) <= DaysBefore(y) <= 365 * (y - EPOCH_YEAR)
  {
    YearSpan(y, EPOCH_YEAR);
    EpochIsZero();
  }

  const FAR_PAST: int := -0x100_0000_0000_0000    // -2^56
  const LESS_FAR: int := -0x80_0000_0000_0000     // -2^55

  lemma FarPast(t: int, offset: int)
    requires t <= FAR_PAST
    ensures !Representable(t, offset)
  {
    hide DaysBefore;
    var d := TruncDiv(t, SECSPERDAY);
    DivMonotone(-FAR_PAST, -t, SECSPERDAY);
    DaysBounds(INT_MIN + 1);
    YearOfBounds(INT_MIN + 1, d);
  }

  lemma LessFar(t: int, offset: int)
    requires FitsInt(offset) && LESS_FAR <= t
    ensures ShownYear(t, offset) >= -1_300_000_000
    ensures t == LESS_FAR ==> ShownYear(t, offset) <= 0
  {
    hide DaysBefore;
    var d := (t + offset) / SECSPERDAY;
    DivMonotone(LESS_FAR + INT_MIN, t + offset, SECSPERDAY);
    DaysBounds(-1_200_000_000);
    YearOfBounds(-1_200_000_000, d);
    if t == LESS_FAR {
      DivMonotone(t + offset, 0 - 0x1000_0000_0000, SECSPERDAY);
      DaysBounds(0);
      YearOfBounds(0, d);
    }
  }

  /**
   The years the search can find. Comparing with the year shown at its first probe, t = -1,
   must not overflow; below that the search turns the wrong way and never comes back.
   */
  ghost predicate InReach(year: int, offset: int) { year >= ShownYear(-1, offset) - INT_MAX }

  predicate IsPower(lo: int) {
    lo == TIME_T_MIN || lo == -0x4000_0000_0000_0000 || lo == -0x2000_0000_0000_0000 || lo == -0x1000_0000_0000_0000
    || lo == -0x800_0000_0000_0000 || lo == -0x400_0000_0000_0000 || lo == -0x200_0000_0000_0000 || lo == FAR_PAST
  }

  /** Where the search stands: at its start, in a half in which no comparison overflows, or lost. */
  datatype Stage = Start | Upper | LowerOld | LowerRecent | Halving | Astray

  ghost predicate At(stage: Stage, lo: int, hi: int, year: int, offset: int) {
    match stage
    case Start => lo == TIME_T_MIN && hi == TIME_T_MAX
    case Upper => -1 <= lo && ShownYear(-1, offset) <= year
    case LowerOld => hi <= -1 && InReach(year, offset) && year <= 0
    case LowerRecent => hi <= -1 && LESS_FAR <= lo && 0 < year <= ShownYear(-1, offset)
    case Halving => hi == -1 && IsPower(lo) && 0 < year <= ShownYear(-1, offset)
    case Astray => -1 <= lo && !InReach(year, offset)
  }

  /** The time the loop probes. */
  function Middle(lo: int, hi: int): int {
    var t := TruncDiv(lo, 2) + TruncDiv(hi, 2);
    if t < lo then lo else if t > hi then hi else t
  }

  lemma MiddleOf(stage: Stage, lo: int, hi: int, year: int, offset: int)
    requires TIME_T_MIN <= lo <= hi <= TIME_T_MAX && At(stage, lo, hi, year, offset)
    ensures lo <= Middle(lo, hi) <= hi
    ensures stage.Start? ==> Middle(lo, hi) == -1
    ensures stage.Halving? ==> var t := Middle(lo, hi); lo < t < hi && (IsPower(t) || t == LESS_FAR)
  {
    hide ShownYear;
    if stage.Start? {
      DivUnique(-TIME_T_MIN, 2, 0x4000_0000_0000_0000, 0);
    }
  }

  /** Outside the lost half and the start, the comparison at the probed time does not overflow. */
  lemma ComparesRight(stage: Stage, lo: int, hi: int, year: int, offset: int)
    requires TIME_T_MIN <= lo <= hi <= TIME_T_MAX && At(stage, lo, hi, year, offset)
    requires FitsInt(offset) && FitsInt(year) && Representable(Middle(lo, hi), offset)
    requires stage.Start? ==> InReach(year, offset)
    requires !stage.Astray?
    ensures FitsInt(ShownYear(Middle(lo, hi), offset) - year)
  {
    hide ShownYear, Middle, Representable;
    MiddleOf(stage, lo, hi, year, offset);
    FirstProbe(offset);
    var t := Middle(lo, hi);
    YearIsInt(t, offset);
    match stage {
      case Start =>
      case Upper => ShownYearIsMonotone(-1, t, offset);
      case LowerOld => ShownYearIsMonotone(t, -1, offset);
      case LowerRecent =>
        ShownYearIsMonotone(t, -1, offset);
        LessFar(t, offset);
      case Halving =>
        if IsPower(t) {
          FarPast(t, offset);
        } else {
          LessFar(t, offset);
        }
    }
  }

  lemma YearIsInt(t: int, offset: int)
    requires Representable(t, offset)
    ensures FitsInt(ShownYear(t, offset))
  {
  }

  /**
   The binary search over the whole of time_t. hi - lo shrinks in every round. If the year is
   in reach, the sought time never leaves [lo, hi], so it is found whenever it exists; if the
   year is not, it is never found.
   */
  method Search(target: Tm, offset: int) returns (r: Option<int>)
    requires FitsInt(offset) && IsCivil(ToCivil(target)) && FitsInt(target.year)
    ensures var t0 := Seconds(ToCivil(target)) - offset;
            && (r.Some? <==> TIME_T_MIN <= t0 <= TIME_T_MAX && Representable(t0, offset) && InReach(target.year, offset))
            && (r.Some? ==> r.value == t0)
  {
    hide Representable, InReach, DaysBefore, MonthStart, IsLeap;
    r := SearchFor(target, offset, Seconds(ToCivil(target)) - offset);
  }

  method SearchFor(target: Tm, offset: int, ghost t0: int) returns (r: Option<int>)
    requires FitsInt(offset) && IsCivil(ToCivil(target)) && FitsInt(target.year)
    requires t0 == Seconds(ToCivil(target)) - offset
    ensures r.Some? <==> TIME_T_MIN <= t0 <= TIME_T_MAX && Representable(t0, offset) && InReach(target.year, offset)
    ensures r.Some? ==> r.value == t0
  {
    hide *;
    StartsAtStart(target.year, offset);
    ghost var stage := Start;
    var lo, hi := TIME_T_MIN, TIME_T_MAX;
    while true
      invariant TIME_T_MIN <= lo <= hi <= TIME_T_MAX && At(stage, lo, hi, target.year, offset)
      invariant InReach(target.year, offset) && TIME_T_MIN <= t0 <= TIME_T_MAX && Representable(t0, offset) ==> lo <= t0 <= hi
      decreases hi - lo
    {
      var hit, t, next;
      hit, t, next, stage := Round(target, offset, lo, hi, t0, stage);
      if hit {
        return Some(t);
      }
      if next.None? {
        return None;
      }
      lo, hi := next.value.0, next.value.1;
    }
  }

  /** One round: probe the middle, and stop or narrow the interval. */
  method Round(target: Tm, offset: int, lo: int, hi: int, ghost t0: int, ghost stage: Stage)
    returns (hit: bool, t: int, next: Option<(int, int)>, ghost stage': Stage)
    requires FitsInt(offset) && IsCivil(ToCivil(target)) && FitsInt(target.year)
    requires t0 == Seconds(ToCivil(target)) - offset
    requires TIME_T_MIN <= lo <= hi <= TIME_T_MAX && At(stage, lo, hi, target.year, offset)
    ensures hit ==> t == t0 && lo <= t <= hi && Representable(t, offset) && InReach(target.year, offset)
    ensures !hit && next.Some? ==>
              var (lo', hi') := next.value;
              && lo <= lo' <= hi' <= hi && hi' - lo' < hi - lo && At(stage', lo', hi', target.year, offset)
              && (InReach(target.year, offset) && Representable(t0, offset) && lo <= t0 <= hi ==> lo' <= t0 <= hi')
    ensures !hit && next.None? ==> !(InReach(target.year, offset) && Representable(t0, offset) && lo <= t0 <= hi)
  {
    hide Seconds, IsCivil, Representable, ShownYear, Middle, At, InReach, TruncDiv;
    next, stage' := None, stage;
    MiddleOf(stage, lo, hi, target.year, offset);
    t := MiddleAt(lo, hi);
    var dir := Probe(t, offset, target, t0);
    Points(stage, lo, hi, target.year, offset, t0, dir);
    hit := dir == 0;
    if !hit {
      next := Narrow(lo, hi, t, dir);
      if next.Some? {
        stage' := NextStage(stage, lo, hi, target.year, offset, t0, dir, next.value.0, next.value.1);
      }
    }
  }

  /** The interval after a probe at t that was not a hit; none is left once it was the last time. */
  method Narrow(lo0: int, hi0: int, t0: int, dir: int) returns (r: Option<(int, int)>)
    requires TIME_T_MIN <= lo0 <= t0 <= hi0 <= TIME_T_MAX && dir != 0
    ensures r.None? ==> lo0 == hi0
    ensures r.Some? ==> lo0 <= r.value.0 <= r.value.1 <= hi0 && r.value.1 - r.value.0 < hi0 - lo0
    ensures r.Some? && lo0 < t0 < hi0 ==> r.value == if dir > 0 then (lo0, t0) else (t0, hi0)
    ensures r.Some? && dir > 0 ==> t0 - 1 <= r.value.1 && (lo0 < t0 ==> r.value.0 == lo0)
    ensures r.Some? && dir < 0 ==> r.value.0 <= t0 + 1 && (t0 < hi0 ==> r.value.1 == hi0)
  {
    var lo, hi, t := lo0, hi0, t0;
    if t == lo {
      if t == TIME_T_MAX {
        return None;
      }
      t := t + 1;
      lo := lo + 1;
    } else if t == hi {
      if t == TIME_T_MIN {
        return None;
      }
      t := t - 1;
      hi := hi - 1;
    }
    if lo > hi {
      return None;
    }
    if dir > 0 {
      hi := t;
    } else {
      lo := t;
    }
    r := Some((lo, hi));
  }

  lemma StartsAtStart(year: int, offset: int)
    ensures TIME_T_MIN <= TIME_T_MAX && At(Start, TIME_T_MIN, TIME_T_MAX, year, offset)
  {
  }

  method MiddleAt(lo: int, hi: int) returns (t: int)
    ensures t == Middle(lo, hi)
  {
    t := TruncDiv(lo, 2) + TruncDiv(hi, 2);
    if t < lo {
      t := lo;
    } else if t > hi {
      t := hi;
    }
  }

  /** A probe points to the sought time if its year is in reach, and never hits it if not. */
  lemma Points(stage: Stage, lo: int, hi: int, year: int, offset: int, t0: int, dir: int)
    requires TIME_T_MIN <= lo <= hi <= TIME_T_MAX && At(stage, lo, hi, year, offset)
    requires FitsInt(offset) && FitsInt(year) && Verdict(dir, Middle(lo, hi), t0, year, offset)
    ensures InReach(year, offset) && Representable(t0, offset) ==>
              (dir > 0 ==> t0 < Middle(lo, hi)) && (dir < 0 ==> Middle(lo, hi) < t0)
    ensures dir == 0 ==> InReach(year, offset)
  {
    hide ShownYear, Middle, Representable;
    FirstProbe(offset);
    MiddleOf(stage, lo, hi, year, offset);
    var t := Middle(lo, hi);
    if InReach(year, offset) {
      if Representable(t, offset) {
        ComparesRight(stage, lo, hi, year, offset);
      } else if Representable(t0, offset) {
        FailureIsExtreme(t, t0, offset);
      }
    } else if t >= -1 {
      ShownYearIsMonotone(-1, t, offset);
    }
  }

  /** The stage after a probe, for the interval the loop narrows to. */
  lemma NextStage(stage: Stage, lo: int, hi: int, year: int, offset: int, t0: int, dir: int, lo': int, hi': int)
    returns (next: Stage)
    requires TIME_T_MIN <= lo <= hi <= TIME_T_MAX && At(stage, lo, hi, year, offset)
    requires FitsInt(offset) && FitsInt(year) && Verdict(dir, Middle(lo, hi), t0, year, offset) && dir != 0
    requires lo <= lo' <= hi' <= hi
    requires lo < Middle(lo, hi) < hi ==> if dir > 0 then lo' == lo && hi' == Middle(lo, hi) else lo' == Middle(lo, hi) && hi' == hi
    ensures At(next, lo', hi', year, offset)
  {
    hide ShownYear, Middle, Representable;
    FirstProbe(offset);
    MiddleOf(stage, lo, hi, year, offset);
    var t := Middle(lo, hi);
    next := stage;
    if stage.Start? {
      if !InReach(year, offset) {
        next := Astray;
      } else if dir < 0 {
        next := Upper;
      } else {
        next := if year <= 0 then LowerOld else Halving;
      }
    } else if stage.Halving? {
      if IsPower(t) {
        FarPast(t, offset);
      } else {
        next := LowerRecent;
        LessFar(t, offset);
      }
    }
  }

  // ----- time2sub -----

  /** Whether the zone's daylight flag is what the caller asked for. */
  predicate DstMatches(asked: int, zoneDst: int) { asked < 0 || asked == zoneDst }

  /** The seconds set aside when they are outside 0..59. */
  function SavedSeconds(sec: int, year: int): int {
    if 0 <= sec < 60 then 0 else if year + TM_YEAR_BASE < EPOCH_YEAR then sec - 59 else sec
  }

  /** Seconds outside 0..59 are set aside and added back after the search. */
  method SaveSeconds(tm: Tm) returns (r: Option<(Tm, int)>)
    requires FieldsFit(tm) && IsCivil(ToCivil(tm.(sec := 0)))
    ensures r.Some? <==> FitsInt(SavedSeconds(tm.sec, tm.year))
    ensures r.Some? ==> r.value.1 == SavedSeconds(tm.sec, tm.year)
    ensures r.Some? ==> IsCivil(ToCivil(r.value.0)) && r.value.0.isdst == tm.isdst && r.value.0.year == tm.year
    ensures r.Some? ==> Seconds(ToCivil(r.value.0)) + r.value.1 == Seconds(ToCivil(tm))
  {
    if 0 <= tm.sec < 60 {
      r := Some((tm, 0));
    } else if tm.year + TM_YEAR_BASE < EPOCH_YEAR {
      var (s, overflow) := IncrementOverflow(tm.sec, 1 - 60);
      if overflow {
        return None;
      }
      r := Some((tm.(sec := 59), s));
    } else {
      r := Some((tm.(sec := 0), tm.sec));
    }
  }

  /** Addition on time_t, which wraps. */
  function WrapTime(x: int): (r: int)
    ensures TIME_T_MIN <= r <= TIME_T_MAX
    ensures TIME_T_MIN <= x <= TIME_T_MAX ==> r == x
  {
    (x - TIME_T_MIN) % 0x1_0000_0000_0000_0000 + TIME_T_MIN
  }

  lemma WrapDetected(t: int, s: int)
    requires TIME_T_MIN <= t <= TIME_T_MAX && FitsInt(s)
    ensures (WrapTime(t + s) < t) == (s < 0) <==> TIME_T_MIN <= t + s <= TIME_T_MAX
  {
    var x, m := t + s, 0x1_0000_0000_0000_0000;
    if x > TIME_T_MAX {
      DivUnique(x - TIME_T_MIN, m, 1, x - TIME_T_MIN - m);
    } else if x < TIME_T_MIN {
      DivUnique(x - TIME_T_MIN, m, -1, x - TIME_T_MIN + m);
    }
  }

  /** The sought time exists: it lies in time_t and timesub represents it. */
  ghost predicate Exists(t: int, offset: int) {
    TIME_T_MIN <= t <= TIME_T_MAX && Representable(t, offset)
  }

  /** The search and the seconds lead to t: what was set aside is an int, and the rest can be found. */
  ghost predicate Findable(t: int, sec: int, year: int, offset: int) {
    var saved := SavedSeconds(sec, year);
    FitsInt(saved) && InReach(year, offset) && Exists(t - saved, offset) && TIME_T_MIN <= t <= TIME_T_MAX
  }

  /** Search and seconds, from normalised fields on. */
  method FindTime(norm: Tm, offset: int, zoneDst: int) returns (r: Option<int>)
    requires FieldsFit(norm) && IsCivil(ToCivil(norm.(sec := 0))) && FitsInt(offset)
    ensures var t := Seconds(ToCivil(norm)) - offset;
            && (r.Some? <==> DstMatches(norm.isdst, zoneDst) && Findable(t, norm.sec, norm.year, offset))
            && (r.Some? ==> r.value == t)
  {
    hide IsCivil, Seconds, Representable, WrapTime, InReach, SavedSeconds;
    var saved := SaveSeconds(norm);
    if saved.None? {
      return None;
    }
    var yourtm, savedSeconds := saved.value.0, saved.value.1;
    var found := Search(yourtm, offset);
    if found.None? || !DstMatches(yourtm.isdst, zoneDst) {
      return None;
    }
    WrapDetected(found.value, savedSeconds);
    var newt := WrapTime(found.value + savedSeconds);
    if (newt < found.value) != (savedSeconds < 0) {
      return None;
    }
    r := Some(newt);
  }

  /**
   time2sub for a fixed-offset zone. A time it returns with okay set is the one the fields
   denote, whatever fields were out of range. It succeeds exactly when the fields can be
   normalised, the search finds the time up to the seconds set aside, and timesub represents
   the time with them. A failure leaves the fields alone, unless it is the last conversion
   that fails: tm_year and tm_isdst may have been written by then.
   */
  method Time2Sub(tm: Tm, offset: int, zoneDst: int, normSecs: bool) returns (t: int, okay: bool, out: Tm)
    requires FieldsFit(tm) && FitsInt(offset)
    ensures okay ==> t == FieldSeconds(tm) - offset && TIME_T_MIN <= t <= TIME_T_MAX
    ensures okay ==> Shows(out, t, offset) && out.isdst == zoneDst
    ensures okay && tm.isdst >= 0 ==> out.isdst == tm.isdst
    ensures okay <==> Normalizable(tm, normSecs) && DstMatches(tm.isdst, zoneDst)
                      && Findable(FieldSeconds(tm) - offset, NormalSec(tm, normSecs), NormalYear(tm, normSecs), offset)
                      && Exists(FieldSeconds(tm) - offset, offset)
    ensures !okay ==> out == tm.(year := out.year, isdst := out.isdst)
    ensures !okay && out != tm ==> t == FieldSeconds(tm) - offset && !Representable(t, offset)
  {
    hide IsCivil, Seconds, IsLeap, MonthStart, Weekday, FieldSeconds, Normalizable, Representable, Findable, NormalYear;
    t, okay, out := -1, false, tm;
    var norm := NormalizeFields(tm, normSecs);
    if norm.None? {
      return;
    }
    var found := FindTime(norm.value, offset, zoneDst);
    if found.None? {
      return;
    }
    FoundInRange(FieldSeconds(tm) - offset, NormalSec(tm, normSecs), NormalYear(tm, normSecs), offset);
    t := found.value;
    var shown := Convert(t, offset);
    if shown.Some? {
      okay := true;
      out := shown.value.(isdst := zoneDst);
    } else {
      var year: int := *;
      out := tm.(year := year, isdst := zoneDst);
    }
  }

  lemma FoundInRange(t: int, sec: int, year: int, offset: int)
    requires Findable(t, sec, year, offset)
    ensures TIME_T_MIN <= t <= TIME_T_MAX
  {
  }

  /** With seconds in range nothing is set aside: the time must exist and its year be in reach. */
  lemma FindableInRange(t: int, sec: int, year: int, offset: int)
    requires 0 <= sec < 60
    ensures Findable(t, sec, year, offset) <==> InReach(year, offset) && Exists(t, offset)
  {
  }

  /** The fields timesub fills in need no normalisation and denote their instant. */
  lemma ShownFieldsAreNormal(tm: Tm, t: int, offset: int)
    requires Shows(tm, t, offset) && FitsInt(tm.year)
    ensures FieldsFit(tm) && 0 <= tm.sec < 60 && Normalizable(tm, false) && FieldSeconds(tm) == t + offset
    ensures NormalYear(tm, false) == tm.year
  {
    hide DaysBefore, IsLeap;
    DateYear(tm.year + TM_YEAR_BASE, tm.mon, tm.mday);
    NoCarry(tm);
  }

  lemma NoCarry(tm: Tm)
    requires 0 <= tm.mon < 12 && 0 <= tm.hour < 24 && 0 <= tm.min < 60
    ensures CarriedMin(tm, false) == tm.min && CarriedHour(tm, false) == tm.hour && CarriedMday(tm, false) == tm.mday
    ensures FieldDay(tm.year + TM_YEAR_BASE, tm.mon, tm.mday)
            == DayNumber(tm.year + TM_YEAR_BASE, tm.mon, tm.mday)
  {
  }

  /**
   mktime inverts localtime, exactly where the year shown is in reach of the search: the
   fields made from t lead back to t.
   */
  method MkTimeOfShown(t0: int, offset: int, zoneDst: int) returns (t: int, okay: bool)
    requires TIME_T_MIN <= t0 <= TIME_T_MAX && FitsInt(offset) && Representable(t0, offset)
    ensures okay <==> InReach(ShownYear(t0, offset), offset)
    ensures okay ==> t == t0
  {
    hide IsCivil, Seconds, IsLeap, MonthStart, Weekday, FieldSeconds, Normalizable, Representable, Findable, InReach, NormalYear;
    var shown := Convert(t0, offset);
    var tm := shown.value.(isdst := zoneDst);
    assert Shows(tm, t0, offset);
    ShownFieldsAreNormal(tm, t0, offset);
    YearShown(tm, t0, offset);
    FindableInRange(t0, NormalSec(tm, false), NormalYear(tm, false), offset);
    assert Exists(t0, offset) && DstMatches(tm.isdst, zoneDst);
    var out;
    t, okay, out := Time2Sub(tm, offset, zoneDst, false);
  }

  /** The first second of the lowest year timesub shows in UTC is out of reach: mktime does not invert it. */
  lemma LowestYearIsOutOfReach()
    ensures var t := DaysBefore(INT_MIN + TM_YEAR_BASE) * SECSPERDAY;
            TIME_T_MIN <= t <= TIME_T_MAX && Representable(t, 0) && ShownYear(t, 0) == INT_MIN && !InReach(ShownYear(t, 0), 0)
  {
    hide DaysBefore;
    var y := INT_MIN + TM_YEAR_BASE;
    var d := DaysBefore(y);
    DaysBounds(y);
    DaysBeforeStep(y);
    YearIsUnique(y, d);
    DivUnique(d * SECSPERDAY, SECSPERDAY, d, 0);
    DivUnique(-d * SECSPERDAY, SECSPERDAY, -d, 0);
    FirstProbe(0);
  }
}
