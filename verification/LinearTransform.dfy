/**
 LinearTransform: scaling a 64-bit value by a ratio of 32-bit numbers with a
 96-bit intermediate product, and the signed transforms built on it. uint64_t
 arithmetic that can wrap is written out modulo 2^64.
 */
module LinearTransform {
  import opened Division

  const U32: int := 0x1_0000_0000            // 2^32
  const U64: int := 0x1_0000_0000_0000_0000  // 2^64
  const TOP: int := 0x8000_0000_0000_0000    // 2^63
  const INT64_MIN: int := -0x8000_0000_0000_0000
  const INT64_MAX: int := 0x7fff_ffff_ffff_ffff

  predicate IsU32(x: int) { 0 <= x < U32 }
  predicate IsU64(x: int) { 0 <= x < U64 }
  predicate IsI32(x: int) { -0x8000_0000 <= x < 0x8000_0000 }
  predicate IsI64(x: int) { INT64_MIN <= x <= INT64_MAX }

  function Abs(x: int): (r: int)
    ensures r >= 0 && (r == x || r == -x)
  {
    if x < 0 then -x else x
  }

  /** m / d rounded down, or up. */
  function Rounded(m: int, d: int, up: bool): int
    requires m >= 0 && d > 0
  {
    if up && m % d != 0 then m / d + 1 else m / d
  }

  // ----- scale_u64_to_u64 -----

  /** Long division of a 96-bit number by a 32-bit one, in two 64-bit steps. */
  lemma LongDivision(hi: int, lo: int, d: int)
    requires hi >= 0 && 0 <= lo < U32 && d > 0
    ensures var t := lo + (hi % d) * U32;
            && (hi * U32 + lo) / d == (hi / d) * U32 + t / d
            && (hi * U32 + lo) % d == t % d
  {
    var q, r := hi / d, hi % d;
    var t := lo + r * U32;
    assert hi * U32 + lo == d * (q * U32 + t / d) + t % d by {
      assert hi == d * q + r;
      assert (d * q) * U32 == d * (q * U32);
      assert d * (q * U32 + t / d) == d * (q * U32) + d * (t / d);
    }
    DivUnique(hi * U32 + lo, d, q * U32 + t / d, t % d);
  }

  lemma ProductBound(a: int, b: int, m: int, n: int)
    requires 0 <= a <= m && 0 <= b <= n
    ensures 0 <= a * b <= m * n
  {
    assert a * b <= m * b by { assert (m - a) * b >= 0; }
    assert m * b <= m * n by { assert m * (n - b) >= 0; }
  }

  /** The quotient of a number below d * 2^k stays below 2^k, and only then. */
  lemma QuotientBelow(x: int, d: int, limit: int)
    requires x >= 0 && d > 0 && limit > 0
    ensures x / d < limit <==> x < d * limit
  {
    var q := x / d;
    DivBounds(x, d);
    if q < limit {
      MulMonotone(q + 1, limit, d);
    } else {
      MulMonotone(limit, q, d);
    }
  }

  lemma DivBounds(x: int, d: int)
    requires d > 0
    ensures d * (x / d) <= x < d * (x / d + 1)
  {
    assert d * (x / d + 1) == d * (x / d) + d;
  }

  /** The high word test: the quotient has more than 64 bits exactly if the top word is at least d. */
  lemma OverflowTest(hi: int, lo: int, d: int)
    requires hi >= 0 && 0 <= lo < U32 && d > 0
    ensures hi / U32 >= d <==> (hi * U32 + lo) / d >= U64
  {
    QuotientBelow(hi * U32 + lo, d, U64);
    QuotientBelow(hi, U32, d);
    assert d * U64 == d * U32 * U32;
  }

  /** Splitting val * n into words. */
  lemma ProductWords(val: int, n: int)
    requires IsU64(val) && IsU32(n)
    ensures var t2 := (val / U32) * n;
            var t1 := (val % U32) * n;
            var hi := t2 + t1 / U32;
            && IsU64(t2) && IsU64(t1) && IsU64(hi)
            && val * n == hi * U32 + t1 % U32
  {
    ProductBound(val / U32, n, U32 - 1, U32 - 1);
    ProductBound(val % U32, n, U32 - 1, U32 - 1);
    assert val * n == (val / U32) * n * U32 + (val % U32) * n by {
      assert val == (val / U32) * U32 + val % U32;
    }
  }

  /**
   scale_u64_to_u64: val * n / d with the asked rounding. It fails exactly when
   the rounded quotient does not fit 64 bits.
   */
  method ScaleU64(val: int, n: int, d: int, up: bool) returns (ok: bool, res: int)
    requires IsU64(val) && IsU32(n) && IsU32(d) && d != 0
    ensures ok <==> IsU64(Rounded(val * n, d, up))
    ensures res == if ok then Rounded(val * n, d, up) else U64 - 1
  {
    var tmp2 := (val / U32) * n;
    var tmp1 := (val % U32) * n;
    ProductWords(val, n);
    tmp2 := tmp2 + tmp1 / U32;
    ghost var hi, lo := tmp2, tmp1 % U32;
    OverflowTest(hi, lo, d);
    LongDivision(hi, lo, d);
    if tmp2 / U32 >= d {
      return false, U64 - 1;
    }
    ok, res := DivideWords(tmp2, tmp1, d, up);
  }

  /** The two divisions and the rounding, once the quotient is known to fit. */
  method DivideWords(hi: int, low: int, d: int, up: bool) returns (ok: bool, res: int)
    requires IsU64(hi) && IsU64(low) && IsU32(d) && d != 0 && hi / U32 < d
    ensures var m := hi * U32 + low % U32;
            && (ok <==> IsU64(Rounded(m, d, up)))
            && res == if ok then Rounded(m, d, up) else U64 - 1
  {
    var r;
    res, r := TwoDivisions(hi, low % U32, d);
    RoundingStep(hi * U32 + low % U32, d, up, res, r);
    hide Rounded;
    if r != 0 && up {
      res := (res + 1) % U64;
      if res == 0 {
        return false, U64 - 1;
      }
    }
    ok := true;
  }

  lemma RoundingStep(m: int, d: int, up: bool, q: int, r: int)
    requires m >= 0 && d > 0 && q == m / d && r == m % d
    ensures Rounded(m, d, up) == if r != 0 && up then q + 1 else q
  {
  }

  method TwoDivisions(hi: int, lo: int, d: int) returns (q: int, r: int)
    requires IsU64(hi) && IsU32(lo) && IsU32(d) && d != 0 && hi / U32 < d
    ensures q == (hi * U32 + lo) / d && r == (hi * U32 + lo) % d && IsU64(q)
  {
    LongDivision(hi, lo, d);
    OverflowTest(hi, lo, d);
    WordsFit(hi, lo, d);
    r := hi % d;
    var tmp2 := hi / d;
    var tmp1 := lo + r * U32;
    r := tmp1 % d;
    tmp1 := tmp1 / d;
    q := tmp2 * U32 + tmp1;
  }

  /** Both quotient words have 32 bits and the partial remainder fits 64 bits, so nothing is lost in packing. */
  lemma WordsFit(hi: int, lo: int, d: int)
    requires IsU64(hi) && IsU32(lo) && IsU32(d) && d != 0 && hi / U32 < d
    ensures IsU32(hi / d) && IsU64(lo + (hi % d) * U32) && IsU32((lo + (hi % d) * U32) / d)
  {
    QuotientIsWord(hi, d);
    PartialFits(lo, hi % d, d);
  }

  lemma QuotientIsWord(hi: int, d: int)
    requires IsU64(hi) && d > 0 && hi / U32 < d
    ensures IsU32(hi / d)
  {
    QuotientBelow(hi, U32, d);
    QuotientBelow(hi, d, U32);
  }

  lemma PartialFits(lo: int, r: int, d: int)
    requires IsU32(lo) && 0 <= r < d && IsU32(d)
    ensures IsU64(lo + r * U32) && IsU32((lo + r * U32) / d)
  {
    PartialBelow(lo, r, d);
    QuotientBelow(lo + r * U32, d, U32);
  }

  lemma PartialBelow(lo: int, r: int, d: int)
    requires IsU32(lo) && 0 <= r < d && IsU32(d)
    ensures 0 <= lo + r * U32 < d * U32 && IsU64(lo + r * U32)
  {
    MulMonotone(r + 1, d, U32);
    MulMonotone(d, U32, U32);
  }

  // ----- linear_transform_s64_to_s64 -----

  /** Division rounding towards minus infinity, for a divisor of either sign. */
  function FloorDiv(a: int, b: int): int
    requires b != 0
  {
    if b > 0 then a / b else (-a) / (-b)
  }

  /** The transform without any limit on the size of the numbers. */
  function Ideal(val: int, basis1: int, num: int, den: int, basis2: int): int
    requires den != 0
  {
    basis2 + FloorDiv((val - basis1) * num, den)
  }

  /** Flooring a signed product is rounding its magnitude up exactly when it is negative. */
  lemma FloorFromMagnitude(x: int, n: int, d: int)
    requires n >= 0 && d > 0
    ensures (x * n) / d == if x < 0 then -Rounded(-x * n, d, true) else Rounded(x * n, d, false)
    ensures (-x * n) / d == if x < 0 then Rounded(-x * n, d, false) else -Rounded(x * n, d, true)
  {
    assert (-x) * n == -(x * n);
    NegatedFloor(x * n, d);
    NegatedFloor(-x * n, d);
  }

  lemma NegatedFloor(p: int, d: int)
    requires d > 0
    ensures p >= 0 ==> (-p) / d == -Rounded(p, d, true)
  {
    if p >= 0 {
      var q, r := p / d, p % d;
      if r == 0 {
        DivUnique(-p, d, -q, 0);
      } else {
        assert -p == d * (-q - 1) + (d - r);
        DivUnique(-p, d, -q - 1, d - r);
      }
    }
  }

  /** The magnitude that is scaled, and whether its sign is lost on the way. */
  function Magnitude(val: int, basis1: int, n: int, d: int, up: bool): int
    requires d > 0 && n >= 0
  {
    Rounded(Abs(val - basis1) * n, d, up)
  }

  /** The exact condition under which the signed addition is refused although it would fit. */
  predicate RefusedBoundary(scaled: int, neg: bool, basis2: int) {
    scaled >= TOP && (if neg then basis2 - scaled == INT64_MIN else basis2 == INT64_MIN)
  }

  /** Two's complement value of a uint64_t, and back. */
  function Signed(u: int): int { if u >= TOP then u - U64 else u }

  function Wrap(x: int): (r: int)
    ensures IsU64(r) && (IsU64(x) ==> r == x)
  {
    x % U64
  }

  /**
   The final addition of linear_transform_s64_to_s64, of +-scaled and basis2. It
   succeeds exactly if the sum is an int64_t and is not one of the two boundary
   cases, and then the result is the sum.
   */
  method AddBasis(scaled: int, neg: bool, basis2: int) returns (ok: bool, out: int)
    requires IsU64(scaled) && IsI64(basis2)
    ensures var sum := basis2 + (if neg then -scaled else scaled);
            && (ok <==> IsI64(sum) && !RefusedBoundary(scaled, neg, basis2))
            && (ok ==> out == sum)
  {
    out := 0;
    if scaled >= TOP {
      if neg && basis2 < 0 {
        return false, 0;
      }
      if !neg && basis2 >= 0 {
        return false, 0;
      }
      // ABS(INT64_MIN) is INT64_MIN again
      var abs2 := if basis2 == INT64_MIN then INT64_MIN else Abs(basis2);
      if abs2 <= scaled - TOP {
        return false, 0;
      }
      out := Signed(Wrap((if neg then -scaled else scaled) + basis2));
    } else {
      var s := if neg then Wrap(-scaled) else scaled;
      var res := Wrap(s + basis2);
      var sNeg, bNeg, rNeg := s >= TOP, basis2 < 0, res >= TOP;
      if sNeg == bNeg && sNeg != rNeg {
        return false, 0;
      }
      out := Signed(res);
    }
    ok := true;
  }

  /** When linear_transform_s64_to_s64 succeeds: no step overflows and neither boundary case is met. */
  predicate Transformable(val: int, basis1: int, n: int, den: int, flip: bool, basis2: int)
    requires n >= 0 && den > 0
  {
    var neg := (val < basis1) != flip;
    var scaled := Magnitude(val, basis1, n, den, neg);
    && IsU64(scaled) && IsI64(Ideal(val, basis1, if flip then -n else n, den, basis2))
    && !RefusedBoundary(scaled, neg, basis2)
  }

  /**
   linear_transform_s64_to_s64 with num / den already chosen by invert_frac (n and
   den are the magnitudes, flip says that the ratio is negative).
   */
  method Transform(val: int, basis1: int, n: int, den: int, flip: bool, basis2: int) returns (ok: bool, out: int)
    requires IsI64(val) && IsI64(basis1) && IsI64(basis2) && IsU32(n) && IsU32(den) && den != 0
    ensures ok <==> Transformable(val, basis1, n, den, flip, basis2)
    ensures ok ==> out == Ideal(val, basis1, if flip then -n else n, den, basis2)
  {
    hide Wrap, Signed, Rounded;
    var neg, abs;
    if val < basis1 {
      neg, abs := true, basis1 - val;
    } else {
      neg, abs := false, val - basis1;
    }
    if flip {
      neg := !neg;
    }
    IdealFromMagnitude(val, basis1, n, den, flip, basis2);
    var scaledOk, scaled := ScaleU64(abs, n, den, neg);
    if !scaledOk {
      return false, 0;
    }
    ok, out := AddBasis(scaled, neg, basis2);
  }

  lemma IdealFromMagnitude(val: int, basis1: int, n: int, den: int, flip: bool, basis2: int)
    requires n >= 0 && den > 0
    ensures var neg := (val < basis1) != flip;
            var scaled := Magnitude(val, basis1, n, den, neg);
            Ideal(val, basis1, if flip then -n else n, den, basis2) == basis2 + (if neg then -scaled else scaled)
            && scaled >= 0
  {
    hide Rounded;
    var x := val - basis1;
    FloorFromMagnitude(x, n, den);
    assert x * (-n) == -x * n;
    RoundedIsNonNegative(Abs(x) * n, den, (val < basis1) != flip);
  }

  lemma RoundedIsNonNegative(m: int, d: int, up: bool)
    requires m >= 0 && d > 0
    ensures Rounded(m, d, up) >= 0
  {
  }

  // ----- the two directions -----

  /** f(a) = (a - aZero) * numer / denom + bZero. */
  datatype Line = Line(aZero: int, bZero: int, numer: int, denom: int)

  predicate IsLine(f: Line) { IsI64(f.aZero) && IsI64(f.bZero) && IsI32(f.numer) && IsU32(f.denom) }

  method DoForward(f: Line, a: int) returns (ok: bool, b: int)
    requires IsLine(f) && IsI64(a)
    ensures ok <==> f.denom != 0 && Transformable(a, f.aZero, Abs(f.numer), f.denom, f.numer < 0, f.bZero)
    ensures ok ==> b == Ideal(a, f.aZero, f.numer, f.denom, f.bZero) && IsI64(b)
  {
    hide Ideal, Magnitude;
    if f.denom == 0 {
      return false, 0;
    }
    ok, b := Transform(a, f.aZero, Abs(f.numer), f.denom, f.numer < 0, f.bZero);
  }

  method DoReverse(f: Line, b: int) returns (ok: bool, a: int)
    requires IsLine(f) && IsI64(b)
    ensures ok <==> f.numer != 0 && Transformable(b, f.bZero, f.denom, Abs(f.numer), f.numer < 0, f.aZero)
    ensures ok ==> a == Ideal(b, f.bZero, f.denom, f.numer, f.aZero) && IsI64(a)
  {
    hide Magnitude, Rounded;
    if f.numer == 0 {
      return false, 0;
    }
    ok, a := Transform(b, f.bZero, f.denom, Abs(f.numer), f.numer < 0, f.aZero);
    SignMoves(b - f.bZero, f.denom, f.numer);
  }

  lemma SignMoves(x: int, d: int, n: int)
    requires n != 0
    ensures FloorDiv(x * d, n) == (x * (if n < 0 then -d else d)) / Abs(n)
  {
    assert x * (-d) == -(x * d);
  }

  /**
   Transforming forth and back never moves past the starting point (it ends at or
   before it for a positive ratio, at or after it for a negative one) and ends
   within the width of one step of the ratio.
   */
  lemma ThereAndBack(x: int, n: int, d: int)
    requires n != 0 && d > 0
    ensures var z := FloorDiv(FloorDiv(x * n, d) * d, n);
            if n > 0 then z <= x <= z + CeilDiv(d, n) else x <= z <= x + CeilDiv(d, -n)
  {
    var y := (x * n) / d;
    DivBounds(x * n, d);
    assert d * (y + 1) == d * y + d;
    if n > 0 {
      var z := (y * d) / n;
      DivBounds(y * d, n);
      BackPositive(x, n, d, y, z);
    } else {
      var m := -n;
      var z := (-(y * d)) / m;
      DivBounds(-(y * d), m);
      assert x * n == -(x * m);
      BackNegative(x, m, d, y, z);
    }
  }

  lemma BackPositive(x: int, n: int, d: int, y: int, z: int)
    requires n > 0 && d > 0 && d * y <= x * n < d * y + d && n * z <= y * d < n * (z + 1)
    ensures z <= x <= z + CeilDiv(d, n)
  {
    var c := CeilDiv(d, n);
    CancelFactor(z, x, n);
    assert n * (z + 1 + c) == n * (z + 1) + n * c;
    if x > z + c {
      MulMonotone(z + 1 + c, x, n);
    }
  }

  lemma BackNegative(x: int, m: int, d: int, y: int, z: int)
    requires m > 0 && d > 0 && d * y <= -(x * m) < d * y + d && m * z <= -(y * d) < m * (z + 1)
    ensures x <= z <= x + CeilDiv(d, m)
  {
    var c := CeilDiv(d, m);
    if z < x {
      MulMonotone(z + 1, x, m);
    }
    assert m * (x + c) == m * x + m * c;
    if z > x + c {
      MulMonotone(x + c, z, m);
    }
  }

  /** The same for the two methods: when both succeed, the error is bounded by one step, on one side. */
  method RoundTrip(f: Line, a: int) returns (ok: bool, back: int)
    requires IsLine(f) && IsI64(a)
    ensures ok ==> f.numer != 0 && f.denom != 0 &&
                   if f.numer > 0 then back <= a <= back + CeilDiv(f.denom, f.numer)
                   else a <= back <= a + CeilDiv(f.denom, -f.numer)
  {
    hide FloorDiv, CeilDiv;
    var b;
    back := 0;
    ok, b := DoForward(f, a);
    if ok {
      ok, back := DoReverse(f, b);
      if ok {
        ThereAndBack(a - f.aZero, f.numer, f.denom);
      }
    }
  }

  // ----- reduce -----

  predicate Divides(k: int, x: int) { k > 0 && x % k == 0 }

  ghost predicate Coprime(n: int, d: int) {
    forall k :: k > 1 ==> !(Divides(k, n) && Divides(k, d))
  }

  /** g is the greatest common divisor: a common divisor that every common divisor divides. */
  ghost predicate IsGcd(g: int, n: int, d: int) {
    Divides(g, n) && Divides(g, d) && forall k :: Divides(k, n) && Divides(k, d) ==> Divides(k, g)
  }

  lemma DividesMultiple(k: int, x: int, q: int)
    requires k > 0 && x == k * q
    ensures Divides(k, x) && x / k == q
  {
    DivUnique(x, k, q, 0);
  }

  lemma DividesCombination(k: int, x: int, y: int, c: int)
    requires Divides(k, x) && Divides(k, y)
    ensures Divides(k, x + c * y)
  {
    var p, q := x / k, y / k;
    assert x + c * y == k * (p + c * q) by {
      assert c * (k * q) == k * (c * q);
      assert k * (p + c * q) == k * p + k * (c * q);
    }
    DividesMultiple(k, x + c * y, p + c * q);
  }

  /** One step of Euclid's method keeps the common divisors. */
  lemma EuclidStep(k: int, a: int, b: int)
    requires b > 0
    ensures Divides(k, a) && Divides(k, b) <==> Divides(k, b) && Divides(k, a % b)
  {
    var q, r := a / b, a % b;
    if Divides(k, a) && Divides(k, b) {
      DividesCombination(k, a, b, -q);
      assert a + -q * b == r;
    }
    if Divides(k, b) && Divides(k, r) {
      DividesCombination(k, r, b, q);
      assert r + q * b == a;
    }
  }

  ghost predicate SameDivisors(a: int, b: int, n: int, d: int) {
    forall k :: Divides(k, a) && Divides(k, b) <==> Divides(k, n) && Divides(k, d)
  }

  /** Euclid's loop of reduce. */
  method EuclidGcd(n: int, d: int) returns (g: int)
    requires n > 0 && d > 0
    ensures g > 0 && IsGcd(g, n, d)
  {
    hide Divides;
    var a, b := n, d;
    if a < b {
      a, b := b, a;
    }
    while true
      invariant a >= b > 0 && SameDivisors(a, b, n, d)
      decreases b
    {
      var remainder := a % b;
      if remainder == 0 {
        LastDivisor(a, b, n, d);
        return b;
      }
      forall k ensures Divides(k, a) && Divides(k, b) <==> Divides(k, b) && Divides(k, remainder) {
        EuclidStep(k, a, b);
      }
      a, b := b, remainder;
    }
  }

  lemma LastDivisor(a: int, b: int, n: int, d: int)
    requires b > 0 && a % b == 0 && SameDivisors(a, b, n, d)
    ensures IsGcd(b, n, d)
  {
    DividesMultiple(b, b, 1);
    assert Divides(b, a) && Divides(b, b);
  }

  /** Dividing by the greatest common divisor leaves coprime numbers in the same ratio. */
  lemma ReducedIsCoprime(g: int, n: int, d: int)
    requires g > 0 && n > 0 && d > 0 && IsGcd(g, n, d)
    ensures Coprime(n / g, d / g) && (n / g) * d == n * (d / g) && n / g > 0 && d / g > 0
  {
    var p, q := n / g, d / g;
    assert n == g * p && d == g * q;
    assert p * (g * q) == (g * p) * q;
    forall k | k > 1 ensures !(Divides(k, p) && Divides(k, q)) {
      if Divides(k, p) && Divides(k, q) {
        CommonFactor(g, p, k);
        CommonFactor(g, q, k);
        assert Divides(g * k, g);
        MulAtLeast(g, k - 1);
        SmallerIsNoMultiple(g * k, g);
      }
    }
  }

  lemma CommonFactor(g: int, p: int, k: int)
    requires g > 0 && Divides(k, p)
    ensures Divides(g * k, g * p)
  {
    var c := p / k;
    assert g * k > 0 by {
      MulAtLeast(g, k);
    }
    assert g * p == (g * k) * c by {
      assert p == k * c;
      assert g * (k * c) == (g * k) * c;
    }
    DividesMultiple(g * k, g * p, c);
  }

  lemma SmallerIsNoMultiple(k: int, x: int)
    requires 0 < x < k
    ensures !Divides(k, x)
  {
    DivUnique(x, k, 0, x);
  }

  /** reduce on unsigned numbers. */
  method Reduce(n: int, d: int) returns (n': int, d': int)
    requires n >= 0 && d > 0
    ensures d' > 0 && 0 <= n' <= n && d' <= d
    ensures n' * d == n * d' && Coprime(n', d')
  {
    if n == 0 {
      return 0, 1;
    }
    var g := EuclidGcd(n, d);
    ReducedIsCoprime(g, n, d);
    n', d' := n / g, d / g;
    QuotientShrinks(n, g);
    QuotientShrinks(d, g);
  }

  lemma QuotientShrinks(x: int, g: int)
    requires x > 0 && g > 0
    ensures x / g <= x
  {
    QuotientBelow(x, g, x + 1);
    MulMonotone(1, g, x + 1);
  }

  /** Negation of an int32_t, and reading one as a uint32_t and back. */
  function Neg32(x: int): int { if x == -0x8000_0000 then x else -x }

  function AsU32(x: int): int { if x < 0 then x + U32 else x }

  function AsI32(x: int): int { if x >= 0x8000_0000 then x - U32 else x }

  /** reduce on a signed numerator: it works on the magnitude in place, also for INT32_MIN. */
  method ReduceSigned(n: int, d: int) returns (n': int, d': int)
    requires IsI32(n) && IsU32(d) && d > 0
    ensures IsI32(n') && IsU32(d') && d' > 0
    ensures n' * d == n * d' && Coprime(Abs(n'), d')
  {
    hide Coprime;
    if n < 0 {
      var u;
      u, d' := Reduce(AsU32(Neg32(n)), d);
      n' := Neg32(AsI32(u));
      assert n' == -u;
    } else {
      n', d' := Reduce(AsU32(n), d);
      n' := AsI32(n');
    }
  }
}
