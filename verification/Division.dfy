/**
 Facts about integer division shared by the arithmetic modules.

 Division in Dafny rounds towards minus infinity for a positive divisor; C rounds towards
 zero. TruncDiv and TruncMod are the C operators. The lemmas say that quotient and remainder
 are determined by their defining equation, that division is monotone, how it behaves under
 a shift by the divisor and under reflection, and how factors cancel; the nonlinear steps
 of the other modules are calls of these.
 */
module Division {

  lemma MulAtLeast(k: int, d: int)
    requires k > 0 && d >= 1
    ensures k * d >= k
  {
  }

  lemma EuclidUnique(k: int, q: int, r: int, q': int, r': int)
    requires 0 <= r < k && 0 <= r' < k && k * q + r == k * q' + r'
    ensures q == q' && r == r'
  {
    if q > q' {
      MulAtLeast(k, q - q');
    } else if q < q' {
      MulAtLeast(k, q' - q);
    }
  }

  /** Quotient and remainder are determined by their defining equation. */
  lemma DivUnique(a: int, k: int, q: int, r: int)
    requires 0 <= r < k && a == k * q + r
    ensures a / k == q && a % k == r
  {
    EuclidUnique(k, q, r, a / k, a % k);
  }

  /** Stepping back over a multiple of k lowers the quotient by one. */
  lemma DivPred(a: int, k: int)
    requires k > 0
    ensures (a - 1) / k == a / k - (if a % k == 0 then 1 else 0)
  {
    var q, r := a / k, a % k;
    if r == 0 {
      assert a - 1 == k * (q - 1) + (k - 1);
      DivUnique(a - 1, k, q - 1, k - 1);
    } else {
      DivUnique(a - 1, k, q, r - 1);
    }
  }

  /** Division of a reflected number rounds the other way. */
  lemma DivReflect(n: int, k: int)
    requires k > 0
    ensures (-(n + 1)) / k == -(n / k) - 1
  {
    var q, r := n / k, n % k;
    assert -(n + 1) == k * (-q - 1) + (k - 1 - r);
    DivUnique(-(n + 1), k, -q - 1, k - 1 - r);
  }

  /** C division: the quotient is rounded towards zero. */
  function TruncDiv(a: int, k: int): (q: int)
    requires k > 0
    ensures a >= 0 ==> k * q <= a < k * q + k
    ensures a <= 0 ==> k * q - k < a <= k * q
  {
    if a >= 0 then a / k else -((-a) / k)
  }

  /** C remainder: it has the sign of the dividend. */
  function TruncMod(a: int, k: int): int
    requires k > 0
  {
    a - k * TruncDiv(a, k)
  }

  lemma DivMonotone(a: int, b: int, k: int)
    requires k > 0 && a <= b
    ensures a / k <= b / k && TruncDiv(a, k) <= TruncDiv(b, k)
  {
    QuotientsOrdered(a, b, k);
    if a < 0 {
      QuotientsOrdered(if b < 0 then -b else 0, -a, k);
    }
  }

  lemma QuotientsOrdered(a: int, b: int, k: int)
    requires k > 0 && a <= b
    ensures a / k <= b / k
  {
    var p, q := a / k, b / k;
    if q < p {
      MulAtLeast(k, p - q);
    }
  }

  lemma MulMonotone(a: int, b: int, k: int)
    requires a <= b && k >= 0
    ensures a * k <= b * k && k * a <= k * b
  {
  }

  lemma CancelFactor(a: int, b: int, k: int)
    requires k > 0 && a * k <= k * b
    ensures a <= b
  {
    if b < a {
      MulAtLeast(k, a - b);
    }
  }

  lemma CancelStrict(a: int, b: int, k: int)
    requires k > 0 && k * a < k * b
    ensures a < b
  {
    if b <= a {
      MulMonotone(b, a, k);
    }
  }

  /** Quotient rounded up. */
  function CeilDiv(a: int, b: int): (r: int)
    requires a >= 0 && b > 0
    ensures b * r >= a && r >= 0 && (r > 0 ==> b * (r - 1) < a)
  {
    var q := (a + b - 1) / b;
    CeilBounds(a, b, q);
    q
  }

  lemma CeilBounds(a: int, b: int, q: int)
    requires a >= 0 && b > 0 && q == (a + b - 1) / b
    ensures b * q >= a && q >= 0 && (q > 0 ==> b * (q - 1) < a)
  {
    assert b * (q - 1) == b * q - b;
  }
}
