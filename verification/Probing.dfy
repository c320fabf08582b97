/**
 The probe sequence of BasicHashtable: double hashing over a prime number of
 buckets. With a prime count every increment visits every bucket exactly once in
 as many steps as there are buckets.
 */
module Probing {
  import opened Division

  /** A hash code is a uint32_t; trimmed ones have 30 bits. */
  const HASH_LIMIT: int := 0x1_0000_0000
  const TRIMMED_LIMIT: int := 0x4000_0000

  ghost predicate IsPrime(p: int) {
    p > 1 && forall k :: 1 < k < p ==> p % k != 0
  }

  /** Exclusive or of two-bit numbers. */
  function Xor2(a: int, b: int): (r: int)
    requires 0 <= a < 4 && 0 <= b < 4
    ensures 0 <= r < 4
  {
    (if a / 2 == b / 2 then 0 else 2) + (if a % 2 == b % 2 then 0 else 1)
  }

  /** trimHash: the low 30 bits, with the two top bits folded into the two lowest. */
  function TrimHash(hash: int): (r: int)
    requires 0 <= hash < HASH_LIMIT
    ensures 0 <= r < TRIMMED_LIMIT
  {
    var low := hash % TRIMMED_LIMIT;
    4 * (low / 4) + Xor2(low % 4, hash / TRIMMED_LIMIT)
  }

  /** chainStart. */
  function ChainStart(hash: int, count: int): (r: int)
    requires 0 <= hash && 2 < count
    ensures 0 <= r < count
  {
    hash % count
  }

  /** chainIncrement: the rotated hash, (hash >> 7) | (hash << 25) on 32 bits. */
  function ChainIncrement(hash: int, count: int): (r: int)
    requires 0 <= hash < TRIMMED_LIMIT && 2 < count
    ensures 1 <= r < count
  {
    (hash / 128 + (hash % 128) * 0x200_0000) % (count - 1) + 1
  }

  /** chainSeek. */
  function ChainSeek(index: int, increment: int, count: int): (r: int)
    requires 0 <= index && 0 <= increment && 0 < count
    ensures 0 <= r < count
  {
    (index + increment) % count
  }

  /** The bucket a hash code looks at in step k. */
  function Probe(hash: int, count: int, k: nat): (r: int)
    requires 0 <= hash < TRIMMED_LIMIT && 2 < count
    ensures 0 <= r < count
  {
    if k == 0 then ChainStart(hash, count)
    else ChainSeek(Probe(hash, count, k - 1), ChainIncrement(hash, count), count)
  }

  lemma ModAdd(a: int, b: int, n: int)
    requires n > 0
    ensures (a % n + b) % n == (a + b) % n
  {
    var c := a % n + b;
    assert c == n * (c / n) + c % n;
    assert a + b == n * (a / n + c / n) + c % n by {
      assert n * (a / n + c / n) == n * (a / n) + n * (c / n);
    }
    DivUnique(a + b, n, a / n + c / n, c % n);
  }

  lemma SeekAdds(x: int, inc: int, count: int)
    requires 0 <= inc && 0 < count
    ensures ChainSeek(x % count, inc, count) == (x + inc) % count
  {
    ModAdd(x, inc, count);
  }

  lemma MulSucc(k: nat, inc: int)
    requires k > 0
    ensures (k - 1) * inc + inc == k * inc
  {
  }

  /** Closed form of the probe sequence. */
  lemma {:induction false} ProbeIsLinear(hash: int, count: int, k: nat)
    requires 0 <= hash < TRIMMED_LIMIT && 2 < count
    ensures Probe(hash, count, k) == (hash + k * ChainIncrement(hash, count)) % count
  {
    hide ChainIncrement, ChainSeek;
    if k > 0 {
      var inc := ChainIncrement(hash, count);
      ProbeIsLinear(hash, count, k - 1);
      SeekAdds(hash + (k - 1) * inc, inc, count);
      MulSucc(k, inc);
    }
  }

  /** A prime divides no product of two smaller positive numbers. */
  lemma {:induction false} NoSmallMultiple(p: int, a: int, k: int)
    requires IsPrime(p) && 1 <= a < p && 1 <= k < p
    ensures (k * a) % p != 0
    decreases k
  {
    if k == 1 {
      DivUnique(a, p, 0, a);
    } else {
      var q, r := p / k, p % k;
      assert r != 0;
      NoSmallMultiple(p, a, r);
      if (k * a) % p == 0 {
        var m := (k * a) / p;
        RemainderMultiple(p, a, k, q, r, m);
      }
    }
  }

  lemma RemainderMultiple(p: int, a: int, k: int, q: int, r: int, m: int)
    requires p > 0 && p == k * q + r && k * a == p * m
    ensures (r * a) % p == 0
  {
    calc {
      r * a;
      (p - k * q) * a;
      { assert (k * q) * a == q * (k * a); }
      p * a - q * (p * m);
      { assert q * (p * m) == p * (q * m); assert p * a - p * (q * m) == p * (a - q * m); }
      p * (a - q * m);
    }
    DivUnique(r * a, p, a - q * m, 0);
  }

  lemma EqualRemainders(x: int, y: int, n: int)
    requires n > 0 && x % n == y % n
    ensures (x - y) % n == 0
  {
    var a, b := x / n, y / n;
    assert x - y == n * (a - b) by {
      assert n * (a - b) == n * a - n * b;
    }
    DivUnique(x - y, n, a - b, 0);
  }

  /** No bucket is visited twice within count steps. */
  lemma ProbeIsInjective(hash: int, count: int, j: nat, k: nat)
    requires 0 <= hash < TRIMMED_LIMIT && 2 < count && IsPrime(count) && j < k < count
    ensures Probe(hash, count, j) != Probe(hash, count, k)
  {
    var inc := ChainIncrement(hash, count);
    ProbeIsLinear(hash, count, j);
    ProbeIsLinear(hash, count, k);
    NoSmallMultiple(count, inc, k - j);
    assert hash + k * inc - (hash + j * inc) == (k - j) * inc;
    if Probe(hash, count, j) == Probe(hash, count, k) {
      EqualRemainders(hash + k * inc, hash + j * inc, count);
    }
  }

  /** The buckets visited in the first k steps. */
  ghost function Visited(hash: int, count: int, k: nat): (s: set<int>)
    requires 0 <= hash < TRIMMED_LIMIT && 2 < count
    ensures forall i :: i in s ==> 0 <= i < count
  {
    if k == 0 then {} else Visited(hash, count, k - 1) + {Probe(hash, count, k - 1)}
  }

  lemma {:induction false} VisitedFrom(hash: int, count: int, k: nat, i: int) returns (j: nat)
    requires 0 <= hash < TRIMMED_LIMIT && 2 < count && i in Visited(hash, count, k)
    ensures j < k && Probe(hash, count, j) == i
  {
    if i == Probe(hash, count, k - 1) {
      j := k - 1;
    } else {
      j := VisitedFrom(hash, count, k - 1, i);
    }
  }

  lemma {:induction false} VisitedCount(hash: int, count: int, k: nat)
    requires 0 <= hash < TRIMMED_LIMIT && 2 < count && IsPrime(count) && k <= count
    ensures |Visited(hash, count, k)| == k
  {
    if k > 0 {
      VisitedCount(hash, count, k - 1);
      var i := Probe(hash, count, k - 1);
      if i in Visited(hash, count, k - 1) {
        var j := VisitedFrom(hash, count, k - 1, i);
        ProbeIsInjective(hash, count, j, k - 1);
      }
    }
  }

  function Range(n: nat): (s: set<int>)
    ensures forall i :: i in s <==> 0 <= i < n
    ensures |s| == n
  {
    if n == 0 then {} else Range(n - 1) + {n - 1}
  }

  lemma SubsetOfSameSize(a: set<int>, b: set<int>)
    requires a <= b && |a| == |b|
    ensures a == b
  {
    assert |b - a| == |b| - |a| by {
      assert b == a + (b - a);
    }
  }

  /** The probe sequence is a full cycle: every bucket is looked at within count steps. */
  lemma ProbeReachesAll(hash: int, count: int, i: int) returns (k: nat)
    requires 0 <= hash < TRIMMED_LIMIT && 2 < count && IsPrime(count) && 0 <= i < count
    ensures k < count && Probe(hash, count, k) == i
  {
    var v := Visited(hash, count, count);
    VisitedCount(hash, count, count);
    assert v <= Range(count);
    SubsetOfSameSize(v, Range(count));
    k := VisitedFrom(hash, count, count, i);
  }
}
