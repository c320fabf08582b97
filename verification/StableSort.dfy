/** VectorImpl::sort: an insertion sort that must be stable. */
module StableSort {
  import opened SortedVector

  ghost predicate NonDecreasing<T>(cmp: (T, T) -> int, s: seq<T>) {
    forall i, j :: 0 <= i < j < |s| ==> cmp(s[i], s[j]) <= 0
  }

  /** x goes in front of the items above it at the end of s. */
  function InsertFromRight<T>(cmp: (T, T) -> int, s: seq<T>, x: T): (r: seq<T>)
    ensures |r| == |s| + 1
  {
    if s == [] || cmp(s[|s| - 1], x) <= 0 then s + [x]
    else InsertFromRight(cmp, s[..|s| - 1], x) + [s[|s| - 1]]
  }

  function SortOf<T>(cmp: (T, T) -> int, s: seq<T>): (r: seq<T>)
    ensures |r| == |s|
  {
    if s == [] then [] else InsertFromRight(cmp, SortOf(cmp, s[..|s| - 1]), s[|s| - 1])
  }

  /** Where x lands. */
  lemma {:induction false} InsertPlace<T(!new)>(cmp: (T, T) -> int, s: seq<T>, x: T) returns (k: nat)
    ensures k <= |s| && InsertFromRight(cmp, s, x) == s[..k] + [x] + s[k..]
    ensures k > 0 ==> cmp(s[k - 1], x) <= 0
    ensures forall i :: k <= i < |s| ==> cmp(s[i], x) > 0
  {
    hide InsertFromRight;
    if s == [] || cmp(s[|s| - 1], x) <= 0 {
      k := |s|;
      InsertAtEnd(cmp, s, x);
      assert s[..k] + [x] + s[k..] == s + [x];
    } else {
      var t, y := s[..|s| - 1], s[|s| - 1];
      k := InsertPlace(cmp, t, x);
      InsertBeforeLast(cmp, s, x);
      assert t[..k] == s[..k] && t[k..] + [y] == s[k..];
      assert s[..k] + [x] + (t[k..] + [y]) == s[..k] + [x] + t[k..] + [y];
    }
  }

  lemma InsertAtEnd<T>(cmp: (T, T) -> int, s: seq<T>, x: T)
    requires s != [] ==> cmp(s[|s| - 1], x) <= 0
    ensures InsertFromRight(cmp, s, x) == s + [x]
  {
  }

  lemma InsertBeforeLast<T>(cmp: (T, T) -> int, s: seq<T>, x: T)
    requires s != [] && cmp(s[|s| - 1], x) > 0
    ensures InsertFromRight(cmp, s, x) == InsertFromRight(cmp, s[..|s| - 1], x) + [s[|s| - 1]]
  {
  }

  lemma InsertSorts<T(!new)>(cmp: (T, T) -> int, s: seq<T>, x: T)
    requires IsOrder(cmp) && NonDecreasing(cmp, s)
    ensures NonDecreasing(cmp, InsertFromRight(cmp, s, x))
    ensures multiset(InsertFromRight(cmp, s, x)) == multiset(s) + multiset{x}
  {
    hide InsertFromRight, NonDecreasing;
    var k := InsertPlace(cmp, s, x);
    SplicedItems(s, x, k);
    forall i | 0 <= i < k
      ensures cmp(s[i], x) <= 0
    {
      BelowPlace(cmp, s, x, k, i);
    }
    forall i | k <= i < |s|
      ensures cmp(x, s[i]) <= 0
    {
      assert cmp(s[i], x) > 0;
    }
    hide IsOrder;
    Spliced(cmp, s, x, k);
  }

  lemma SplicedItems<T>(s: seq<T>, x: T, k: nat)
    requires k <= |s|
    ensures multiset(s[..k] + [x] + s[k..]) == multiset(s) + multiset{x}
  {
    assert s == s[..k] + s[k..];
  }

  lemma Spliced<T(!new)>(cmp: (T, T) -> int, s: seq<T>, x: T, k: nat)
    requires NonDecreasing(cmp, s) && k <= |s|
    requires forall i :: 0 <= i < k ==> cmp(s[i], x) <= 0
    requires forall i :: k <= i < |s| ==> cmp(x, s[i]) <= 0
    ensures NonDecreasing(cmp, s[..k] + [x] + s[k..])
  {
    var r := s[..k] + [x] + s[k..];
    assert forall i :: 0 <= i < k ==> r[i] == s[i];
    assert forall i :: k < i < |r| ==> r[i] == s[i - 1];
  }

  lemma BelowPlace<T(!new)>(cmp: (T, T) -> int, s: seq<T>, x: T, k: nat, i: nat)
    requires IsOrder(cmp) && NonDecreasing(cmp, s) && i < k <= |s| && cmp(s[k - 1], x) <= 0
    ensures cmp(s[i], x) <= 0
  {
    var a, b := s[i], s[k - 1];
    assert i < k - 1 ==> cmp(a, b) <= 0;
    assert cmp(x, a) < 0 && cmp(a, b) <= 0 ==> cmp(x, b) < 0;
  }

  /** The result is a sorted permutation. */
  lemma {:induction false} SortIsSorted<T(!new)>(cmp: (T, T) -> int, s: seq<T>)
    requires IsOrder(cmp)
    ensures NonDecreasing(cmp, SortOf(cmp, s)) && multiset(SortOf(cmp, s)) == multiset(s)
  {
    hide IsOrder, InsertFromRight;
    if s != [] {
      var n := |s| - 1;
      SortIsSorted(cmp, s[..n]);
      InsertSorts(cmp, SortOf(cmp, s[..n]), s[n]);
      assert s == s[..n] + [s[n]];
    }
  }

  /** The items that compare equal to x, in the order they stand in s. */
  function Equals<T>(cmp: (T, T) -> int, x: T, s: seq<T>): seq<T> {
    if s == [] then []
    else Equals(cmp, x, s[..|s| - 1]) + (if cmp(s[|s| - 1], x) == 0 then [s[|s| - 1]] else [])
  }

  lemma EqualsLast<T>(cmp: (T, T) -> int, x: T, s: seq<T>, y: T)
    ensures Equals(cmp, x, s + [y]) == Equals(cmp, x, s) + (if cmp(y, x) == 0 then [y] else [])
  {
    assert (s + [y])[..|s|] == s;
  }

  lemma {:induction false} InsertIsStable<T(!new)>(cmp: (T, T) -> int, s: seq<T>, x: T, c: T)
    requires IsOrder(cmp)
    ensures Equals(cmp, c, InsertFromRight(cmp, s, x)) == Equals(cmp, c, s + [x])
  {
    hide Equals;
    if s != [] && cmp(s[|s| - 1], x) > 0 {
      var t, y := s[..|s| - 1], s[|s| - 1];
      InsertIsStable(cmp, t, x, c);
      assert s == t + [y];
      EqualsLast(cmp, c, InsertFromRight(cmp, t, x), y);
      EqualsLast(cmp, c, t, x);
      EqualsLast(cmp, c, t, y);
      EqualsLast(cmp, c, s, x);
      NotBothEqual(cmp, x, y, c);
    }
  }

  lemma NotBothEqual<T(!new)>(cmp: (T, T) -> int, x: T, y: T, c: T)
    requires IsOrder(cmp) && cmp(y, x) > 0
    ensures cmp(x, c) != 0 || cmp(y, c) != 0
  {
    assert cmp(x, y) < 0;
    if cmp(y, c) == 0 {
      assert cmp(x, c) < 0;
    }
  }

  /** Items that compare equal keep their order, whatever they are. */
  lemma {:induction false} SortIsStable<T(!new)>(cmp: (T, T) -> int, s: seq<T>, c: T)
    requires IsOrder(cmp)
    ensures Equals(cmp, c, SortOf(cmp, s)) == Equals(cmp, c, s)
  {
    hide IsOrder, InsertFromRight, Equals;
    if s != [] {
      var n := |s| - 1;
      SortIsStable(cmp, s[..n], c);
      InsertIsStable(cmp, SortOf(cmp, s[..n]), s[n], c);
      EqualsLast(cmp, c, SortOf(cmp, s[..n]), s[n]);
      EqualsLast(cmp, c, s[..n], s[n]);
      assert s == s[..n] + [s[n]];
    }
  }

  /** One step of the outer loop: the do-while that shifts the larger items up. */
  method InsertStep<T(!new)>(cmp: (T, T) -> int, row: seq<T>, i: nat) returns (r: seq<T>)
    requires 0 < i < |row| && cmp(row[i - 1], row[i]) > 0
    ensures |r| == |row| && r[..i + 1] == InsertFromRight(cmp, row[..i], row[i]) && r[i + 1..] == row[i + 1..]
  {
    hide InsertFromRight;
    var temp := row[i];
    ghost var s := row[..i];
    r := row;
    var next, j := i, i - 1;
    InsertLast(cmp, s, temp);
    while j >= 0 && cmp(r[j], temp) > 0
      invariant -1 <= j < i && next == j + 1 && |r| == |row|
      invariant r[..next] == s[..next] && r[next + 1..i + 1] == s[next..] && r[i + 1..] == row[i + 1..]
      invariant InsertFromRight(cmp, s, temp) == InsertFromRight(cmp, s[..next], temp) + s[next..]
      decreases next
    {
      assert r[j] == r[..next][j];
      InsertShift(cmp, s, temp, j);
      r := r[next := r[j]];
      next := j;
      j := j - 1;
    }
    assert j >= 0 ==> r[j] == r[..next][j];
    InsertStop(cmp, s, temp, next);
    r := r[next := temp];
    assert r[..i + 1] == s[..next] + [temp] + s[next..];
  }

  /** Moving one larger item up. */
  lemma InsertShift<T>(cmp: (T, T) -> int, s: seq<T>, x: T, j: nat)
    requires j < |s| && cmp(s[j], x) > 0
    ensures InsertFromRight(cmp, s[..j + 1], x) + s[j + 1..] == InsertFromRight(cmp, s[..j], x) + s[j..]
  {
    assert s[..j + 1][..j] == s[..j] && [s[j]] + s[j + 1..] == s[j..];
    var inner := InsertFromRight(cmp, s[..j], x);
    assert inner + [s[j]] + s[j + 1..] == inner + s[j..];
  }

  lemma InsertStop<T>(cmp: (T, T) -> int, s: seq<T>, x: T, k: nat)
    requires k <= |s| && (k == 0 || cmp(s[k - 1], x) <= 0)
    ensures InsertFromRight(cmp, s[..k], x) + s[k..] == s[..k] + [x] + s[k..]
  {
  }

  lemma InsertLast<T>(cmp: (T, T) -> int, s: seq<T>, x: T)
    ensures InsertFromRight(cmp, s[..|s|], x) + s[|s|..] == InsertFromRight(cmp, s, x)
  {
    assert s[..|s|] == s;
  }
}
