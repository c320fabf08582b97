/**
 SortedVectorImpl: a vector kept in strictly increasing order of a comparison, with
 binary search, insertion that replaces an equal item, and removal.
 */
module SortedVector {

  /** What do_compare must be: the sign of a total order (up to equal items). */
  ghost predicate IsOrder<T(!new)>(cmp: (T, T) -> int) {
    && (forall a, b :: cmp(a, b) < 0 <==> cmp(b, a) > 0)
    && (forall a, b, c :: cmp(a, b) <= 0 && cmp(b, c) < 0 ==> cmp(a, c) < 0)
    && (forall a, b, c :: cmp(a, b) < 0 && cmp(b, c) <= 0 ==> cmp(a, c) < 0)
  }

  ghost predicate Sorted<T>(cmp: (T, T) -> int, s: seq<T>) {
    forall i, j :: 0 <= i < j < |s| ==> cmp(s[i], s[j]) < 0
  }

  /** The number of leading items below x: where x is, or belongs. */
  function OrderOf<T>(cmp: (T, T) -> int, s: seq<T>, x: T): (r: nat)
    ensures r <= |s|
    ensures forall i :: 0 <= i < r ==> cmp(s[i], x) < 0
    ensures r < |s| ==> cmp(s[r], x) >= 0
  {
    if s == [] || cmp(s[0], x) >= 0 then 0 else 1 + OrderOf(cmp, s[1..], x)
  }

  predicate Found<T>(cmp: (T, T) -> int, s: seq<T>, x: T) {
    var o := OrderOf(cmp, s, x);
    o < |s| && cmp(s[o], x) == 0
  }

  /** In a sorted vector everything after the place of x is above x. */
  lemma AboveOrder<T(!new)>(cmp: (T, T) -> int, s: seq<T>, x: T, i: nat)
    requires IsOrder(cmp) && Sorted(cmp, s) && OrderOf(cmp, s, x) < i < |s|
    ensures cmp(s[i], x) > 0
  {
    hide OrderOf;
    var o := OrderOf(cmp, s, x);
    assert cmp(s[o], s[i]) < 0 && cmp(s[o], x) >= 0;
    assert cmp(x, s[o]) <= 0;
    assert cmp(x, s[i]) < 0;
  }

  /** The order is the only place with lower items before it and none after it. */
  lemma OrderIsUnique<T(!new)>(cmp: (T, T) -> int, s: seq<T>, x: T, o: nat)
    requires o <= |s|
    requires forall i :: 0 <= i < o ==> cmp(s[i], x) < 0
    requires o < |s| ==> cmp(s[o], x) >= 0
    ensures OrderOf(cmp, s, x) == o
  {
    hide OrderOf;
    var r := OrderOf(cmp, s, x);
    assert r < |s| ==> cmp(s[r], x) >= 0;
    assert o < |s| ==> cmp(s[o], x) >= 0;
  }

  /** An item is found exactly when some item compares equal. */
  lemma FoundMeansPresent<T(!new)>(cmp: (T, T) -> int, s: seq<T>, x: T)
    requires IsOrder(cmp) && Sorted(cmp, s)
    ensures Found(cmp, s, x) <==> exists i :: 0 <= i < |s| && cmp(s[i], x) == 0
  {
    hide OrderOf;
    forall i | 0 <= i < |s| && cmp(s[i], x) == 0
      ensures i == OrderOf(cmp, s, x)
    {
      if OrderOf(cmp, s, x) < i {
        AboveOrder(cmp, s, x, i);
      }
    }
  }

  /** _indexOrderOf: the binary search. */
  method IndexOrderOf<T(!new)>(cmp: (T, T) -> int, s: seq<T>, x: T) returns (found: bool, order: nat)
    requires IsOrder(cmp) && Sorted(cmp, s)
    ensures order == OrderOf(cmp, s, x) && found == Found(cmp, s, x)
  {
    hide OrderOf, IsOrder, Sorted;
    var l, h := 0, |s| - 1;
    found := false;
    while l <= h
      invariant 0 <= l <= h + 1 <= |s|
      invariant l <= OrderOf(cmp, s, x) <= h + 1
      invariant h + 1 < |s| ==> cmp(s[h + 1], x) > 0
      invariant 0 < l ==> cmp(s[l - 1], x) < 0
      decreases h - l
    {
      var mid := l + (h - l) / 2;
      Halve(cmp, s, x, mid);
      var c := cmp(s[mid], x);
      if c == 0 {
        return true, mid;
      } else if c < 0 {
        l := mid + 1;
      } else {
        h := mid - 1;
      }
    }
    order := l;
  }

  /** One comparison tells on which side the place of x lies. */
  lemma Halve<T(!new)>(cmp: (T, T) -> int, s: seq<T>, x: T, mid: nat)
    requires IsOrder(cmp) && Sorted(cmp, s) && mid < |s|
    ensures cmp(s[mid], x) < 0 ==> mid < OrderOf(cmp, s, x)
    ensures cmp(s[mid], x) == 0 ==> mid == OrderOf(cmp, s, x)
    ensures cmp(s[mid], x) > 0 ==> OrderOf(cmp, s, x) <= mid
  {
    hide OrderOf, IsOrder;
    if OrderOf(cmp, s, x) < mid {
      AboveOrder(cmp, s, x, mid);
    }
  }

  /** add: replaces the equal item, or inserts at the order. */
  function Added<T>(cmp: (T, T) -> int, s: seq<T>, x: T): seq<T> {
    var o := OrderOf(cmp, s, x);
    s[..o] + [x] + s[if Found(cmp, s, x) then o + 1 else o..]
  }

  method Add<T(!new)>(cmp: (T, T) -> int, s: seq<T>, x: T) returns (r: seq<T>)
    requires IsOrder(cmp) && Sorted(cmp, s)
    ensures r == Added(cmp, s, x)
  {
    hide OrderOf, IsOrder, Sorted;
    var found, order := IndexOrderOf(cmp, s, x);
    if found {
      r := s[order := x];
      assert r == s[..order] + [x] + s[order + 1..];
    } else {
      r := s[..order] + [x] + s[order..];
    }
  }

  /** Adding keeps the order strict. */
  lemma AddedIsSorted<T(!new)>(cmp: (T, T) -> int, s: seq<T>, x: T)
    requires IsOrder(cmp) && Sorted(cmp, s)
    ensures Sorted(cmp, Added(cmp, s, x))
  {
    hide OrderOf;
    var o := OrderOf(cmp, s, x);
    var skip := if Found(cmp, s, x) then o + 1 else o;
    forall i | skip <= i < |s|
      ensures cmp(x, s[i]) < 0
    {
      if o < i {
        AboveOrder(cmp, s, x, i);
      }
    }
    hide IsOrder, Found;
    var r := Added(cmp, s, x);
    forall i, j | 0 <= i < j < |r|
      ensures cmp(r[i], r[j]) < 0
    {
    }
  }

  /** Adding changes the items in one way only: x is in, whatever equalled it is out. */
  lemma AddedItems<T(!new)>(cmp: (T, T) -> int, s: seq<T>, x: T, y: T)
    requires IsOrder(cmp) && Sorted(cmp, s)
    ensures y in Added(cmp, s, x) <==> y == x || (y in s && cmp(y, x) != 0)
  {
    hide OrderOf, IsOrder;
    var o := OrderOf(cmp, s, x);
    if y in s {
      var i :| 0 <= i < |s| && s[i] == y;
      Halve(cmp, s, x, i);
    }
    if y in s[..o] {
      var i :| 0 <= i < o && s[i] == y;
    }
    var skip := if Found(cmp, s, x) then o + 1 else o;
    if y in s[skip..] {
      var i :| skip <= i < |s| && s[i] == y;
      Halve(cmp, s, x, i);
    }
  }

  /** remove: drops the equal item, if any. */
  function Removed<T>(cmp: (T, T) -> int, s: seq<T>, x: T): seq<T> {
    var o := OrderOf(cmp, s, x);
    if Found(cmp, s, x) then s[..o] + s[o + 1..] else s
  }

  method Remove<T(!new)>(cmp: (T, T) -> int, s: seq<T>, x: T) returns (r: seq<T>)
    requires IsOrder(cmp) && Sorted(cmp, s)
    ensures r == Removed(cmp, s, x)
  {
    hide OrderOf, IsOrder, Sorted;
    var found, order := IndexOrderOf(cmp, s, x);
    r := if found then s[..order] + s[order + 1..] else s;
  }

  /** Removing a new item that was just added gives the vector back. */
  lemma AddThenRemove<T(!new)>(cmp: (T, T) -> int, s: seq<T>, x: T)
    requires IsOrder(cmp) && Sorted(cmp, s) && !Found(cmp, s, x)
    ensures Removed(cmp, Added(cmp, s, x), x) == s
  {
    hide OrderOf;
    var o, r := OrderOf(cmp, s, x), Added(cmp, s, x);
    assert cmp(x, x) == 0;
    hide IsOrder, Sorted;
    assert r[o] == x && forall i :: 0 <= i < o ==> r[i] == s[i];
    OrderIsUnique(cmp, r, x, o);
    assert r[..o] + r[o + 1..] == s;
  }
}
