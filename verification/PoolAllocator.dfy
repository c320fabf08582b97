/**
 The pool allocator of myAlloc.c: first fit, splitting, and coalescing with both neighbours.
 */
module PoolAllocator {

  // Sizes are those of a 32-bit target: a header is one 4-byte size word, and a free block also
  // holds an 8-byte list node. The free list is kept as the sequence of its node addresses, and the
  // size words in the chunk as a map from address to value.

  const WORD: int := 4        // sizeof(size_t)
  const LIST_NODE: int := 8   // sizeof(list_t)
  const FREE_NODE: int := 12  // sizeof(free_pool_t)

  function Align8(x: int): (r: int)
    ensures x <= r < x + 8 && r % 8 == 0
    ensures r == x <==> x % 8 == 0
  {
    (x + 7) / 8 * 8
  }

  // ----- the chunk as a row of blocks -----

  /** A block: its header is at addr, its payload of size bytes follows the header. */
  datatype Tile = Tile(addr: int, size: int, free: bool)

  function End(t: Tile): int { t.addr + WORD + t.size }

  /** The tiles lie end to end from lo to hi, and each payload can hold a list node. */
  ghost predicate Chain(ts: seq<Tile>, lo: int, hi: int) {
    && ts != [] && ts[0].addr == lo && End(ts[|ts| - 1]) == hi
    && (forall i, j :: 0 <= i < |ts| - 1 && j == i + 1 ==> End(ts[i]) == ts[j].addr)
    && (forall i :: 0 <= i < |ts| ==> ts[i].size >= LIST_NODE)
  }

  ghost predicate NoFreeNeighbours(ts: seq<Tile>) {
    forall i, j :: 0 <= i < |ts| - 1 && j == i + 1 ==> !(ts[i].free && ts[j].free)
  }

  lemma {:induction false} TilesAreOrdered(ts: seq<Tile>, lo: int, hi: int, i: nat, j: nat)
    requires Chain(ts, lo, hi) && i < j < |ts|
    ensures End(ts[i]) <= ts[j].addr
    decreases j - i
  {
    if i + 1 < j {
      TilesAreOrdered(ts, lo, hi, i, j - 1);
      assert End(ts[j - 1]) == ts[j].addr;
    } else {
      assert End(ts[i]) == ts[j].addr;
    }
  }

  lemma TileInside(ts: seq<Tile>, lo: int, hi: int, i: nat)
    requires Chain(ts, lo, hi) && i < |ts|
    ensures lo <= ts[i].addr && End(ts[i]) <= hi
  {
    if i > 0 {
      TilesAreOrdered(ts, lo, hi, 0, i);
    }
    if i < |ts| - 1 {
      TilesAreOrdered(ts, lo, hi, i, |ts| - 1);
    }
  }

  /** Different tiles share no byte. */
  lemma TilesAreDisjoint(ts: seq<Tile>, lo: int, hi: int, i: nat, j: nat, b: int)
    requires Chain(ts, lo, hi) && i < |ts| && j < |ts| && i != j && ts[i].addr <= b < End(ts[i])
    ensures !(ts[j].addr <= b < End(ts[j]))
  {
    if i < j {
      TilesAreOrdered(ts, lo, hi, i, j);
    } else {
      TilesAreOrdered(ts, lo, hi, j, i);
    }
  }

  lemma SameAddress(ts: seq<Tile>, lo: int, hi: int, i: nat, j: nat)
    requires Chain(ts, lo, hi) && i < |ts| && j < |ts| && ts[i].addr == ts[j].addr
    ensures i == j
  {
    if i < j {
      TilesAreOrdered(ts, lo, hi, i, j);
    } else if j < i {
      TilesAreOrdered(ts, lo, hi, j, i);
    }
  }

  /** Two tiles that touch are neighbours in the row. */
  lemma TouchingTiles(ts: seq<Tile>, lo: int, hi: int, i: nat, j: nat)
    requires Chain(ts, lo, hi) && i < |ts| && j < |ts| && End(ts[i]) == ts[j].addr
    ensures j == i + 1
  {
    if j < i {
      TilesAreOrdered(ts, lo, hi, j, i);
    } else if i + 1 < j {
      TilesAreOrdered(ts, lo, hi, i + 1, j);
    }
  }

  /** Replacing some tiles by others that cover the same bytes keeps the row. */
  lemma SpliceChain(ts: seq<Tile>, lo: int, hi: int, i: nat, j: nat, mid: seq<Tile>)
    requires Chain(ts, lo, hi) && i < j <= |ts| && Chain(mid, ts[i].addr, End(ts[j - 1]))
    ensures Chain(ts[..i] + mid + ts[j..], lo, hi)
  {
    var r := ts[..i] + mid + ts[j..];
    forall a, b | 0 <= a < |r| - 1 && b == a + 1 ensures End(r[a]) == r[b].addr {
      if b < i {
        assert r[a] == ts[a] && r[b] == ts[b];
      } else if a == i - 1 {
        assert r[a] == ts[a] && r[b] == mid[0] && End(ts[a]) == ts[i].addr;
      } else if b < i + |mid| {
        assert r[a] == mid[a - i] && r[b] == mid[b - i];
      } else if a == i + |mid| - 1 {
        assert r[a] == mid[|mid| - 1] && r[b] == ts[j] && End(ts[j - 1]) == ts[j].addr;
      } else {
        assert r[a] == ts[a - i - |mid| + j] && r[b] == ts[b - i - |mid| + j];
      }
    }
    forall a | 0 <= a < |r| ensures r[a].size >= LIST_NODE {
      if a < i {
        assert r[a] == ts[a];
      } else if a < i + |mid| {
        assert r[a] == mid[a - i];
      } else {
        assert r[a] == ts[a - i - |mid| + j];
      }
    }
  }

  // ----- free list and size words -----

  ghost predicate Distinct(s: seq<int>) { forall i, j :: 0 <= i < j < |s| ==> s[i] != s[j] }

  /** The free list holds each free tile once, and every header holds its tile's size. */
  ghost predicate Agree(ts: seq<Tile>, free: seq<int>, sizes: map<int, int>) {
    && Distinct(free)
    && (forall a :: a in free ==> exists i :: 0 <= i < |ts| && ts[i].free && ts[i].addr == a)
    && (forall i :: 0 <= i < |ts| && ts[i].free ==> ts[i].addr in free)
    && (forall i :: 0 <= i < |ts| ==> ts[i].addr in sizes && sizes[ts[i].addr] == ts[i].size)
  }

  lemma TileOfNode(ts: seq<Tile>, free: seq<int>, sizes: map<int, int>, n: nat) returns (i: nat)
    requires Agree(ts, free, sizes) && n < |free|
    ensures i < |ts| && ts[i].free && ts[i].addr == free[n] && free[n] in sizes && sizes[free[n]] == ts[i].size
  {
    assert free[n] in free;
    i :| 0 <= i < |ts| && ts[i].free && ts[i].addr == free[n];
  }

  function Without(s: seq<int>, n: nat): seq<int>
    requires n < |s|
  {
    s[..n] + s[n + 1..]
  }

  lemma WithoutIsRest(s: seq<int>, n: nat)
    requires n < |s| && Distinct(s)
    ensures Distinct(Without(s, n))
    ensures forall a :: a in Without(s, n) <==> a in s && a != s[n]
  {
    var r := Without(s, n);
    assert forall k :: 0 <= k < n ==> r[k] == s[k];
    assert forall k :: n <= k < |r| ==> r[k] == s[k + 1];
    forall a | a in s && a != s[n] ensures a in r {
      var k :| 0 <= k < |s| && s[k] == a;
      assert r[if k < n then k else k - 1] == a;
    }
  }

  lemma InsertedDistinct(s: seq<int>, p: nat, a: int)
    requires p <= |s| && Distinct(s) && a !in s
    ensures Distinct(s[..p] + [a] + s[p..])
    ensures forall x :: x in s[..p] + [a] + s[p..] <==> x in s || x == a
  {
    var r := s[..p] + [a] + s[p..];
    assert forall k :: 0 <= k < p ==> r[k] == s[k];
    assert forall k :: p < k < |r| ==> r[k] == s[k - 1];
    forall x | x in s ensures x in r {
      var k :| 0 <= k < |s| && s[k] == x;
      assert r[if k < p then k else k + 1] == x;
    }
  }

  /** The search loop before an insertion: right after the first node at least as large, or at the front. */
  method InsertionPoint(free: seq<int>, sizes: map<int, int>, size: int) returns (p: nat)
    requires forall k :: 0 <= k < |free| ==> free[k] in sizes
    ensures p <= |free|
    ensures p == 0 ==> forall k :: 0 <= k < |free| ==> sizes[free[k]] < size
    ensures p > 0 ==> sizes[free[p - 1]] >= size && forall k :: 0 <= k < p - 1 ==> sizes[free[k]] < size
  {
    var n := 0;
    while n < |free|
      invariant n <= |free| && forall k :: 0 <= k < n ==> sizes[free[k]] < size
    {
      if sizes[free[n]] >= size {
        return n + 1;
      }
      n := n + 1;
    }
    p := 0;
  }

  /** Node p of the list stands right behind the first other node at least as large, or at the front if there is none. */
  ghost predicate WellPlaced(free: seq<int>, sizes: map<int, int>, p: nat)
    requires p < |free| && forall k :: 0 <= k < |free| ==> free[k] in sizes
  {
    if p == 0 then forall k :: 0 < k < |free| ==> sizes[free[k]] < sizes[free[0]]
    else sizes[free[p - 1]] >= sizes[free[p]] && forall k :: 0 <= k < p - 1 ==> sizes[free[k]] < sizes[free[p]]
  }

  ghost predicate Before(s: seq<int>, a: int, b: int) { exists i, j :: 0 <= i < j < |s| && s[i] == a && s[j] == b }

  /** The nodes of r stand in s in the same order. */
  ghost predicate OrderKept(r: seq<int>, s: seq<int>) {
    && (forall a :: a in r ==> a in s)
    && (forall i, j :: 0 <= i < j < |r| ==> Before(s, r[i], r[j]))
  }

  /** The list after is the nodes rest with x put where pool_free and pool_malloc put a free block. */
  ghost predicate Listed(rest: seq<int>, after: seq<int>, sizes: map<int, int>, x: int) {
    && (forall k :: 0 <= k < |after| ==> after[k] in sizes)
    && exists p: nat :: p < |after| && after[p] == x && Without(after, p) == rest && WellPlaced(after, sizes, p)
  }

  /** The block at x holds every byte of the block at a before. */
  ghost predicate Covers(x: int, sizes: map<int, int>, a: int, sizes0: map<int, int>) {
    x in sizes && a in sizes0 && x <= a && a + sizes0[a] <= x + sizes[x]
  }

  ghost predicate SameSizes(free: seq<int>, sizes: map<int, int>, sizes0: map<int, int>) {
    forall a :: a in free ==> a in sizes && a in sizes0 && sizes[a] == sizes0[a]
  }

  /** The free blocks left are old ones, in their order and unchanged, and x has grown out of the block at a. */
  ghost predicate Coalesced(
    free: seq<int>, sizes: map<int, int>, x: int, free0: seq<int>, sizes0: map<int, int>, a: int)
  {
    OrderKept(free, free0) && SameSizes(free, sizes, sizes0) && Covers(x, sizes, a, sizes0)
  }

  lemma CoalescedTwice(
    free: seq<int>, sizes: map<int, int>, x: int, free0: seq<int>, sizes0: map<int, int>, a: int,
    free1: seq<int>, sizes1: map<int, int>, b: int)
    requires Coalesced(free, sizes, x, free0, sizes0, a) && Coalesced(free0, sizes0, a, free1, sizes1, b)
    ensures Coalesced(free, sizes, x, free1, sizes1, b)
  {
    OrderKeptTwice(free, free0, free1);
    hide Before;
  }

  lemma NothingCoalesced(free: seq<int>, sizes: map<int, int>, a: int)
    requires a in sizes && forall k :: 0 <= k < |free| ==> free[k] in sizes
    ensures Coalesced(free, sizes, a, free, sizes, a)
  {
    assert forall i, j :: 0 <= i < j < |free| ==> Before(free, free[i], free[j]);
  }

  lemma BlocksHaveSize(ts: seq<Tile>, lo: int, hi: int, free: seq<int>, sizes: map<int, int>)
    requires RowOk(ts, lo, hi, free, sizes)
    ensures Distinct(free) && forall k :: 0 <= k < |free| ==> free[k] in sizes && sizes[free[k]] >= 0
    ensures forall i :: 0 <= i < |ts| ==> ts[i].addr in sizes && sizes[ts[i].addr] >= 0
  {
    forall k | 0 <= k < |free| ensures free[k] in sizes && sizes[free[k]] >= 0 {
      var i := TileOfNode(ts, free, sizes, k);
    }
  }

  /** One merge: the node at n goes, and its block and the one at a become the block at x. */
  lemma MergeCoalesces(free: seq<int>, sizes: map<int, int>, n: nat, x: int, a: int)
    requires n < |free| && Distinct(free) && (forall k :: 0 <= k < |free| ==> free[k] in sizes)
    requires a in sizes && a !in free && sizes[a] >= 0 && sizes[free[n]] >= 0
    requires if x == a then a + WORD + sizes[a] == free[n] else x == free[n] && x + WORD + sizes[x] == a
    ensures Coalesced(Without(free, n), sizes[x := sizes[a] + WORD + sizes[free[n]]], x, free, sizes, a)
  {
    OrderOfWithout(free, n);
    WithoutIsRest(free, n);
    hide OrderKept, Before, Without, Distinct;
  }

  /** Node n of free0 has left the list, and if it was split, its rest is put in anew; the other nodes are untouched. */
  ghost predicate Relisted(
    free: seq<int>, sizes: map<int, int>, free0: seq<int>, sizes0: map<int, int>, n: nat, split: bool)
    requires n < |free0| && free0[n] in sizes
  {
    && SameSizes(Without(free0, n), sizes, sizes0)
    && (if split then Listed(Without(free0, n), free, sizes, free0[n] + WORD + sizes[free0[n]])
        else free == Without(free0, n))
  }

  lemma ListedAt(rest: seq<int>, sizes: map<int, int>, x: int, p: nat)
    requires p <= |rest| && x in sizes && forall k :: 0 <= k < |rest| ==> rest[k] in sizes
    requires p == 0 ==> forall k :: 0 <= k < |rest| ==> sizes[rest[k]] < sizes[x]
    requires p > 0 ==> sizes[rest[p - 1]] >= sizes[x] && forall k :: 0 <= k < p - 1 ==> sizes[rest[k]] < sizes[x]
    ensures Listed(rest, rest[..p] + [x] + rest[p..], sizes, x)
  {
    var after := rest[..p] + [x] + rest[p..];
    assert forall k :: 0 <= k < |after| ==> after[k] == if k < p then rest[k] else if k == p then x else rest[k - 1];
    assert Without(after, p) == rest;
  }

  lemma RelistedWhole(free: seq<int>, sizes: map<int, int>, n: nat)
    requires n < |free| && free[n] in sizes && Distinct(free)
    requires forall k :: 0 <= k < |free| ==> free[k] in sizes
    ensures Relisted(Without(free, n), sizes[free[n] := sizes[free[n]]], free, sizes, n, false)
  {
    WithoutIsRest(free, n);
    hide Without, Distinct;
  }

  lemma RelistedRest(free: seq<int>, sizes: map<int, int>, n: nat, size: int, left: int, p: nat)
    requires n < |free| && Distinct(free) && p < |free| && forall k :: 0 <= k < |free| ==> free[k] in sizes
    requires free[n] + WORD + size !in Without(free, n) && size > -WORD
    requires var rest, s1 := Without(free, n), sizes[free[n] + WORD + size := left][free[n] := size];
             (forall k :: 0 <= k < |rest| ==> rest[k] in s1)
             && (if p == 0 then forall k :: 0 <= k < |rest| ==> s1[rest[k]] < left
                 else s1[rest[p - 1]] >= left && forall k :: 0 <= k < p - 1 ==> s1[rest[k]] < left)
    ensures var x, rest := free[n] + WORD + size, Without(free, n);
            Relisted(rest[..p] + [x] + rest[p..], sizes[x := left][free[n] := size], free, sizes, n, true)
  {
    var x, rest := free[n] + WORD + size, Without(free, n);
    var s1 := sizes[x := left][free[n] := size];
    WithoutIsRest(free, n);
    ListedAt(rest, s1, x, p);
    hide Without, Distinct, Listed;
  }

  lemma OrderOfWithout(s: seq<int>, n: nat)
    requires n < |s|
    ensures OrderKept(Without(s, n), s)
  {
    var r := Without(s, n);
    assert forall k :: 0 <= k < |r| ==> r[k] == s[if k < n then k else k + 1];
    forall i, j | 0 <= i < j < |r| ensures Before(s, r[i], r[j]) {
      var i', j' := if i < n then i else i + 1, if j < n then j else j + 1;
      assert s[i'] == r[i] && s[j'] == r[j];
    }
  }

  lemma OrderKeptTwice(r: seq<int>, s: seq<int>, t: seq<int>)
    requires OrderKept(r, s) && OrderKept(s, t)
    ensures OrderKept(r, t)
  {
    forall i, j | 0 <= i < j < |r| ensures Before(t, r[i], r[j]) {
      assert Before(s, r[i], r[j]);
      var k, l :| 0 <= k < l < |s| && s[k] == r[i] && s[l] == r[j];
      assert Before(t, s[k], s[l]);
    }
  }

  // ----- the allocator's three changes to the row -----

  ghost predicate RowOk(ts: seq<Tile>, lo: int, hi: int, free: seq<int>, sizes: map<int, int>) {
    Chain(ts, lo, hi) && NoFreeNeighbours(ts) && Agree(ts, free, sizes)
  }

  /** A free tile becomes live, with its rest split off as a new free tile if mid says so. */
  function Taken(t: Tile, size: int): (mid: seq<Tile>)
    ensures |mid| >= 1 && !mid[0].free && mid[0].addr == t.addr
  {
    var a := Align8(size);
    if t.size > a + FREE_NODE then [Tile(t.addr, a, false), Tile(t.addr + WORD + a, t.size - a - WORD, true)]
    else [Tile(t.addr, t.size, false)]
  }

  lemma TakenCovers(t: Tile, size: int)
    requires 0 < size <= t.size && t.size >= LIST_NODE
    ensures Chain(Taken(t, size), t.addr, End(t)) && size <= Taken(t, size)[0].size
  {
  }

  /** The bytes of the free tiles, headers included. */
  function FreeTotal(ts: seq<Tile>): int {
    if ts == [] then 0 else (if ts[0].free then WORD + ts[0].size else 0) + FreeTotal(ts[1..])
  }

  lemma {:induction false} FreeTotalOfConcat(a: seq<Tile>, b: seq<Tile>)
    ensures FreeTotal(a + b) == FreeTotal(a) + FreeTotal(b)
  {
    if a == [] {
      assert a + b == b;
    } else {
      assert (a + b)[1..] == a[1..] + b;
      FreeTotalOfConcat(a[1..], b);
    }
  }

  /**
   The block handed out is the request rounded up to 8, or the whole tile if the rest could not be
   a block: never more than 19 bytes above the request.
   */
  lemma TakenIsTight(t: Tile, size: int)
    requires 0 < size <= t.size && t.free
    ensures var m := Taken(t, size); var x := m[0].size;
            && x == (if t.size > Align8(size) + FREE_NODE then Align8(size) else t.size)
            && size <= x < size + 8 + FREE_NODE
            && FreeTotal(m) == FreeTotal([t]) - WORD - x
  {
    var m := Taken(t, size);
    assert FreeTotal(m[1..]) == if |m| == 2 then WORD + m[1].size else 0;
    assert [t][1..] == [];
  }

  /** Taking a tile leaves the free bytes smaller by the block and its header. */
  lemma TakenLeaves(ts: seq<Tile>, i: nat, size: int)
    requires i < |ts| && ts[i].free && 0 < size <= ts[i].size
    ensures var m := Taken(ts[i], size);
            FreeTotal(ts[..i] + m + ts[i + 1..]) == FreeTotal(ts) - WORD - m[0].size
  {
    hide Taken, FreeTotal, Align8;
    var m := Taken(ts[i], size);
    TakenIsTight(ts[i], size);
    FreeTotalOfConcat(ts[..i] + m, ts[i + 1..]);
    FreeTotalOfConcat(ts[..i], m);
    FreeTotalOfConcat(ts[..i] + [ts[i]], ts[i + 1..]);
    FreeTotalOfConcat(ts[..i], [ts[i]]);
    assert ts == ts[..i] + [ts[i]] + ts[i + 1..];
  }

  /** At a tile without free neighbours, a replacement that starts with a live tile makes none. */
  lemma SpliceNeighbours(ts: seq<Tile>, i: nat, mid: seq<Tile>)
    requires NoFreeNeighbours(ts) && i < |ts| && ts[i].free && 1 <= |mid| <= 2 && !mid[0].free
    ensures NoFreeNeighbours(ts[..i] + mid + ts[i + 1..])
  {
    var r := ts[..i] + mid + ts[i + 1..];
    forall a, b | 0 <= a < |r| - 1 && b == a + 1 ensures !(r[a].free && r[b].free) {
      if b < i {
        assert r[a] == ts[a] && r[b] == ts[b];
      } else if b >= i + |mid| {
        assert r[b] == ts[b - |mid| + 1];
        assert a >= i + |mid| ==> r[a] == ts[a - |mid| + 1];
      } else {
        assert r[a] == mid[0] || r[b] == mid[0];
      }
    }
  }

  /** Header words and free list after a free tile was taken. */
  lemma TakeAgrees(ts: seq<Tile>, lo: int, hi: int, free: seq<int>, sizes: map<int, int>, i: nat, n: nat,
                   mid: seq<Tile>, free': seq<int>, sizes': map<int, int>)
    requires Chain(ts, lo, hi) && Agree(ts, free, sizes) && i < |ts| && n < |free| && ts[i].addr == free[n] && ts[i].free
    requires Chain(ts[..i] + mid + ts[i + 1..], lo, hi) && 1 <= |mid| <= 2 && !mid[0].free && mid[0].addr == ts[i].addr
    requires |mid| == 2 ==> mid[1].free && mid[1].addr != mid[0].addr
    requires Distinct(free')
    requires forall a :: a in free' <==> (a in free && a != free[n]) || (|mid| == 2 && a == mid[1].addr)
    requires sizes' == (if |mid| == 2 then sizes[mid[1].addr := mid[1].size] else sizes)[mid[0].addr := mid[0].size]
    ensures Agree(ts[..i] + mid + ts[i + 1..], free', sizes')
  {
    hide Align8;
    var r := ts[..i] + mid + ts[i + 1..];
    forall k | 0 <= k < |r|
      ensures r[k].addr in sizes' && sizes'[r[k].addr] == r[k].size && (r[k].free ==> r[k].addr in free')
    {
      RowMember(ts, lo, hi, i, mid, k);
    }
    forall a | a in free' ensures exists k :: 0 <= k < |r| && r[k].free && r[k].addr == a {
      if |mid| == 2 && a == mid[1].addr {
        assert r[i + 1] == mid[1];
      } else {
        var k :| 0 <= k < |ts| && ts[k].free && ts[k].addr == a;
        assert r[if k < i then k else k + |mid| - 1] == ts[k];
      }
    }
  }

  /** A tile of the new row is one of the new tiles, or an old one at another address. */
  lemma RowMember(ts: seq<Tile>, lo: int, hi: int, i: nat, mid: seq<Tile>, k: nat)
    requires Chain(ts, lo, hi) && i < |ts| && |mid| >= 1
    requires Chain(ts[..i] + mid + ts[i + 1..], lo, hi) && k < |ts[..i] + mid + ts[i + 1..]|
    ensures var r := ts[..i] + mid + ts[i + 1..];
            || (i <= k < i + |mid| && r[k] == mid[k - i])
            || (var o := if k < i then k else k - |mid| + 1;
                0 <= o < |ts| && o != i && r[k] == ts[o] && ts[o].addr != ts[i].addr
                && forall m :: 0 <= m < |mid| ==> mid[m].addr != r[k].addr)
  {
    var r := ts[..i] + mid + ts[i + 1..];
    if k < i || k >= i + |mid| {
      var o := if k < i then k else k - |mid| + 1;
      assert r[k] == ts[o];
      if ts[o].addr == ts[i].addr {
        SameAddress(ts, lo, hi, o, i);
      }
      forall m | 0 <= m < |mid| ensures mid[m].addr != r[k].addr {
        assert r[i + m] == mid[m];
        if mid[m].addr == r[k].addr {
          SameAddress(r, lo, hi, i + m, k);
        }
      }
    }
  }

  /** Tiles i and i + 1, one of them free and the other not, become one live tile. */
  function Merged(ts: seq<Tile>, i: nat): seq<Tile>
    requires i + 1 < |ts|
  {
    ts[..i] + [Tile(ts[i].addr, ts[i].size + WORD + ts[i + 1].size, false)] + ts[i + 2..]
  }

  lemma MergeKeepsRow(ts: seq<Tile>, lo: int, hi: int, i: nat)
    requires Chain(ts, lo, hi) && NoFreeNeighbours(ts) && i + 1 < |ts|
    ensures Chain(Merged(ts, i), lo, hi) && NoFreeNeighbours(Merged(ts, i))
  {
    var mid := [Tile(ts[i].addr, ts[i].size + WORD + ts[i + 1].size, false)];
    assert End(ts[i]) == ts[i + 1].addr;
    SpliceChain(ts, lo, hi, i, i + 2, mid);
    var r := Merged(ts, i);
    forall a, b | 0 <= a < |r| - 1 && b == a + 1 ensures !(r[a].free && r[b].free) {
      if b < i {
        assert r[a] == ts[a] && r[b] == ts[b];
      } else if a > i {
        assert r[a] == ts[a + 1] && r[b] == ts[b + 1];
      }
    }
  }

  /** MergeCoalesces for the live tile k and a free block that touches it. */
  lemma MergeInRow(ts: seq<Tile>, lo: int, hi: int, free: seq<int>, sizes: map<int, int>, k: nat, n: nat, x: int)
    requires RowOk(ts, lo, hi, free, sizes) && k < |ts| && !ts[k].free && n < |free|
    requires ts[k].addr in sizes && free[n] in sizes
    requires var a := ts[k].addr;
             if x == a then a + WORD + sizes[a] == free[n] else x == free[n] && x + WORD + sizes[x] == a
    ensures var a := ts[k].addr;
            Coalesced(Without(free, n), sizes[x := sizes[a] + WORD + sizes[free[n]]], x, free, sizes, a)
  {
    hide Coalesced, Without, Chain, NoFreeNeighbours;
    NotOnList(ts, lo, hi, free, sizes, k);
    BlocksHaveSize(ts, lo, hi, free, sizes);
    MergeCoalesces(free, sizes, n, x, ts[k].addr);
  }

  lemma MergeAgrees(ts: seq<Tile>, lo: int, hi: int, free: seq<int>, sizes: map<int, int>, i: nat, n: nat)
    requires RowOk(ts, lo, hi, free, sizes) && i + 1 < |ts| && n < |free|
    requires ts[i].free != ts[i + 1].free && free[n] == (if ts[i].free then ts[i].addr else ts[i + 1].addr)
    ensures Agree(Merged(ts, i), Without(free, n), sizes[ts[i].addr := ts[i].size + WORD + ts[i + 1].size])
  {
    var r, free' := Merged(ts, i), Without(free, n);
    var sizes' := sizes[ts[i].addr := ts[i].size + WORD + ts[i + 1].size];
    WithoutIsRest(free, n);
    MergeKeepsRow(ts, lo, hi, i);
    forall k | 0 <= k < |r|
      ensures r[k].addr in sizes' && sizes'[r[k].addr] == r[k].size && (r[k].free ==> r[k].addr in free')
    {
      MergedMember(ts, lo, hi, i, k);
    }
    forall a | a in free' ensures exists k :: 0 <= k < |r| && r[k].free && r[k].addr == a {
      var k :| 0 <= k < |ts| && ts[k].free && ts[k].addr == a;
      assert k != i && k != i + 1;
      assert r[if k < i then k else k - 1] == ts[k];
    }
  }

  lemma MergedMember(ts: seq<Tile>, lo: int, hi: int, i: nat, k: nat)
    requires Chain(ts, lo, hi) && i + 1 < |ts| && k < |Merged(ts, i)|
    ensures var r := Merged(ts, i);
            if k == i then r[k] == Tile(ts[i].addr, ts[i].size + WORD + ts[i + 1].size, false)
            else var o := if k < i then k else k + 1;
                 o != i && o != i + 1 && r[k] == ts[o] && ts[o].addr != ts[i].addr && ts[o].addr != ts[i + 1].addr
  {
    if k != i {
      var o := if k < i then k else k + 1;
      if ts[o].addr == ts[i].addr {
        SameAddress(ts, lo, hi, o, i);
      } else if ts[o].addr == ts[i + 1].addr {
        SameAddress(ts, lo, hi, o, i + 1);
      }
    }
  }

  /** The live blocks, header address and size, other than the one at address but. */
  ghost function LiveBut(ts: seq<Tile>, but: int): set<(int, int)> {
    set i | 0 <= i < |ts| && !ts[i].free && ts[i].addr != but :: (ts[i].addr, ts[i].size)
  }

  ghost function Live(ts: seq<Tile>): set<(int, int)> {
    set i | 0 <= i < |ts| && !ts[i].free :: (ts[i].addr, ts[i].size)
  }

  lemma MergeKeepsOthers(ts: seq<Tile>, lo: int, hi: int, i: nat, cur: int)
    requires Chain(ts, lo, hi) && i + 1 < |ts| && ts[i].free != ts[i + 1].free
    requires cur == if ts[i].free then ts[i + 1].addr else ts[i].addr
    ensures LiveBut(Merged(ts, i), ts[i].addr) == LiveBut(ts, cur)
  {
    var r := Merged(ts, i);
    forall x | x in LiveBut(r, ts[i].addr) ensures x in LiveBut(ts, cur) {
      var k :| 0 <= k < |r| && !r[k].free && r[k].addr != ts[i].addr && x == (r[k].addr, r[k].size);
      MergedMember(ts, lo, hi, i, k);
      var o := if k < i then k else k + 1;
      assert r[k] == ts[o];
    }
    forall x | x in LiveBut(ts, cur) ensures x in LiveBut(r, ts[i].addr) {
      var o :| 0 <= o < |ts| && !ts[o].free && ts[o].addr != cur && x == (ts[o].addr, ts[o].size);
      var k := if o < i then o else o - 1;
      MergedMember(ts, lo, hi, i, k);
      assert r[k] == ts[o];
    }
  }

  lemma NotOnList(ts: seq<Tile>, lo: int, hi: int, free: seq<int>, sizes: map<int, int>, k: nat)
    requires RowOk(ts, lo, hi, free, sizes) && k < |ts| && !ts[k].free
    ensures ts[k].addr !in free
  {
    if ts[k].addr in free {
      var j :| 0 <= j < |ts| && ts[j].free && ts[j].addr == ts[k].addr;
      SameAddress(ts, lo, hi, j, k);
    }
  }

  lemma ReleaseAgrees(ts: seq<Tile>, free: seq<int>, sizes: map<int, int>, k: nat, p: nat)
    requires Agree(ts, free, sizes) && k < |ts| && ts[k].addr !in free && p <= |free|
    ensures Agree(ts[k := ts[k].(free := true)], free[..p] + [ts[k].addr] + free[p..], sizes)
  {
    var ts' := ts[k := ts[k].(free := true)];
    var a := ts[k].addr;
    InsertedDistinct(free, p, a);
    forall x | x in free[..p] + [a] + free[p..] ensures exists j :: 0 <= j < |ts'| && ts'[j].free && ts'[j].addr == x {
      if x == a {
        assert ts'[k].free;
      } else {
        var j :| 0 <= j < |ts| && ts[j].free && ts[j].addr == x;
        assert ts'[j] == ts[j];
      }
    }
  }

  /** A live tile between live tiles may be put on the free list. */
  lemma ReleaseKeepsRow(ts: seq<Tile>, lo: int, hi: int, free: seq<int>, sizes: map<int, int>, k: nat, p: nat)
    requires RowOk(ts, lo, hi, free, sizes) && k < |ts| && !ts[k].free && p <= |free|
    requires k > 0 ==> !ts[k - 1].free
    requires k + 1 < |ts| ==> !ts[k + 1].free
    ensures var ts' := ts[k := ts[k].(free := true)];
            && RowOk(ts', lo, hi, free[..p] + [ts[k].addr] + free[p..], sizes)
            && Live(ts') == LiveBut(ts, ts[k].addr)
  {
    hide Agree, Live, LiveBut;
    NotOnList(ts, lo, hi, free, sizes, k);
    ReleaseAgrees(ts, free, sizes, k, p);
    ReleaseLive(ts, lo, hi, k);
  }

  lemma ReleaseLive(ts: seq<Tile>, lo: int, hi: int, k: nat)
    requires Chain(ts, lo, hi) && k < |ts| && !ts[k].free
    ensures Live(ts[k := ts[k].(free := true)]) == LiveBut(ts, ts[k].addr)
  {
    var ts' := ts[k := ts[k].(free := true)];
    forall x | x in Live(ts') ensures x in LiveBut(ts, ts[k].addr) {
      var j :| 0 <= j < |ts'| && !ts'[j].free && x == (ts'[j].addr, ts'[j].size);
      assert j != k && ts'[j] == ts[j];
      if ts[j].addr == ts[k].addr {
        SameAddress(ts, lo, hi, j, k);
      }
    }
    forall x | x in LiveBut(ts, ts[k].addr) ensures x in Live(ts') {
      var j :| 0 <= j < |ts| && !ts[j].free && ts[j].addr != ts[k].addr && x == (ts[j].addr, ts[j].size);
      assert ts'[j] == ts[j];
    }
  }

  lemma TakeLive(ts: seq<Tile>, lo: int, hi: int, i: nat, mid: seq<Tile>)
    requires Chain(ts, lo, hi) && i < |ts| && ts[i].free && 1 <= |mid| <= 2 && !mid[0].free && (|mid| == 2 ==> mid[1].free)
    ensures Live(ts[..i] + mid + ts[i + 1..]) == Live(ts) + {(mid[0].addr, mid[0].size)}
  {
    var r := ts[..i] + mid + ts[i + 1..];
    forall x | x in Live(r) ensures x in Live(ts) + {(mid[0].addr, mid[0].size)} {
      var k :| 0 <= k < |r| && !r[k].free && x == (r[k].addr, r[k].size);
      if k < i {
        assert r[k] == ts[k];
      } else if k >= i + |mid| {
        assert r[k] == ts[k - |mid| + 1];
      } else {
        assert r[k] == mid[k - i];
      }
    }
    forall x | x in Live(ts) + {(mid[0].addr, mid[0].size)} ensures x in Live(r) {
      if x == (mid[0].addr, mid[0].size) {
        assert r[i] == mid[0];
      } else {
        var o :| 0 <= o < |ts| && !ts[o].free && x == (ts[o].addr, ts[o].size);
        assert r[if o < i then o else o + |mid| - 1] == ts[o];
      }
    }
  }

  /** A row without live blocks is one free block: freeing everything, in any order, restores the start. */
  lemma NothingLiveMeansInitial(ts: seq<Tile>, lo: int, hi: int, free: seq<int>, sizes: map<int, int>)
    requires RowOk(ts, lo, hi, free, sizes) && Live(ts) == {}
    ensures ts == [Tile(lo, hi - lo - WORD, true)] && free == [lo] && lo in sizes && sizes[lo] == hi - lo - WORD
  {
    if |ts| > 1 {
      OneOfTwoIsLive(ts);
    }
    if |free| > 1 {
      FirstTwoDiffer(free);
    }
    AllFree(ts);
    assert ts[0].addr in free;
    forall k | 0 <= k < |free| ensures free[k] == lo {
      var j := TileOfNode(ts, free, sizes, k);
    }
  }

  lemma OneOfTwoIsLive(ts: seq<Tile>)
    requires NoFreeNeighbours(ts) && |ts| > 1
    ensures !(ts[0].free && ts[1].free)
  {
  }

  lemma FirstTwoDiffer(s: seq<int>)
    requires Distinct(s) && |s| > 1
    ensures s[0] != s[1]
  {
  }

  lemma AllFree(ts: seq<Tile>)
    requires Live(ts) == {}
    ensures forall i :: 0 <= i < |ts| ==> ts[i].free
  {
    forall i | 0 <= i < |ts| ensures ts[i].free {
      var x := (ts[i].addr, ts[i].size);
      assert x !in Live(ts);
    }
  }

  /**
   The initial block starts at the aligned chunk address but is given the size of
   the whole chunk: it stays inside the chunk exactly if the chunk was aligned.
   */
  lemma InitialBlockFits(chunkMem: int, chunkSize: int)
    ensures End(Tile(Align8(chunkMem), chunkSize - WORD, true)) <= chunkMem + chunkSize <==> chunkMem % 8 == 0
  {
  }

  lemma NoneFits(ts: seq<Tile>, free: seq<int>, sizes: map<int, int>, size: int)
    requires Agree(ts, free, sizes) && forall k :: 0 <= k < |free| ==> free[k] in sizes && sizes[free[k]] < size
    ensures forall i :: 0 <= i < |ts| && ts[i].free ==> ts[i].size < size
  {
    forall i | 0 <= i < |ts| && ts[i].free ensures ts[i].size < size {
      var k :| 0 <= k < |free| && free[k] == ts[i].addr;
    }
  }

  /** Taking a free tile keeps the row, adds no free neighbours, and the tile was not live before. */
  lemma TakenRow(ts: seq<Tile>, lo: int, hi: int, free: seq<int>, sizes: map<int, int>, i: nat, size: int)
    requires RowOk(ts, lo, hi, free, sizes) && i < |ts| && ts[i].free && 0 < size <= ts[i].size
    ensures var mid := Taken(ts[i], size);
            && Chain(ts[..i] + mid + ts[i + 1..], lo, hi) && NoFreeNeighbours(ts[..i] + mid + ts[i + 1..])
            && mid[0].size >= size && lo <= ts[i].addr && (ts[i].addr, mid[0].size) !in Live(ts)
  {
    hide Align8;
    var mid := Taken(ts[i], size);
    TakenCovers(ts[i], size);
    assert ts[i + 1 - 1] == ts[i];
    SpliceChain(ts, lo, hi, i, i + 1, mid);
    SpliceNeighbours(ts, i, mid);
    TileInside(ts, lo, hi, i);
    if (ts[i].addr, mid[0].size) in Live(ts) {
      var k :| 0 <= k < |ts| && !ts[k].free && ts[k].addr == ts[i].addr;
      SameAddress(ts, lo, hi, k, i);
    }
  }

  lemma WithoutRest(ts: seq<Tile>, free: seq<int>, sizes: map<int, int>, n: nat)
    requires Agree(ts, free, sizes) && n < |free|
    ensures Distinct(Without(free, n)) && forall a :: a in Without(free, n) <==> a in free && a != free[n]
  {
    WithoutIsRest(free, n);
  }

  /** After a split, every node left on the list has its size word, and the new node is not among them. */
  lemma NodesHaveSizes(ts: seq<Tile>, lo: int, hi: int, free: seq<int>, sizes: map<int, int>, i: nat, size: int,
                       free1: seq<int>, sizes1: map<int, int>)
    requires RowOk(ts, lo, hi, free, sizes) && i < |ts| && ts[i].free && 0 < size <= ts[i].size
    requires |Taken(ts[i], size)| == 2 && sizes1.Keys >= sizes.Keys
    requires forall a :: a in free1 <==> a in free && a != ts[i].addr
    ensures Taken(ts[i], size)[1].addr !in free1
    ensures forall k :: 0 <= k < |free1| ==> free1[k] in sizes1
  {
    hide Align8;
    var mid := Taken(ts[i], size);
    TakenRow(ts, lo, hi, free, sizes, i, size);
    var r := ts[..i] + mid + ts[i + 1..];
    assert r[i + 1] == mid[1];
    forall k | 0 <= k < |free1| ensures free1[k] in sizes1 && free1[k] != mid[1].addr {
      assert free1[k] in free1;
      var j :| 0 <= j < |ts| && ts[j].free && ts[j].addr == free1[k];
      var o := if j < i then j else j + 1;
      assert r[o] == ts[j];
      if r[o].addr == mid[1].addr {
        SameAddress(r, lo, hi, o, i + 1);
      }
    }
  }

  lemma NotLiveOutside(ts: seq<Tile>, lo: int, hi: int, mem: int)
    requires Chain(ts, lo, hi) && 0 < lo && (mem == 0 || mem < lo || mem >= hi)
    ensures forall k :: 0 <= k < |ts| ==> ts[k].addr != mem - WORD
  {
    forall k | 0 <= k < |ts| ensures ts[k].addr != mem - WORD {
      TileInside(ts, lo, hi, k);
    }
  }

  /** If no free block touches tile k, its neighbours in the row are live. */
  lemma NothingTouches(ts: seq<Tile>, lo: int, hi: int, free: seq<int>, sizes: map<int, int>, k: nat)
    requires RowOk(ts, lo, hi, free, sizes) && k < |ts|
    requires forall n :: 0 <= n < |free| ==>
               free[n] in sizes && free[n] + WORD + sizes[free[n]] != ts[k].addr && End(ts[k]) != free[n]
    ensures k > 0 ==> !ts[k - 1].free
    ensures k + 1 < |ts| ==> !ts[k + 1].free
  {
  }

  // ----- the allocator -----

  /** a is the first node on the list that is large enough. */
  ghost predicate IsFirstFit(free: seq<int>, sizes: map<int, int>, a: int, size: int) {
    exists n :: 0 <= n < |free| && free[n] == a && a in sizes && sizes[a] >= size
                && forall k :: 0 <= k < n ==> free[k] in sizes && sizes[free[k]] < size
  }

  class Pool {
    const chunkMem: int
    const chunkSize: int
    const reserved: int      // read as the size of the list head; the caller must have cleared it
    var free: seq<int>       // the addresses on the free list, in list order
    var sizes: map<int, int> // the size words in the chunk
    ghost var tiles: seq<Tile>

    ghost predicate Valid()
      reads this
    {
      && 0 < chunkMem && chunkMem % 8 == 0 && reserved == 0
      && RowOk(tiles, chunkMem, chunkMem + chunkSize, free, sizes)
    }

    /** init_pool_allocator on an aligned chunk that can hold a free node. */
    constructor (chunkMem: int, chunkSize: int)
      requires 0 < chunkMem && chunkMem % 8 == 0 && chunkSize >= FREE_NODE
      ensures Valid() && tiles == [Tile(chunkMem, chunkSize - WORD, true)]
      ensures this.chunkMem == chunkMem && this.chunkSize == chunkSize
    {
      this.chunkMem, this.chunkSize, reserved := chunkMem, chunkSize, 0;
      var memStart := Align8(chunkMem);
      free := [memStart];
      sizes := map[memStart := chunkSize - WORD];
      tiles := [Tile(memStart, chunkSize - WORD, true)];
      new;
      assert tiles[0].free && free[0] == tiles[0].addr;
    }

    /** First fit: the first node that is large enough, or none. */
    method FirstFit(size: int) returns (n: nat)
      requires Valid()
      ensures n <= |free|
      ensures forall k :: 0 <= k < n ==> free[k] in sizes && sizes[free[k]] < size
      ensures n < |free| ==> free[n] in sizes && sizes[free[n]] >= size
    {
      hide Chain, NoFreeNeighbours;
      n := 0;
      while n < |free|
        invariant n <= |free| && forall k :: 0 <= k < n ==> free[k] in sizes && sizes[free[k]] < size
      {
        ghost var i := TileOfNode(tiles, free, sizes, n);
        if sizes[free[n]] >= size {
          return;
        }
        n := n + 1;
      }
    }

    /**
     pool_malloc. It fails, returning 0, only for size 0 or if no free block is
     large enough; otherwise the block becomes live and nothing else does.
     */
    method Malloc(size: nat) returns (mem: int)
      requires Valid()
      modifies this
      ensures Valid()
      ensures mem == 0 <==> size == 0 || forall i :: 0 <= i < |old(tiles)| && old(tiles)[i].free ==> old(tiles)[i].size < size
      ensures mem == 0 ==> tiles == old(tiles) && free == old(free)
      ensures mem != 0 ==>
                var a := mem - WORD;
                && a in sizes && sizes[a] >= size
                && Live(tiles) == old(Live(tiles)) + {(a, sizes[a])} && (a, sizes[a]) !in old(Live(tiles))
      ensures mem != 0 ==> IsFirstFit(old(free), old(sizes), mem - WORD, size)
      ensures mem != 0 ==>
                var a := mem - WORD;
                && sizes[a] == (if old(sizes)[a] > Align8(size) + FREE_NODE then Align8(size) else old(sizes)[a])
                && sizes[a] < size + 8 + FREE_NODE
                && FreeTotal(tiles) == FreeTotal(old(tiles)) - WORD - sizes[a]
                && exists n: nat :: n < |old(free)| && old(free)[n] == a
                                    && Relisted(free, sizes, old(free), old(sizes), n, old(sizes)[a] > Align8(size) + FREE_NODE)
    {
      hide Chain, NoFreeNeighbours, Agree, Live, Align8, FreeTotal, Taken, Relisted;
      if size == 0 {
        return 0;
      }
      var n := FirstFit(size);
      if n == |free| {
        // the list head is compared like a node of size reserved
        assert !(reserved >= size);
        NoneFits(tiles, free, sizes, size);
        return 0;
      }
      ghost var i := TileOfNode(tiles, free, sizes, n);
      mem := Take(n, size, i);
    }

    /** The part of pool_malloc after a node was found. */
    method Take(n: nat, size: int, ghost i: nat) returns (mem: int)
      requires Valid() && n < |free| && i < |tiles| && tiles[i].free && tiles[i].addr == free[n]
      requires free[n] in sizes && 0 < size <= sizes[free[n]] == tiles[i].size
      modifies this
      ensures Valid() && mem == old(free[n]) + WORD
      ensures tiles == old(tiles)[..i] + Taken(old(tiles[i]), size) + old(tiles)[i + 1..]
      ensures var a := mem - WORD;
              && a in sizes && sizes[a] >= size
              && Live(tiles) == old(Live(tiles)) + {(a, sizes[a])} && (a, sizes[a]) !in old(Live(tiles))
              && sizes[a] == (if old(sizes)[a] > Align8(size) + FREE_NODE then Align8(size) else old(sizes)[a])
              && sizes[a] < size + 8 + FREE_NODE
              && FreeTotal(tiles) == FreeTotal(old(tiles)) - WORD - sizes[a]
              && Relisted(free, sizes, old(free), old(sizes), n, old(sizes)[a] > Align8(size) + FREE_NODE)
      ensures mem != 0
    {
      hide Align8, Live, Chain, NoFreeNeighbours, Agree, FreeTotal, Relisted;
      TakenIsTight(tiles[i], size);
      TakenLeaves(tiles, i, size);
      var node := free[n];
      BlocksHaveSize(tiles, chunkMem, chunkMem + chunkSize, free, sizes);
      ghost var t := tiles[i];
      ghost var mid := Taken(t, size);
      TakenRow(tiles, chunkMem, chunkMem + chunkSize, free, sizes, i, size);
      WithoutRest(tiles, free, sizes, n);
      var free1 := Without(free, n);
      mem := node + WORD;
      var a := Align8(size);
      if sizes[node] > a + FREE_NODE {
        var cur := mem + a;
        var sizes1 := sizes[cur := sizes[node] - a - WORD][node := a];
        NodesHaveSizes(tiles, chunkMem, chunkMem + chunkSize, free, sizes, i, size, free1, sizes1);
        var p := InsertionPoint(free1, sizes1, sizes1[cur]);
        InsertedDistinct(free1, p, cur);
        RelistedRest(free, sizes, n, a, sizes[node] - a - WORD, p);
        free, sizes := free1[..p] + [cur] + free1[p..], sizes1;
      } else {
        RelistedWhole(free, sizes, n);
        free, sizes := free1, sizes[node := sizes[node]];
      }
      TakeAgrees(tiles, chunkMem, chunkMem + chunkSize, old(free), old(sizes), i, n, mid, free, sizes);
      TakeLive(tiles, chunkMem, chunkMem + chunkSize, i, mid);
      tiles := tiles[..i] + mid + tiles[i + 1..];
    }

    /** mem is the payload of a live block. */
    ghost predicate IsLive(mem: int)
      reads this
    {
      exists k :: 0 <= k < |tiles| && !tiles[k].free && tiles[k].addr == mem - WORD
    }

    /** The scan of pool_free for a free block that touches cur, on either side. */
    method FindNeighbour(cur: int) returns (n: nat, before: bool)
      requires Valid() && cur in sizes
      ensures n <= |free|
      ensures forall k :: 0 <= k < n ==>
                free[k] in sizes && free[k] + WORD + sizes[free[k]] != cur && cur + WORD + sizes[cur] != free[k]
      ensures n < |free| ==>
                free[n] in sizes
                && (if before then free[n] + WORD + sizes[free[n]] == cur else cur + WORD + sizes[cur] == free[n])
    {
      hide Chain, NoFreeNeighbours;
      n, before := 0, false;
      while n < |free|
        invariant n <= |free|
        invariant forall k :: 0 <= k < n ==>
                    free[k] in sizes && free[k] + WORD + sizes[free[k]] != cur && cur + WORD + sizes[cur] != free[k]
      {
        ghost var i := TileOfNode(tiles, free, sizes, n);
        var node := free[n];
        if node + WORD + sizes[node] == cur {
          return n, true;
        } else if cur + WORD + sizes[cur] == node {
          return n, false;
        }
        n := n + 1;
      }
    }

    /** One merge: the block cur, off the list, absorbs the free block at list position n or is absorbed by it. */
    method MergeOne(cur: int, n: nat, before: bool, ghost k: nat) returns (cur': int, ghost k': nat)
      requires Valid() && n < |free| && k < |tiles| && tiles[k].addr == cur && !tiles[k].free
      requires cur in sizes && free[n] in sizes
      requires if before then free[n] + WORD + sizes[free[n]] == cur else cur + WORD + sizes[cur] == free[n]
      modifies this
      ensures Valid() && |free| == old(|free|) - 1
      ensures Coalesced(free, sizes, cur', old(free), old(sizes), cur)
      ensures k' < |tiles| && tiles[k'].addr == cur' && !tiles[k'].free && cur' in sizes
      ensures LiveBut(tiles, cur') == old(LiveBut(tiles, cur))
    {
      hide Chain, NoFreeNeighbours, LiveBut, Coalesced, Distinct;
      ghost var lo, hi := chunkMem, chunkMem + chunkSize;
      ghost var i := TileOfNode(tiles, free, sizes, n);
      MergeInRow(tiles, lo, hi, free, sizes, k, n, if before then free[n] else cur);
      if before {
        var node := free[n];
        TouchingTiles(tiles, lo, hi, i, k);
        MergeAgrees(tiles, lo, hi, free, sizes, i, n);
        MergeKeepsRow(tiles, lo, hi, i);
        MergeKeepsOthers(tiles, lo, hi, i, cur);
        MergedMember(tiles, lo, hi, i, i);
        sizes := sizes[node := sizes[node] + (WORD + sizes[cur])];
        cur', k' := node, i;
        tiles := Merged(tiles, i);
      } else {
        TouchingTiles(tiles, lo, hi, k, i);
        MergeAgrees(tiles, lo, hi, free, sizes, k, n);
        MergeKeepsRow(tiles, lo, hi, k);
        MergeKeepsOthers(tiles, lo, hi, k, cur);
        MergedMember(tiles, lo, hi, k, k);
        sizes := sizes[cur := sizes[cur] + (WORD + sizes[free[n]])];
        cur', k' := cur, k;
        tiles := Merged(tiles, k);
      }
      free := Without(free, n);
    }

    /**
     pool_free of a live block, or of a pointer it ignores. The block stops being
     live and no other block changes; the row of blocks again has no two
     neighbouring free ones.
     */
    method Free(mem: int)
      requires Valid() && (mem == 0 || mem < chunkMem || mem >= chunkMem + chunkSize || IsLive(mem))
      modifies this
      ensures Valid()
      ensures old(IsLive(mem)) ==> Live(tiles) == old(LiveBut(tiles, mem - WORD))
      ensures old(IsLive(mem)) ==> exists rest, x ::
                Listed(rest, free, sizes, x) && Coalesced(rest, sizes, x, old(free), old(sizes), mem - WORD)
      ensures !old(IsLive(mem)) ==> tiles == old(tiles) && free == old(free)
    {
      hide Chain, NoFreeNeighbours, LiveBut, Live, Coalesced, Listed;
      if mem == 0 || mem >= chunkMem + chunkSize || mem < chunkMem {
        NotLiveOutside(tiles, chunkMem, chunkMem + chunkSize, mem);
        return;
      }
      var cur := mem - WORD;
      ghost var k: nat :| k < |tiles| && !tiles[k].free && tiles[k].addr == cur;
      TileInside(tiles, chunkMem, chunkMem + chunkSize, k);
      if sizes[cur] > chunkSize {
        assert false;
      }
      BlocksHaveSize(tiles, chunkMem, chunkMem + chunkSize, free, sizes);
      NothingCoalesced(free, sizes, cur);
      while true
        invariant Valid() && k < |tiles| && tiles[k].addr == cur && !tiles[k].free && cur in sizes
        invariant LiveBut(tiles, cur) == old(LiveBut(tiles, mem - WORD))
        invariant Coalesced(free, sizes, cur, old(free), old(sizes), mem - WORD)
        decreases |free|
      {
        var n, before := FindNeighbour(cur);
        if n == |free| {
          break;
        }
        ghost var free0, sizes0, cur0 := free, sizes, cur;
        cur, k := MergeOne(cur, n, before, k);
        CoalescedTwice(free, sizes, cur, free0, sizes0, cur0, old(free), old(sizes), mem - WORD);
      }
      NothingTouches(tiles, chunkMem, chunkMem + chunkSize, free, sizes, k);
      BlocksHaveSize(tiles, chunkMem, chunkMem + chunkSize, free, sizes);
      var p := InsertionPoint(free, sizes, sizes[cur]);
      ListedAt(free, sizes, cur, p);
      ReleaseKeepsRow(tiles, chunkMem, chunkMem + chunkSize, free, sizes, k, p);
      free := free[..p] + [cur] + free[p..];
      tiles := tiles[k := tiles[k].(free := true)];
    }
  }
}
