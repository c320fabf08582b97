/**
 BlobCache: a map from blobs to blobs with a byte budget and random eviction, on values.
 */
module BlobCache {

  // set evicts entries chosen at random when the budget would be exceeded. The functions on Cache
  // values say what each operation does; the cache object of BlobFlatten runs the source's loops.

  import opened Octets
  import opened SortedVector

  type Blob = seq<Byte>

  datatype Entry = Entry(key: Blob, value: Blob)

  datatype Limits = Limits(maxKey: nat, maxValue: nat, maxTotal: nat)

  /** The entries, mTotalSize, and how many random numbers have been drawn. */
  datatype Cache = Cache(entries: seq<Entry>, total: int, drawn: nat)

  // ----- the order of the entries -----

  /** memcmp(a, b, n) < 0 for blobs of one size n. */
  predicate MemLess(a: Blob, b: Blob)
    requires |a| == |b|
  {
    a != [] && (a[0] < b[0] || (a[0] == b[0] && MemLess(a[1..], b[1..])))
  }

  predicate BlobLess(a: Blob, b: Blob) {
    if |a| == |b| then MemLess(a, b) else |a| < |b|
  }

  function CompareEntries(a: Entry, b: Entry): int {
    (if BlobLess(b.key, a.key) then 1 else 0) - (if BlobLess(a.key, b.key) then 1 else 0)
  }

  lemma {:induction false} MemTrichotomy(a: Blob, b: Blob)
    requires |a| == |b|
    ensures !(MemLess(a, b) && MemLess(b, a))
    ensures MemLess(a, b) || MemLess(b, a) || a == b
    ensures a == b ==> !MemLess(a, b)
  {
    if a != [] {
      MemTrichotomy(a[1..], b[1..]);
      assert a == [a[0]] + a[1..] && b == [b[0]] + b[1..];
    }
  }

  lemma {:induction false} MemTransitive(a: Blob, b: Blob, c: Blob)
    requires |a| == |b| == |c| && MemLess(a, b) && MemLess(b, c)
    ensures MemLess(a, c)
  {
    if a[0] == b[0] == c[0] {
      MemTransitive(a[1..], b[1..], c[1..]);
    }
  }

  lemma BlobTrichotomy(a: Blob, b: Blob)
    ensures !(BlobLess(a, b) && BlobLess(b, a))
    ensures (BlobLess(a, b) || BlobLess(b, a)) <==> a != b
  {
    if |a| == |b| {
      MemTrichotomy(a, b);
    }
  }

  lemma BlobTransitive(a: Blob, b: Blob, c: Blob)
    requires BlobLess(a, b) && BlobLess(b, c)
    ensures BlobLess(a, c)
  {
    if |a| == |b| == |c| {
      MemTransitive(a, b, c);
    }
  }

  /** Entries with one key compare equal, and no others. */
  lemma CompareSigns(a: Entry, b: Entry)
    ensures CompareEntries(a, b) == 0 <==> a.key == b.key
    ensures CompareEntries(a, b) < 0 <==> BlobLess(a.key, b.key)
    ensures CompareEntries(a, b) > 0 <==> BlobLess(b.key, a.key)
  {
    hide BlobLess;
    BlobTrichotomy(a.key, b.key);
  }

  lemma CompareTransitive(a: Entry, b: Entry, c: Entry)
    requires CompareEntries(a, b) <= 0 && CompareEntries(b, c) <= 0
    requires CompareEntries(a, b) < 0 || CompareEntries(b, c) < 0
    ensures CompareEntries(a, c) < 0
  {
    hide BlobLess, CompareEntries;
    CompareSigns(a, b);
    CompareSigns(b, c);
    CompareSigns(a, c);
    if a.key != b.key && b.key != c.key {
      BlobTransitive(a.key, b.key, c.key);
    }
  }

  lemma EntriesAreOrdered()
    ensures IsOrder(CompareEntries)
  {
    hide CompareEntries;
    forall a: Entry, b: Entry
      ensures CompareEntries(a, b) < 0 <==> CompareEntries(b, a) > 0
    {
      CompareSigns(a, b);
      CompareSigns(b, a);
    }
    forall a: Entry, b: Entry, c: Entry | CompareEntries(a, b) <= 0 && CompareEntries(b, c) < 0
      ensures CompareEntries(a, c) < 0
    {
      CompareTransitive(a, b, c);
    }
    forall a: Entry, b: Entry, c: Entry | CompareEntries(a, b) < 0 && CompareEntries(b, c) <= 0
      ensures CompareEntries(a, c) < 0
    {
      CompareTransitive(a, b, c);
    }
  }

  ghost predicate InOrder(s: seq<Entry>) { Sorted(CompareEntries, s) }

  predicate Has(s: seq<Entry>, k: Blob) { Found(CompareEntries, s, Entry(k, [])) }

  function IndexOf(s: seq<Entry>, k: Blob): (i: nat)
    ensures i <= |s| && (Has(s, k) ==> i < |s| && s[i].key == k)
  {
    var i := OrderOf(CompareEntries, s, Entry(k, []));
    assert i < |s| && CompareEntries(s[i], Entry(k, [])) == 0 ==> s[i].key == k by {
      if i < |s| {
        CompareSigns(s[i], Entry(k, []));
      }
    }
    i
  }

  function Put(s: seq<Entry>, e: Entry): seq<Entry> { Added(CompareEntries, s, e) }

  /** A comparison looks at keys only, so the dummy entry finds what the real one would. */
  lemma {:induction false} SameKeySamePlace(s: seq<Entry>, k: Blob, v: Blob)
    ensures OrderOf(CompareEntries, s, Entry(k, v)) == IndexOf(s, k)
    ensures Found(CompareEntries, s, Entry(k, v)) == Has(s, k)
  {
    hide OrderOf, BlobLess;
    var o := OrderOf(CompareEntries, s, Entry(k, []));
    OrderIsUnique(CompareEntries, s, Entry(k, v), o);
  }

  /** A key is found exactly when some entry carries it. */
  lemma HasMeansStored(s: seq<Entry>, k: Blob)
    requires InOrder(s)
    ensures Has(s, k) <==> exists i :: 0 <= i < |s| && s[i].key == k
  {
    hide OrderOf, CompareEntries, Found, IsOrder, Sorted;
    EntriesAreOrdered();
    FoundMeansPresent(CompareEntries, s, Entry(k, []));
    forall i | 0 <= i < |s|
      ensures CompareEntries(s[i], Entry(k, [])) == 0 <==> s[i].key == k
    {
      CompareSigns(s[i], Entry(k, []));
    }
    assert Found(CompareEntries, s, Entry(k, [])) <==> exists i :: 0 <= i < |s| && CompareEntries(s[i], Entry(k, [])) == 0;
    if Has(s, k) {
      assert s[IndexOf(s, k)].key == k;
    }
  }

  /** Put is map update: the new pair is in, the other keys keep their pairs. */
  lemma PutIsUpdate(s: seq<Entry>, e: Entry)
    requires InOrder(s)
    ensures InOrder(Put(s, e))
    ensures forall x :: x in Put(s, e) <==> x == e || (x in s && x.key != e.key)
  {
    hide OrderOf, CompareEntries, IsOrder, Sorted, Added;
    EntriesAreOrdered();
    AddedIsSorted(CompareEntries, s, e);
    forall x
      ensures x in Put(s, e) <==> x == e || (x in s && x.key != e.key)
    {
      AddedItems(CompareEntries, s, e, x);
      CompareSigns(x, e);
    }
  }

  // ----- sizes -----

  function Cost(e: Entry): nat { |e.key| + |e.value| }

  /** The bytes of all keys and values. */
  function Bytes(s: seq<Entry>): nat {
    if s == [] then 0 else Cost(s[0]) + Bytes(s[1..])
  }

  lemma {:induction false} BytesOfConcat(a: seq<Entry>, b: seq<Entry>)
    ensures Bytes(a + b) == Bytes(a) + Bytes(b)
  {
    if a == [] {
      assert a + b == b;
    } else {
      assert (a + b)[1..] == a[1..] + b;
      BytesOfConcat(a[1..], b);
    }
  }

  lemma NoBytes()
    ensures Bytes([]) == 0
  {
  }

  /** The bytes of a vector in three parts. */
  lemma BytesAround(a: seq<Entry>, e: Entry, b: seq<Entry>)
    ensures Bytes(a + [e] + b) == Bytes(a) + Cost(e) + Bytes(b)
  {
    BytesOfConcat(a + [e], b);
    BytesOfConcat(a, [e]);
    assert [e][1..] == [];
  }

  function Without(s: seq<Entry>, i: nat): (r: seq<Entry>)
    requires i < |s|
    ensures |r| == |s| - 1
  {
    s[..i] + s[i + 1..]
  }

  lemma BytesWithout(s: seq<Entry>, i: nat)
    requires i < |s|
    ensures Bytes(Without(s, i)) == Bytes(s) - Cost(s[i])
  {
    hide Bytes, Cost;
    BytesOfConcat(s[..i], s[i + 1..]);
    BytesAround(s[..i], s[i], s[i + 1..]);
    assert s == s[..i] + [s[i]] + s[i + 1..];
  }

  lemma WithoutIsSmaller(s: seq<Entry>, i: nat)
    requires i < |s| && InOrder(s)
    ensures InOrder(Without(s, i))
    ensures forall x :: x in Without(s, i) ==> x in s
  {
    hide CompareEntries;
    var r := Without(s, i);
    forall j, k | 0 <= j < k < |r|
      ensures CompareEntries(r[j], r[k]) < 0
    {
      assert r[j] == s[if j < i then j else j + 1] && r[k] == s[if k < i then k else k + 1];
    }
  }

  // ----- set -----

  /** The size set computes before it stores the pair. */
  function NewTotal(c: Cache, k: Blob, v: Blob): int {
    if Has(c.entries, k) then c.total + |v| - |c.entries[IndexOf(c.entries, k)].value|
    else c.total + |k| + |v|
  }

  predicate Refused(l: Limits, k: Blob, v: Blob) {
    |k| > l.maxKey || |v| > l.maxValue || |k| + |v| > l.maxTotal || |k| == 0 || |v| == 0
  }

  predicate Cleanable(l: Limits, c: Cache) { c.total > l.maxTotal / 2 }

  /** clean: evicts entries at random until the total is at most half the limit. */
  function Cleaned(l: Limits, rnd: nat -> nat, c: Cache): Cache
    decreases |c.entries|
  {
    if !Cleanable(l, c) || c.entries == [] then c
    else
      var i := rnd(c.drawn) % |c.entries|;
      Cleaned(l, rnd, Cache(Without(c.entries, i), c.total - Cost(c.entries[i]), c.drawn + 1))
  }

  /** One round of the loop in set, when the pair fits. */
  function Stored(c: Cache, k: Blob, v: Blob): Cache {
    Cache(Put(c.entries, Entry(k, v)), NewTotal(c, k, v), c.drawn)
  }

  /** The cache on which set finally decides. */
  function Room(l: Limits, rnd: nat -> nat, c: Cache, k: Blob, v: Blob): Cache {
    if NewTotal(c, k, v) > l.maxTotal && Cleanable(l, c) then Cleaned(l, rnd, c) else c
  }

  function Set(l: Limits, rnd: nat -> nat, c: Cache, k: Blob, v: Blob): Cache {
    if Refused(l, k, v) then c
    else
      var r := Room(l, rnd, c, k, v);
      if NewTotal(r, k, v) > l.maxTotal then r else Stored(r, k, v)
  }

  ghost predicate Acceptable(l: Limits, e: Entry) {
    1 <= |e.key| <= l.maxKey && 1 <= |e.value| <= l.maxValue
  }

  /** What every run of set and get from construction keeps. */
  ghost predicate Inv(l: Limits, c: Cache) {
    && InOrder(c.entries)
    && c.total == Bytes(c.entries) <= l.maxTotal
    && forall e :: e in c.entries ==> Acceptable(l, e)
  }

  function Fresh(): Cache { Cache([], 0, 0) }

  lemma FreshInv(l: Limits)
    ensures Inv(l, Fresh())
  {
  }

  /** clean ends with the total at most half, having only evicted. */
  lemma {:induction false} CleanedKeeps(l: Limits, rnd: nat -> nat, c: Cache)
    requires Inv(l, c)
    ensures var r := Cleaned(l, rnd, c); Inv(l, r) && !Cleanable(l, r) && r.total <= c.total
    ensures forall e :: e in Cleaned(l, rnd, c).entries ==> e in c.entries
    decreases |c.entries|
  {
    hide Bytes, Sorted, Cost, Without, Acceptable;
    if c.entries == [] {
      NoBytes();
    } else if Cleanable(l, c) {
      var i := rnd(c.drawn) % |c.entries|;
      BytesWithout(c.entries, i);
      WithoutIsSmaller(c.entries, i);
      CleanedKeeps(l, rnd, Cache(Without(c.entries, i), c.total - Cost(c.entries[i]), c.drawn + 1));
    }
  }

  /** r is what is left of d when one entry has gone. */
  ghost predicate LostOne(d: seq<Entry>, r: seq<Entry>) {
    exists i :: 0 <= i < |d| && r == Without(d, i)
  }

  /**
   clean evicts no more than it must: nothing when the total is within half the limit, and
   otherwise what was left before the last eviction was still above half.
   */
  lemma {:induction false} CleanedStopsInTime(l: Limits, rnd: nat -> nat, c: Cache)
    requires Inv(l, c)
    ensures !Cleanable(l, c) ==> Cleaned(l, rnd, c) == c
    ensures Cleanable(l, c) ==>
      exists d :: LostOne(d, Cleaned(l, rnd, c).entries) && Bytes(d) > l.maxTotal / 2
                  && forall e :: e in d ==> e in c.entries
    decreases |c.entries|
  {
    hide Bytes, Sorted, Cost, Without, Acceptable;
    if c.entries == [] {
      NoBytes();
    } else if Cleanable(l, c) {
      var i := rnd(c.drawn) % |c.entries|;
      BytesWithout(c.entries, i);
      WithoutIsSmaller(c.entries, i);
      var c1 := Cache(Without(c.entries, i), c.total - Cost(c.entries[i]), c.drawn + 1);
      CleanedStopsInTime(l, rnd, c1);
      assert Cleaned(l, rnd, c) == Cleaned(l, rnd, c1);
      if !Cleanable(l, c1) {
        assert LostOne(c.entries, Cleaned(l, rnd, c).entries);
      }
    }
  }

  /** Storing a pair changes the bytes held by exactly what set computed. */
  lemma BytesOfPut(c: Cache, k: Blob, v: Blob)
    requires c.total == Bytes(c.entries)
    ensures Bytes(Put(c.entries, Entry(k, v))) == NewTotal(c, k, v)
  {
    hide Bytes, OrderOf, CompareEntries, Found;
    var s, e, o := c.entries, Entry(k, v), IndexOf(c.entries, k);
    SameKeySamePlace(s, k, v);
    if Has(s, k) {
      BytesAround(s[..o], e, s[o + 1..]);
      BytesAround(s[..o], s[o], s[o + 1..]);
      assert s == s[..o] + [s[o]] + s[o + 1..];
    } else {
      BytesAround(s[..o], e, s[o..]);
      BytesOfConcat(s[..o], s[o..]);
      assert s == s[..o] + s[o..];
    }
  }

  lemma StoredKeeps(l: Limits, c: Cache, k: Blob, v: Blob)
    requires Inv(l, c) && !Refused(l, k, v) && NewTotal(c, k, v) <= l.maxTotal
    ensures Inv(l, Stored(c, k, v))
    ensures forall x :: x in Stored(c, k, v).entries <==> x == Entry(k, v) || (x in c.entries && x.key != k)
  {
    hide Bytes, Sorted, Put, NewTotal;
    BytesOfPut(c, k, v);
    PutIsUpdate(c.entries, Entry(k, v));
  }

  /**
   Every set keeps the accounting and the limit. It stores the pair, dropping only
   entries that were there, or it refuses and changes no value.
   */
  lemma SetKeeps(l: Limits, rnd: nat -> nat, c: Cache, k: Blob, v: Blob)
    requires Inv(l, c)
    ensures Inv(l, Set(l, rnd, c, k, v))
    ensures forall x :: x in Set(l, rnd, c, k, v).entries ==> x == Entry(k, v) || x in c.entries
    ensures !Refused(l, k, v) && NewTotal(c, k, v) <= l.maxTotal ==>
              forall x :: x in Set(l, rnd, c, k, v).entries <==> x == Entry(k, v) || (x in c.entries && x.key != k)
    ensures Refused(l, k, v) ==> Set(l, rnd, c, k, v) == c
  {
    hide Inv, NewTotal, Stored, Cleaned, Cleanable;
    if !Refused(l, k, v) {
      if NewTotal(c, k, v) > l.maxTotal && Cleanable(l, c) {
        CleanedKeeps(l, rnd, c);
      }
      var r := Room(l, rnd, c, k, v);
      if NewTotal(r, k, v) <= l.maxTotal {
        StoredKeeps(l, r, k, v);
      }
    }
  }

  /** The key's old pair never counts against a new one. */
  lemma NewTotalBound(l: Limits, c: Cache, k: Blob, v: Blob)
    requires Inv(l, c)
    ensures NewTotal(c, k, v) <= c.total + |k| + |v|
  {
    hide Bytes, Sorted, Has, IndexOf;
  }

  /** A pair of at most half the limit (rounded up) is in the cache right after set. */
  lemma SmallPairIsStored(l: Limits, rnd: nat -> nat, c: Cache, k: Blob, v: Blob)
    requires Inv(l, c) && !Refused(l, k, v) && |k| + |v| <= l.maxTotal - l.maxTotal / 2
    ensures Entry(k, v) in Set(l, rnd, c, k, v).entries
  {
    hide Inv, NewTotal, Stored, Cleaned;
    var r := Room(l, rnd, c, k, v);
    if NewTotal(c, k, v) > l.maxTotal && Cleanable(l, c) {
      CleanedKeeps(l, rnd, c);
    }
    NewTotalBound(l, r, k, v);
    StoredKeeps(l, r, k, v);
  }

  /**
   set drops an acceptable pair with a new key exactly when the cache it ends up with
   cannot hold it. With a total of at most half the limit nothing is evicted first.
   */
  lemma PairIsDropped(l: Limits, rnd: nat -> nat, c: Cache, k: Blob, v: Blob)
    requires Inv(l, c) && !Refused(l, k, v) && !Has(c.entries, k) && !Cleanable(l, c)
    ensures Entry(k, v) in Set(l, rnd, c, k, v).entries <==> c.total + |k| + |v| <= l.maxTotal
    ensures c.total + |k| + |v| > l.maxTotal ==> Set(l, rnd, c, k, v) == c
  {
    hide Inv, Has, Stored, Cleaned;
    assert NewTotal(c, k, v) == c.total + |k| + |v|;
    if c.total + |k| + |v| <= l.maxTotal {
      StoredKeeps(l, c, k, v);
    } else {
      AbsentKey(l, c, k, v);
    }
  }

  lemma AbsentKey(l: Limits, c: Cache, k: Blob, v: Blob)
    requires Inv(l, c) && !Has(c.entries, k)
    ensures Entry(k, v) !in c.entries
  {
    hide Bytes, Has, Sorted;
    HasMeansStored(c.entries, k);
  }

  function Repeated(b: Byte, n: nat): (r: Blob)
    ensures |r| == n && forall i :: 0 <= i < n ==> r[i] == b
  {
    seq(n, _ => b)
  }

  /** A one-byte key different from k. */
  function OtherKey(k: Blob): (r: Blob)
    ensures |r| == 1 && r != k
  {
    if k == [0] then [1] else [0]
  }

  /**
   A pair of exactly half the limit whose key is not k: a one-byte key if the value limit allows
   it, else a value as long as allowed and a key that is shorter than k.
   */
  function Filler(l: Limits, k: Blob): Entry {
    var half := l.maxTotal / 2;
    if half <= l.maxValue + 1 then Entry(OtherKey(k), Repeated(0, if half >= 1 then half - 1 else 0))
    else Entry(Repeated(0, half - l.maxValue), Repeated(0, l.maxValue))
  }

  /**
   The documentation says that a pair within the three limits is always in the cache
   after set. It is not above half the limit: one earlier pair of exactly half the limit
   is enough for set to drop the new pair.
   */
  lemma LargePairCanBeDropped(l: Limits, rnd: nat -> nat, k: Blob, v: Blob)
    requires !Refused(l, k, v) && |k| + |v| > l.maxTotal - l.maxTotal / 2
    requires 2 <= l.maxTotal / 2
    ensures var c := Set(l, rnd, Fresh(), Filler(l, k).key, Filler(l, k).value);
            Inv(l, c) && Set(l, rnd, c, k, v) == c && Entry(k, v) !in c.entries
  {
    hide Bytes, Filler, Sorted, Added;
    var k2, v2 := Filler(l, k).key, Filler(l, k).value;
    FillerFits(l, k, v);
    FreshInv(l);
    SetKeeps(l, rnd, Fresh(), k2, v2);
    var c := Set(l, rnd, Fresh(), k2, v2);
    assert c == Stored(Fresh(), k2, v2);
    assert c.total == |k2| + |v2|;
    HasMeansStored(c.entries, k);
    assert !Has(c.entries, k) by {
      forall i | 0 <= i < |c.entries|
        ensures c.entries[i].key != k
      {
        assert c.entries[i] in c.entries;
      }
    }
    PairIsDropped(l, rnd, c, k, v);
  }

  lemma FillerFits(l: Limits, k: Blob, v: Blob)
    requires !Refused(l, k, v) && |k| + |v| > l.maxTotal - l.maxTotal / 2 && 2 <= l.maxTotal / 2
    ensures var f := Filler(l, k); f.key != k && !Refused(l, f.key, f.value) && |f.key| + |f.value| == l.maxTotal / 2
  {
  }

  /** Below a limit of 4 an eviction empties the cache, so every acceptable pair is stored. */
  lemma TinyCacheStores(l: Limits, rnd: nat -> nat, c: Cache, k: Blob, v: Blob)
    requires Inv(l, c) && !Refused(l, k, v) && l.maxTotal / 2 < 2
    ensures Entry(k, v) in Set(l, rnd, c, k, v).entries
  {
    hide Inv, NewTotal, Stored, Cleaned;
    var r := Room(l, rnd, c, k, v);
    if NewTotal(c, k, v) > l.maxTotal && Cleanable(l, c) {
      CleanedKeeps(l, rnd, c);
    }
    NewTotalBound(l, r, k, v);
    if !Cleanable(l, r) {
      HeldMeansTwo(l, r);
    }
    StoredKeeps(l, r, k, v);
  }

  /** A cache that holds anything holds at least two bytes. */
  lemma HeldMeansTwo(l: Limits, c: Cache)
    requires Inv(l, c)
    ensures c.total == 0 || c.total >= 2
  {
    hide Sorted;
    if c.entries != [] {
      assert Acceptable(l, c.entries[0]);
    }
  }

  /**
   So the documented promise holds for a pair, in every state and for every draw, exactly up to
   half the limit, or if the limit is below 4.
   */
  lemma PromiseHoldsExactlyUpToHalf(l: Limits, rnd: nat -> nat, k: Blob, v: Blob)
    requires !Refused(l, k, v)
    ensures (forall c :: Inv(l, c) ==> Entry(k, v) in Set(l, rnd, c, k, v).entries)
            <==> |k| + |v| <= l.maxTotal - l.maxTotal / 2 || l.maxTotal < 4
  {
    hide Inv, Set, Refused, Filler;
    if l.maxTotal < 4 {
      forall c | Inv(l, c)
        ensures Entry(k, v) in Set(l, rnd, c, k, v).entries
      {
        TinyCacheStores(l, rnd, c, k, v);
      }
    } else if |k| + |v| <= l.maxTotal - l.maxTotal / 2 {
      forall c | Inv(l, c)
        ensures Entry(k, v) in Set(l, rnd, c, k, v).entries
      {
        SmallPairIsStored(l, rnd, c, k, v);
      }
    } else {
      LargePairCanBeDropped(l, rnd, k, v);
    }
  }

  // ----- runs -----

  function Run(l: Limits, rnd: nat -> nat, calls: seq<Entry>): Cache {
    if calls == [] then Fresh()
    else
      var last := calls[|calls| - 1];
      Set(l, rnd, Run(l, rnd, calls[..|calls| - 1]), last.key, last.value)
  }

  /** In every run the accounting is exact, the limit holds, and only pairs that were set are held. */
  lemma {:induction false} RunKeepsInv(l: Limits, rnd: nat -> nat, calls: seq<Entry>)
    ensures Inv(l, Run(l, rnd, calls))
    ensures forall x :: x in Run(l, rnd, calls).entries ==> x in calls
    decreases |calls|
  {
    hide Inv, Set;
    FreshInv(l);
    if calls != [] {
      var n := |calls| - 1;
      RunKeepsInv(l, rnd, calls[..n]);
      SetKeeps(l, rnd, Run(l, rnd, calls[..n]), calls[n].key, calls[n].value);
      assert calls[n] == Entry(calls[n].key, calls[n].value);
    }
  }
}
