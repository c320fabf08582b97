/**
 The serialised form of a BlobCache, and the cache object itself.
 */
module BlobFlatten {

  // The loops of set, clean, flatten and unflatten are each proved against the functions on Cache
  // values. Sizes are 32-bit words, least significant byte first.

  import opened Octets
  import opened SortedVector
  import opened BlobCache

  const HEADER: nat := 16
  const ENTRY_HEADER: nat := 8
  const MAGIC: nat := 0x5F426224
  const CACHE_VERSION: nat := 1
  const DEVICE_VERSION: nat := 1
  const WORD_LIMIT: nat := 0x1_0000_0000

  function Align4(n: nat): (r: nat)
    ensures n <= r <= n + 3 && r % 4 == 0
  {
    (n + 3) / 4 * 4
  }

  /** The word stored at an offset. */
  function Word(b: Blob, off: nat): (r: nat)
    requires off + 4 <= |b|
  {
    (b[off] as int) + 0x100 * (b[off + 1] as int) + 0x1_0000 * (b[off + 2] as int) + 0x100_0000 * (b[off + 3] as int)
  }

  function WordBytes(x: nat): (r: Blob)
    requires x < WORD_LIMIT
    ensures |r| == 4
  {
    [x % 0x100, x / 0x100 % 0x100, x / 0x1_0000 % 0x100, x / 0x100_0000]
  }

  /** A word written at an offset is read there. */
  lemma WordRoundTrip(b: Blob, off: nat, x: nat)
    requires x < WORD_LIMIT && off + 4 <= |b| && b[off..off + 4] == WordBytes(x)
    ensures Word(b, off) == x
  {
    var w := WordBytes(x);
    assert b[off] == w[0] && b[off + 1] == w[1] && b[off + 2] == w[2] && b[off + 3] == w[3];
    Base256(x);
  }

  lemma Base256(x: nat)
    ensures x == x % 0x100 + 0x100 * (x / 0x100 % 0x100) + 0x1_0000 * (x / 0x1_0000 % 0x100) + 0x100_0000 * (x / 0x100_0000)
  {
    var q := x / 0x100;
    assert x / 0x1_0000 == q / 0x100;
    var q2 := q / 0x100;
    assert x / 0x100_0000 == q2 / 0x100;
  }

  function EntrySize(e: Entry): nat { ENTRY_HEADER + Cost(e) }

  /** Where entry i is written. */
  function Offset(s: seq<Entry>, i: nat): (r: nat)
    requires i <= |s|
    ensures r >= HEADER
  {
    if i == 0 then HEADER else Offset(s, i - 1) + Align4(EntrySize(s[i - 1]))
  }

  /** getFlattenedSize. */
  function FlattenedSize(s: seq<Entry>): nat {
    if s == [] then HEADER else Offset(s, |s| - 1) + EntrySize(s[|s| - 1])
  }

  ghost predicate HeaderAt(b: Blob, n: nat) {
    && HEADER <= |b|
    && Word(b, 0) == MAGIC && Word(b, 4) == CACHE_VERSION && Word(b, 8) == DEVICE_VERSION && Word(b, 12) == n
  }

  ghost predicate EntryAt(b: Blob, off: nat, e: Entry) {
    && off + EntrySize(e) <= |b|
    && Word(b, off) == |e.key| && Word(b, off + 4) == |e.value|
    && b[off + 8..off + 8 + |e.key|] == e.key
    && b[off + 8 + |e.key|..off + EntrySize(e)] == e.value
  }

  /** b holds the cache: a header, then the entries at aligned offsets; other bytes are free. */
  ghost predicate Flattened(b: Blob, s: seq<Entry>) {
    && HeaderAt(b, |s|)
    && forall i :: 0 <= i < |s| ==> EntryAt(b, Offset(s, i), s[i])
  }

  // ----- reading -----

  function Cleared(c: Cache): Cache { c.(entries := []) }

  /** The loop of unflatten: n entries from an offset, set one by one; false on a short buffer. */
  function Load(l: Limits, rnd: nat -> nat, b: Blob, off: nat, n: nat, c: Cache): (Cache, bool)
    decreases n
  {
    if n == 0 then (c, true)
    else if off + ENTRY_HEADER > |b| then (Cleared(c), false)
    else
      var keySize, valueSize := Word(b, off), Word(b, off + 4);
      var end := off + ENTRY_HEADER + keySize + valueSize;
      if end > |b| then (Cleared(c), false)
      else
        Load(l, rnd, b, off + Align4(end - off), n - 1,
             Set(l, rnd, c, b[off + 8..off + 8 + keySize], b[off + 8 + keySize..end]))
  }

  function Restored(l: Limits, rnd: nat -> nat, b: Blob, fds: nat, c: Cache): (Cache, bool) {
    var c := Cleared(c);
    if fds != 0 || |b| < HEADER || Word(b, 0) != MAGIC then (c, false)
    else if Word(b, 4) != CACHE_VERSION || Word(b, 8) != DEVICE_VERSION then (c, true)
    else Load(l, rnd, b, HEADER, Word(b, 12), c)
  }

  /** An entry above all the others goes to the end. */
  lemma PutLast(s: seq<Entry>, i: nat)
    requires i < |s| && InOrder(s)
    ensures !Has(s[..i], s[i].key) && Put(s[..i], s[i]) == s[..i + 1]
  {
    hide CompareEntries, OrderOf;
    var e := s[i];
    OrderIsUnique(CompareEntries, s[..i], e, i);
    SameKeySamePlace(s[..i], e.key, e.value);
    assert s[i] == Entry(e.key, e.value);
    assert s[..i][..i] == s[..i] && s[..i][i..] == [] && s[..i] + [e] + [] == s[..i + 1];
  }

  lemma BytesOfOne(e: Entry)
    ensures Bytes([e]) == Cost(e)
  {
    assert [e][1..] == [];
  }

  lemma BytesOfPrefix(s: seq<Entry>, i: nat)
    requires i < |s|
    ensures Bytes(s[..i + 1]) == Bytes(s[..i]) + Cost(s[i])
    ensures Bytes(s[..i + 1]) <= Bytes(s)
  {
    hide Cost, Bytes;
    BytesOfConcat(s[..i], [s[i]]);
    assert s[..i + 1] == s[..i] + [s[i]];
    BytesOfConcat(s[..i + 1], s[i + 1..]);
    assert s == s[..i + 1] + s[i + 1..];
    BytesOfOne(s[i]);
  }

  /** Setting entry i on the cache of the entries before it never evicts. */
  lemma SetNext(l: Limits, rnd: nat -> nat, c: Cache, i: nat, d: nat)
    requires Inv(l, c) && i < |c.entries|
    ensures var e := c.entries[i];
            Set(l, rnd, Cache(c.entries[..i], Bytes(c.entries[..i]), d), e.key, e.value)
            == Cache(c.entries[..i + 1], Bytes(c.entries[..i + 1]), d)
  {
    hide Bytes, Sorted, Put, Has, IndexOf;
    var s, e := c.entries, c.entries[i];
    PutLast(s, i);
    BytesOfPrefix(s, i);
    assert Acceptable(l, e);
    var before := Cache(s[..i], Bytes(s[..i]), d);
    assert NewTotal(before, e.key, e.value) == Bytes(s[..i + 1]) <= l.maxTotal;
    assert !Refused(l, e.key, e.value);
    assert e == Entry(e.key, e.value);
  }

  /** Reading one whole entry sets it and moves on. */
  lemma LoadStep(l: Limits, rnd: nat -> nat, b: Blob, off: nat, n: nat, c: Cache, e: Entry)
    requires n > 0 && EntryAt(b, off, e)
    ensures Load(l, rnd, b, off, n, c)
            == Load(l, rnd, b, off + Align4(EntrySize(e)), n - 1, Set(l, rnd, c, e.key, e.value))
  {
    hide Set, Word, Align4;
  }

  lemma LoadNothing(l: Limits, rnd: nat -> nat, b: Blob, off: nat, c: Cache)
    ensures Load(l, rnd, b, off, 0, c) == (c, true)
  {
  }

  lemma {:induction false} LoadAll(l: Limits, rnd: nat -> nat, b: Blob, c: Cache, i: nat, d: nat)
    requires Inv(l, c) && i <= |c.entries| && Flattened(b, c.entries)
    ensures Load(l, rnd, b, Offset(c.entries, i), |c.entries| - i, Cache(c.entries[..i], Bytes(c.entries[..i]), d))
            == (Cache(c.entries, c.total, d), true)
    decreases |c.entries| - i
  {
    hide Inv, Set, Bytes, Align4, HeaderAt, EntryAt, EntrySize, Load, Offset;
    var s := c.entries;
    if i == |s| {
      assert s[..i] == s;
      TotalIsBytes(l, c);
      LoadNothing(l, rnd, b, Offset(s, i), Cache(s, c.total, d));
    } else {
      NextOffset(s, i);
      LoadStep(l, rnd, b, Offset(s, i), |s| - i, Cache(s[..i], Bytes(s[..i]), d), s[i]);
      SetNext(l, rnd, c, i, d);
      LoadAll(l, rnd, b, c, i + 1, d);
    }
  }

  lemma CostParts(e: Entry)
    ensures EntrySize(e) == 8 + |e.key| + |e.value|
  {
  }

  lemma TotalIsBytes(l: Limits, c: Cache)
    requires Inv(l, c)
    ensures c.total == Bytes(c.entries)
  {
  }

  /** What flatten writes, a fresh cache with the same limits reads back: same entries, same total. */
  lemma FlattenRoundTrip(l: Limits, rnd: nat -> nat, b: Blob, c: Cache)
    requires Inv(l, c) && Flattened(b, c.entries)
    ensures Restored(l, rnd, b, 0, Fresh()) == (Cache(c.entries, c.total, 0), true)
  {
    hide Load, Inv, Word, EntryAt;
    assert c.entries[..0] == [];
    NoBytes();
    LoadAll(l, rnd, b, c, 0, 0);
  }

  /** Among the whole entries at the front of the bytes there is one that set does not refuse. */
  predicate CountsSomething(l: Limits, b: Blob, off: nat, n: nat)
    decreases n
  {
    if n == 0 || off + ENTRY_HEADER > |b| then false
    else
      var keySize, valueSize := Word(b, off), Word(b, off + 4);
      var end := off + ENTRY_HEADER + keySize + valueSize;
      end <= |b| &&
      (!Refused(l, b[off + 8..off + 8 + keySize], b[off + 8 + keySize..end])
       || CountsSomething(l, b, off + Align4(end - off), n - 1))
  }

  /** A set that is not refused leaves something counted. */
  lemma SetCounts(l: Limits, rnd: nat -> nat, c: Cache, k: Blob, v: Blob)
    requires Inv(l, c) && !Refused(l, k, v)
    ensures Set(l, rnd, c, k, v).total > 0
  {
    hide Inv, Has, IndexOf, Cleaned, Stored;
    SetKeeps(l, rnd, c, k, v);
    if NewTotal(c, k, v) > l.maxTotal && Cleanable(l, c) {
      CleanedKeeps(l, rnd, c);
    }
    var r := Room(l, rnd, c, k, v);
    if NewTotal(r, k, v) > l.maxTotal {
      NewTotalBound(l, r, k, v);
    } else {
      StoredKeeps(l, r, k, v);
      SomethingHeld(l, Stored(r, k, v), Entry(k, v));
    }
  }

  lemma SomethingHeld(l: Limits, c: Cache, e: Entry)
    requires Inv(l, c) && e in c.entries
    ensures c.total > 0
  {
    hide Bytes, Sorted;
    CountIsBounded(l, c.entries);
    assert Acceptable(l, e);
  }

  /** Reading any bytes keeps the accounting up to the point of failure, where something is counted or not. */
  lemma {:induction false} LoadKeeps(l: Limits, rnd: nat -> nat, b: Blob, off: nat, n: nat, c: Cache)
    requires Inv(l, c)
    ensures var (r, ok) := Load(l, rnd, b, off, n, c);
            (ok ==> Inv(l, r)) && (!ok ==> r.entries == [] && 0 <= r.total <= l.maxTotal)
    ensures Load(l, rnd, b, off, n, c).0.total > 0 <==> c.total > 0 || CountsSomething(l, b, off, n)
    decreases n
  {
    hide Inv, Set, Word, Align4, Refused;
    TotalRange(l, c);
    if n > 0 && off + ENTRY_HEADER <= |b| {
      var keySize, valueSize := Word(b, off), Word(b, off + 4);
      var end := off + ENTRY_HEADER + keySize + valueSize;
      if end <= |b| {
        var k, v := b[off + 8..off + 8 + keySize], b[off + 8 + keySize..end];
        SetKeeps(l, rnd, c, k, v);
        if !Refused(l, k, v) {
          SetCounts(l, rnd, c, k, v);
        }
        LoadKeeps(l, rnd, b, off + Align4(end - off), n - 1, Set(l, rnd, c, k, v));
      }
    }
  }

  lemma TotalRange(l: Limits, c: Cache)
    requires Inv(l, c)
    ensures 0 <= c.total <= l.maxTotal
  {
  }

  /** The bytes get past the checks of the header, and a whole entry that set accepts comes before any short one. */
  predicate FileCounts(l: Limits, b: Blob, fds: nat) {
    && fds == 0 && |b| >= HEADER && Word(b, 0) == MAGIC
    && Word(b, 4) == CACHE_VERSION && Word(b, 8) == DEVICE_VERSION
    && CountsSomething(l, b, HEADER, Word(b, 12))
  }

  /**
   The documentation promises an empty cache after every error. On any bytes, a successful
   unflatten into a fresh cache gives a consistent cache, and a failed one leaves no entries;
   but mTotalSize keeps what was counted before the failure. So the promise holds exactly
   when no whole entry before the short one is accepted.
   */
  lemma UnflattenAccounts(l: Limits, rnd: nat -> nat, b: Blob, fds: nat)
    ensures var (r, ok) := Restored(l, rnd, b, fds, Fresh());
            && (ok ==> Inv(l, r))
            && (!ok ==> r.entries == [] && (Inv(l, r) <==> !FileCounts(l, b, fds)))
  {
    hide Inv, Load, Word, CountsSomething;
    FreshInv(l);
    LoadKeeps(l, rnd, b, HEADER, if |b| >= HEADER then Word(b, 12) else 0, Fresh());
    var r := Restored(l, rnd, b, fds, Fresh()).0;
    EmptyAccounts(l, r);
  }

  lemma EmptyAccounts(l: Limits, c: Cache)
    ensures c.entries == [] ==> (Inv(l, c) <==> c.total == 0)
  {
    NoBytes();
  }

  /** A truncated file whose first entry is whole: unflatten fails and the total is wrong. */
  lemma TruncatedFileBreaksAccounting(l: Limits, rnd: nat -> nat, b: Blob, e: Entry, n: nat)
    requires HeaderAt(b, n) && n >= 2 && EntryAt(b, HEADER, e) && |b| == HEADER + EntrySize(e)
    requires !Refused(l, e.key, e.value)
    ensures var (r, ok) := Restored(l, rnd, b, 0, Fresh()); !ok && r.entries == [] && r.total == Cost(e) && !Inv(l, r)
  {
    hide Word, Inv, Put, Has, IndexOf, Align4;
    var c1 := Set(l, rnd, Fresh(), e.key, e.value);
    assert !Has([], e.key) by { NothingStored(e.key); }
    assert c1.total == Cost(e);
    var off := HEADER + Align4(EntrySize(e));
    CostParts(e);
    assert Load(l, rnd, b, off, n - 1, c1) == (Cleared(c1), false);
    assert Load(l, rnd, b, HEADER, n, Fresh()) == Load(l, rnd, b, off, n - 1, c1);
    EmptyAccounts(l, Cleared(c1));
  }

  lemma NothingStored(k: Blob)
    ensures !Has([], k)
  {
  }

  // ----- the cache object -----

  /** b with x written over it at an offset. */
  function Overwrite(b: Blob, off: nat, x: Blob): (r: Blob)
    requires off + |x| <= |b|
    ensures |r| == |b|
  {
    b[..off] + x + b[off + |x|..]
  }

  /** Two writes side by side are one. */
  lemma OverwriteTwice(b: Blob, off: nat, x: Blob, y: Blob)
    requires off + |x| + |y| <= |b|
    ensures Overwrite(Overwrite(b, off, x), off + |x|, y) == Overwrite(b, off, x + y)
  {
    var r := Overwrite(b, off, x);
    assert r[..off + |x|] == b[..off] + x;
    assert r[off + |x| + |y|..] == b[off + |x| + |y|..];
  }

  method WriteBytes(buffer: array<Byte>, off: nat, bytes: Blob)
    requires off + |bytes| <= buffer.Length
    modifies buffer
    ensures buffer[..] == Overwrite(old(buffer[..]), off, bytes)
  {
    for k := 0 to |bytes|
      invariant forall j :: 0 <= j < buffer.Length && !(off <= j < off + k) ==> buffer[j] == old(buffer[j])
      invariant forall j :: 0 <= j < k ==> buffer[off + j] == bytes[j]
    {
      buffer[off + k] := bytes[k];
    }
  }

  /** Bytes before an offset decide every entry that ends there. */
  lemma EntryAtPrefix(a: Blob, b: Blob, upto: nat, off: nat, e: Entry)
    requires upto <= |a| == |b| && a[..upto] == b[..upto]
    requires EntryAt(a, off, e) && off + EntrySize(e) <= upto
    ensures EntryAt(b, off, e)
  {
    hide Cost;
    CostParts(e);
    WordPrefix(a, b, upto, off);
    WordPrefix(a, b, upto, off + 4);
    SlicePrefix(a, b, upto, off + 8, off + 8 + |e.key|);
    SlicePrefix(a, b, upto, off + 8 + |e.key|, off + EntrySize(e));
  }

  lemma SlicePrefix(a: Blob, b: Blob, upto: nat, from: nat, to: nat)
    requires from <= to <= upto <= |a| == |b| && a[..upto] == b[..upto]
    ensures a[from..to] == b[from..to]
  {
    assert a[from..to] == a[..upto][from..to] && b[from..to] == b[..upto][from..to];
  }

  lemma WordPrefix(a: Blob, b: Blob, upto: nat, off: nat)
    requires off + 4 <= upto <= |a| == |b| && a[..upto] == b[..upto]
    ensures Word(a, off) == Word(b, off)
  {
    assert forall i :: 0 <= i < upto ==> a[i] == a[..upto][i];
    assert forall i :: 0 <= i < upto ==> b[i] == b[..upto][i];
  }

  lemma {:induction false} OffsetsGrow(s: seq<Entry>, i: nat, j: nat)
    requires i < j <= |s|
    ensures Offset(s, i) + EntrySize(s[i]) <= Offset(s, j)
    decreases j
  {
    hide Align4, Cost;
    if i < j - 1 {
      OffsetsGrow(s, i, j - 1);
    }
  }

  /** The number of entries and each size fit a word. */
  lemma {:induction false} CountIsBounded(l: Limits, s: seq<Entry>)
    requires forall e :: e in s ==> Acceptable(l, e)
    ensures |s| <= Bytes(s)
    ensures forall e :: e in s ==> Cost(e) <= Bytes(s)
  {
    if s != [] {
      assert s[0] in s && forall e :: e in s[1..] ==> e in s;
      CountIsBounded(l, s[1..]);
      assert forall e :: e in s ==> e == s[0] || e in s[1..];
    }
  }

  /** After the four writes of one entry. */
  lemma EntryWritten(b: Blob, off: nat, e: Entry)
    requires |e.key| < WORD_LIMIT && |e.value| < WORD_LIMIT && off + EntrySize(e) <= |b|
    ensures EntryAt(Overwrite(b, off, WordBytes(|e.key|) + WordBytes(|e.value|) + e.key + e.value), off, e)
  {
    hide WordBytes, Word, Overwrite;
    var k, v := WordBytes(|e.key|), WordBytes(|e.value|);
    var r := Overwrite(b, off, k + v + e.key + e.value);
    OverwrittenPart(b, off, [], k, v + e.key + e.value);
    assert [] + k + (v + e.key + e.value) == k + v + e.key + e.value;
    OverwrittenPart(b, off, k, v, e.key + e.value);
    assert k + v + (e.key + e.value) == k + v + e.key + e.value;
    OverwrittenPart(b, off, k + v, e.key, e.value);
    OverwrittenPart(b, off, k + v + e.key, e.value, []);
    assert k + v + e.key + e.value + [] == k + v + e.key + e.value;
    WordRoundTrip(r, off, |e.key|);
    WordRoundTrip(r, off + 4, |e.value|);
  }

  lemma OverwrittenPart(b: Blob, off: nat, x: Blob, y: Blob, z: Blob)
    requires off + |x + y + z| <= |b|
    ensures Overwrite(b, off, x + y + z)[off + |x|..off + |x| + |y|] == y
  {
    assert Overwrite(b, off, x + y + z) == b[..off] + x + y + (z + b[off + |x + y + z|..]);
    var p := b[..off] + x;
    assert (p + y + (z + b[off + |x + y + z|..]))[|p|..|p| + |y|] == y;
  }

  method WriteEntry(buffer: array<Byte>, off: nat, e: Entry)
    requires |e.key| < WORD_LIMIT && |e.value| < WORD_LIMIT && off + EntrySize(e) <= buffer.Length
    modifies buffer
    ensures EntryAt(buffer[..], off, e) && buffer[..][..off] == old(buffer[..])[..off]
  {
    hide WordBytes, EntryAt, Overwrite;
    ghost var b0, x1, x2 := buffer[..], WordBytes(|e.key|), WordBytes(|e.value|);
    WriteBytes(buffer, off, WordBytes(|e.key|));
    WriteBytes(buffer, off + 4, WordBytes(|e.value|));
    OverwriteTwice(b0, off, x1, x2);
    WriteBytes(buffer, off + 8, e.key);
    OverwriteTwice(b0, off, x1 + x2, e.key);
    WriteBytes(buffer, off + 8 + |e.key|, e.value);
    OverwriteTwice(b0, off, x1 + x2 + e.key, e.value);
    OverwrittenPrefix(b0, off, x1 + x2 + e.key + e.value);
    EntryWritten(b0, off, e);
  }

  lemma OverwrittenPrefix(b: Blob, off: nat, x: Blob)
    requires off + |x| <= |b|
    ensures Overwrite(b, off, x)[..off] == b[..off]
  {
  }

  method WriteHeader(buffer: array<Byte>, n: nat)
    requires n < WORD_LIMIT && HEADER <= buffer.Length
    modifies buffer
    ensures HeaderAt(buffer[..], n)
  {
    hide WordBytes, Overwrite, HeaderAt;
    ghost var b0, m, c, d := buffer[..], WordBytes(MAGIC), WordBytes(CACHE_VERSION), WordBytes(DEVICE_VERSION);
    WriteBytes(buffer, 0, WordBytes(MAGIC));
    WriteBytes(buffer, 4, WordBytes(CACHE_VERSION));
    OverwriteTwice(b0, 0, m, c);
    WriteBytes(buffer, 8, WordBytes(DEVICE_VERSION));
    OverwriteTwice(b0, 0, m + c, d);
    WriteBytes(buffer, 12, WordBytes(n));
    OverwriteTwice(b0, 0, m + c + d, WordBytes(n));
    HeaderWritten(b0, n);
  }

  lemma HeaderWritten(b: Blob, n: nat)
    requires n < WORD_LIMIT && HEADER <= |b|
    ensures HeaderAt(Overwrite(b, 0, WordBytes(MAGIC) + WordBytes(CACHE_VERSION) + WordBytes(DEVICE_VERSION) + WordBytes(n)), n)
  {
    hide WordBytes, Word, Overwrite;
    var m, c, d, k := WordBytes(MAGIC), WordBytes(CACHE_VERSION), WordBytes(DEVICE_VERSION), WordBytes(n);
    var r := Overwrite(b, 0, m + c + d + k);
    OverwrittenPart(b, 0, [], m, c + d + k);
    assert [] + m + (c + d + k) == m + c + d + k;
    OverwrittenPart(b, 0, m, c, d + k);
    assert m + c + (d + k) == m + c + d + k;
    OverwrittenPart(b, 0, m + c, d, k);
    OverwrittenPart(b, 0, m + c + d, k, []);
    assert m + c + d + k + [] == m + c + d + k;
    WordRoundTrip(r, 0, MAGIC);
    WordRoundTrip(r, 4, CACHE_VERSION);
    WordRoundTrip(r, 8, DEVICE_VERSION);
    WordRoundTrip(r, 12, n);
  }

  class Store {
    const limits: Limits
    /** blob_random: the n-th number drawn. */
    const rnd: nat -> nat
    var entries: seq<Entry>
    var total: int
    var drawn: nat

    ghost function State(): Cache reads this { Cache(entries, total, drawn) }

    ghost predicate Valid() reads this { Inv(limits, State()) }

    constructor (l: Limits, rnd: nat -> nat)
      ensures limits == l && this.rnd == rnd && State() == Fresh() && Valid()
    {
      limits, this.rnd := l, rnd;
      entries, total, drawn := [], 0, 0;
    }

    /** clean: the loop that evicts. */
    method Clean()
      requires Valid()
      modifies this
      ensures State() == Cleaned(limits, rnd, old(State())) && Valid()
    {
      hide Inv, Cost, Without;
      CleanedKeeps(limits, rnd, State());
      while total > limits.maxTotal / 2
        invariant Valid() && Cleaned(limits, rnd, State()) == Cleaned(limits, rnd, old(State()))
        decreases |entries|
      {
        Occupied(limits, State());
        EvictKeeps(limits, State(), rnd(drawn) % |entries|);
        var i := rnd(drawn) % |entries|;
        drawn := drawn + 1;
        total := total - Cost(entries[i]);
        entries := Without(entries, i);
      }
    }

    /** set: at most two rounds, the second after one clean. */
    method Set(k: Blob, v: Blob) returns (ghost rounds: nat)
      requires Valid()
      modifies this
      ensures State() == BlobCache.Set(limits, rnd, old(State()), k, v) && Valid()
      ensures rounds <= 2
    {
      hide Inv, Sorted, IsOrder, NewTotal, Cleaned, CompareEntries, Put;
      rounds := 0;
      ghost var c := State();
      SetKeeps(limits, rnd, c, k, v);
      if limits.maxKey < |k| || limits.maxValue < |v| || limits.maxTotal < |k| + |v| || |k| == 0 || |v| == 0 {
        return;
      }
      while true
        invariant Valid() && rounds <= 1
        invariant rounds == 0 ==> State() == c
        invariant rounds == 1 ==> !Cleanable(limits, State()) && State() == Room(limits, rnd, c, k, v)
        decreases 2 - rounds
      {
        rounds := rounds + 1;
        var fits, newTotal, found, at := Measure(k, v);
        if !fits && total > limits.maxTotal / 2 {
          CleanedKeeps(limits, rnd, c);
          Clean();
          continue;
        } else if !fits {
          break;
        }
        StoreAt(k, v, found, at, newTotal);
        break;
      }
    }

    /** The search, and the size the cache would have. */
    method Measure(k: Blob, v: Blob) returns (fits: bool, newTotal: int, found: bool, at: nat)
      requires Valid()
      ensures newTotal == NewTotal(State(), k, v) && fits == (newTotal <= limits.maxTotal)
      ensures found == Has(entries, k) && at == IndexOf(entries, k)
    {
      hide Sorted, IsOrder, CompareEntries, Bytes;
      EntriesAreOrdered();
      found, at := IndexOrderOf(CompareEntries, entries, Entry(k, []));
      newTotal := if found then total + |v| - |entries[at].value| else total + |k| + |v|;
      fits := newTotal <= limits.maxTotal;
    }

    /** Adds the entry, or replaces the value of the one found. */
    method StoreAt(k: Blob, v: Blob, found: bool, at: nat, newTotal: int)
      requires Valid() && found == Has(entries, k) && at == IndexOf(entries, k)
      requires newTotal == NewTotal(State(), k, v)
      modifies this
      ensures State() == Stored(old(State()), k, v)
    {
      hide Sorted, IsOrder, CompareEntries, Bytes, NewTotal, IndexOf, OrderOf, Found;
      EntriesAreOrdered();
      SameKeySamePlace(entries, k, v);
      if found {
        entries := entries[at := entries[at].(value := v)];
        assert entries == old(entries)[..at] + [Entry(k, v)] + old(entries)[at + 1..];
      } else {
        entries := Add(CompareEntries, entries, Entry(k, v));
      }
      total := newTotal;
    }

    /** get: the size of the value, copied out when the caller's buffer can hold it. */
    method Get(k: Blob, value: array<Byte>) returns (size: nat)
      requires Valid()
      modifies value
      ensures |k| <= limits.maxKey && (exists v :: Entry(k, v) in entries) ==>
                && Entry(k, Value(entries, k)) in entries && size == |Value(entries, k)| > 0
                && (size <= value.Length ==> value[..] == Value(entries, k) + old(value[..])[size..])
                && (size > value.Length ==> value[..] == old(value[..]))
      ensures |k| > limits.maxKey || (forall v :: Entry(k, v) !in entries) ==> size == 0 && value[..] == old(value[..])
    {
      hide Sorted, IsOrder, CompareEntries, Bytes, OrderOf;
      if limits.maxKey < |k| {
        return 0;
      }
      EntriesAreOrdered();
      StoredKey(entries, k);
      var found, at := IndexOrderOf(CompareEntries, entries, Entry(k, []));
      if !found {
        return 0;
      }
      assert Acceptable(limits, entries[at]);
      size := |entries[at].value|;
      if size <= value.Length {
        WriteBytes(value, 0, entries[at].value);
      }
    }

    /** getFlattenedSize: the loop. */
    method GetFlattenedSize() returns (size: nat)
      requires Valid()
      ensures size == FlattenedSize(entries)
    {
      hide Align4, Inv, Cost;
      size := HEADER;
      for i := 0 to |entries|
        invariant size == if i == 0 then HEADER else Offset(entries, i - 1) + EntrySize(entries[i - 1])
      {
        AlignedOffset(entries, i);
        size := Align4(size);
        size := size + EntrySize(entries[i]);
      }
    }

    /** flatten succeeds exactly when no descriptors are passed and the buffer has the flattened size. */
    method Flatten(buffer: array<Byte>, fds: nat) returns (ok: bool)
      requires Valid() && limits.maxTotal < WORD_LIMIT
      modifies buffer
      ensures ok <==> fds == 0 && FlattenedSize(entries) <= buffer.Length
      ensures ok ==> Flattened(buffer[..], entries)
    {
      hide Inv, Cost, Align4, HeaderAt, EntryAt, Word, Bytes, Offset, FlattenedSize;
      Occupancy(limits, State());
      SizeIsEnough(entries);
      FirstOffset(entries);
      if fds != 0 || buffer.Length < HEADER {
        return false;
      }
      WriteHeader(buffer, |entries|);
      var off := HEADER;
      for i := 0 to |entries|
        invariant off == Offset(entries, i) && HeaderAt(buffer[..], |entries|)
        invariant i > 0 ==> Offset(entries, i - 1) + EntrySize(entries[i - 1]) <= buffer.Length
        invariant forall j :: 0 <= j < i ==> EntryAt(buffer[..], Offset(entries, j), entries[j])
      {
        var e := entries[i];
        if off + EntrySize(e) > buffer.Length {
          return false;
        }
        ghost var b := buffer[..];
        assert e in entries;
        WriteEntry(buffer, off, e);
        Undisturbed(b, buffer[..], entries, i);
        NextOffset(entries, i);
        off := off + Align4(EntrySize(e));
      }
      ok := true;
    }

    /** unflatten into a cache that counts nothing yet. */
    method Unflatten(b: Blob, fds: nat) returns (ok: bool)
      requires total == 0 && entries == []
      modifies this
      ensures (State(), ok) == Restored(limits, rnd, b, fds, old(State()))
      ensures ok ==> Valid()
    {
      hide Word, Align4, Inv, BlobCache.Set;
      entries := [];
      EmptyAccounts(limits, State());
      if fds != 0 || |b| < HEADER || Word(b, 0) != MAGIC {
        return false;
      }
      if Word(b, 4) != CACHE_VERSION || Word(b, 8) != DEVICE_VERSION {
        return true;
      }
      var off: nat, n := HEADER, Word(b, 12);
      ghost var whole := Load(limits, rnd, b, HEADER, n, State());
      for i := 0 to n
        invariant Valid() && Load(limits, rnd, b, off, n - i, State()) == whole
      {
        if off + ENTRY_HEADER > |b| {
          entries := [];
          return false;
        }
        var keySize, valueSize := Word(b, off), Word(b, off + 4);
        var entrySize := ENTRY_HEADER + keySize + valueSize;
        if off + entrySize > |b| {
          entries := [];
          return false;
        }
        var data := off + ENTRY_HEADER;
        var _ := Set(b[data..data + keySize], b[data + keySize..off + entrySize]);
        off := off + Align4(entrySize);
      }
      ok := true;
    }
  }

  /** The value stored for a key. */
  function Value(s: seq<Entry>, k: Blob): Blob {
    if Has(s, k) then s[IndexOf(s, k)].value else []
  }

  lemma StoredKey(s: seq<Entry>, k: Blob)
    requires InOrder(s)
    ensures Has(s, k) <==> exists v :: Entry(k, v) in s
    ensures Has(s, k) ==> Entry(k, Value(s, k)) in s
  {
    hide Has, Sorted;
    HasMeansStored(s, k);
    if Has(s, k) {
      var i := IndexOf(s, k);
      assert s[i] == Entry(k, s[i].value);
    }
    forall v | Entry(k, v) in s
      ensures Has(s, k)
    {
      var i :| 0 <= i < |s| && s[i] == Entry(k, v);
      assert s[i].key == k;
    }
  }

  lemma Occupied(l: Limits, c: Cache)
    requires Inv(l, c) && Cleanable(l, c)
    ensures c.entries != []
  {
    NoBytes();
  }

  lemma EvictKeeps(l: Limits, c: Cache, i: nat)
    requires Inv(l, c) && i < |c.entries|
    ensures Inv(l, Cache(Without(c.entries, i), c.total - Cost(c.entries[i]), c.drawn + 1))
  {
    hide Bytes, Sorted, Cost, Without;
    BytesWithout(c.entries, i);
    WithoutIsSmaller(c.entries, i);
  }

  lemma AlignedOffset(s: seq<Entry>, i: nat)
    requires i < |s|
    ensures Offset(s, i) == Align4(if i == 0 then HEADER else Offset(s, i - 1) + EntrySize(s[i - 1]))
  {
    hide Cost;
    if i > 0 {
      OffsetIsAligned(s, i - 1);
    }
  }

  lemma {:induction false} OffsetIsAligned(s: seq<Entry>, i: nat)
    requires i <= |s|
    ensures Offset(s, i) % 4 == 0
  {
    hide Align4, Cost;
    if i > 0 {
      OffsetIsAligned(s, i - 1);
    }
  }

  lemma Occupancy(l: Limits, c: Cache)
    requires Inv(l, c) && l.maxTotal < WORD_LIMIT
    ensures |c.entries| < WORD_LIMIT
    ensures forall e :: e in c.entries ==> |e.key| < WORD_LIMIT && |e.value| < WORD_LIMIT
  {
    hide Bytes, Sorted;
    CountIsBounded(l, c.entries);
  }

  lemma NextOffset(s: seq<Entry>, i: nat)
    requires i < |s|
    ensures Offset(s, i + 1) == Offset(s, i) + Align4(EntrySize(s[i]))
  {
  }

  lemma FirstOffset(s: seq<Entry>)
    ensures Offset(s, 0) == HEADER
    ensures FlattenedSize(s) == if s == [] then HEADER else Offset(s, |s| - 1) + EntrySize(s[|s| - 1])
  {
  }

  /** Every entry ends within the flattened size, and the last one exactly there. */
  lemma SizeIsEnough(s: seq<Entry>)
    ensures FlattenedSize(s) >= HEADER
    ensures forall i :: 0 <= i < |s| ==> Offset(s, i) + EntrySize(s[i]) <= FlattenedSize(s)
  {
    hide Cost, Offset;
    forall i | 0 <= i < |s|
      ensures Offset(s, i) + EntrySize(s[i]) <= FlattenedSize(s)
    {
      if i < |s| - 1 {
        OffsetsGrow(s, i, |s| - 1);
      }
    }
  }

  /** Writing entry i leaves the header and the earlier entries as they were. */
  lemma Undisturbed(a: Blob, b: Blob, s: seq<Entry>, i: nat)
    requires i < |s| && |a| == |b| && Offset(s, i) <= |a| && a[..Offset(s, i)] == b[..Offset(s, i)]
    requires HeaderAt(a, |s|) && forall j :: 0 <= j < i ==> EntryAt(a, Offset(s, j), s[j])
    ensures HeaderAt(b, |s|) && forall j :: 0 <= j < i ==> EntryAt(b, Offset(s, j), s[j])
  {
    hide Word, EntryAt, Cost, Offset;
    var off := Offset(s, i);
    WordPrefix(a, b, off, 0);
    WordPrefix(a, b, off, 4);
    WordPrefix(a, b, off, 8);
    WordPrefix(a, b, off, 12);
    forall j | 0 <= j < i
      ensures EntryAt(b, Offset(s, j), s[j])
    {
      OffsetsGrow(s, j, i);
      EntryAtPrefix(a, b, off, Offset(s, j), s[j]);
    }
  }
}
