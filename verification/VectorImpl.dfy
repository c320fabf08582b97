/**
 The calls of VectorImpl on a memory of shared buffers. Each is proved to be the plain sequence
 operation on its own vector and to leave every other vector as it was, although buffers are
 shared, copied, resized and freed on the way.

 The memory is one object: a map from addresses to buffers and a map from names to vectors. The
 two flags of the item type decide which of the paths of _grow and _shrink are taken, and
 whether a slot that no item occupies must be raw. Every call keeps each reference count equal
 to the number of vectors that point at the buffer, so no buffer is leaked or freed early.
 */
module VectorImpl {
  import opened SharedVector
  import opened SortedVector
  import opened StableSort

  const MIN_CAPACITY: nat := 4
  const BAD_INDEX: int := -75
  const BAD_VALUE: int := -22
  const NO_MEMORY: int := -12

  function Max(a: nat, b: nat): nat { if a > b then a else b }

  lemma OthersSameTransitive<T>(trivial: bool, w0: World<T>, w1: World<T>, w2: World<T>, v: nat)
    requires Inv(trivial, w0) && Inv(trivial, w1) && Inv(trivial, w2)
    requires OthersSame(trivial, w0, w1, v) && OthersSame(trivial, w1, w2, v)
    ensures OthersSame(trivial, w0, w2, v)
  {
    hide Inv, Contents;
  }

  lemma OthersSameReflexive<T>(trivial: bool, w: World<T>, v: nat)
    requires Inv(trivial, w)
    ensures OthersSame(trivial, w, w, v)
  {
  }

  /** The front slots hold xs. */
  ghost predicate Shows<T>(s: seq<Slot<T>>, xs: seq<T>) {
    |xs| <= |s| && forall i :: 0 <= i < |xs| ==> s[i] == Item(xs[i])
  }

  /** Slots behind the items: raw, unless destruction is trivial. */
  ghost predicate Spare<T>(trivial: bool, s: seq<Slot<T>>) { !trivial ==> forall i :: 0 <= i < |s| ==> s[i].Raw? }

  lemma TailIsSpare<T>(trivial: bool, s: seq<Slot<T>>, count: nat, k: nat)
    requires Holds(trivial, s, count) && count <= k <= |s|
    ensures Spare(trivial, s[k..])
  {
  }

  lemma RawsAreSpare<T>(trivial: bool, n: nat)
    ensures Spare<T>(trivial, Raws(n))
  {
  }

  /** Slots with xs put in at an index show the sequence with xs put in there. */
  lemma InsertShows<T>(trivial: bool, s: seq<Slot<T>>, ys: seq<T>, index: nat, xs: seq<T>, rest: seq<Slot<T>>)
    requires Shows(s, ys) && index <= |ys| && Spare(trivial, rest)
    ensures var r := s[..index] + Items(xs) + s[index..|ys|] + rest;
            Shows(r, ys[..index] + xs + ys[index..]) && Holds(trivial, r, |ys| + |xs|)
  {
    var r, zs := s[..index] + Items(xs) + s[index..|ys|] + rest, ys[..index] + xs + ys[index..];
    forall i | 0 <= i < |zs|
      ensures r[i] == Item(zs[i])
    {
    }
  }

  lemma RemoveShows<T>(trivial: bool, s: seq<Slot<T>>, ys: seq<T>, index: nat, amount: nat, rest: seq<Slot<T>>)
    requires Shows(s, ys) && index + amount <= |ys| && Spare(trivial, rest)
    ensures var r := s[..index] + s[index + amount..|ys|] + rest;
            Shows(r, ys[..index] + ys[index + amount..]) && Holds(trivial, r, |ys| - amount)
  {
    var r, zs := s[..index] + s[index + amount..|ys|] + rest, ys[..index] + ys[index + amount..];
    forall i | 0 <= i < |zs|
      ensures r[i] == Item(zs[i])
    {
    }
  }

  /** Contents of a vector, from its slots. */
  lemma ContentsAre<T>(trivial: bool, w: World<T>, v: nat, xs: seq<T>)
    requires Inv(trivial, w) && v in w.vecs && w.vecs[v].count == |xs|
    requires w.vecs[v].storage != 0 ==> w.vecs[v].storage in w.bufs
    requires Shows(SlotsOf(w, v), xs)
    ensures Contents(trivial, w, v) == xs
  {
    hide Inv;
    SlotsHold(trivial, w, v);
  }

  /** And back: each slot of a vector holds the item of its contents. */
  lemma SlotsAre<T>(trivial: bool, w: World<T>, v: nat)
    requires Inv(trivial, w) && v in w.vecs
    ensures VecOk(trivial, w, v) && Holds(trivial, SlotsOf(w, v), w.vecs[v].count)
    ensures |Contents(trivial, w, v)| == w.vecs[v].count
    ensures w.vecs[v].count <= |SlotsOf(w, v)| && Shows(SlotsOf(w, v), Contents(trivial, w, v))
  {
    hide Inv;
    SlotsHold(trivial, w, v);
  }

  /** The owner that frees a buffer destroys every item in it: its own count is the count of all. */
  lemma LastOwnerDestroysAll<T>(trivial: bool, w: World<T>, v: nat)
    requires Inv(trivial, w) && v in w.vecs && w.vecs[v].storage != 0
    ensures var a := w.vecs[v].storage; var n := w.vecs[v].count;
            a in w.bufs && n <= |w.bufs[a].slots| && Spare(trivial, Raws(n) + w.bufs[a].slots[n..])
  {
    hide Inv;
    SlotsHold(trivial, w, v);
  }

  class Memory<T(!new)> {
    const trivialCopy: bool   // HAS_TRIVIAL_COPY
    const trivialDtor: bool   // HAS_TRIVIAL_DTOR
    var bufs: map<nat, Buffer<T>>
    var vecs: map<nat, Vec>
    var next: nat

    ghost function State(): World<T> reads this { World(bufs, vecs, next) }

    ghost predicate Valid() reads this { Inv(trivialDtor, State()) }

    ghost function At(v: nat): seq<T>
      reads this
      requires Valid() && v in vecs
    {
      Contents(trivialDtor, State(), v)
    }

    constructor (trivialCopy: bool, trivialDtor: bool)
      ensures Valid() && vecs == map[] && bufs == map[]
    {
      this.trivialCopy, this.trivialDtor := trivialCopy, trivialDtor;
      bufs, vecs, next := map[], map[], 1;
    }

    /** A new, empty vector. */
    method Create(v: nat)
      requires Valid() && v !in vecs
      modifies this
      ensures Valid() && v in vecs && vecs[v] == Vec(0, 0) && At(v) == [] && vecs == old(vecs)[v := Vec(0, 0)] && OthersSame(trivialDtor, old(State()), State(), v)
    {
      CreateKeeps(trivialDtor, State(), v);
      vecs := vecs[v := Vec(0, 0)];
    }

    /** SharedBuffer::release and dealloc inside release_storage: the last owner destroys the items and frees. */
    method ReleaseStorage(v: nat)
      requires Valid() && v in vecs
      modifies this
      ensures Valid() && State() == Release(old(State()), v) && OthersSame(trivialDtor, old(State()), State(), v)
    {
      hide Inv, Contents, VecOk, Holds, Spare, Raws, OthersSame;
      ReleaseKeeps(trivialDtor, State(), v);
      DetachedOk(trivialDtor, State(), v);
      var a := vecs[v].storage;
      if a != 0 {
        if bufs[a].refs == 1 {
          LastOwnerDestroysAll(trivialDtor, State(), v);
          bufs := bufs - {a};
        } else {
          bufs := bufs[a := bufs[a].(refs := bufs[a].refs - 1)];
        }
      }
      vecs := vecs[v := Vec(0, 0)];
    }

    /** Allocates a buffer, fills it, releases the old one and takes the new one. */
    method Rehome(v: nat, slots: seq<Slot<T>>, count: nat)
      requires Valid() && v in vecs && Holds(trivialDtor, slots, count)
      modifies this
      ensures Valid() && v in vecs && vecs[v].count == count && OthersSame(trivialDtor, old(State()), State(), v)
      ensures vecs[v].storage in bufs && bufs[vecs[v].storage] == Buffer(1, slots) && vecs[v].storage != 0
    {
      hide Inv, Contents, Holds;
      ghost var w0 := State();
      ReleaseKeeps(trivialDtor, w0, v);
      NextIsPositive(trivialDtor, w0);
      ReleaseStorage(v);
      ghost var w1 := State();
      AttachKeeps(trivialDtor, w1, v, slots, count);
      OthersSameTransitive(trivialDtor, w0, w1, Attach(w1, v, slots, count), v);
      bufs := bufs[next := Buffer(1, slots)];
      vecs := vecs[v := Vec(next, count)];
      next := next + 1;
    }

    /** Writes into a buffer that v alone points at. */
    method SetSlots(v: nat, slots: seq<Slot<T>>, count: nat)
      requires Valid() && v in vecs && vecs[v].storage in bufs && bufs[vecs[v].storage].refs == 1
      requires vecs[v].storage != 0 && Holds(trivialDtor, slots, count)
      modifies this
      ensures Valid() && v in vecs && vecs[v] == Vec(old(vecs[v].storage), count)
      ensures vecs[v].storage in bufs && bufs[vecs[v].storage] == Buffer(1, slots)
      ensures OthersSame(trivialDtor, old(State()), State(), v)
    {
      hide Inv, Contents, Holds;
      OverwriteKeeps(trivialDtor, State(), v, slots, count);
      var a := vecs[v].storage;
      bufs := bufs[a := Buffer(1, slots)];
      vecs := vecs[v := Vec(a, count)];
    }

    /** editArrayImpl: afterwards the storage, if any, is v's alone; nothing can be seen of it. */
    method EditArray(v: nat)
      requires Valid() && v in vecs
      modifies this
      ensures Valid() && v in vecs && At(v) == old(At(v)) && OthersSame(trivialDtor, old(State()), State(), v)
      ensures vecs[v].count == old(vecs[v].count) && (vecs[v].storage == 0 <==> old(vecs[v].storage) == 0)
      ensures vecs[v].storage != 0 ==> vecs[v].storage in bufs && bufs[vecs[v].storage].refs == 1
      ensures |Slots(v)| == old(|Slots(v)|)
    {
      hide Inv, Contents;
      OthersSameReflexive(trivialDtor, State(), v);
      SlotsAre(trivialDtor, State(), v);
      var a := vecs[v].storage;
      if a != 0 && bufs[a].refs != 1 {
        var s, count := bufs[a].slots, vecs[v].count;
        ghost var xs := At(v);
        Rehome(v, s[..count] + Raws(|s| - count), count);
        ContentsAre(trivialDtor, State(), v, xs);
      }
    }

    ghost function Slots(v: nat): seq<Slot<T>>
      reads this
      requires Valid() && v in vecs
    {
      SlotsHold(trivialDtor, State(), v);
      SlotsOf(State(), v)
    }

    /** SharedBuffer::editResize: in place for a sole owner, else into a new buffer. */
    method EditResize(v: nat, capacity: nat)
      requires Valid() && v in vecs && trivialDtor && vecs[v].storage != 0 && vecs[v].count <= capacity
      modifies this
      ensures Valid() && v in vecs && At(v) == old(At(v)) && OthersSame(trivialDtor, old(State()), State(), v)
      ensures vecs[v].count == old(vecs[v].count) && vecs[v].storage != 0
      ensures vecs[v].storage in bufs && bufs[vecs[v].storage].refs == 1 && |Slots(v)| == capacity
    {
      hide Inv, Contents, Holds;
      SlotsAre(trivialDtor, State(), v);
      ghost var xs := At(v);
      ResizeAndCut(v, capacity, vecs[v].count);
      ContentsAre(trivialDtor, State(), v, xs);
    }

    method Capacity(v: nat) returns (c: nat)
      requires Valid() && v in vecs
      ensures c == |Slots(v)|
    {
      hide Inv;
      SlotsHold(trivialDtor, State(), v);
      c := if vecs[v].storage == 0 then 0 else |bufs[vecs[v].storage].slots|;
    }

    /** The copy constructor. */
    method CreateCopy(v: nat, u: nat)
      requires Valid() && v !in vecs && u in vecs
      modifies this
      ensures Valid() && v in vecs && At(v) == old(At(u)) && OthersSame(trivialDtor, old(State()), State(), v)
    {
      hide Inv, Contents;
      ghost var w0 := State();
      ghost var xs := At(u);
      Create(v);
      StorageOrNothing(trivialDtor, State(), u);
      ShareIf(vecs[u].storage != 0, v, u, w0);
    }

    /** operator =. */
    method Assign(v: nat, u: nat)
      requires Valid() && v in vecs && u in vecs
      modifies this
      ensures Valid() && v in vecs && u in vecs && At(v) == old(At(u)) && OthersSame(trivialDtor, old(State()), State(), v)
    {
      hide Inv, Contents;
      ghost var w0 := State();
      if v == u {
        OthersSameReflexive(trivialDtor, w0, v);
        return;
      }
      ReleaseKeeps(trivialDtor, State(), v);
      ReleaseStorage(v);
      StorageOrNothing(trivialDtor, State(), u);
      ShareIf(vecs[u].count != 0, v, u, w0);
    }

    /** Takes u's storage and acquires it. */
    method ShareIf(take: bool, v: nat, u: nat, ghost w0: World<T>)
      requires Valid() && (u in vecs ==> if take then vecs[u].storage != 0 else vecs[u].count == 0)
      requires Valid() && v in vecs && u in vecs && v != u && vecs[v] == Vec(0, 0)
      requires Inv(trivialDtor, w0) && OthersSame(trivialDtor, w0, State(), v)
      modifies this
      ensures Valid() && v in vecs && u in vecs && At(v) == old(At(u))
      ensures OthersSame(trivialDtor, w0, State(), v)
    {
      hide Inv, Contents;
      SlotsAre(trivialDtor, State(), u);
      SlotsAre(trivialDtor, State(), v);
      ghost var w1 := State();
      if take {
        ShareKeeps(trivialDtor, w1, v, u);
        OthersSameTransitive(trivialDtor, w0, w1, Share(w1, v, u), v);
        var a := vecs[u].storage;
        bufs := bufs[a := bufs[a].(refs := bufs[a].refs + 1)];
        vecs := vecs[v := vecs[u]];
      }
    }

    /**
     insertAt and insertArrayAt: _grow opens a gap, in place, in a resized buffer or in a new
     one, and the items are copied into it. The result is the index, or an error code.
     */
    method InsertArrayAt(v: nat, index: nat, xs: seq<T>) returns (r: int)
      requires Valid() && v in vecs
      modifies this
      ensures Valid() && v in vecs && OthersSame(trivialDtor, old(State()), State(), v)
      ensures At(v) == if index <= |old(At(v))| then old(At(v))[..index] + xs + old(At(v))[index..] else old(At(v))
      ensures index > |old(At(v))| ==> r == BAD_INDEX
      ensures index <= |old(At(v))| ==> r == index || (r == NO_MEMORY && xs == [])
    {
      hide Inv, Contents, Holds, Shows;
      SlotsAre(trivialDtor, State(), v);
      if index > vecs[v].count {
        OthersSameReflexive(trivialDtor, State(), v);
        return BAD_INDEX;
      }
      var capacity := Capacity(v);
      if capacity < vecs[v].count + |xs| {
        GrowByMoving(v, index, xs);
      } else {
        GrowInPlace(v, index, xs);
      }
      capacity := Capacity(v);
      SlotsAre(trivialDtor, State(), v);
      r := if index < capacity then index else NO_MEMORY;
    }

    /** The half of _grow that needs a larger buffer. */
    method GrowByMoving(v: nat, index: nat, xs: seq<T>)
      requires Valid() && v in vecs && index <= vecs[v].count && |Slots(v)| < vecs[v].count + |xs|
      modifies this
      ensures Valid() && v in vecs && OthersSame(trivialDtor, old(State()), State(), v)
      ensures index <= |old(At(v))| && At(v) == old(At(v))[..index] + xs + old(At(v))[index..]
    {
      hide Inv, Contents, Holds, Shows, Spare;
      SlotsAre(trivialDtor, State(), v);
      ghost var w0, before := State(), At(v);
      var count := vecs[v].count;
      var newSize := count + |xs|;
      var newCapacity := Max(MIN_CAPACITY, (newSize * 3 + 1) / 2);
      ghost var after := before[..index] + xs + before[index..];
      if vecs[v].storage != 0 && count == index && trivialCopy && trivialDtor {
        EditResize(v, newCapacity);
        SlotsAre(trivialDtor, State(), v);
        ghost var w1 := State();
        FillGap(v, index, xs);
        OthersSameTransitive(trivialDtor, w0, w1, State(), v);
      } else {
        var s := if vecs[v].storage == 0 then [] else bufs[vecs[v].storage].slots;
        RawsAreSpare<T>(trivialDtor, newCapacity - newSize);
        InsertShows(trivialDtor, s, before, index, xs, Raws(newCapacity - newSize));
        Rehome(v, s[..index] + Items(xs) + s[index..count] + Raws(newCapacity - newSize), newSize);
        ContentsAre(trivialDtor, State(), v, after);
      }
    }

    /** Moves the items behind index up and copies xs into the gap, in storage that is v's alone. */
    method FillGap(v: nat, index: nat, xs: seq<T>)
      requires Valid() && v in vecs && index <= vecs[v].count && vecs[v].count + |xs| <= |Slots(v)|
      requires vecs[v].storage != 0 && vecs[v].storage in bufs && bufs[vecs[v].storage].refs == 1
      modifies this
      ensures Valid() && v in vecs && OthersSame(trivialDtor, old(State()), State(), v)
      ensures index <= |old(At(v))| && At(v) == old(At(v))[..index] + xs + old(At(v))[index..]
    {
      hide Inv, Contents, Holds, Shows, Spare;
      SlotsAre(trivialDtor, State(), v);
      ghost var before := At(v);
      var s, count := bufs[vecs[v].storage].slots, vecs[v].count;
      TailIsSpare(trivialDtor, s, count, count + |xs|);
      InsertShows(trivialDtor, s, before, index, xs, s[count + |xs|..]);
      SetSlots(v, s[..index] + Items(xs) + s[index..count] + s[count + |xs|..], count + |xs|);
      ContentsAre(trivialDtor, State(), v, before[..index] + xs + before[index..]);
    }

    /** The half of _grow that moves the items up inside the buffer. */
    method GrowInPlace(v: nat, index: nat, xs: seq<T>)
      requires Valid() && v in vecs && index <= vecs[v].count && vecs[v].count + |xs| <= |Slots(v)|
      modifies this
      ensures Valid() && v in vecs && OthersSame(trivialDtor, old(State()), State(), v)
      ensures index <= |old(At(v))| && At(v) == old(At(v))[..index] + xs + old(At(v))[index..]
    {
      hide Inv, Contents, Holds, Shows, Spare;
      SlotsAre(trivialDtor, State(), v);
      ghost var w0, before := State(), At(v);
      EditArray(v);
      SlotsAre(trivialDtor, State(), v);
      if vecs[v].storage != 0 {
        ghost var w1 := State();
        FillGap(v, index, xs);
        OthersSameTransitive(trivialDtor, w0, w1, State(), v);
      } else {
        assert before == [] && xs == [];
      }
    }

    /** removeItemsAt: _shrink closes the gap, and gives memory back when little is left. */
    method RemoveItemsAt(v: nat, index: nat, amount: nat) returns (r: int)
      requires Valid() && v in vecs
      modifies this
      ensures Valid() && v in vecs && OthersSame(trivialDtor, old(State()), State(), v)
      ensures At(v) == if index + amount <= |old(At(v))| then old(At(v))[..index] + old(At(v))[index + amount..] else old(At(v))
      ensures r == if index + amount <= |old(At(v))| then index else BAD_VALUE
    {
      hide Inv, Contents, Holds, Shows;
      SlotsAre(trivialDtor, State(), v);
      OthersSameReflexive(trivialDtor, State(), v);
      if index + amount > vecs[v].count {
        return BAD_VALUE;
      }
      r := index;
      ghost var before := At(v);
      if vecs[v].storage == 0 {
        assert before[..index] + before[index + amount..] == before;
        return;
      }
      var capacity := Capacity(v);
      if (vecs[v].count - amount) * 3 < capacity {
        ShrinkByMoving(v, index, amount);
      } else {
        ShrinkInPlace(v, index, amount);
      }
    }

    /** The half of _shrink that takes a smaller buffer. */
    method ShrinkByMoving(v: nat, index: nat, amount: nat)
      requires Valid() && v in vecs && vecs[v].storage != 0 && index + amount <= vecs[v].count
      modifies this
      ensures Valid() && v in vecs && OthersSame(trivialDtor, old(State()), State(), v)
      ensures index + amount <= |old(At(v))| && At(v) == old(At(v))[..index] + old(At(v))[index + amount..]
    {
      hide Inv, Contents;
      SlotsAre(trivialDtor, State(), v);
      ghost var w0, before := State(), At(v);
      var count := vecs[v].count;
      var newSize := count - amount;
      var newCapacity := Max(MIN_CAPACITY, newSize * 2);
      var s := bufs[vecs[v].storage].slots;
      if index == newSize && trivialCopy && trivialDtor {
        ResizeAndCut(v, newCapacity, newSize);
      } else {
        RawsAreSpare<T>(trivialDtor, newCapacity - newSize);
        RemoveShows(trivialDtor, s, before, index, amount, Raws(newCapacity - newSize));
        Rehome(v, s[..index] + s[index + amount..count] + Raws(newCapacity - newSize), newSize);
      }
      ContentsAre(trivialDtor, State(), v, before[..index] + before[index + amount..]);
    }

    /** editResize to a capacity that need not hold all items, followed by the smaller count. */
    method ResizeAndCut(v: nat, capacity: nat, count: nat)
      requires Valid() && v in vecs && trivialDtor && vecs[v].storage != 0 && count <= capacity && count <= vecs[v].count
      modifies this
      ensures Valid() && v in vecs && OthersSame(trivialDtor, old(State()), State(), v)
      ensures vecs[v].count == count && vecs[v].storage in bufs && vecs[v].storage != 0
      ensures bufs[vecs[v].storage].refs == 1 && |Slots(v)| == capacity
      ensures count <= |Slots(v)| && forall i :: 0 <= i < count ==> Slots(v)[i] == old(Slots(v)[i])
    {
      hide Inv, Contents;
      SlotsAre(trivialDtor, State(), v);
      var a := vecs[v].storage;
      var s := bufs[a].slots;
      var resized := if capacity <= |s| then s[..capacity] else s + Raws(capacity - |s|);
      if bufs[a].refs == 1 {
        SetSlots(v, resized, count);
      } else {
        Rehome(v, resized, count);
      }
    }

    /** The half of _shrink that moves the items down inside the buffer. */
    method ShrinkInPlace(v: nat, index: nat, amount: nat)
      requires Valid() && v in vecs && vecs[v].storage != 0 && index + amount <= vecs[v].count
      modifies this
      ensures Valid() && v in vecs && OthersSame(trivialDtor, old(State()), State(), v)
      ensures index + amount <= |old(At(v))| && At(v) == old(At(v))[..index] + old(At(v))[index + amount..]
    {
      hide Inv, Contents, Holds, Shows;
      SlotsAre(trivialDtor, State(), v);
      ghost var w0, before := State(), At(v);
      var count := vecs[v].count;
      var newSize := count - amount;
      EditArray(v);
      SlotsAre(trivialDtor, State(), v);
      ghost var w1 := State();
      var s := bufs[vecs[v].storage].slots;
      var left := if trivialDtor then s[newSize..] else Raws(|s| - newSize);
      TailIsSpare(trivialDtor, s, count, count);
      RawsAreSpare<T>(trivialDtor, |s| - newSize);
      RemoveShows(trivialDtor, s, before, index, amount, left);
      SetSlots(v, s[..index] + s[index + amount..count] + left, newSize);
      OthersSameTransitive(trivialDtor, w0, w1, State(), v);
      ContentsAre(trivialDtor, State(), v, before[..index] + before[index + amount..]);
    }

    /** replaceAt. */
    method ReplaceAt(v: nat, x: T, index: nat) returns (r: int)
      requires Valid() && v in vecs
      modifies this
      ensures Valid() && v in vecs && OthersSame(trivialDtor, old(State()), State(), v)
      ensures At(v) == if index < |old(At(v))| then old(At(v))[index := x] else old(At(v))
      ensures r == if index < |old(At(v))| then index else BAD_INDEX
    {
      hide Inv, Contents;
      SlotsAre(trivialDtor, State(), v);
      OthersSameReflexive(trivialDtor, State(), v);
      if index >= vecs[v].count {
        return BAD_INDEX;
      }
      ghost var w0, before := State(), At(v);
      EditArray(v);
      SlotsAre(trivialDtor, State(), v);
      ghost var w1 := State();
      SetSlots(v, bufs[vecs[v].storage].slots[index := Item(x)], vecs[v].count);
      OthersSameTransitive(trivialDtor, w0, w1, State(), v);
      ContentsAre(trivialDtor, State(), v, before[index := x]);
      r := index;
    }

    /** setCapacity: never smaller than the size, and never seen. */
    method SetCapacity(v: nat, capacity: nat) returns (r: nat)
      requires Valid() && v in vecs
      modifies this
      ensures Valid() && v in vecs && OthersSame(trivialDtor, old(State()), State(), v) && At(v) == old(At(v))
      ensures r == |Slots(v)| && (capacity > |old(At(v))| ==> r == capacity)
    {
      hide Inv, Contents;
      SlotsAre(trivialDtor, State(), v);
      OthersSameReflexive(trivialDtor, State(), v);
      if capacity <= vecs[v].count {
        r := Capacity(v);
        return;
      }
      ghost var before := At(v);
      var s, count := if vecs[v].storage == 0 then [] else bufs[vecs[v].storage].slots, vecs[v].count;
      Rehome(v, s[..count] + Raws(capacity - count), count);
      ContentsAre(trivialDtor, State(), v, before);
      r := capacity;
    }

    /** The items of a vector, read from its slots. */
    method Read(v: nat) returns (row: seq<T>)
      requires Valid() && v in vecs
      ensures row == At(v)
    {
      hide Inv, Contents;
      SlotsAre(trivialDtor, State(), v);
      var s, count := if vecs[v].storage == 0 then [] else bufs[vecs[v].storage].slots, vecs[v].count;
      row := seq(count, i requires 0 <= i < count && count <= |s| && (forall j :: 0 <= j < count ==> s[j].Item?) => s[i].value);
    }

    /** Stores a row of unchanged length in storage that is v's alone. */
    method Store(v: nat, row: seq<T>)
      requires Valid() && v in vecs && |row| == |At(v)| && vecs[v].storage != 0
      requires vecs[v].storage in bufs && bufs[vecs[v].storage].refs == 1
      modifies this
      ensures Valid() && v in vecs && At(v) == row && OthersSame(trivialDtor, old(State()), State(), v)
      ensures vecs[v].storage != 0 && vecs[v].storage in bufs && bufs[vecs[v].storage].refs == 1
    {
      hide Inv, Contents;
      SlotsAre(trivialDtor, State(), v);
      var count := vecs[v].count;
      SetSlots(v, Items(row) + bufs[vecs[v].storage].slots[count..], count);
      ContentsAre(trivialDtor, State(), v, row);
    }

    /** One item of sort that is out of order: the vector gets its own storage, and the item its place. */
    method SortStep(v: nat, cmp: (T, T) -> int, row: seq<T>, i: nat) returns (r: seq<T>)
      requires Valid() && v in vecs && At(v) == row && 0 < i < |row| && cmp(row[i - 1], row[i]) > 0
      modifies this
      ensures Valid() && v in vecs && At(v) == r && OthersSame(trivialDtor, old(State()), State(), v)
      ensures |r| == |row| && r[..i + 1] == InsertFromRight(cmp, row[..i], row[i]) && r[i + 1..] == row[i + 1..]
    {
      hide Inv, Contents, InsertFromRight, Holds, Shows, OthersSame;
      ghost var w0 := State();
      SlotsAre(trivialDtor, w0, v);
      EditArray(v);
      StorageOrNothing(trivialDtor, State(), v);
      SlotsAre(trivialDtor, State(), v);
      r := InsertStep(cmp, row, i);
      ghost var w1 := State();
      Store(v, r);
      OthersSameTransitive(trivialDtor, w0, w1, State(), v);
    }

    /** sort: stable, on this vector only; a vector already in order keeps even its shared buffer. */
    method Sort(v: nat, cmp: (T, T) -> int)
      requires Valid() && v in vecs
      modifies this
      ensures Valid() && v in vecs && OthersSame(trivialDtor, old(State()), State(), v)
      ensures At(v) == SortOf(cmp, old(At(v)))
      ensures NonDecreasing(cmp, old(At(v))) ==> State() == old(State())
    {
      hide Inv, Contents, InsertFromRight, SortOf, OthersSame;
      ghost var w0 := State();
      OthersSameReflexive(trivialDtor, w0, v);
      var row := Read(v);
      ghost var orig := row;
      SortOfStart(cmp, orig);
      var i := 1;
      while i < |row|
        invariant |row| == |orig| && 1 <= i && (i <= |row| || |row| == 0)
        invariant |row| > 0 ==> row[..i] == SortOf(cmp, orig[..i]) && row[i..] == orig[i..]
        invariant Valid() && v in vecs && At(v) == row && OthersSame(trivialDtor, w0, State(), v)
        invariant (State() == w0 && row == orig) || !NonDecreasing(cmp, orig)
      {
        SortOfStep(cmp, orig, i);
        assert row[i] == row[i..][0] && orig[i] == orig[i..][0];
        assert orig[i + 1..] == orig[i..][1..] && row[i + 1..] == row[i..][1..];
        if cmp(row[i - 1], row[i]) > 0 {
          ghost var w1 := State();
          row := SortStep(v, cmp, row, i);
          OthersSameTransitive(trivialDtor, w0, w1, State(), v);
        } else {
          InsertAtEnd(cmp, row[..i], row[i]);
          assert row[..i + 1] == row[..i] + [row[i]];
        }
        i := i + 1;
      }
      if |row| > 0 {
        assert row[..i] == row && orig[..i] == orig;
      }
    }

    /** finish_vector and the end of the vector. */
    method Finish(v: nat)
      requires Valid() && v in vecs
      modifies this
      ensures Valid() && v !in vecs && OthersSame(trivialDtor, old(State()), State(), v)
    {
      hide Inv, Contents;
      ghost var w0 := State();
      ReleaseKeeps(trivialDtor, w0, v);
      ReleaseStorage(v);
      ghost var w1 := State();
      RemoveKeeps(trivialDtor, w1, v);
      OthersSameTransitive(trivialDtor, w0, w1, w1.(vecs := w1.vecs - {v}), v);
      vecs := vecs - {v};
    }
  }

  // ----- an item that lies in the vector's own buffer -----

  /** Items from index on moved up by one, inside the buffer; the gap keeps its old bits if destruction is trivial. */
  function MovedUp<T>(trivial: bool, s: seq<Slot<T>>, count: nat, index: nat): (r: seq<Slot<T>>)
    requires index <= count < |s|
    ensures |r| == |s|
  {
    if index == count then s
    else s[..index] + [if trivial then s[index] else Raw] + s[index..count] + s[count + 1..]
  }

  /**
   The memory after _grow(index, 1), before the new item is copied into the gap: moved up in place
   by a sole owner with room, and otherwise in a new buffer while the old one is released.
   */
  function Opened<T>(trivial: bool, w: World<T>, v: nat, index: nat): World<T>
    requires v in w.vecs && w.vecs[v].storage in w.bufs && index <= w.vecs[v].count <= |SlotsOf(w, v)|
    requires w.vecs[v].storage != 0
  {
    var s, count := SlotsOf(w, v), w.vecs[v].count;
    if count < |s| && w.bufs[w.vecs[v].storage].refs == 1 then Overwrite(w, v, MovedUp(trivial, s, count, index), count + 1)
    else
      var capacity := if count < |s| then |s| else Max(MIN_CAPACITY, ((count + 1) * 3 + 1) / 2);
      Attach(Release(w, v), v, s[..index] + [Raw] + s[index..count] + Raws(capacity - count - 1), count + 1)
  }

  /** What a pointer to slot k of the buffer at a reads; nothing if the buffer was freed. */
  function Deref<T>(w: World<T>, a: nat, k: nat): (r: seq<Slot<T>>)
    ensures |r| <= 1
  {
    if a in w.bufs && k < |w.bufs[a].slots| then [w.bufs[a].slots[k]] else []
  }

  /** Whether an item of the vector survives _grow where it lies. */
  ghost predicate OwnItemSurvives<T>(trivial: bool, w: World<T>, v: nat, index: nat, k: nat)
    requires Inv(trivial, w) && v in w.vecs && index <= w.vecs[v].count && k < w.vecs[v].count
  {
    SlotsAre(trivial, w, v);
    var xs := Contents(trivial, w, v);
    || w.bufs[w.vecs[v].storage].refs > 1
    || (|xs| < |SlotsOf(w, v)| && (k < index || (k == index && trivial) || (k > index && xs[k - 1] == xs[k])))
  }

  /**
   insertAt with an item of the vector itself, such as add(v[0]) or appendVector(v): _grow comes
   first. The pointer then still reads the item exactly if another vector shares the buffer, or
   if there is room and the item is not among those that move (or moves onto an equal one).
   */
  lemma OwnItemIsReadExactly<T>(trivial: bool, w: World<T>, v: nat, index: nat, k: nat)
    requires Inv(trivial, w) && v in w.vecs && index <= w.vecs[v].count && k < w.vecs[v].count
    ensures w.vecs[v].storage in w.bufs && w.vecs[v].storage != 0 && w.vecs[v].count <= |SlotsOf(w, v)|
    ensures Deref(Opened(trivial, w, v, index), w.vecs[v].storage, k) == [Item(Contents(trivial, w, v)[k])]
            <==> OwnItemSurvives(trivial, w, v, index, k)
  {
    hide Inv, Contents, Values;
    SlotsAre(trivial, w, v);
    DetachedOk(trivial, w, v);
    NewAddress(trivial, w, v);
    var a, s, xs := w.vecs[v].storage, SlotsOf(w, v), Contents(trivial, w, v);
    if |xs| < |s| && w.bufs[a].refs == 1 {
      MovedUpAt(trivial, s, |xs|, index, k);
    }
  }

  lemma NewAddress<T>(trivial: bool, w: World<T>, v: nat)
    requires Inv(trivial, w) && v in w.vecs
    ensures w.vecs[v].storage != 0 ==> w.vecs[v].storage != w.next
  {
    hide Holds;
    assert VecOk(trivial, w, v);
    if w.vecs[v].storage != 0 {
      assert BufferOk(w, w.vecs[v].storage);
    }
  }

  lemma MovedUpAt<T>(trivial: bool, s: seq<Slot<T>>, count: nat, index: nat, k: nat)
    requires index <= count < |s| && k < count
    ensures MovedUp(trivial, s, count, index)[k]
            == if k < index then s[k] else if k > index then s[k - 1] else if trivial then s[k] else Raw
  {
  }

  lemma SortOfStart<T>(cmp: (T, T) -> int, s: seq<T>)
    ensures s == [] ==> SortOf(cmp, s) == []
    ensures s != [] ==> SortOf(cmp, s[..1]) == s[..1]
  {
    if s != [] {
      assert s[..1][..0] == [] && s[..1][0] == s[0];
      assert SortOf(cmp, s[..1]) == InsertFromRight(cmp, SortOf(cmp, s[..1][..0]), s[0]);
      assert [] + [s[0]] == s[..1];
    }
  }

  lemma SortOfStep<T>(cmp: (T, T) -> int, s: seq<T>, i: nat)
    requires i < |s|
    ensures SortOf(cmp, s[..i + 1]) == InsertFromRight(cmp, SortOf(cmp, s[..i]), s[i])
  {
    assert s[..i + 1][..i] == s[..i];
  }

  lemma StorageOrNothing<T>(trivial: bool, w: World<T>, u: nat)
    requires Inv(trivial, w) && u in w.vecs
    ensures w.vecs[u].storage == 0 ==> w.vecs[u].count == 0
  {
    hide Holds;
    assert VecOk(trivial, w, u);
  }

  lemma NextIsPositive<T>(trivial: bool, w: World<T>)
    requires Inv(trivial, w)
    ensures w.next > 0
  {
  }

  lemma DetachedOk<T>(trivial: bool, w: World<T>, v: nat)
    requires Inv(trivial, w) && v in w.vecs
    ensures w.vecs[v].storage != 0 ==> w.vecs[v].storage in w.bufs && w.bufs[w.vecs[v].storage].refs > 0
  {
    hide Holds;
    assert VecOk(trivial, w, v);
    if w.vecs[v].storage != 0 {
      assert BufferOk(w, w.vecs[v].storage);
    }
  }

  lemma CreateKeeps<T>(trivial: bool, w: World<T>, v: nat)
    requires Inv(trivial, w) && v !in w.vecs
    ensures var r := w.(vecs := w.vecs[v := Vec(0, 0)]);
            Inv(trivial, r) && OthersSame(trivial, w, r, v) && Contents(trivial, r, v) == []
  {
    hide Holds, Values, Owners;
    var r := w.(vecs := w.vecs[v := Vec(0, 0)]);
    forall a | a in r.bufs
      ensures BufferOk(r, a)
    {
      assert BufferOk(w, a);
      OwnersMove(w.vecs, v, Vec(0, 0), a);
      NotOwner(w.vecs, v, a);
    }
    forall u | u in r.vecs
      ensures VecOk(trivial, r, u)
    {
      if u != v {
        assert VecOk(trivial, w, u);
      }
    }
    assert Inv(trivial, r);
    forall u | u != v && u in w.vecs
      ensures Contents(trivial, w, u) == Contents(trivial, r, u)
    {
      assert VecOk(trivial, w, u);
      SameSlots(trivial, w, r, u);
    }
  }

  lemma NotOwner(vecs: map<nat, Vec>, v: nat, a: nat)
    requires v !in vecs
    ensures Owners(vecs, a) - {v} == Owners(vecs, a)
  {
  }

  lemma RemoveKeeps<T>(trivial: bool, w: World<T>, v: nat)
    requires Inv(trivial, w) && v in w.vecs && w.vecs[v].storage == 0
    ensures var r := w.(vecs := w.vecs - {v}); Inv(trivial, r) && OthersSame(trivial, w, r, v)
  {
    hide Holds, Values, Owners;
    var r := w.(vecs := w.vecs - {v});
    forall a | a in r.bufs
      ensures BufferOk(r, a)
    {
      assert BufferOk(w, a);
      OwnersGone(w.vecs, v, a);
      OwnerIn(w.vecs, v, a);
      CardMinus(Owners(w.vecs, a), v);
    }
    forall u | u in r.vecs
      ensures VecOk(trivial, r, u)
    {
      assert VecOk(trivial, w, u);
    }
    assert Inv(trivial, r);
    forall u | u != v && u in w.vecs
      ensures Contents(trivial, w, u) == Contents(trivial, r, u)
    {
      assert VecOk(trivial, w, u);
      SameSlots(trivial, w, r, u);
    }
  }
}
