/**
 VectorImpl over SharedBuffer: vectors that share one counted buffer until one of them changes.
 */
module SharedVector {

  // The memory is a map from addresses to buffers, so that sharing, reference counts and freeing are
  // explicit; the theorem is that none of it can be seen.

  /** A place for one item: holding a constructed item, or raw memory. */
  datatype Slot<T> = Raw | Item(value: T)

  /** SharedBuffer: mRefs, and the slots its size allows. */
  datatype Buffer<T> = Buffer(refs: nat, slots: seq<Slot<T>>)

  /** VectorImpl: mStorage (0 for null) and mCount. */
  datatype Vec = Vec(storage: nat, count: nat)

  datatype World<T> = World(bufs: map<nat, Buffer<T>>, vecs: map<nat, Vec>, next: nat)

  function Raws<T>(n: nat): (r: seq<Slot<T>>)
    ensures |r| == n && forall i :: 0 <= i < n ==> r[i].Raw?
  {
    seq(n, _ => Raw)
  }

  function Items<T>(xs: seq<T>): (r: seq<Slot<T>>)
    ensures |r| == |xs| && forall i :: 0 <= i < |xs| ==> r[i] == Item(xs[i])
  {
    seq(|xs|, i requires 0 <= i < |xs| => Item(xs[i]))
  }

  ghost predicate Constructed<T>(s: seq<Slot<T>>) { forall i :: 0 <= i < |s| ==> s[i].Item? }

  /** The first count slots are constructed; unless destruction is trivial, no other slot is. */
  ghost predicate Holds<T>(trivial: bool, s: seq<Slot<T>>, count: nat) {
    && count <= |s|
    && (forall i :: 0 <= i < count ==> s[i].Item?)
    && (!trivial ==> forall i :: count <= i < |s| ==> s[i].Raw?)
  }

  function Values<T>(s: seq<Slot<T>>): (r: seq<T>)
    requires Constructed(s)
    ensures |r| == |s| && forall i :: 0 <= i < |s| ==> r[i] == s[i].value
  {
    seq(|s|, i requires 0 <= i < |s| => s[i].value)
  }

  ghost function Owners(vecs: map<nat, Vec>, a: nat): set<nat> { set v | v in vecs && vecs[v].storage == a }

  ghost predicate VecOk<T>(trivial: bool, w: World<T>, v: nat)
    requires v in w.vecs
  {
    var x := w.vecs[v];
    if x.storage == 0 then x.count == 0 else x.storage in w.bufs && Holds(trivial, w.bufs[x.storage].slots, x.count)
  }

  ghost predicate BufferOk<T>(w: World<T>, a: nat)
    requires a in w.bufs
  {
    0 < a < w.next && w.bufs[a].refs == |Owners(w.vecs, a)| && w.bufs[a].refs > 0
  }

  /** mRefs counts the vectors that point at a buffer, every buffer has one, and all vectors hold their items. */
  ghost predicate Inv<T>(trivial: bool, w: World<T>) {
    && w.next > 0
    && (forall a :: a in w.bufs ==> BufferOk(w, a))
    && (forall v :: v in w.vecs ==> VecOk(trivial, w, v))
  }

  function SlotsOf<T>(w: World<T>, v: nat): seq<Slot<T>>
    requires v in w.vecs && (w.vecs[v].storage != 0 ==> w.vecs[v].storage in w.bufs)
  {
    if w.vecs[v].storage == 0 then [] else w.bufs[w.vecs[v].storage].slots
  }

  lemma SlotsHold<T>(trivial: bool, w: World<T>, v: nat)
    requires Inv(trivial, w) && v in w.vecs
    ensures VecOk(trivial, w, v) && Holds(trivial, SlotsOf(w, v), w.vecs[v].count)
  {
    hide BufferOk;
    assert VecOk(trivial, w, v);
  }

  /** The sequence a vector stands for. */
  ghost function Contents<T>(trivial: bool, w: World<T>, v: nat): seq<T>
    requires Inv(trivial, w) && v in w.vecs
  {
    SlotsHold(trivial, w, v);
    Values(SlotsOf(w, v)[..w.vecs[v].count])
  }

  /** No other vector can tell the difference. */
  ghost predicate OthersSame<T>(trivial: bool, w: World<T>, w': World<T>, v: nat)
    requires Inv(trivial, w) && Inv(trivial, w')
  {
    && (forall u :: u != v ==> (u in w.vecs <==> u in w'.vecs))
    && (forall u :: u != v && u in w.vecs ==> Contents(trivial, w, u) == Contents(trivial, w', u))
  }

  // ----- counting owners -----

  lemma OwnersMove(vecs: map<nat, Vec>, v: nat, x: Vec, a: nat)
    ensures Owners(vecs[v := x], a) == if x.storage == a then Owners(vecs, a) + {v} else Owners(vecs, a) - {v}
  {
  }

  lemma OwnersGone(vecs: map<nat, Vec>, v: nat, a: nat)
    ensures Owners(vecs - {v}, a) == Owners(vecs, a) - {v}
  {
  }

  lemma CardMinus(s: set<nat>, v: nat)
    ensures |s - {v}| == if v in s then |s| - 1 else |s|
  {
    if v !in s {
      assert s - {v} == s;
    }
  }

  /** The one owner of an unshared buffer. */
  lemma SoleOwner<T>(w: World<T>, v: nat, u: nat)
    requires v in w.vecs && u in w.vecs && w.vecs[v].storage == w.vecs[u].storage
    requires |Owners(w.vecs, w.vecs[v].storage)| == 1
    ensures u == v
  {
    var s := Owners(w.vecs, w.vecs[v].storage);
    CardMinus(s, v);
    assert |s - {v}| == 0;
    assert u !in s - {v};
  }

  // ----- the four changes of memory -----

  /** release_storage, and the vector left without storage. */
  function Release<T>(w: World<T>, v: nat): World<T>
    requires v in w.vecs && (w.vecs[v].storage != 0 ==> w.vecs[v].storage in w.bufs)
  {
    var a := w.vecs[v].storage;
    var vecs := w.vecs[v := Vec(0, 0)];
    if a == 0 then w.(vecs := vecs)
    else if w.bufs[a].refs <= 1 then w.(bufs := w.bufs - {a}, vecs := vecs)
    else w.(bufs := w.bufs[a := w.bufs[a].(refs := w.bufs[a].refs - 1)], vecs := vecs)
  }

  /** A new buffer of one owner, for a vector without storage. */
  function Attach<T>(w: World<T>, v: nat, slots: seq<Slot<T>>, count: nat): World<T> {
    World(w.bufs[w.next := Buffer(1, slots)], w.vecs[v := Vec(w.next, count)], w.next + 1)
  }

  /** A change inside an unshared buffer. */
  function Overwrite<T>(w: World<T>, v: nat, slots: seq<Slot<T>>, count: nat): World<T>
    requires v in w.vecs
  {
    var a := w.vecs[v].storage;
    w.(bufs := w.bufs[a := Buffer(1, slots)], vecs := w.vecs[v := Vec(a, count)])
  }

  /** A vector without storage becomes a copy of u. */
  function Share<T>(w: World<T>, v: nat, u: nat): World<T>
    requires u in w.vecs && w.vecs[u].storage in w.bufs
  {
    var a := w.vecs[u].storage;
    w.(bufs := w.bufs[a := w.bufs[a].(refs := w.bufs[a].refs + 1)], vecs := w.vecs[v := w.vecs[u]])
  }

  lemma ReleaseKeeps<T>(trivial: bool, w: World<T>, v: nat)
    requires Inv(trivial, w) && v in w.vecs
    ensures VecOk(trivial, w, v) && Inv(trivial, Release(w, v))
    ensures OthersSame(trivial, w, Release(w, v), v)
    ensures Release(w, v).vecs[v] == Vec(0, 0) && Release(w, v).next == w.next
  {
    hide Holds, Values, Owners;
    assert VecOk(trivial, w, v);
    var r, a0 := Release(w, v), w.vecs[v].storage;
    forall a | a in r.bufs
      ensures BufferOk(r, a)
    {
      assert BufferOk(w, a);
      OwnersMove(w.vecs, v, Vec(0, 0), a);
      CardMinus(Owners(w.vecs, a), v);
      OwnerIn(w.vecs, v, a);
    }
    forall u | u in r.vecs
      ensures VecOk(trivial, r, u)
    {
      if u != v {
        assert VecOk(trivial, w, u);
        Unfreed(trivial, w, v, u);
      }
    }
    assert Inv(trivial, r);
    forall u | u != v && u in w.vecs
      ensures Contents(trivial, w, u) == Contents(trivial, r, u)
    {
      Unfreed(trivial, w, v, u);
      SameSlots(trivial, w, r, u);
    }
  }

  lemma OwnerIn(vecs: map<nat, Vec>, v: nat, a: nat)
    requires v in vecs
    ensures v in Owners(vecs, a) <==> vecs[v].storage == a
  {
  }

  /** A buffer somebody else points at survives the release. */
  lemma Unfreed<T>(trivial: bool, w: World<T>, v: nat, u: nat)
    requires Inv(trivial, w) && v in w.vecs && u in w.vecs && u != v
    ensures VecOk(trivial, w, v) && VecOk(trivial, w, u)
    ensures var a := w.vecs[u].storage; a != 0 ==> a in Release(w, v).bufs && Release(w, v).bufs[a].slots == w.bufs[a].slots
  {
    hide Holds;
    assert VecOk(trivial, w, v) && VecOk(trivial, w, u);
    var a := w.vecs[u].storage;
    if a != 0 && a == w.vecs[v].storage && w.bufs[a].refs <= 1 {
      assert BufferOk(w, a);
      SoleOwner(w, v, u);
    }
  }

  /** Contents depend on the slots and the count only. */
  lemma SameSlots<T>(trivial: bool, w: World<T>, w': World<T>, u: nat)
    requires Inv(trivial, w) && Inv(trivial, w') && u in w.vecs && u in w'.vecs && w.vecs[u] == w'.vecs[u]
    requires var a := w.vecs[u].storage; a != 0 ==> a in w.bufs && a in w'.bufs && w.bufs[a].slots == w'.bufs[a].slots
    ensures Contents(trivial, w, u) == Contents(trivial, w', u)
  {
    hide Inv, Values;
  }

  lemma AttachKeeps<T>(trivial: bool, w: World<T>, v: nat, slots: seq<Slot<T>>, count: nat)
    requires Inv(trivial, w) && v in w.vecs && w.vecs[v].storage == 0 && Holds(trivial, slots, count)
    ensures var r := Attach(w, v, slots, count); Inv(trivial, r) && OthersSame(trivial, w, r, v)
  {
    hide Holds, Values, Owners;
    var r := Attach(w, v, slots, count);
    assert w.next !in w.bufs by {
      assert forall a :: a in w.bufs ==> BufferOk(w, a);
    }
    forall a | a in r.bufs
      ensures BufferOk(r, a)
    {
      OwnersMove(w.vecs, v, Vec(w.next, count), a);
      OwnerIn(w.vecs, v, a);
      if a == w.next {
        Unowned(trivial, w);
      } else {
        assert BufferOk(w, a);
        CardMinus(Owners(w.vecs, a), v);
      }
    }
    forall u | u in r.vecs
      ensures VecOk(trivial, r, u)
    {
      if u != v {
        assert VecOk(trivial, w, u);
      }
    }
    assert Inv(trivial, r);
    forall u | u != v && u in w.vecs
      ensures Contents(trivial, w, u) == Contents(trivial, r, u)
    {
      assert VecOk(trivial, w, u);
      SameSlots(trivial, w, r, u);
    }
  }

  lemma Unowned<T>(trivial: bool, w: World<T>)
    requires Inv(trivial, w)
    ensures Owners(w.vecs, w.next) == {}
  {
    hide Holds;
    forall v | v in w.vecs
      ensures w.vecs[v].storage != w.next
    {
      assert VecOk(trivial, w, v);
      if w.vecs[v].storage != 0 {
        assert BufferOk(w, w.vecs[v].storage);
      }
    }
  }

  lemma OverwriteKeeps<T>(trivial: bool, w: World<T>, v: nat, slots: seq<Slot<T>>, count: nat)
    requires Inv(trivial, w) && v in w.vecs && w.vecs[v].storage in w.bufs && w.bufs[w.vecs[v].storage].refs == 1
    requires Holds(trivial, slots, count)
    ensures var r := Overwrite(w, v, slots, count); Inv(trivial, r) && OthersSame(trivial, w, r, v)
  {
    hide Holds, Values, Owners;
    var r, a0 := Overwrite(w, v, slots, count), w.vecs[v].storage;
    assert BufferOk(w, a0);
    forall a | a in r.bufs
      ensures BufferOk(r, a)
    {
      assert BufferOk(w, a);
      OwnersMove(w.vecs, v, Vec(a0, count), a);
      OwnerIn(w.vecs, v, a);
      CardMinus(Owners(w.vecs, a), v);
      if a == a0 {
        assert Owners(w.vecs, a) + {v} == Owners(w.vecs, a);
      }
    }
    forall u | u in r.vecs
      ensures VecOk(trivial, r, u)
    {
      if u != v {
        assert VecOk(trivial, w, u);
        if w.vecs[u].storage == a0 {
          SoleOwner(w, v, u);
        }
      }
    }
    assert Inv(trivial, r);
    forall u | u != v && u in w.vecs
      ensures Contents(trivial, w, u) == Contents(trivial, r, u)
    {
      assert VecOk(trivial, w, u);
      if w.vecs[u].storage == a0 {
        SoleOwner(w, v, u);
      }
      SameSlots(trivial, w, r, u);
    }
  }

  lemma ShareKeeps<T>(trivial: bool, w: World<T>, v: nat, u: nat)
    requires Inv(trivial, w) && v in w.vecs && u in w.vecs && w.vecs[v].storage == 0 && w.vecs[u].storage in w.bufs
    ensures var r := Share(w, v, u); Inv(trivial, r) && OthersSame(trivial, w, r, v) && Contents(trivial, r, v) == Contents(trivial, w, u)
  {
    hide Holds, Values, Owners;
    var r, a0 := Share(w, v, u), w.vecs[u].storage;
    forall a | a in r.bufs
      ensures BufferOk(r, a)
    {
      assert BufferOk(w, a);
      OwnersMove(w.vecs, v, w.vecs[u], a);
      OwnerIn(w.vecs, v, a);
      CardMinus(Owners(w.vecs, a), v);
    }
    forall x | x in r.vecs
      ensures VecOk(trivial, r, x)
    {
      assert VecOk(trivial, w, if x == v then u else x);
    }
    assert Inv(trivial, r);
    forall x | x != v && x in w.vecs
      ensures Contents(trivial, w, x) == Contents(trivial, r, x)
    {
      assert VecOk(trivial, w, x);
      SameSlots(trivial, w, r, x);
    }
    assert SlotsOf(r, v) == SlotsOf(w, u);
  }
}
