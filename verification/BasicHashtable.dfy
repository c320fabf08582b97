/**
 BasicHashtable: open addressing with double hashing and collision flags that outlive removals.
 */
module BasicHashtable {

  // A bucket's cookie is modelled by its parts: the present flag (the constructor), the collision flag
  // and the 30-bit hash code. Storage shared by copies of a table (copy on write) is not part of this
  // module.
  import opened Division
  import opened Probing

  datatype Option<T> = None | Some(value: T)

  datatype Entry<K, V> = Entry(key: K, value: V)

  datatype Bucket<K, V> =
    | Vacant(collision: bool)
    | Occupied(collision: bool, hash: int, entry: Entry<K, V>)

  type Table<K, V> = seq<Bucket<K, V>>

  predicate Matches<K(==), V>(b: Bucket<K, V>, key: K) { b.Occupied? && b.entry.key == key }

  predicate IsFilled<K, V>(b: Bucket<K, V>) { b.Occupied? || b.collision }

  // ----- what is counted and stored -----

  function Occupancy<K, V>(bs: Table<K, V>): (n: nat)
    ensures n <= |bs|
  {
    if bs == [] then 0 else Occupancy(bs[..|bs| - 1]) + (if bs[|bs| - 1].Occupied? then 1 else 0)
  }

  function FilledCount<K, V>(bs: Table<K, V>): (n: nat)
    ensures n <= |bs|
  {
    if bs == [] then 0 else FilledCount(bs[..|bs| - 1]) + (if IsFilled(bs[|bs| - 1]) then 1 else 0)
  }

  /** The entries of the table; duplicates are allowed. */
  ghost function Contents<K, V>(bs: Table<K, V>): multiset<Entry<K, V>> {
    if bs == [] then multiset{} else Contents(bs[..|bs| - 1]) + EntryOf(bs[|bs| - 1])
  }

  ghost function EntryOf<K, V>(b: Bucket<K, V>): multiset<Entry<K, V>> {
    if b.Occupied? then multiset{b.entry} else multiset{}
  }

  lemma {:induction false} OccupancyUpdate<K, V>(bs: Table<K, V>, i: nat, b: Bucket<K, V>)
    requires i < |bs|
    ensures Occupancy(bs[i := b]) == Occupancy(bs) - (if bs[i].Occupied? then 1 else 0) + (if b.Occupied? then 1 else 0)
  {
    var n := |bs| - 1;
    if i == n {
      assert bs[i := b][..n] == bs[..n];
    } else {
      assert bs[i := b][..n] == bs[..n][i := b];
      OccupancyUpdate(bs[..n], i, b);
    }
  }

  lemma {:induction false} FilledUpdate<K, V>(bs: Table<K, V>, i: nat, b: Bucket<K, V>)
    requires i < |bs|
    ensures FilledCount(bs[i := b]) == FilledCount(bs) - (if IsFilled(bs[i]) then 1 else 0) + (if IsFilled(b) then 1 else 0)
  {
    var n := |bs| - 1;
    if i == n {
      assert bs[i := b][..n] == bs[..n];
    } else {
      assert bs[i := b][..n] == bs[..n][i := b];
      FilledUpdate(bs[..n], i, b);
    }
  }

  lemma {:induction false} ContentsUpdate<K, V>(bs: Table<K, V>, i: nat, b: Bucket<K, V>)
    requires i < |bs|
    ensures Contents(bs[i := b]) + EntryOf(bs[i]) == Contents(bs) + EntryOf(b)
  {
    var n := |bs| - 1;
    var us := bs[i := b];
    hide EntryOf, Contents;
    if i == n {
      assert us[..n] == bs[..n];
      Swap(Contents(bs[..n]), EntryOf(bs[i]), EntryOf(b));
    } else {
      assert us[..n] == bs[..n][i := b];
      ContentsUpdate(bs[..n], i, b);
      Shuffle(Contents(us[..n]), EntryOf(bs[i]), Contents(bs[..n]), EntryOf(b), EntryOf(bs[n]));
    }
  }

  lemma Swap<T>(c: multiset<T>, x: multiset<T>, y: multiset<T>)
    ensures (c + y) + x == (c + x) + y
  {
  }

  lemma Shuffle<T>(a: multiset<T>, x: multiset<T>, c: multiset<T>, y: multiset<T>, m: multiset<T>)
    requires a + x == c + y
    ensures (a + m) + x == (c + m) + y
  {
    Swap(a, m, x);
    Swap(c, m, y);
  }

  /** A table whose fill count is below its length has a bucket that is neither present nor collided. */
  lemma {:induction false} FreeBucket<K, V>(bs: Table<K, V>) returns (i: nat)
    requires FilledCount(bs) < |bs|
    ensures i < |bs| && !IsFilled(bs[i])
  {
    var n := |bs| - 1;
    if !IsFilled(bs[n]) {
      i := n;
    } else {
      i := FreeBucket(bs[..n]);
    }
  }

  lemma {:induction false} VacantBucket<K, V>(bs: Table<K, V>) returns (i: nat)
    requires Occupancy(bs) < |bs|
    ensures i < |bs| && bs[i].Vacant?
  {
    var n := |bs| - 1;
    if bs[n].Vacant? {
      i := n;
    } else {
      i := VacantBucket(bs[..n]);
    }
  }

  lemma {:induction false} EmptyOccupancy<K, V>(bs: Table<K, V>, i: nat)
    requires i < |bs| && bs[i].Occupied?
    ensures Occupancy(bs) > 0
  {
    var n := |bs| - 1;
    if i < n {
      EmptyOccupancy(bs[..n], i);
    }
  }

  lemma {:induction false} InContents<K, V>(bs: Table<K, V>, e: Entry<K, V>)
    ensures e in Contents(bs) <==> exists i :: 0 <= i < |bs| && bs[i].Occupied? && bs[i].entry == e
  {
    if bs != [] {
      var n := |bs| - 1;
      InContents(bs[..n], e);
      assert Contents(bs) == Contents(bs[..n]) + EntryOf(bs[n]);
      assert forall i :: 0 <= i < n ==> bs[..n][i] == bs[i];
    }
  }

  // ----- the collision chains -----

  ghost predicate Sized<K, V>(bs: Table<K, V>) { 2 < |bs| && IsPrime(|bs|) }

  predicate IsTrimmed(h: int) { 0 <= h < TRIMMED_LIMIT }

  /** Every bucket before step k of the hash code's probe sequence carries the collision flag. */
  ghost predicate OnChain<K, V>(bs: Table<K, V>, h: int, k: nat)
    requires 2 < |bs| && IsTrimmed(h)
  {
    forall j: nat :: j < k ==> bs[Probe(h, |bs|, j)].collision
  }

  ghost predicate Reached<K, V>(bs: Table<K, V>, h: int, i: int)
    requires 2 < |bs| && IsTrimmed(h)
  {
    exists k: nat :: k < |bs| && Probe(h, |bs|, k) == i && OnChain(bs, h, k)
  }

  /** The invariant that find relies on: each entry is reached along collided buckets. */
  ghost predicate Reachable<K, V>(bs: Table<K, V>) {
    2 < |bs| && forall i :: 0 <= i < |bs| && bs[i].Occupied? ==> IsTrimmed(bs[i].hash) && Reached(bs, bs[i].hash, i)
  }

  /** Every entry is stored under the trimmed hash code of its key. */
  ghost predicate Consistent<K, V>(bs: Table<K, V>, hashOf: K -> int) {
    forall i :: 0 <= i < |bs| && bs[i].Occupied? ==>
      var h := hashOf(bs[i].entry.key);
      0 <= h < HASH_LIMIT && bs[i].hash == TrimHash(h)
  }

  /** A match at step k of its own chain has collided buckets before it. */
  lemma EntryOnChain<K, V>(bs: Table<K, V>, h: int, k: nat)
    requires Sized(bs) && Reachable(bs) && IsTrimmed(h) && k < |bs|
    requires var b := bs[Probe(h, |bs|, k)]; b.Occupied? && b.hash == h
    ensures OnChain(bs, h, k)
  {
    hide IsPrime, Probe;
    var i := Probe(h, |bs|, k);
    assert Reached(bs, h, i);
    var k': nat :| k' < |bs| && Probe(h, |bs|, k') == i && OnChain(bs, h, k');
    if k' < k {
      ProbeIsInjective(h, |bs|, k', k);
    } else if k < k' {
      ProbeIsInjective(h, |bs|, k, k');
    }
  }

  /** Past a bucket without the collision flag there is no entry of this chain. */
  lemma NothingBeyond<K, V>(bs: Table<K, V>, h: int, k: nat, j: nat)
    requires Sized(bs) && Reachable(bs) && IsTrimmed(h) && k < j < |bs|
    requires !bs[Probe(h, |bs|, k)].collision
    ensures var b := bs[Probe(h, |bs|, j)]; !(b.Occupied? && b.hash == h)
  {
    hide IsPrime, Probe;
    var b := bs[Probe(h, |bs|, j)];
    if b.Occupied? && b.hash == h {
      EntryOnChain(bs, h, j);
    }
  }

  /** The search from step last stops at a bucket without the collision flag. */
  lemma StopExists<K, V>(bs: Table<K, V>, h: int, last: int) returns (m: nat)
    requires Sized(bs) && IsTrimmed(h) && -1 <= last < |bs| && FilledCount(bs) < |bs|
    requires last >= 0 ==> OnChain(bs, h, last)
    requires last >= 0 ==> bs[Probe(h, |bs|, last)].Occupied? || FilledCount(bs) + 1 < |bs|
    ensures last < m < |bs| && !bs[Probe(h, |bs|, m)].collision
  {
    hide IsPrime, Probe;
    var i: nat;
    if last >= 0 && !bs[Probe(h, |bs|, last)].Occupied? {
      var x := Probe(h, |bs|, last);
      var marked := bs[x := Vacant(true)];
      FilledUpdate(bs, x, Vacant(true));
      i := FreeBucket(marked);
    } else {
      i := FreeBucket(bs);
    }
    m := ProbeReachesAll(h, |bs|, i);
  }

  // ----- find -----

  /** The index is where an earlier find for this hash code left off: step last of its chain. */
  ghost predicate Resumes<K, V>(bs: Table<K, V>, h: int, index: int, last: int)
    requires 2 < |bs| && IsTrimmed(h)
  {
    && -1 <= last < |bs|
    && (index < 0 <==> last == -1)
    && (last >= 0 ==> Probe(h, |bs|, last) == index && OnChain(bs, h, last))
    && (last >= 0 ==> bs[Probe(h, |bs|, last)].Occupied? || FilledCount(bs) + 1 < |bs|)
  }

  /** No bucket strictly between steps a and b of the chain matches. */
  ghost predicate NoMatch<K, V>(bs: Table<K, V>, h: int, key: K, a: int, b: int)
    requires 2 < |bs| && IsTrimmed(h)
  {
    forall j: nat :: a < j < b ==> !Matches(bs[Probe(h, |bs|, j)], key)
  }

  /** The key is only stored under its own hash code. */
  ghost predicate OwnHash<K, V>(bs: Table<K, V>, h: int, key: K) {
    forall i :: 0 <= i < |bs| && Matches(bs[i], key) ==> bs[i].hash == h
  }

  /**
   find: returns the first matching bucket after step last of the key's chain, or
   -1 if there is none. It may be resumed from the bucket it returned.
   */
  method Find<K(==), V>(bs: Table<K, V>, size: nat, index: int, hash: int, key: K, ghost last: int)
    returns (r: int, ghost step: nat)
    requires 0 <= hash < HASH_LIMIT && Sized(bs) && Reachable(bs) && OwnHash(bs, TrimHash(hash), key)
    requires size == Occupancy(bs) && FilledCount(bs) < |bs|
    requires Resumes(bs, TrimHash(hash), index, last)
    ensures r == -1 || (0 <= r < |bs| && Matches(bs[r], key))
    ensures var h := TrimHash(hash);
            && (r == -1 ==> NoMatch(bs, h, key, last, |bs|))
            && (r != -1 ==> last < step < |bs| && Probe(h, |bs|, step) == r && NoMatch(bs, h, key, last, step))
            && (r != -1 ==> Resumes(bs, h, r, step))
  {
    hide IsPrime, Probe, TrimHash, ChainStart, ChainIncrement, ChainSeek, FilledCount, Reachable;
    step := 0;
    if size == 0 {
      NoEntries(bs, TrimHash(hash), key, last);
      return -1, 0;
    }
    var h := TrimHash(hash);
    var i := index;
    ghost var k := last;
    if index < 0 {
      i := ChainStart(h, |bs|);
      k := 0;
      ProbeStart(h, |bs|);
      if bs[i].Occupied? {
        if bs[i].entry.key == key {
          EntryOnChain(bs, h, 0);
          return i, 0;
        }
      } else if !bs[i].collision {
        NoMatchAfter(bs, h, key, 0);
        return -1, 0;
      }
    }
    ghost var m := StopAfter(bs, h, index, last, k, key);
    var inc := ChainIncrement(h, |bs|);
    while true
      invariant last <= k < m < |bs| && 0 <= k && i == Probe(h, |bs|, k)
      invariant NoMatch(bs, h, key, last, k + 1)
      decreases m - k
    {
      ProbeNext(h, |bs|, k);
      i := ChainSeek(i, inc, |bs|);
      k := k + 1;
      if bs[i].Occupied? {
        if bs[i].hash == h && bs[i].entry.key == key {
          EntryOnChain(bs, h, k);
          return i, k;
        }
      }
      if !bs[i].collision {
        NoMatchAfter(bs, h, key, k);
        return -1, 0;
      }
    }
  }

  lemma ProbeStart(h: int, n: int)
    requires IsTrimmed(h) && 2 < n
    ensures Probe(h, n, 0) == ChainStart(h, n)
  {
  }

  lemma ProbeNext(h: int, n: int, k: nat)
    requires IsTrimmed(h) && 2 < n
    ensures Probe(h, n, k + 1) == ChainSeek(Probe(h, n, k), ChainIncrement(h, n), n)
  {
  }

  lemma NoEntries<K, V>(bs: Table<K, V>, h: int, key: K, last: int)
    requires 2 < |bs| && IsTrimmed(h) && Occupancy(bs) == 0
    ensures NoMatch(bs, h, key, last, |bs|)
  {
    forall j: nat | last < j < |bs| ensures !Matches(bs[Probe(h, |bs|, j)], key) {
      if bs[Probe(h, |bs|, j)].Occupied? {
        EmptyOccupancy(bs, Probe(h, |bs|, j));
      }
    }
  }

  lemma NoMatchAfter<K, V>(bs: Table<K, V>, h: int, key: K, k: nat)
    requires Sized(bs) && Reachable(bs) && IsTrimmed(h) && OwnHash(bs, h, key) && k < |bs|
    requires !bs[Probe(h, |bs|, k)].collision
    ensures NoMatch(bs, h, key, k, |bs|)
  {
    hide IsPrime, Probe, Reachable;
    forall j: nat | k < j < |bs| ensures !Matches(bs[Probe(h, |bs|, j)], key) {
      NothingBeyond(bs, h, k, j);
    }
  }

  /** Once the first bucket was looked at, the loop still stops before the chain wraps around. */
  lemma StopAfter<K, V>(bs: Table<K, V>, h: int, index: int, last: int, k: int, key: K) returns (m: nat)
    requires Sized(bs) && IsTrimmed(h) && FilledCount(bs) < |bs| && Resumes(bs, h, index, last)
    requires if index < 0 then k == 0 && IsFilled(bs[Probe(h, |bs|, 0)]) else k == last
    ensures k < m < |bs| && !bs[Probe(h, |bs|, m)].collision
  {
    hide IsPrime, Probe;
    if index < 0 && bs[Probe(h, |bs|, 0)].Occupied? {
      m := StopExists(bs, h, 0);
    } else {
      m := StopExists(bs, h, last);
    }
  }

  /** Step b is that of the first match after step a. */
  ghost predicate NextMatch<K, V>(bs: Table<K, V>, h: int, key: K, a: int, b: int)
    requires 2 < |bs| && IsTrimmed(h)
  {
    0 <= b < |bs| && Matches(bs[Probe(h, |bs|, b)], key) && a < b && NoMatch(bs, h, key, a, b)
  }

  function StepBefore(steps: seq<nat>, t: nat): int
    requires t <= |steps|
  {
    if t == 0 then -1 else steps[t - 1]
  }

  /** Each step is that of the first match after the step before it. */
  ghost predicate VisitsInOrder<K, V>(bs: Table<K, V>, h: int, key: K, steps: seq<nat>)
    requires 2 < |bs| && IsTrimmed(h)
  {
    forall t :: 0 <= t < |steps| ==> NextMatch(bs, h, key, StepBefore(steps, t), steps[t])
  }

  /** steps are the steps of a chain of find calls that started at -1 and ended with -1. */
  ghost predicate Enumerates<K, V>(bs: Table<K, V>, h: int, key: K, steps: seq<nat>)
    requires 2 < |bs| && IsTrimmed(h)
  {
    VisitsInOrder(bs, h, key, steps) && NoMatch(bs, h, key, StepBefore(steps, |steps|), |bs|)
  }

  /** The next match is no later than any match further on. */
  lemma NotSkipped<K, V>(bs: Table<K, V>, h: int, key: K, a: int, b: int, k: nat)
    requires 2 < |bs| && IsTrimmed(h) && NextMatch(bs, h, key, a, b)
    ensures a < b && (a < k < |bs| && Matches(bs[Probe(h, |bs|, k)], key) ==> b <= k)
  {
    hide Probe;
  }

  lemma {:induction false} StepIsListed<K, V>(bs: Table<K, V>, h: int, key: K, steps: seq<nat>, k: nat, t: nat)
    requires 2 < |bs| && IsTrimmed(h) && Enumerates(bs, h, key, steps) && k < |bs|
    requires Matches(bs[Probe(h, |bs|, k)], key) && t <= |steps|
    requires StepBefore(steps, t) < k
    ensures exists s :: t <= s < |steps| && steps[s] == k
    decreases |steps| - t
  {
    hide Probe, NextMatch;
    if t < |steps| {
      NotSkipped(bs, h, key, StepBefore(steps, t), steps[t], k);
      if steps[t] != k {
        StepIsListed(bs, h, key, steps, k, t + 1);
      }
    }
  }

  lemma {:induction false} StepsIncrease<K, V>(bs: Table<K, V>, h: int, key: K, steps: seq<nat>, s: nat, t: nat)
    requires 2 < |bs| && IsTrimmed(h) && Enumerates(bs, h, key, steps) && s < t < |steps|
    ensures steps[s] < steps[t]
    decreases t - s
  {
    hide Probe, NextMatch, NoMatch;
    NotSkipped(bs, h, key, StepBefore(steps, t), steps[t], 0);
    if s + 1 < t {
      StepsIncrease(bs, h, key, steps, s, t - 1);
    }
  }

  /** Repeated find visits every matching bucket exactly once. */
  lemma EachMatchOnce<K, V>(bs: Table<K, V>, h: int, key: K, steps: seq<nat>, i: int) returns (t: nat)
    requires Sized(bs) && Reachable(bs) && IsTrimmed(h) && OwnHash(bs, h, key) && Enumerates(bs, h, key, steps)
    requires 0 <= i < |bs| && Matches(bs[i], key)
    ensures t < |steps| && Probe(h, |bs|, steps[t]) == i
    ensures forall s :: 0 <= s < |steps| && s != t ==> Probe(h, |bs|, steps[s]) != i
  {
    hide IsPrime, Probe;
    assert Reached(bs, h, i);
    var k: nat :| k < |bs| && Probe(h, |bs|, k) == i && OnChain(bs, h, k);
    StepIsListed(bs, h, key, steps, k, 0);
    t :| 0 <= t < |steps| && steps[t] == k;
    forall s | 0 <= s < |steps| && s != t ensures Probe(h, |bs|, steps[s]) != i {
      if s < t {
        StepsIncrease(bs, h, key, steps, s, t);
        ProbeIsInjective(h, |bs|, steps[s], steps[t]);
      } else {
        StepsIncrease(bs, h, key, steps, t, s);
        ProbeIsInjective(h, |bs|, steps[t], steps[s]);
      }
    }
  }

  /** The client's loop: find from -1, then from each index found, until -1 comes back. */
  method FindAll<K(==), V>(bs: Table<K, V>, size: nat, hash: int, key: K) returns (found: seq<int>)
    requires 0 <= hash < HASH_LIMIT && Sized(bs) && Reachable(bs) && OwnHash(bs, TrimHash(hash), key)
    requires size == Occupancy(bs) && FilledCount(bs) < |bs|
    ensures forall i :: i in found <==> 0 <= i < |bs| && Matches(bs[i], key)
    ensures forall s, t :: 0 <= s < t < |found| ==> found[s] != found[t]
  {
    hide IsPrime, Probe, TrimHash, Occupancy, FilledCount, Reachable, NoMatch, OnChain, VisitsInOrder;
    var h := TrimHash(hash);
    VisitNothing(bs, h, key);
    found := [];
    ghost var steps: seq<nat> := [];
    var index := -1;
    ghost var last: int := -1;
    while true
      invariant |steps| == |found| && last == StepBefore(steps, |steps|)
      invariant Resumes(bs, h, index, last) && VisitsInOrder(bs, h, key, steps)
      invariant forall t :: 0 <= t < |steps| ==> found[t] == Probe(h, |bs|, steps[t])
      decreases |bs| - last
    {
      ghost var step;
      index, step := Find(bs, size, index, hash, key, last);
      if index == -1 {
        break;
      }
      VisitOneMore(bs, h, key, steps, step);
      found := found + [index];
      steps := steps + [step];
      last := step;
    }
    AllFound(bs, h, key, steps, found);
  }

  lemma VisitNothing<K, V>(bs: Table<K, V>, h: int, key: K)
    requires 2 < |bs| && IsTrimmed(h)
    ensures VisitsInOrder(bs, h, key, [])
  {
  }

  lemma VisitOneMore<K, V>(bs: Table<K, V>, h: int, key: K, steps: seq<nat>, step: nat)
    requires 2 < |bs| && IsTrimmed(h) && VisitsInOrder(bs, h, key, steps)
    requires NextMatch(bs, h, key, StepBefore(steps, |steps|), step)
    ensures VisitsInOrder(bs, h, key, steps + [step])
  {
    hide NextMatch;
    var r := steps + [step];
    forall t | 0 <= t < |r|
      ensures NextMatch(bs, h, key, StepBefore(r, t), r[t])
    {
      assert StepBefore(r, t) == StepBefore(steps, t);
    }
  }

  /** Finding stops with nothing missed and nothing repeated. */
  lemma AllFound<K, V>(bs: Table<K, V>, h: int, key: K, steps: seq<nat>, found: seq<int>)
    requires Sized(bs) && Reachable(bs) && IsTrimmed(h) && OwnHash(bs, h, key) && Enumerates(bs, h, key, steps)
    requires |steps| == |found| && forall t :: 0 <= t < |steps| ==> found[t] == Probe(h, |bs|, steps[t])
    ensures forall i :: i in found <==> 0 <= i < |bs| && Matches(bs[i], key)
    ensures forall s, t :: 0 <= s < t < |found| ==> found[s] != found[t]
  {
    hide IsPrime, Probe, NoMatch, OwnHash, Reachable;
    forall i | 0 <= i < |bs| && Matches(bs[i], key)
      ensures i in found
    {
      var t := EachMatchOnce(bs, h, key, steps, i);
      assert found[t] == i;
    }
    forall s, t | 0 <= s < t < |found|
      ensures found[s] != found[t]
    {
      var u := EachMatchOnce(bs, h, key, steps, found[s]);
    }
  }

  // ----- placing an entry -----

  /** us is bs with the collision flag added to some occupied buckets. */
  ghost predicate Marked<K, V>(bs: Table<K, V>, us: Table<K, V>) {
    |us| == |bs| && forall i :: 0 <= i < |bs| ==> us[i] == bs[i] || (bs[i].Occupied? && us[i] == bs[i].(collision := true))
  }

  lemma {:induction false} MarkedCounts<K, V>(bs: Table<K, V>, us: Table<K, V>)
    requires Marked(bs, us)
    ensures Occupancy(us) == Occupancy(bs) && FilledCount(us) == FilledCount(bs) && Contents(us) == Contents(bs)
  {
    if bs != [] {
      var n := |bs| - 1;
      MarkedCounts(bs[..n], us[..n]);
      assert EntryOf(us[n]) == EntryOf(bs[n]);
    }
  }

  /** us has every collision flag of bs, so every chain of bs is one of us. */
  ghost predicate KeepsFlags<K, V>(bs: Table<K, V>, us: Table<K, V>) {
    |us| == |bs| && forall i :: 0 <= i < |bs| && bs[i].collision ==> us[i].collision
  }

  lemma ReachedIsKept<K, V>(bs: Table<K, V>, us: Table<K, V>, h: int, i: int)
    requires 2 < |bs| && IsTrimmed(h) && KeepsFlags(bs, us) && Reached(bs, h, i)
    ensures Reached(us, h, i)
  {
    hide Probe;
    var k: nat :| k < |bs| && Probe(h, |bs|, k) == i && OnChain(bs, h, k);
    assert OnChain(us, h, k);
  }

  /** Any change that keeps the flags and adds no entry keeps every entry reachable. */
  lemma ReachableIsKept<K, V>(bs: Table<K, V>, us: Table<K, V>)
    requires Reachable(bs) && KeepsFlags(bs, us)
    requires forall i :: 0 <= i < |bs| && us[i].Occupied? ==> bs[i].Occupied? && us[i].hash == bs[i].hash
    ensures Reachable(us)
  {
    hide Reached;
    forall i | 0 <= i < |us| && us[i].Occupied? ensures IsTrimmed(us[i].hash) && Reached(us, us[i].hash, i) {
      ReachedIsKept(bs, us, us[i].hash, i);
    }
  }

  /** Where the probing loop ends, from step k on: the table with the passed buckets marked, and the step. */
  function Settle<K, V>(bs: Table<K, V>, h: int, k: nat): (r: (Table<K, V>, nat))
    requires 2 < |bs| && IsTrimmed(h)
    ensures |r.0| == |bs|
    decreases |bs| - k
  {
    if k >= |bs| || bs[Probe(h, |bs|, k)].Vacant? then (bs, k)
    else
      var p := Probe(h, |bs|, k);
      Settle(bs[p := bs[p].(collision := true)], h, k + 1)
  }

  /** The table with the passed buckets marked, and the bucket for the entry. */
  datatype Spot<K, V> = Spot(table: Table<K, V>, index: nat)

  function SpotFor<K, V>(bs: Table<K, V>, h: int): (r: Spot<K, V>)
    requires 2 < |bs| && IsTrimmed(h)
    ensures |r.table| == |bs| && r.index < |bs|
  {
    var (us, k) := Settle(bs, h, 0);
    Spot(us, Probe(h, |us|, k))
  }

  /** The entry stored in its bucket, which keeps its collision flag. */
  function Stored<K, V>(spot: Spot<K, V>, h: int, e: Entry<K, V>): Table<K, V>
    requires spot.index < |spot.table|
  {
    spot.table[spot.index := Occupied(spot.table[spot.index].collision, h, e)]
  }

  /** The probing loop of add and of rehash: marks the occupied buckets it passes and stops at a vacant one. */
  method FindVacant<K, V>(bs: Table<K, V>, h: int) returns (us: Table<K, V>, index: nat, ghost k: nat)
    requires Sized(bs) && IsTrimmed(h) && Occupancy(bs) < |bs|
    ensures Marked(bs, us) && index < |bs| && us[index] == bs[index] && bs[index].Vacant?
    ensures k < |bs| && Probe(h, |bs|, k) == index && OnChain(us, h, k)
    ensures Spot(us, index) == SpotFor(bs, h)
  {
    hide IsPrime, Probe, ChainStart, ChainIncrement, ChainSeek, Occupancy;
    ghost var v := VacantBucket(bs);
    ghost var m := ProbeReachesAll(h, |bs|, v);
    us, k := bs, 0;
    var i := ChainStart(h, |bs|);
    ProbeStart(h, |bs|);
    var inc := ChainIncrement(h, |bs|);
    while us[i].Occupied?
      invariant k <= m < |bs| && 0 <= i < |bs| && Probe(h, |bs|, k) == i
      invariant Marked(bs, us) && OnChain(us, h, k)
      invariant Settle(us, h, k) == Settle(bs, h, 0)
      decreases m - k
    {
      us := us[i := us[i].(collision := true)];
      ProbeNext(h, |bs|, k);
      i := ChainSeek(i, inc, |bs|);
      k := k + 1;
    }
    index := i;
    assert Settle(us, h, k) == (us, k);
  }

  /** Storing an entry in a vacant bucket that its chain reaches. */
  lemma FillKeeps<K, V>(us: Table<K, V>, index: nat, h: int, e: Entry<K, V>, k: nat)
    requires Reachable(us) && IsTrimmed(h) && index < |us| && us[index].Vacant?
    requires k < |us| && Probe(h, |us|, k) == index && OnChain(us, h, k)
    ensures var r := us[index := Occupied(us[index].collision, h, e)];
            && Reachable(r)
            && Occupancy(r) == Occupancy(us) + 1
            && FilledCount(r) == FilledCount(us) + (if us[index].collision then 0 else 1)
            && Contents(r) == Contents(us) + multiset{e}
  {
    hide Probe, Occupancy, FilledCount, Contents, Reached, Reachable;
    var b := Occupied(us[index].collision, h, e);
    var r := us[index := b];
    OccupancyUpdate(us, index, b);
    FilledUpdate(us, index, b);
    ContentsUpdate(us, index, b);
    FillReachable(us, index, b, k);
  }

  lemma FillReachable<K, V>(us: Table<K, V>, index: nat, b: Bucket<K, V>, k: nat)
    requires Reachable(us) && b.Occupied? && IsTrimmed(b.hash) && index < |us| && us[index].Vacant?
    requires b.collision == us[index].collision
    requires k < |us| && Probe(b.hash, |us|, k) == index && OnChain(us, b.hash, k)
    ensures Reachable(us[index := b])
  {
    hide Probe;
    var r := us[index := b];
    assert KeepsFlags(us, r);
    assert Reached(us, b.hash, index);
    forall i | 0 <= i < |r| && r[i].Occupied? ensures IsTrimmed(r[i].hash) && Reached(r, r[i].hash, i) {
      ReachedIsKept(us, r, r[i].hash, i);
    }
  }

  // ----- growth -----

  /** The bucket counts to choose from, without the terminating zero. */
  const PRIMES: seq<int> :=
    [5, 11, 23, 47, 97, 197, 397, 797, 1597, 3203, 6421, 12853, 25717, 51437, 102877, 205759, 411527, 823117,
     1646237, 3292489, 6584983, 13169977, 26339969, 52679969, 105359939, 210719881, 421439783, 842879579, 1685759167]

  /** What the comment on the table says of its entries. */
  ghost predicate TableIsPrime() { forall i :: 0 <= i < |PRIMES| ==> IsPrime(PRIMES[i]) }

  /**
   determineCapacity, with the load factor num/den: the smallest table entry that
   holds minimumCapacity entries and one free bucket, and the number of buckets
   that may be filled. The code runs off the table when there is none.
   */
  method DetermineCapacity(minimumCapacity: nat, num: nat, den: nat) returns (r: Option<(int, int)>)
    requires 0 < num <= den
    ensures r.None? <==> CeilDiv(minimumCapacity * den, num) + 1 > PRIMES[|PRIMES| - 1]
    ensures r.Some? ==> exists i :: 0 <= i < |PRIMES| && PRIMES[i] == r.value.0
    ensures r.Some? ==> CeilDiv(minimumCapacity * den, num) + 1 <= r.value.0
    ensures r.Some? ==> forall j :: 0 <= j < |PRIMES| && PRIMES[j] < r.value.0 ==> PRIMES[j] <= CeilDiv(minimumCapacity * den, num)
    ensures r.Some? ==> r.value.1 == CeilDiv((r.value.0 - 1) * num, den)
    ensures r.Some? ==> minimumCapacity <= r.value.1 && 1 <= r.value.1 < r.value.0 && 5 <= r.value.0
  {
    var count := CeilDiv(minimumCapacity * den, num) + 1;
    var i := 0;
    while i < |PRIMES| && count > PRIMES[i]
      invariant 0 <= i <= |PRIMES|
      invariant forall j :: 0 <= j < i ==> PRIMES[j] < count
    {
      i := i + 1;
    }
    if i == |PRIMES| {
      return None;
    }
    var capacity := CeilDiv((PRIMES[i] - 1) * num, den);
    CapacityFits(minimumCapacity, num, den, PRIMES[i], capacity);
    TableIsSorted();
    r := Some((PRIMES[i], capacity));
  }

  lemma TableIsSorted()
    ensures forall i, j :: 0 <= i < j < |PRIMES| ==> PRIMES[i] < PRIMES[j]
  {
    var k := 1;
    assert forall i :: 0 <= i < |PRIMES| - 1 ==> PRIMES[i] < PRIMES[i + 1];
    while k < |PRIMES|
      invariant 1 <= k <= |PRIMES| && forall i, j :: 0 <= i < j < k ==> PRIMES[i] < PRIMES[j]
    {
      assert PRIMES[k - 1] < PRIMES[k];
      k := k + 1;
    }
  }

  lemma CapacityFits(min: nat, num: nat, den: nat, p: int, capacity: int)
    requires 0 < num <= den && 5 <= p && CeilDiv(min * den, num) + 1 <= p && capacity == CeilDiv((p - 1) * num, den)
    ensures min <= capacity && 1 <= capacity < p
  {
    var c := CeilDiv(min * den, num);
    assert min * den <= num * c;
    MulMonotone(c, p - 1, num);
    assert min * den <= (p - 1) * num <= den * capacity;
    CancelFactor(min, capacity, den);
    assert capacity >= 1 by {
      MulAtLeast(p - 1, num);
    }
    MulMonotone(num, den, p - 1);
    assert den * (capacity - 1) < (p - 1) * num <= den * (p - 1);
    CancelStrict(capacity - 1, p - 1, den);
  }

  /** A fresh bucket array. */
  function Fresh<K, V>(count: nat): Table<K, V> { seq(count, _ => Vacant(false)) }

  lemma FreshTable<K, V>(bs: Table<K, V>, hashOf: K -> int)
    requires forall i :: 0 <= i < |bs| ==> bs[i] == Vacant(false)
    ensures Occupancy(bs) == 0 && FilledCount(bs) == 0 && Contents(bs) == multiset{}
    ensures (2 < |bs| ==> Reachable(bs)) && Consistent(bs, hashOf) && NothingRemoved(bs)
  {
  }

  /** No vacant bucket carries a collision flag: nothing was removed yet. */
  ghost predicate NothingRemoved<K, V>(bs: Table<K, V>) {
    forall i :: 0 <= i < |bs| && bs[i].collision ==> bs[i].Occupied?
  }

  lemma {:induction false} FilledIsOccupied<K, V>(bs: Table<K, V>)
    requires NothingRemoved(bs)
    ensures FilledCount(bs) == Occupancy(bs)
  {
    if bs != [] {
      FilledIsOccupied(bs[..|bs| - 1]);
    }
  }

  /** The copying loop of rehash. */
  method Rebuild<K, V>(bs: Table<K, V>, newCount: nat, ghost hashOf: K -> int) returns (nb: Table<K, V>)
    requires 2 < newCount && IsPrime(newCount) && Occupancy(bs) < newCount
    requires Consistent(bs, hashOf) && forall i :: 0 <= i < |bs| && bs[i].Occupied? ==> IsTrimmed(bs[i].hash)
    ensures |nb| == newCount && Reachable(nb) && Consistent(nb, hashOf)
    ensures Contents(nb) == Contents(bs)
    ensures Occupancy(nb) == Occupancy(bs) && FilledCount(nb) == Occupancy(bs)
  {
    hide Probe, IsPrime, Contents, Occupancy, FilledCount, Reached, TrimHash, Reachable;
    nb := Fresh(newCount);
    FreshTable(nb, hashOf);
    assert bs[..0] == [];
    FreshTable(bs[..0], hashOf);
    var i := 0;
    while i < |bs|
      invariant 0 <= i <= |bs|
      invariant |nb| == newCount && Reachable(nb) && Consistent(nb, hashOf) && NothingRemoved(nb)
      invariant Contents(nb) == Contents(bs[..i]) && Occupancy(nb) == Occupancy(bs[..i])
    {
      PrefixStep(bs, i);
      if bs[i].Occupied? {
        nb := CopyOne(nb, bs[i], hashOf);
      }
      i := i + 1;
    }
    assert bs[..|bs|] == bs;
    FilledIsOccupied(nb);
  }

  lemma PrefixStep<K, V>(bs: Table<K, V>, i: nat)
    requires i < |bs|
    ensures Contents(bs[..i + 1]) == Contents(bs[..i]) + EntryOf(bs[i])
    ensures Occupancy(bs[..i + 1]) == Occupancy(bs[..i]) + (if bs[i].Occupied? then 1 else 0)
    ensures Occupancy(bs[..i + 1]) <= Occupancy(bs)
  {
    assert bs[..i + 1][..i] == bs[..i];
    OccupancyOfPrefix(bs, i + 1);
  }

  lemma {:induction false} OccupancyOfPrefix<K, V>(bs: Table<K, V>, i: nat)
    requires i <= |bs|
    ensures Occupancy(bs[..i]) <= Occupancy(bs)
    decreases |bs| - i
  {
    if i < |bs| {
      assert bs[..i + 1][..i] == bs[..i];
      OccupancyOfPrefix(bs, i + 1);
    } else {
      assert bs[..i] == bs;
    }
  }

  /** The body of the copying loop: the new bucket's collision flag starts out clear. */
  method CopyOne<K, V>(nb: Table<K, V>, from: Bucket<K, V>, ghost hashOf: K -> int) returns (r: Table<K, V>)
    requires Sized(nb) && Reachable(nb) && Consistent(nb, hashOf) && NothingRemoved(nb)
    requires from.Occupied? && Consistent([from], hashOf) && IsTrimmed(from.hash) && Occupancy(nb) < |nb|
    ensures |r| == |nb| && Reachable(r) && Consistent(r, hashOf) && NothingRemoved(r)
    ensures Contents(r) == Contents(nb) + multiset{from.entry} && Occupancy(r) == Occupancy(nb) + 1
  {
    hide Probe, IsPrime, Contents, Occupancy, FilledCount, Reached, TrimHash, Reachable;
    var us, index, k := FindVacant(nb, from.hash);
    MarkedCounts(nb, us);
    ReachableIsKept(nb, us);
    FillKeeps(us, index, from.hash, from.entry, k);
    r := us[index := Occupied(false, from.hash, from.entry)];
    assert us[index] == Vacant(false);
    assert from == [from][0];
  }

  // ----- the table -----

  /** What the fields of a table with allocated buckets mean. */
  ghost predicate TableOk<K, V>(bs: Table<K, V>, count: int, size: nat, filled: nat, hashOf: K -> int) {
    && |bs| == count && Reachable(bs) && Consistent(bs, hashOf)
    && Occupancy(bs) == size && FilledCount(bs) == filled
  }

  lemma MarkedTableOk<K, V>(bs: Table<K, V>, us: Table<K, V>, size: nat, filled: nat, hashOf: K -> int)
    requires TableOk(bs, |bs|, size, filled, hashOf) && Marked(bs, us)
    ensures TableOk(us, |bs|, size, filled, hashOf) && Contents(us) == Contents(bs)
  {
    hide Occupancy, FilledCount, Contents, TrimHash, Reachable;
    MarkedCounts(bs, us);
    ReachableIsKept(bs, us);
  }

  lemma FilledTableOk<K, V>(us: Table<K, V>, size: nat, filled: nat, hashOf: K -> int, index: nat, e: Entry<K, V>, k: nat)
    requires TableOk(us, |us|, size, filled, hashOf) && index < |us| && us[index].Vacant?
    requires 0 <= hashOf(e.key) < HASH_LIMIT
    requires var h := TrimHash(hashOf(e.key)); k < |us| && Probe(h, |us|, k) == index && OnChain(us, h, k)
    ensures var r := us[index := Occupied(us[index].collision, TrimHash(hashOf(e.key)), e)];
            && TableOk(r, |us|, size + 1, filled + (if us[index].collision then 0 else 1), hashOf)
            && Contents(r) == Contents(us) + multiset{e}
  {
    hide Probe, Occupancy, FilledCount, Contents, TrimHash, Reachable;
    FillKeeps(us, index, TrimHash(hashOf(e.key)), e, k);
  }

  /** removeAt clears the present flag and leaves the collision flag behind. */
  lemma RemovedTableOk<K, V>(bs: Table<K, V>, size: nat, filled: nat, hashOf: K -> int, i: nat)
    requires TableOk(bs, |bs|, size, filled, hashOf) && i < |bs| && bs[i].Occupied?
    ensures size > 0 && (bs[i].collision || filled > 0)
    ensures var r := bs[i := Vacant(bs[i].collision)];
            && TableOk(r, |bs|, size - 1, if bs[i].collision then filled else filled - 1, hashOf)
            && Contents(r) + multiset{bs[i].entry} == Contents(bs)
  {
    hide Occupancy, FilledCount, Contents, TrimHash, Reachable;
    var b := Vacant(bs[i].collision);
    OccupancyUpdate(bs, i, b);
    FilledUpdate(bs, i, b);
    ContentsUpdate(bs, i, b);
    ReachableIsKept(bs, bs[i := b]);
  }

  lemma AllocatedTableOk<K, V>(bs: Table<K, V>, hashOf: K -> int)
    requires 2 < |bs| && forall i :: 0 <= i < |bs| ==> bs[i] == Vacant(false)
    ensures TableOk(bs, |bs|, 0, 0, hashOf) && Contents(bs) == multiset{}
    ensures Contents<K, V>([]) == multiset{}
  {
    FreshTable(bs, hashOf);
  }

  lemma NoEntryInEmpty<K, V>()
    ensures Contents<K, V>([]) == multiset{}
  {
  }

  lemma NothingFound<K, V>(bs: Table<K, V>, h: int, key: K)
    requires Sized(bs) && Reachable(bs) && IsTrimmed(h) && OwnHash(bs, h, key) && NoMatch(bs, h, key, -1, |bs|)
    ensures forall e :: e in Contents(bs) ==> e.key != key
  {
    hide IsPrime, Probe, Contents;
    forall e | e in Contents(bs) ensures e.key != key {
      InContents(bs, e);
    }
  }

  lemma {:induction false} OccupiedIsFilled<K, V>(bs: Table<K, V>)
    ensures Occupancy(bs) <= FilledCount(bs)
  {
    if bs != [] {
      OccupiedIsFilled(bs[..|bs| - 1]);
    }
  }

  lemma TrimmedHashes<K, V>(bs: Table<K, V>)
    requires Reachable(bs)
    ensures forall i :: 0 <= i < |bs| && bs[i].Occupied? ==> IsTrimmed(bs[i].hash)
  {
  }

  lemma NoneOccupied<K, V>(bs: Table<K, V>, size: nat)
    requires Occupancy(bs) == size == 0 || bs == []
    ensures forall i :: 0 <= i < |bs| ==> bs[i].Vacant?
  {
    forall i | 0 <= i < |bs| ensures bs[i].Vacant? {
      if bs[i].Occupied? {
        EmptyOccupancy(bs, i);
      }
    }
  }

  lemma {:induction false} NoOccupants<K, V>(bs: Table<K, V>)
    requires Occupancy(bs) == 0
    ensures Contents(bs) == multiset{} && Contents<K, V>([]) == multiset{}
  {
    if bs != [] {
      NoOccupants(bs[..|bs| - 1]);
    }
  }

  /** Without entries the probing loop stops at the first bucket. */
  lemma SettleAtStart<K, V>(bs: Table<K, V>, size: nat, filled: nat, hashOf: K -> int, h: int)
    requires TableOk(bs, |bs|, size, filled, hashOf) && size == 0 && IsTrimmed(h)
    ensures SpotFor(bs, h) == Spot(bs, ChainStart(h, |bs|))
  {
    hide ChainStart, Occupancy, FilledCount;
    NoneOccupied(bs, size);
    ProbeStart(h, |bs|);
  }

  lemma TableLength<K, V>(bs: Table<K, V>, count: int, size: nat, filled: nat, hashOf: K -> int)
    requires TableOk(bs, count, size, filled, hashOf)
    ensures |bs| == count
  {
  }

  datatype AddResult = Added(index: nat) | NoCapacity | NullBuckets

  class Hashtable<K(==), V> {
    ghost const hashOf: K -> int

    var bucketCount: int
    var capacity: int
    var num: nat   // the load factor is num / den
    var den: nat
    var size: nat
    var filled: nat
    var buckets: Table<K, V>  // empty until the first entry is added

    ghost predicate Valid()
      reads this
    {
      && 2 < bucketCount && IsPrime(bucketCount) && 1 <= capacity < bucketCount && 0 < num <= den
      && filled <= capacity
      && (if buckets == [] then size == 0 && filled == 0
          else TableOk(buckets, bucketCount, size, filled, hashOf))
    }

    ghost function Entries(): multiset<Entry<K, V>>
      reads this
    {
      Contents(buckets)
    }

    /** The capacity must be within the table of bucket counts; otherwise the code reads past the table. */
    constructor (minimumInitialCapacity: nat, num: nat, den: nat, ghost hashOf: K -> int)
      requires 0 < num <= den && TableIsPrime()
      requires CeilDiv(minimumInitialCapacity * den, num) + 1 <= PRIMES[|PRIMES| - 1]
      ensures Valid() && Entries() == multiset{} && capacity >= minimumInitialCapacity && this.hashOf == hashOf
      ensures 5 <= bucketCount && buckets == [] && this.num == num && this.den == den && capacity == CeilDiv((bucketCount - 1) * num, den)
      ensures forall j :: 0 <= j < |PRIMES| && PRIMES[j] < bucketCount ==> PRIMES[j] <= CeilDiv(minimumInitialCapacity * den, num)
    {
      hide IsPrime;
      var r := DetermineCapacity(minimumInitialCapacity, num, den);
      this.num, this.den, this.hashOf := num, den, hashOf;
      bucketCount, capacity := r.value.0, r.value.1;
      size, filled, buckets := 0, 0, [];
    }

    /** A find from -1 succeeds exactly when an entry with the key is present. */
    method FindIndex(index: int, hash: int, key: K, ghost last: int) returns (r: int, ghost step: nat)
      requires Valid() && 0 <= hash < HASH_LIMIT && hash == hashOf(key)
      requires if buckets == [] then index == -1 && last == -1 else Resumes(buckets, TrimHash(hash), index, last)
      ensures r != -1 ==> 0 <= r < |buckets| && Matches(buckets[r], key)
      ensures index < 0 ==> (r != -1 <==> exists e :: e in Entries() && e.key == key)
      ensures buckets != [] ==>
                if r == -1 then NoMatch(buckets, TrimHash(hash), key, last, |buckets|)
                else last < step < |buckets| && Probe(TrimHash(hash), |buckets|, step) == r
                     && NoMatch(buckets, TrimHash(hash), key, last, step)
    {
      hide IsPrime, Probe, TrimHash, Occupancy, FilledCount, Reachable, Contents, OnChain;
      if buckets == [] {
        NoEntryInEmpty<K, V>();
        return -1, 0;
      }
      r, step := Find(buckets, size, index, hash, key, last);
      if r != -1 {
        InContents(buckets, buckets[r].entry);
      } else if index < 0 {
        NothingFound(buckets, TrimHash(hash), key);
      }
    }

    /** Whether determineCapacity has a count for twice the capacity. */
    ghost predicate CanGrow()
      reads this
    {
      capacity >= 0 && num > 0 && CeilDiv(2 * capacity * den, num) + 1 <= PRIMES[|PRIMES| - 1]
    }

    /** The buckets add works on: allocated if there were none. */
    ghost function Allocated(): (r: Table<K, V>)
      requires Valid()
      ensures |r| == bucketCount
      reads this
    {
      if buckets == [] then Fresh(bucketCount) else buckets
    }

    /** The bucket the entry would go to has never been filled, and the load limit is reached: add calls rehash. */
    ghost predicate NeedsRoom(hash: int)
      requires Valid() && 0 <= hash < HASH_LIMIT
      reads this
    {
      var spot := SpotFor(Allocated(), TrimHash(hash));
      filled >= capacity && !spot.table[spot.index].collision
    }

    /**
     The state in which add goes on with a null mBuckets: the last entry was removed, the
     collision flags left behind still count as filled buckets, and the first bucket of the
     hash code has no such flag. rehash then drops the buckets and add does not allocate new ones.
     */
    ghost predicate MeetsNull(hash: int)
      requires Valid() && 0 <= hash < HASH_LIMIT
      reads this
    {
      buckets != [] && size == 0 && filled >= capacity && !buckets[ChainStart(TrimHash(hash), |buckets|)].collision
    }

    /**
     add, as written: buckets are allocated before the loop only. It reaches a null pointer
     exactly in the state MeetsNull describes (while there is a larger bucket count); otherwise
     it adds the entry, growing the table first if need be, or finds no larger bucket count.
     */
    method Add(hash: int, e: Entry<K, V>) returns (r: AddResult)
      requires Valid() && TableIsPrime() && 0 <= hash < HASH_LIMIT && hash == hashOf(e.key)
      modifies this
      ensures r.NullBuckets? <==> old(MeetsNull(hash)) && old(CanGrow())
      ensures r.NoCapacity? <==> old(NeedsRoom(hash)) && !old(CanGrow())
      ensures Valid()
      ensures r.Added? ==> Entries() == old(Entries()) + multiset{e} && size == old(size) + 1
      ensures r.Added? ==> r.index < |buckets| && buckets[r.index].Occupied? && buckets[r.index].entry == e
      ensures r.NoCapacity? ==> Entries() == old(Entries()) && size == old(size)
      ensures !old(NeedsRoom(hash)) ==>
                var spot := SpotFor(old(Allocated()), TrimHash(hash));
                && buckets == Stored(spot, TrimHash(hash), e) && r == Added(spot.index)
                && filled == old(filled) + (if spot.table[spot.index].collision then 0 else 1)
                && bucketCount == old(bucketCount) && capacity == old(capacity) && num == old(num) && den == old(den)
    {
      hide IsPrime, Probe, TrimHash, Occupancy, FilledCount, Reachable, Contents, OnChain, TableOk, CeilDiv, SpotFor, Stored;
      if buckets == [] {
        buckets := Fresh(bucketCount);
        AllocatedTableOk(buckets, hashOf);
      } else if size == 0 {
        assert |buckets| == bucketCount by { TableLength(buckets, bucketCount, size, filled, hashOf); }
        SettleAtStart(buckets, size, filled, hashOf, TrimHash(hash));
      }
      var done, index := TryAdd(hash, e);
      if !done {
        var ok := Rehash(2 * capacity, num, den);
        if !ok {
          return NoCapacity;
        }
        if buckets == [] {
          return NullBuckets;
        }
        done, index := TryAdd(hash, e);
      }
      r := Added(index);
    }

    /** One round of the loop of add; it gives up only if the load limit is reached. */
    method TryAdd(hash: int, e: Entry<K, V>) returns (done: bool, index: nat)
      requires Valid() && buckets != [] && 0 <= hash < HASH_LIMIT && hash == hashOf(e.key)
      modifies this`buckets, this`size, this`filled
      ensures Valid() && |buckets| == old(|buckets|)
      ensures done <==> !old(NeedsRoom(hash))
      ensures !done ==> size == old(size) <= capacity && filled == old(filled) && Entries() == old(Entries())
      ensures done ==> size == old(size) + 1 && Entries() == old(Entries()) + multiset{e}
      ensures done ==> index < |buckets| && buckets[index].Occupied? && buckets[index].entry == e
      ensures done ==>
                var spot := SpotFor(old(buckets), TrimHash(hash));
                && index == spot.index && buckets == Stored(spot, TrimHash(hash), e)
                && filled == old(filled) + (if spot.table[spot.index].collision then 0 else 1)
    {
      hide IsPrime, Probe, TrimHash, Occupancy, FilledCount, Reachable, Contents, OnChain, SpotFor;
      var h := TrimHash(hash);
      OccupiedIsFilled(buckets);
      var us, i, k := FindVacant(buckets, h);
      MarkedTableOk(buckets, us, size, filled, hashOf);
      buckets := us;
      index := i;
      var collision := us[i].collision;
      if !collision && filled >= capacity {
        return false, i;
      }
      FilledTableOk(us, size, filled, hashOf, i, e, k);
      if !collision {
        filled := filled + 1;
      }
      buckets := us[i := Occupied(collision, h, e)];
      size := size + 1;
      done := true;
    }

    /** Removes the entry of an occupied bucket and moves no other. */
    method RemoveAt(index: nat)
      requires Valid() && index < |buckets| && buckets[index].Occupied?
      modifies this`buckets, this`size, this`filled
      ensures Valid() && size == old(size) - 1
      ensures Entries() + multiset{old(buckets[index].entry)} == old(Entries())
      ensures buckets == old(buckets)[index := Vacant(old(buckets[index]).collision)]
      ensures filled == old(filled) - (if old(buckets[index]).collision then 0 else 1)
    {
      hide IsPrime, Occupancy, FilledCount, Reachable, Contents, Consistent;
      RemovedTableOk(buckets, size, filled, hashOf, index);
      buckets := buckets[index := Vacant(buckets[index].collision)];
      if !buckets[index].collision {
        filled := filled - 1;
      }
      size := size - 1;
    }

    /** Rebuilds the table for a new capacity and load factor; every entry is kept. */
    method Rehash(minimumCapacity: nat, num: nat, den: nat) returns (ok: bool)
      requires Valid() && TableIsPrime() && 0 < num <= den
      modifies this
      ensures Valid() && size == old(size) && Entries() == old(Entries())
      ensures ok ==> capacity >= minimumCapacity && capacity >= size && this.num == num && this.den == den
      ensures ok && capacity != old(capacity) ==> filled == size
      ensures ok ==>
                var need := CeilDiv((if minimumCapacity < old(size) then old(size) else minimumCapacity) * den, num);
                && need + 1 <= bucketCount && capacity == CeilDiv((bucketCount - 1) * num, den)
                && forall j :: 0 <= j < |PRIMES| && PRIMES[j] < bucketCount ==> PRIMES[j] <= need
      ensures ok && capacity != old(capacity) && old(buckets) != [] ==> (buckets == [] <==> size == 0)
      ensures ok <==> CeilDiv((if minimumCapacity < old(size) then old(size) else minimumCapacity) * den, num) + 1
                      <= PRIMES[|PRIMES| - 1]
    {
      hide IsPrime, Occupancy, FilledCount, Reachable, Contents, Consistent, PRIMES, CeilDiv;
      var min := if minimumCapacity < size then size else minimumCapacity;
      var r := DetermineCapacity(min, num, den);
      if r.None? {
        return false;
      }
      var newCount, newCapacity := r.value.0, r.value.1;
      if newCount != bucketCount || newCapacity != capacity {
        if buckets != [] {
          if size != 0 {
            TrimmedHashes(buckets);
            buckets := Rebuild(buckets, newCount, hashOf);
          } else {
            NoOccupants(buckets);
            buckets := [];
          }
          filled := size;
        }
        bucketCount, capacity := newCount, newCapacity;
      }
      this.num, this.den := num, den;
      ok := true;
    }

    /** Iteration: the next occupied bucket after index, or -1. */
    method Next(index: int) returns (r: int)
      requires Valid() && -1 <= index
      ensures r == -1 ==> forall i :: index < i < |buckets| ==> buckets[i].Vacant?
      ensures r != -1 ==> index < r < |buckets| && buckets[r].Occupied? && forall i :: index < i < r ==> buckets[i].Vacant?
    {
      hide IsPrime, FilledCount, Reachable, Contents, Consistent;
      if size != 0 {
        r := index + 1;
        while r < bucketCount
          invariant index < r && forall i :: index < i < r && i < |buckets| ==> buckets[i].Vacant?
        {
          if buckets[r].Occupied? {
            return;
          }
          r := r + 1;
        }
      } else {
        NoneOccupied(buckets, size);
      }
      r := -1;
    }
  }

  // ----- the run into a null pointer -----

  type Example = Table<int, int>

  function Held(collision: bool, h: int): Bucket<int, int> { Occupied(collision, h, Entry(h, 0)) }

  lemma ThreeSteps(h: int, inc: int)
    requires IsTrimmed(h) && ChainIncrement(h, 5) == inc
    ensures Probe(h, 5, 0) == h % 5 && Probe(h, 5, 1) == (h % 5 + inc) % 5 && Probe(h, 5, 2) == ((h % 5 + inc) % 5 + inc) % 5
  {
    hide ChainIncrement;
    ProbeNext(h, 5, 0);
    ProbeNext(h, 5, 1);
  }

  /** Small hash codes are left alone by trimHash, and below 128 they step by 1 among five buckets. */
  lemma SmallHash(h: int)
    requires 0 <= h < 1024
    ensures TrimHash(h) == h && (h < 128 ==> ChainIncrement(h, 5) == 1)
  {
    assert h % TRIMMED_LIMIT == h && h / TRIMMED_LIMIT == 0;
    assert Xor2(h % 4, 0) == h % 4;
    if h < 128 {
      assert h / 128 == 0 && h % 128 == h;
      assert h * 0x200_0000 % 4 == 0;
    }
  }

  /** 257 starts at bucket 2 and steps by 3. */
  lemma LargerHash()
    ensures ChainIncrement(257, 5) == 3
  {
  }

  /** The probing loops of the run: the table before, and the table and bucket they end with. */
  lemma FirstSpot(bs: Example)
    requires |bs| == 5 && bs[0].Vacant?
    ensures SpotFor(bs, 0) == Spot(bs, 0)
  {
    hide Probe, ChainIncrement;
    SmallHash(0);
    ThreeSteps(0, 1);
  }

  lemma SecondSpot(bs: Example)
    requires |bs| == 5 && bs[0].Occupied? && bs[1].Vacant?
    ensures SpotFor(bs, 5) == Spot(bs[0 := bs[0].(collision := true)], 1)
  {
    hide Probe, ChainIncrement;
    SmallHash(5);
    ThreeSteps(5, 1);
    var us := bs[0 := bs[0].(collision := true)];
    assert Settle(us, 5, 1) == (us, 1);
  }

  lemma ThirdSpot(bs: Example)
    requires |bs| == 5 && bs[0].Occupied? && bs[1].Occupied? && bs[2].Vacant?
    ensures SpotFor(bs, 10) == Spot(bs[0 := bs[0].(collision := true)][1 := bs[1].(collision := true)], 2)
  {
    hide Probe, ChainIncrement;
    SmallHash(10);
    ThreeSteps(10, 1);
    var us := bs[0 := bs[0].(collision := true)];
    var vs := us[1 := bs[1].(collision := true)];
    assert Settle(vs, 10, 2) == (vs, 2);
    assert Settle(us, 10, 1) == (vs, 2);
  }

  lemma FourthSpot(bs: Example)
    requires |bs| == 5 && bs[2].Occupied? && bs[0].Vacant?
    ensures SpotFor(bs, 257) == Spot(bs[2 := bs[2].(collision := true)], 0)
  {
    hide Probe, ChainIncrement;
    LargerHash();
    ThreeSteps(257, 3);
    var us := bs[2 := bs[2].(collision := true)];
    assert Settle(us, 257, 1) == (us, 1);
  }

  /** Five buckets of which three may be filled: capacity 3 at load factor 3/4. */
  lemma FiveOfThem(count: int, capacity: int)
    requires 5 <= count && capacity == CeilDiv((count - 1) * 3, 4)
    requires forall j :: 0 <= j < |PRIMES| && PRIMES[j] < count ==> PRIMES[j] <= CeilDiv(3 * 4, 3)
    ensures count == 5 && capacity == 3
  {
    assert PRIMES[0] == 5;
  }

  /** Five buckets, three of them filled by a chain of three hash codes. */
  method FillThree() returns (t: Hashtable<int, int>)
    requires TableIsPrime()
    ensures fresh(t) && t.Valid() && t.bucketCount == 5 && t.capacity == t.filled == t.size == 3 && t.num == 3 && t.den == 4
    ensures t.buckets == [Held(true, 0), Held(true, 5), Held(false, 10), Vacant(false), Vacant(false)]
    ensures forall k :: t.hashOf(k) == k
  {
    hide IsPrime, Probe, TrimHash, Occupancy, FilledCount, Reachable, Contents, OnChain, TableOk, SpotFor, ChainStart;
    t := new Hashtable(3, 3, 4, (k: int) => k);
    FiveOfThem(t.bucketCount, t.capacity);
    SmallHash(0);
    SmallHash(5);
    SmallHash(10);
    FirstSpot(t.Allocated());
    var _ := t.Add(0, Entry(0, 0));
    SecondSpot(t.buckets);
    var _ := t.Add(5, Entry(5, 0));
    ThirdSpot(t.buckets);
    var _ := t.Add(10, Entry(10, 0));
  }

  /** 257 takes the bucket of 0, which flags bucket 2. */
  method SwapFirst() returns (t: Hashtable<int, int>)
    requires TableIsPrime()
    ensures fresh(t) && t.Valid() && t.bucketCount == 5 && t.capacity == t.filled == t.size == 3 && t.num == 3 && t.den == 4
    ensures t.buckets == [Held(true, 257), Held(true, 5), Held(true, 10), Vacant(false), Vacant(false)]
    ensures forall k :: t.hashOf(k) == k
  {
    hide IsPrime, Probe, TrimHash, Occupancy, FilledCount, Reachable, Contents, OnChain, TableOk, SpotFor, ChainStart;
    t := FillThree();
    t.RemoveAt(0);
    SmallHash(257);
    FourthSpot(t.buckets);
    var _ := t.Add(257, Entry(257, 0));
  }

  /**
   A run of add and removeAt that ends in the null pointer: hash codes 0, 5 and 10 chain up,
   0 is removed, 257 takes its bucket and flags bucket 2, and then everything is removed.
   */
  method RunIntoNull() returns (t: Hashtable<int, int>, r: AddResult)
    requires TableIsPrime()
    ensures r.NullBuckets?
  {
    hide IsPrime, Probe, TrimHash, Occupancy, FilledCount, Reachable, Contents, OnChain, TableOk, SpotFor, Stored;
    t := SwapFirst();
    t.RemoveAt(0);
    t.RemoveAt(1);
    t.RemoveAt(2);
    SmallHash(3);
    r := t.Add(3, Entry(3, 0));
  }
}
