/**
 The message queue of Looper and its wake pipe, as a transition system.
 */
module Looper {

  // Senders insert into a sorted queue under a lock and wake the poll thread through a pipe, and
  // skip the wake while the poll thread is handing out a message. Each lock operation, pipe access
  // and access to the shared fields is one step; there is one poll thread and any number of senders.

  /** LLONG_MAX: the value of mNextMessageUptime when no message is waited for. */
  const FOREVER: int := 0x7fff_ffff_ffff_ffff

  const INT_MAX: int := 0x7fff_ffff
  const NANOS_PER_MILLI: int := 1_000_000

  /** The longest delay, in nanoseconds, that toMillisecondTimeoutDelay turns into a finite timeout. */
  const LONGEST_DELAY: int := (INT_MAX - 1) * NANOS_PER_MILLI

  /** serial numbers the insertions, so that messages sent twice can be told apart. */
  datatype Envelope = Envelope(uptime: int, handler: int, what: int, serial: nat)

  // ----- the sorted queue -----

  ghost predicate Sorted(q: seq<Envelope>) {
    forall i, j :: 0 <= i < j < |q| ==> q[i].uptime <= q[j].uptime
  }

  /** Number of leading messages due no later than uptime. */
  function Position(q: seq<Envelope>, uptime: int): (i: nat)
    ensures i <= |q|
  {
    if q == [] || uptime < q[0].uptime then 0 else 1 + Position(q[1..], uptime)
  }

  /** The search loop of sendMessageAtTime. */
  method FindPosition(q: seq<Envelope>, uptime: int) returns (i: nat)
    ensures i == Position(q, uptime)
  {
    i := 0;
    while i < |q| && uptime >= q[i].uptime
      invariant i <= |q| && Position(q, uptime) == i + Position(q[i..], uptime)
    {
      assert q[i..][1..] == q[i + 1..];
      i := i + 1;
    }
  }

  function Insert(q: seq<Envelope>, e: Envelope): seq<Envelope> {
    var i := Position(q, e.uptime);
    q[..i] + [e] + q[i..]
  }

  lemma {:induction false} PositionSplits(q: seq<Envelope>, uptime: int)
    requires Sorted(q)
    ensures var i := Position(q, uptime);
            && (forall k :: 0 <= k < i ==> q[k].uptime <= uptime)
            && (forall k :: i <= k < |q| ==> uptime < q[k].uptime)
  {
    if q != [] && uptime >= q[0].uptime {
      PositionSplits(q[1..], uptime);
      assert forall k :: 1 <= k < |q| ==> q[k] == q[1..][k - 1];
    }
  }

  /** What removeMessages drops: every message of a handler, or only one kind of it. */
  datatype Filter = OfHandler(handler: int) | OfKind(handler: int, what: int)

  predicate Drops(f: Filter, e: Envelope) {
    e.handler == f.handler && (f.OfKind? ==> e.what == f.what)
  }

  function Keep(q: seq<Envelope>, f: Filter): (r: seq<Envelope>)
    ensures |r| <= |q|
  {
    if q == [] then [] else (if Drops(f, q[0]) then [] else [q[0]]) + Keep(q[1..], f)
  }

  /** The messages a removal takes out, in queue order. */
  function Dropped(q: seq<Envelope>, f: Filter): seq<Envelope> {
    if q == [] then [] else (if Drops(f, q[0]) then [q[0]] else []) + Dropped(q[1..], f)
  }

  /** The backwards loop of removeMessages. */
  method RemoveMessages(q: seq<Envelope>, f: Filter) returns (r: seq<Envelope>)
    ensures r == Keep(q, f)
  {
    r := q;
    var i := |q|;
    while i != 0
      invariant 0 <= i <= |q| && r == q[..i] + Keep(q[i..], f)
      decreases i
    {
      i := i - 1;
      assert r[i] == q[i] && r[..i] == q[..i] && r[i + 1..] == Keep(q[i + 1..], f);
      assert q[i..][0] == q[i] && q[i..][1..] == q[i + 1..];
      if Drops(f, r[i]) {
        r := r[..i] + r[i + 1..];
      } else {
        assert r == q[..i] + ([q[i]] + Keep(q[i + 1..], f));
      }
    }
  }

  lemma {:induction false} KeepIsWithin(q: seq<Envelope>, f: Filter, e: Envelope)
    requires e in Keep(q, f)
    ensures e in q
  {
    if q != [] && e in Keep(q[1..], f) {
      KeepIsWithin(q[1..], f, e);
    }
  }

  lemma Regroup(m: multiset<Envelope>, x: multiset<Envelope>, y: multiset<Envelope>)
    ensures m + (x + y) == (m + x) + y && m + (x + y) == x + (m + y)
  {
  }

  lemma {:induction false} KeepAndDroppedSplit(q: seq<Envelope>, f: Filter)
    ensures multiset(q) == multiset(Keep(q, f)) + multiset(Dropped(q, f))
  {
    if q != [] {
      var m, k, d := multiset{q[0]}, Keep(q[1..], f), Dropped(q[1..], f);
      KeepAndDroppedSplit(q[1..], f);
      assert q == [q[0]] + q[1..];
      Regroup(m, multiset(k), multiset(d));
      if Drops(f, q[0]) {
        assert Keep(q, f) == k && Dropped(q, f) == [q[0]] + d;
      } else {
        assert Keep(q, f) == [q[0]] + k && Dropped(q, f) == d;
      }
    }
  }

  /** Who stays, message by message: all but those of the handler, or of the handler and kind. */
  lemma {:induction false} KeepIsExact(q: seq<Envelope>, f: Filter, e: Envelope)
    ensures multiset(Keep(q, f))[e]
            == if e.handler == f.handler && (f == OfHandler(e.handler) || f == OfKind(e.handler, e.what)) then 0
               else multiset(q)[e]
  {
    if q != [] {
      KeepIsExact(q[1..], f, e);
      assert q == [q[0]] + q[1..];
      assert Keep(q, f) == (if Drops(f, q[0]) then [] else [q[0]]) + Keep(q[1..], f);
    }
  }

  /** A removal never moves the head to an earlier time. */
  lemma KeepHead(q: seq<Envelope>, f: Filter)
    requires Sorted(q) && Keep(q, f) != []
    ensures q != [] && q[0].uptime <= Keep(q, f)[0].uptime
  {
    KeepIsWithin(q, f, Keep(q, f)[0]);
  }

  // ----- how long the poll thread waits -----

  /** toMillisecondTimeoutDelay; -1 stands for waiting without limit. */
  function ToMillis(reference: int, due: int): int {
    if due <= reference then 0
    else if due - reference > LONGEST_DELAY then -1
    else (due - reference + 999_999) / NANOS_PER_MILLI
  }

  /** The timeout pollInner passes to epoll_wait. */
  function EffectiveTimeout(timeoutMillis: int, next: int, now: int): int {
    if timeoutMillis != 0 && next != FOREVER then
      var m := ToMillis(now, next);
      if m >= 0 && (timeoutMillis < 0 || m < timeoutMillis) then m else timeoutMillis
    else timeoutMillis
  }

  /**
   A wait that starts at now ends less than a millisecond after the next message
   is due. This holds exactly when the caller set a limit that early itself or the
   message is at most LONGEST_DELAY away; for one further away the wait has no limit
   of its own and a poll without timeout may sleep through the message.
   */
  lemma WaitEndsInTime(timeoutMillis: int, next: int, now: int)
    requires next < FOREVER
    ensures var t := EffectiveTimeout(timeoutMillis, next, now);
            var due := if next > now then next else now;
            0 <= t && now + t * NANOS_PER_MILLI < due + NANOS_PER_MILLI
            <==> (next - now <= LONGEST_DELAY
                  || (0 <= timeoutMillis && now + timeoutMillis * NANOS_PER_MILLI < due + NANOS_PER_MILLI))
  {
    var d := next - now;
    if 0 < d <= LONGEST_DELAY {
      var m := ToMillis(now, next);
      assert d <= m * NANOS_PER_MILLI < d + NANOS_PER_MILLI;
    }
  }

  // ----- the transition system -----

  datatype Owner = Free | Poller | Sender(i: nat)

  datatype PollPC =
    | Outside                                    // between two calls of pollInner
    | Computed(start: int, t: int)               // timeout computed at time start
    | Waiting(start: int, from: int, t: int)     // in epoll_wait since from
    | Returned(woken: bool)                      // epoll_wait returned; about to lock
    | Locked(woken: bool)                        // handling the events
    | Reset                                      // about to forget mNextMessageUptime
    | Dispatch                                   // top of the message loop
    | Handling                                   // handleMessage runs without the lock
    | Handled                                    // lock taken again
    | Unlock                                     // message loop left, lock still held

  datatype SenderPC =
    | Quiet
    | WantSend(uptime: int, handler: int, what: int)
    | HoldSend(uptime: int, handler: int, what: int)
    | WantRemove(f: Filter)
    | HoldRemove(f: Filter)
    | Release(wakes: bool)
    | Wake

  /** A message handed to its handler, and when. */
  datatype Delivery = Delivery(e: Envelope, at: int)

  datatype State = State(
    now: int, queue: seq<Envelope>, next: int, sending: bool, readable: bool,
    lock: Owner, poll: PollPC, senders: seq<SenderPC>,
    inserted: seq<Envelope>, delivered: seq<Delivery>, removed: multiset<Envelope>,
    entered: int,  // when the poll thread last took the lock after a wait
    read: int,     // the clock it last compared the head with
    wakes: nat,    // writes to the wake pipe
    drained: nat,  // polls that a wake-up ended
    woken: bool)   // whether the last one was

  datatype Action =
    | Tick(elapsed: nat)
    | Enter(timeoutMillis: int)
    | BeginWait
    | WakeEvent
    | OtherEvent
    | Timeout
    | PollStep
    | Send(i: nat, uptime: int, handler: int, what: int)
    | Remove(i: nat, f: Filter)
    | SenderStep(i: nat)

  function Init(now: int, n: nat): State {
    State(now, [], FOREVER, false, false, Free, Outside, seq(n, _ => Quiet), [], [], multiset{}, now, now, 0, 0, false)
  }

  predicate SenderEnabled(s: State, pc: SenderPC) {
    match pc
    case Quiet => false
    case WantSend(_, _, _) => s.lock.Free?
    case HoldSend(_, _, _) => true
    case WantRemove(_) => s.lock.Free?
    case HoldRemove(_) => true
    case Release(_) => true
    case Wake => true
  }

  predicate PollEnabled(s: State) {
    match s.poll
    case Outside => false
    case Computed(_, _) => false
    case Waiting(_, _, _) => false
    case Returned(_) => s.lock.Free?
    case Locked(_) => true
    case Reset => true
    case Dispatch => true
    case Handling => s.lock.Free?
    case Handled => true
    case Unlock => true
  }

  predicate Enabled(s: State, a: Action) {
    match a
    case Tick(_) => true
    case Enter(_) => s.poll.Outside?
    case BeginWait => s.poll.Computed?
    case WakeEvent => s.poll.Waiting? && s.readable
    case OtherEvent => s.poll.Waiting?
    case Timeout => s.poll.Waiting? && s.poll.t >= 0 && s.now >= s.poll.from + s.poll.t * NANOS_PER_MILLI
    case PollStep => PollEnabled(s)
    case Send(i, uptime, _, _) => i < |s.senders| && s.senders[i].Quiet? && uptime <= FOREVER
    case Remove(i, _) => i < |s.senders| && s.senders[i].Quiet?
    case SenderStep(i) => i < |s.senders| && SenderEnabled(s, s.senders[i])
  }

  function DispatchStep(s: State): State {
    if s.queue == [] then s.(poll := Unlock, read := s.now)
    else if s.queue[0].uptime <= s.now then
      s.(delivered := s.delivered + [Delivery(s.queue[0], s.now)], queue := s.queue[1..],
         sending := true, lock := Free, poll := Handling, read := s.now)
    else s.(next := s.queue[0].uptime, poll := Unlock, read := s.now)
  }

  function PollNext(s: State): State
    requires PollEnabled(s)
  {
    match s.poll
    case Returned(woken) => s.(lock := Poller, poll := Locked(woken), entered := s.now)
    case Locked(woken) =>
      s.(readable := if woken then false else s.readable, poll := Reset,
         drained := if woken then s.drained + 1 else s.drained, woken := woken)
    case Reset => s.(next := FOREVER, poll := Dispatch)
    case Dispatch => DispatchStep(s)
    case Handling => s.(lock := Poller, poll := Handled)
    case Handled => s.(sending := false, poll := Dispatch)
    case Unlock => s.(lock := Free, poll := Outside)
  }

  function PutSender(s: State, i: nat, pc: SenderPC): State
    requires i < |s.senders|
  {
    s.(senders := s.senders[i := pc])
  }

  function SenderNext(s: State, i: nat): State
    requires i < |s.senders| && SenderEnabled(s, s.senders[i])
  {
    match s.senders[i]
    case WantSend(u, h, w) => PutSender(s.(lock := Sender(i)), i, HoldSend(u, h, w))
    case HoldSend(u, h, w) =>
      var e := Envelope(u, h, w, |s.inserted|);
      var s1 := s.(queue := Insert(s.queue, e), inserted := s.inserted + [e]);
      PutSender(s1, i, Release(!s.sending && Position(s.queue, u) == 0))
    case WantRemove(f) => PutSender(s.(lock := Sender(i)), i, HoldRemove(f))
    case HoldRemove(f) =>
      var s1 := s.(queue := Keep(s.queue, f), removed := s.removed + multiset(Dropped(s.queue, f)));
      PutSender(s1, i, Release(false))
    case Release(wakes) => PutSender(s.(lock := Free), i, if wakes then Wake else Quiet)
    case Wake => PutSender(s.(readable := true, wakes := s.wakes + 1), i, Quiet)
  }

  function Next(s: State, a: Action): State
    requires Enabled(s, a)
  {
    match a
    case Tick(elapsed) => s.(now := s.now + elapsed)
    case Enter(timeoutMillis) => s.(poll := Computed(s.now, EffectiveTimeout(timeoutMillis, s.next, s.now)))
    case BeginWait => s.(poll := Waiting(s.poll.start, s.now, s.poll.t))
    case WakeEvent => s.(poll := Returned(true))
    case OtherEvent => s.(poll := Returned(false))
    case Timeout => s.(poll := Returned(false))
    case PollStep => PollNext(s)
    case Send(i, u, h, w) => PutSender(s, i, WantSend(u, h, w))
    case Remove(i, f) => PutSender(s, i, WantRemove(f))
    case SenderStep(i) => SenderNext(s, i)
  }

  predicate Possible(s: State, run: seq<Action>)
    decreases |run|
  {
    run == [] || (Enabled(s, run[0]) && Possible(Next(s, run[0]), run[1..]))
  }

  function Exec(s: State, run: seq<Action>): State
    requires Possible(s, run)
    decreases |run|
  {
    if run == [] then s else Exec(Next(s, run[0]), run[1..])
  }

  // ----- the invariant -----

  /** The poll thread is in the part of pollInner that runs under the lock. */
  predicate PollHolds(pc: PollPC) {
    pc.Locked? || pc.Reset? || pc.Dispatch? || pc.Handled? || pc.Unlock?
  }

  predicate SenderHolds(pc: SenderPC) { pc.HoldSend? || pc.HoldRemove? || pc.Release? }

  /** The sender inserted at the head and its wake() is still to come. */
  predicate WillWake(pc: SenderPC) { pc.Wake? || (pc.Release? && pc.wakes) }

  ghost predicate Mutex(s: State) {
    && (s.lock.Poller? <==> PollHolds(s.poll))
    && (forall i :: 0 <= i < |s.senders| ==> (SenderHolds(s.senders[i]) <==> s.lock == Sender(i)))
    && (s.sending <==> s.poll.Handling? || s.poll.Handled?)
  }

  /** The poll thread will look at the queue before it sleeps: nothing need be known about the head. */
  predicate WillLook(pc: PollPC) {
    pc.Locked? || pc.Reset? || pc.Dispatch? || pc.Handling? || pc.Handled?
  }

  predicate HeadIsExpected(s: State) { s.queue == [] || s.next <= s.queue[0].uptime }

  /** No wake-up is lost: the head is waited for, or the pipe is readable, or a wake() is on its way. */
  ghost predicate Covered(s: State) {
    HeadIsExpected(s) || s.readable || exists i :: 0 <= i < |s.senders| && WillWake(s.senders[i])
  }

  /** The timeout computed on entry was computed from the mNextMessageUptime that still holds. */
  ghost predicate TimeoutIsCurrent(s: State) {
    (s.poll.Computed? || s.poll.Waiting?) ==>
      exists c :: s.poll.t == EffectiveTimeout(c, s.next, s.poll.start)
  }

  /** q is in the order of due times and, among equal ones, of insertion. */
  ghost predicate Fifo(q: seq<Envelope>) {
    forall i, j :: 0 <= i < j < |q| ==>
      q[i].uptime < q[j].uptime || (q[i].uptime == q[j].uptime && q[i].serial < q[j].serial)
  }

  /** A message that left the queue earlier is due no later, or was inserted first. */
  predicate MayPrecede(d: Envelope, e: Envelope) {
    d.uptime < e.uptime || d.serial < e.serial
  }

  ghost predicate Known(q: seq<Envelope>, n: nat) {
    forall i :: 0 <= i < |q| ==> q[i].serial < n && q[i].uptime <= FOREVER
  }

  ghost predicate AllPrecede(ds: seq<Delivery>, q: seq<Envelope>) {
    forall i, j :: 0 <= i < |ds| && 0 <= j < |q| ==> MayPrecede(ds[i].e, q[j])
  }

  ghost predicate InOrder(ds: seq<Delivery>) {
    forall i, j :: 0 <= i < j < |ds| ==> MayPrecede(ds[i].e, ds[j].e)
  }

  ghost predicate OnTime(ds: seq<Delivery>, n: nat) {
    forall i :: 0 <= i < |ds| ==> ds[i].e.uptime <= ds[i].at && ds[i].e.serial < n
  }

  ghost predicate Order(q: seq<Envelope>, ds: seq<Delivery>, n: nat) {
    Fifo(q) && Known(q, n) && AllPrecede(ds, q) && InOrder(ds) && OnTime(ds, n)
  }

  function Envelopes(ds: seq<Delivery>): (r: seq<Envelope>)
    ensures |r| == |ds|
  {
    seq(|ds|, i requires 0 <= i < |ds| => ds[i].e)
  }

  /** Every inserted message is queued, delivered or removed, exactly once. */
  ghost predicate Conserved(s: State) {
    multiset(s.inserted) == multiset(s.queue) + multiset(Envelopes(s.delivered)) + s.removed
  }

  /** The poll thread is between taking the lock after a wait and releasing it for good. */
  predicate InPass(pc: PollPC) { WillLook(pc) || pc.Unlock? }

  predicate InLoop(pc: PollPC) { pc.Dispatch? || pc.Handling? || pc.Handled? }

  /**
   The pass has looked at the clock since it began, every message due by then is gone, and the
   next wait is for the head.
   */
  ghost predicate PassDone(s: State) {
    && s.entered <= s.read <= s.now
    && (forall i :: 0 <= i < |s.queue| ==> s.queue[i].uptime > s.read)
    && s.next == (if s.queue == [] then FOREVER else s.queue[0].uptime)
  }

  ghost predicate Pass(s: State) {
    && (InPass(s.poll) ==> s.entered <= s.now)
    && (InLoop(s.poll) ==> s.next == FOREVER)
    && (s.poll.Unlock? ==> PassDone(s))
    && s.drained + (if s.readable then 1 else 0) <= s.wakes
    && ((s.poll.Returned? || s.poll.Locked?) && s.poll.woken ==> s.readable)
    && (s.woken ==> s.drained > 0)
  }

  ghost predicate Inv(s: State) {
    && Mutex(s)
    && (!WillLook(s.poll) ==> Covered(s))
    && (s.poll.Unlock? ==> HeadIsExpected(s))
    && TimeoutIsCurrent(s)
    && Order(s.queue, s.delivered, |s.inserted|)
    && Conserved(s)
    && UptimesFit(s)
    && Pass(s)
  }

  lemma FifoIsSorted(q: seq<Envelope>)
    requires Fifo(q)
    ensures Sorted(q)
  {
  }

  lemma InitInv(now: int, n: nat)
    ensures Inv(Init(now, n))
  {
    assert Envelopes([]) == [];
  }

  // ----- preservation, one group of facts at a time -----

  lemma SenderMutex(s: State, i: nat)
    requires Mutex(s) && i < |s.senders| && SenderEnabled(s, s.senders[i])
    ensures Mutex(SenderNext(s, i))
  {
    var s' := SenderNext(s, i);
    forall k | 0 <= k < |s'.senders| ensures SenderHolds(s'.senders[k]) <==> s'.lock == Sender(k) {
      assert SenderHolds(s.senders[k]) <==> s.lock == Sender(k);
    }
  }

  lemma PollMutex(s: State)
    requires Mutex(s) && PollEnabled(s)
    ensures Mutex(PollNext(s))
  {
  }

  lemma MutexStep(s: State, a: Action)
    requires Mutex(s) && Enabled(s, a)
    ensures Mutex(Next(s, a))
  {
    if a.SenderStep? {
      SenderMutex(s, a.i);
    } else if a.PollStep? {
      PollMutex(s);
    }
  }

  lemma InsertFifo(q: seq<Envelope>, e: Envelope)
    requires Fifo(q) && Known(q, e.serial)
    ensures Fifo(Insert(q, e))
  {
    hide Insert, Position;
    FifoIsSorted(q);
    PositionSplits(q, e.uptime);
    InsertPlaces(q, e);
  }

  /** Where each message of the queue is after an insertion. */
  lemma InsertPlaces(q: seq<Envelope>, e: Envelope)
    ensures var p, r := Position(q, e.uptime), Insert(q, e);
            && |r| == |q| + 1 && r[p] == e
            && (forall j :: 0 <= j < p ==> r[j] == q[j])
            && (forall j :: p < j < |r| ==> r[j] == q[j - 1])
  {
    hide Position;
  }

  lemma InsertOrder(q: seq<Envelope>, ds: seq<Delivery>, e: Envelope)
    requires Order(q, ds, e.serial) && e.uptime <= FOREVER
    ensures Order(Insert(q, e), ds, e.serial + 1)
  {
    InsertFifo(q, e);
    var p := Position(q, e.uptime);
    var r := Insert(q, e);
    forall j | 0 <= j < |r| ensures r[j] == e || exists k :: 0 <= k < |q| && r[j] == q[k] {
      if j < p {
        assert r[j] == q[j];
      } else if j > p {
        assert r[j] == q[j - 1];
      }
    }
    assert forall j :: 0 <= j < |r| ==> r[j].serial < e.serial + 1 && r[j].uptime <= FOREVER;
    assert AllPrecede(ds, r);
  }

  lemma {:induction false} KeepFifo(q: seq<Envelope>, f: Filter)
    requires Fifo(q)
    ensures Fifo(Keep(q, f))
  {
    if q != [] {
      KeepFifo(q[1..], f);
      var r := Keep(q[1..], f);
      forall k | 0 <= k < |r|
        ensures q[0].uptime < r[k].uptime || (q[0].uptime == r[k].uptime && q[0].serial < r[k].serial)
      {
        KeepIsWithin(q[1..], f, r[k]);
      }
    }
  }

  lemma KeepOrder(q: seq<Envelope>, ds: seq<Delivery>, n: nat, f: Filter)
    requires Order(q, ds, n)
    ensures Order(Keep(q, f), ds, n)
  {
    KeepFifo(q, f);
    var r := Keep(q, f);
    forall j | 0 <= j < |r| ensures exists k :: 0 <= k < |q| && r[j] == q[k] {
      KeepIsWithin(q, f, r[j]);
    }
  }

  lemma DeliverOrder(q: seq<Envelope>, ds: seq<Delivery>, n: nat, now: int)
    requires Order(q, ds, n) && q != [] && q[0].uptime <= now
    ensures Order(q[1..], ds + [Delivery(q[0], now)], n)
  {
    var r := q[1..];
    assert forall j :: 0 <= j < |r| ==> r[j] == q[j + 1];
  }

  lemma SenderOrder(s: State, i: nat)
    requires Inv(s) && i < |s.senders| && SenderEnabled(s, s.senders[i])
    ensures var s' := SenderNext(s, i); Order(s'.queue, s'.delivered, |s'.inserted|)
  {
    var pc := s.senders[i];
    if pc.HoldSend? {
      InsertOrder(s.queue, s.delivered, Envelope(pc.uptime, pc.handler, pc.what, |s.inserted|));
    } else if pc.HoldRemove? {
      KeepOrder(s.queue, s.delivered, |s.inserted|, pc.f);
    }
  }

  lemma PollOrder(s: State)
    requires Inv(s) && PollEnabled(s)
    ensures var s' := PollNext(s); Order(s'.queue, s'.delivered, |s'.inserted|)
  {
    if s.poll.Dispatch? && s.queue != [] && s.queue[0].uptime <= s.now {
      DeliverOrder(s.queue, s.delivered, |s.inserted|, s.now);
    }
  }

  lemma OrderStep(s: State, a: Action)
    requires Inv(s) && Enabled(s, a)
    ensures var s' := Next(s, a); Order(s'.queue, s'.delivered, |s'.inserted|)
  {
    if a.SenderStep? {
      SenderOrder(s, a.i);
    } else if a.PollStep? {
      PollOrder(s);
    }
  }

  lemma InsertConserves(s: State, i: nat)
    requires Conserved(s) && i < |s.senders| && s.senders[i].HoldSend?
    ensures Conserved(SenderNext(s, i))
  {
    var p := Position(s.queue, s.senders[i].uptime);
    assert s.queue == s.queue[..p] + s.queue[p..];
  }

  lemma DispatchConserves(s: State)
    requires Conserved(s) && s.poll.Dispatch?
    ensures Conserved(DispatchStep(s))
  {
    if s.queue != [] && s.queue[0].uptime <= s.now {
      assert s.queue == [s.queue[0]] + s.queue[1..];
      assert Envelopes(DispatchStep(s).delivered) == Envelopes(s.delivered) + [s.queue[0]];
    }
  }

  lemma SenderConserves(s: State, i: nat)
    requires Conserved(s) && i < |s.senders| && SenderEnabled(s, s.senders[i])
    ensures Conserved(SenderNext(s, i))
  {
    var pc := s.senders[i];
    if pc.HoldSend? {
      InsertConserves(s, i);
    } else if pc.HoldRemove? {
      KeepAndDroppedSplit(s.queue, pc.f);
    }
  }

  lemma PollConserves(s: State)
    requires Conserved(s) && PollEnabled(s)
    ensures Conserved(PollNext(s))
  {
    var s' := PollNext(s);
    if s.poll.Dispatch? {
      DispatchConserves(s);
    } else {
      assert s'.queue == s.queue && s'.inserted == s.inserted && s'.delivered == s.delivered && s'.removed == s.removed;
    }
  }

  lemma ConservedStep(s: State, a: Action)
    requires Conserved(s) && Enabled(s, a)
    ensures Conserved(Next(s, a))
  {
    if a.SenderStep? {
      SenderConserves(s, a.i);
    } else if a.PollStep? {
      PollConserves(s);
    } else {
      var s' := Next(s, a);
      assert s'.queue == s.queue && s'.inserted == s.inserted && s'.delivered == s.delivered && s'.removed == s.removed;
    }
  }

  /** A sender's step keeps the poll thread's next look at the queue assured. */
  lemma SenderCovers(s: State, i: nat)
    requires Inv(s) && i < |s.senders| && SenderEnabled(s, s.senders[i])
    ensures var s' := SenderNext(s, i);
            && (!WillLook(s'.poll) ==> Covered(s'))
            && (s'.poll.Unlock? ==> HeadIsExpected(s'))
  {
    var s' := SenderNext(s, i);
    var pc := s.senders[i];
    if pc.HoldSend? {
      var p := Position(s.queue, pc.uptime);
      if p == 0 && !s.sending {
        assert WillWake(s'.senders[i]);
      } else if p > 0 {
        assert s'.queue[0] == s.queue[0];
      }
    } else if pc.HoldRemove? {
      FifoIsSorted(s.queue);
      if Keep(s.queue, pc.f) != [] {
        KeepHead(s.queue, pc.f);
      }
    }
    if !WillLook(s.poll) && exists k :: 0 <= k < |s.senders| && WillWake(s.senders[k]) {
      var k :| 0 <= k < |s.senders| && WillWake(s.senders[k]);
      if k == i && pc.Release? {
        assert WillWake(s'.senders[i]);
      } else if k != i {
        assert s'.senders[k] == s.senders[k];
      }
    }
  }

  lemma PollCovers(s: State)
    requires Inv(s) && PollEnabled(s)
    ensures var s' := PollNext(s);
            && (!WillLook(s'.poll) ==> Covered(s'))
            && (s'.poll.Unlock? ==> HeadIsExpected(s'))
  {
  }

  lemma CoveredStep(s: State, a: Action)
    requires Inv(s) && Enabled(s, a)
    ensures var s' := Next(s, a);
            && (!WillLook(s'.poll) ==> Covered(s'))
            && (s'.poll.Unlock? ==> HeadIsExpected(s'))
  {
    var s' := Next(s, a);
    if a.SenderStep? {
      SenderCovers(s, a.i);
    } else if a.PollStep? {
      PollCovers(s);
    } else if !WillLook(s.poll) && exists k :: 0 <= k < |s.senders| && WillWake(s.senders[k]) {
      var k :| 0 <= k < |s.senders| && WillWake(s.senders[k]);
      assert WillWake(s'.senders[k]);
    }
  }

  lemma StepPreserves(s: State, a: Action)
    requires Inv(s) && Enabled(s, a)
    ensures Inv(Next(s, a))
  {
    MutexStep(s, a);
    CoveredStep(s, a);
    OrderStep(s, a);
    ConservedStep(s, a);
    TimeoutStep(s, a);
    PassStep(s, a);
  }

  /** A sender that holds the lock finds the poll thread outside the message loop. */
  lemma SenderPass(s: State, i: nat)
    requires Mutex(s) && Pass(s) && i < |s.senders| && SenderEnabled(s, s.senders[i])
    ensures Pass(SenderNext(s, i))
  {
    hide InPass, InLoop, Insert, Keep, Dropped, Position;
    var s' := SenderNext(s, i);
    assert s.poll.Unlock? ==> !SenderHolds(s.senders[i]);
    assert s.poll.Unlock? ==> s'.queue == s.queue;
    assert s'.poll == s.poll && s'.next == s.next && s'.now == s.now;
    assert s.poll.Unlock? ==> PassDone(s');
  }

  lemma DispatchPass(s: State)
    requires Fifo(s.queue) && Pass(s) && s.poll.Dispatch?
    ensures Pass(DispatchStep(s))
  {
    var s' := DispatchStep(s);
    assert s'.poll.Unlock? ==> s'.queue == s.queue && s'.read == s.now;
  }

  lemma PassStep(s: State, a: Action)
    requires Mutex(s) && Order(s.queue, s.delivered, |s.inserted|) && Pass(s) && Enabled(s, a)
    ensures Pass(Next(s, a))
  {
    if a.SenderStep? {
      SenderPass(s, a.i);
    } else if a.PollStep? {
      if s.poll.Dispatch? {
        DispatchPass(s);
      } else {
        hide Mutex, Order;
        assert Pass(PollNext(s));
      }
    } else {
      hide Mutex, Order;
      assert s.poll.Unlock? && PassDone(s) ==> PassDone(Next(s, a));
    }
  }

  ghost predicate UptimesFit(s: State) {
    forall i :: 0 <= i < |s.senders| ==>
      (s.senders[i].WantSend? || s.senders[i].HoldSend?) ==> s.senders[i].uptime <= FOREVER
  }

  lemma SenderTimeout(s: State, i: nat)
    requires UptimesFit(s) && TimeoutIsCurrent(s) && i < |s.senders| && SenderEnabled(s, s.senders[i])
    ensures UptimesFit(SenderNext(s, i)) && TimeoutIsCurrent(SenderNext(s, i))
  {
    var s' := SenderNext(s, i);
    assert s'.poll == s.poll && s'.next == s.next;
  }

  lemma TimeoutStep(s: State, a: Action)
    requires UptimesFit(s) && TimeoutIsCurrent(s) && Enabled(s, a)
    ensures TimeoutIsCurrent(Next(s, a)) && UptimesFit(Next(s, a))
  {
    if a.SenderStep? {
      SenderTimeout(s, a.i);
    } else if a.Enter? {
      assert Next(s, a).poll.t == EffectiveTimeout(a.timeoutMillis, s.next, s.now);
    } else if a.PollStep? {
      assert !PollNext(s).poll.Computed? && !PollNext(s).poll.Waiting? && PollNext(s).senders == s.senders;
    }
  }

  lemma {:induction false} RunKeepsInv(s: State, run: seq<Action>)
    requires Inv(s) && Possible(s, run)
    ensures Inv(Exec(s, run))
    decreases |run|
  {
    if run != [] {
      StepPreserves(s, run[0]);
      RunKeepsInv(Next(s, run[0]), run[1..]);
    }
  }

  // ----- what the queue promises -----

  /**
   No lost wake-up. In every interleaving, while the poll thread is about to wait
   or waiting, a wake-up for the head of the queue is in the pipe or on its way,
   or the thread waits for it already: then its wait is over less than a
   millisecond after the head is due (counted from when the timeout was
   computed), unless the head is more than LONGEST_DELAY away.
   */
  lemma NoLostWakeup(now: int, n: nat, run: seq<Action>)
    requires Possible(Init(now, n), run)
    ensures var s := Exec(Init(now, n), run);
            (s.poll.Computed? || s.poll.Waiting?) && s.queue != [] && s.queue[0].uptime < FOREVER ==>
              || s.readable
              || (exists i :: 0 <= i < |s.senders| && WillWake(s.senders[i]))
              || (s.next <= s.queue[0].uptime &&
                  (s.next - s.poll.start <= LONGEST_DELAY ==>
                     var due := if s.queue[0].uptime > s.poll.start then s.queue[0].uptime else s.poll.start;
                     0 <= s.poll.t && s.poll.start + s.poll.t * NANOS_PER_MILLI < due + NANOS_PER_MILLI))
  {
    InitInv(now, n);
    RunKeepsInv(Init(now, n), run);
    var s := Exec(Init(now, n), run);
    if (s.poll.Computed? || s.poll.Waiting?) && s.queue != [] && s.queue[0].uptime < FOREVER
       && HeadIsExpected(s) {
      var c :| s.poll.t == EffectiveTimeout(c, s.next, s.poll.start);
      WaitEndsInTime(c, s.next, s.poll.start);
    }
  }

  /**
   The top of the message loop: a head that is due is handed out, it alone, at that time; otherwise
   the loop is left, and no message at all is due.
   */
  lemma DueHeadIsHandedOut(s: State)
    requires Inv(s) && s.poll.Dispatch?
    ensures var r := Next(s, PollStep);
            if s.queue != [] && s.queue[0].uptime <= s.now then
              && r.poll.Handling? && r.queue == s.queue[1..] && r.sending
              && r.delivered == s.delivered + [Delivery(s.queue[0], s.now)]
            else
              && r.poll.Unlock? && r.queue == s.queue && r.delivered == s.delivered
              && (forall i :: 0 <= i < |s.queue| ==> s.queue[i].uptime > s.now)
  {
    FifoIsSorted(s.queue);
  }

  /**
   What the message loop is for. In every run, when a pass of the poll thread is about to release
   the lock, every message ever sent that was due when the pass began has been handed to its
   handler or was removed, and so has every one that was due at the last look at the clock.
   */
  lemma PassHandlesAllDue(now: int, n: nat, run: seq<Action>, e: Envelope)
    requires Possible(Init(now, n), run)
    ensures var s := Exec(Init(now, n), run);
            s.poll.Unlock? && e in s.inserted && e.uptime <= s.read ==> e in Envelopes(s.delivered) || e in s.removed
    ensures var s := Exec(Init(now, n), run); s.poll.Unlock? ==> s.entered <= s.read <= s.now
  {
    InitInv(now, n);
    RunKeepsInv(Init(now, n), run);
    var s := Exec(Init(now, n), run);
    if e in s.inserted {
      InsertedIsSomewhere(s, e);
    }
  }

  lemma InsertedIsSomewhere(s: State, e: Envelope)
    requires Conserved(s) && e in s.inserted
    ensures e in s.queue || e in Envelopes(s.delivered) || e in s.removed
  {
    assert e in multiset(s.inserted);
    assert e in multiset(s.queue) || e in multiset(Envelopes(s.delivered)) || e in s.removed;
  }

  /** Every poll that a wake-up ends uses up one: the pipe is drained, and there are no more such polls than wake() calls. */
  lemma WakesAreConsumed(now: int, n: nat, run: seq<Action>)
    requires Possible(Init(now, n), run)
    ensures var s := Exec(Init(now, n), run); s.drained + (if s.readable then 1 else 0) <= s.wakes
    ensures var s := Exec(Init(now, n), run); s.poll.Reset? && s.woken ==> s.drained > 0
  {
    InitInv(now, n);
    RunKeepsInv(Init(now, n), run);
  }

  /** A message sent at the head while the poll thread waits always leaves a wake-up behind. */
  lemma SendAtHeadWakes(s: State, i: nat)
    requires Inv(s) && s.poll.Waiting? && i < |s.senders| && s.senders[i].HoldSend?
    requires s.queue == [] || s.senders[i].uptime < s.queue[0].uptime
    ensures SenderNext(s, i).senders[i] == Release(true)
  {
  }

  /** A send wakes the poll thread exactly if its message became the head and no message is being handed out. */
  lemma SendWakesExactly(s: State, i: nat)
    requires Inv(s) && i < |s.senders| && s.senders[i].HoldSend?
    ensures var u := s.senders[i].uptime;
            SenderNext(s, i).senders[i]
            == Release(!(s.poll.Handling? || s.poll.Handled?) && (s.queue == [] || u < s.queue[0].uptime))
  {
  }

  /**
   Delivery order and conservation: no message is delivered early; one delivered
   later was inserted later or is due strictly later; and every inserted message
   is queued, delivered or removed exactly once.
   */
  lemma DeliveryIsOrdered(now: int, n: nat, run: seq<Action>)
    requires Possible(Init(now, n), run)
    ensures var s := Exec(Init(now, n), run);
            && (forall i :: 0 <= i < |s.delivered| ==> s.delivered[i].e.uptime <= s.delivered[i].at)
            && (forall i, j :: 0 <= i < j < |s.delivered| ==> MayPrecede(s.delivered[i].e, s.delivered[j].e))
            && Sorted(s.queue)
            && multiset(s.inserted) == multiset(s.queue) + multiset(Envelopes(s.delivered)) + s.removed
  {
    InitInv(now, n);
    RunKeepsInv(Init(now, n), run);
    FifoIsSorted(Exec(Init(now, n), run).queue);
  }

  /** A message delayed by more than LONGEST_DELAY makes a poll without timeout wait without limit. */
  lemma FarMessageGetsNoTimeout(next: int, now: int)
    requires next < FOREVER && next - now > LONGEST_DELAY
    ensures EffectiveTimeout(-1, next, now) == -1
  {
  }
}
