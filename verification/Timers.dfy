/**
 TimedEventQ: a list of timed events in order of their due time.
 */
module Timers {

  // Adding puts an event behind the ones due no later; handleAlarmEvent takes off every event that is
  // due, fires them in order and queues the periodic ones again. Runs are sequential; the clock
  // readings are parameters.

  const MILLION: int := 1_000_000
  const MAX_PERIOD_DELAY: int := 2_146_483
  const INT_MAX: int := 0x7fff_ffff
  const TOKENS: nat := 0x1000_0000

  // ----- time values -----

  datatype Time = Time(sec: int, usec: int)

  const INFINITY: Time := Time(INT_MAX, MILLION - 1)

  predicate Normal(t: Time) { 0 <= t.usec < MILLION }

  function Micros(t: Time): int { t.sec * MILLION + t.usec }

  /** time_overthan: a is at b or after it. */
  predicate NotBefore(a: Time, b: Time) {
    a.sec > b.sec || (a.sec == b.sec && a.usec >= b.usec)
  }

  /** On normalised times the comparison is that of the instants. */
  lemma NotBeforeIsInstants(a: Time, b: Time)
    requires Normal(a) && Normal(b)
    ensures NotBefore(a, b) <==> Micros(a) >= Micros(b)
  {
  }

  /** time_plus, as a value. */
  function Plus(t: Time, ms: nat): Time {
    if ms > MAX_PERIOD_DELAY || t.usec < 0 then t
    else
      var u := t.usec + ms * 1000;
      Time(t.sec + u / MILLION, u % MILLION)
  }

  /** time_plus: the loop. The sum of microseconds never leaves 31 bits. */
  method TimePlus(t: Time, ms: nat) returns (r: Time)
    requires Normal(t)
    ensures r == Plus(t, ms) && Normal(r)
    ensures Micros(r) == Micros(t) + (if ms <= MAX_PERIOD_DELAY then ms * 1000 else 0)
  {
    r := t;
    if ms > MAX_PERIOD_DELAY {
      return;
    }
    assert r.usec + ms * 1000 <= INT_MAX;
    r := r.(usec := r.usec + ms * 1000);
    while r.usec >= MILLION
      invariant 0 <= r.usec && Micros(r) == Micros(t) + ms * 1000
    {
      r := Time(r.sec + 1, r.usec - MILLION);
    }
  }

  /** time_interval: the distance, never below zero. */
  function Interval(later: Time, earlier: Time): (r: Time)
    requires Normal(later) && Normal(earlier)
    ensures Normal(r) && Micros(r) == if NotBefore(later, earlier) then Micros(later) - Micros(earlier) else 0
  {
    var sec, usec := later.sec - earlier.sec, later.usec - earlier.usec;
    var d := if usec < 0 then Time(sec - 1, usec + MILLION) else Time(sec, usec);
    if d.sec < 0 then Time(0, 0) else d
  }

  // ----- the queue as a value -----

  datatype Kind = Callback | Recycle | Condition | Semaphore

  predicate Periodic(k: Kind) { k.Condition? || k.Semaphore? }

  /** id numbers the events as they are added, serial every insertion into the list (a history the source does not keep). */
  datatype Event = Event(due: Time, kind: Kind, handler: nat, token: nat, period: nat, id: nat, serial: nat)

  datatype Firing = Firing(id: nat, kind: Kind, due: Time, now: Time)

  /**
   The list and the token counter, and the history: how many events and insertions, what fired, what was
   cancelled, and the time each event was asked for, in microseconds. */
  datatype Queue = Queue(list: seq<Event>, nextToken: nat, ids: nat, serials: nat, fired: seq<Firing>, cancelled: set<nat>, asked: map<nat, int>)

  function NewQueue(): Queue { Queue([], 1, 0, 0, [], {}, map[]) }

  /** Events at the front that are due no later than t. */
  function Place(list: seq<Event>, t: Time): (k: nat)
    ensures k <= |list|
    ensures forall i :: 0 <= i < k ==> NotBefore(t, list[i].due)
    ensures k < |list| ==> !NotBefore(t, list[k].due)
  {
    if list == [] || !NotBefore(t, list[0].due) then 0 else 1 + Place(list[1..], t)
  }

  lemma PlaceIsUnique(list: seq<Event>, t: Time, k: nat)
    requires k <= |list|
    requires forall i :: 0 <= i < k ==> NotBefore(t, list[i].due)
    requires k < |list| ==> !NotBefore(t, list[k].due)
    ensures Place(list, t) == k
  {
    hide Place, NotBefore;
    var p := Place(list, t);
    assert p < |list| ==> !NotBefore(t, list[p].due);
    assert k < |list| ==> !NotBefore(t, list[k].due);
  }

  function Insert(list: seq<Event>, e: Event): seq<Event> {
    var k := Place(list, e.due);
    list[..k] + [e] + list[k..]
  }

  /** addEventInternal. */
  function Enter(q: Queue, e: Event): Queue {
    q.(list := Insert(q.list, e.(serial := q.serials)), serials := q.serials + 1)
  }

  /** Insertion of a new event, and its token. */
  function Admit(q: Queue, due: Time, kind: Kind, handler: nat, period: nat): Queue {
    var e := Event(due, kind, handler, q.nextToken, period, q.ids, 0);
    Enter(q, e).(ids := q.ids + 1, nextToken := (q.nextToken + 1) % TOKENS)
  }

  predicate LaterRefused(ms: nat, kind: Kind, handler: nat) { handler == 0 || ms > MAX_PERIOD_DELAY || Periodic(kind) }

  predicate PeriodRefused(ms: nat, kind: Kind, handler: nat) { handler == 0 || ms > MAX_PERIOD_DELAY || !Periodic(kind) }

  /** The first event with a token. */
  function Find(list: seq<Event>, token: nat): (k: nat)
    ensures k <= |list|
    ensures forall i :: 0 <= i < k ==> list[i].token != token
    ensures k < |list| ==> list[k].token == token
  {
    if list == [] || list[0].token == token then 0 else 1 + Find(list[1..], token)
  }

  function Delete(q: Queue, token: nat): Queue {
    var k := Find(q.list, token);
    if k == |q.list| then q
    else q.(list := q.list[..k] + q.list[k + 1..], cancelled := q.cancelled + {q.list[k].id})
  }

  /** The calls that add or cancel. */
  datatype Call =
    | Later(ms: nat, kind: Kind, handler: nat, now: Time)
    | At(due: Time, kind: Kind, handler: nat, uninitialised: nat)
    | Every(ms: nat, kind: Kind, handler: nat, now: Time)
    | Cancel(token: nat)

  /** The time asked for is noted; it plays no part in what the queue does. */
  function Noted(q: Queue, time: int): Queue { q.(asked := q.asked[q.ids := time]) }

  function Apply(q: Queue, call: Call): Queue {
    match call
    case Later(ms, kind, handler, now) =>
      if LaterRefused(ms, kind, handler) then q
      else Admit(Noted(q, Micros(now) + 1000 * ms), Plus(now, ms), kind, handler, 0)
    case At(due, kind, handler, uninitialised) =>
      if handler == 0 then q else Admit(q, due, kind, handler, uninitialised)
    case Every(ms, kind, handler, now) =>
      if PeriodRefused(ms, kind, handler) then q
      else Admit(Noted(q, Micros(now) + 1000 * ms), Plus(now, ms), kind, handler, ms)
    case Cancel(token) => Delete(q, token)
  }

  function ApplyAll(q: Queue, calls: seq<Call>): Queue
    decreases |calls|
  {
    if calls == [] then q else ApplyAll(Apply(q, calls[0]), calls[1..])
  }

  /**
   One handleAlarmEvent: the time it reads, the clock when a periodic event is queued again, and
   the calls each handler makes; the last two by the number of events not yet done.
   */
  datatype Alarm = Alarm(now: Time, clock: nat -> Time, calls: nat -> seq<Call>)

  function Logged(q: Queue, e: Event, now: Time): Queue {
    q.(fired := q.fired + [Firing(e.id, e.kind, e.due, now)])
  }

  /** Fires the first of the events taken off: a periodic one is queued again, the handler of another may make calls. */
  function FireOne(q: Queue, due: seq<Event>, a: Alarm): Queue
    requires due != []
  {
    var e := due[0];
    if Periodic(e.kind) then Enter(Logged(q, e, a.now), e.(due := Plus(a.clock(|due|), e.period)))
    else ApplyAll(Logged(q, e, a.now), a.calls(|due|))
  }

  /** What one alarm does to the events it took off, in order. */
  function FireAll(q: Queue, due: seq<Event>, a: Alarm): Queue
    decreases |due|
  {
    if due == [] then q else FireAll(FireOne(q, due, a), due[1..], a)
  }

  function Handle(q: Queue, a: Alarm): Queue {
    var k := Place(q.list, a.now);
    FireAll(q.(list := q.list[k..]), q.list[..k], a)
  }

  // ----- what every run keeps -----

  /** By due time, and in order of insertion where that is the same. */
  predicate Earlier(a: Event, b: Event) {
    !NotBefore(a.due, b.due) || (a.due == b.due && a.serial < b.serial)
  }

  ghost predicate Ordered(list: seq<Event>) {
    forall i, j :: 0 <= i < j < |list| ==> Earlier(list[i], list[j])
  }

  ghost predicate DistinctIds(list: seq<Event>) {
    forall i, j :: 0 <= i < j < |list| ==> list[i].id != list[j].id
  }

  ghost predicate Numbered(list: seq<Event>, ids: nat, serials: nat) {
    forall i :: 0 <= i < |list| ==> list[i].id < ids && list[i].serial < serials
  }

  /** A fired one-shot event fired once, on time, and is gone. */
  ghost predicate History(fired: seq<Firing>, list: seq<Event>, ids: nat) {
    && (forall f :: 0 <= f < |fired| ==> fired[f].id < ids && NotBefore(fired[f].now, fired[f].due))
    && (forall f, i :: 0 <= f < |fired| && 0 <= i < |list| && !Periodic(fired[f].kind) ==> fired[f].id != list[i].id)
    && (forall f, g :: 0 <= f < g < |fired| && !Periodic(fired[f].kind) ==> fired[f].id != fired[g].id)
  }

  ghost predicate HasId(list: seq<Event>, id: nat) { exists i :: 0 <= i < |list| && list[i].id == id }

  ghost predicate FiredOnce(fired: seq<Firing>, id: nat) {
    exists f :: 0 <= f < |fired| && !Periodic(fired[f].kind) && fired[f].id == id
  }

  /** The events an alarm has taken off and not yet fired: neither queued, nor fired for good, nor cancelled. */
  ghost predicate Held(q: Queue, held: seq<Event>) {
    && DistinctIds(held)
    && (forall i :: 0 <= i < |held| ==> held[i].id < q.ids && held[i].id !in q.cancelled)
    && (forall i, j :: 0 <= i < |held| && 0 <= j < |q.list| ==> held[i].id != q.list[j].id)
    && (forall f, i :: 0 <= f < |q.fired| && 0 <= i < |held| && !Periodic(q.fired[f].kind) ==> q.fired[f].id != held[i].id)
  }

  /** A cancelled event is neither queued nor fired as a one-shot event. */
  ghost predicate Gone(q: Queue) {
    && (forall id :: id in q.cancelled ==> id < q.ids)
    && (forall i :: 0 <= i < |q.list| ==> q.list[i].id !in q.cancelled)
    && (forall f :: 0 <= f < |q.fired| && !Periodic(q.fired[f].kind) ==> q.fired[f].id !in q.cancelled)
  }

  /** Every event ever added is queued, cancelled, fired for good, or held by the alarm. */
  ghost predicate Accounted(q: Queue, held: seq<Event>) {
    forall id: nat :: id < q.ids ==> HasId(q.list, id) || id in q.cancelled || FiredOnce(q.fired, id) || HasId(held, id)
  }

  ghost predicate Shape(q: Queue) {
    Ordered(q.list) && DistinctIds(q.list) && Numbered(q.list, q.ids, q.serials) && History(q.fired, q.list, q.ids)
  }

  /** What holds of the queue while an alarm holds some events; between calls it holds none. */
  ghost predicate Inv(q: Queue, held: seq<Event>) {
    Shape(q) && Gone(q) && Held(q, held) && Accounted(q, held)
  }

  lemma NewInv()
    ensures Inv(NewQueue(), [])
  {
  }

  lemma NotBeforeTotal(a: Time, b: Time)
    ensures NotBefore(a, b) || NotBefore(b, a)
    ensures NotBefore(a, b) && NotBefore(b, a) ==> a == b
  {
  }

  lemma NotBeforeTransitive(a: Time, b: Time, c: Time)
    requires NotBefore(a, b) && NotBefore(b, c)
    ensures NotBefore(a, c)
  {
  }

  /** Behind the place of t, every event is due after t. */
  lemma AfterPlace(list: seq<Event>, t: Time, i: nat)
    requires Ordered(list) && Place(list, t) <= i < |list|
    ensures !NotBefore(t, list[i].due)
  {
    hide Place, NotBefore;
    var k := Place(list, t);
    if k < i && NotBefore(t, list[i].due) {
      assert Earlier(list[k], list[i]);
      NotBeforeTotal(list[k].due, list[i].due);
      NotBeforeTransitive(t, list[i].due, list[k].due);
    }
  }

  /** The place of each event after an insertion. */
  lemma InsertAt(list: seq<Event>, e: Event)
    ensures var k, r := Place(list, e.due), Insert(list, e);
            && |r| == |list| + 1 && r[k] == e
            && (forall i :: 0 <= i < k ==> r[i] == list[i])
            && (forall i :: k < i < |r| ==> r[i] == list[i - 1])
  {
    hide Place;
  }

  /** Insertion of the newest event keeps the order. */
  lemma InsertIsOrdered(list: seq<Event>, e: Event, ids: nat)
    requires Ordered(list) && Numbered(list, ids, e.serial)
    ensures Ordered(Insert(list, e))
  {
    hide Place, Insert, NotBefore;
    InsertAt(list, e);
    var k, r := Place(list, e.due), Insert(list, e);
    forall i, j | 0 <= i < j < |r|
      ensures Earlier(r[i], r[j])
    {
      if i == k {
        AfterPlace(list, e.due, j - 1);
      } else if j == k {
        assert NotBefore(e.due, list[i].due);
        NotBeforeTotal(e.due, list[i].due);
      }
    }
  }

  lemma InsertKeepsIds(list: seq<Event>, e: Event, ids: nat, serials: nat)
    requires DistinctIds(list) && Numbered(list, ids, serials)
    requires forall i :: 0 <= i < |list| ==> list[i].id != e.id
    ensures DistinctIds(Insert(list, e))
    ensures e.id < ids && e.serial == serials ==> Numbered(Insert(list, e), ids, serials + 1)
  {
    hide Place, Insert;
    InsertAt(list, e);
  }

  lemma InsertKeepsHistory(fired: seq<Firing>, list: seq<Event>, e: Event, ids: nat)
    requires History(fired, list, ids)
    requires forall f :: 0 <= f < |fired| && !Periodic(fired[f].kind) ==> fired[f].id != e.id
    ensures History(fired, Insert(list, e), ids)
  {
    hide Place, Insert, NotBefore, Periodic;
    InsertAt(list, e);
  }

  lemma InsertHasId(list: seq<Event>, e: Event, id: nat)
    ensures HasId(Insert(list, e), id) <==> HasId(list, id) || id == e.id
  {
    hide Place, Insert;
    InsertAt(list, e);
    var k, r := Place(list, e.due), Insert(list, e);
    if HasId(list, id) {
      var i :| 0 <= i < |list| && list[i].id == id;
      assert r[if i < k then i else i + 1].id == id;
    }
    if id == e.id {
      assert r[k].id == id;
    }
    if HasId(r, id) && id != e.id {
      var i :| 0 <= i < |r| && r[i].id == id;
      assert list[if i < k then i else i - 1].id == id;
    }
  }

  /** Entering an event whose id is known, and neither queued, fired for good nor cancelled. */
  lemma EnterShape(q: Queue, e: Event)
    requires Shape(q) && Gone(q) && e.id < q.ids && e.id !in q.cancelled
    requires forall i :: 0 <= i < |q.list| ==> q.list[i].id != e.id
    requires forall f :: 0 <= f < |q.fired| && !Periodic(q.fired[f].kind) ==> q.fired[f].id != e.id
    ensures Shape(Enter(q, e)) && Gone(Enter(q, e))
  {
    hide Ordered, DistinctIds, Numbered, History, Insert;
    var x := e.(serial := q.serials);
    InsertIsOrdered(q.list, x, q.ids);
    InsertKeepsIds(q.list, x, q.ids, q.serials);
    InsertKeepsHistory(q.fired, q.list, x, q.ids);
    InsertAt(q.list, x);
  }

  lemma EnterHeld(q: Queue, e: Event, held: seq<Event>)
    requires Held(q, held) && forall i :: 0 <= i < |held| ==> held[i].id != e.id
    ensures Held(Enter(q, e), held)
  {
    hide Insert, Place;
    InsertAt(q.list, e.(serial := q.serials));
  }

  lemma AdmitKeeps(q: Queue, due: Time, kind: Kind, handler: nat, period: nat, held: seq<Event>)
    requires Inv(q, held)
    ensures Inv(Admit(q, due, kind, handler, period), held)
  {
    hide Insert, Ordered, NotBefore, HasId, FiredOnce;
    var e := Event(due, kind, handler, q.nextToken, period, q.ids, 0);
    var q1 := q.(ids := q.ids + 1);
    assert Shape(q1) && Gone(q1) && Held(q1, held);
    EnterShape(q1, e);
    EnterHeld(q1, e, held);
    var r := Admit(q, due, kind, handler, period);
    forall id: nat | id < r.ids
      ensures HasId(r.list, id) || id in r.cancelled || FiredOnce(r.fired, id) || HasId(held, id)
    {
      InsertHasId(q.list, e.(serial := q.serials), id);
    }
  }

  lemma DeleteKeeps(q: Queue, token: nat, held: seq<Event>)
    requires Inv(q, held)
    ensures Inv(Delete(q, token), held)
  {
    hide Find, Accounted, Shape, Gone, Held;
    if Find(q.list, token) < |q.list| {
      DeleteShape(q, token);
      DeleteGone(q, token, held);
      DeleteAccounts(q, token, held);
    }
  }

  lemma DeleteShape(q: Queue, token: nat)
    requires Shape(q) && Find(q.list, token) < |q.list|
    ensures Shape(Delete(q, token))
  {
    hide Find, Earlier, NotBefore;
    var k, r := Find(q.list, token), Delete(q, token);
    assert forall i :: 0 <= i < |r.list| ==> r.list[i] == q.list[if i < k then i else i + 1];
  }

  lemma DeleteGone(q: Queue, token: nat, held: seq<Event>)
    requires Shape(q) && Gone(q) && Held(q, held) && Find(q.list, token) < |q.list|
    ensures Gone(Delete(q, token)) && Held(Delete(q, token), held)
  {
    hide Find, Ordered, NotBefore;
    var k, r := Find(q.list, token), Delete(q, token);
    assert forall i :: 0 <= i < |r.list| ==> r.list[i] == q.list[if i < k then i else i + 1];
  }

  lemma DeleteAccounts(q: Queue, token: nat, held: seq<Event>)
    requires Accounted(q, held) && Find(q.list, token) < |q.list|
    ensures Accounted(Delete(q, token), held)
  {
    hide Find, FiredOnce;
    var k, r := Find(q.list, token), Delete(q, token);
    forall id: nat | id < q.ids && HasId(q.list, id)
      ensures HasId(r.list, id) || id in r.cancelled
    {
      var i :| 0 <= i < |q.list| && q.list[i].id == id;
      if i != k {
        assert r.list[if i < k then i else i - 1] == q.list[i];
      }
    }
  }

  lemma NotedKeeps(q: Queue, time: int, held: seq<Event>)
    requires Inv(q, held)
    ensures Inv(Noted(q, time), held)
  {
    hide Ordered, DistinctIds, Numbered, History, HasId, FiredOnce;
  }

  /** Every call keeps the order, the numbering, the history and the account, also inside an alarm. */
  lemma ApplyKeeps(q: Queue, call: Call, held: seq<Event>)
    requires Inv(q, held)
    ensures Inv(Apply(q, call), held)
  {
    hide Inv, Admit, Delete, Plus;
    match call {
      case Later(ms, kind, handler, now) =>
        NotedKeeps(q, Micros(now) + 1000 * ms, held);
        AdmitKeeps(Noted(q, Micros(now) + 1000 * ms), Plus(now, ms), kind, handler, 0, held);
      case At(due, kind, handler, uninitialised) => AdmitKeeps(q, due, kind, handler, uninitialised, held);
      case Every(ms, kind, handler, now) =>
        NotedKeeps(q, Micros(now) + 1000 * ms, held);
        AdmitKeeps(Noted(q, Micros(now) + 1000 * ms), Plus(now, ms), kind, handler, ms, held);
      case Cancel(token) => DeleteKeeps(q, token, held);
    }
  }

  lemma {:induction false} ApplyAllKeeps(q: Queue, calls: seq<Call>, held: seq<Event>)
    requires Inv(q, held)
    ensures Inv(ApplyAll(q, calls), held)
    decreases |calls|
  {
    hide Inv, Apply;
    if calls != [] {
      ApplyKeeps(q, calls[0], held);
      ApplyAllKeeps(Apply(q, calls[0]), calls[1..], held);
    }
  }

  // ----- one alarm -----

  ghost predicate AllDue(due: seq<Event>, now: Time) {
    forall i :: 0 <= i < |due| ==> NotBefore(now, due[i].due)
  }

  /** Noting a firing: the event leaves the held ones; a one-shot event is then accounted for as fired. */
  lemma LogShape(q: Queue, due: seq<Event>, now: Time)
    requires Inv(q, due) && due != [] && AllDue(due, now)
    ensures var q1 := Logged(q, due[0], now); Shape(q1) && Gone(q1) && Held(q1, due[1..])
  {
    hide Ordered, Numbered, NotBefore, Accounted;
    assert forall i :: 0 <= i < |due[1..]| ==> due[1..][i] == due[i + 1];
  }

  lemma LogAccounts(q: Queue, due: seq<Event>, now: Time, id: nat)
    requires Accounted(q, due) && due != [] && id < q.ids
    ensures var q1 := Logged(q, due[0], now);
            || HasId(q1.list, id) || id in q1.cancelled || FiredOnce(q1.fired, id) || HasId(due[1..], id)
            || (id == due[0].id && Periodic(due[0].kind))
  {
    var q1 := Logged(q, due[0], now);
    if FiredOnce(q.fired, id) {
      var f :| 0 <= f < |q.fired| && !Periodic(q.fired[f].kind) && q.fired[f].id == id;
      assert q1.fired[f] == q.fired[f];
    } else if HasId(due, id) {
      var i :| 0 <= i < |due| && due[i].id == id;
      if i > 0 {
        assert due[1..][i - 1].id == id;
      } else {
        assert q1.fired[|q.fired|].id == id;
      }
    }
  }

  lemma FireOneKeeps(q: Queue, due: seq<Event>, a: Alarm)
    requires Inv(q, due) && due != [] && AllDue(due, a.now)
    ensures Inv(FireOne(q, due, a), due[1..])
  {
    hide HasId, FiredOnce, Insert, NotBefore, Ordered, Numbered, History, DistinctIds, Gone, Held, Accounted, ApplyAll;
    LogShape(q, due, a.now);
    var e := due[0];
    var q1 := Logged(q, e, a.now);
    if Periodic(e.kind) {
      var x := e.(due := Plus(a.clock(|due|), e.period));
      HeldFirst(q, due, a.now);
      EnterShape(q1, x);
      EnterHeld(q1, x, due[1..]);
      EnterAccounts(q, due, a.now, x);
    } else {
      PlainAccounts(q, due, a.now);
      ApplyAllKeeps(q1, a.calls(|due|), due[1..]);
    }
  }

  lemma HeldFirst(q: Queue, due: seq<Event>, now: Time)
    requires Held(q, due) && due != []
    ensures var e, q1 := due[0], Logged(q, due[0], now);
            && e.id < q.ids && e.id !in q.cancelled
            && (forall i :: 0 <= i < |q.list| ==> q.list[i].id != e.id)
            && (forall i :: 0 <= i < |due[1..]| ==> due[1..][i].id != e.id)
            && (Periodic(e.kind) ==> forall f :: 0 <= f < |q1.fired| && !Periodic(q1.fired[f].kind) ==> q1.fired[f].id != e.id)
  {
  }

  lemma EnterAccounts(q: Queue, due: seq<Event>, now: Time, x: Event)
    requires Accounted(q, due) && due != [] && x.id == due[0].id
    ensures Accounted(Enter(Logged(q, due[0], now), x), due[1..])
  {
    hide HasId, FiredOnce, Insert;
    var r := Enter(Logged(q, due[0], now), x);
    forall id: nat | id < r.ids
      ensures HasId(r.list, id) || id in r.cancelled || FiredOnce(r.fired, id) || HasId(due[1..], id)
    {
      LogAccounts(q, due, now, id);
      InsertHasId(q.list, x.(serial := q.serials), id);
    }
  }

  lemma PlainAccounts(q: Queue, due: seq<Event>, now: Time)
    requires Accounted(q, due) && due != [] && !Periodic(due[0].kind)
    ensures Accounted(Logged(q, due[0], now), due[1..])
  {
    hide HasId, FiredOnce;
    var r := Logged(q, due[0], now);
    forall id: nat | id < r.ids
      ensures HasId(r.list, id) || id in r.cancelled || FiredOnce(r.fired, id) || HasId(due[1..], id)
    {
      LogAccounts(q, due, now, id);
    }
  }

  lemma {:induction false} FireAllKeeps(q: Queue, due: seq<Event>, a: Alarm)
    requires Inv(q, due) && AllDue(due, a.now)
    ensures Inv(FireAll(q, due, a), [])
    decreases |due|
  {
    hide Inv, FireOne;
    if due != [] {
      FireOneKeeps(q, due, a);
      FireAllKeeps(FireOne(q, due, a), due[1..], a);
    }
  }

  lemma TakenOff(q: Queue, now: Time)
    requires Inv(q, [])
    ensures var k := Place(q.list, now); Inv(q.(list := q.list[k..]), q.list[..k]) && AllDue(q.list[..k], now)
  {
    hide Place, Earlier, NotBefore, FiredOnce;
    var k := Place(q.list, now);
    forall id: nat | HasId(q.list, id)
      ensures HasId(q.list[k..], id) || HasId(q.list[..k], id)
    {
      var i :| 0 <= i < |q.list| && q.list[i].id == id;
      if i < k {
        assert q.list[..k][i].id == id;
      } else {
        assert q.list[k..][i - k].id == id;
      }
    }
  }

  /** Every alarm, with all the calls its handlers make, keeps the order, the numbering, the history and the account. */
  lemma HandleKeeps(q: Queue, a: Alarm)
    requires Inv(q, [])
    ensures Inv(Handle(q, a), [])
  {
    hide Inv, FireAll;
    TakenOff(q, a.now);
    var k := Place(q.list, a.now);
    FireAllKeeps(q.(list := q.list[k..]), q.list[..k], a);
  }

  function Firings(due: seq<Event>, now: Time): (r: seq<Firing>)
    ensures |r| == |due| && forall i :: 0 <= i < |r| ==> r[i] == Firing(due[i].id, due[i].kind, due[i].due, now)
  {
    seq(|due|, i requires 0 <= i < |due| => Firing(due[i].id, due[i].kind, due[i].due, now))
  }

  lemma {:induction false} CallsDoNotFire(q: Queue, calls: seq<Call>)
    ensures ApplyAll(q, calls).fired == q.fired && ApplyAll(q, calls).ids >= q.ids
    decreases |calls|
  {
    hide Insert, Plus, Find;
    if calls != [] {
      CallsDoNotFire(Apply(q, calls[0]), calls[1..]);
    }
  }

  lemma {:induction false} FireAllFires(q: Queue, due: seq<Event>, a: Alarm)
    ensures FireAll(q, due, a).fired == q.fired + Firings(due, a.now)
    decreases |due|
  {
    hide FireOne, Firings;
    FiringsStep(due, a.now);
    if due == [] {
      assert q.fired + [] == q.fired;
    } else {
      FireAllFires(FireOne(q, due, a), due[1..], a);
      FireOneFires(q, due, a);
      var first := [Firing(due[0].id, due[0].kind, due[0].due, a.now)];
      assert q.fired + first + Firings(due[1..], a.now) == q.fired + (first + Firings(due[1..], a.now));
    }
  }

  lemma FireOneFires(q: Queue, due: seq<Event>, a: Alarm)
    requires due != []
    ensures FireOne(q, due, a).fired == q.fired + [Firing(due[0].id, due[0].kind, due[0].due, a.now)]
  {
    hide Insert, Plus, ApplyAll;
    CallsDoNotFire(Logged(q, due[0], a.now), a.calls(|due|));
  }

  lemma FiringsStep(due: seq<Event>, now: Time)
    ensures Firings(due, now)
            == if due == [] then [] else [Firing(due[0].id, due[0].kind, due[0].due, now)] + Firings(due[1..], now)
  {
  }

  /**
   An alarm fires the events that are due when it starts, in the order of the list, all of them
   and none that is early, whatever its handlers add or cancel meanwhile.
   */
  lemma AlarmFiresExactlyTheDue(q: Queue, a: Alarm)
    requires Inv(q, [])
    ensures var k := Place(q.list, a.now);
            && Handle(q, a).fired == q.fired + Firings(q.list[..k], a.now)
            && (forall i :: 0 <= i < |q.list| ==> (i < k <==> NotBefore(a.now, q.list[i].due)))
  {
    hide FireAll, NotBefore, Firings;
    var k := Place(q.list, a.now);
    FireAllFires(q.(list := q.list[k..]), q.list[..k], a);
    hide Place;
    forall i | 0 <= i < |q.list|
      ensures i < k <==> NotBefore(a.now, q.list[i].due)
    {
      if k <= i {
        AfterPlace(q.list, a.now, i);
      }
    }
  }

  /**
   Nothing is lost or doubled by an alarm: of the events queued before it, the due one-shot ones
   have left the list and each other one is in it, exactly once, unless a handler cancelled it.
   */
  lemma AlarmConservesEvents(q: Queue, a: Alarm, i: nat)
    requires Inv(q, []) && i < |q.list|
    ensures var e, r := q.list[i], Handle(q, a);
            && DistinctIds(r.list)
            && (HasId(r.list, e.id) <==> !(NotBefore(a.now, e.due) && !Periodic(e.kind)) && e.id !in r.cancelled)
  {
    hide FireAll, NotBefore, Place, Firings, Ordered;
    HandleKeeps(q, a);
    AlarmFiresExactlyTheDue(q, a);
    HandleNumbers(q, a);
    var k := Place(q.list, a.now);
    var e, r := q.list[i], Handle(q, a);
    if NotBefore(a.now, e.due) && !Periodic(e.kind) {
      assert q.list[..k][i] == e;
      assert r.fired[|q.fired| + i] == Firing(e.id, e.kind, e.due, a.now);
    } else {
      forall f | 0 <= f < |r.fired| && !Periodic(r.fired[f].kind)
        ensures r.fired[f].id != e.id
      {
        if f >= |q.fired| {
          var j := f - |q.fired|;
          assert r.fired[f] == Firings(q.list[..k], a.now)[j];
          assert q.list[..k][j] == q.list[j];
        } else {
          assert r.fired[f] == q.fired[f];
        }
      }
      assert !FiredOnce(r.fired, e.id);
    }
  }

  lemma HandleNumbers(q: Queue, a: Alarm)
    ensures Handle(q, a).ids >= q.ids
  {
    var k := Place(q.list, a.now);
    FireAllNumbers(q.(list := q.list[k..]), q.list[..k], a);
  }

  lemma {:induction false} FireAllNumbers(q: Queue, due: seq<Event>, a: Alarm)
    ensures FireAll(q, due, a).ids >= q.ids
    decreases |due|
  {
    hide Insert, Plus, ApplyAll;
    if due != [] {
      CallsDoNotFire(Logged(q, due[0], a.now), a.calls(|due|));
      FireAllNumbers(FireOne(q, due, a), due[1..], a);
    }
  }

  // ----- runs -----

  datatype Op = Do(call: Call) | Ring(alarm: Alarm)

  function Step(q: Queue, op: Op): Queue {
    match op
    case Do(call) => Apply(q, call)
    case Ring(alarm) => Handle(q, alarm)
  }

  function Run(ops: seq<Op>): Queue {
    if ops == [] then NewQueue() else Step(Run(ops[..|ops| - 1]), ops[|ops| - 1])
  }

  /**
   In every run, with handlers that add and cancel: sorted with ties in insertion order, no early
   firing, one-shot events fire at most once, and every event ever added is queued, cancelled or,
   if it is a one-shot event, fired, and only one of these.
   */
  lemma {:induction false} RunKeepsInv(ops: seq<Op>)
    ensures Inv(Run(ops), [])
  {
    hide Inv, Handle, Apply;
    NewInv();
    if ops != [] {
      var n := |ops| - 1;
      RunKeepsInv(ops[..n]);
      var q := Run(ops[..n]);
      match ops[n] {
        case Do(call) => ApplyKeeps(q, call, []);
        case Ring(alarm) => HandleKeeps(q, alarm);
      }
    }
  }

  // ----- punctuality -----

  ghost predicate FiredBefore(fired: seq<Firing>, id: nat) { exists f :: 0 <= f < |fired| && fired[f].id == id }

  /** An event asked for a time is due no earlier, until it fired first. */
  ghost predicate DueAsAsked(q: Queue, list: seq<Event>) {
    forall i :: 0 <= i < |list| && list[i].id in q.asked && !FiredBefore(q.fired, list[i].id) ==>
      Normal(list[i].due) && Micros(list[i].due) >= q.asked[list[i].id]
  }

  /** The first firing of an event was no earlier than it was asked for. */
  ghost predicate FiredAsAsked(q: Queue) {
    forall f :: 0 <= f < |q.fired| && q.fired[f].id in q.asked && !FiredBefore(q.fired[..f], q.fired[f].id) ==>
      Micros(q.fired[f].now) >= q.asked[q.fired[f].id]
  }

  ghost predicate Punctual(q: Queue, held: seq<Event>) {
    && DueAsAsked(q, q.list) && DueAsAsked(q, held) && FiredAsAsked(q)
    && (forall id :: id in q.asked ==> id < q.ids)
  }

  /** The clock readings of a call are times. */
  predicate TimelyCall(call: Call) { call.Later? || call.Every? ==> Normal(call.now) }

  ghost predicate TimelyAlarm(a: Alarm) {
    Normal(a.now) && forall n, i :: 0 <= i < |a.calls(n)| ==> TimelyCall(a.calls(n)[i])
  }

  /** A new event with the time asked for it. */
  lemma AdmitPunctual(q: Queue, time: int, due: Time, kind: Kind, handler: nat, period: nat, held: seq<Event>)
    requires Inv(q, held) && Punctual(q, held) && Normal(due) && Micros(due) >= time
    ensures Punctual(Admit(Noted(q, time), due, kind, handler, period), held)
  {
    hide Insert, Ordered, Micros, Normal, Accounted, Gone;
    InsertAt(q.list, Event(due, kind, handler, q.nextToken, period, q.ids, q.serials));
  }

  lemma PlainAdmitPunctual(q: Queue, due: Time, kind: Kind, handler: nat, period: nat, held: seq<Event>)
    requires Inv(q, held) && Punctual(q, held)
    ensures Punctual(Admit(q, due, kind, handler, period), held)
  {
    hide Insert, Ordered, Micros, Normal, Accounted, Gone;
    InsertAt(q.list, Event(due, kind, handler, q.nextToken, period, q.ids, q.serials));
  }

  lemma PlusIsExact(t: Time, ms: nat)
    requires Normal(t) && ms <= MAX_PERIOD_DELAY
    ensures Normal(Plus(t, ms)) && Micros(Plus(t, ms)) == Micros(t) + 1000 * ms
  {
  }

  lemma DeletePunctual(q: Queue, token: nat, held: seq<Event>)
    requires Punctual(q, held)
    ensures Punctual(Delete(q, token), held)
  {
    hide Find, Micros, Normal;
    var k, r := Find(q.list, token), Delete(q, token);
    if k < |q.list| {
      assert forall i :: 0 <= i < |r.list| ==> r.list[i] == q.list[if i < k then i else i + 1];
    }
  }

  lemma ApplyPunctual(q: Queue, call: Call, held: seq<Event>)
    requires Inv(q, held) && Punctual(q, held) && TimelyCall(call)
    ensures Punctual(Apply(q, call), held)
  {
    hide Inv, Punctual, Admit, Noted, Delete, Plus, Micros, Normal;
    match call {
      case Later(ms, kind, handler, now) =>
        if !LaterRefused(ms, kind, handler) {
          PlusIsExact(now, ms);
          AdmitPunctual(q, Micros(now) + 1000 * ms, Plus(now, ms), kind, handler, 0, held);
        }
      case At(due, kind, handler, uninitialised) => PlainAdmitPunctual(q, due, kind, handler, uninitialised, held);
      case Every(ms, kind, handler, now) =>
        if !PeriodRefused(ms, kind, handler) {
          PlusIsExact(now, ms);
          AdmitPunctual(q, Micros(now) + 1000 * ms, Plus(now, ms), kind, handler, ms, held);
        }
      case Cancel(token) => DeletePunctual(q, token, held);
    }
  }

  lemma {:induction false} ApplyAllPunctual(q: Queue, calls: seq<Call>, held: seq<Event>)
    requires Inv(q, held) && Punctual(q, held) && forall i :: 0 <= i < |calls| ==> TimelyCall(calls[i])
    ensures Punctual(ApplyAll(q, calls), held)
    decreases |calls|
  {
    hide Inv, Punctual, Apply, TimelyCall;
    if calls != [] {
      ApplyKeeps(q, calls[0], held);
      ApplyPunctual(q, calls[0], held);
      ApplyAllPunctual(Apply(q, calls[0]), calls[1..], held);
    }
  }

  lemma LogPunctual(q: Queue, due: seq<Event>, now: Time)
    requires Punctual(q, due) && due != [] && AllDue(due, now) && Normal(now)
    ensures Punctual(Logged(q, due[0], now), due[1..]) && FiredBefore(Logged(q, due[0], now).fired, due[0].id)
  {
    hide Normal, Micros, NotBefore;
    var e, r := due[0], Logged(q, due[0], now);
    var n := |q.fired|;
    assert r.fired[n].id == e.id && r.fired[..n] == q.fired;
    FiredStays(q.fired, Firing(e.id, e.kind, e.due, now));
    if e.id in q.asked && !FiredBefore(q.fired, e.id) {
      InstantsCompare(now, e.due);
    }
    forall f | 0 <= f < n
      ensures r.fired[f] == q.fired[f] && r.fired[..f] == q.fired[..f]
    {
    }
  }

  lemma InstantsCompare(a: Time, b: Time)
    requires Normal(a) && Normal(b) && NotBefore(a, b)
    ensures Micros(a) >= Micros(b)
  {
    NotBeforeIsInstants(a, b);
  }

  lemma FiredStays(fired: seq<Firing>, x: Firing)
    ensures forall id :: FiredBefore(fired, id) ==> FiredBefore(fired + [x], id)
  {
    forall id | FiredBefore(fired, id)
      ensures FiredBefore(fired + [x], id)
    {
      var f :| 0 <= f < |fired| && fired[f].id == id;
      assert (fired + [x])[f].id == id;
    }
  }

  /** An event that fired before may come back at any time. */
  lemma EnterPunctual(q: Queue, e: Event, held: seq<Event>)
    requires Punctual(q, held) && FiredBefore(q.fired, e.id)
    ensures Punctual(Enter(q, e), held)
  {
    hide Insert, Micros, Normal, FiredBefore;
    InsertAt(q.list, e.(serial := q.serials));
  }

  lemma FireOnePunctual(q: Queue, due: seq<Event>, a: Alarm)
    requires Inv(q, due) && Punctual(q, due) && due != [] && AllDue(due, a.now) && TimelyAlarm(a)
    ensures Punctual(FireOne(q, due, a), due[1..])
  {
    hide Inv, Punctual, FiredBefore, ApplyAll, Plus, Enter;
    LogPunctual(q, due, a.now);
    var e := due[0];
    if Periodic(e.kind) {
      EnterPunctual(Logged(q, e, a.now), e.(due := Plus(a.clock(|due|), e.period)), due[1..]);
    } else {
      LoggedInv(q, due, a.now);
      ApplyAllPunctual(Logged(q, e, a.now), a.calls(|due|), due[1..]);
    }
  }

  lemma LoggedInv(q: Queue, due: seq<Event>, now: Time)
    requires Inv(q, due) && due != [] && AllDue(due, now) && !Periodic(due[0].kind)
    ensures Inv(Logged(q, due[0], now), due[1..])
  {
    hide Ordered, Numbered, History, DistinctIds, Gone, Held, Accounted;
    LogShape(q, due, now);
    PlainAccounts(q, due, now);
  }

  lemma {:induction false} FireAllPunctual(q: Queue, due: seq<Event>, a: Alarm)
    requires Inv(q, due) && Punctual(q, due) && AllDue(due, a.now) && TimelyAlarm(a)
    ensures Punctual(FireAll(q, due, a), [])
    decreases |due|
  {
    hide Inv, Punctual, FireOne, TimelyAlarm;
    if due != [] {
      FireOneKeeps(q, due, a);
      FireOnePunctual(q, due, a);
      FireAllPunctual(FireOne(q, due, a), due[1..], a);
    }
  }

  lemma HandlePunctual(q: Queue, a: Alarm)
    requires Inv(q, []) && Punctual(q, []) && TimelyAlarm(a)
    ensures Punctual(Handle(q, a), [])
  {
    hide FireAll, Place, Inv, Normal, Micros, FiredBefore;
    TakenOff(q, a.now);
    var k := Place(q.list, a.now);
    FireAllPunctual(q.(list := q.list[k..]), q.list[..k], a);
  }

  predicate TimelyOp(op: Op) { op.Do? ==> TimelyCall(op.call) }

  ghost predicate TimelyOps(ops: seq<Op>) {
    forall i :: 0 <= i < |ops| ==> TimelyOp(ops[i]) && (ops[i].Ring? ==> TimelyAlarm(ops[i].alarm))
  }

  lemma {:induction false} RunIsPunctual(ops: seq<Op>)
    requires TimelyOps(ops)
    ensures Punctual(Run(ops), [])
  {
    hide Inv, Handle, Apply, TimelyAlarm, TimelyCall;
    if ops != [] {
      var n := |ops| - 1;
      RunIsPunctual(ops[..n]);
      RunKeepsInv(ops[..n]);
      var q := Run(ops[..n]);
      match ops[n] {
        case Do(call) => ApplyPunctual(q, call, []);
        case Ring(alarm) => HandlePunctual(q, alarm);
      }
    }
  }

  /** What was asked for stays noted. */
  ghost predicate Remembers(q: Queue, r: Queue) {
    q.ids <= r.ids && forall id :: id in q.asked && id < q.ids ==> id in r.asked && r.asked[id] == q.asked[id]
  }

  lemma {:induction false} CallsRemember(q: Queue, calls: seq<Call>)
    ensures Remembers(q, ApplyAll(q, calls))
    decreases |calls|
  {
    hide Insert, Plus, Find, Micros;
    if calls != [] {
      assert Remembers(q, Apply(q, calls[0]));
      CallsRemember(Apply(q, calls[0]), calls[1..]);
    }
  }

  lemma {:induction false} AlarmRemembers(q: Queue, due: seq<Event>, a: Alarm)
    ensures Remembers(q, FireAll(q, due, a))
    decreases |due|
  {
    hide Insert, Plus, ApplyAll;
    if due != [] {
      CallsRemember(Logged(q, due[0], a.now), a.calls(|due|));
      AlarmRemembers(FireOne(q, due, a), due[1..], a);
    }
  }

  lemma {:induction false} RunRemembers(ops: seq<Op>, i: nat)
    requires i <= |ops|
    ensures Remembers(Run(ops[..i]), Run(ops))
    decreases |ops|
  {
    hide Apply, FireAll;
    if i == |ops| {
      assert ops[..i] == ops;
    } else {
      var n := |ops| - 1;
      RunRemembers(ops[..n], i);
      assert ops[..n][..i] == ops[..i];
      var q := Run(ops[..n]);
      match ops[n] {
        case Do(call) =>
          CallsRemember(q, [call]);
          assert ApplyAll(q, [call]) == Apply(q, call) by { OneCall(q, call); }
        case Ring(a) =>
          var k := Place(q.list, a.now);
          AlarmRemembers(q.(list := q.list[k..]), q.list[..k], a);
      }
    }
  }

  lemma OneCall(q: Queue, call: Call)
    ensures ApplyAll(q, [call]) == Apply(q, call)
  {
    hide Apply;
    assert [call][1..] == [];
    assert ApplyAll(Apply(q, call), []) == Apply(q, call);
  }

  /**
   No event added with a delay fires early: in every run, an accepted call of step i names the event
   id, and the first time that event fires, the alarm's clock reads at least the call's time and delay.
   */
  lemma NeverEarly(ops: seq<Op>, i: nat, f: nat)
    requires TimelyOps(ops) && i < |ops| && ops[i].Do?
    requires var c := ops[i].call;
             (c.Later? && !LaterRefused(c.ms, c.kind, c.handler)) || (c.Every? && !PeriodRefused(c.ms, c.kind, c.handler))
    requires f < |Run(ops).fired| && Run(ops).fired[f].id == Run(ops[..i]).ids
    requires !FiredBefore(Run(ops).fired[..f], Run(ops[..i]).ids)
    ensures Micros(Run(ops).fired[f].now) >= Micros(ops[i].call.now) + 1000 * ops[i].call.ms
  {
    hide Insert, Plus, Micros, Handle, FiredBefore;
    RunIsPunctual(ops);
    RunRemembers(ops, i + 1);
    assert ops[..i + 1][..i] == ops[..i];
    assert Run(ops[..i + 1]) == Apply(Run(ops[..i]), ops[i].call);
  }

  // ----- periodic events -----

  lemma ApplyLeaves(q: Queue, call: Call, e: Event)
    requires e in q.list
    ensures e in Apply(q, call).list || e.id in Apply(q, call).cancelled
    ensures q.cancelled <= Apply(q, call).cancelled
  {
    hide Place, Find, Plus, Micros;
    match call {
      case Later(ms, kind, handler, now) => InsertLeaves(q.list, Event(Plus(now, ms), kind, handler, q.nextToken, 0, q.ids, q.serials), e);
      case At(due, kind, handler, u) => InsertLeaves(q.list, Event(due, kind, handler, q.nextToken, u, q.ids, q.serials), e);
      case Every(ms, kind, handler, now) => InsertLeaves(q.list, Event(Plus(now, ms), kind, handler, q.nextToken, ms, q.ids, q.serials), e);
      case Cancel(token) =>
        var k := Find(q.list, token);
        if k < |q.list| {
          assert q.list == q.list[..k] + [q.list[k]] + q.list[k + 1..];
        }
    }
  }

  lemma InsertLeaves(list: seq<Event>, x: Event, e: Event)
    ensures e in Insert(list, x) <==> e in list || e == x
  {
    hide Place;
    var k := Place(list, x.due);
    assert list == list[..k] + list[k..];
  }

  lemma {:induction false} ApplyAllLeaves(q: Queue, calls: seq<Call>, e: Event)
    requires e in q.list || e.id in q.cancelled
    ensures e in ApplyAll(q, calls).list || e.id in ApplyAll(q, calls).cancelled
    decreases |calls|
  {
    hide Apply;
    if calls != [] {
      if e in q.list {
        ApplyLeaves(q, calls[0], e);
      } else {
        CancelStays(q, calls[0]);
      }
      ApplyAllLeaves(Apply(q, calls[0]), calls[1..], e);
    }
  }

  lemma CancelStays(q: Queue, call: Call)
    ensures q.cancelled <= Apply(q, call).cancelled
  {
    hide Insert, Plus, Find, Micros;
  }

  lemma {:induction false} FireAllLeaves(q: Queue, due: seq<Event>, a: Alarm, e: Event)
    requires e in q.list || e.id in q.cancelled
    ensures e in FireAll(q, due, a).list || e.id in FireAll(q, due, a).cancelled
    decreases |due|
  {
    hide Insert, Plus, ApplyAll;
    if due != [] {
      var q1 := Logged(q, due[0], a.now);
      if Periodic(due[0].kind) {
        InsertLeaves(q1.list, due[0].(due := Plus(a.clock(|due|), due[0].period), serial := q1.serials), e);
      } else {
        ApplyAllLeaves(q1, a.calls(|due|), e);
      }
      FireAllLeaves(FireOne(q, due, a), due[1..], a, e);
    }
  }

  /** An event that comes back is the same but for its due time: one period after the clock's reading. */
  ghost predicate ComesBack(list: seq<Event>, e: Event, clock: Time) {
    exists x :: x in list && x.id == e.id && x.kind == e.kind && x.handler == e.handler && x.token == e.token
                && x.period == e.period && Normal(x.due) && Micros(x.due) == Micros(clock) + 1000 * e.period
  }

  lemma {:induction false} PeriodicReturns(q: Queue, due: seq<Event>, a: Alarm, i: nat)
    requires i < |due| && Periodic(due[i].kind) && due[i].period <= MAX_PERIOD_DELAY && Normal(a.clock(|due| - i))
    ensures var r := FireAll(q, due, a); due[i].id in r.cancelled || ComesBack(r.list, due[i], a.clock(|due| - i))
    decreases |due|
  {
    hide Insert, Plus, ApplyAll, Normal, Micros;
    if i > 0 {
      PeriodicReturns(FireOne(q, due, a), due[1..], a, i - 1);
    } else {
      var e := due[0];
      var q1 := Logged(q, e, a.now);
      var x := e.(due := Plus(a.clock(|due|), e.period), serial := q1.serials);
      PlusIsExact(a.clock(|due|), e.period);
      InsertLeaves(q1.list, x, x);
      FireAllLeaves(FireOne(q, due, a), due[1..], a, x);
    }
  }

  /**
   A periodic event that is due comes back, unless a handler cancels it after that: due exactly one
   period after the clock's reading when it was queued again.
   */
  lemma PeriodicComesBack(q: Queue, a: Alarm, i: nat)
    requires i < Place(q.list, a.now) && Periodic(q.list[i].kind) && q.list[i].period <= MAX_PERIOD_DELAY
    requires Normal(a.clock(Place(q.list, a.now) - i))
    ensures var r := Handle(q, a);
            q.list[i].id in r.cancelled || ComesBack(r.list, q.list[i], a.clock(Place(q.list, a.now) - i))
  {
    hide FireAll, Place, ComesBack;
    var k := Place(q.list, a.now);
    PeriodicReturns(q.(list := q.list[k..]), q.list[..k], a, i);
    assert q.list[..k][i] == q.list[i];
  }

  // ----- tokens -----

  ghost predicate OwnTokens(list: seq<Event>) { forall i :: 0 <= i < |list| ==> list[i].token == list[i].id + 1 }

  /** Until the counter wraps, an event carries one more than its number. */
  ghost predicate Tokens(q: Queue, held: seq<Event>) {
    q.ids < TOKENS - 1 ==> q.nextToken == q.ids + 1 && OwnTokens(q.list) && OwnTokens(held)
  }

  lemma EnterTokens(q: Queue, e: Event)
    requires OwnTokens(q.list) && e.token == e.id + 1
    ensures OwnTokens(Enter(q, e).list) && Enter(q, e).ids == q.ids && Enter(q, e).nextToken == q.nextToken
  {
    hide Insert, Place;
    InsertAt(q.list, e.(serial := q.serials));
  }

  lemma AdmitTokens(q: Queue, due: Time, kind: Kind, handler: nat, period: nat, held: seq<Event>)
    requires Tokens(q, held)
    ensures Tokens(Admit(q, due, kind, handler, period), held)
  {
    hide Insert, OwnTokens;
    if q.ids < TOKENS - 2 {
      assert q.nextToken == q.ids + 1;
      EnterTokens(q, Event(due, kind, handler, q.nextToken, period, q.ids, 0));
    }
  }

  lemma DeleteTokens(q: Queue, token: nat, held: seq<Event>)
    requires Tokens(q, held)
    ensures Tokens(Delete(q, token), held)
  {
    hide Find;
    var k := Find(q.list, token);
    if k < |q.list| {
      var r := Delete(q, token).list;
      assert forall i :: 0 <= i < |r| ==> r[i] == q.list[if i < k then i else i + 1];
    }
  }

  lemma NotedTokens(q: Queue, time: int, held: seq<Event>)
    requires Tokens(q, held)
    ensures Tokens(Noted(q, time), held)
  {
    hide OwnTokens;
  }

  lemma ApplyTokens(q: Queue, call: Call, held: seq<Event>)
    requires Tokens(q, held)
    ensures Tokens(Apply(q, call), held)
  {
    hide Tokens, Admit, Delete, Plus;
    match call {
      case Later(ms, kind, handler, now) =>
        NotedTokens(q, Micros(now) + 1000 * ms, held);
        AdmitTokens(Noted(q, Micros(now) + 1000 * ms), Plus(now, ms), kind, handler, 0, held);
      case At(due, kind, handler, uninitialised) => AdmitTokens(q, due, kind, handler, uninitialised, held);
      case Every(ms, kind, handler, now) =>
        NotedTokens(q, Micros(now) + 1000 * ms, held);
        AdmitTokens(Noted(q, Micros(now) + 1000 * ms), Plus(now, ms), kind, handler, ms, held);
      case Cancel(token) => DeleteTokens(q, token, held);
    }
  }

  lemma {:induction false} ApplyAllTokens(q: Queue, calls: seq<Call>, held: seq<Event>)
    requires Tokens(q, held)
    ensures Tokens(ApplyAll(q, calls), held)
    decreases |calls|
  {
    hide Tokens, Apply;
    if calls != [] {
      ApplyTokens(q, calls[0], held);
      ApplyAllTokens(Apply(q, calls[0]), calls[1..], held);
    }
  }

  lemma FireOneTokens(q: Queue, due: seq<Event>, a: Alarm)
    requires Tokens(q, due) && due != []
    ensures Tokens(FireOne(q, due, a), due[1..])
  {
    hide Enter, Plus, ApplyAll;
    var e := due[0];
    var q1 := Logged(q, e, a.now);
    assert Tokens(q1, due[1..]);
    if Periodic(e.kind) {
      var x := e.(due := Plus(a.clock(|due|), e.period));
      EnterIds(q1, x);
      if q.ids < TOKENS - 1 {
        EnterTokens(q1, x);
      }
    } else {
      ApplyAllTokens(q1, a.calls(|due|), due[1..]);
    }
  }

  lemma EnterIds(q: Queue, e: Event)
    ensures Enter(q, e).ids == q.ids
  {
  }

  lemma {:induction false} FireAllTokens(q: Queue, due: seq<Event>, a: Alarm)
    requires Tokens(q, due)
    ensures Tokens(FireAll(q, due, a), [])
    decreases |due|
  {
    hide Tokens, FireOne;
    if due != [] {
      FireOneTokens(q, due, a);
      FireAllTokens(FireOne(q, due, a), due[1..], a);
    }
  }

  lemma HandleTokens(q: Queue, a: Alarm)
    requires Tokens(q, [])
    ensures Tokens(Handle(q, a), [])
  {
    hide FireAll, Place;
    var k := Place(q.list, a.now);
    FireAllTokens(q.(list := q.list[k..]), q.list[..k], a);
  }

  lemma {:induction false} RunKeepsTokens(ops: seq<Op>)
    ensures Tokens(Run(ops), [])
  {
    hide Handle, Apply;
    if ops != [] {
      var n := |ops| - 1;
      RunKeepsTokens(ops[..n]);
      var q := Run(ops[..n]);
      match ops[n] {
        case Do(call) => ApplyTokens(q, call, []);
        case Ring(alarm) => HandleTokens(q, alarm);
      }
    }
  }

  /** Cancelling a token takes off exactly the event that was added with it, if it is still queued. */
  lemma CancelTakesTheEvent(ops: seq<Op>, id: nat, other: nat)
    requires Run(ops).ids < TOKENS - 1
    ensures HasId(Delete(Run(ops), id + 1).list, other) <==> HasId(Run(ops).list, other) && other != id
  {
    hide Find, Run, Ordered, Numbered, History, Gone, Held, Accounted;
    RunKeepsInv(ops);
    RunKeepsTokens(ops);
    var q := Run(ops);
    var k, r := Find(q.list, id + 1), Delete(q, id + 1);
    if k < |q.list| {
      assert forall i :: 0 <= i < |r.list| ==> r.list[i] == q.list[if i < k then i else i + 1];
      if HasId(q.list, other) && other != id {
        var i :| 0 <= i < |q.list| && q.list[i].id == other;
        assert r.list[if i < k then i else i - 1].id == other;
      }
    }
  }

  // ----- the queue object -----

  /** after is before with the event e put in somewhere. */
  ghost predicate Gained(before: seq<Event>, after: seq<Event>, e: Event) {
    exists k :: 0 <= k <= |before| && |after| == |before| + 1
                && after[..k] == before[..k] && after[k] == e && after[k + 1..] == before[k..]
  }

  /** One event more, and it is the one asked for: due at the time given in microseconds, with the token returned. */
  ghost predicate GainedAsAsked(
    before: seq<Event>, after: seq<Event>, micros: int, kind: Kind, handler: nat, period: nat, token: int)
  {
    exists e :: Gained(before, after, e) && Normal(e.due) && Micros(e.due) == micros
                && e.kind == kind && e.handler == handler && e.period == period && e.token == token
  }

  class EventQueue {
    var list: seq<Event>
    var listToken: nat
    var ids: nat
    var serials: nat
    ghost var fired: seq<Firing>
    ghost var cancelled: set<nat>
    ghost var asked: map<nat, int>

    ghost function State(): Queue reads this { Queue(list, listToken, ids, serials, fired, cancelled, asked) }

    constructor ()
      ensures State() == NewQueue()
    {
      list, listToken, ids, serials, fired, cancelled, asked := [], 1, 0, 0, [], {}, map[];
    }

    /** The scan that all insertions and the alarm share: past the events due no later than t. */
    method Scan(t: Time) returns (k: nat)
      ensures k == Place(list, t)
    {
      hide Place, NotBefore;
      k := 0;
      while k < |list| && NotBefore(t, list[k].due)
        invariant k <= |list| && forall i :: 0 <= i < k ==> NotBefore(t, list[i].due)
      {
        k := k + 1;
      }
      PlaceIsUnique(list, t, k);
    }

    /** addEventInternal. */
    method AddEventInternal(e: Event)
      modifies this
      ensures State() == Enter(old(State()), e) && Gained(old(list), list, e.(serial := old(serials)))
    {
      hide Place;
      var k := Scan(e.due);
      list := list[..k] + [e.(serial := serials)] + list[k..];
      serials := serials + 1;
      assert list[..k] == old(list)[..k] && list[k + 1..] == old(list)[k..];
    }

    method AddNew(due: Time, kind: Kind, handler: nat, period: nat) returns (token: int)
      modifies this
      ensures State() == Admit(old(State()), due, kind, handler, period) && token == old(listToken)
      ensures Gained(old(list), list, Event(due, kind, handler, old(listToken), period, old(ids), old(serials)))
    {
      hide Insert;
      token := listToken;
      AddEventInternal(Event(due, kind, handler, listToken, period, ids, 0));
      ids := ids + 1;
      listToken := (listToken + 1) % TOKENS;
    }

    /** addLaterEvent. */
    method AddLater(ms: nat, kind: Kind, handler: nat, now: Time) returns (token: int)
      requires Normal(now)
      modifies this
      ensures State() == Apply(old(State()), Later(ms, kind, handler, now))
      ensures token == if LaterRefused(ms, kind, handler) then -1 else old(listToken)
      ensures token == -1 ==> list == old(list)
      ensures token != -1 ==> GainedAsAsked(old(list), list, Micros(now) + 1000 * ms, kind, handler, 0, token)
    {
      hide Admit, Plus, Gained;
      if handler == 0 || ms > MAX_PERIOD_DELAY || (kind != Callback && kind != Recycle) {
        return -1;
      }
      var due := TimePlus(now, ms);
      asked := asked[ids := Micros(now) + 1000 * ms];
      token := AddNew(due, kind, handler, 0);
    }

    /** addAbsTimedEvent: any kind, and a period that nobody sets. */
    method AddAbs(due: Time, kind: Kind, handler: nat, uninitialised: nat) returns (token: int)
      modifies this
      ensures State() == Apply(old(State()), At(due, kind, handler, uninitialised))
      ensures token == if handler == 0 then -1 else old(listToken)
      ensures token == -1 ==> list == old(list)
      ensures token != -1 ==> exists id, serial ::
                Gained(old(list), list, Event(due, kind, handler, old(listToken), uninitialised, id, serial))
    {
      hide Admit;
      if handler == 0 {
        return -1;
      }
      token := AddNew(due, kind, handler, uninitialised);
    }

    /** addPeriodEvent. */
    method AddPeriod(ms: nat, kind: Kind, handler: nat, now: Time) returns (token: int)
      requires Normal(now)
      modifies this
      ensures State() == Apply(old(State()), Every(ms, kind, handler, now))
      ensures token == if PeriodRefused(ms, kind, handler) then -1 else old(listToken)
      ensures token == -1 ==> list == old(list)
      ensures token != -1 ==> GainedAsAsked(old(list), list, Micros(now) + 1000 * ms, kind, handler, ms, token)
    {
      hide Admit, Plus, Gained;
      if handler == 0 || ms > MAX_PERIOD_DELAY || (kind != Condition && kind != Semaphore) {
        return -1;
      }
      var due := TimePlus(now, ms);
      asked := asked[ids := Micros(now) + 1000 * ms];
      token := AddNew(due, kind, handler, ms);
    }

    /** One of the calls, as a handler makes it. */
    method Perform(call: Call)
      requires call.Later? || call.Every? ==> Normal(call.now)
      modifies this
      ensures State() == Apply(old(State()), call)
    {
      hide Admit, Delete, Plus;
      match call {
        case Later(ms, kind, handler, now) => var _ := AddLater(ms, kind, handler, now);
        case At(due, kind, handler, uninitialised) => var _ := AddAbs(due, kind, handler, uninitialised);
        case Every(ms, kind, handler, now) => var _ := AddPeriod(ms, kind, handler, now);
        case Cancel(token) => var _ := DelTimedEvent(token);
      }
    }

    /** A handler: its calls one after the other. */
    method Respond(calls: seq<Call>)
      requires forall i :: 0 <= i < |calls| && (calls[i].Later? || calls[i].Every?) ==> Normal(calls[i].now)
      modifies this
      ensures State() == ApplyAll(old(State()), calls)
    {
      hide Apply;
      var i := 0;
      while i < |calls|
        invariant 0 <= i <= |calls| && ApplyAll(State(), calls[i..]) == ApplyAll(old(State()), calls)
      {
        assert calls[i..][1..] == calls[i + 1..];
        Perform(calls[i]);
        i := i + 1;
      }
    }

    /** handleAlarmEvent: splices the due events off, then fires them one by one; handlers may call back. */
    method HandleAlarm(a: Alarm)
      requires forall n :: Normal(a.clock(n))
      requires forall n, i :: 0 <= i < |a.calls(n)| && (a.calls(n)[i].Later? || a.calls(n)[i].Every?) ==> Normal(a.calls(n)[i].now)
      modifies this
      ensures State() == Handle(old(State()), a)
    {
      hide Place, Insert, Plus, ApplyAll;
      var k := Scan(a.now);
      var due := list[..k];
      list := list[k..];
      ghost var done := FireAll(State(), due, a);
      while due != []
        invariant FireAll(State(), due, a) == done
        decreases |due|
      {
        var e := due[0];
        fired := fired + [Firing(e.id, e.kind, e.due, a.now)];
        if Periodic(e.kind) {
          var again := TimePlus(a.clock(|due|), e.period);
          AddEventInternal(e.(due := again));
        } else {
          Respond(a.calls(|due|));
        }
        due := due[1..];
      }
    }

    /** delTimedEvent: the handler of the event with the token, or 0. */
    method DelTimedEvent(token: nat) returns (handler: nat)
      modifies this
      ensures State() == Delete(old(State()), token)
      ensures var k := Find(old(list), token); handler == if k < |old(list)| then old(list)[k].handler else 0
    {
      var k := 0;
      while k < |list| && list[k].token != token
        invariant k <= |list| && forall i :: 0 <= i < k ==> list[i].token != token
      {
        k := k + 1;
      }
      assert k == Find(list, token);
      hide Find;
      handler := 0;
      if k != |list| {
        handler := list[k].handler;
        cancelled := cancelled + {list[k].id};
        list := list[..k] + list[k + 1..];
      }
    }

    /** abstimeToNextEvent: nothing is queued for an earlier time. */
    method AbsTimeToNext() returns (ok: bool, t: Time)
      requires Shape(State())
      ensures ok == (list != [])
      ensures ok ==> (exists i :: 0 <= i < |list| && list[i].due == t) && forall i :: 0 <= i < |list| ==> NotBefore(list[i].due, t)
      ensures !ok ==> t == INFINITY
    {
      ok, t := false, INFINITY;
      if list != [] {
        ok, t := true, list[0].due;
        assert forall i :: 0 < i < |list| ==> Earlier(list[0], list[i]);
      }
    }
  }
}
