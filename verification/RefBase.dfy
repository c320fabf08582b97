/**
 The strong/weak reference counting protocol of RefBase, for an object with the default lifetime.
 */
module RefBase {

  // Every atomic operation of incStrong, decStrong, incWeak, decWeak and attemptIncStrong is one
  // step of a transition system. A state holds the two shared counters of weakref_impl, how often
  // the object and the weakref_impl were destroyed, and one program counter per thread together
  // with the references that thread owns. The theorems quantify over every number of threads and
  // every interleaving of their steps.

  /** The bias that marks an object no strong reference was ever taken on. */
  const INITIAL_STRONG_VALUE: int := 0x1000_0000

  /** First value an int32_t cannot hold. */
  const INT32_LIMIT: int := 0x8000_0000

  /** Where a thread stands: each constructor but Idle names its next atomic step. */
  datatype PC =
    | Idle
    | IncStrongWeak(first: bool)  // incWeak inside incStrong
    | IncStrongAdd(first: bool)   // atomic increment of mStrong
    | IncStrongUnbias             // saw the initial value: subtract the bias
    | IncStrongFirstRef           // onFirstRef
    | DecStrongSub                // atomic decrement of mStrong
    | DecStrongLast               // saw 1: onLastStrongRef
    | DecStrongDelete             // delete this
    | DecWeakSub                  // atomic decrement of mWeak
    | DecWeakLast                 // saw 1: read mStrong
    | DecWeakDeleteBase           // never strong: delete mBase
    | DecWeakFree                 // delete impl
    | IncWeakAdd                  // atomic increment of mWeak
    | PromoteWeak                 // incWeak inside attemptIncStrong
    | PromoteRead                 // read mStrong
    | PromoteCas(cur: int)        // compare-and-exchange cur -> cur + 1
    | PromoteFirst                // saw the initial value: atomic increment
    | PromoteUnbias
    | PromoteFirstRef

  /** sp and wp count the strong and weak references the thread may use or drop. */
  datatype Thread = Thread(pc: PC, sp: nat, wp: nat)

  /**
   How far the object is from its first strong reference. Fresh: only the
   creator's bare pointer. Starting: the creator is inside its first incStrong.
   Counted: that reference is counted but the bias is still in mStrong.
   Established: the bias is gone. WeakOnly: the bare pointer was given up and
   only weak references are left.
   */
  datatype Phase = Fresh | Starting | Counted | Established | WeakOnly

  datatype State = State(
    strong: int, weak: int, phase: Phase, creator: nat,
    objectDeletes: nat, implFrees: nat, firstRefCalls: nat, lastRefCalls: nat,
    weakMade: bool,  // mWeak was ever incremented
    threads: seq<Thread>)

  datatype Operation = IncStrong | DecStrong | IncWeak | DecWeak | Promote

  /** One step of one thread, or a hand-over of a reference between threads. */
  datatype Action =
    | Begin(t: nat, op: Operation)
    | Run(t: nat)
    | GiveStrong(from: nat, to: nat)
    | GiveWeak(from: nat, to: nat)
    | Abandon

  /** The state right after construction. */
  function Init(n: nat, creator: nat): State {
    State(INITIAL_STRONG_VALUE, 0, Fresh, creator, 0, 0, 0, 0, false, seq(n, _ => Thread(Idle, 0, 0)))
  }

  // ----- client rules -----

  /** Clients use only references they own; the creator may use the bare pointer while it is fresh. */
  predicate Enabled(s: State, a: Action) {
    match a
    case Begin(t, op) =>
      t < |s.threads| && s.threads[t].pc.Idle? &&
      var th := s.threads[t];
      var bare := t == s.creator && s.phase.Fresh?;
      (match op
       case IncStrong => th.sp > 0 || bare
       case DecStrong => th.sp > 0
       case IncWeak => th.sp > 0 || th.wp > 0 || bare
       case DecWeak => th.wp > 0
       case Promote => th.sp > 0 || th.wp > 0)
    case Run(t) => t < |s.threads| && !s.threads[t].pc.Idle?
    case GiveStrong(from, to) =>
      from < |s.threads| && to < |s.threads| && from != to && s.threads[from].pc.Idle? && s.threads[from].sp > 0
    case GiveWeak(from, to) =>
      from < |s.threads| && to < |s.threads| && from != to && s.threads[from].pc.Idle? && s.threads[from].wp > 0
    case Abandon => s.phase.Fresh? && s.creator < |s.threads| && s.threads[s.creator].pc.Idle?
  }

  /** Fewer than 2^28 strong and 2^31 weak references are held or being acquired. */
  predicate HasRoom(s: State) {
    && Total(s.threads).strongDemand + 1 < INITIAL_STRONG_VALUE
    && Total(s.threads).weakDemand + 1 < INT32_LIMIT
  }

  /**
   What the protocol further asks of its clients: a promotion starts only once a
   first strong reference was counted, and while the bare pointer is in use the
   last weak reference is not dropped.
   */
  predicate Disciplined(s: State, a: Action) {
    match a
    case Begin(_, Promote) => PromotionMayStart(s) && HasRoom(s)
    case Begin(_, DecWeak) => s.phase.Counted? || s.phase.Established? || s.phase.WeakOnly? || Total(s.threads).kept >= 2
    case Begin(_, IncStrong) => HasRoom(s)
    case Begin(_, IncWeak) => HasRoom(s)
    case _ => true
  }

  predicate PromotionMayStart(s: State) {
    s.phase.Counted? || s.phase.Established?
  }

  // ----- the steps -----

  function Put(s: State, t: nat, th: Thread): State
    requires t < |s.threads|
  {
    s.(threads := s.threads[t := th])
  }

  /** delete of the object; ~RefBase also frees the weakref_impl if the count never left its initial value. */
  function Destroy(s: State): State {
    s.(objectDeletes := s.objectDeletes + 1,
       implFrees := if s.strong == INITIAL_STRONG_VALUE then s.implFrees + 1 else s.implFrees)
  }

  function BeginStep(s: State, t: nat, op: Operation): State
    requires Enabled(s, Begin(t, op))
  {
    var th := s.threads[t];
    match op
    case IncStrong =>
      if th.sp > 0 then Put(s, t, th.(pc := IncStrongWeak(false)))
      else Put(s.(phase := Starting), t, th.(pc := IncStrongWeak(true)))
    case DecStrong => Put(s, t, th.(pc := DecStrongSub, sp := th.sp - 1))
    case IncWeak => Put(s, t, th.(pc := IncWeakAdd))
    case DecWeak => Put(s, t, th.(pc := DecWeakSub, wp := th.wp - 1))
    case Promote => Put(s, t, th.(pc := PromoteWeak))
  }

  /** The atomic step the thread's program counter names. */
  function RunStep(s: State, t: nat): State
    requires Enabled(s, Run(t))
  {
    var th := s.threads[t];
    match th.pc
    case IncStrongWeak(first) => Put(s.(weak := s.weak + 1, weakMade := true), t, th.(pc := IncStrongAdd(first)))
    case IncStrongAdd(_) =>
      if s.strong == INITIAL_STRONG_VALUE
      then Put(s.(strong := s.strong + 1, phase := Counted), t, th.(pc := IncStrongUnbias))
      else Put(s.(strong := s.strong + 1), t, th.(pc := Idle, sp := th.sp + 1))
    case IncStrongUnbias =>
      Put(s.(strong := s.strong - INITIAL_STRONG_VALUE, phase := Established), t, th.(pc := IncStrongFirstRef))
    case IncStrongFirstRef =>
      Put(s.(firstRefCalls := s.firstRefCalls + 1), t, th.(pc := Idle, sp := th.sp + 1))
    case DecStrongSub =>
      Put(s.(strong := s.strong - 1), t, th.(pc := if s.strong == 1 then DecStrongLast else DecWeakSub))
    case DecStrongLast => Put(s.(lastRefCalls := s.lastRefCalls + 1), t, th.(pc := DecStrongDelete))
    case DecStrongDelete => Put(Destroy(s), t, th.(pc := DecWeakSub))
    case DecWeakSub => Put(s.(weak := s.weak - 1), t, th.(pc := if s.weak == 1 then DecWeakLast else Idle))
    case DecWeakLast =>
      Put(s, t, th.(pc := if s.strong == INITIAL_STRONG_VALUE then DecWeakDeleteBase else DecWeakFree))
    case DecWeakDeleteBase => Put(Destroy(s), t, th.(pc := Idle))
    case DecWeakFree => Put(s.(implFrees := s.implFrees + 1), t, th.(pc := Idle))
    case IncWeakAdd => Put(s.(weak := s.weak + 1, weakMade := true), t, th.(pc := Idle, wp := th.wp + 1))
    case PromoteWeak => Put(s.(weak := s.weak + 1, weakMade := true), t, th.(pc := PromoteRead))
    case PromoteRead =>
      Put(s, t, th.(pc := if s.strong <= 0 then DecWeakSub
                          else if s.strong == INITIAL_STRONG_VALUE then PromoteFirst
                          else PromoteCas(s.strong)))
    case PromoteCas(cur) =>
      if s.strong == cur then Put(s.(strong := s.strong + 1), t, th.(pc := Idle, sp := th.sp + 1))
      else Put(s, t, th.(pc := PromoteRead))
    case PromoteFirst =>
      if s.strong == INITIAL_STRONG_VALUE
      then Put(s.(strong := s.strong + 1, phase := Counted), t, th.(pc := PromoteUnbias))
      else Put(s.(strong := s.strong + 1), t, th.(pc := Idle, sp := th.sp + 1))
    case PromoteUnbias =>
      Put(s.(strong := s.strong - INITIAL_STRONG_VALUE, phase := Established), t, th.(pc := PromoteFirstRef))
    case PromoteFirstRef =>
      Put(s.(firstRefCalls := s.firstRefCalls + 1), t, th.(pc := Idle, sp := th.sp + 1))
  }

  function Next(s: State, a: Action): State
    requires Enabled(s, a)
  {
    match a
    case Begin(t, op) => BeginStep(s, t, op)
    case Run(t) => RunStep(s, t)
    case GiveStrong(from, to) =>
      var s1 := Put(s, from, s.threads[from].(sp := s.threads[from].sp - 1));
      Put(s1, to, s1.threads[to].(sp := s1.threads[to].sp + 1))
    case GiveWeak(from, to) =>
      var s1 := Put(s, from, s.threads[from].(wp := s.threads[from].wp - 1));
      Put(s1, to, s1.threads[to].(wp := s1.threads[to].wp + 1))
    case Abandon => s.(phase := WeakOnly)
  }

  /** Every action of the run is enabled and disciplined when it is taken. */
  predicate Allowed(s: State, run: seq<Action>)
    decreases |run|
  {
    run == [] || (Enabled(s, run[0]) && Disciplined(s, run[0]) && Allowed(Next(s, run[0]), run[1..]))
  }

  /** The same without the discipline: any run of owners. */
  predicate Possible(s: State, run: seq<Action>)
    decreases |run|
  {
    run == [] || (Enabled(s, run[0]) && Possible(Next(s, run[0]), run[1..]))
  }

  function Exec(s: State, run: seq<Action>): State
    requires Possible(s, run)
    decreases |run|
  {
    if run == [] then s else Exec(Next(s, run[0]), run[1..])
  }

  // ----- counting -----

  /** What one thread, or all threads together, contribute to each count. */
  datatype Tally = Tally(
    strong: int,        // strong references that mStrong counts
    weak: int,          // references of either kind that mWeak counts
    strongDemand: int,  // strong references held or being acquired
    weakDemand: int,    // references of either kind held or being acquired
    dying: int,         // threads between the last decrement and the end of delete
    beforeLast: int,    // threads about to call onLastStrongRef
    freeing: int,       // threads between the last weak decrement and the end of delete
    firstTaker: int,    // threads inside the first incStrong, not yet counted
    unbiasing: int,     // threads about to subtract the bias
    beforeFirst: int,   // threads about to call onFirstRef
    kept: int,          // weak references nobody is dropping
    dropping: int)      // threads about to decrement mWeak

  predicate CountedStrong(pc: PC) {
    pc.IncStrongUnbias? || pc.IncStrongFirstRef? || pc.DecStrongSub?
  }

  predicate CountedWeak(pc: PC) {
    || CountedStrong(pc) || pc.IncStrongAdd? || pc.DecStrongLast? || pc.DecStrongDelete? || pc.DecWeakSub?
    || pc.PromoteRead? || pc.PromoteCas?
  }

  predicate WantsStrong(pc: PC) {
    || CountedStrong(pc) || pc.IncStrongWeak? || pc.IncStrongAdd?
    || pc.PromoteWeak? || pc.PromoteRead? || pc.PromoteCas?
  }

  predicate Dying(pc: PC) { pc.DecStrongLast? || pc.DecStrongDelete? }

  predicate Freeing(pc: PC) { pc.DecWeakLast? || pc.DecWeakDeleteBase? || pc.DecWeakFree? }

  predicate FirstTaker(pc: PC) { (pc.IncStrongWeak? || pc.IncStrongAdd?) && pc.first }

  function StrongOf(th: Thread): int { if CountedStrong(th.pc) then th.sp + 1 else th.sp }

  function WeakOf(th: Thread): int { if CountedWeak(th.pc) then th.sp + th.wp + 1 else th.sp + th.wp }

  function StrongDemandOf(th: Thread): int { if WantsStrong(th.pc) then th.sp + 1 else th.sp }

  function WeakDemandOf(th: Thread): int { if th.pc.Idle? then th.sp + th.wp else th.sp + th.wp + 1 }

  function DyingOf(pc: PC): int { if Dying(pc) then 1 else 0 }

  function BeforeLastOf(pc: PC): int { if pc.DecStrongLast? then 1 else 0 }

  function FreeingOf(pc: PC): int { if Freeing(pc) then 1 else 0 }

  function FirstTakerOf(pc: PC): int { if FirstTaker(pc) then 1 else 0 }

  function UnbiasingOf(pc: PC): int { if pc.IncStrongUnbias? then 1 else 0 }

  function BeforeFirstOf(pc: PC): int { if pc.IncStrongFirstRef? then 1 else 0 }

  function DroppingOf(pc: PC): int { if pc.DecWeakSub? then 1 else 0 }

  function Of(th: Thread): Tally {
    Tally(StrongOf(th), WeakOf(th), StrongDemandOf(th), WeakDemandOf(th), DyingOf(th.pc), BeforeLastOf(th.pc),
          FreeingOf(th.pc), FirstTakerOf(th.pc), UnbiasingOf(th.pc), BeforeFirstOf(th.pc), th.wp, DroppingOf(th.pc))
  }

  predicate Nothing(x: Tally) {
    && x.strong <= 0 && x.weak <= 0 && x.strongDemand <= 0 && x.weakDemand <= 0 && x.dying <= 0
    && x.beforeLast <= 0 && x.freeing <= 0 && x.firstTaker <= 0 && x.unbiasing <= 0 && x.beforeFirst <= 0
    && x.kept <= 0 && x.dropping <= 0
  }

  function Plus(x: Tally, y: Tally): Tally {
    Tally(x.strong + y.strong, x.weak + y.weak, x.strongDemand + y.strongDemand, x.weakDemand + y.weakDemand,
          x.dying + y.dying, x.beforeLast + y.beforeLast, x.freeing + y.freeing, x.firstTaker + y.firstTaker,
          x.unbiasing + y.unbiasing, x.beforeFirst + y.beforeFirst, x.kept + y.kept, x.dropping + y.dropping)
  }

  /** z' is z with the part x replaced by y. */
  predicate Shifted(z: Tally, x: Tally, y: Tally, z': Tally) {
    && z'.strong == z.strong - x.strong + y.strong
    && z'.weak == z.weak - x.weak + y.weak
    && z'.strongDemand == z.strongDemand - x.strongDemand + y.strongDemand
    && z'.weakDemand == z.weakDemand - x.weakDemand + y.weakDemand
    && z'.dying == z.dying - x.dying + y.dying
    && z'.beforeLast == z.beforeLast - x.beforeLast + y.beforeLast
    && z'.freeing == z.freeing - x.freeing + y.freeing
    && z'.firstTaker == z.firstTaker - x.firstTaker + y.firstTaker
    && z'.unbiasing == z.unbiasing - x.unbiasing + y.unbiasing
    && z'.beforeFirst == z.beforeFirst - x.beforeFirst + y.beforeFirst
    && z'.kept == z.kept - x.kept + y.kept
    && z'.dropping == z.dropping - x.dropping + y.dropping
  }

  function Total(ts: seq<Thread>): Tally {
    if ts == [] then Tally(0, 0, 0, 0, 0, 0, 0, 0, 0, 0, 0, 0) else Plus(Total(ts[..|ts| - 1]), Of(ts[|ts| - 1]))
  }

  /** Replacing one thread changes the total by that thread's difference. */
  lemma {:induction false} TotalUpdate(ts: seq<Thread>, i: nat, th: Thread)
    requires i < |ts|
    ensures Shifted(Total(ts), Of(ts[i]), Of(th), Total(ts[i := th]))
  {
    var us := ts[i := th];
    var n := |ts| - 1;
    assert Total(ts) == Plus(Total(ts[..n]), Of(ts[n]));
    assert Total(us) == Plus(Total(us[..n]), Of(us[n]));
    if i == n {
      assert us[..n] == ts[..n];
    } else {
      assert us[..n] == ts[..n][i := th];
      TotalUpdate(ts[..n], i, th);
    }
  }

  /** Every component of x is non-negative and bounded by that of z. */
  predicate Within(x: Tally, z: Tally) {
    && 0 <= x.strong <= z.strong && 0 <= x.weak <= z.weak && 0 <= x.dying <= z.dying
    && 0 <= x.freeing <= z.freeing && 0 <= x.firstTaker <= z.firstTaker && 0 <= x.unbiasing <= z.unbiasing
    && 0 <= x.beforeFirst <= z.beforeFirst && 0 <= x.beforeLast <= z.beforeLast
    && 0 <= x.strongDemand <= z.strongDemand && 0 <= x.weakDemand <= z.weakDemand
    && 0 <= x.kept <= z.kept && 0 <= x.dropping <= z.dropping
  }

  /** How the counts bound one another. */
  predicate Ordered(z: Tally) {
    && z.beforeLast <= z.dying <= z.weak && z.unbiasing + z.beforeFirst <= z.strong <= z.strongDemand
    && z.strong + z.dying <= z.weak <= z.weakDemand && z.kept + z.dropping <= z.weak
  }

  lemma {:induction false} TotalBounds(ts: seq<Thread>)
    ensures Within(Total(ts), Total(ts)) && Ordered(Total(ts))
    ensures forall i :: 0 <= i < |ts| ==> Within(Of(ts[i]), Total(ts))
  {
    if ts != [] {
      var n := |ts| - 1;
      TotalBounds(ts[..n]);
      forall i | 0 <= i < |ts| ensures Within(Of(ts[i]), Total(ts)) {
        if i < n {
          assert ts[..n][i] == ts[i];
        }
      }
    }
  }

  /** A thread that holds no reference and is between operations. */
  predicate Released(th: Thread) { th.pc.Idle? && th.sp == 0 && th.wp == 0 }

  lemma {:induction false} TotalOfReleased(ts: seq<Thread>)
    requires forall i :: 0 <= i < |ts| ==> Released(ts[i])
    ensures Nothing(Total(ts))
  {
    if ts != [] {
      var n := |ts| - 1;
      TotalOfReleased(ts[..n]);
      assert Released(ts[n]) && Nothing(Of(ts[n]));
    }
  }

  // ----- the invariant -----

  /** What a thread's program counter says about its references and the phase. */
  predicate ThreadOk(s: State, t: nat)
    requires t < |s.threads|
  {
    var th := s.threads[t];
    var bare := t == s.creator && s.phase.Fresh?;
    match th.pc
    case Idle => true
    case IncStrongWeak(first) => first || th.sp > 0
    case IncStrongAdd(first) => first || th.sp > 0
    case IncStrongUnbias => s.phase.Counted?
    case IncStrongFirstRef => s.phase.Established?
    case DecStrongSub => s.phase.Counted? || s.phase.Established?
    case DecStrongLast => s.phase.Established?
    case DecStrongDelete => s.phase.Established?
    case DecWeakSub => true
    case DecWeakLast => s.phase.Established? || s.phase.WeakOnly?
    case DecWeakDeleteBase => s.phase.WeakOnly?
    case DecWeakFree => s.phase.Established?
    case IncWeakAdd => th.sp > 0 || th.wp > 0 || bare
    case PromoteWeak => PromotionMayStart(s) && (th.sp > 0 || th.wp > 0)
    case PromoteRead => PromotionMayStart(s)
    case PromoteCas(cur) => PromotionMayStart(s) && cur > 0 && cur != INITIAL_STRONG_VALUE
    case PromoteFirst => false
    case PromoteUnbias => false
    case PromoteFirstRef => false
  }

  predicate Untouched(s: State, z: Tally) {
    && z.dying == 0 && z.freeing == 0
    && s.objectDeletes == 0 && s.implFrees == 0 && s.lastRefCalls == 0
  }

  /** While the bare pointer is in use, somebody keeps a weak reference once there is one. */
  predicate Kept(s: State, z: Tally) {
    (z.dropping > 0 ==> z.kept > 0) && (s.weakMade <==> s.weak > 0)
  }

  /** How the counters and the destructions relate to the references z, in each phase. */
  predicate Counts(s: State, z: Tally) {
    && s.weak == z.weak
    && s.firstRefCalls + z.beforeFirst == (if s.phase.Established? then 1 else 0)
    && z.firstTaker == (if s.phase.Starting? then 1 else 0)
    && z.unbiasing == (if s.phase.Counted? then 1 else 0)
    && z.strongDemand < INITIAL_STRONG_VALUE
    && z.weakDemand < INT32_LIMIT
    && match s.phase
       case Fresh => s.strong == INITIAL_STRONG_VALUE && z.strong == 0 && Untouched(s, z) && Kept(s, z)
       case Starting => s.strong == INITIAL_STRONG_VALUE && z.strong == 0 && Untouched(s, z) && Kept(s, z)
       case Counted => s.strong == INITIAL_STRONG_VALUE + z.strong && Untouched(s, z)
       case Established =>
         && s.strong == z.strong
         && s.objectDeletes + z.dying == (if s.strong == 0 then 1 else 0)
         && s.lastRefCalls + z.beforeLast == (if s.strong == 0 then 1 else 0)
         && s.implFrees + z.freeing == (if s.weak == 0 then 1 else 0)
       case WeakOnly =>
         && s.strong == INITIAL_STRONG_VALUE && z.strong == 0 && z.dying == 0
         && s.objectDeletes == s.implFrees && s.lastRefCalls == 0
         && s.implFrees + z.freeing == (if s.weak == 0 && s.weakMade then 1 else 0)
         && (s.weak > 0 ==> s.weakMade)
  }

  ghost predicate Inv(s: State) {
    && s.creator < |s.threads|
    && Counts(s, Total(s.threads))
    && forall t :: 0 <= t < |s.threads| ==> ThreadOk(s, t)
  }

  lemma InitInv(n: nat, creator: nat)
    requires creator < n
    ensures Inv(Init(n, creator))
  {
    var s := Init(n, creator);
    var z := Total(s.threads);
    TotalOfReleased(s.threads);
    TotalBounds(s.threads);
    assert z.weak == 0;
    assert z.strong == 0 && z.strongDemand < INITIAL_STRONG_VALUE && z.weakDemand < INT32_LIMIT;
    assert z.firstTaker == 0 && z.unbiasing == 0 && z.beforeFirst == 0;
    assert Untouched(s, z);
  }

  /** What the lemmas about the beginning of an operation start from. */
  predicate MayBegin(s: State, z: Tally, t: nat, op: Operation, z': Tally) {
    && Enabled(s, Begin(t, op)) && Disciplined(s, Begin(t, op))
    && z == Total(s.threads) && Counts(s, z) && Within(Of(s.threads[t]), z) && Ordered(z)
    && Shifted(z, Of(s.threads[t]), Of(BeginStep(s, t, op).threads[t]), z')
  }

  lemma BeginStrongCounts(s: State, z: Tally, t: nat, op: Operation, z': Tally)
    requires MayBegin(s, z, t, op, z') && (op.IncStrong? || op.DecStrong?)
    ensures Counts(BeginStep(s, t, op), z')
  {
    hide Total;
  }

  lemma BeginWeakCounts(s: State, z: Tally, t: nat, op: Operation, z': Tally)
    requires MayBegin(s, z, t, op, z') && !op.IncStrong? && !op.DecStrong?
    ensures Counts(BeginStep(s, t, op), z')
  {
    hide Total;
  }

  lemma BeginCounts(s: State, z: Tally, t: nat, op: Operation, z': Tally)
    requires MayBegin(s, z, t, op, z')
    ensures Counts(BeginStep(s, t, op), z')
  {
    hide MayBegin, Counts, BeginStep;
    if op.IncStrong? || op.DecStrong? {
      BeginStrongCounts(s, z, t, op, z');
    } else {
      BeginWeakCounts(s, z, t, op, z');
    }
  }

  lemma BeginKeepsThreads(s: State, t: nat, op: Operation, u: nat)
    requires Enabled(s, Begin(t, op)) && Disciplined(s, Begin(t, op)) && u < |s.threads| && ThreadOk(s, u)
    requires Counts(s, Total(s.threads))
    ensures ThreadOk(BeginStep(s, t, op), u)
  {
    TotalBounds(s.threads);
    assert Within(Of(s.threads[t]), Total(s.threads)) && Within(Of(s.threads[u]), Total(s.threads));
  }

  lemma BeginPreserves(s: State, t: nat, op: Operation)
    requires Inv(s) && Enabled(s, Begin(t, op)) && Disciplined(s, Begin(t, op))
    ensures Inv(BeginStep(s, t, op))
  {
    hide Of, Total, Shifted, Within, Ordered, Counts, ThreadOk, HasRoom, Disciplined;
    var s' := BeginStep(s, t, op);
    TotalBounds(s.threads);
    TotalUpdate(s.threads, t, s'.threads[t]);
    BeginCounts(s, Total(s.threads), t, op, Total(s'.threads));
    forall u | 0 <= u < |s'.threads| ensures ThreadOk(s', u) {
      BeginKeepsThreads(s, t, op, u);
    }
  }

  /** What the step lemmas below start from. */
  predicate Ready(s: State, z: Tally, t: nat, z': Tally) {
    && Enabled(s, Run(t)) && ThreadOk(s, t)
    && Counts(s, z) && Within(Of(s.threads[t]), z) && Ordered(z)
    && Shifted(z, Of(s.threads[t]), Of(RunStep(s, t).threads[t]), z') && Ordered(z')
  }

  lemma IncStrongCounts(s: State, z: Tally, t: nat, z': Tally)
    requires Ready(s, z, t, z') && (s.threads[t].pc.IncStrongWeak? || s.threads[t].pc.IncStrongAdd? || s.threads[t].pc.IncStrongUnbias? || s.threads[t].pc.IncStrongFirstRef?)
    ensures Counts(RunStep(s, t), z') && ThreadOk(RunStep(s, t), t)
  {
  }

  lemma DecStrongCounts(s: State, z: Tally, t: nat, z': Tally)
    requires Ready(s, z, t, z') && (s.threads[t].pc.DecStrongSub? || s.threads[t].pc.DecStrongLast? || s.threads[t].pc.DecStrongDelete?)
    ensures Counts(RunStep(s, t), z') && ThreadOk(RunStep(s, t), t)
  {
  }

  lemma DecWeakCounts(s: State, z: Tally, t: nat, z': Tally)
    requires Ready(s, z, t, z') && (s.threads[t].pc.DecWeakSub? || s.threads[t].pc.DecWeakLast? || s.threads[t].pc.DecWeakDeleteBase? || s.threads[t].pc.DecWeakFree?)
    ensures Counts(RunStep(s, t), z') && ThreadOk(RunStep(s, t), t)
  {
  }

  lemma IncWeakCounts(s: State, z: Tally, t: nat, z': Tally)
    requires Ready(s, z, t, z') && (s.threads[t].pc.IncWeakAdd? || s.threads[t].pc.PromoteWeak?)
    ensures Counts(RunStep(s, t), z') && ThreadOk(RunStep(s, t), t)
  {
  }

  lemma PromoteReadCounts(s: State, z: Tally, t: nat, z': Tally)
    requires Ready(s, z, t, z') && s.threads[t].pc.PromoteRead?
    ensures Counts(RunStep(s, t), z') && ThreadOk(RunStep(s, t), t)
  {
  }

  lemma PromoteCasCounts(s: State, z: Tally, t: nat, z': Tally)
    requires Ready(s, z, t, z') && s.threads[t].pc.PromoteCas?
    ensures Counts(RunStep(s, t), z') && ThreadOk(RunStep(s, t), t)
  {
    if s.strong == s.threads[t].pc.cur {
      CasSucceeds(s, z, t, z');
    } else {
      CasFails(s, z, t, z');
    }
  }

  lemma CasSucceeds(s: State, z: Tally, t: nat, z': Tally)
    requires Ready(s, z, t, z') && s.threads[t].pc.PromoteCas? && s.strong == s.threads[t].pc.cur
    ensures Counts(RunStep(s, t), z') && ThreadOk(RunStep(s, t), t)
  {
  }

  lemma CasFails(s: State, z: Tally, t: nat, z': Tally)
    requires Ready(s, z, t, z') && s.threads[t].pc.PromoteCas? && s.strong != s.threads[t].pc.cur
    ensures Counts(RunStep(s, t), z') && ThreadOk(RunStep(s, t), t)
  {
  }

  /** Every atomic step keeps the counts right. */
  lemma RunCounts(s: State, z: Tally, t: nat, z': Tally)
    requires Ready(s, z, t, z')
    ensures Counts(RunStep(s, t), z') && ThreadOk(RunStep(s, t), t)
  {
    var pc := s.threads[t].pc;
    if pc.IncStrongWeak? || pc.IncStrongAdd? || pc.IncStrongUnbias? || pc.IncStrongFirstRef? {
      IncStrongCounts(s, z, t, z');
    } else if pc.DecStrongSub? || pc.DecStrongLast? || pc.DecStrongDelete? {
      DecStrongCounts(s, z, t, z');
    } else if pc.DecWeakSub? || pc.DecWeakLast? || pc.DecWeakDeleteBase? || pc.DecWeakFree? {
      DecWeakCounts(s, z, t, z');
    } else if pc.IncWeakAdd? || pc.PromoteWeak? {
      IncWeakCounts(s, z, t, z');
    } else if pc.PromoteRead? {
      PromoteReadCounts(s, z, t, z');
    } else {
      PromoteCasCounts(s, z, t, z');
    }
  }

  /** A thread that does not move is not disturbed by one that does. */
  lemma RunKeepsOthers(s: State, z: Tally, t: nat, u: nat)
    requires Enabled(s, Run(t)) && ThreadOk(s, t) && u < |s.threads| && u != t && ThreadOk(s, u)
    requires Counts(s, z) && Within(Of(s.threads[t]), z) && Within(Of(s.threads[u]), z) && Ordered(z)
    requires Within(Plus(Of(s.threads[t]), Of(s.threads[u])), z)
    ensures ThreadOk(RunStep(s, t), u)
  {
  }

  lemma TwoWithin(ts: seq<Thread>, t: nat, u: nat)
    requires t < |ts| && u < |ts| && t != u
    ensures Within(Plus(Of(ts[t]), Of(ts[u])), Total(ts))
  {
    var none := Thread(Idle, 0, 0);
    TotalUpdate(ts, t, none);
    TotalBounds(ts[t := none]);
    TotalBounds(ts);
    assert ts[t := none][u] == ts[u];
    assert Within(Of(ts[u]), Total(ts[t := none])) && Within(Of(ts[t]), Total(ts));
  }

  lemma RunIsLocal(s: State, t: nat)
    requires Enabled(s, Run(t))
    ensures RunStep(s, t).creator == s.creator
    ensures RunStep(s, t).threads == s.threads[t := RunStep(s, t).threads[t]]
  {
  }

  lemma RunKeepsThreads(s: State, t: nat, u: nat)
    requires Inv(s) && Enabled(s, Run(t)) && u < |s.threads| && u != t
    ensures u < |RunStep(s, t).threads| && ThreadOk(RunStep(s, t), u)
  {
    hide Of, Total, Within, Ordered, Counts, ThreadOk, RunStep;
    RunIsLocal(s, t);
    TotalBounds(s.threads);
    TwoWithin(s.threads, t, u);
    RunKeepsOthers(s, Total(s.threads), t, u);
  }

  lemma RunPreserves(s: State, t: nat)
    requires Inv(s) && Enabled(s, Run(t))
    ensures Inv(RunStep(s, t))
  {
    hide Of, Total, Shifted, Within, Ordered, Counts, ThreadOk, RunStep;
    var s' := RunStep(s, t);
    TotalBounds(s.threads);
    RunIsLocal(s, t);
    TotalUpdate(s.threads, t, s'.threads[t]);
    TotalBounds(s'.threads);
    RunCounts(s, Total(s.threads), t, Total(s'.threads));
    forall u | 0 <= u < |s'.threads| ensures ThreadOk(s', u) {
      if u != t {
        RunKeepsThreads(s, t, u);
      }
    }
  }

  lemma GiveCounts(s: State, from: nat, th: Thread, to: nat, th': Thread)
    requires from < |s.threads| && to < |s.threads| && from != to && Counts(s, Total(s.threads))
    requires th.pc == s.threads[from].pc == Idle && th'.pc == s.threads[to].pc
    requires th.sp + th'.sp == s.threads[from].sp + s.threads[to].sp
    requires th.wp + th'.wp == s.threads[from].wp + s.threads[to].wp
    ensures Counts(s, Total(s.threads[from := th][to := th']))
  {
    TotalUpdate(s.threads, from, th);
    TotalUpdate(s.threads[from := th], to, th');
  }

  lemma GivePreserves(s: State, a: Action)
    requires Inv(s) && Enabled(s, a) && (a.GiveStrong? || a.GiveWeak?)
    ensures Inv(Next(s, a))
  {
    hide Of, Total;
    var s' := Next(s, a);
    GiveCounts(s, a.from, s'.threads[a.from], a.to, s'.threads[a.to]);
    assert s'.threads == s.threads[a.from := s'.threads[a.from]][a.to := s'.threads[a.to]];
    forall u | 0 <= u < |s'.threads| ensures ThreadOk(s', u) {
      assert ThreadOk(s, u);
    }
  }

  lemma StepPreserves(s: State, a: Action)
    requires Inv(s) && Enabled(s, a) && Disciplined(s, a)
    ensures Inv(Next(s, a))
  {
    match a
    case Begin(t, op) => BeginPreserves(s, t, op);
    case Run(t) => RunPreserves(s, t);
    case GiveStrong(_, _) => GivePreserves(s, a);
    case GiveWeak(_, _) => GivePreserves(s, a);
    case Abandon =>
      forall u | 0 <= u < |s.threads| ensures ThreadOk(Next(s, a), u) {
        assert ThreadOk(s, u);
      }
  }

  // ----- what the protocol is for -----

  /** The steps that use the object itself, not only its weakref_impl. */
  predicate UsesObject(pc: PC) {
    || pc.IncStrongWeak? || pc.IncStrongAdd? || pc.IncStrongUnbias? || pc.IncStrongFirstRef?
    || pc.DecStrongSub? || pc.DecStrongLast? || pc.DecStrongDelete? || pc.DecWeakDeleteBase?
    || pc.PromoteUnbias? || pc.PromoteFirstRef?
  }

  /**
   No double destruction, no use after destruction, the weakref_impl outlives the
   object, and both counters stay inside 32 bits.
   */
  ghost predicate Safe(s: State) {
    && s.objectDeletes <= 1 && s.implFrees <= 1 && s.firstRefCalls <= 1 && s.lastRefCalls <= 1
    && s.implFrees <= s.objectDeletes
    && 0 <= s.strong < INT32_LIMIT && 0 <= s.weak < INT32_LIMIT
    && (forall t :: 0 <= t < |s.threads| ==>
          var th := s.threads[t];
          && (th.sp > 0 || UsesObject(th.pc) ==> s.objectDeletes == 0)
          && (th.sp > 0 || th.wp > 0 || !th.pc.Idle? ==> s.implFrees == 0))
  }

  lemma InvImpliesSafe(s: State)
    requires Inv(s)
    ensures Safe(s)
  {
    TotalBounds(s.threads);
    forall t | 0 <= t < |s.threads|
      ensures var th := s.threads[t];
              && (th.sp > 0 || UsesObject(th.pc) ==> s.objectDeletes == 0)
              && (th.sp > 0 || th.wp > 0 || !th.pc.Idle? ==> s.implFrees == 0)
    {
      assert ThreadOk(s, t);
    }
  }

  lemma {:induction false} AllowedIsPossible(s: State, run: seq<Action>)
    requires Allowed(s, run)
    ensures Possible(s, run)
    decreases |run|
  {
    if run != [] {
      AllowedIsPossible(Next(s, run[0]), run[1..]);
    }
  }

  lemma {:induction false} RunKeepsInv(s: State, run: seq<Action>)
    requires Inv(s) && Allowed(s, run)
    ensures Possible(s, run) && Inv(Exec(s, run))
    decreases |run|
  {
    AllowedIsPossible(s, run);
    if run != [] {
      StepPreserves(s, run[0]);
      RunKeepsInv(Next(s, run[0]), run[1..]);
    }
  }

  /** Every state that any number of threads can reach by any interleaving is safe. */
  lemma EveryRunIsSafe(n: nat, creator: nat, run: seq<Action>)
    requires creator < n && Allowed(Init(n, creator), run)
    ensures Possible(Init(n, creator), run) && Safe(Exec(Init(n, creator), run))
  {
    InitInv(n, creator);
    RunKeepsInv(Init(n, creator), run);
    InvImpliesSafe(Exec(Init(n, creator), run));
  }

  /** The last strong reference is gone: the object is deleted or its deleter is on the way. */
  predicate Dead(s: State) { s.phase.Established? && s.strong == 0 }

  predicate PromotionSucceeds(s: State, a: Action) {
    a.Run? && a.t < |s.threads| && s.threads[a.t].pc.PromoteCas? && s.threads[a.t].pc.cur == s.strong
  }

  lemma DeadStep(s: State, a: Action)
    requires Inv(s) && Enabled(s, a) && Disciplined(s, a) && Dead(s)
    ensures Dead(Next(s, a)) && !PromotionSucceeds(s, a)
    ensures Next(s, a).objectDeletes >= s.objectDeletes
  {
    TotalBounds(s.threads);
    if a.Run? {
      assert ThreadOk(s, a.t);
    }
  }

  /** Once dead, no continuation of the run revives the object: every promotion in it fails. */
  lemma {:induction false} DeathIsFinal(s: State, run: seq<Action>, i: nat)
    requires Inv(s) && Dead(s) && Allowed(s, run) && i < |run|
    ensures Possible(s, run[..i]) && Dead(Exec(s, run[..i]))
    ensures !PromotionSucceeds(Exec(s, run[..i]), run[i])
    decreases i
  {
    DeadStep(s, run[0]);
    if i > 0 {
      StepPreserves(s, run[0]);
      DeathIsFinal(Next(s, run[0]), run[1..], i - 1);
      assert run[..i][1..] == run[1..][..i - 1];
    }
  }

  /** The step after which the object is dead is exactly the one that takes the count from 1 to 0. */
  lemma DeathHappensAtOneToZero(s: State, a: Action)
    requires Inv(s) && Enabled(s, a) && Disciplined(s, a)
    ensures !Dead(s) && Dead(Next(s, a)) <==>
            a.Run? && s.phase.Established? && s.strong == 1 && s.threads[a.t].pc.DecStrongSub?
  {
    TotalBounds(s.threads);
    StepPreserves(s, a);
    TotalBounds(Next(s, a).threads);
    if a.Run? {
      assert ThreadOk(s, a.t);
    }
  }

  /** The thread is inside attemptIncStrong and has neither a reference yet nor given up. */
  predicate Promoting(pc: PC) { pc.PromoteWeak? || pc.PromoteRead? || pc.PromoteCas? }

  /** The step gives thread t the reference it asked for: one more for the thread, one more in mStrong. */
  predicate Gains(s: State, r: State, t: nat) {
    && t < |s.threads| && t < |r.threads|
    && r.threads[t].pc.Idle? && r.threads[t].sp == s.threads[t].sp + 1 && r.strong == s.strong + 1
    && r.threads[t].wp == s.threads[t].wp
  }

  /**
   Each step of a promotion: it gives up exactly if it reads mStrong after the last strong
   reference is gone, it succeeds exactly if nothing changed mStrong since it read it, and with one
   more reference; otherwise it goes on, with the value it reads now.
   */
  lemma PromotionFailsOnlyWhenDead(s: State, t: nat)
    requires Inv(s) && Enabled(s, Run(t)) && Promoting(s.threads[t].pc)
    ensures var r := RunStep(s, t); var pc, pc' := s.threads[t].pc, r.threads[t].pc;
            && t < |r.threads|
            && (pc'.DecWeakSub? <==> pc.PromoteRead? && Dead(s))
            && (pc'.Idle? <==> pc.PromoteCas? && pc.cur == s.strong)
            && (pc'.Idle? ==> Gains(s, r, t) && !Dead(s))
            && (!pc'.Idle? && !pc'.DecWeakSub? ==> Promoting(pc') && r.strong == s.strong)
            && (pc'.PromoteCas? ==> pc.PromoteRead? && pc'.cur == s.strong)
  {
    TotalBounds(s.threads);
    assert ThreadOk(s, t);
  }

  /** Nobody else moves a promoting thread. */
  lemma PromotionIsOwn(s: State, a: Action, t: nat)
    requires Enabled(s, a) && a != Run(t) && t < |s.threads| && Promoting(s.threads[t].pc)
    ensures t < |Next(s, a).threads| && Next(s, a).threads[t].pc == s.threads[t].pc
  {
    if a.Run? {
      RunIsLocal(s, a.t);
    }
  }

  /** The promotion of thread t ended in step i of the run: with a reference, or given up on a dead object. */
  ghost predicate EndsAt(s: State, run: seq<Action>, t: nat, i: nat)
    requires Possible(s, run)
  {
    i < |run| && Possible(s, run[..i]) &&
    var p := Exec(s, run[..i]);
    && t < |p.threads| && Promoting(p.threads[t].pc) && run[i] == Run(t) && Enabled(p, run[i])
    && var q := Next(p, run[i]);
       (Gains(p, q, t) && !Dead(p)) || (Dead(p) && t < |q.threads| && q.threads[t].pc.DecWeakSub?)
  }

  /**
   Over runs: a promotion that started is still going on, or it ended in one step, with one more
   strong reference to the live object or because the last one was gone.
   */
  lemma {:induction false} PromotionEndsWell(s: State, run: seq<Action>, t: nat)
    requires Inv(s) && Allowed(s, run) && t < |s.threads| && Promoting(s.threads[t].pc)
    ensures Possible(s, run)
    ensures (t < |Exec(s, run).threads| && Promoting(Exec(s, run).threads[t].pc)) || exists i: nat :: EndsAt(s, run, t, i)
    decreases |run|
  {
    hide Inv, Dead, Promoting, RunStep;
    AllowedIsPossible(s, run);
    if run != [] {
      StepPreserves(s, run[0]);
      assert run[..0] == [];
      if run[0] == Run(t) {
        PromotionFailsOnlyWhenDead(s, t);
      } else {
        PromotionIsOwn(s, run[0], t);
      }
      var s1 := Next(s, run[0]);
      if t < |s1.threads| && Promoting(s1.threads[t].pc) {
        PromotionEndsWell(s1, run[1..], t);
        if exists i: nat :: EndsAt(s1, run[1..], t, i) {
          var i: nat :| EndsAt(s1, run[1..], t, i);
          assert run[..i + 1][1..] == run[1..][..i] && run[..i + 1][0] == run[0];
          assert EndsAt(s, run, t, i + 1);
        }
      } else {
        assert EndsAt(s, run, t, 0);
      }
    }
  }

  predicate AllReleased(s: State) { forall t :: 0 <= t < |s.threads| ==> Released(s.threads[t]) }

  predicate AllDestroyed(s: State) {
    && (s.phase.Established? ==>
          s.objectDeletes == 1 && s.implFrees == 1 && s.firstRefCalls == 1 && s.lastRefCalls == 1
          && s.strong == 0 && s.weak == 0)
    && (s.phase.WeakOnly? && s.weakMade ==>
          s.objectDeletes == 1 && s.implFrees == 1 && s.firstRefCalls == 0 && s.lastRefCalls == 0 && s.weak == 0)
    && (!s.phase.Established? && !(s.phase.WeakOnly? && s.weakMade) ==>
          !s.weakMade && s.objectDeletes == 0 && s.implFrees == 0)
  }

  /**
   When no thread holds or handles a reference any more, everything was destroyed exactly once:
   after a first strong reference, and also if there only ever were weak ones. Without any
   reference of either kind nothing was destroyed.
   */
  lemma QuiescentMeansDestroyedOnce(n: nat, creator: nat, run: seq<Action>)
    requires creator < n && Allowed(Init(n, creator), run)
    requires Possible(Init(n, creator), run)
    requires AllReleased(Exec(Init(n, creator), run))
    ensures AllDestroyed(Exec(Init(n, creator), run))
  {
    InitInv(n, creator);
    RunKeepsInv(Init(n, creator), run);
    hide *;
    QuiescentState(Exec(Init(n, creator), run));
  }

  lemma QuiescentState(s: State)
    requires Inv(s) && AllReleased(s)
    ensures AllDestroyed(s)
  {
    TotalOfReleased(s.threads);
    TotalBounds(s.threads);
    assert Counts(s, Total(s.threads));
  }

  // ----- why the client rules are needed -----

  /** A run from s0 to s, extended by one action. */
  lemma {:induction false} Extend(s0: State, run: seq<Action>, s: State, a: Action)
    returns (run': seq<Action>, s': State)
    requires Possible(s0, run) && s == Exec(s0, run) && Enabled(s, a)
    ensures run' == run + [a] && Possible(s0, run') && s' == Next(s, a) && s' == Exec(s0, run')
    decreases |run|
  {
    run', s' := run + [a], Next(s, a);
    if run == [] {
      assert run'[1..] == [];
    } else {
      assert run'[1..] == run[1..] + [a];
      var _, _ := Extend(Next(s0, run[0]), run[1..], s, a);
    }
  }

  /** Some continuation of s, by owners, ends in an unsafe state. */
  ghost predicate CanBecomeUnsafe(s: State) {
    exists run :: Possible(s, run) && !Safe(Exec(s, run))
  }

  /** Steps of one thread t, from a state s that run leads to from s0. */
  lemma {:induction false} Steps(s0: State, run: seq<Action>, s: State, t: nat, n: nat)
    returns (run': seq<Action>, s': State)
    requires Possible(s0, run) && s == Exec(s0, run) && t < |s.threads|
    requires n > 0 ==> Enabled(s, Run(t))
    requires n > 1 ==> Enabled(RunStep(s, t), Run(t))
    requires n <= 2
    ensures Possible(s0, run') && s' == Exec(s0, run')
    ensures n == 0 ==> s' == s
    ensures n == 1 ==> s' == RunStep(s, t)
    ensures n == 2 ==> s' == RunStep(RunStep(s, t), t)
  {
    run', s' := run, s;
    if n > 0 {
      run', s' := Extend(s0, run', s', Run(t));
    }
    if n > 1 {
      run', s' := Extend(s0, run', s', Run(t));
    }
  }

  /** Thread t begins to promote and reads mStrong while it still holds its initial value. */
  lemma ReadsInitialValue(s0: State, run: seq<Action>, s: State, t: nat) returns (run': seq<Action>, s': State)
    requires Possible(s0, run) && s == Exec(s0, run) && s.strong == INITIAL_STRONG_VALUE
    requires t < |s.threads| && s.threads[t].pc.Idle? && s.threads[t].wp > 0
    ensures Possible(s0, run') && s' == Exec(s0, run')
    ensures s'.strong == INITIAL_STRONG_VALUE && s'.phase == s.phase && s'.creator == s.creator
    ensures s'.objectDeletes == s.objectDeletes
    ensures s'.threads == s.threads[t := s.threads[t].(pc := PromoteFirst)]
  {
    run', s' := Extend(s0, run, s, Begin(t, Promote));
    run', s' := Steps(s0, run', s', t, 2);
  }

  /** The creator takes the first strong reference. */
  lemma TakesFirstStrong(s0: State, run: seq<Action>, s: State) returns (run': seq<Action>, s': State)
    requires Possible(s0, run) && s == Exec(s0, run) && s.strong == INITIAL_STRONG_VALUE && s.phase.Fresh?
    requires s.creator < |s.threads| && s.threads[s.creator].pc.Idle? && s.threads[s.creator].sp == 0
    ensures Possible(s0, run') && s' == Exec(s0, run')
    ensures s'.strong == 1 && s'.phase.Established? && s'.objectDeletes == s.objectDeletes
    ensures s'.threads == s.threads[s.creator := s.threads[s.creator].(sp := 1)]
  {
    var c := s.creator;
    run', s' := Extend(s0, run, s, Begin(c, IncStrong));
    run', s' := Steps(s0, run', s', c, 2);
    assert s'.threads[c].pc.IncStrongUnbias? && s'.strong == INITIAL_STRONG_VALUE + 1;
    run', s' := Steps(s0, run', s', c, 2);
  }

  /** Thread t, having read the initial value alone, takes the first strong reference. */
  lemma PromotesFirst(s0: State, run: seq<Action>, s: State, t: nat) returns (run': seq<Action>, s': State)
    requires Possible(s0, run) && s == Exec(s0, run) && s.strong == INITIAL_STRONG_VALUE
    requires t < |s.threads| && s.threads[t].pc.PromoteFirst? && s.threads[t].sp == 0
    ensures Possible(s0, run') && s' == Exec(s0, run')
    ensures s'.strong == 1 && s'.phase.Established? && s'.objectDeletes == s.objectDeletes
    ensures s'.threads == s.threads[t := s.threads[t].(pc := Idle, sp := 1)]
  {
    hide RunStep, Of, Total;
    FirstPromotionSteps(s, t);
    run', s' := Steps(s0, run, s, t, 2);
    run', s' := Steps(s0, run', s', t, 1);
  }

  /** The three steps of a promotion that takes the first strong reference. */
  lemma FirstPromotionSteps(s: State, t: nat)
    requires t < |s.threads| && s.strong == INITIAL_STRONG_VALUE && s.threads[t].pc.PromoteFirst?
    ensures var th := s.threads[t];
            var s1 := Put(s.(strong := s.strong + 1, phase := Counted), t, th.(pc := PromoteUnbias));
            var s2 := Put(s1.(strong := 1, phase := Established), t, th.(pc := PromoteFirstRef));
            var s3 := Put(s2.(firstRefCalls := s.firstRefCalls + 1), t, th.(pc := Idle, sp := th.sp + 1));
            RunStep(s, t) == s1 && RunStep(s1, t) == s2 && RunStep(s2, t) == s3
            && s3.threads == s.threads[t := th.(pc := Idle, sp := th.sp + 1)]
  {
  }

  /** Thread c drops the only strong reference, which deletes the object. */
  lemma DropsLastStrong(s0: State, run: seq<Action>, s: State, c: nat) returns (run': seq<Action>, s': State)
    requires Possible(s0, run) && s == Exec(s0, run) && s.strong == 1
    requires c < |s.threads| && s.threads[c].pc.Idle? && s.threads[c].sp == 1
    ensures Possible(s0, run') && s' == Exec(s0, run')
    ensures s'.strong == 0 && s'.objectDeletes == s.objectDeletes + 1
    ensures s'.threads == s.threads[c := s.threads[c].(pc := DecWeakSub, sp := 0)]
  {
    run', s' := Extend(s0, run, s, Begin(c, DecStrong));
    run', s' := Steps(s0, run', s', c, 2);
    run', s' := Steps(s0, run', s', c, 1);
  }

  /** A promotion that read the initial value succeeds on the deleted object. */
  lemma PromotesTheDead(s0: State, run: seq<Action>, s: State, t: nat)
    requires Possible(s0, run) && s == Exec(s0, run) && s.strong == 0 && s.objectDeletes > 0
    requires t < |s.threads| && s.threads[t].pc.PromoteFirst?
    ensures CanBecomeUnsafe(s0)
  {
    var run', s' := Steps(s0, run, s, t, 1);
    assert s'.threads[t].sp > 0 && s'.objectDeletes > 0;
    assert !Safe(s');
  }

  /** While nothing but the bare pointer and weak references is there, nobody holds a strong reference. */
  lemma NobodyStrong(s: State, t: nat)
    requires Inv(s) && (s.phase.Fresh? || s.phase.WeakOnly?) && t < |s.threads|
    ensures s.threads[t].sp == 0 && s.strong == INITIAL_STRONG_VALUE
  {
    TotalBounds(s.threads);
    assert Within(Of(s.threads[t]), Total(s.threads));
  }

  /**
   The rule on promotions is needed: from every state in which the bare pointer is in use, a
   promotion begun by another thread has an unsafe continuation.
   */
  lemma EarlyPromotionIsUnsafe(s: State, t: nat)
    requires Inv(s) && s.phase.Fresh? && s.creator < |s.threads| && s.threads[s.creator].pc.Idle?
    requires t < |s.threads| && t != s.creator && s.threads[t].pc.Idle? && s.threads[t].wp > 0
    ensures Enabled(s, Begin(t, Promote)) && CanBecomeUnsafe(Next(s, Begin(t, Promote)))
  {
    hide Inv, Safe, Of, Total;
    NobodyStrong(s, s.creator);
    var s0 := Next(s, Begin(t, Promote));
    var run, s1 := [], s0;
    run, s1 := Steps(s0, run, s1, t, 2);
    assert s1.threads == s.threads[t := s.threads[t].(pc := PromoteFirst)];
    run, s1 := TakesFirstStrong(s0, run, s1);
    run, s1 := DropsLastStrong(s0, run, s1, s.creator);
    PromotesTheDead(s0, run, s1, t);
  }

  /** And once only weak references are left, two promotions at a time have one. */
  lemma TwoPromotionsAreUnsafe(s: State, t: nat, u: nat)
    requires Inv(s) && s.phase.WeakOnly? && t < |s.threads| && u < |s.threads| && t != u
    requires s.threads[t].pc.Idle? && s.threads[t].wp > 0 && s.threads[u].pc.Idle? && s.threads[u].wp > 0
    ensures CanBecomeUnsafe(s)
  {
    hide Inv, Safe, Of, Total;
    NobodyStrong(s, t);
    var run, s1 := [], s;
    run, s1 := ReadsInitialValue(s, run, s1, t);
    run, s1 := ReadsInitialValue(s, run, s1, u);
    run, s1 := PromotesFirst(s, run, s1, t);
    run, s1 := DropsLastStrong(s, run, s1, t);
    PromotesTheDead(s, run, s1, u);
  }

  /**
   The rule on dropping is needed: if the last weak reference is dropped while the bare pointer is
   in use, the object is deleted under the creator, who may go on using it.
   */
  lemma DroppingTheLastWeakIsUnsafe(s: State, t: nat)
    requires Inv(s) && s.phase.Fresh? && s.creator < |s.threads| && s.threads[s.creator].pc.Idle? && s.weak == 1
    requires t < |s.threads| && s.threads[t].pc.Idle? && s.threads[t].wp > 0
    ensures Enabled(s, Begin(t, DecWeak)) && CanBecomeUnsafe(Next(s, Begin(t, DecWeak)))
  {
    hide Inv, Safe, Of, Total;
    NobodyStrong(s, s.creator);
    var s0 := Next(s, Begin(t, DecWeak));
    var run, s1 := [], s0;
    run, s1 := Steps(s0, run, s1, t, 2);
    assert s1.threads[t].pc.DecWeakDeleteBase?;
    run, s1 := Steps(s0, run, s1, t, 1);
    assert s1.objectDeletes > 0 && s1.phase.Fresh? && s1.threads[s.creator].pc.Idle?;
    run, s1 := Extend(s0, run, s1, Begin(s.creator, IncStrong));
    UsesTheDead(s0, run, s1, s.creator);
  }

  lemma UsesTheDead(s0: State, run: seq<Action>, s: State, t: nat)
    requires Possible(s0, run) && s == Exec(s0, run) && s.objectDeletes > 0
    requires t < |s.threads| && UsesObject(s.threads[t].pc)
    ensures CanBecomeUnsafe(s0)
  {
    assert !Safe(s);
  }

  /** A run after which thread 1 owns a strong reference to an object that was already deleted. */
  lemma PromotionBeforeFirstStrongIsUnsafe() returns (run: seq<Action>)
    ensures Possible(Init(2, 0), run) && !Safe(Exec(Init(2, 0), run))
  {
    hide Safe, Of, Total;
    var i := Init(2, 0);
    var s;
    run, s := [], i;
    run, s := Extend(i, run, s, Begin(0, IncWeak));
    run, s := Extend(i, run, s, Run(0));
    assert s.threads == [Thread(Idle, 0, 1), Thread(Idle, 0, 0)];
    run, s := Extend(i, run, s, GiveWeak(0, 1));
    assert s.threads == [Thread(Idle, 0, 0), Thread(Idle, 0, 1)];
    run, s := ReadsInitialValue(i, run, s, 1);
    run, s := TakesFirstStrong(i, run, s);
    run, s := DropsLastStrong(i, run, s, 0);
    PromotesTheDead(i, run, s, 1);
    run :| Possible(i, run) && !Safe(Exec(i, run));
  }
}
