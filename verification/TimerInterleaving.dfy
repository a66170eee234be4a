/**
 The timer service between its lock regions: callers reserve an id, insert and cancel while
 the worker waits or runs a callback; the worker pops under the lock and calls without it.
 */
module TimerInterleaving {
  import opened TimerService

  /** Passing holds the lock; between popping a timer that starts and its callback the lock is released. */
  datatype Worker = Waiting | Passing(now: int) | Calling(now: int, item: Item) | Running(now: int, item: Item)

  datatype State = State(
    heap: multiset<Item>,
    active: set<TimerId>,
    nextId: TimerId,
    reserved: set<Item>,
    worker: Worker,
    clock: int)

  datatype Event =
    | Reserve(delay: int, interval: int, callback: Callback)
    | Insert(item: Item)
    | CancelTimer(id: TimerId)
    | Wake
    | Pop(item: Item, now: int)
    | Leave
    | StartCall(item: Item, at: int)
    | Return
    | Tick(t: int)

  function Initial(clock: int): State {
    State(multiset{}, {}, 1, {}, Waiting, clock)
  }

  ghost predicate Enabled(s: State, e: Event) {
    match e
    case Reserve(_, _, _) => true
    case Insert(x) => x in s.reserved && !s.worker.Passing?
    case CancelTimer(_) => !s.worker.Passing?
    case Wake => s.worker.Waiting?
    case Pop(x, now) => s.worker == Passing(now) && IsTop(s.heap, x) && Due(x, now)
    case Leave => s.worker.Passing? && forall x :: x in s.heap ==> !Due(x, s.worker.now)
    case StartCall(x, at) => s.worker.Calling? && s.worker.item == x && at == s.clock
    case Return => s.worker.Running?
    case Tick(t) => s.clock <= t
  }

  function Step(s: State, e: Event): State {
    match e
    case Reserve(delay, interval, callback) =>
      s.(nextId := s.nextId + 1, reserved := s.reserved + {Item(s.nextId, s.clock + delay, interval, callback)})
    case Insert(x) =>
      s.(heap := s.heap + multiset{x}, active := s.active + {x.id}, reserved := s.reserved - {x})
    case CancelTimer(id) => s.(active := s.active - {id})
    case Wake => s.(worker := Passing(s.clock))
    case Pop(x, now) =>
      s.(heap := HeapAfter(s.heap, s.active, x, now), active := ActiveAfter(s.active, x),
         worker := if x.id in s.active then Calling(now, x) else s.worker)
    case Leave => s.(worker := Waiting)
    case StartCall(x, _) => if s.worker.Calling? then s.(worker := Running(s.worker.now, x)) else s
    case Return => if s.worker.Running? then s.(worker := Passing(s.worker.now)) else s
    case Tick(t) => s.(clock := t)
  }

  ghost predicate IsRun(s: State, es: seq<Event>)
    decreases |es|
  {
    es != [] ==> Enabled(s, es[0]) && IsRun(Step(s, es[0]), es[1..])
  }

  function Run(s: State, es: seq<Event>): State
    decreases |es|
  {
    if es == [] then s else Run(Step(s, es[0]), es[1..])
  }

  // ---------- The simple map follows ----------

  /** Removal at once: cancelling deletes, and what is not live does not start. */
  function LiveStep(live: Live, e: Event): Live {
    match e
    case Insert(x) => live[x.id := x]
    case CancelTimer(id) => live - {id}
    case Pop(x, now) => if x.id in live then Start(live, x.id, now) else live
    case _ => live
  }

  function LiveRun(live: Live, es: seq<Event>): Live
    decreases |es|
  {
    if es == [] then live else LiveRun(LiveStep(live, es[0]), es[1..])
  }

  ghost predicate ReservedApart(s: State) {
    && (forall x :: x in s.reserved ==> x.id < s.nextId && x.id !in s.active)
    && (forall x, y :: x in s.reserved && y in s.reserved && x.id == y.id ==> x == y)
    && (forall x, y :: x in s.reserved && y in s.heap ==> x.id != y.id)
  }

  ghost predicate WorkerSound(s: State) {
    match s.worker
    case Waiting => true
    case Passing(now) => now <= s.clock
    case Calling(now, x) =>
      && x.time <= now <= s.clock && x.id < s.nextId
      && (x.interval <= 0 ==> x.id !in s.active)
      && forall y :: y in s.reserved ==> y.id != x.id
    case Running(now, x) => now <= s.clock
  }

  ghost predicate Inv(s: State, live: Live) {
    Represents(s.heap, s.active, live) && IdsBelow(s.heap, s.nextId) && ReservedApart(s) && WorkerSound(s)
  }

  lemma InvStep(s: State, live: Live, e: Event)
    requires Inv(s, live) && Enabled(s, e)
    ensures Inv(Step(s, e), LiveStep(live, e))
  {
    if e.Reserve? {
      ReserveInv(s, live, e);
    } else if e.Insert? {
      InsertInv(s, live, e.item);
    } else if e.CancelTimer? {
      CancelInv(s, live, e.id);
    } else if e.Pop? {
      PopInv(s, live, e.item, e.now);
    } else {
      WorkerInv(s, live, e);
    }
  }

  lemma CancelInv(s: State, live: Live, id: TimerId)
    requires Inv(s, live)
    ensures Inv(Step(s, CancelTimer(id)), live - {id})
  {
    CancelRepresents(s.heap, s.active, live, id);
    hide Represents, IdsBelow;
  }

  lemma WorkerInv(s: State, live: Live, e: Event)
    requires Inv(s, live) && Enabled(s, e)
    requires e.Wake? || e.Leave? || e.StartCall? || e.Return? || e.Tick?
    ensures Inv(Step(s, e), live)
  {
    hide Represents, IdsBelow, IsTop, Due;
  }

  lemma ReserveInv(s: State, live: Live, e: Event)
    requires Inv(s, live) && e.Reserve?
    ensures Inv(Step(s, e), live)
  {
    ActiveBelow(s, live);
  }

  lemma ActiveBelow(s: State, live: Live)
    requires Inv(s, live)
    ensures forall id :: id in s.active ==> id < s.nextId
  {
  }

  lemma InsertInv(s: State, live: Live, x: Item)
    requires Inv(s, live) && Enabled(s, Insert(x))
    ensures Inv(Step(s, Insert(x)), live[x.id := x])
  {
    PushRepresents(s.heap, s.active, live, x);
    hide Represents;
  }

  lemma PopInv(s: State, live: Live, x: Item, now: int)
    requires Inv(s, live) && Enabled(s, Pop(x, now))
    ensures Inv(Step(s, Pop(x, now)), LiveStep(live, Pop(x, now)))
  {
    PopRepresents(s.heap, s.active, live, x, now);
    PopKeepsIds(s.heap, s.active, x, now, s.nextId);
    var s' := Step(s, Pop(x, now));
    assert ReservedApart(s') by {
      forall r, y | r in s'.reserved && y in s'.heap ensures r.id != y.id {
        assert y in s.heap || y == Again(x, now);
      }
    }
  }

  /**
   In every interleaving the heap with its active ids stands for the simple map, and the
   worker has popped nothing early.
   */
  lemma {:induction false} HeapStandsForMap(s: State, live: Live, es: seq<Event>)
    requires Inv(s, live) && IsRun(s, es)
    ensures Inv(Run(s, es), LiveRun(live, es))
    decreases |es|
  {
    if es != [] {
      InvStep(s, live, es[0]);
      HeapStandsForMap(Step(s, es[0]), LiveStep(live, es[0]), es[1..]);
    }
  }

  lemma HeapStandsForMapFromStart(clock: int, es: seq<Event>)
    requires IsRun(Initial(clock), es)
    ensures Inv(Run(Initial(clock), es), LiveRun(map[], es))
  {
    HeapStandsForMap(Initial(clock), map[], es);
  }

  // ---------- Starts ----------

  function IsStart(e: Event, id: TimerId): nat {
    if e.StartCall? && e.item.id == id then 1 else 0
  }

  function Starts(es: seq<Event>, id: TimerId): nat
    decreases |es|
  {
    if es == [] then 0 else IsStart(es[0], id) + Starts(es[1..], id)
  }

  /** No callback starts before the deadline of the timer it belongs to. */
  lemma {:induction false} NeverEarly(s: State, live: Live, es: seq<Event>)
    requires Inv(s, live) && IsRun(s, es)
    ensures forall i :: 0 <= i < |es| && es[i].StartCall? ==> es[i].item.time <= es[i].at
    decreases |es|
  {
    hide Inv, Enabled, Step, LiveStep;
    if es != [] {
      StartsInTime(s, live, es[0]);
      InvStep(s, live, es[0]);
      NeverEarly(Step(s, es[0]), LiveStep(live, es[0]), es[1..]);
      assert forall i :: 1 <= i < |es| ==> es[i] == es[1..][i - 1];
    }
  }

  lemma StartsInTime(s: State, live: Live, e: Event)
    requires Inv(s, live) && Enabled(s, e)
    ensures e.StartCall? ==> e.item.time <= e.at
  {
    hide Represents, IdsBelow, ReservedApart;
  }

  ghost predicate Pending(s: State, id: TimerId) {
    id in s.active || exists x :: x in s.reserved && x.id == id
  }

  predicate AboutToCall(s: State, id: TimerId) {
    s.worker.Calling? && s.worker.item.id == id
  }

  ghost function Budget(s: State, id: TimerId): nat {
    (if Pending(s, id) then 1 else 0) + if AboutToCall(s, id) then 1 else 0
  }

  /** The id has been given out, and what is still to start under it starts once. */
  ghost predicate NoRepeat(s: State, id: TimerId) {
    && id < s.nextId
    && (id in s.active ==> forall x :: x in s.heap && x.id == id ==> x.interval <= 0)
    && (forall x :: x in s.reserved && x.id == id ==> x.interval <= 0)
  }

  lemma BudgetStep(s: State, live: Live, e: Event, id: TimerId)
    requires Inv(s, live) && Enabled(s, e) && NoRepeat(s, id)
    ensures NoRepeat(Step(s, e), id)
    ensures Budget(Step(s, e), id) + IsStart(e, id) <= Budget(s, id)
  {
    if e.Insert? {
      InsertBudget(s, live, e.item, id);
    } else if e.Pop? {
      PopBudget(s, live, e.item, e.now, id);
    } else {
      hide Represents, WorkerSound, IdsBelow;
      assert Pending(Step(s, e), id) ==> Pending(s, id);
    }
  }

  lemma InsertBudget(s: State, live: Live, x: Item, id: TimerId)
    requires Inv(s, live) && Enabled(s, Insert(x)) && NoRepeat(s, id)
    ensures NoRepeat(Step(s, Insert(x)), id)
    ensures Budget(Step(s, Insert(x)), id) <= Budget(s, id)
  {
    hide Represents, WorkerSound, IdsBelow;
    assert x.id == id ==> Pending(s, id);
    assert Pending(Step(s, Insert(x)), id) ==> Pending(s, id);
  }

  lemma PopBudget(s: State, live: Live, x: Item, now: int, id: TimerId)
    requires Inv(s, live) && Enabled(s, Pop(x, now)) && NoRepeat(s, id)
    ensures NoRepeat(Step(s, Pop(x, now)), id)
    ensures Budget(Step(s, Pop(x, now)), id) <= Budget(s, id)
  {
    hide Represents, WorkerSound, IdsBelow;
    var s' := Step(s, Pop(x, now));
    assert s'.reserved == s.reserved && s'.active <= s.active;
    assert forall y :: y in s'.heap ==> y in s.heap || (x.interval > 0 && x.id in s.active && y == Again(x, now));
    assert x.id in s.active ==> Pending(s, x.id);
    assert x.id == id && x.id in s.active ==> !Pending(s', id);
  }

  lemma {:induction false} BudgetRun(s: State, live: Live, es: seq<Event>, id: TimerId)
    requires Inv(s, live) && IsRun(s, es) && NoRepeat(s, id)
    ensures Starts(es, id) <= Budget(s, id)
    decreases |es|
  {
    if es != [] {
      BudgetStep(s, live, es[0], id);
      InvStep(s, live, es[0]);
      BudgetRun(Step(s, es[0]), LiveStep(live, es[0]), es[1..], id);
    }
  }

  /** A one-shot timer starts at most once, however its callers and the worker interleave. */
  lemma OneShotStartsAtMostOnce(s: State, live: Live, es: seq<Event>, delay: int, interval: int, callback: Callback)
    requires Inv(s, live) && interval <= 0
    requires IsRun(Step(s, Reserve(delay, interval, callback)), es)
    ensures Starts(es, s.nextId) <= 1
  {
    var s' := Step(s, Reserve(delay, interval, callback));
    InvStep(s, live, Reserve(delay, interval, callback));
    ActiveBelow(s, live);
    BudgetRun(s', live, es, s.nextId);
  }

  /**
   Cancelling an inserted timer is final, except when the worker has popped it and has not
   yet called: then, and only then, its callback may still start after Cancel has returned.
   */
  lemma StartsAfterCancelExactlyWhenPopped(s: State, live: Live, id: TimerId)
    requires Inv(s, live) && Enabled(s, CancelTimer(id))
    requires id < s.nextId && forall x :: x in s.reserved ==> x.id != id
    ensures (exists es :: IsRun(Step(s, CancelTimer(id)), es) && Starts(es, id) > 0) <==> AboutToCall(s, id)
  {
    var s' := Step(s, CancelTimer(id));
    if AboutToCall(s, id) {
      CallGoesAhead(s', id);
    }
    InvStep(s, live, CancelTimer(id));
    forall es | IsRun(s', es) && Starts(es, id) > 0 ensures AboutToCall(s, id) {
      BudgetRun(s', live - {id}, es, id);
    }
  }

  lemma CallGoesAhead(s: State, id: TimerId)
    requires AboutToCall(s, id)
    ensures var es := [StartCall(s.worker.item, s.clock)]; IsRun(s, es) && Starts(es, id) > 0
  {
    var es := [StartCall(s.worker.item, s.clock)];
    assert es[1..] == [];
  }

  /** Even then it starts once more at most. */
  lemma AtMostOneStartAfterCancel(s: State, live: Live, id: TimerId, es: seq<Event>)
    requires Inv(s, live) && Enabled(s, CancelTimer(id))
    requires id < s.nextId && forall x :: x in s.reserved ==> x.id != id
    requires IsRun(Step(s, CancelTimer(id)), es)
    ensures Starts(es, id) <= 1
  {
    InvStep(s, live, CancelTimer(id));
    BudgetRun(Step(s, CancelTimer(id)), live - {id}, es, id);
  }

  // ---------- A pass ends ----------

  function Pops(es: seq<Event>): nat
    decreases |es|
  {
    if es == [] then 0 else (if es[0].Pop? then 1 else 0) + Pops(es[1..])
  }

  /** How many of the insertions are due already. */
  function DueInsertions(es: seq<Event>, now: int): nat
    decreases |es|
  {
    if es == [] then 0 else (if InsertsDue(es[0], now) then 1 else 0) + DueInsertions(es[1..], now)
  }

  predicate InsertsDue(e: Event, now: int) {
    e.Insert? && Due(e.item, now)
  }

  /** Events of one pass over the heap: the worker does not take the time again. */
  predicate OnePass(es: seq<Event>) {
    forall i :: 0 <= i < |es| ==> !es[i].Wake?
  }

  predicate InPass(s: State, now: int) {
    s.worker.Waiting? || s.worker.now == now
  }

  lemma PassStep(s: State, live: Live, e: Event, now: int)
    requires Inv(s, live) && Enabled(s, e) && InPass(s, now) && !e.Wake?
    ensures InPass(Step(s, e), now)
    ensures |DueItems(Step(s, e).heap, now)| + (if e.Pop? then 1 else 0)
            <= |DueItems(s.heap, now)| + if InsertsDue(e, now) then 1 else 0
  {
    hide Inv, IsTop, DueItems, IdsBelow;
    if e.Pop? {
      PopInPass(s, live, e.item, e.now);
    } else if e.Insert? {
      PushDue(s.heap, e.item, now);
    }
  }

  lemma PopInPass(s: State, live: Live, x: Item, now: int)
    requires Inv(s, live) && Enabled(s, Pop(x, now))
    ensures |DueItems(Step(s, Pop(x, now)).heap, now)| < |DueItems(s.heap, now)|
  {
    hide DueItems, IdsBelow, ReservedApart, WorkerSound;
    PopShrinks(s.heap, s.active, x, now);
  }

  lemma PushDue(heap: multiset<Item>, x: Item, now: int)
    ensures |DueItems(heap + multiset{x}, now)| <= |DueItems(heap, now)| + if Due(x, now) then 1 else 0
  {
    var before, after := DueItems(heap, now), DueItems(heap + multiset{x}, now);
    if Due(x, now) {
      assert after == before + {x};
    } else {
      assert after == before;
    }
  }

  /** The worker pops no more often than timers were due when it took the time, plus those inserted that are due. */
  lemma {:induction false} PassEnds(s: State, live: Live, es: seq<Event>, now: int)
    requires Inv(s, live) && IsRun(s, es) && InPass(s, now) && OnePass(es)
    ensures Pops(es) <= |DueItems(s.heap, now)| + DueInsertions(es, now)
    decreases |es|
  {
    hide Inv, Enabled, Step, LiveStep, InPass;
    if es != [] {
      PassStep(s, live, es[0], now);
      InvStep(s, live, es[0]);
      assert forall i :: 0 <= i < |es[1..]| ==> es[1..][i] == es[i + 1];
      PassEnds(Step(s, es[0]), LiveStep(live, es[0]), es[1..], now);
    }
  }

  // ---------- When timers start ----------

  /** In the simple map a start moves a repeated timer by its interval and removes a one-shot. */
  lemma PopMovesOrRemoves(live: Live, x: Item, now: int)
    requires x.id in live && live[x.id] == x
    ensures MovedOrGone(live, LiveStep(live, Pop(x, now)), x, now)
  {
  }

  /** Whatever still waits under the id has its deadline at t or later. */
  ghost predicate QueuedFrom(s: State, id: TimerId, t: int) {
    && id < s.nextId
    && (forall x :: x in s.heap && x.id == id ==> x.time >= t)
    && (forall x :: x in s.reserved && x.id == id ==> x.time >= t)
  }

  ghost predicate NotBefore(s: State, id: TimerId, t: int) {
    QueuedFrom(s, id, t) && (AboutToCall(s, id) ==> s.worker.item.time >= t)
  }

  lemma NotBeforeStep(s: State, live: Live, e: Event, id: TimerId, t: int)
    requires Inv(s, live) && Enabled(s, e) && NotBefore(s, id, t)
    ensures NotBefore(Step(s, e), id, t)
    ensures IsStart(e, id) == 1 ==> e.at >= t
  {
    hide Inv, IsTop;
    StartsInTime(s, live, e);
    if e.Pop? {
      NotBeforePop(s, e.item, e.now, id, t);
    }
  }

  lemma NotBeforePop(s: State, x: Item, now: int, id: TimerId, t: int)
    requires Enabled(s, Pop(x, now)) && NotBefore(s, id, t)
    ensures NotBefore(Step(s, Pop(x, now)), id, t)
  {
    var heap := HeapAfter(s.heap, s.active, x, now);
    forall y | y in heap && y.id == id ensures y.time >= t {
      assert y in s.heap || (x.interval > 0 && y == Again(x, now) && Again(x, now).time == now + x.interval);
      assert x in s.heap && x.time <= now;
    }
  }

  lemma {:induction false} NotBeforeRun(s: State, live: Live, es: seq<Event>, id: TimerId, t: int)
    requires Inv(s, live) && IsRun(s, es) && NotBefore(s, id, t)
    ensures forall i :: 0 <= i < |es| && IsStart(es[i], id) == 1 ==> es[i].at >= t
    decreases |es|
  {
    hide Inv, Enabled, Step, LiveStep, NotBefore, IsStart;
    if es != [] {
      NotBeforeStep(s, live, es[0], id, t);
      InvStep(s, live, es[0]);
      NotBeforeRun(Step(s, es[0]), LiveStep(live, es[0]), es[1..], id, t);
      assert forall i :: 1 <= i < |es| ==> es[i] == es[1..][i - 1];
    }
  }

  /** A timer scheduled now starts no earlier than after its delay. */
  lemma NotBeforeDelay(s: State, live: Live, es: seq<Event>, delay: int, interval: int, callback: Callback)
    requires Inv(s, live) && IsRun(Step(s, Reserve(delay, interval, callback)), es)
    ensures forall i :: 0 <= i < |es| && IsStart(es[i], s.nextId) == 1 ==> es[i].at >= s.clock + delay
  {
    InvStep(s, live, Reserve(delay, interval, callback));
    assert !AboutToCall(s, s.nextId);
    NotBeforeRun(Step(s, Reserve(delay, interval, callback)), live, es, s.nextId, s.clock + delay);
  }

  /** The start that is about to happen, and then those the queue holds. */
  lemma {:induction false} LaterStarts(s: State, live: Live, es: seq<Event>, id: TimerId, t: int)
    requires Inv(s, live) && IsRun(s, es) && AboutToCall(s, id) && QueuedFrom(s, id, t)
    ensures forall i, j :: 0 <= i < j < |es| && IsStart(es[i], id) == 1 && IsStart(es[j], id) == 1 ==> es[j].at >= t
    decreases |es|
  {
    hide Inv, LiveStep, QueuedFrom;
    if es != [] {
      InvStep(s, live, es[0]);
      QueueStep(s, es[0], id, t);
      var rest := es[1..];
      if es[0].StartCall? {
        NotBeforeRun(Step(s, es[0]), LiveStep(live, es[0]), rest, id, t);
      } else {
        LaterStarts(Step(s, es[0]), LiveStep(live, es[0]), rest, id, t);
      }
      assert forall i :: 1 <= i < |es| ==> es[i] == rest[i - 1];
    }
  }

  lemma QueueStep(s: State, e: Event, id: TimerId, t: int)
    requires Enabled(s, e) && AboutToCall(s, id) && QueuedFrom(s, id, t)
    ensures QueuedFrom(Step(s, e), id, t)
    ensures !e.StartCall? ==> AboutToCall(Step(s, e), id)
    ensures e.StartCall? ==> !AboutToCall(Step(s, e), id)
  {
  }

  /**
   However callers and worker interleave: behind the pop of a repeated timer every start but the
   first one lies at least an interval behind the time at which that pass popped it.
   */
  lemma RepeatsAreSpaced(s: State, live: Live, x: Item, now: int, es: seq<Event>)
    requires Inv(s, live) && Enabled(s, Pop(x, now)) && x.id in s.active && x.interval > 0
    requires IsRun(Step(s, Pop(x, now)), es)
    ensures forall i, j :: 0 <= i < j < |es| && IsStart(es[i], x.id) == 1 && IsStart(es[j], x.id) == 1 ==>
              es[j].at >= now + x.interval
  {
    hide Inv, Enabled, Step, LiveStep, QueuedFrom, AboutToCall, IsStart;
    var popped := Step(s, Pop(x, now));
    InvStep(s, live, Pop(x, now));
    QueuedAfterPop(s, live, x, now);
    LaterStarts(popped, LiveStep(live, Pop(x, now)), es, x.id, now + x.interval);
  }

  lemma QueuedAfterPop(s: State, live: Live, x: Item, now: int)
    requires Inv(s, live) && Enabled(s, Pop(x, now)) && x.id in s.active && x.interval > 0
    ensures AboutToCall(Step(s, Pop(x, now)), x.id)
    ensures QueuedFrom(Step(s, Pop(x, now)), x.id, now + x.interval)
  {
    hide WorkerSound;
    var heap := Step(s, Pop(x, now)).heap;
    assert s.heap[x] == 1;
    forall y | y in heap && y.id == x.id ensures y.time >= now + x.interval {
      assert y in s.heap ==> y == x;
      assert Again(x, now).time == now + x.interval;
    }
  }

  // ---------- In the order of deadlines ----------

  ghost predicate HeapFrom(s: State, t: int) {
    forall x :: x in s.heap ==> x.time >= t
  }

  predicate InsertsFrom(es: seq<Event>, t: int) {
    forall i :: 0 <= i < |es| && es[i].Insert? ==> es[i].item.time >= t
  }

  lemma HeapFromStep(s: State, e: Event, t: int)
    requires Enabled(s, e) && HeapFrom(s, t) && (e.Insert? ==> e.item.time >= t)
    ensures HeapFrom(Step(s, e), t) && (e.Pop? ==> e.item.time >= t)
  {
    if e.Pop? {
      forall y | y in Step(s, e).heap ensures y.time >= t {
        assert y in s.heap || y == Again(e.item, e.now);
      }
    }
  }

  lemma {:induction false} PopsFrom(s: State, es: seq<Event>, t: int)
    requires IsRun(s, es) && HeapFrom(s, t) && InsertsFrom(es, t)
    ensures forall i :: 0 <= i < |es| && es[i].Pop? ==> es[i].item.time >= t
    decreases |es|
  {
    hide Enabled, Step, HeapFrom;
    if es != [] {
      HeapFromStep(s, es[0], t);
      assert forall i :: 0 <= i < |es[1..]| ==> es[1..][i] == es[i + 1];
      PopsFrom(Step(s, es[0]), es[1..], t);
      assert forall i :: 1 <= i < |es| ==> es[i] == es[1..][i - 1];
    }
  }

  /** What is popped later has no earlier deadline, unless a timer with an earlier one is inserted meanwhile. */
  lemma PopsInOrder(s: State, x: Item, now: int, es: seq<Event>)
    requires Enabled(s, Pop(x, now)) && IsRun(Step(s, Pop(x, now)), es) && InsertsFrom(es, x.time)
    ensures forall i :: 0 <= i < |es| && es[i].Pop? ==> es[i].item.time >= x.time
  {
    HeapFromStep(s, Pop(x, now), x.time);
    PopsFrom(Step(s, Pop(x, now)), es, x.time);
  }

  // ---------- No due timer is passed over ----------

  /** The timer is about to start, or it is live in the heap and due. */
  ghost predicate Owed(s: State, id: TimerId, now: int) {
    AboutToCall(s, id) || (id in s.active && exists x :: x in s.heap && x.id == id && x.time <= now)
  }

  predicate CancelsNot(es: seq<Event>, id: TimerId) {
    forall i :: 0 <= i < |es| ==> es[i] != CancelTimer(id)
  }

  lemma OwedStep(s: State, e: Event, id: TimerId, now: int)
    requires Enabled(s, e) && Owed(s, id, now) && InPass(s, now) && !s.worker.Waiting?
    requires e != CancelTimer(id) && IsStart(e, id) == 0 && !e.Wake?
    ensures Owed(Step(s, e), id, now) && !Step(s, e).worker.Waiting? && InPass(Step(s, e), now)
  {
    hide IsTop;
    if !AboutToCall(s, id) {
      var x :| x in s.heap && x.id == id && x.time <= now;
      assert Due(x, now);
      if e.Pop? && e.item.id != id {
        assert x in Step(s, e).heap;
      } else if e.Insert? {
        assert x in Step(s, e).heap;
      }
    }
  }

  lemma {:induction false} OwedStarts(s: State, es: seq<Event>, id: TimerId, now: int)
    requires IsRun(s, es) && Owed(s, id, now) && InPass(s, now) && !s.worker.Waiting?
    requires OnePass(es) && CancelsNot(es, id) && es != [] && es[|es| - 1] == Leave
    ensures exists i :: 0 <= i < |es| && IsStart(es[i], id) == 1
    decreases |es|
  {
    hide Owed, InPass, Step, Enabled, IsStart;
    if IsStart(es[0], id) == 0 {
      OwedStep(s, es[0], id, now);
      var rest := es[1..];
      assert forall i :: 0 <= i < |rest| ==> rest[i] == es[i + 1];
      LeaveWaits(s);
      OwedStarts(Step(s, es[0]), rest, id, now);
      var i :| 0 <= i < |rest| && IsStart(rest[i], id) == 1;
      assert IsStart(es[i + 1], id) == 1;
    } else {
      assert IsStart(es[0], id) == 1 by {
        StartsOnce(es[0], id);
      }
    }
  }

  lemma StartsOnce(e: Event, id: TimerId)
    ensures IsStart(e, id) == 0 || IsStart(e, id) == 1
  {
  }

  lemma LeaveWaits(s: State)
    ensures Step(s, Leave).worker.Waiting?
  {
  }

  /**
   From waking up to waiting again the worker starts every timer that was live and due when it
   took the time, unless somebody cancels it meanwhile, whatever else callers do.
   */
  lemma PassStartsWhatIsDue(s: State, live: Live, es: seq<Event>, id: TimerId)
    requires Inv(s, live) && Enabled(s, Wake) && IsRun(Step(s, Wake), es)
    requires OnePass(es) && CancelsNot(es, id) && es != [] && es[|es| - 1] == Leave
    requires id in live && live[id].time <= s.clock
    ensures exists i :: 0 <= i < |es| && IsStart(es[i], id) == 1
  {
    assert live[id] in s.heap && live[id].id == id;
    OwedStarts(Step(s, Wake), es, id, s.clock);
  }
}
