/**
 The timer service: a heap ordered by deadline from which a cancelled timer is not removed
 (its id only leaves the set of active ids), and the simple map of live timers it stands for.
 */
module TimerService {
  type TimerId = nat

  type Callback(==,!new)

  /** An interval of zero or less means one-shot. */
  datatype Item = Item(id: TimerId, time: int, interval: int, callback: Callback)

  type Live = map<TimerId, Item>

  // ---------- The simple map ----------

  predicate Due(x: Item, now: int) {
    x.time <= now
  }

  function Again(x: Item, now: int): (y: Item)
    ensures x.interval > 0 ==> !Due(y, now)
  {
    x.(time := now + x.interval)
  }

  /** Starting a timer moves it when it repeats and removes it otherwise. */
  function Start(live: Live, id: TimerId, now: int): Live
    requires id in live
  {
    if live[id].interval > 0 then live[id := Again(live[id], now)] else live - {id}
  }

  /** One timer has started: due again one interval later, or gone. */
  ghost predicate MovedOrGone(before: Live, after: Live, x: Item, now: int) {
    after == if x.interval <= 0 then before - {x.id}
             else before[x.id := Item(x.id, now + x.interval, x.interval, x.callback)]
  }

  lemma StartMoves(live: Live, x: Item, now: int)
    requires x.id in live && live[x.id] == x
    ensures MovedOrGone(live, Start(live, x.id, now), x, now)
  {
  }

  /** The live timers once the due ones among ids have started. */
  function Started(live: Live, ids: set<TimerId>, now: int): Live {
    map id | id in live && (id in ids ==> live[id].interval > 0) :: if id in ids then Again(live[id], now) else live[id]
  }

  ghost function DueIds(live: Live, now: int): set<TimerId> {
    set id | id in live && Due(live[id], now)
  }

  /**
   What a pass at this time leaves, timer by timer: a repeated one that was due is due again one
   interval later, a one-shot that was due is gone, and no other timer has changed.
   */
  ghost predicate AfterPass(before: Live, after: Live, now: int) {
    && after.Keys <= before.Keys
    && forall id :: id in before ==>
         var x := before[id];
         if x.time > now then id in after && after[id] == x
         else if x.interval > 0 then id in after && after[id] == Item(x.id, now + x.interval, x.interval, x.callback)
         else id !in after
  }

  lemma StartedIsAfterPass(live: Live, now: int)
    ensures AfterPass(live, Started(live, DueIds(live, now), now), now)
  {
  }

  // ---------- The representation ----------

  ghost predicate UniqueIds(heap: multiset<Item>) {
    && (forall x :: x in heap ==> heap[x] == 1)
    && (forall x, y :: x in heap && y in heap && x.id == y.id ==> x == y)
  }

  ghost predicate Represents(heap: multiset<Item>, active: set<TimerId>, live: Live) {
    && UniqueIds(heap)
    && active == live.Keys
    && forall id :: id in live ==> live[id].id == id && live[id] in heap
  }

  ghost predicate IdsBelow(heap: multiset<Item>, n: TimerId) {
    forall x :: x in heap ==> x.id < n
  }

  ghost predicate IsTop(heap: multiset<Item>, x: Item) {
    x in heap && forall y :: y in heap ==> x.time <= y.time
  }

  lemma {:induction false} HasTop(heap: multiset<Item>) returns (x: Item)
    requires |heap| > 0
    ensures IsTop(heap, x)
    decreases |heap|
  {
    x :| x in heap;
    var rest := heap - multiset{x};
    assert heap == rest + multiset{x};
    if |rest| > 0 {
      var y := HasTop(rest);
      if y.time <= x.time {
        x := y;
      }
    }
  }

  /** Putting a timer under a new id into the heap and the active set adds it to the map. */
  lemma PushRepresents(heap: multiset<Item>, active: set<TimerId>, live: Live, x: Item)
    requires Represents(heap, active, live) && forall y :: y in heap ==> y.id != x.id
    ensures Represents(heap + multiset{x}, active + {x.id}, live[x.id := x])
  {
  }

  lemma CancelRepresents(heap: multiset<Item>, active: set<TimerId>, live: Live, id: TimerId)
    requires Represents(heap, active, live)
    ensures Represents(heap, active - {id}, live - {id})
  {
  }

  /** What a worker that has popped x leaves behind before it releases the lock. */
  function HeapAfter(heap: multiset<Item>, active: set<TimerId>, x: Item, now: int): multiset<Item> {
    if x.id in active && x.interval > 0 then heap - multiset{x} + multiset{Again(x, now)} else heap - multiset{x}
  }

  function ActiveAfter(active: set<TimerId>, x: Item): set<TimerId> {
    if x.id in active && x.interval <= 0 then active - {x.id} else active
  }

  /** A popped timer is live with exactly that item, or it was cancelled and popping it changes nothing. */
  lemma PopRepresents(heap: multiset<Item>, active: set<TimerId>, live: Live, x: Item, now: int)
    requires Represents(heap, active, live) && x in heap
    ensures x.id in active <==> x.id in live
    ensures x.id in active ==> live[x.id] == x
    ensures Represents(HeapAfter(heap, active, x, now), ActiveAfter(active, x),
            if x.id in active then Start(live, x.id, now) else live)
  {
    if x.id in active {
      assert live[x.id] in heap && live[x.id].id == x.id;
    }
    assert heap[x] == 1;
  }

  lemma PopKeepsIds(heap: multiset<Item>, active: set<TimerId>, x: Item, now: int, n: TimerId)
    requires x in heap && IdsBelow(heap, n)
    ensures IdsBelow(HeapAfter(heap, active, x, now), n)
  {
  }

  ghost function DueItems(heap: multiset<Item>, now: int): set<Item> {
    set x | x in heap && Due(x, now)
  }

  lemma PopLeaves(heap: multiset<Item>, active: set<TimerId>, x: Item, now: int)
    ensures x.id in active && x.interval > 0 ==>
              HeapAfter(heap, active, x, now) == heap - multiset{x} + multiset{Again(x, now)} &&
              ActiveAfter(active, x) == active
    ensures x.id in active && x.interval <= 0 ==>
              HeapAfter(heap, active, x, now) == heap - multiset{x} && ActiveAfter(active, x) == active - {x.id}
    ensures x.id !in active ==>
              HeapAfter(heap, active, x, now) == heap - multiset{x} && ActiveAfter(active, x) == active
  {
  }

  ghost predicate NoNewDue(heap: multiset<Item>, heap': multiset<Item>, now: int) {
    forall x :: x in heap' && Due(x, now) ==> x in heap
  }

  /** Whatever has started so far was due no later than what is still due. */
  ghost predicate NotLater(fired: seq<Item>, heap: multiset<Item>, now: int) {
    forall i, x :: 0 <= i < |fired| && x in heap && Due(x, now) ==> fired[i].time <= x.time
  }

  lemma NotLaterKept(fired: seq<Item>, heap: multiset<Item>, heap': multiset<Item>, x: Item, now: int)
    requires NotLater(fired, heap, now) && NoNewDue(heap, heap', now) && IsTop(heap, x) && Due(x, now)
    ensures NotLater(fired, heap', now) && NotLater(fired + [x], heap', now)
    ensures forall i :: 0 <= i < |fired| ==> fired[i].time <= x.time
  {
  }

  /** The pass over the heap ends: a repeated timer goes beyond the instant the pass works with. */
  lemma PopShrinks(heap: multiset<Item>, active: set<TimerId>, x: Item, now: int)
    requires UniqueIds(heap) && x in heap && Due(x, now)
    ensures DueItems(HeapAfter(heap, active, x, now), now) == DueItems(heap, now) - {x}
    ensures NoNewDue(heap, HeapAfter(heap, active, x, now), now)
    ensures |DueItems(HeapAfter(heap, active, x, now), now)| < |DueItems(heap, now)|
  {
    assert heap[x] == 1;
    assert x in DueItems(heap, now);
  }

  // ---------- One pass over the due timers ----------

  /** The starts of a pass: which items, in which order. */
  ghost predicate InOrder(fired: seq<Item>) {
    forall i, j :: 0 <= i < j < |fired| ==> fired[i].time <= fired[j].time && fired[i].id != fired[j].id
  }

  ghost predicate FiredFrom(fired: seq<Item>, live: Live, ids: set<TimerId>) {
    && InOrder(fired)
    && (forall i :: 0 <= i < |fired| ==> fired[i].id in ids && fired[i].id in live && live[fired[i].id] == fired[i])
    && (forall id :: id in ids ==> exists i :: 0 <= i < |fired| && fired[i].id == id)
  }

  class TimerService {
    var timers: multiset<Item>
    var activeTimers: set<TimerId>
    var nextId: TimerId
    ghost var live: Live

    ghost predicate Valid() reads this {
      Represents(timers, activeTimers, live) && IdsBelow(timers, nextId)
    }

    constructor ()
      ensures Valid() && live == map[]
    {
      timers, activeTimers, nextId := multiset{}, {}, 1;
      live := map[];
    }

    method ScheduleTimer(now: int, delay: int, interval: int, callback: Callback) returns (id: TimerId)
      requires Valid()
      modifies this
      ensures Valid() && id == old(nextId) && id !in old(live)
      ensures live == old(live)[id := Item(id, now + delay, interval, callback)]
    {
      id := nextId;
      nextId := nextId + 1;
      var item := Item(id, now + delay, interval, callback);
      PushRepresents(timers, activeTimers, live, item);
      timers := timers + multiset{item};
      activeTimers := activeTimers + {id};
      live := live[id := item];
    }

    /** The item stays in the heap. */
    method Cancel(id: TimerId)
      requires Valid()
      modifies this
      ensures Valid() && live == old(live) - {id}
    {
      CancelRepresents(timers, activeTimers, live, id);
      activeTimers := activeTimers - {id};
      live := live - {id};
    }

    method Top() returns (x: Item)
      requires |timers| > 0
      ensures IsTop(timers, x)
    {
      ghost var top := HasTop(timers);
      x :| x in timers && forall y :: y in timers ==> x.time <= y.time;
    }

    /** Pops the item: starts and reschedules or retires its timer, unless it was cancelled. */
    method Pop(item: Item, now: int) returns (starts: bool)
      requires Valid() && item in timers && Due(item, now)
      modifies this
      ensures Valid()
      ensures starts <==> item.id in old(live)
      ensures starts ==> old(live)[item.id] == item
      ensures starts ==> live == Start(old(live), item.id, now) && MovedOrGone(old(live), live, item, now)
      ensures !starts ==> live == old(live)
      ensures |DueItems(timers, now)| < |old(DueItems(timers, now))|
      ensures NoNewDue(old(timers), timers, now)
    {
      hide UniqueIds, IdsBelow, DueItems, NoNewDue, Due, HeapAfter, ActiveAfter, Start, MovedOrGone;
      PopRepresents(timers, activeTimers, live, item, now);
      PopShrinks(timers, activeTimers, item, now);
      PopKeepsIds(timers, activeTimers, item, now, nextId);
      PopLeaves(timers, activeTimers, item, now);
      if item.id in live {
        StartMoves(live, item, now);
      }
      starts := item.id in activeTimers;
      var heap, active := timers - multiset{item}, activeTimers;
      if starts {
        if item.interval > 0 {
          heap := heap + multiset{Again(item, now)};
        } else {
          active := active - {item.id};
        }
      }
      timers, activeTimers, live := heap, active, if starts then Start(live, item.id, now) else live;
    }

    /**
     One pass: every live timer that is due starts exactly once, in the order of the
     deadlines, and no other timer starts; repeated ones are due again after their interval, one-shots
     are gone, the rest is as it was, and none is due any more.
     */
    method Drain(now: int) returns (fired: seq<Item>)
      requires Valid()
      modifies this
      ensures Valid()
      ensures FiredFrom(fired, old(live), DueIds(old(live), now))
      ensures AfterPass(old(live), live, now)
      ensures DueIds(live, now) == {}
    {
      fired := [];
      ghost var before := live;
      ghost var ids: set<TimerId> := {};
      assert live == Started(before, ids, now);
      assert FiredFrom(fired, before, ids) && NotLater(fired, timers, now);
      hide FiredFrom, Started, Start, MovedOrGone, DueItems, Represents, UniqueIds, NotLater, NoNewDue, AfterPass;
      while true
        invariant Valid()
        invariant ids <= DueIds(before, now)
        invariant live == Started(before, ids, now)
        invariant FiredFrom(fired, before, ids)
        invariant NotLater(fired, timers, now)
        decreases |DueItems(timers, now)|
      {
        if |timers| == 0 {
          break;
        }
        var item := Top();
        if item.time > now {
          break;
        }
        ghost var heap := timers;
        var starts := Pop(item, now);
        NotLaterKept(fired, heap, timers, item, now);
        if starts {
          StartedOnce(before, ids, item, now);
          StartedMore(before, ids, item.id, now);
          FiredMore(fired, before, ids, item);
          fired := fired + [item];
          ids := ids + {item.id};
        }
      }
      NoneLeft(timers, activeTimers, before, ids, now);
      StartedIsAfterPass(before, now);
    }
  }

  /** A due timer of the map has not started yet: one that has is gone or has moved. */
  lemma StartedOnce(before: Live, ids: set<TimerId>, item: Item, now: int)
    requires item.id in Started(before, ids, now) && Started(before, ids, now)[item.id] == item && Due(item, now)
    ensures item.id !in ids && before[item.id] == item
  {
  }

  lemma StartedMore(before: Live, ids: set<TimerId>, id: TimerId, now: int)
    requires id in before && id !in ids
    ensures id in Started(before, ids, now)
    ensures Start(Started(before, ids, now), id, now) == Started(before, ids + {id}, now)
  {
  }

  lemma FiredMore(fired: seq<Item>, before: Live, ids: set<TimerId>, item: Item)
    requires FiredFrom(fired, before, ids) && item.id !in ids && item.id in before && before[item.id] == item
    requires forall i :: 0 <= i < |fired| ==> fired[i].time <= item.time
    ensures FiredFrom(fired + [item], before, ids + {item.id})
  {
    var more := fired + [item];
    forall id | id in ids + {item.id} ensures exists i :: 0 <= i < |more| && more[i].id == id {
      if id == item.id {
        assert more[|fired|].id == id;
      } else {
        var i :| 0 <= i < |fired| && fired[i].id == id;
        assert more[i].id == id;
      }
    }
  }

  lemma NoneLeft(heap: multiset<Item>, active: set<TimerId>, before: Live, ids: set<TimerId>, now: int)
    requires ids <= DueIds(before, now)
    requires Represents(heap, active, Started(before, ids, now)) && forall x :: x in heap ==> !Due(x, now)
    ensures ids == DueIds(before, now) && DueIds(Started(before, ids, now), now) == {}
  {
    var live := Started(before, ids, now);
    assert forall id :: id in live ==> !Due(live[id], now);
    assert forall id :: id in before && id !in ids ==> id in live && live[id] == before[id];
  }
}
