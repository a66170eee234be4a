/**
 The timer part of a sweep at the grain of its lock regions, with requests that set and
 cancel timers in between: collect under the lock, then erase the stopped timers one lock
 region at a time, then look up, call and erase the due ones one lock region at a time.
 */
module SweepInterleaving {
  import P = Protocol

  type Token = P.Token
  type Timer = P.Timer

  /** A callback that was called: the entry found in the table, and the time the sweep works with. */
  datatype Call = Call(t: Token, timer: Timer, now: nat)

  datatype State = State(
    timers: map<Token, Timer>,
    stopped: set<Token>,          // collected as stopped, not yet erased
    due: map<Token, Timer>,       // collected as due, with the entry as it was then
    now: nat,                     // the time this sweep works with
    calls: seq<Call>)

  datatype Action =
    | Set(t: Token, startAt: nat, timeout: nat)
    | Cancel(t: Token)
    | Collect(now: nat)
    | EraseStopped(t: Token)
    | CallDue(t: Token)

  predicate IsDue(timer: Timer, now: nat) {
    !timer.quit && (now - timer.startAt) / P.TICKS_PER_SECOND > timer.timeout
  }

  predicate Enabled(s: State, a: Action) {
    match a
    case Collect(_) => s.stopped == {} && s.due == map[]
    case EraseStopped(t) => t in s.stopped
    case CallDue(t) => s.stopped == {} && t in s.due
    case _ => true
  }

  /** The due token is found when its callback is looked up; otherwise `find` would give end(). */
  predicate LookupSucceeds(s: State, a: Action) {
    a.CallDue? ==> a.t in s.timers
  }

  function Step(s: State, a: Action): State
    requires Enabled(s, a) && LookupSucceeds(s, a)
  {
    match a
    case Set(t, startAt, timeout) =>
      if t in s.timers then s else s.(timers := s.timers[t := P.Timer(startAt, timeout, false)])
    case Cancel(t) =>
      if t in s.timers then s.(timers := s.timers[t := s.timers[t].(quit := true)]) else s
    case Collect(now) =>
      s.(stopped := (set t | t in s.timers && s.timers[t].quit),
         due := (map t | t in s.timers && IsDue(s.timers[t], now) :: s.timers[t]),
         now := now)
    case EraseStopped(t) =>
      s.(timers := s.timers - {t}, stopped := s.stopped - {t})
    case CallDue(t) =>
      s.(timers := s.timers - {t}, due := s.due - {t}, calls := s.calls + [Call(t, s.timers[t], s.now)])
  }

  ghost predicate Inv(s: State) {
    && s.stopped !! s.due.Keys
    && (forall t :: t in s.stopped ==> t in s.timers && s.timers[t].quit)
    // a collected entry stays in the table; a request can only mark it cancelled
    && (forall t :: t in s.due ==> t in s.timers && s.timers[t].(quit := false) == s.due[t] && IsDue(s.due[t], s.now))
    // every callback belonged to a timer that was live and past its time when it was collected
    && (forall i :: 0 <= i < |s.calls| ==> IsDue(s.calls[i].timer.(quit := false), s.calls[i].now))
  }

  lemma InvStep(s: State, a: Action)
    requires Inv(s) && Enabled(s, a)
    ensures LookupSucceeds(s, a) && Inv(Step(s, a))
  {
    var s' := Step(s, a);
    if a.CallDue? {
      forall i | 0 <= i < |s'.calls| ensures IsDue(s'.calls[i].timer.(quit := false), s'.calls[i].now) {
        if i < |s.calls| {
          assert s'.calls[i] == s.calls[i];
        }
      }
    }
  }

  /** A run in which every action is enabled and, so far as the run goes, every lookup succeeds. */
  ghost predicate Follows(s: State, actions: seq<Action>)
    decreases |actions|
  {
    actions != [] ==>
      && Enabled(s, actions[0])
      && (LookupSucceeds(s, actions[0]) ==> Follows(Step(s, actions[0]), actions[1..]))
  }

  ghost predicate Sound(s: State, actions: seq<Action>)
    decreases |actions|
  {
    && s.stopped !! s.due.Keys
    && s.due.Keys <= s.timers.Keys
    && (actions != [] && Enabled(s, actions[0]) ==>
          LookupSucceeds(s, actions[0]) && Sound(Step(s, actions[0]), actions[1..]))
  }

  /** In every interleaving: the two lists stay disjoint and no lookup ever misses. */
  lemma {:induction false} SweepIsSound(s: State, actions: seq<Action>)
    requires Inv(s) && Follows(s, actions)
    ensures Sound(s, actions)
    decreases |actions|
  {
    if actions != [] {
      InvStep(s, actions[0]);
      SweepIsSound(Step(s, actions[0]), actions[1..]);
    }
  }

  /** From the empty table on. */
  lemma SweepIsSoundFromStart(now: nat, actions: seq<Action>)
    requires Follows(State(map[], {}, map[], now, []), actions)
    ensures Sound(State(map[], {}, map[], now, []), actions)
  {
    SweepIsSound(State(map[], {}, map[], now, []), actions);
  }

  function RunAll(s: State, actions: seq<Action>): State
    requires Follows(s, actions) && Sound(s, actions)
    decreases |actions|
  {
    if actions == [] then s else RunAll(Step(s, actions[0]), actions[1..])
  }

  /** Requests between the lock regions; not the sweep itself. */
  predicate IsRequest(a: Action) {
    a.Set? || a.Cancel?
  }

  /**
   Whether a collected token is called does not depend on what requests do afterwards: its
   callback is called with the entry that was collected, cancelled meanwhile or not.
   */
  lemma {:induction false} LateCancelDoesNotStopCall(s: State, requests: seq<Action>, t: Token)
    requires Inv(s) && s.stopped == {} && t in s.due
    requires Follows(s, requests) && Sound(s, requests)
    requires forall i :: 0 <= i < |requests| ==> IsRequest(requests[i])
    ensures var s1 := RunAll(s, requests);
            && Inv(s1) && s1.due == s.due && s1.stopped == {}
            && Enabled(s1, CallDue(t)) && LookupSucceeds(s1, CallDue(t))
            && var c := Step(s1, CallDue(t)).calls;
               |c| > 0 && c[|c| - 1].t == t && c[|c| - 1].timer.(quit := false) == s.due[t]
    decreases |requests|
  {
    if requests != [] {
      InvStep(s, requests[0]);
      forall i | 0 <= i < |requests[1..]| ensures IsRequest(requests[1..][i]) {
        assert requests[1..][i] == requests[i + 1];
      }
      LateCancelDoesNotStopCall(Step(s, requests[0]), requests[1..], t);
    }
  }

  /** A timer cancelled before the collection is never called by that sweep, and its slot is freed. */
  lemma EarlyCancelPreventsCall(s: State, t: Token, now: nat)
    requires Inv(s) && Enabled(s, Collect(now)) && t in s.timers
    ensures var s1 := Step(Step(s, Cancel(t)), Collect(now));
            t !in s1.due && t in s1.stopped && t !in Step(s1, EraseStopped(t)).timers
  {
  }

  /** What a collection picks: every cancelled timer to erase, and to call every live one whose deadline has passed. */
  lemma CollectsExactly(s: State, now: nat)
    requires Enabled(s, Collect(now))
    ensures var s1 := Step(s, Collect(now));
            && s1.timers == s.timers && s1.calls == s.calls
            && (forall t :: t in s1.stopped <==> t in s.timers && s.timers[t].quit)
            && (forall t :: t in s1.due <==>
                  t in s.timers && !s.timers[t].quit
                  && now >= s.timers[t].startAt + (s.timers[t].timeout + 1) * 1_000_000_000)
            && (forall t :: t in s1.due ==> s1.due[t] == s.timers[t])
  {
    forall t | t in s.timers
      ensures IsDue(s.timers[t], now) <==>
              !s.timers[t].quit && now >= s.timers[t].startAt + (s.timers[t].timeout + 1) * 1_000_000_000
    {
      DueAtDeadline(s.timers[t], now);
    }
  }

  lemma DueAtDeadline(timer: Timer, now: nat)
    ensures IsDue(timer, now) <==> !timer.quit && now >= timer.startAt + (timer.timeout + 1) * 1_000_000_000
  {
    var elapsed := now - timer.startAt;
    assert elapsed == (elapsed / P.TICKS_PER_SECOND) * P.TICKS_PER_SECOND + elapsed % P.TICKS_PER_SECOND;
  }

  /** Calling and erasing remove exactly their own entry; setting keeps an occupied slot. */
  lemma OneEntryAtATime(s: State, a: Action)
    requires Enabled(s, a) && LookupSucceeds(s, a) && !a.Collect?
    ensures var s1 := Step(s, a);
            && (forall t :: t != a.t ==> (t in s1.timers <==> t in s.timers))
            && (forall t :: t != a.t && t in s.timers ==> s1.timers[t] == s.timers[t])
            && (a.CallDue? || a.EraseStopped? ==> a.t !in s1.timers)
            && (a.Set? ==> a.t in s1.timers)
            && (a.Set? && a.t in s.timers ==> s1.timers[a.t] == s.timers[a.t])
            && (a.Set? && a.t !in s.timers ==> s1.timers[a.t] == P.Timer(a.startAt, a.timeout, false))
            && s1.calls == s.calls + if a.CallDue? then [Call(a.t, s.timers[a.t], s.now)] else []
  {
  }
}
