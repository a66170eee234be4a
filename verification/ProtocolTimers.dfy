/**
 The automatic rollback of an unconfirmed commit/timeout: not early, exactly once, and
 by the first sweep that sees the deadline passed.
 */
module ProtocolTimers {
  import opened Options
  import opened Protocol
  import opened ProtocolSafety
  import opened ProtocolTarget
  import opened ProtocolDaemon

  // ---------- Sweeps ----------

  datatype Pick = Overdue | Stopped | Due

  predicate Picked(s: State, pick: Pick, t: Token) {
    match pick
    case Overdue => SessionOverdue(s, t)
    case Stopped => TimerStopped(s, t)
    case Due => TimerDue(s, t)
  }

  predicate Matches(pick: Pick, e: Event) {
    match pick
    case Overdue => e.ExpireSession?
    case Stopped => e.DropTimer?
    case Due => e.FireTimer?
  }

  /** One event of the right kind for each picked token, and no other. */
  ghost predicate Covers(s: State, pick: Pick, events: seq<Event>) {
    && (forall i :: 0 <= i < |events| ==> Matches(pick, events[i]) && Picked(s, pick, events[i].t))
    && (forall i, j :: 0 <= i < j < |events| ==> events[i].t != events[j].t)
    && (forall t :: Picked(s, pick, t) ==> exists i :: 0 <= i < |events| && events[i].t == t)
  }

  /** One pass of the checking thread: overdue sessions, then stopped timers, then due timers. */
  datatype Sweep = Sweep(expiries: seq<Event>, drops: seq<Event>, firings: seq<Event>)

  function SweepEvents(w: Sweep): seq<Event> {
    w.expiries + w.drops + w.firings
  }

  ghost predicate IsSweep(s: State, w: Sweep) {
    Covers(s, Overdue, w.expiries) && Covers(s, Stopped, w.drops) && Covers(s, Due, w.firings)
  }

  // ---------- Arming ----------

  /**
   A commit/timeout that gets past the session checks arms a rollback exactly when the
   session's timer slot is empty: a cancelled timer that no sweep has removed yet keeps the slot.
   */
  lemma ArmedExactlyWhenSlotEmpty(env: Env, s: State, t: Token, seconds: nat, o: Outcomes)
    requires s.up && CommitTimeoutStep(env, s, t, seconds, o).1 !in {Refused, Thrown}
    ensures var s' := Step(env, s, CommitTimeout(t, seconds, o));
            && t in s'.timers
            && (!s'.timers[t].quit <==> t !in s.timers)
            && (t !in s.timers ==> s'.timers[t] == Timer(s.now, seconds, false))
            && t in s'.leased && s'.leased[t] == s.now
  {
    var gated := SetActive(s, t).0;
    var (handled, reply) := CommitTimeoutHandler(env, CancelTimer(gated, t), t, o);
    assert SameSessions(CancelTimer(gated, t), handled);
  }

  // ---------- The pending period ----------

  ghost predicate Armed(s: State, owner: Token, startAt: nat, seconds: nat) {
    && PendingFor(s, owner)
    && owner in s.timers && s.timers[owner] == Timer(startAt, seconds, false)
    && seconds <= SESSION_TIMEOUT
    && owner in s.leased && s.leased[owner] >= startAt
  }

  predicate Expired(s: State, startAt: nat, seconds: nat) {
    (s.now - startAt) / TICKS_PER_SECOND > seconds
  }

  /** In the clock's own units the deadline is seconds + 1 whole seconds after the start. */
  lemma ExpiredAtDeadline(s: State, startAt: nat, seconds: nat)
    ensures Expired(s, startAt, seconds) <==> s.now >= startAt + (seconds + 1) * TICKS_PER_SECOND
  {
    var elapsed := s.now - startAt;
    assert elapsed == (elapsed / TICKS_PER_SECOND) * TICKS_PER_SECOND + elapsed % TICKS_PER_SECOND;
  }

  lemma SweepPassesOver(s: State, w: Sweep, owner: Token)
    requires IsSweep(s, w) && !SessionOverdue(s, owner) && !TimerDue(s, owner)
    ensures ByOthers(SweepEvents(w), owner)
  {
    hide SessionOverdue, TimerDue, TimerStopped;
    NotCovered(s, Overdue, w.expiries, owner);
    NotCovered(s, Due, w.firings, owner);
    DropsHaveNoActor(s, w.drops, owner);
    ByOthersInParts(w.expiries, w.drops, owner);
    ByOthersInParts(w.expiries + w.drops, w.firings, owner);
  }

  lemma NotCovered(s: State, pick: Pick, events: seq<Event>, owner: Token)
    requires Covers(s, pick, events) && !Picked(s, pick, owner) && pick != Stopped
    ensures ByOthers(events, owner)
  {
    hide Picked;
    forall i | 0 <= i < |events| ensures Actor(events[i]) != Some(owner) {
      assert Matches(pick, events[i]) && Picked(s, pick, events[i].t);
    }
  }

  lemma DropsHaveNoActor(s: State, events: seq<Event>, owner: Token)
    requires Covers(s, Stopped, events)
    ensures ByOthers(events, owner)
  {
    hide Picked;
    forall i | 0 <= i < |events| ensures Actor(events[i]) != Some(owner) {
      assert Matches(Stopped, events[i]);
    }
  }

  lemma ByOthersInParts(a: seq<Event>, c: seq<Event>, owner: Token)
    requires ByOthers(a, owner) && ByOthers(c, owner)
    ensures ByOthers(a + c, owner)
  {
  }

  lemma EarlySweepPassesOver(s: State, w: Sweep, owner: Token, startAt: nat, seconds: nat)
    requires Armed(s, owner, startAt, seconds) && IsSweep(s, w) && !Expired(s, startAt, seconds)
    ensures ByOthers(SweepEvents(w), owner)
  {
    assert !SessionOverdue(s, owner) && !TimerDue(s, owner);
    SweepPassesOver(s, w, owner);
  }

  /** A run at the grain of whole sweeps. */
  datatype Round = Single(e: Event) | Swept(w: Sweep)

  function RoundEvents(r: Round): seq<Event> {
    match r
    case Single(e) => [e]
    case Swept(w) => SweepEvents(w)
  }

  function RunRounds(env: Env, s: State, rounds: seq<Round>): State
    decreases |rounds|
  {
    if rounds == [] then s else RunRounds(env, Run(env, s, RoundEvents(rounds[0])), rounds[1..])
  }

  /** No request of the owner, and no sweep at or after the deadline. */
  ghost predicate QuietRounds(env: Env, s: State, rounds: seq<Round>, owner: Token, startAt: nat, seconds: nat)
    decreases |rounds|
  {
    rounds != [] ==>
      && match rounds[0] {
           case Single(e) => Actor(e) != Some(owner)
           case Swept(w) => IsSweep(s, w) && !Expired(s, startAt, seconds)
         }
      && QuietRounds(env, Run(env, s, RoundEvents(rounds[0])), rounds[1..], owner, startAt, seconds)
  }

  /** Nothing fires early: through any such rounds the commit stays pending and its timer armed. */
  lemma {:induction false} StaysArmed(env: Env, s: State, rounds: seq<Round>, owner: Token, startAt: nat, seconds: nat)
    requires Armed(s, owner, startAt, seconds) && QuietRounds(env, s, rounds, owner, startAt, seconds)
    ensures Armed(RunRounds(env, s, rounds), owner, startAt, seconds)
    ensures SameConfiguration(s, RunRounds(env, s, rounds))
    ensures forall i :: 0 <= i < |rounds| ==> ByOthers(RoundEvents(rounds[i]), owner)
    decreases |rounds|
  {
    if rounds != [] {
      var events := RoundEvents(rounds[0]);
      if rounds[0].Swept? {
        EarlySweepPassesOver(s, rounds[0].w, owner, startAt, seconds);
      }
      assert ByOthers(events, owner);
      IsolationOverRuns(env, s, events, owner);
      StaysArmed(env, Run(env, s, events), rounds[1..], owner, startAt, seconds);
      forall i | 0 <= i < |rounds| ensures ByOthers(RoundEvents(rounds[i]), owner) {
        if i > 0 { assert rounds[i] == rounds[1..][i - 1]; }
      }
    }
  }

  // ---------- The rollback ----------

  ghost predicate Cleared(s: State) {
    s.candidate == None && s.waiting == None && s.active == None
  }

  ghost predicate PendingOrCleared(env: Env, s: State, owner: Token) {
    s.up && env.convert(s.running).Some? && ActiveIsLeased(s) && (PendingFor(s, owner) || Cleared(s))
  }

  ghost predicate SweepEvent(e: Event) {
    e.ExpireSession? || e.DropTimer? || e.FireTimer?
  }

  lemma SweepEventKeeps(env: Env, s: State, e: Event, owner: Token)
    requires PendingOrCleared(env, s, owner) && SweepEvent(e)
    requires e.DropTimer? ==> e.t != owner
    ensures var s' := Step(env, s, e);
            && PendingOrCleared(env, s', owner) && SameRunning(s, s')
            && (Cleared(s) ==> Cleared(s'))
            && s'.timers.Keys <= s.timers.Keys
            && (owner in s.timers && !(e.FireTimer? && e.t == owner) ==> owner in s'.timers)
            && (owner in s.timers && e.FireTimer? && e.t == owner ==> Cleared(s') && owner !in s'.timers)
  {
    if e.ExpireSession? {
      var removed := RemoveSession(s, e.t);
      var (discarded, reply) := DiscardHandler(env, removed, e.t, e.o);
      assert reply != Thrown;
      assert SameSessions(removed, discarded);
    } else if e.FireTimer? && e.t in s.timers {
      var (discarded, reply) := DiscardHandler(env, s, e.t, e.o);
      assert reply != Thrown;
      assert SameSessions(s, discarded);
    }
  }

  lemma {:induction false} SweepEventsRollBack(env: Env, s: State, events: seq<Event>, owner: Token)
    requires PendingOrCleared(env, s, owner)
    requires forall i :: 0 <= i < |events| ==> SweepEvent(events[i]) && (events[i].DropTimer? ==> events[i].t != owner)
    ensures var s' := Run(env, s, events);
            && PendingOrCleared(env, s', owner) && SameRunning(s, s')
            && (Cleared(s) ==> Cleared(s'))
            && s'.timers.Keys <= s.timers.Keys
    ensures owner in s.timers && (exists i :: 0 <= i < |events| && events[i].FireTimer? && events[i].t == owner) ==>
              Cleared(Run(env, s, events)) && owner !in Run(env, s, events).timers
    decreases |events|
  {
    if events != [] {
      var e, rest := events[0], events[1..];
      var s1 := Step(env, s, e);
      SweepEventKeeps(env, s, e, owner);
      forall i | 0 <= i < |rest| ensures SweepEvent(rest[i]) && (rest[i].DropTimer? ==> rest[i].t != owner) {
        assert rest[i] == events[i + 1];
      }
      SweepEventsRollBack(env, s1, rest, owner);
      if !(e.FireTimer? && e.t == owner) {
        forall i | 0 <= i < |events| && events[i].FireTimer? && events[i].t == owner
          ensures exists j :: 0 <= j < |rest| && rest[j].FireTimer? && rest[j].t == owner
        {
          assert rest[i - 1] == events[i];
        }
      }
    }
  }

  ghost predicate FiresOnce(events: seq<Event>, owner: Token) {
    exists i :: 0 <= i < |events| && events[i].FireTimer? && events[i].t == owner &&
      forall j :: 0 <= j < |events| && events[j].FireTimer? && events[j].t == owner ==> j == i
  }

  /** The first event of the owner in a sweep. */
  ghost predicate FirstOf(events: seq<Event>, owner: Token, k: nat) {
    k < |events| && (events[k].ExpireSession? || events[k].FireTimer?) && events[k].t == owner
    && forall j :: 0 <= j < k ==> Actor(events[j]) != Some(owner)
  }

  /** The answers to the owner's first event decide what the sweep leaves in target file and daemon. */
  ghost predicate RolledBackBySweep(env: Env, s: State, w: Sweep, owner: Token) {
    exists k: nat :: FirstOf(SweepEvents(w), owner, k)
                && (SweepEvents(w)[k].ExpireSession? <==> SessionOverdue(s, owner))
                && RolledBack(env, s, Run(env, s, SweepEvents(w)), SweepEvents(w)[k].o)
  }

  /** Storage and daemon do what the sweep asks of them for this token. */
  predicate AnswersWell(w: Sweep, owner: Token) {
    forall i :: 0 <= i < |SweepEvents(w)| && Actor(SweepEvents(w)[i]) == Some(owner) ==>
      var e := SweepEvents(w)[i];
      e.ExpireSession? || e.FireTimer? ==> e.o.restored && e.o.daemonOk
  }

  lemma WellAnsweredRollback(env: Env, s: State, w: Sweep, owner: Token)
    requires RolledBackBySweep(env, s, w, owner) && AnswersWell(w, owner)
    ensures var s' := Run(env, s, SweepEvents(w));
            TargetIs(env, s', s'.running) && DaemonRuns(env, s', s'.running) && s'.running == s.running
  {
  }

  /** Once the candidate is gone the rest of a sweep touches neither target file nor daemon. */
  lemma {:induction false} SweepWithoutCandidate(env: Env, s: State, events: seq<Event>)
    requires s.up && s.candidate == None && forall i :: 0 <= i < |events| ==> SweepEvent(events[i])
    ensures var s' := Run(env, s, events);
            && s'.up && SameRunning(s, s') && s'.candidate == None && s'.waiting == s.waiting
            && s'.target == s.target && s'.daemon == s.daemon
    decreases |events|
  {
    hide Step, SweepEvent;
    if events != [] {
      assert SweepEvent(events[0]);
      SweepEventWithoutCandidate(env, s, events[0]);
      assert forall i :: 0 <= i < |events[1..]| ==> events[1..][i] == events[i + 1];
      SweepWithoutCandidate(env, Step(env, s, events[0]), events[1..]);
    }
  }

  lemma SweepEventWithoutCandidate(env: Env, s: State, e: Event)
    requires s.up && s.candidate == None && SweepEvent(e)
    ensures var s' := Step(env, s, e);
            && s'.up && SameRunning(s, s') && s'.candidate == None && s'.waiting == s.waiting
            && s'.target == s.target && s'.daemon == s.daemon
  {
    if !e.DropTimer? {
      NothingToDrop(env, s, e);
      hide Step;
    }
  }

  /** The events of others leave a pending commit alone, the owner's first one rolls it back, the rest finds nothing. */
  lemma {:induction false} FirstEventRollsBack(env: Env, s: State, events: seq<Event>, owner: Token, k: nat)
    requires PendingFor(s, owner) && env.convert(s.running).Some? && FirstOf(events, owner, k)
    requires forall i :: 0 <= i < |events| ==> SweepEvent(events[i])
    requires events[k].FireTimer? ==> owner in s.timers && !s.timers[owner].quit
    ensures RolledBack(env, s, Run(env, s, events), events[k].o)
    decreases k
  {
    hide Step, SweepEvent;
    var s1, rest := Step(env, s, events[0]), events[1..];
    assert forall i :: 0 <= i < |rest| ==> rest[i] == events[i + 1];
    if k == 0 {
      DroppedIsRolledBack(env, s, events[0]);
      SweepWithoutCandidate(env, s1, rest);
    } else {
      assert Actor(events[0]) != Some(owner);
      IsolationStep(env, s, events[0], owner);
      FirstEventRollsBack(env, s1, rest, owner, k - 1);
    }
  }

  /** Some event of the owner, and so a first one. */
  lemma FirstEvent(events: seq<Event>, owner: Token, i: nat) returns (k: nat)
    requires i < |events| && Actor(events[i]) == Some(owner)
    requires forall j :: 0 <= j < |events| ==> SweepEvent(events[j])
    ensures k <= i && FirstOf(events, owner, k)
  {
    k := 0;
    while Actor(events[k]) != Some(owner)
      invariant k <= i
      invariant forall j :: 0 <= j < k ==> Actor(events[j]) != Some(owner)
      decreases i - k
    {
      k := k + 1;
    }
    assert SweepEvent(events[k]);
  }

  /** A sweep that has events of the owner rolls back; an overdue session comes before a due timer. */
  lemma SweepRollsBack(env: Env, s: State, w: Sweep, owner: Token)
    requires PendingFor(s, owner) && env.convert(s.running).Some? && IsSweep(s, w)
    requires Picked(s, Overdue, owner) || Picked(s, Due, owner)
    ensures RolledBackBySweep(env, s, w, owner)
  {
    hide Run, Step, SessionOverdue, PendingFor;
    var events, offset := SweepEvents(w), |w.expiries| + |w.drops|;
    SweepEventsOnly(s, w);
    var i: nat;
    if Picked(s, Overdue, owner) {
      i :| i < |w.expiries| && w.expiries[i].t == owner;
      assert events[i] == w.expiries[i] && Matches(Overdue, w.expiries[i]);
    } else {
      var f: nat :| f < |w.firings| && w.firings[f].t == owner;
      i := offset + f;
      assert events[i] == w.firings[f] && Matches(Due, w.firings[f]);
    }
    var k := FirstEvent(events, owner, i);
    FirstIsExpiryExactly(s, w, owner, k);
    FirstEventRollsBack(env, s, events, owner, k);
  }

  /** Expiries come first, then drops, then firings, each for a token that was picked. */
  lemma KindByPlace(s: State, w: Sweep, i: nat)
    requires IsSweep(s, w) && i < |SweepEvents(w)|
    ensures var e := SweepEvents(w)[i];
            && SweepEvent(e)
            && (e.ExpireSession? <==> i < |w.expiries|)
            && (e.ExpireSession? ==> Picked(s, Overdue, e.t))
            && (e.DropTimer? ==> Picked(s, Stopped, e.t))
            && (e.FireTimer? ==> Picked(s, Due, e.t))
  {
    hide Picked;
    var events, offset := SweepEvents(w), |w.expiries| + |w.drops|;
    if i < |w.expiries| {
      assert events[i] == w.expiries[i] && Matches(Overdue, w.expiries[i]);
    } else if i < offset {
      assert events[i] == w.drops[i - |w.expiries|] && Matches(Stopped, w.drops[i - |w.expiries|]);
    } else {
      assert events[i] == w.firings[i - offset] && Matches(Due, w.firings[i - offset]);
    }
  }

  lemma SweepEventsOnly(s: State, w: Sweep)
    requires IsSweep(s, w)
    ensures forall i :: 0 <= i < |SweepEvents(w)| ==> SweepEvent(SweepEvents(w)[i])
  {
    hide SweepEvents, SweepEvent, IsSweep;
    forall i | 0 <= i < |SweepEvents(w)| ensures SweepEvent(SweepEvents(w)[i]) {
      KindByPlace(s, w, i);
    }
  }

  lemma FirstIsExpiryExactly(s: State, w: Sweep, owner: Token, k: nat)
    requires IsSweep(s, w) && FirstOf(SweepEvents(w), owner, k)
    ensures SweepEvents(w)[k].ExpireSession? <==> SessionOverdue(s, owner)
    ensures SweepEvents(w)[k].FireTimer? ==> owner in s.timers && !s.timers[owner].quit
  {
    hide SessionOverdue;
    KindByPlace(s, w, k);
    if SessionOverdue(s, owner) {
      assert Picked(s, Overdue, owner);
      var i: nat :| i < |w.expiries| && w.expiries[i].t == owner;
      KindByPlace(s, w, i);
      assert SweepEvents(w)[i] == w.expiries[i];
    }
  }

  lemma LateSweepRollsBack(env: Env, s: State, w: Sweep, owner: Token, startAt: nat, seconds: nat)
    requires Armed(s, owner, startAt, seconds) && IsSweep(s, w) && Expired(s, startAt, seconds)
    requires env.convert(s.running).Some?
    ensures FiresOnce(SweepEvents(w), owner) && RolledBackBySweep(env, s, w, owner)
    ensures var s' := Run(env, s, SweepEvents(w));
            Cleared(s') && s'.up && SameRunning(s, s') && owner !in s'.timers
  {
    assert Picked(s, Due, owner) && !Picked(s, Stopped, owner);
    SweepRollsBack(env, s, w, owner);
    hide Run, PendingFor, Expired, Picked, SameRunning, RolledBackBySweep;
    var k := FiringOf(s, w, owner);
    PendingNow(env, s, owner);
    SweepEventsRollBack(env, s, SweepEvents(w), owner);
  }

  lemma PendingNow(env: Env, s: State, owner: Token)
    requires PendingFor(s, owner) && owner in s.leased && env.convert(s.running).Some?
    ensures PendingOrCleared(env, s, owner)
  {
  }

  /** The one firing of a due owner in a sweep; its timer is not dropped. */
  lemma FiringOf(s: State, w: Sweep, owner: Token) returns (k: nat)
    requires IsSweep(s, w) && Picked(s, Due, owner) && !Picked(s, Stopped, owner)
    ensures var events := SweepEvents(w);
            && FiresOnce(events, owner)
            && k < |events| && events[k].FireTimer? && events[k].t == owner
            && forall i :: 0 <= i < |events| ==>
                 SweepEvent(events[i]) && (events[i].DropTimer? ==> events[i].t != owner)
  {
    hide Picked;
    var events := SweepEvents(w);
    var offset := |w.expiries| + |w.drops|;
    var f :| 0 <= f < |w.firings| && w.firings[f].t == owner;
    k := offset + f;
    forall i | 0 <= i < |events|
      ensures SweepEvent(events[i]) && (events[i].DropTimer? ==> events[i].t != owner)
      ensures events[i].FireTimer? && events[i].t == owner ==> i == k
    {
      if i < |w.expiries| {
        assert events[i] == w.expiries[i] && Matches(Overdue, w.expiries[i]);
      } else if i < offset {
        var j := i - |w.expiries|;
        assert events[i] == w.drops[j] && Matches(Stopped, w.drops[j]) && Picked(s, Stopped, w.drops[j].t);
      } else {
        assert events[i] == w.firings[i - offset] && Matches(Due, w.firings[i - offset]);
      }
    }
    assert events[k] == w.firings[f];
  }

  /**
   From an OK commit/timeout into an empty slot, through any rounds without a request of the
   owner: no sweep before the deadline fires, and the first one at or after it fires exactly once
   and leaves no candidate, no waiting owner and no active session, with running untouched.  When
   storage and daemon do what they are asked, target file and daemon are back on running.
   */
  lemma BoundedRollback(env: Env, s: State, owner: Token, seconds: nat, o: Outcomes, rounds: seq<Round>, w: Sweep)
    requires s.up && env.convert(s.running).Some?
    requires CommitTimeoutStep(env, s, owner, seconds, o).1 == Ok && owner !in s.timers
    requires var armed := Step(env, s, CommitTimeout(owner, seconds, o));
             && QuietRounds(env, armed, rounds, owner, s.now, seconds)
             && IsSweep(RunRounds(env, armed, rounds), w)
             && RunRounds(env, armed, rounds).now >= s.now + (seconds + 1) * TICKS_PER_SECOND
    ensures forall i :: 0 <= i < |rounds| ==> ByOthers(RoundEvents(rounds[i]), owner)
    ensures FiresOnce(SweepEvents(w), owner)
    ensures var armed := Step(env, s, CommitTimeout(owner, seconds, o));
            var end := Run(env, RunRounds(env, armed, rounds), SweepEvents(w));
            Cleared(end) && end.up && SameRunning(s, end) && owner !in end.timers
    ensures var armed := Step(env, s, CommitTimeout(owner, seconds, o));
            var late := RunRounds(env, armed, rounds);
            var end := Run(env, late, SweepEvents(w));
            && RolledBackBySweep(env, late, w, owner)
            && (AnswersWell(w, owner) ==> TargetIs(env, end, s.running) && DaemonRuns(env, end, s.running))
  {
    CommitTimeoutMakesPending(env, s, owner, seconds, o);
    ArmedExactlyWhenSlotEmpty(env, s, owner, seconds, o);
    var armed := Step(env, s, CommitTimeout(owner, seconds, o));
    StaysArmed(env, armed, rounds, owner, s.now, seconds);
    var late := RunRounds(env, armed, rounds);
    ExpiredAtDeadline(late, s.now, seconds);
    LateSweepRollsBack(env, late, w, owner, s.now, seconds);
    hide Run, RunRounds, Step, RolledBackBySweep, AnswersWell, QuietRounds, IsSweep, Armed, Expired, FiresOnce;
    if AnswersWell(w, owner) {
      WellAnsweredRollback(env, late, w, owner);
    }
  }

  // ---------- An occupied slot ----------

  /** The requests that cancel the timer of their session before anything else. */
  predicate Cancelling(e: Event) {
    e.Commit? || e.Confirm? || e.Cancel? || e.Discard?
  }

  /** Past the gate the session's timer is marked, whatever the handler answers; no other timer is touched. */
  lemma CancellingStopsTimer(env: Env, s: State, e: Event)
    requires s.up && Cancelling(e) && CheckActive(s, e.t)
    ensures var s' := Step(env, s, e);
            && s'.timers.Keys == s.timers.Keys
            && (forall t :: t in s.timers ==>
                  s'.timers[t] == Timer(s.timers[t].startAt, s.timers[t].timeout, s.timers[t].quit || t == e.t))
  {
    hide CommitHandler, ConfirmHandler, CancelHandler, DiscardHandler;
    assert SameSessions(CancelTimer(s, e.t), Step(env, s, e));
  }

  /** No live timer belongs to the token. */
  predicate Disarmed(s: State, t: Token) {
    t in s.timers ==> s.timers[t].quit
  }

  /** Only a commit/timeout of the token itself can arm it again. */
  lemma StaysDisarmedStep(env: Env, s: State, e: Event, t: Token)
    requires Disarmed(s, t) && !(e.CommitTimeout? && e.t == t)
    ensures Disarmed(Step(env, s, e), t)
  {
    hide Step;
    if s.up && Cancelling(e) && CheckActive(s, e.t) {
      CancellingStopsTimer(env, s, e);
    } else {
      OthersStayDisarmed(env, s, e, t);
    }
  }

  lemma OthersStayDisarmed(env: Env, s: State, e: Event, t: Token)
    requires Disarmed(s, t) && !(e.CommitTimeout? && e.t == t)
    requires !s.up || !Cancelling(e) || !CheckActive(s, e.t)
    ensures Disarmed(Step(env, s, e), t)
  {
    hide CommitHandler, ConfirmHandler, CancelHandler, DiscardHandler, UpdateHandler, CommitTimeoutHandler;
    if s.up {
      match e
      case Update(u, patch, o) =>
        assert SameSessions(SetActive(s, u).0, UpdateHandler(env, SetActive(s, u).0, patch, o).0);
      case CommitTimeout(u, seconds, o) =>
        var cancelled := CancelTimer(SetActive(s, u).0, u);
        assert SameSessions(cancelled, CommitTimeoutHandler(env, cancelled, u, o).0);
      case ExpireSession(u, o) =>
        assert SameSessions(RemoveSession(s, u), DiscardHandler(env, RemoveSession(s, u), u, o).0);
      case FireTimer(u, o) => assert SameSessions(s, DiscardHandler(env, s, u, o).0);
      case _ =>
    }
  }

  /** Pending without a live timer; the owner's last request was at startAt. */
  ghost predicate Unarmed(s: State, owner: Token, startAt: nat) {
    && PendingFor(s, owner) && Disarmed(s, owner)
    && owner in s.leased && s.leased[owner] == startAt
  }

  lemma UnarmedStep(env: Env, s: State, e: Event, owner: Token, startAt: nat)
    requires Unarmed(s, owner, startAt) && Actor(e) != Some(owner)
    ensures Unarmed(Step(env, s, e), owner, startAt) && SameConfiguration(s, Step(env, s, e))
  {
    IsolationStep(env, s, e, owner);
    StaysDisarmedStep(env, s, e, owner);
    hide Step;
  }

  lemma {:induction false} UnarmedRun(env: Env, s: State, events: seq<Event>, owner: Token, startAt: nat)
    requires Unarmed(s, owner, startAt) && ByOthers(events, owner)
    ensures Unarmed(Run(env, s, events), owner, startAt) && SameConfiguration(s, Run(env, s, events))
    decreases |events|
  {
    hide Step, Unarmed;
    if events != [] {
      assert Actor(events[0]) != Some(owner);
      UnarmedStep(env, s, events[0], owner, startAt);
      assert forall i :: 0 <= i < |events[1..]| ==> events[1..][i] == events[i + 1];
      UnarmedRun(env, Step(env, s, events[0]), events[1..], owner, startAt);
    }
  }

  lemma UnarmedSweepPassesOver(s: State, w: Sweep, owner: Token, startAt: nat)
    requires Unarmed(s, owner, startAt) && IsSweep(s, w) && !Expired(s, startAt, SESSION_TIMEOUT)
    ensures ByOthers(SweepEvents(w), owner)
  {
    assert !SessionOverdue(s, owner) && !TimerDue(s, owner);
    SweepPassesOver(s, w, owner);
  }

  lemma {:induction false} StaysUnarmed(env: Env, s: State, rounds: seq<Round>, owner: Token,
      startAt: nat, seconds: nat)
    requires Unarmed(s, owner, startAt) && seconds <= SESSION_TIMEOUT
    requires QuietRounds(env, s, rounds, owner, startAt, seconds)
    ensures Unarmed(RunRounds(env, s, rounds), owner, startAt)
    ensures SameConfiguration(s, RunRounds(env, s, rounds))
    decreases |rounds|
  {
    hide Run, Unarmed, IsSweep;
    if rounds != [] {
      var events := RoundEvents(rounds[0]);
      if rounds[0].Swept? {
        UnarmedSweepPassesOver(s, rounds[0].w, owner, startAt);
      }
      UnarmedRun(env, s, events, owner, startAt);
      StaysUnarmed(env, Run(env, s, events), rounds[1..], owner, startAt, seconds);
    }
  }

  /**
   The other half.  After an OK commit/timeout and any rounds without a request of the owner,
   the first sweep at or after the deadline rolls back if and only if the owner's timer slot was
   empty when the request came; otherwise the commit stays pending as long as the session lasts.
   */
  lemma RolledBackExactlyWhenSlotEmpty(
    env: Env, s: State, owner: Token, seconds: nat, o: Outcomes, rounds: seq<Round>, w: Sweep)
    requires s.up && env.convert(s.running).Some?
    requires CommitTimeoutStep(env, s, owner, seconds, o).1 == Ok
    requires var armed := Step(env, s, CommitTimeout(owner, seconds, o));
             var late := RunRounds(env, armed, rounds);
             && QuietRounds(env, armed, rounds, owner, s.now, seconds)
             && IsSweep(late, w)
             && late.now >= s.now + (seconds + 1) * TICKS_PER_SECOND
             && !Expired(late, s.now, SESSION_TIMEOUT)
    ensures var armed := Step(env, s, CommitTimeout(owner, seconds, o));
            var end := Run(env, RunRounds(env, armed, rounds), SweepEvents(w));
            && (Cleared(end) <==> owner !in s.timers)
            && (owner in s.timers ==> PendingFor(end, owner) && SameConfiguration(armed, end))
  {
    hide Step, Run, RunRounds, QuietRounds, IsSweep, CommitTimeoutStep, Expired;
    if owner !in s.timers {
      BoundedRollback(env, s, owner, seconds, o, rounds, w);
    } else {
      var armed := Step(env, s, CommitTimeout(owner, seconds, o));
      UnarmedAfterCommit(env, s, owner, seconds, o);
      StaysUnarmed(env, armed, rounds, owner, s.now, seconds);
      var late := RunRounds(env, armed, rounds);
      UnarmedSweepPassesOver(late, w, owner, s.now);
      UnarmedRun(env, late, SweepEvents(w), owner, s.now);
    }
  }

  lemma UnarmedAfterCommit(env: Env, s: State, owner: Token, seconds: nat, o: Outcomes)
    requires s.up && CommitTimeoutStep(env, s, owner, seconds, o).1 == Ok && owner in s.timers
    ensures Unarmed(Step(env, s, CommitTimeout(owner, seconds, o)), owner, s.now) && seconds <= SESSION_TIMEOUT
  {
    CommitTimeoutMakesPending(env, s, owner, seconds, o);
    ArmedExactlyWhenSlotEmpty(env, s, owner, seconds, o);
    hide Step;
  }

  /** Then the end of the session is what rolls back. */
  lemma SessionEndRollsBack(env: Env, s: State, w: Sweep, owner: Token, startAt: nat)
    requires Unarmed(s, owner, startAt) && IsSweep(s, w) && Expired(s, startAt, SESSION_TIMEOUT)
    requires env.convert(s.running).Some?
    ensures var s' := Run(env, s, SweepEvents(w)); Cleared(s') && s'.up && SameRunning(s, s')
    ensures var s' := Run(env, s, SweepEvents(w));
            && RolledBackBySweep(env, s, w, owner)
            && (AnswersWell(w, owner) ==> TargetIs(env, s', s.running) && DaemonRuns(env, s', s.running))
  {
    assert Picked(s, Overdue, owner);
    SweepRollsBack(env, s, w, owner);
    hide Run, Picked, Expired, SameRunning, RolledBackBySweep, AnswersWell;
    PendingNow(env, s, owner);
    SweepEventsOnly(s, w);
    ExpiryInSweep(s, w, owner);
    ExpiryClears(env, s, SweepEvents(w), owner);
    if AnswersWell(w, owner) {
      WellAnsweredRollback(env, s, w, owner);
    }
  }

  lemma ExpiryInSweep(s: State, w: Sweep, owner: Token)
    requires IsSweep(s, w) && Picked(s, Overdue, owner)
    ensures exists i :: 0 <= i < |SweepEvents(w)| && Expires(SweepEvents(w)[i], owner)
  {
    hide Picked;
    var events := SweepEvents(w);
    var k :| 0 <= k < |w.expiries| && w.expiries[k].t == owner;
    assert events[k] == w.expiries[k] && Matches(Overdue, w.expiries[k]);
  }

  predicate Expires(e: Event, owner: Token) {
    e.ExpireSession? && e.t == owner
  }

  lemma ExpiryStep(env: Env, s: State, e: Event, owner: Token)
    requires PendingOrCleared(env, s, owner) && SweepEvent(e)
    ensures PendingOrCleared(env, Step(env, s, e), owner) && SameRunning(s, Step(env, s, e))
    ensures Cleared(s) || Expires(e, owner) ==> Cleared(Step(env, s, e))
  {
    if !e.DropTimer? {
      SweepEventKeeps(env, s, e, owner);
    }
    if Expires(e, owner) {
      var removed := RemoveSession(s, owner);
      assert DiscardHandler(env, removed, owner, e.o).1 != Thrown;
    }
  }

  lemma {:induction false} ExpiryClears(env: Env, s: State, events: seq<Event>, owner: Token)
    requires PendingOrCleared(env, s, owner)
    requires forall i :: 0 <= i < |events| ==> SweepEvent(events[i])
    ensures PendingOrCleared(env, Run(env, s, events), owner) && SameRunning(s, Run(env, s, events))
    ensures Cleared(s) || (exists i :: 0 <= i < |events| && Expires(events[i], owner)) ==> Cleared(Run(env, s, events))
    decreases |events|
  {
    hide Step, PendingOrCleared, Cleared, SweepEvent, Expires;
    if events != [] {
      ExpiryStep(env, s, events[0], owner);
      assert forall i :: 0 <= i < |events[1..]| ==> events[1..][i] == events[i + 1];
      if i :| 1 <= i < |events| && Expires(events[i], owner) {
        assert Expires(events[1..][i - 1], owner);
      }
      ExpiryClears(env, Step(env, s, events[0]), events[1..], owner);
    }
  }

  // ---------- A stopped timer stays stopped ----------

  ghost predicate WithoutCommitTimeout(events: seq<Event>, t: Token) {
    forall i :: 0 <= i < |events| ==> !(events[i].CommitTimeout? && events[i].t == t)
  }

  lemma {:induction false} StaysDisarmed(env: Env, s: State, events: seq<Event>, t: Token)
    requires Disarmed(s, t) && WithoutCommitTimeout(events, t)
    ensures Disarmed(Run(env, s, events), t)
    decreases |events|
  {
    hide Step, Disarmed;
    if events != [] {
      StaysDisarmedStep(env, s, events[0], t);
      assert forall i :: 0 <= i < |events[1..]| ==> events[1..][i] == events[i + 1];
      StaysDisarmed(env, Step(env, s, events[0]), events[1..], t);
    }
  }

  lemma DisarmedNeverFires(s: State, w: Sweep, t: Token)
    requires Disarmed(s, t) && IsSweep(s, w)
    ensures forall i :: 0 <= i < |SweepEvents(w)| ==> !(SweepEvents(w)[i].FireTimer? && SweepEvents(w)[i].t == t)
  {
    hide SweepEvents, SweepEvent, IsSweep;
    forall i | 0 <= i < |SweepEvents(w)| ensures !(SweepEvents(w)[i].FireTimer? && SweepEvents(w)[i].t == t) {
      KindByPlace(s, w, i);
    }
  }

  /**
   A confirmed commit is not rolled back, nor is anything its owner opens afterwards: until the
   owner asks for another commit/timeout no sweep fires a timer for it, and none has any event for
   it while its session lasts.
   */
  lemma ConfirmStopsRollback(env: Env, s: State, owner: Token, o: Outcomes, events: seq<Event>, w: Sweep)
    requires s.up && ConfirmStep(s, owner, o).1 == Ok && WithoutCommitTimeout(events, owner)
    requires IsSweep(Run(env, Step(env, s, Confirm(owner, o)), events), w)
    ensures var late := Run(env, Step(env, s, Confirm(owner, o)), events);
            && (forall i :: 0 <= i < |SweepEvents(w)| ==>
                  !(SweepEvents(w)[i].FireTimer? && SweepEvents(w)[i].t == owner))
            && (!SessionOverdue(late, owner) ==> ByOthers(SweepEvents(w), owner))
  {
    hide Run, IsSweep, Step, SweepEvents, SessionOverdue, ConfirmHandler;
    var confirmed := Step(env, s, Confirm(owner, o));
    CancellingStopsTimer(env, s, Confirm(owner, o));
    StaysDisarmed(env, confirmed, events, owner);
    var late := Run(env, confirmed, events);
    DisarmedNeverFires(late, w, owner);
    if !SessionOverdue(late, owner) {
      SweepPassesOver(late, w, owner);
    }
  }

  // ---------- Deadlines in the clock's own units ----------

  /** A session of 720 seconds is overdue 721 seconds after its last request. */
  lemma OverdueAtDeadline(s: State, t: Token)
    ensures SessionOverdue(s, t) <==> t in s.leased && s.now >= s.leased[t] + 721_000_000_000
    ensures TimerDue(s, t) <==>
            t in s.timers && !s.timers[t].quit
            && s.now >= s.timers[t].startAt + (s.timers[t].timeout + 1) * 1_000_000_000
  {
    if t in s.leased {
      ExpiredAtDeadline(s, s.leased[t], SESSION_TIMEOUT);
    }
    if t in s.timers {
      ExpiredAtDeadline(s, s.timers[t].startAt, s.timers[t].timeout);
    }
  }
}
