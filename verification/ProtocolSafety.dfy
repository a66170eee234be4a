/**
 Safety of the protocol over all runs: session ownership, isolation of a pending
 commit-confirm, and no lost updates.
 */
module ProtocolSafety {
  import opened Options
  import opened Protocol

  // ---------- Session ownership ----------

  ghost predicate ActiveIsLeased(s: State) {
    s.active.Some? ==> s.active.value in s.leased
  }

  ghost predicate IsExpiry(e: Event) {
    e.ExpireSession? || e.FireTimer?
  }

  /** The token that presents the request, or whose session or timer runs out. */
  function Actor(e: Event): Option<Token> {
    if e.Advance? || e.DropTimer? then None else Some(e.t)
  }

  lemma OwnershipStep(env: Env, s: State, e: Event)
    requires ActiveIsLeased(s)
    ensures ActiveIsLeased(Step(env, s, e))
    // ownership never jumps from one token to another
    ensures s.active.Some? && Step(env, s, e).active.Some? ==> Step(env, s, e).active == s.active
    // candidate, running config and running file change only for the active leased token, or by an expiry
    ensures var s' := Step(env, s, e);
            s'.candidate != s.candidate || s'.running != s.running || s'.runningFile != s.runningFile ==>
              || IsExpiry(e)
              || (Actor(e).Some? && Actor(e).value in s.leased && s'.active == Actor(e)
                  && (s.active == None || s.active == Actor(e)))
  {
    hide Step;
    if IsExpiry(e) {
      ExpiryOwnership(env, s, e);
    } else if e.Commit? || e.Confirm? || e.Cancel? || e.Discard? {
      GatedOwnership(env, s, e);
    } else {
      TableOwnership(env, s, e);
    }
  }

  ghost predicate Owned(s: State, s': State, e: Event) {
    && ActiveIsLeased(s')
    && (s.active.Some? && s'.active.Some? ==> s'.active == s.active)
    && (s'.candidate != s.candidate || s'.running != s.running || s'.runningFile != s.runningFile ==>
          || IsExpiry(e)
          || (Actor(e).Some? && Actor(e).value in s.leased && s'.active == Actor(e)
              && (s.active == None || s.active == Actor(e))))
  }

  lemma ExpiryOwnership(env: Env, s: State, e: Event)
    requires ActiveIsLeased(s) && IsExpiry(e)
    ensures Owned(s, Step(env, s, e), e)
  {
    hide DiscardHandler;
    if e.ExpireSession? {
      var removed := RemoveSession(s, e.t);
      assert SameSessions(removed, DiscardHandler(env, removed, e.t, e.o).0);
    } else {
      assert SameSessions(s, DiscardHandler(env, s, e.t, e.o).0);
    }
  }

  /** Requests that only the active session may make. */
  lemma GatedOwnership(env: Env, s: State, e: Event)
    requires ActiveIsLeased(s) && (e.Commit? || e.Confirm? || e.Cancel? || e.Discard?)
    ensures Owned(s, Step(env, s, e), e)
  {
    hide CommitHandler, ConfirmHandler, CancelHandler, DiscardHandler;
    if s.up && CheckActive(s, e.t) {
      var cancelled := CancelTimer(s, e.t);
      assert SameSessions(cancelled, Step(env, s, e));
    }
  }

  lemma TableOwnership(env: Env, s: State, e: Event)
    requires ActiveIsLeased(s) && !IsExpiry(e) && !e.Commit? && !e.Confirm? && !e.Cancel? && !e.Discard?
    ensures Owned(s, Step(env, s, e), e)
  {
    hide UpdateHandler, CommitTimeoutHandler;
    if e.Update? {
      var (gated, ok) := SetActive(s, e.t);
      assert SameSessions(gated, UpdateStep(env, s, e.t, e.patch, e.o).0);
    } else if e.CommitTimeout? {
      var gated := SetActive(s, e.t).0;
      assert SameRunning(s, CommitTimeoutStep(env, s, e.t, e.seconds, e.o).0);
      assert SameSessions(CancelTimer(gated, e.t), CommitTimeoutHandler(env, CancelTimer(gated, e.t), e.t, e.o).0);
    }
  }

  /** Claims at every point of every run. */
  lemma {:induction false} OwnershipOverRuns(env: Env, s: State, events: seq<Event>)
    requires ActiveIsLeased(s)
    ensures ActiveIsLeased(Run(env, s, events))
    decreases |events|
  {
    if events != [] {
      OwnershipStep(env, s, events[0]);
      OwnershipOverRuns(env, Step(env, s, events[0]), events[1..]);
    }
  }

  // ---------- Isolation of a pending commit-confirm ----------

  /** Everything a bystander must not be able to change. */
  ghost predicate SameConfiguration(s: State, r: State) {
    && r.running == s.running && r.runningFile == s.runningFile && r.candidate == s.candidate
    && r.waiting == s.waiting && r.active == s.active && r.target == s.target && r.daemon == s.daemon
  }

  ghost predicate PendingFor(s: State, owner: Token) {
    s.up && s.candidate.Some? && s.waiting == Some(owner) && s.active == Some(owner)
  }

  ghost predicate ByOthers(events: seq<Event>, owner: Token) {
    forall i :: 0 <= i < |events| ==> Actor(events[i]) != Some(owner)
  }

  /** A commit/timeout that answers OK leaves its session the pending owner. */
  lemma CommitTimeoutMakesPending(env: Env, s: State, t: Token, seconds: nat, o: Outcomes)
    requires s.up && CommitTimeoutStep(env, s, t, seconds, o).1 == Ok
    ensures var s' := Step(env, s, CommitTimeout(t, seconds, o));
            PendingFor(s', t) && SameRunning(s, s') && s'.candidate == s.candidate
            && env.convert(s'.candidate.value) == Some(s'.target) && s'.daemon == s'.target
  {
    var gated := SetActive(s, t).0;
    var (handled, reply) := CommitTimeoutHandler(env, CancelTimer(gated, t), t, o);
    assert reply == Ok;
    assert handled.waiting == Some(t) && handled.active == Some(t);
  }

  lemma IsolationStep(env: Env, s: State, e: Event, owner: Token)
    requires PendingFor(s, owner) && Actor(e) != Some(owner)
    ensures SameConfiguration(s, Step(env, s, e)) && Step(env, s, e).up
    // nor do bystanders touch the owner's lease or timer
    ensures owner in s.leased ==> owner in Step(env, s, e).leased && Step(env, s, e).leased[owner] == s.leased[owner]
    ensures owner in s.timers && !s.timers[owner].quit ==>
              owner in Step(env, s, e).timers && Step(env, s, e).timers[owner] == s.timers[owner]
  {
    hide Step;
    if e.ExpireSession? || e.FireTimer? {
      ExpiryIsolation(env, s, e, owner);
    } else if e.Commit? || e.Confirm? || e.Cancel? || e.Discard? {
      GatedIsolation(env, s, e, owner);
    } else {
      TableIsolation(env, s, e, owner);
    }
  }

  ghost predicate Isolated(s: State, s': State, owner: Token) {
    && SameConfiguration(s, s') && s'.up
    && (owner in s.leased ==> owner in s'.leased && s'.leased[owner] == s.leased[owner])
    && (owner in s.timers && !s.timers[owner].quit ==> owner in s'.timers && s'.timers[owner] == s.timers[owner])
  }

  lemma ExpiryIsolation(env: Env, s: State, e: Event, owner: Token)
    requires PendingFor(s, owner) && Actor(e) != Some(owner) && (e.ExpireSession? || e.FireTimer?)
    ensures Isolated(s, Step(env, s, e), owner)
  {
    if e.ExpireSession? {
      var removed := RemoveSession(s, e.t);
      assert DiscardHandler(env, removed, e.t, e.o) == (removed, Ok);
      assert Step(env, s, e) == removed.(leased := removed.leased - {e.t});
    } else {
      assert DiscardHandler(env, s, e.t, e.o) == (s, Ok);
    }
  }

  lemma GatedIsolation(env: Env, s: State, e: Event, owner: Token)
    requires PendingFor(s, owner) && Actor(e) != Some(owner) && (e.Commit? || e.Confirm? || e.Cancel? || e.Discard?)
    ensures Isolated(s, Step(env, s, e), owner)
  {
    hide CommitHandler, ConfirmHandler, CancelHandler, DiscardHandler;
    assert !CheckActive(s, e.t);
    assert Step(env, s, e) == s;
  }

  lemma TableIsolation(env: Env, s: State, e: Event, owner: Token)
    requires PendingFor(s, owner) && Actor(e) != Some(owner) && !e.ExpireSession? && !e.FireTimer?
    requires !e.Commit? && !e.Confirm? && !e.Cancel? && !e.Discard?
    ensures Isolated(s, Step(env, s, e), owner)
  {
    hide UpdateHandler, CommitTimeoutHandler;
    if e.Update? || e.CommitTimeout? {
      assert !SetActive(s, e.t).1;
      assert Step(env, s, e) == SetActive(s, e.t).0 || Step(env, s, e) == s;
    }
  }

  lemma {:induction false} IsolationOverRuns(env: Env, s: State, events: seq<Event>, owner: Token)
    requires PendingFor(s, owner) && ByOthers(events, owner)
    ensures SameConfiguration(s, Run(env, s, events)) && PendingFor(Run(env, s, events), owner)
    ensures owner in s.leased ==>
              owner in Run(env, s, events).leased && Run(env, s, events).leased[owner] == s.leased[owner]
    ensures owner in s.timers && !s.timers[owner].quit ==>
              owner in Run(env, s, events).timers && Run(env, s, events).timers[owner] == s.timers[owner]
    decreases |events|
  {
    if events != [] {
      IsolationStep(env, s, events[0], owner);
      forall i | 0 <= i < |events[1..]| ensures Actor(events[1..][i]) != Some(owner) {
        assert events[1..][i] == events[i + 1];
      }
      IsolationOverRuns(env, Step(env, s, events[0]), events[1..], owner);
    }
  }

  // ---------- No lost updates ----------

  /** All of the operations, each of which must succeed. */
  function Replay(env: Env, c: Config, ops: seq<Op>): Option<Config> {
    if ops == [] then Some(c) else
      match env.apply(c, ops[0])
      case None => None
      case Some(d) => Replay(env, d, ops[1..])
  }

  /** The operations of a patch that took effect: all up to the first failing one. */
  function Effective(env: Env, c: Config, patch: Patch): seq<Op> {
    if patch.Malformed? then [] else EffectiveOps(env, c, patch.ops)
  }

  function EffectiveOps(env: Env, c: Config, ops: seq<Op>): seq<Op> {
    if ops == [] then [] else
      match env.apply(c, ops[0])
      case None => []
      case Some(d) => [ops[0]] + EffectiveOps(env, d, ops[1..])
  }

  lemma {:induction false} ApplyOpsIsReplayOfEffective(env: Env, c: Config, ops: seq<Op>)
    ensures Replay(env, c, EffectiveOps(env, c, ops)) == Some(ApplyOps(env, c, ops).1)
    ensures EffectiveOps(env, c, ops) <= ops
    ensures ApplyOps(env, c, ops).0 <==> EffectiveOps(env, c, ops) == ops
  {
    if ops != [] {
      match env.apply(c, ops[0])
      case None =>
      case Some(d) =>
        ApplyOpsIsReplayOfEffective(env, d, ops[1..]);
        var rest := EffectiveOps(env, d, ops[1..]);
        assert ([ops[0]] + rest)[1..] == rest;
        assert ops == [ops[0]] + ops[1..];
        if [ops[0]] + rest == ops {
          assert ([ops[0]] + rest)[1..] == ops[1..];
        }
    }
  }

  lemma {:induction false} OpsSucceedExactly(env: Env, c: Config, ops: seq<Op>)
    ensures ApplyOps(env, c, ops).0 <==> Replay(env, c, ops).Some?
    ensures ApplyOps(env, c, ops).0 ==> Replay(env, c, ops) == Some(ApplyOps(env, c, ops).1)
  {
    if ops != [] && env.apply(c, ops[0]).Some? {
      OpsSucceedExactly(env, env.apply(c, ops[0]).value, ops[1..]);
    }
  }

  /** A patch succeeds exactly when it is parsable and all its operations can be replayed. */
  lemma PatchSucceedsExactly(env: Env, c: Config, patch: Patch)
    ensures var (applied, d) := ApplyPatch(env, c, patch);
            && (applied <==> patch.Operations? && Replay(env, c, patch.ops).Some?)
            && (applied ==> Replay(env, c, patch.ops) == Some(d))
            && (patch.Malformed? ==> d == c)
  {
    if patch.Operations? {
      OpsSucceedExactly(env, c, patch.ops);
    }
  }

  lemma {:induction false} ReplayConcat(env: Env, c: Config, a: seq<Op>, b: seq<Op>)
    requires Replay(env, c, a).Some?
    ensures Replay(env, c, a + b) == Replay(env, Replay(env, c, a).value, b)
  {
    if a == [] {
      assert a + b == b;
    } else {
      assert (a + b)[1..] == a[1..] + b;
      ReplayConcat(env, env.apply(c, a[0]).value, a[1..], b);
    }
  }

  /**
   The reference the server must refine: a log of installed operations and the draft of the
   one open update.  It holds no configuration at all.
   */
  datatype History = History(log: seq<Op>, draft: Option<seq<Op>>)

  predicate Installs(env: Env, s: State, e: Event) {
    s.up && match e
      case Commit(t, o) => CommitStep(env, s, t, o).1 == Ok
      case Confirm(t, o) => ConfirmStep(s, t, o).1 == Ok
      case _ => false
  }

  /** An update opens a draft, an install appends the draft to the log, a discard drops it. */
  function Track(env: Env, s: State, e: Event, h: History): History {
    if Installs(env, s, e) then
      History(h.log + (if h.draft.Some? then h.draft.value else []), None)
    else if e.Update? && s.candidate.None? && Step(env, s, e).candidate.Some? then
      h.(draft := Some(Effective(env, s.running, e.patch)))
    else if Step(env, s, e).candidate.None? then
      h.(draft := None)
    else h
  }

  function TrackRun(env: Env, s: State, events: seq<Event>, h: History): History
    decreases |events|
  {
    if events == [] then h
    else TrackRun(env, Step(env, s, events[0]), events[1..], Track(env, s, events[0], h))
  }

  ghost predicate Agrees(env: Env, startup: Config, s: State, h: History) {
    && Replay(env, startup, h.log) == Some(s.running)
    && (s.candidate.Some? <==> h.draft.Some?)
    && (s.candidate.Some? ==> Replay(env, startup, h.log + h.draft.value) == s.candidate)
  }

  /** What a candidate holds when an update has just made it. */
  lemma UpdateMakesPatchedCopy(env: Env, s: State, t: Token, patch: Patch, o: Outcomes)
    requires s.up && s.candidate.None? && Step(env, s, Update(t, patch, o)).candidate.Some?
    ensures Step(env, s, Update(t, patch, o)).candidate == Some(ApplyPatch(env, s.running, patch).1)
  {
    var (gated, ok) := SetActive(s, t);
    assert UpdateStep(env, s, t, patch, o) == if ok then UpdateHandler(env, gated, patch, o) else (gated, Refused);
  }

  /** Outside updates and installs a candidate is kept as it is or dropped, and running stays. */
  lemma CandidateKeptOrDropped(env: Env, s: State, e: Event)
    requires !Installs(env, s, e)
    ensures Step(env, s, e).running == s.running
    ensures (e.Update? && s.candidate.None?) || Step(env, s, e).candidate == s.candidate
            || Step(env, s, e).candidate == None
  {
    if s.up {
      match e
      case Commit(t, o) =>
        if CheckActive(s, t) {
          assert CommitStep(env, s, t, o) == CommitHandler(env, CancelTimer(s, t), o);
        }
      case Confirm(t, o) =>
        if CheckActive(s, t) {
          assert ConfirmStep(s, t, o) == ConfirmHandler(CancelTimer(s, t), t, o);
        }
      case _ =>
    }
  }

  /** An install makes exactly the candidate the running config, in memory and in the file. */
  lemma InstallTakesCandidate(env: Env, s: State, e: Event)
    requires Installs(env, s, e)
    ensures s.candidate.Some? && Step(env, s, e).running == s.candidate.value == Step(env, s, e).runningFile
    ensures Step(env, s, e).candidate.None?
  {
    match e
    case Commit(t, o) =>
      assert CommitStep(env, s, t, o) == CommitHandler(env, CancelTimer(s, t), o);
    case Confirm(t, o) =>
      assert ConfirmStep(s, t, o) == ConfirmHandler(CancelTimer(s, t), t, o);
  }

  lemma NoLostUpdatesStep(env: Env, startup: Config, s: State, e: Event, h: History)
    requires Agrees(env, startup, s, h)
    ensures Agrees(env, startup, Step(env, s, e), Track(env, s, e, h))
    ensures h.log <= Track(env, s, e, h).log
  {
    var s' := Step(env, s, e);
    if Installs(env, s, e) {
      InstallTakesCandidate(env, s, e);
    } else {
      CandidateKeptOrDropped(env, s, e);
      if e.Update? && s.candidate.None? && s'.candidate.Some? {
        assert s.up;
        UpdateMakesPatchedCopy(env, s, e.t, e.patch, e.o);
        var ops := Effective(env, s.running, e.patch);
        if e.patch.Operations? {
          ApplyOpsIsReplayOfEffective(env, s.running, e.patch.ops);
        }
        ReplayConcat(env, startup, h.log, ops);
      }
    }
  }

  /**
   In every run, whatever fails, the running config is the startup config with the effective
   operations of the installed patches applied in the order of installation, and the log only grows.
   */
  lemma {:induction false} NoLostUpdates(env: Env, startup: Config, s: State, events: seq<Event>, h: History)
    requires Agrees(env, startup, s, h)
    ensures Agrees(env, startup, Run(env, s, events), TrackRun(env, s, events, h))
    ensures h.log <= TrackRun(env, s, events, h).log
    decreases |events|
  {
    if events != [] {
      NoLostUpdatesStep(env, startup, s, events[0], h);
      NoLostUpdates(env, startup, Step(env, s, events[0]), events[1..], Track(env, s, events[0], h));
    }
  }

  lemma NoLostUpdatesSinceStartup(env: Env, s: State, events: seq<Event>)
    requires Initial(env, s)
    ensures var h := TrackRun(env, s, events, History([], None));
            Replay(env, s.running, h.log) == Some(Run(env, s, events).running)
  {
    NoLostUpdates(env, s.running, s, events, History([], None));
  }
}
