/**
 What an install makes the running config: whether it is valid under the schema, and whether
 the daemon has loaded it.
 */
module ProtocolInstalls {
  import opened Options
  import opened Protocol
  import opened ProtocolSafety
  import opened ProtocolTarget
  import opened ProtocolDaemon

  // ---------- Validity ----------

  ghost predicate Sound(env: Env, s: State) {
    env.valid(s.running) && (s.candidate.Some? ==> env.valid(s.candidate.value))
  }

  /** The update makes a new candidate. */
  predicate Opens(env: Env, s: State, e: Event) {
    e.Update? && s.candidate.None? && Step(env, s, e).candidate.Some?
  }

  /** A patch that fails half-way is left behind as the candidate, before anything is validated. */
  predicate LeavesInvalid(env: Env, s: State, e: Event) {
    && s.up && e.Update? && s.candidate.None? && SetActive(s, e.t).1
    && !ApplyPatch(env, s.running, e.patch).0 && !env.valid(ApplyPatch(env, s.running, e.patch).1)
  }

  /**
   What the candidate of an update has been through: a patch that succeeded was validated, one
   that failed was not.
   */
  lemma OpenedCandidate(env: Env, s: State, e: Event)
    requires s.up && e.Update? && s.candidate.None?
    ensures Opens(env, s, e) ==> Step(env, s, e).candidate == Some(ApplyPatch(env, s.running, e.patch).1)
    ensures var (applied, c) := ApplyPatch(env, s.running, e.patch);
            Opens(env, s, e) && applied ==> env.valid(c)
    ensures SetActive(s, e.t).1 && !ApplyPatch(env, s.running, e.patch).0 ==> Opens(env, s, e)
    ensures !SetActive(s, e.t).1 ==> !Opens(env, s, e)
  {
    var (gated, ok) := SetActive(s, e.t);
    var updated := UpdateHandler(env, gated, e.patch, e.o);
    assert UpdateStep(env, s, e.t, e.patch, e.o) == if ok then updated else (gated, Refused);
  }

  /** Schema validity of the running config and the candidate is lost by exactly these steps. */
  lemma SoundStepExactly(env: Env, s: State, e: Event)
    requires Sound(env, s)
    ensures Sound(env, Step(env, s, e)) <==> !LeavesInvalid(env, s, e)
  {
    if s.up && e.Update? && s.candidate.None? {
      OpenedCandidate(env, s, e);
    }
    if Installs(env, s, e) {
      InstallTakesCandidate(env, s, e);
    } else {
      CandidateKeptOrDropped(env, s, e);
    }
    hide Step, Installs;
  }

  ghost predicate NoneLeavesInvalid(env: Env, s: State, events: seq<Event>)
    decreases |events|
  {
    events != [] ==> !LeavesInvalid(env, s, events[0]) && NoneLeavesInvalid(env, Step(env, s, events[0]), events[1..])
  }

  lemma {:induction false} SoundOverRuns(env: Env, s: State, events: seq<Event>)
    requires Sound(env, s) && NoneLeavesInvalid(env, s, events)
    ensures Sound(env, Run(env, s, events))
    decreases |events|
  {
    hide Step, Sound, LeavesInvalid;
    if events != [] {
      SoundStepExactly(env, s, events[0]);
      SoundOverRuns(env, Step(env, s, events[0]), events[1..]);
    }
  }

  /** Whether the open candidate, if there is one, comes from an update whose patch succeeded and was validated. */
  function TrackAccepted(env: Env, s: State, events: seq<Event>, accepted: bool): bool
    decreases |events|
  {
    if events == [] then accepted else
    TrackAccepted(env, Step(env, s, events[0]), events[1..],
                  if Opens(env, s, events[0]) then ApplyPatch(env, s.running, events[0].patch).0 else accepted)
  }

  lemma AcceptedStep(env: Env, s: State, e: Event, accepted: bool)
    requires s.candidate.Some? && accepted ==> env.valid(s.candidate.value)
    ensures var accepted' := if Opens(env, s, e) then ApplyPatch(env, s.running, e.patch).0 else accepted;
            Step(env, s, e).candidate.Some? && accepted' ==> env.valid(Step(env, s, e).candidate.value)
  {
    if Opens(env, s, e) {
      assert s.up;
      OpenedCandidate(env, s, e);
    } else if Installs(env, s, e) {
      InstallTakesCandidate(env, s, e);
    } else {
      CandidateKeptOrDropped(env, s, e);
    }
    hide Step, Installs;
  }

  lemma {:induction false} AcceptedIsValid(env: Env, s: State, events: seq<Event>, accepted: bool)
    requires s.candidate.Some? && accepted ==> env.valid(s.candidate.value)
    ensures var end := Run(env, s, events);
            end.candidate.Some? && TrackAccepted(env, s, events, accepted) ==> env.valid(end.candidate.value)
    decreases |events|
  {
    hide Step;
    if events != [] {
      AcceptedStep(env, s, events[0], accepted);
      var accepted' := if Opens(env, s, events[0]) then ApplyPatch(env, s.running, events[0].patch).0 else accepted;
      AcceptedIsValid(env, Step(env, s, events[0]), events[1..], accepted');
    }
  }

  /**
   In every run from the start: an install makes a valid document the running config if and
   only if the candidate it takes was accepted by an update or happens to be valid.
   */
  lemma InstallIsValidExactly(env: Env, start: State, events: seq<Event>, e: Event)
    requires Initial(env, start) && Installs(env, Run(env, start, events), e)
    ensures var s := Run(env, start, events);
            && s.candidate.Some?
            && (env.valid(Step(env, s, e).running) <==>
                TrackAccepted(env, start, events, true) || env.valid(s.candidate.value))
  {
    hide Step, Installs;
    AcceptedIsValid(env, start, events, true);
    InstallTakesCandidate(env, Run(env, start, events), e);
  }

  /** Without any failure of a storage or the daemon, a failed patch and a commit make the half-patched document run. */
  lemma HalfPatchedBecomesRunning(env: Env, s: State, t: Token, patch: Patch, o: Outcomes)
    requires Initial(env, s) && AllWell(o) && !ApplyPatch(env, s.running, patch).0
    requires env.convert(ApplyPatch(env, s.running, patch).1).Some?
    ensures var s1 := Step(env, s, Register(t));
            var s2 := Step(env, s1, Update(t, patch, o));
            && UpdateStep(env, s1, t, patch, o).1 == Failed
            && CommitStep(env, s2, t, o).1 == Ok
            && Step(env, s2, Commit(t, o)).running == ApplyPatch(env, s.running, patch).1
  {
    var s1 := Step(env, s, Register(t));
    var s2 := Step(env, s1, Update(t, patch, o));
    var c := ApplyPatch(env, s.running, patch).1;
    assert UpdateStep(env, s1, t, patch, o) == UpdateHandler(env, SetActive(s1, t).0, patch, o);
    assert s2.candidate == Some(c) && s2.active == Some(t) && t in s2.leased;
    assert CommitStep(env, s2, t, o) == CommitHandler(env, CancelTimer(s2, t), o);
  }

  // ---------- The daemon ----------

  lemma CommitLoadsDaemon(env: Env, s: State, t: Token, o: Outcomes)
    requires Installs(env, s, Commit(t, o))
    ensures var s' := Step(env, s, Commit(t, o)); DaemonRuns(env, s', s'.running) && TargetIs(env, s', s'.running)
  {
    assert CommitStep(env, s, t, o) == CommitHandler(env, CancelTimer(s, t), o);
  }

  /** Confirm loads nothing: the daemon runs what becomes running exactly when it ran the candidate before. */
  lemma ConfirmDaemonExactly(env: Env, s: State, t: Token, o: Outcomes)
    requires Installs(env, s, Confirm(t, o))
    ensures var s' := Step(env, s, Confirm(t, o));
            && s.candidate.Some? && s'.daemon == s.daemon
            && (DaemonRuns(env, s', s'.running) <==> DaemonRuns(env, s, s.candidate.value))
  {
    assert ConfirmStep(s, t, o) == ConfirmHandler(CancelTimer(s, t), t, o);
  }

  /** It does when the confirm follows the owner's OK commit/timeout, whatever others do in between. */
  lemma ConfirmAfterCommitTimeout(
    env: Env, s: State, t: Token, seconds: nat, o: Outcomes, between: seq<Event>, o': Outcomes)
    requires s.up && CommitTimeoutStep(env, s, t, seconds, o).1 == Ok && ByOthers(between, t)
    requires Installs(env, Run(env, Step(env, s, CommitTimeout(t, seconds, o)), between), Confirm(t, o'))
    ensures var pending := Run(env, Step(env, s, CommitTimeout(t, seconds, o)), between);
            var s' := Step(env, pending, Confirm(t, o'));
            DaemonRuns(env, s', s'.running) && Some(s'.running) == s.candidate
  {
    hide Run, Installs, CommitTimeoutStep;
    var after := Step(env, s, CommitTimeout(t, seconds, o));
    CommitTimeoutMakesPending(env, s, t, seconds, o);
    IsolationOverRuns(env, after, between, t);
    ConfirmDaemonExactly(env, Run(env, after, between), t, o');
    InstallTakesCandidate(env, Run(env, after, between), Confirm(t, o'));
    hide Step;
  }

  /** A waiting owner left over from an earlier commit installs a new candidate that the daemon never loads. */
  lemma StaleConfirmSkipsDaemon(env: Env, s: State, t: Token, patch: Patch, o: Outcomes)
    requires s.up && s.waiting == Some(t) && s.active == Some(t) && t in s.leased && s.candidate.None? && AllWell(o)
    requires var (applied, c) := ApplyPatch(env, s.running, patch); applied && env.valid(c) && env.convert(c).Some?
    ensures var s1 := Step(env, s, Update(t, patch, o));
            var s2 := Step(env, s1, Confirm(t, o));
            && UpdateStep(env, s, t, patch, o).1 == Ok && ConfirmStep(s1, t, o).1 == Ok
            && s2.running == ApplyPatch(env, s.running, patch).1 && s2.daemon == s.daemon
  {
    var s1 := Step(env, s, Update(t, patch, o));
    assert UpdateStep(env, s, t, patch, o) == UpdateHandler(env, SetActive(s, t).0, patch, o);
    assert ConfirmStep(s1, t, o) == ConfirmHandler(CancelTimer(s1, t), t, o);
  }

  /** How such an owner comes about: a commit does not clear it. */
  lemma CommitLeavesWaiting(env: Env, s: State, owner: Token, o: Outcomes)
    requires PendingFor(s, owner) && Installs(env, s, Commit(owner, o))
    ensures var s' := Step(env, s, Commit(owner, o));
            s'.up && s'.waiting == Some(owner) && s'.active == Some(owner) && owner in s'.leased && s'.candidate.None?
  {
    assert CommitStep(env, s, owner, o) == CommitHandler(env, CancelTimer(s, owner), o);
  }
}
