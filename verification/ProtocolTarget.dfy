/**
 The target file: in every run whose failures are harmless it is the converted running
 config whenever no candidate is open.  Also: exactly when a step takes the process down.
 */
module ProtocolTarget {
  import opened Options
  import opened Protocol
  import opened ProtocolSafety

  ghost predicate TargetIs(env: Env, s: State, c: Config) {
    env.convert(c) == Some(s.target)
  }

  ghost predicate TargetAgrees(env: Env, s: State) {
    && env.convert(s.running).Some?
    && (s.candidate.None? ==> TargetIs(env, s, s.running))
    && (s.candidate.Some? ==>
          TargetIs(env, s, s.candidate.value) || (TargetIs(env, s, s.running) && s.waiting == None))
  }

  /**
   The failures a step may meet without breaking the agreement.  A step without any
   failure is harmless; so are all failed saves of the running config, and failed patches
   and loads while nobody waits for a confirm.
   */
  predicate Harmless(env: Env, s: State, e: Event) {
    match e
    case Update(_, patch, o) =>
      && (ApplyPatch(env, s.running, patch).0 || s.waiting == None)
      && (o.daemonOk || o.restored)
    case Commit(_, o) => o.daemonOk || (o.restored && s.waiting == None)
    case CommitTimeout(_, _, o) => o.daemonOk || (o.restored && s.waiting == None)
    case Cancel(_, o) => o.daemonOk || !o.restored
    case Discard(_, o) => o.restored
    case ExpireSession(_, o) => o.restored
    case FireTimer(_, o) => o.restored
    case _ => true
  }

  ghost predicate AllHarmless(env: Env, s: State, events: seq<Event>)
    decreases |events|
  {
    events != [] ==> Harmless(env, s, events[0]) && AllHarmless(env, Step(env, s, events[0]), events[1..])
  }

  lemma DiscardKeepsAgreement(env: Env, s: State, t: Token, o: Outcomes)
    requires TargetAgrees(env, s) && o.restored
    ensures TargetAgrees(env, DiscardHandler(env, s, t, o).0) && DiscardHandler(env, s, t, o).1 != Thrown
  {
  }

  lemma TargetAgreementStep(env: Env, s: State, e: Event)
    requires TargetAgrees(env, s) && Harmless(env, s, e)
    ensures TargetAgrees(env, Step(env, s, e))
  {
    hide Step, TargetAgrees, Harmless;
    if e.Update? {
      UpdateKeepsAgreement(env, s, e);
    } else if e.Commit? || e.CommitTimeout? {
      CommitKeepsAgreement(env, s, e);
    } else if e.Discard? || e.ExpireSession? || e.FireTimer? {
      DiscardingKeepsAgreement(env, s, e);
    } else {
      OthersKeepAgreement(env, s, e);
    }
  }

  lemma UpdateKeepsAgreement(env: Env, s: State, e: Event)
    requires TargetAgrees(env, s) && Harmless(env, s, e) && e.Update?
    ensures TargetAgrees(env, Step(env, s, e))
  {
    var (gated, ok) := SetActive(s, e.t);
    var updated := UpdateHandler(env, gated, e.patch, e.o);
    assert UpdateStep(env, s, e.t, e.patch, e.o) == if ok then updated else (gated, Refused);
  }

  lemma ApplyKeepsAgreement(env: Env, s: State, o: Outcomes)
    requires TargetAgrees(env, s) && s.candidate.Some? && (o.daemonOk || (o.restored && s.waiting == None))
    ensures var (applied, reply) := ApplyConfig(env, s, o);
            TargetAgrees(env, applied) && (reply == Ok ==> TargetIs(env, applied, applied.candidate.value))
  {
  }

  lemma CommitHandlerKeepsAgreement(env: Env, s: State, o: Outcomes)
    requires TargetAgrees(env, s) && (o.daemonOk || (o.restored && s.waiting == None))
    ensures TargetAgrees(env, CommitHandler(env, s, o).0)
  {
    hide ApplyConfig;
    if s.candidate.Some? {
      ApplyKeepsAgreement(env, s, o);
    }
  }

  lemma CommitAndArmKeepsAgreement(env: Env, s: State, t: Token, seconds: nat, o: Outcomes)
    requires TargetAgrees(env, s) && (o.daemonOk || (o.restored && s.waiting == None))
    ensures TargetAgrees(env, CommitAndArm(env, s, t, seconds, o).0)
  {
    hide ApplyConfig;
    if s.candidate.Some? {
      ApplyKeepsAgreement(env, CancelTimer(s, t), o);
    }
  }

  lemma CommitKeepsAgreement(env: Env, s: State, e: Event)
    requires TargetAgrees(env, s) && Harmless(env, s, e) && (e.Commit? || e.CommitTimeout?)
    ensures TargetAgrees(env, Step(env, s, e))
  {
    hide CommitHandler, CommitAndArm, UpdateHandler, DiscardHandler, ConfirmHandler, CancelHandler;
    if e.Commit? {
      CommitHandlerKeepsAgreement(env, CancelTimer(s, e.t), e.o);
    } else {
      CommitAndArmKeepsAgreement(env, SetActive(s, e.t).0, e.t, e.seconds, e.o);
    }
  }

  lemma DiscardingKeepsAgreement(env: Env, s: State, e: Event)
    requires TargetAgrees(env, s) && Harmless(env, s, e) && (e.Discard? || e.ExpireSession? || e.FireTimer?)
    ensures TargetAgrees(env, Step(env, s, e))
  {
    hide DiscardHandler;
    if e.Discard? {
      DiscardKeepsAgreement(env, CancelTimer(s, e.t), e.t, e.o);
    } else if e.ExpireSession? {
      DiscardKeepsAgreement(env, RemoveSession(s, e.t), e.t, e.o);
    } else {
      DiscardKeepsAgreement(env, s, e.t, e.o);
    }
  }

  lemma OthersKeepAgreement(env: Env, s: State, e: Event)
    requires TargetAgrees(env, s) && Harmless(env, s, e)
    requires !e.Update? && !e.Commit? && !e.CommitTimeout? && !e.Discard? && !e.ExpireSession? && !e.FireTimer?
    ensures TargetAgrees(env, Step(env, s, e))
  {
    hide UpdateHandler, CommitHandler, CommitTimeoutHandler, DiscardHandler;
    if e.Confirm? {
      assert ConfirmStep(s, e.t, e.o).0 == s || CheckActive(s, e.t);
    } else if e.Cancel? {
      assert CancelStep(env, s, e.t, e.o).0 == s || CheckActive(s, e.t);
    }
  }

  lemma {:induction false} TargetAgreementOverRuns(env: Env, s: State, events: seq<Event>)
    requires TargetAgrees(env, s) && AllHarmless(env, s, events)
    ensures TargetAgrees(env, Run(env, s, events))
    decreases |events|
  {
    if events != [] {
      TargetAgreementStep(env, s, events[0]);
      TargetAgreementOverRuns(env, Step(env, s, events[0]), events[1..]);
    }
  }

  /** No storage, daemon or patch failure at all. */
  predicate Faultless(env: Env, s: State, e: Event) {
    match e
    case Update(_, patch, o) => ApplyPatch(env, s.running, patch).0 && AllWell(o)
    case Commit(_, o) => AllWell(o)
    case CommitTimeout(_, _, o) => AllWell(o)
    case Confirm(_, o) => AllWell(o)
    case Cancel(_, o) => AllWell(o)
    case Discard(_, o) => AllWell(o)
    case ExpireSession(_, o) => AllWell(o)
    case FireTimer(_, o) => AllWell(o)
    case _ => true
  }

  predicate AllWell(o: Outcomes) {
    o.targetSaved && o.daemonOk && o.restored && o.runningSaved && o.runningLoaded
  }

  ghost predicate AllFaultless(env: Env, s: State, events: seq<Event>)
    decreases |events|
  {
    events != [] ==> Faultless(env, s, events[0]) && AllFaultless(env, Step(env, s, events[0]), events[1..])
  }

  lemma {:induction false} FaultlessIsHarmless(env: Env, s: State, events: seq<Event>)
    requires AllFaultless(env, s, events)
    ensures AllHarmless(env, s, events)
    decreases |events|
  {
    hide Step;
    if events != [] {
      FaultlessIsHarmless(env, Step(env, s, events[0]), events[1..]);
    }
  }

  lemma FaultlessRunsAgree(env: Env, s: State, events: seq<Event>)
    requires Initial(env, s) && AllFaultless(env, s, events)
    ensures TargetAgrees(env, Run(env, s, events))
  {
    FaultlessIsHarmless(env, s, events);
    TargetAgreementOverRuns(env, s, events);
  }

  /** A commit, a confirm, a discard that found a candidate, and an update turned down by the checks. */
  predicate Settles(env: Env, s: State, e: Event) {
    || Installs(env, s, e)
    || (s.candidate.Some? && Step(env, s, e).candidate.None?)
    || (e.Update? && s.up && s.candidate.None? && ApplyPatch(env, s.running, e.patch).0
        && UpdateStep(env, s, e.t, e.patch, e.o).1 == Failed)
  }

  lemma SettledTargetIsRunning(env: Env, s: State, e: Event)
    requires TargetAgrees(env, s) && Harmless(env, s, e) && Settles(env, s, e)
    ensures Step(env, s, e).candidate == None && TargetIs(env, Step(env, s, e), Step(env, s, e).running)
  {
    TargetAgreementStep(env, s, e);
    if Installs(env, s, e) {
      InstallTakesCandidate(env, s, e);
    }
  }

  /**
   A patch that fails is left behind as the candidate.  That keeps the agreement exactly when
   nobody waits for a confirm, unless the half-patched config happens to convert to the same text.
   */
  lemma FailedPatchKeepsAgreementIff(env: Env, s: State, t: Token, patch: Patch, o: Outcomes)
    requires s.up && TargetAgrees(env, s) && s.candidate.None? && SetActive(s, t).1
    requires !ApplyPatch(env, s.running, patch).0
    ensures TargetAgrees(env, Step(env, s, Update(t, patch, o))) <==>
              s.waiting == None || env.convert(ApplyPatch(env, s.running, patch).1) == env.convert(s.running)
  {
    var gated := SetActive(s, t).0;
    assert UpdateStep(env, s, t, patch, o) == UpdateHandler(env, gated, patch, o);
    assert UpdateHandler(env, gated, patch, o).0 == gated.(candidate := Some(ApplyPatch(env, s.running, patch).1));
  }

  // ---------- Process exits ----------

  /** The discard handler reaches the conversion of the running config. */
  predicate Discards(s: State, t: Token) {
    s.candidate.Some? && (s.waiting == None || s.waiting == Some(t))
  }

  lemma ProcessEndsExactlyWhen(env: Env, s: State, e: Event)
    requires s.up
    ensures !Step(env, s, e).up <==>
              || (e.Confirm? && CheckActive(s, e.t) && s.waiting == Some(e.t) && s.candidate.None?)
              || (e.ExpireSession? && Discards(s, e.t) && env.convert(s.running).None?)
              || (e.FireTimer? && e.t in s.timers && Discards(s, e.t) && env.convert(s.running).None?)
  {
    match e
    case Update(t, patch, o) => assert UpdateStep(env, s, t, patch, o).0.up;
    case Commit(t, o) => assert CommitStep(env, s, t, o).0.up;
    case CommitTimeout(t, seconds, o) => assert CommitTimeoutStep(env, s, t, seconds, o).0.up;
    case Cancel(t, o) => assert CancelStep(env, s, t, o).0.up;
    case Discard(t, o) => assert DiscardStep(env, s, t, o).0.up;
    case ExpireSession(t, o) =>
    case FireTimer(t, o) =>
    case _ =>
  }

  /** Confirming twice ends the process: confirm drops the candidate but not the waiting owner. */
  lemma SecondConfirmEndsProcess(env: Env, s: State, owner: Token, o: Outcomes)
    requires PendingFor(s, owner) && owner in s.leased && o.runningSaved && o.runningLoaded
    ensures var once := Step(env, s, Confirm(owner, o));
            once.up && once.running == s.candidate.value && !Step(env, once, Confirm(owner, o)).up
  {
    var once := Step(env, s, Confirm(owner, o));
    assert ConfirmStep(s, owner, o) == ConfirmHandler(CancelTimer(s, owner), owner, o);
    assert once.waiting == Some(owner) && once.active == Some(owner) && once.candidate.None? && owner in once.leased;
  }
}
