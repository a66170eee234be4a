/**
 What the routing daemon runs: what a dropped candidate leaves in the target file and in the
 daemon, and exactly which steps keep the daemon on the running config or the open candidate.
 */
module ProtocolDaemon {
  import opened Options
  import opened Protocol
  import opened ProtocolSafety
  import opened ProtocolTarget

  ghost predicate DaemonRuns(env: Env, s: State, c: Config) {
    env.convert(c) == Some(s.daemon)
  }

  // ---------- Dropping a candidate ----------

  /** The step finds a candidate that it drops: a DELETE by its owner, an expiry or a timer. */
  predicate Drops(s: State, e: Event) {
    && s.up && (e.Discard? || e.ExpireSession? || e.FireTimer?) && Discards(s, e.t)
    && (e.Discard? ==> CheckActive(s, e.t)) && (e.FireTimer? ==> e.t in s.timers)
  }

  /**
   The rollback, by the answers of storage and daemon: the candidate and the waiting owner are
   gone, the target file holds the running config again, and the daemon has loaded it.
   */
  ghost predicate RolledBack(env: Env, s: State, s': State, o: Outcomes) {
    && s'.up && SameRunning(s, s') && s'.candidate == None && s'.waiting == None
    && (if o.restored then TargetIs(env, s', s.running) else s'.target == s.target)
    && (if !o.restored then s'.daemon == s.daemon
        else if o.daemonOk then DaemonRuns(env, s', s.running)
        else s'.daemon == o.daemonLeft)
  }

  lemma DroppedIsRolledBack(env: Env, s: State, e: Event)
    requires Drops(s, e) && env.convert(s.running).Some?
    ensures RolledBack(env, s, Step(env, s, e), e.o)
    ensures e.Discard? ==> (DiscardStep(env, s, e.t, e.o).1 == Ok <==> e.o.restored && e.o.daemonOk)
  {
    match e
    case Discard(t, o) => assert DiscardStep(env, s, t, o) == DiscardHandler(env, CancelTimer(s, t), t, o);
    case ExpireSession(t, o) => assert DiscardHandler(env, RemoveSession(s, t), t, o).1 != Thrown;
    case FireTimer(t, o) => assert DiscardHandler(env, s, t, o).1 != Thrown;
  }

  /** After it the daemon runs the running config exactly in these cases. */
  lemma DaemonIsBackExactly(env: Env, s: State, e: Event)
    requires Drops(s, e) && env.convert(s.running).Some?
    ensures var s' := Step(env, s, e);
            DaemonRuns(env, s', s'.running) <==>
            if e.o.restored then e.o.daemonOk || env.convert(s.running) == Some(e.o.daemonLeft)
            else DaemonRuns(env, s, s.running)
  {
    DroppedIsRolledBack(env, s, e);
    hide Step;
  }

  /** A running config that does not convert: the candidate goes, nothing is restored. */
  lemma DroppedWithoutText(env: Env, s: State, e: Event)
    requires Drops(s, e) && env.convert(s.running).None?
    ensures var s' := Step(env, s, e);
            && SameRunning(s, s') && s'.candidate == None && s'.waiting == None
            && s'.target == s.target && s'.daemon == s.daemon && (s'.up <==> e.Discard?)
    ensures e.Discard? ==> DiscardStep(env, s, e.t, e.o).1 == Thrown
  {
  }

  /** Otherwise such a step leaves configuration, target file and daemon alone. */
  lemma NothingToDrop(env: Env, s: State, e: Event)
    requires (e.Discard? || e.ExpireSession? || e.FireTimer?) && !Drops(s, e)
    ensures var s' := Step(env, s, e);
            && s'.up == s.up && SameRunning(s, s') && s'.candidate == s.candidate && s'.waiting == s.waiting
            && s'.target == s.target && s'.daemon == s.daemon
    ensures e.Discard? && s.up ==> DiscardStep(env, s, e.t, e.o).1 == if CheckActive(s, e.t) then Ok else Refused
  {
  }

  // ---------- The daemon in every run ----------

  /** Without candidate the daemon runs the running config, with one that or the candidate. */
  ghost predicate DaemonAgrees(env: Env, s: State) {
    && env.convert(s.running).Some?
    && (DaemonRuns(env, s, s.running) || (s.candidate.Some? && DaemonRuns(env, s, s.candidate.value)))
  }

  /** A text that a failed load or an undo leaves in the daemon without harm. */
  ghost predicate LeftAgrees(env: Env, s: State, o: Outcomes) {
    env.convert(s.running) == Some(o.daemonLeft)
    || (s.candidate.Some? && env.convert(s.candidate.value) == Some(o.daemonLeft))
  }

  /** The commit gets as far as the daemon, which does not load the candidate. */
  predicate LoadFails(env: Env, s: State, o: Outcomes) {
    s.candidate.Some? && env.convert(s.candidate.value).Some? && o.targetSaved && !o.daemonOk
  }

  /** What exactly must not happen in a step for the daemon to stay in agreement. */
  ghost predicate DaemonKept(env: Env, s: State, e: Event) {
    s.up ==>
      match e
      case Commit(t, o) => CheckActive(s, t) && LoadFails(env, s, o) ==> LeftAgrees(env, s, o)
      case CommitTimeout(t, seconds, o) =>
        seconds <= SESSION_TIMEOUT && SetActive(s, t).1 && LoadFails(env, s, o) ==> LeftAgrees(env, s, o)
      case Confirm(t, o) => Installs(env, s, e) ==> DaemonRuns(env, s, s.candidate.value)
      case Cancel(t, o) =>
        CheckActive(s, t) && s.waiting == Some(t) && s.candidate.Some? && o.restored ==> LeftAgrees(env, s, o)
      case Discard(_, o) => Drops(s, e) ==> BackAgain(env, s, o)
      case ExpireSession(_, o) => Drops(s, e) ==> BackAgain(env, s, o)
      case FireTimer(_, o) => Drops(s, e) ==> BackAgain(env, s, o)
      case _ => true
  }

  ghost predicate BackAgain(env: Env, s: State, o: Outcomes) {
    if o.restored then o.daemonOk || env.convert(s.running) == Some(o.daemonLeft) else DaemonRuns(env, s, s.running)
  }

  lemma DaemonAgreementStepExactly(env: Env, s: State, e: Event)
    requires DaemonAgrees(env, s)
    ensures DaemonAgrees(env, Step(env, s, e)) <==> DaemonKept(env, s, e)
  {
    if s.up {
      match e
      case Update(t, patch, o) => UpdateKeepsDaemon(env, s, t, patch, o);
      case Commit(t, o) => CommitDaemon(env, s, t, o);
      case CommitTimeout(t, seconds, o) => CommitTimeoutDaemon(env, s, t, seconds, o);
      case Confirm(t, o) => ConfirmDaemon(env, s, t, o);
      case Cancel(t, o) => CancelDaemon(env, s, t, o);
      case Discard(_, _) => DropDaemon(env, s, e);
      case ExpireSession(_, _) => DropDaemon(env, s, e);
      case FireTimer(_, _) => DropDaemon(env, s, e);
      case _ =>
    }
  }

  lemma UpdateKeepsDaemon(env: Env, s: State, t: Token, patch: Patch, o: Outcomes)
    requires DaemonAgrees(env, s) && s.up
    ensures DaemonAgrees(env, Step(env, s, Update(t, patch, o)))
  {
    hide UpdateHandler, ApplyPatch;
    var (gated, ok) := SetActive(s, t);
    assert UpdateStep(env, s, t, patch, o) == if ok then UpdateHandler(env, gated, patch, o) else (gated, Refused);
  }

  lemma ApplyDaemon(env: Env, s: State, o: Outcomes)
    requires DaemonAgrees(env, s)
    ensures var (s', reply) := ApplyConfig(env, s, o);
            && (DaemonAgrees(env, s') <==> (LoadFails(env, s, o) ==> LeftAgrees(env, s, o)))
            && (reply == Ok ==> s.candidate.Some? && DaemonRuns(env, s', s.candidate.value))
  {
  }

  lemma CommitDaemon(env: Env, s: State, t: Token, o: Outcomes)
    requires DaemonAgrees(env, s) && s.up
    ensures DaemonAgrees(env, Step(env, s, Commit(t, o))) <==> DaemonKept(env, s, Commit(t, o))
  {
    hide ApplyConfig;
    if CheckActive(s, t) {
      ApplyDaemon(env, CancelTimer(s, t), o);
      assert CommitStep(env, s, t, o) == CommitHandler(env, CancelTimer(s, t), o);
    }
  }

  lemma CommitTimeoutDaemon(env: Env, s: State, t: Token, seconds: nat, o: Outcomes)
    requires DaemonAgrees(env, s) && s.up
    ensures DaemonAgrees(env, Step(env, s, CommitTimeout(t, seconds, o)))
            <==> DaemonKept(env, s, CommitTimeout(t, seconds, o))
  {
    hide ApplyConfig;
    var gated := SetActive(s, t).0;
    if seconds <= SESSION_TIMEOUT && SetActive(s, t).1 {
      ApplyDaemon(env, CancelTimer(gated, t), o);
      assert CommitTimeoutStep(env, s, t, seconds, o) == CommitAndArm(env, gated, t, seconds, o);
    }
  }

  lemma ConfirmDaemon(env: Env, s: State, t: Token, o: Outcomes)
    requires DaemonAgrees(env, s) && s.up
    ensures DaemonAgrees(env, Step(env, s, Confirm(t, o))) <==> DaemonKept(env, s, Confirm(t, o))
  {
    assert CheckActive(s, t) ==> ConfirmStep(s, t, o) == ConfirmHandler(CancelTimer(s, t), t, o);
  }

  lemma CancelDaemon(env: Env, s: State, t: Token, o: Outcomes)
    requires DaemonAgrees(env, s) && s.up
    ensures DaemonAgrees(env, Step(env, s, Cancel(t, o))) <==> DaemonKept(env, s, Cancel(t, o))
  {
    assert CheckActive(s, t) ==> CancelStep(env, s, t, o) == CancelHandler(env, CancelTimer(s, t), t, o);
  }

  lemma DropDaemon(env: Env, s: State, e: Event)
    requires DaemonAgrees(env, s) && s.up && (e.Discard? || e.ExpireSession? || e.FireTimer?)
    ensures DaemonAgrees(env, Step(env, s, e)) <==> DaemonKept(env, s, e)
  {
    hide Step, Discards;
    if Drops(s, e) {
      DroppedIsRolledBack(env, s, e);
    } else {
      NothingToDrop(env, s, e);
    }
  }

  ghost predicate AllKeepDaemon(env: Env, s: State, events: seq<Event>)
    decreases |events|
  {
    events != [] ==> DaemonKept(env, s, events[0]) && AllKeepDaemon(env, Step(env, s, events[0]), events[1..])
  }

  lemma {:induction false} DaemonAgreementOverRuns(env: Env, s: State, events: seq<Event>)
    requires DaemonAgrees(env, s) && AllKeepDaemon(env, s, events)
    ensures DaemonAgrees(env, Run(env, s, events))
    decreases |events|
  {
    hide Step, DaemonAgrees, DaemonKept;
    if events != [] {
      DaemonAgreementStepExactly(env, s, events[0]);
      DaemonAgreementOverRuns(env, Step(env, s, events[0]), events[1..]);
    }
  }
}
