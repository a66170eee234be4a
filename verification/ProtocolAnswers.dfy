/**
 What the answer to a request says: exactly when it is OK, and what each failure has left behind
 in the candidate, the files and the daemon.
 */
module ProtocolAnswers {
  import opened Options
  import opened Protocol
  import opened ProtocolSafety
  import opened ProtocolTarget
  import opened ProtocolDaemon

  /** The token holds a lease and nobody else is active: the gate of update and commit/timeout. */
  predicate MayBecomeActive(s: State, t: Token) {
    t in s.leased && (s.active == None || s.active == Some(t))
  }

  /** The gate renews the lease of every known token, even of one it turns away. */
  ghost predicate Renewed(s: State, s': State, t: Token) {
    && s'.leased.Keys == s.leased.Keys
    && (forall u :: u in s.leased ==> s'.leased[u] == if u == t then s.now else s.leased[u])
    && s'.active == if MayBecomeActive(s, t) then Some(t) else s.active
  }

  /** Files, daemon, candidate and waiting owner are as they were. */
  ghost predicate Untouched(s: State, s': State) {
    && s'.up == s.up && SameRunning(s, s') && s'.candidate == s.candidate && s'.waiting == s.waiting
    && s'.target == s.target && s'.daemon == s.daemon
  }

  /** The target file after a failed check or load: the running config when it converts and can be saved. */
  ghost predicate RestoredOr(env: Env, s: State, s': State, o: Outcomes, c: Config) {
    if env.convert(s.running).Some? && o.restored then TargetIs(env, s', s.running) else TargetIs(env, s', c)
  }

  // ---------- Update ----------

  lemma UpdateAnswer(env: Env, s: State, t: Token, patch: Patch, o: Outcomes)
    requires s.up
    ensures var s', reply := UpdateStep(env, s, t, patch, o).0, UpdateStep(env, s, t, patch, o).1;
            var c := ApplyPatch(env, s.running, patch).1;
            && Renewed(s, s', t) && s'.timers == s.timers && s'.now == s.now
            && SameRunning(s, s') && s'.waiting == s.waiting && s'.daemon == s.daemon && s'.up
            && (reply == Refused <==> !MayBecomeActive(s, t))
            && (reply == Ok <==> MayBecomeActive(s, t) && s.candidate.None? && ApplyPatch(env, s.running, patch).0
                                 && env.valid(c) && env.convert(c).Some? && o.targetSaved && o.daemonOk)
            && (reply == Ok ==> s'.candidate == Some(c) && TargetIs(env, s', c))
            && (!MayBecomeActive(s, t) || s.candidate.Some? ==> Untouched(s, s'))
  {
    hide UpdateHandler, ApplyPatch;
    var (gated, ok) := SetActive(s, t);
    UpdateOk(env, gated, patch, o);
    assert UpdateStep(env, s, t, patch, o) == if ok then UpdateHandler(env, gated, patch, o) else (gated, Refused);
  }

  lemma UpdateOk(env: Env, s: State, patch: Patch, o: Outcomes)
    ensures var (s', reply) := UpdateHandler(env, s, patch, o);
            var c := ApplyPatch(env, s.running, patch).1;
            && reply != Refused
            && (reply == Ok <==> s.candidate.None? && ApplyPatch(env, s.running, patch).0
                                 && env.valid(c) && env.convert(c).Some? && o.targetSaved && o.daemonOk)
            && (reply == Ok ==> s'.candidate == Some(c) && TargetIs(env, s', c))
  {
    hide ApplyPatch;
  }

  /** A failed update leaves no candidate, except a half-patched one, or one whose way back throws. */
  lemma FailedUpdate(env: Env, s: State, t: Token, patch: Patch, o: Outcomes)
    requires s.up && MayBecomeActive(s, t) && s.candidate.None?
    ensures var s', reply := UpdateStep(env, s, t, patch, o).0, UpdateStep(env, s, t, patch, o).1;
            var (applied, c) := ApplyPatch(env, s.running, patch);
            var checked := applied && env.valid(c) && env.convert(c).Some? && o.targetSaved;
            && (reply == Thrown <==> checked && !o.daemonOk && env.convert(s.running).None?)
            && (s'.candidate.Some? <==> !applied || reply == Ok || reply == Thrown)
            && (s'.candidate.Some? ==> s'.candidate == Some(c))
            && (!checked ==> s'.target == s.target)
            && (checked && !o.daemonOk ==> RestoredOr(env, s, s', o, c))
  {
    hide ApplyPatch;
    var gated := SetActive(s, t).0;
    assert UpdateStep(env, s, t, patch, o) == UpdateHandler(env, gated, patch, o);
  }

  // ---------- Commits ----------

  /** The candidate can be converted, saved as the target file and loaded. */
  predicate Applies(env: Env, s: State, o: Outcomes) {
    s.candidate.Some? && env.convert(s.candidate.value).Some? && o.targetSaved && o.daemonOk
  }

  /** What both commits have left when the candidate could not be applied. */
  ghost predicate NotApplied(env: Env, s: State, s': State, o: Outcomes, reply: Reply) {
    && SameRunning(s, s') && s'.candidate == s.candidate && s'.waiting == s.waiting
    && (if LoadFails(env, s, o) then
          && s'.daemon == o.daemonLeft && RestoredOr(env, s, s', o, s.candidate.value)
          && reply == if env.convert(s.running).Some? then Failed else Thrown
        else s'.target == s.target && s'.daemon == s.daemon && reply == Failed)
  }

  lemma ApplyAnswer(env: Env, s: State, o: Outcomes)
    ensures var (s', reply) := ApplyConfig(env, s, o);
            && (reply == Ok <==> Applies(env, s, o))
            && (reply == Ok ==> TargetIs(env, s', s.candidate.value) && DaemonRuns(env, s', s.candidate.value))
            && (reply != Ok ==> NotApplied(env, s, s', o, reply))
  {
  }

  lemma CommitAnswer(env: Env, s: State, t: Token, o: Outcomes)
    requires s.up
    ensures var s', reply := CommitStep(env, s, t, o).0, CommitStep(env, s, t, o).1;
            && s'.leased == s.leased && s'.active == s.active && s'.now == s.now && s'.up
            && s'.waiting == s.waiting
            && (reply == Refused <==> !CheckActive(s, t)) && (reply == Refused ==> s' == s)
            && (reply == Ok <==> CheckActive(s, t) && Applies(env, s, o) && o.runningSaved && o.runningLoaded)
            && (CheckActive(s, t) && !Applies(env, s, o) ==> NotApplied(env, s, s', o, reply))
            && (CheckActive(s, t) && Applies(env, s, o) ==>
                  && TargetIs(env, s', s.candidate.value) && DaemonRuns(env, s', s.candidate.value)
                  && Installed(s, s', o, reply))
  {
    hide ApplyConfig;
    if CheckActive(s, t) {
      var cancelled := CancelTimer(s, t);
      ApplyAnswer(env, cancelled, o);
      assert CommitStep(env, s, t, o) == CommitHandler(env, cancelled, o);
    }
  }

  /** The candidate goes into the running file and from there into the running config; only then is it dropped. */
  ghost predicate Installed(s: State, s': State, o: Outcomes, reply: Reply)
    requires s.candidate.Some?
  {
    && s'.runningFile == (if o.runningSaved then s.candidate.value else s.runningFile)
    && s'.running == (if o.runningSaved && o.runningLoaded then s.candidate.value else s.running)
    && s'.candidate == (if o.runningSaved && o.runningLoaded then None else s.candidate)
    && reply == if o.runningSaved && o.runningLoaded then Ok else Failed
  }

  lemma CommitTimeoutAnswer(env: Env, s: State, t: Token, seconds: nat, o: Outcomes)
    requires s.up
    ensures var s', reply := CommitTimeoutStep(env, s, t, seconds, o).0, CommitTimeoutStep(env, s, t, seconds, o).1;
            && (if seconds <= SESSION_TIMEOUT then Renewed(s, s', t) else s' == s) && s'.now == s.now && s'.up
            && (reply == Refused <==> seconds > SESSION_TIMEOUT || !MayBecomeActive(s, t))
            && (reply == Refused ==> Untouched(s, s') && s'.timers == s.timers)
            && (reply == Ok <==> seconds <= SESSION_TIMEOUT && MayBecomeActive(s, t) && Applies(env, s, o))
            && (reply == Ok ==> SameRunning(s, s') && s'.candidate == s.candidate && s'.waiting == Some(t))
            && (reply != Ok && reply != Refused ==> NotApplied(env, s, s', o, reply))
  {
    hide ApplyConfig;
    var (gated, ok) := SetActive(s, t);
    if seconds <= SESSION_TIMEOUT && ok {
      var cancelled := CancelTimer(gated, t);
      ApplyAnswer(env, cancelled, o);
      assert SameSessions(cancelled, CommitTimeoutHandler(env, cancelled, t, o).0);
    }
  }

  /** The timers after a commit/timeout; an exception in the handler keeps the request from setting one. */
  lemma CommitTimeoutTimers(env: Env, s: State, t: Token, seconds: nat, o: Outcomes)
    requires s.up && CommitTimeoutStep(env, s, t, seconds, o).1 != Refused
    ensures var s', reply := CommitTimeoutStep(env, s, t, seconds, o).0, CommitTimeoutStep(env, s, t, seconds, o).1;
            && s'.timers.Keys == s.timers.Keys + (if reply == Thrown then {} else {t})
            && (forall u :: u in s.timers && u != t ==> s'.timers[u] == s.timers[u])
            && (t in s.timers ==> s'.timers[t] == Timer(s.timers[t].startAt, s.timers[t].timeout, true))
            && (t !in s.timers && reply != Thrown ==> s'.timers[t] == Timer(s.now, seconds, false))
  {
    hide CommitTimeoutHandler;
    var cancelled := CancelTimer(SetActive(s, t).0, t);
    assert SameSessions(cancelled, CommitTimeoutHandler(env, cancelled, t, o).0);
  }

  // ---------- Confirm and cancel ----------

  lemma ConfirmAnswer(env: Env, s: State, t: Token, o: Outcomes)
    requires s.up
    ensures var s', reply := ConfirmStep(s, t, o).0, ConfirmStep(s, t, o).1;
            && s'.leased == s.leased && s'.active == s.active && s'.now == s.now
            && s'.waiting == s.waiting && s'.target == s.target && s'.daemon == s.daemon
            && (reply == Refused <==> !CheckActive(s, t)) && (reply == Refused ==> s' == s)
            && (CheckActive(s, t) && s.waiting != Some(t) ==> reply == Failed && Untouched(s, s'))
            && (CheckActive(s, t) && s.waiting == Some(t) && s.candidate.None? ==>
                  reply == Thrown && !s'.up && SameRunning(s, s') && s'.candidate == None)
            && (CheckActive(s, t) && s.waiting == Some(t) && s.candidate.Some? ==> s'.up && Installed(s, s', o, reply))
  {
    if CheckActive(s, t) {
      assert ConfirmStep(s, t, o) == ConfirmHandler(CancelTimer(s, t), t, o);
    }
  }

  /** Cancelling takes the target file back and gives up waiting, but keeps the candidate. */
  lemma CancelAnswer(env: Env, s: State, t: Token, o: Outcomes)
    requires s.up
    ensures var s', reply := CancelStep(env, s, t, o).0, CancelStep(env, s, t, o).1;
            var cancels := CheckActive(s, t) && s.waiting == Some(t) && s.candidate.Some?;
            && s'.leased == s.leased && s'.active == s.active && s'.now == s.now && s'.up
            && SameRunning(s, s') && s'.candidate == s.candidate
            && (reply == Refused <==> !CheckActive(s, t)) && (reply == Refused ==> s' == s)
            && (!cancels ==> Untouched(s, s'))
            && (CheckActive(s, t) && !cancels ==> reply == if s.waiting == Some(t) then Ok else Failed)
            && (cancels ==>
                  && (reply == Thrown <==> env.convert(s.running).None?)
                  && (reply == Ok <==> env.convert(s.running).Some? && o.restored && o.daemonOk)
                  && (s'.waiting == if reply == Ok then None else s.waiting)
                  && (if env.convert(s.running).Some? && o.restored then
                        TargetIs(env, s', s.running) && s'.daemon == o.daemonLeft
                      else s'.target == s.target && s'.daemon == s.daemon))
  {
    if CheckActive(s, t) {
      assert CancelStep(env, s, t, o) == CancelHandler(env, CancelTimer(s, t), t, o);
    }
  }
}
