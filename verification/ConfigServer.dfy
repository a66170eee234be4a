/**
 The server's objects, updated in place: storages, config managers, the session table and
 the shared candidate.  Every request method is proved to take exactly the step of
 the state machine in `Protocol`, so the theorems about runs hold for these objects.
 */
module ConfigServer {
  import opened Options
  import opened Protocol
  import opened ProtocolTimers

  /** A file that a save either replaces as a whole or leaves alone. */
  class FileStorage<D> {
    var data: D

    constructor (data: D)
      ensures this.data == data
    {
      this.data := data;
    }

    method SaveData(d: D, written: bool) returns (ok: bool)
      modifies this
      ensures ok == written && data == if written then d else old(data)
    {
      if written {
        data := d;
      }
      ok := written;
    }

    method LoadData(readable: bool) returns (r: Option<D>)
      ensures r == if readable then Some(data) else None
    {
      r := if readable then Some(data) else None;
    }
  }

  class JsonConfigManager {
    var config: Config
    var loaded: bool
    const storage: FileStorage<Config>

    constructor (startup: Config, storage: FileStorage<Config>)
      ensures config == startup && loaded && this.storage == storage
    {
      config, loaded, this.storage := startup, true, storage;
    }

    /** The copy owns its document and shares the storage. */
    constructor Copy(other: JsonConfigManager)
      ensures config == other.config && loaded == other.loaded && storage == other.storage
    {
      config, loaded, storage := other.config, other.loaded, other.storage;
    }

    method LoadConfig(readable: bool) returns (ok: bool)
      modifies this
      ensures ok == readable
      ensures config == if readable then storage.data else old(config)
      ensures loaded == (readable || old(loaded))
    {
      var contents := storage.LoadData(readable);
      match contents
      case None => ok := false;
      case Some(c) =>
        config, loaded := c, true;
        ok := true;
    }

    method SerializeConfig() returns (r: Option<Config>)
      ensures r.Some? <==> loaded
      ensures r.Some? ==> r.value == config
    {
      r := if loaded then Some(config) else None;
    }

    method ApplyPatch(env: Env, patch: Patch) returns (ok: bool)
      modifies this`config
      ensures (ok, config) == Protocol.ApplyPatch(env, old(config), patch)
    {
      match patch
      case Malformed => ok := false;
      case Operations(ops) =>
        var i := 0;
        while i < |ops|
          invariant 0 <= i <= |ops|
          invariant ApplyOps(env, config, ops[i..]) == ApplyOps(env, old(config), ops)
        {
          match env.apply(config, ops[i]) {
            case None => return false;
            case Some(d) => config := d;
          }
          assert ops[i..][1..] == ops[i + 1..];
          i := i + 1;
        }
        ok := true;
    }
  }

  /**
   What the update handler relies on: a copy is patched and serialized without the original
   document or the stored one changing, and what is serialized is the patched original.
   */
  method SerializePatchedCopy(env: Env, original: JsonConfigManager, patch: Patch)
    returns (applied: bool, document: Option<Config>)
    ensures applied == Protocol.ApplyPatch(env, original.config, patch).0
    ensures document.Some? <==> original.loaded
    ensures document.Some? ==> document.value == Protocol.ApplyPatch(env, original.config, patch).1
  {
    var copy := new JsonConfigManager.Copy(original);
    applied := copy.ApplyPatch(env, patch);
    document := copy.SerializeConfig();
  }

  class SessionManager {
    var leased: map<Token, nat>
    var active: Option<Token>
    var timers: map<Token, Timer>

    constructor ()
      ensures leased == map[] && active == None && timers == map[]
    {
      leased, active, timers := map[], None, map[];
    }

    method RegisterSessionToken(t: Token, now: nat) returns (ok: bool)
      modifies this
      ensures ok == (t !in old(leased))
      ensures leased == if t in old(leased) then old(leased) else old(leased)[t := now]
      ensures active == old(active) && timers == old(timers)
    {
      if t in leased {
        return false;
      }
      leased := leased[t := now];
      ok := true;
    }

    method CheckSessionToken(t: Token, now: nat) returns (ok: bool)
      modifies this
      ensures ok == (t in old(leased))
      ensures leased == if t in old(leased) then old(leased)[t := now] else old(leased)
      ensures active == old(active) && timers == old(timers)
    {
      if t !in leased {
        return false;
      }
      leased := leased[t := now];
      ok := true;
    }

    method SetActiveSessionToken(t: Token, now: nat) returns (ok: bool)
      modifies this
      ensures ok == (t in old(leased) && (old(active) == None || old(active) == Some(t)))
      ensures leased == if t in old(leased) then old(leased)[t := now] else old(leased)
      ensures active == (if ok then Some(t) else old(active)) && timers == old(timers)
    {
      ok := CheckSessionToken(t, now);
      if !ok {
        return;
      }
      if active.Some? && active.value != t {
        return false;
      }
      active := Some(t);
    }

    method CheckActiveSessionToken(t: Token) returns (ok: bool)
      ensures ok <==> t in leased && active == Some(t)
    {
      if t !in leased {
        return false;
      }
      ok := active.Some? && active.value == t;
    }

    method RemoveSessionToken(t: Token, now: nat) returns (ok: bool)
      modifies this
      ensures ok == (t in old(leased)) && leased == old(leased) - {t} && timers == old(timers)
      ensures active == if ok && old(active) == Some(t) then None else old(active)
    {
      ok := CheckSessionToken(t, now);
      if ok {
        leased := leased - {t};
        if active.Some? && active.value == t {
          active := None;
        }
      }
    }

    method RemoveActiveSessionToken(t: Token) returns (ok: bool)
      modifies this`active
      ensures active == if old(active) == Some(t) then None else old(active)
      ensures ok == (old(active) == None || old(active) == Some(t))
    {
      if active.None? {
        return true;
      }
      if active.value == t {
        active := None;
        return true;
      }
      ok := false;
    }

    /** The sessions whose last request is too long ago, each once. */
    method CollectExpired(now: nat) returns (expired: seq<Token>)
      ensures forall t :: t in expired <==> t in leased && (now - leased[t]) / TICKS_PER_SECOND > SESSION_TIMEOUT
      ensures forall i, j :: 0 <= i < j < |expired| ==> expired[i] != expired[j]
    {
      expired := [];
      var rest := leased.Keys;
      while rest != {}
        invariant rest <= leased.Keys
        invariant forall t :: t in expired <==>
                    t in leased && t !in rest && (now - leased[t]) / TICKS_PER_SECOND > SESSION_TIMEOUT
        invariant forall i, j :: 0 <= i < j < |expired| ==> expired[i] != expired[j]
        decreases rest
      {
        var t :| t in rest;
        if (now - leased[t]) / TICKS_PER_SECOND > SESSION_TIMEOUT {
          expired := [t] + expired;
        }
        rest := rest - {t};
      }
    }

    /** The cancelled timers and the live ones whose time is up, each once. */
    method CollectTimers(now: nat) returns (stopped: seq<Token>, due: seq<Token>)
      ensures forall t :: t in stopped <==> t in timers && timers[t].quit
      ensures forall t :: t in due <==>
                t in timers && !timers[t].quit && (now - timers[t].startAt) / TICKS_PER_SECOND > timers[t].timeout
      ensures forall i, j :: 0 <= i < j < |stopped| ==> stopped[i] != stopped[j]
      ensures forall i, j :: 0 <= i < j < |due| ==> due[i] != due[j]
    {
      stopped, due := [], [];
      var rest := timers.Keys;
      while rest != {}
        invariant rest <= timers.Keys
        invariant forall t :: t in stopped <==> t in timers && t !in rest && timers[t].quit
        invariant forall t :: t in due <==> t in timers && t !in rest && !timers[t].quit &&
                                            (now - timers[t].startAt) / TICKS_PER_SECOND > timers[t].timeout
        invariant forall i, j :: 0 <= i < j < |stopped| ==> stopped[i] != stopped[j]
        invariant forall i, j :: 0 <= i < j < |due| ==> due[i] != due[j]
        decreases rest
      {
        var t :| t in rest;
        if timers[t].quit {
          stopped := [t] + stopped;
        } else if (now - timers[t].startAt) / TICKS_PER_SECOND > timers[t].timeout {
          due := [t] + due;
        }
        rest := rest - {t};
      }
    }

    /** Reports success for a slot whose timer is only cancelled, although emplace then changes nothing. */
    method SetSessionTokenTimerOnce(t: Token, seconds: nat, now: nat) returns (ok: bool)
      modifies this`timers
      ensures ok <==> t in leased && (t in old(timers) ==> old(timers)[t].quit)
      ensures timers == if t in leased && t !in old(timers) then old(timers)[t := Timer(now, seconds, false)]
              else old(timers)
    {
      if t !in leased {
        return false;
      }
      if t in timers && !timers[t].quit {
        return false;
      }
      if t !in timers {
        timers := timers[t := Timer(now, seconds, false)];
      }
      ok := true;
    }

    method CancelSessionTokenTimerOnce(t: Token) returns (ok: bool)
      modifies this`timers
      ensures ok == (t in leased && t in old(timers))
      ensures timers == if ok then old(timers)[t := old(timers)[t].(quit := true)] else old(timers)
    {
      if t !in leased || t !in timers {
        return false;
      }
      timers := timers[t := timers[t].(quit := true)];
      ok := true;
    }
  }

  class Server {
    const env: Env
    const sessions: SessionManager
    const running: JsonConfigManager
    const runningStorage: FileStorage<Config>
    const targetStorage: FileStorage<Text>
    var candidate: JsonConfigManager?
    var waiting: Option<Token>
    var daemon: Text
    var up: bool
    var now: nat

    ghost function Repr(): set<object>
      reads this
    {
      {this, sessions, running, runningStorage, targetStorage} + if candidate == null then {} else {candidate}
    }

    ghost predicate Valid()
      reads Repr()
    {
      && running.loaded && running.storage == runningStorage && runningStorage as object != targetStorage
      && (candidate != null ==> candidate != running && candidate.loaded && candidate.storage == runningStorage)
    }

    ghost function Snapshot(): State
      reads Repr()
    {
      State(up, running.config, runningStorage.data, if candidate == null then None else Some(candidate.config),
            waiting, targetStorage.data, daemon, sessions.leased, sessions.active, sessions.timers, now)
    }

    constructor (env: Env, startup: Config, target: Text, daemon: Text, now: nat)
      requires env.convert(startup) == Some(target)
      ensures Valid() && fresh(Repr())
      ensures Initial(env, Snapshot()) && Snapshot().running == startup && this.env == env
    {
      var file := new FileStorage<Config>(startup);
      this.env := env;
      this.sessions := new SessionManager();
      this.running := new JsonConfigManager(startup, file);
      this.runningStorage := file;
      this.targetStorage := new FileStorage<Text>(target);
      this.candidate := null;
      this.waiting := None;
      this.daemon := daemon;
      this.up := true;
      this.now := now;
    }

    // ---------- Handlers ----------

    /** Some(saved?) after saving the converted running config into the target file; None on an exception. */
    method RestoreRunning(o: Outcomes) returns (saved: Option<bool>)
      requires Valid()
      modifies targetStorage
      ensures Valid()
      ensures match RestoreTarget(env, old(Snapshot()), o)
              case None => saved == None && Snapshot() == old(Snapshot())
              case Some(s) => saved == Some(o.restored) && Snapshot() == s
    {
      var document := running.SerializeConfig();
      match env.convert(document.value)
      case None => saved := None;
      case Some(text) =>
        var ok := targetStorage.SaveData(text, o.restored);
        saved := Some(ok);
    }

    method OnUpdate(patch: Patch, o: Outcomes) returns (reply: Reply)
      requires Valid()
      modifies Repr()
      ensures Valid() && fresh(Repr() - old(Repr()))
      ensures (Snapshot(), reply) == UpdateHandler(env, old(Snapshot()), patch, o)
    {
      hide Protocol.ApplyPatch, AcceptCandidate;
      if candidate != null {
        return Failed;
      }
      candidate := new JsonConfigManager.Copy(running);
      var applied := candidate.ApplyPatch(env, patch);
      if !applied {
        return Failed;
      }
      reply := Accept(o);
    }

    method Accept(o: Outcomes) returns (reply: Reply)
      requires Valid() && candidate != null
      modifies this`candidate, targetStorage
      ensures Valid() && Repr() <= old(Repr())
      ensures (Snapshot(), reply) == AcceptCandidate(env, old(Snapshot()), o)
    {
      var document := candidate.SerializeConfig();
      if !env.valid(document.value) {
        candidate := null;
        return Failed;
      }
      var text := env.convert(document.value);
      if text.None? {
        candidate := null;
        return Failed;
      }
      var saved := targetStorage.SaveData(text.value, o.targetSaved);
      if !saved {
        candidate := null;
        return Failed;
      }
      if !o.daemonOk {
        var restored := RestoreRunning(o);
        if restored.None? {
          return Thrown;
        }
        candidate := null;
        return Failed;
      }
      reply := Ok;
    }

    method DoApplyConfig(o: Outcomes) returns (reply: Reply)
      requires Valid()
      modifies this`daemon, targetStorage
      ensures Valid()
      ensures (Snapshot(), reply) == ApplyConfig(env, old(Snapshot()), o)
    {
      if candidate == null {
        return Failed;
      }
      var document := candidate.SerializeConfig();
      var text := env.convert(document.value);
      if text.None? {
        return Failed;
      }
      var saved := targetStorage.SaveData(text.value, o.targetSaved);
      if !saved {
        return Failed;
      }
      if !o.daemonOk {
        daemon := o.daemonLeft;
        var restored := RestoreRunning(o);
        return if restored.None? then Thrown else Failed;
      }
      daemon := targetStorage.data;
      reply := Ok;
    }

    method InstallCandidate(o: Outcomes) returns (reply: Reply)
      requires Valid() && candidate != null
      modifies this`candidate, runningStorage, running
      ensures Valid() && Repr() <= old(Repr())
      ensures (Snapshot(), reply) == Install(old(Snapshot()), o)
    {
      var document := candidate.SerializeConfig();
      var saved := runningStorage.SaveData(document.value, o.runningSaved);
      if !saved {
        return Failed;
      }
      var loaded := running.LoadConfig(o.runningLoaded);
      if !loaded {
        return Failed;
      }
      candidate := null;
      reply := Ok;
    }

    method OnCommit(o: Outcomes) returns (reply: Reply)
      requires Valid()
      modifies Repr()
      ensures Valid() && fresh(Repr() - old(Repr()))
      ensures (Snapshot(), reply) == CommitHandler(env, old(Snapshot()), o)
    {
      reply := DoApplyConfig(o);
      if reply == Ok {
        reply := InstallCandidate(o);
      }
    }

    method OnCommitTimeout(t: Token, o: Outcomes) returns (reply: Reply)
      requires Valid()
      modifies Repr()
      ensures Valid() && fresh(Repr() - old(Repr()))
      ensures (Snapshot(), reply) == CommitTimeoutHandler(env, old(Snapshot()), t, o)
    {
      reply := DoApplyConfig(o);
      if reply == Ok {
        waiting := Some(t);
      }
    }

    method OnConfirm(t: Token, o: Outcomes) returns (reply: Reply)
      requires Valid()
      modifies Repr()
      ensures Valid() && fresh(Repr() - old(Repr()))
      ensures (Snapshot(), reply) == ConfirmHandler(old(Snapshot()), t, o)
    {
      if waiting.None? || waiting.value != t {
        return Failed;
      }
      if candidate == null {
        up := false; // null dereference
        return Thrown;
      }
      reply := InstallCandidate(o);
    }

    method OnCancel(t: Token, o: Outcomes) returns (reply: Reply)
      requires Valid()
      modifies Repr()
      ensures Valid() && fresh(Repr() - old(Repr()))
      ensures (Snapshot(), reply) == CancelHandler(env, old(Snapshot()), t, o)
    {
      if waiting.None? || waiting.value != t {
        return Failed;
      }
      if candidate == null {
        return Ok;
      }
      var restored := RestoreRunning(o);
      if restored.None? {
        return Thrown;
      }
      if !restored.value {
        return Failed;
      }
      daemon := o.daemonLeft;
      if !o.daemonOk {
        return Failed;
      }
      waiting := None;
      reply := Ok;
    }

    method OnDiscard(t: Token, o: Outcomes) returns (reply: Reply)
      requires Valid()
      modifies Repr()
      ensures Valid() && fresh(Repr() - old(Repr()))
      ensures (Snapshot(), reply) == DiscardHandler(env, old(Snapshot()), t, o)
    {
      if waiting.Some? && waiting.value != t {
        return Ok;
      }
      if candidate == null {
        return Ok;
      }
      var restored := RestoreRunning(o);
      if restored.None? {
        reply := Thrown;
      } else if !restored.value {
        reply := Failed;
      } else if !o.daemonOk {
        daemon := o.daemonLeft;
        reply := Failed;
      } else {
        daemon := targetStorage.data;
        reply := Ok;
      }
      candidate, waiting := null, None; // the deferred clean-up
    }

    // ---------- Requests ----------

    method CreateToken(t: Token) returns (ok: bool)
      requires Valid() && up
      modifies sessions
      ensures Valid() && Snapshot() == Step(env, old(Snapshot()), Register(t))
    {
      ok := sessions.RegisterSessionToken(t, now);
    }

    method DeleteToken(t: Token) returns (ok: bool)
      requires Valid() && up
      modifies sessions
      ensures Valid() && Snapshot() == Step(env, old(Snapshot()), Unregister(t))
    {
      ok := sessions.RemoveSessionToken(t, now);
    }

    method PatchRunning(t: Token, patch: Patch, o: Outcomes) returns (reply: Reply)
      requires Valid() && up
      modifies Repr()
      ensures Valid() && fresh(Repr() - old(Repr()))
      ensures Snapshot() == Step(env, old(Snapshot()), Update(t, patch, o))
      ensures reply == UpdateStep(env, old(Snapshot()), t, patch, o).1
    {
      hide UpdateHandler, Step;
      StepIsUpdate(env, Snapshot(), t, patch, o);
      var ok := sessions.SetActiveSessionToken(t, now);
      assert Snapshot() == SetActive(old(Snapshot()), t).0;
      if !ok {
        return Refused;
      }
      reply := OnUpdate(patch, o);
    }

    method PostCommit(t: Token, o: Outcomes) returns (reply: Reply)
      requires Valid() && up
      modifies Repr()
      ensures Valid() && fresh(Repr() - old(Repr()))
      ensures Snapshot() == Step(env, old(Snapshot()), Commit(t, o))
      ensures reply == CommitStep(env, old(Snapshot()), t, o).1
    {
      hide CommitHandler;
      var ok := sessions.CheckActiveSessionToken(t);
      if !ok {
        return Refused;
      }
      var _ := sessions.CancelSessionTokenTimerOnce(t);
      assert Snapshot() == CancelTimer(old(Snapshot()), t);
      reply := OnCommit(o);
    }

    method PostCommitTimeout(t: Token, seconds: nat, o: Outcomes) returns (reply: Reply)
      requires Valid() && up
      modifies Repr()
      ensures Valid() && fresh(Repr() - old(Repr()))
      ensures Snapshot() == Step(env, old(Snapshot()), CommitTimeout(t, seconds, o))
      ensures reply == CommitTimeoutStep(env, old(Snapshot()), t, seconds, o).1
    {
      hide CommitAndArm;
      if seconds > SESSION_TIMEOUT {
        return Refused;
      }
      var ok := sessions.SetActiveSessionToken(t, now);
      assert Snapshot() == SetActive(old(Snapshot()), t).0;
      if !ok {
        return Refused;
      }
      reply := CommitThenSetTimer(t, seconds, o);
    }

    method CommitThenSetTimer(t: Token, seconds: nat, o: Outcomes) returns (reply: Reply)
      requires Valid() && up
      modifies Repr()
      ensures Valid() && fresh(Repr() - old(Repr()))
      ensures (Snapshot(), reply) == CommitAndArm(env, old(Snapshot()), t, seconds, o)
    {
      hide CommitTimeoutHandler;
      var _ := sessions.CancelSessionTokenTimerOnce(t);
      assert Snapshot() == CancelTimer(old(Snapshot()), t);
      reply := OnCommitTimeout(t, o);
      ghost var handled := Snapshot();
      if reply != Thrown {
        var _ := sessions.SetSessionTokenTimerOnce(t, seconds, now);
        assert Snapshot() == SetTimer(handled, t, seconds);
      }
    }

    method PostConfirm(t: Token, o: Outcomes) returns (reply: Reply)
      requires Valid() && up
      modifies Repr()
      ensures Valid() && fresh(Repr() - old(Repr()))
      ensures Snapshot() == Step(env, old(Snapshot()), Confirm(t, o))
      ensures reply == ConfirmStep(old(Snapshot()), t, o).1
    {
      hide ConfirmHandler;
      var ok := sessions.CheckActiveSessionToken(t);
      if !ok {
        return Refused;
      }
      var _ := sessions.CancelSessionTokenTimerOnce(t);
      assert Snapshot() == CancelTimer(old(Snapshot()), t);
      reply := OnConfirm(t, o);
    }

    method PostCancel(t: Token, o: Outcomes) returns (reply: Reply)
      requires Valid() && up
      modifies Repr()
      ensures Valid() && fresh(Repr() - old(Repr()))
      ensures Snapshot() == Step(env, old(Snapshot()), Cancel(t, o))
      ensures reply == CancelStep(env, old(Snapshot()), t, o).1
    {
      hide CancelHandler;
      var ok := sessions.CheckActiveSessionToken(t);
      if !ok {
        return Refused;
      }
      var _ := sessions.CancelSessionTokenTimerOnce(t);
      assert Snapshot() == CancelTimer(old(Snapshot()), t);
      reply := OnCancel(t, o);
    }

    method DeleteCandidate(t: Token, o: Outcomes) returns (reply: Reply)
      requires Valid() && up
      modifies Repr()
      ensures Valid() && fresh(Repr() - old(Repr()))
      ensures Snapshot() == Step(env, old(Snapshot()), Discard(t, o))
      ensures reply == DiscardStep(env, old(Snapshot()), t, o).1
    {
      hide DiscardHandler;
      var ok := sessions.CheckActiveSessionToken(t);
      if !ok {
        return Refused;
      }
      var _ := sessions.CancelSessionTokenTimerOnce(t);
      assert Snapshot() == CancelTimer(old(Snapshot()), t);
      reply := OnDiscard(t, o);
    }

    // ---------- The checking thread ----------

    method Expire(t: Token, o: Outcomes)
      requires Valid()
      modifies Repr()
      ensures Valid() && fresh(Repr() - old(Repr()))
      ensures Snapshot() == Step(env, old(Snapshot()), ExpireSession(t, o))
    {
      hide DiscardHandler, RemoveSession, Step;
      StepIsExpiry(env, Snapshot(), t, o);
      if !up {
        return;
      }
      RemoveExpired(t);
      var reply := OnDiscard(t, o);
      EraseLease(t, reply);
    }

    method RemoveExpired(t: Token)
      requires Valid()
      modifies sessions
      ensures Valid() && Repr() == old(Repr()) && Snapshot() == RemoveSession(old(Snapshot()), t)
    {
      var _ := sessions.RemoveSessionToken(t, now);
    }

    /** Nobody catches an exception in this thread. */
    method EraseLease(t: Token, reply: Reply)
      requires Valid()
      modifies this`up, sessions
      ensures Valid() && Repr() == old(Repr())
      ensures var s := old(Snapshot());
              Snapshot() == if reply == Thrown then s.(up := false) else s.(leased := s.leased - {t})
    {
      if reply == Thrown {
        up := false;
      } else {
        sessions.leased := sessions.leased - {t};
      }
    }

    method Fire(t: Token, o: Outcomes)
      requires Valid()
      modifies Repr()
      ensures Valid() && fresh(Repr() - old(Repr()))
      ensures Snapshot() == Step(env, old(Snapshot()), FireTimer(t, o))
    {
      hide DiscardHandler, Step;
      StepIsFiring(env, Snapshot(), t, o);
      if !up || t !in sessions.timers {
        return;
      }
      var reply := OnDiscard(t, o);
      if reply == Thrown {
        up := false;
        return;
      }
      var _ := sessions.RemoveActiveSessionToken(t);
      sessions.timers := sessions.timers - {t};
    }

    method Drop(t: Token)
      requires Valid()
      requires up ==> t in sessions.timers && sessions.timers[t].quit
      modifies Repr()
      ensures Valid() && Repr() == old(Repr())
      ensures Snapshot() == Step(env, old(Snapshot()), DropTimer(t))
    {
      if up {
        sessions.timers := sessions.timers - {t};
      }
    }

    method ExpireAll(expired: seq<Token>, answers: Token -> Outcomes)
      requires Valid()
      modifies Repr()
      ensures Valid() && fresh(Repr() - old(Repr()))
      ensures Snapshot() == Run(env, old(Snapshot()), Expiries(expired, answers))
      ensures sessions.timers == old(sessions.timers) && now == old(now)
    {
      var i := 0;
      while i < |expired|
        invariant 0 <= i <= |expired| && Valid() && fresh(Repr() - old(Repr()))
        invariant Snapshot() == Run(env, old(Snapshot()), Expiries(expired[..i], answers))
        invariant sessions.timers == old(sessions.timers) && now == old(now)
      {
        ghost var before, e := Snapshot(), ExpireSession(expired[i], answers(expired[i]));
        Expire(expired[i], answers(expired[i]));
        ExpiryKeepsTimers(env, before, expired[i], answers(expired[i]));
        RunSnoc(env, old(Snapshot()), Expiries(expired[..i], answers), e);
        assert Expiries(expired[..i + 1], answers) == Expiries(expired[..i], answers) + [e];
        i := i + 1;
      }
      assert expired[..|expired|] == expired;
    }

    method DropAll(stopped: seq<Token>)
      requires Valid()
      requires forall k :: 0 <= k < |stopped| ==> stopped[k] in sessions.timers && sessions.timers[stopped[k]].quit
      requires forall i, j :: 0 <= i < j < |stopped| ==> stopped[i] != stopped[j]
      modifies Repr()
      ensures Valid() && fresh(Repr() - old(Repr()))
      ensures Snapshot() == Run(env, old(Snapshot()), Drops(stopped))
    {
      var i := 0;
      while i < |stopped|
        invariant 0 <= i <= |stopped| && Valid() && fresh(Repr() - old(Repr()))
        invariant Snapshot() == Run(env, old(Snapshot()), Drops(stopped[..i]))
        invariant forall k :: i <= k < |stopped| ==> stopped[k] in sessions.timers && sessions.timers[stopped[k]].quit
      {
        ghost var before := Snapshot();
        Drop(stopped[i]);
        assert Snapshot().timers == if before.up then before.timers - {stopped[i]} else before.timers;
        RunSnoc(env, old(Snapshot()), Drops(stopped[..i]), DropTimer(stopped[i]));
        assert Drops(stopped[..i + 1]) == Drops(stopped[..i]) + [DropTimer(stopped[i])];
        i := i + 1;
      }
      assert stopped[..|stopped|] == stopped;
    }

    method FireAll(due: seq<Token>, answers: Token -> Outcomes)
      requires Valid()
      modifies Repr()
      ensures Valid() && fresh(Repr() - old(Repr()))
      ensures Snapshot() == Run(env, old(Snapshot()), Firings(due, answers))
    {
      var i := 0;
      while i < |due|
        invariant 0 <= i <= |due| && Valid() && fresh(Repr() - old(Repr()))
        invariant Snapshot() == Run(env, old(Snapshot()), Firings(due[..i], answers))
      {
        ghost var e := FireTimer(due[i], answers(due[i]));
        Fire(due[i], answers(due[i]));
        RunSnoc(env, old(Snapshot()), Firings(due[..i], answers), e);
        assert Firings(due[..i + 1], answers) == Firings(due[..i], answers) + [e];
        i := i + 1;
      }
      assert due[..|due|] == due;
    }

    /** One pass of the checking thread, with the daemon's and the storages' answers for each token. */
    method CheckExpirations(sessionAnswers: Token -> Outcomes, timerAnswers: Token -> Outcomes)
      returns (ghost w: Sweep)
      requires Valid() && up
      modifies Repr()
      ensures Valid() && fresh(Repr() - old(Repr()))
      ensures IsSweep(old(Snapshot()), w)
      ensures Snapshot() == Run(env, old(Snapshot()), SweepEvents(w))
    {
      hide Step, Run, Covers;
      ghost var s := Snapshot();
      var expired := sessions.CollectExpired(now);
      ghost var expiries := Expiries(expired, sessionAnswers);
      CollectedCovers(s, Overdue, expired, expiries);
      ExpireAll(expired, sessionAnswers);
      var stopped, due := sessions.CollectTimers(now);
      ghost var drops, firings := Drops(stopped), Firings(due, timerAnswers);
      CollectedCovers(s, Stopped, stopped, drops);
      CollectedCovers(s, Due, due, firings);
      DropAll(stopped);
      FireAll(due, timerAnswers);
      w := Sweep(expiries, drops, firings);
      SweepRunsInThreeParts(env, s, w);
    }
  }

  // ---------- Single steps of the state machine ----------

  lemma StepIsUpdate(env: Env, s: State, t: Token, patch: Patch, o: Outcomes)
    requires s.up
    ensures Step(env, s, Update(t, patch, o)) == UpdateStep(env, s, t, patch, o).0
  {
    hide UpdateStep;
  }

  lemma StepIsExpiry(env: Env, s: State, t: Token, o: Outcomes)
    ensures Step(env, s, ExpireSession(t, o)) == if s.up then ExpireSessionStep(env, s, t, o) else s
  {
    hide ExpireSessionStep;
  }

  lemma StepIsFiring(env: Env, s: State, t: Token, o: Outcomes)
    ensures Step(env, s, FireTimer(t, o)) == if s.up then FireTimerStep(env, s, t, o) else s
  {
    hide FireTimerStep;
  }

  // ---------- From collected tokens to the events of a sweep ----------

  ghost function Expiries(ts: seq<Token>, answers: Token -> Outcomes): seq<Event> {
    seq(|ts|, i requires 0 <= i < |ts| => ExpireSession(ts[i], answers(ts[i])))
  }

  ghost function Drops(ts: seq<Token>): seq<Event> {
    seq(|ts|, i requires 0 <= i < |ts| => DropTimer(ts[i]))
  }

  ghost function Firings(ts: seq<Token>, answers: Token -> Outcomes): seq<Event> {
    seq(|ts|, i requires 0 <= i < |ts| => FireTimer(ts[i], answers(ts[i])))
  }

  lemma {:induction false} RunConcat(env: Env, s: State, a: seq<Event>, b: seq<Event>)
    ensures Run(env, s, a + b) == Run(env, Run(env, s, a), b)
    decreases |a|
  {
    if a == [] {
      assert a + b == b;
    } else {
      assert (a + b)[1..] == a[1..] + b;
      RunConcat(env, Step(env, s, a[0]), a[1..], b);
    }
  }

  lemma SweepRunsInThreeParts(env: Env, s: State, w: Sweep)
    ensures Run(env, s, SweepEvents(w)) == Run(env, Run(env, Run(env, s, w.expiries), w.drops), w.firings)
  {
    RunConcat(env, s, w.expiries + w.drops, w.firings);
    RunConcat(env, s, w.expiries, w.drops);
  }

  lemma RunSnoc(env: Env, s: State, a: seq<Event>, e: Event)
    ensures Run(env, s, a + [e]) == Step(env, Run(env, s, a), e)
  {
    RunConcat(env, s, a, [e]);
    assert Run(env, Run(env, s, a), [e]) == Step(env, Run(env, s, a), e);
  }

  lemma ExpiryKeepsTimers(env: Env, s: State, t: Token, o: Outcomes)
    ensures Step(env, s, ExpireSession(t, o)).timers == s.timers && Step(env, s, ExpireSession(t, o)).now == s.now
  {
    if s.up {
      var removed := RemoveSession(s, t);
      assert SameSessions(removed, DiscardHandler(env, removed, t, o).0);
    }
  }

  lemma CollectedCovers(s: State, pick: Pick, ts: seq<Token>, events: seq<Event>)
    requires |events| == |ts|
    requires forall i :: 0 <= i < |ts| ==> Matches(pick, events[i]) && events[i].t == ts[i]
    requires forall t :: t in ts <==> Picked(s, pick, t)
    requires forall i, j :: 0 <= i < j < |ts| ==> ts[i] != ts[j]
    ensures Covers(s, pick, events)
  {
    forall t | Picked(s, pick, t) ensures exists i :: 0 <= i < |events| && events[i].t == t {
      var i :| 0 <= i < |ts| && ts[i] == t;
      assert events[i].t == t;
    }
  }
}
