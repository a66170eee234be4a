/**
 The candidate / commit-confirm protocol as a state machine.

 One step is one whole request handler, the expiry of one session, the firing of one
 commit timer, the removal of one stopped timer, or the passing of time.  Storage, validator
 and daemon answers arrive with the step as `Outcomes`, so every statement about runs
 covers every combination of failures.
 */
module Protocol {
  import opened Options

  /** JSON documents, single RFC 6902 operations and target-format texts are left abstract. */
  type Config(==, !new)
  type Op(!new)
  type Text(==, !new)

  type Token = string

  /** The three library services the handlers call; all are functions of their input. */
  datatype Env = Env(
    apply: (Config, Op) -> Option<Config>,   // one patch operation; None when it throws
    valid: Config -> bool,                   // schema validation
    convert: Config -> Option<Text>)         // conversion into the daemon's format

  /** The body of a PATCH request: unparsable, or a list of operations. */
  datatype Patch = Malformed | Operations(ops: seq<Op>)

  const TICKS_PER_SECOND: nat := 1_000_000_000
  const SESSION_TIMEOUT: nat := 720

  datatype Timer = Timer(startAt: nat, timeout: nat, quit: bool)

  datatype State = State(
    up: bool,                   // false once the process has been terminated
    running: Config,
    runningFile: Config,
    candidate: Option<Config>,
    waiting: Option<Token>,     // owner of a pending commit-confirm
    target: Text,               // contents of the target file
    daemon: Text,               // what the routing daemon runs
    leased: map<Token, nat>,    // token -> time of its last request
    active: Option<Token>,
    timers: map<Token, Timer>,
    now: nat)

  /** What the storages and the daemon answer during one step. */
  datatype Outcomes = Outcomes(
    targetSaved: bool,
    daemonOk: bool,        // Validate, Load or Rollback
    daemonLeft: Text,      // what the daemon runs after a failed load or an undo
    restored: bool,        // saving the running config back into the target file
    runningSaved: bool,
    runningLoaded: bool)

  datatype Reply = Ok | Refused | Failed | Thrown

  // ---------- JsonConfigManager ----------

  /** patch_inplace: operations are applied in order and the first failing one stops it. */
  function ApplyOps(env: Env, c: Config, ops: seq<Op>): (bool, Config) {
    if ops == [] then (true, c) else
      match env.apply(c, ops[0])
      case None => (false, c)
      case Some(d) => ApplyOps(env, d, ops[1..])
  }

  function ApplyPatch(env: Env, c: Config, patch: Patch): (bool, Config) {
    match patch
    case Malformed => (false, c)
    case Operations(ops) => ApplyOps(env, c, ops)
  }

  // ---------- Request handlers ----------

  /** The session table, the timers and the clock are none of the handlers' business. */
  predicate SameSessions(s: State, r: State) {
    r.leased == s.leased && r.active == s.active && r.timers == s.timers && r.now == s.now
  }

  predicate SameRunning(s: State, r: State) {
    r.running == s.running && r.runningFile == s.runningFile
  }

  /** Converts the running config and saves it as the target file; None when Convert has no value. */
  function RestoreTarget(env: Env, s: State, o: Outcomes): Option<State> {
    match env.convert(s.running)
    case None => None
    case Some(text) => Some(if o.restored then s.(target := text) else s)
  }

  function UpdateHandler(env: Env, s: State, patch: Patch, o: Outcomes): (r: (State, Reply))
    ensures SameSessions(s, r.0) && SameRunning(s, r.0) && r.0.waiting == s.waiting && r.0.daemon == s.daemon
    ensures r.0.up == s.up && (s.candidate.Some? ==> r.0 == s)
  {
    if s.candidate.Some? then (s, Failed) else
    var (applied, c) := ApplyPatch(env, s.running, patch);
    var patched := s.(candidate := Some(c));
    if !applied then (patched, Failed) else AcceptCandidate(env, patched, o)
  }

  /** Validates the new candidate, writes it into the target file and has it checked; dropped when that fails. */
  function AcceptCandidate(env: Env, s: State, o: Outcomes): (r: (State, Reply))
    requires s.candidate.Some?
    ensures SameSessions(s, r.0) && SameRunning(s, r.0) && r.0.waiting == s.waiting && r.0.daemon == s.daemon
    ensures r.0.up == s.up && (r.0.candidate == s.candidate || r.0.candidate == None)
  {
    var c, dropped := s.candidate.value, s.(candidate := None);
    if !env.valid(c) then (dropped, Failed) else
    match env.convert(c)
    case None => (dropped, Failed)
    case Some(text) =>
      if !o.targetSaved then (dropped, Failed) else
      var written := s.(target := text);
      if o.daemonOk then (written, Ok) else
      match RestoreTarget(env, written, o)
      case None => (written, Thrown)
      case Some(restored) => (restored.(candidate := None), Failed)
  }

  /** Writes the candidate into the target file and makes the daemon load it. */
  function ApplyConfig(env: Env, s: State, o: Outcomes): (r: (State, Reply))
    ensures SameSessions(s, r.0) && SameRunning(s, r.0) && r.0.waiting == s.waiting && r.0.candidate == s.candidate
    ensures r.0.up == s.up && (s.candidate.None? ==> r == (s, Failed))
  {
    if s.candidate.None? then (s, Failed) else
    match env.convert(s.candidate.value)
    case None => (s, Failed)
    case Some(text) =>
      if !o.targetSaved then (s, Failed) else
      var written := s.(target := text);
      if o.daemonOk then (written.(daemon := text), Ok) else
      var left := written.(daemon := o.daemonLeft);
      match RestoreTarget(env, left, o)
      case None => (left, Thrown)
      case Some(restored) => (restored, Failed)
  }

  /** Saves the candidate as the running file, reloads the running config and drops the candidate. */
  function Install(s: State, o: Outcomes): (r: (State, Reply))
    requires s.candidate.Some?
    ensures SameSessions(s, r.0) && r.0.waiting == s.waiting && r.0.target == s.target
            && r.0.daemon == s.daemon && r.0.up == s.up
    ensures r.1 == Ok ==> r.0.running == s.candidate.value == r.0.runningFile && r.0.candidate == None
    ensures r.1 != Ok ==> r.1 == Failed && r.0.running == s.running && r.0.candidate == s.candidate
  {
    if !o.runningSaved then (s, Failed) else
    var saved := s.(runningFile := s.candidate.value);
    if !o.runningLoaded then (saved, Failed) else
    (saved.(running := saved.runningFile, candidate := None), Ok)
  }

  function CommitHandler(env: Env, s: State, o: Outcomes): (r: (State, Reply))
    ensures SameSessions(s, r.0) && r.0.waiting == s.waiting && r.0.up == s.up
  {
    var (applied, reply) := ApplyConfig(env, s, o);
    if reply != Ok then (applied, reply) else Install(applied, o)
  }

  function CommitTimeoutHandler(env: Env, s: State, t: Token, o: Outcomes): (r: (State, Reply))
    ensures SameSessions(s, r.0) && SameRunning(s, r.0) && r.0.candidate == s.candidate && r.0.up == s.up
  {
    var (applied, reply) := ApplyConfig(env, s, o);
    if reply != Ok then (applied, reply) else (applied.(waiting := Some(t)), Ok)
  }

  /** The source dereferences the candidate without a test: a missing one takes the process down. */
  function ConfirmHandler(s: State, t: Token, o: Outcomes): (r: (State, Reply))
    ensures SameSessions(s, r.0) && r.0.waiting == s.waiting && r.0.target == s.target && r.0.daemon == s.daemon
  {
    if s.waiting != Some(t) then (s, Failed) else
    if s.candidate.None? then (s.(up := false), Thrown) else
    Install(s, o)
  }

  function CancelHandler(env: Env, s: State, t: Token, o: Outcomes): (r: (State, Reply))
    ensures SameSessions(s, r.0) && SameRunning(s, r.0) && r.0.candidate == s.candidate && r.0.up == s.up
  {
    if s.waiting != Some(t) then (s, Failed) else
    if s.candidate.None? then (s, Ok) else
    match RestoreTarget(env, s, o)
    case None => (s, Thrown)
    case Some(restored) =>
      if !o.restored then (restored, Failed) else
      var undone := restored.(daemon := o.daemonLeft);
      if !o.daemonOk then (undone, Failed) else (undone.(waiting := None), Ok)
  }

  /** DELETE of the candidate; the clean-up runs on every way out once there is a candidate. */
  function DiscardHandler(env: Env, s: State, t: Token, o: Outcomes): (r: (State, Reply))
    ensures SameSessions(s, r.0) && SameRunning(s, r.0) && r.0.up == s.up
    ensures r.0.candidate == s.candidate || (r.0.candidate == None && r.0.waiting == None)
  {
    if s.waiting.Some? && s.waiting != Some(t) then (s, Ok) else
    if s.candidate.None? then (s, Ok) else
    var cleared := s.(candidate := None, waiting := None);
    match RestoreTarget(env, cleared, o)
    case None => (cleared, Thrown)
    case Some(restored) =>
      if !o.restored then (restored, Failed) else
      if o.daemonOk then (restored.(daemon := restored.target), Ok)
      else (restored.(daemon := o.daemonLeft), Failed)
  }

  // ---------- Session table ----------

  function CheckSession(s: State, t: Token): (State, bool) {
    if t in s.leased then (s.(leased := s.leased[t := s.now]), true) else (s, false)
  }

  function SetActive(s: State, t: Token): (State, bool) {
    var (checked, ok) := CheckSession(s, t);
    if !ok then (checked, false) else
    if checked.active.Some? && checked.active != Some(t) then (checked, false) else
    (checked.(active := Some(t)), true)
  }

  predicate CheckActive(s: State, t: Token) {
    t in s.leased && s.active == Some(t)
  }

  function RemoveSession(s: State, t: Token): State {
    if t !in s.leased then s else
    s.(leased := s.leased - {t}, active := if s.active == Some(t) then None else s.active)
  }

  function RemoveActive(s: State, t: Token): State {
    if s.active == Some(t) then s.(active := None) else s
  }

  function CancelTimer(s: State, t: Token): State {
    if t in s.leased && t in s.timers then s.(timers := s.timers[t := s.timers[t].(quit := true)]) else s
  }

  /** A slot that is still occupied, even by a cancelled timer, is left as it is. */
  function SetTimer(s: State, t: Token, seconds: nat): State {
    if t in s.leased && t !in s.timers then s.(timers := s.timers[t := Timer(s.now, seconds, false)]) else s
  }

  predicate SessionOverdue(s: State, t: Token) {
    t in s.leased && (s.now - s.leased[t]) / TICKS_PER_SECOND > SESSION_TIMEOUT
  }

  predicate TimerDue(s: State, t: Token) {
    t in s.timers && !s.timers[t].quit && (s.now - s.timers[t].startAt) / TICKS_PER_SECOND > s.timers[t].timeout
  }

  predicate TimerStopped(s: State, t: Token) {
    t in s.timers && s.timers[t].quit
  }

  // ---------- Steps ----------

  datatype Event =
    | Advance(ticks: nat)
    | Register(t: Token)
    | Unregister(t: Token)
    | Update(t: Token, patch: Patch, o: Outcomes)
    | ReadCandidate(t: Token)
    | Commit(t: Token, o: Outcomes)
    | CommitTimeout(t: Token, seconds: nat, o: Outcomes)
    | Confirm(t: Token, o: Outcomes)
    | Cancel(t: Token, o: Outcomes)
    | Discard(t: Token, o: Outcomes)
    | ExpireSession(t: Token, o: Outcomes)
    | FireTimer(t: Token, o: Outcomes)
    | DropTimer(t: Token)

  function RegisterStep(s: State, t: Token): State {
    if t in s.leased then s else s.(leased := s.leased[t := s.now])
  }

  function UpdateStep(env: Env, s: State, t: Token, patch: Patch, o: Outcomes): (State, Reply) {
    var (gated, ok) := SetActive(s, t);
    if !ok then (gated, Refused) else UpdateHandler(env, gated, patch, o)
  }

  function CommitStep(env: Env, s: State, t: Token, o: Outcomes): (State, Reply) {
    if !CheckActive(s, t) then (s, Refused) else CommitHandler(env, CancelTimer(s, t), o)
  }

  function CommitTimeoutStep(env: Env, s: State, t: Token, seconds: nat, o: Outcomes): (State, Reply) {
    if seconds > SESSION_TIMEOUT then (s, Refused) else
    var (gated, ok) := SetActive(s, t);
    if !ok then (gated, Refused) else CommitAndArm(env, gated, t, seconds, o)
  }

  /** The timer is set whether or not the handler succeeded. */
  function CommitAndArm(env: Env, s: State, t: Token, seconds: nat, o: Outcomes): (State, Reply) {
    var (handled, reply) := CommitTimeoutHandler(env, CancelTimer(s, t), t, o);
    (if reply == Thrown then handled else SetTimer(handled, t, seconds), reply)
  }

  function ConfirmStep(s: State, t: Token, o: Outcomes): (State, Reply) {
    if !CheckActive(s, t) then (s, Refused) else ConfirmHandler(CancelTimer(s, t), t, o)
  }

  function CancelStep(env: Env, s: State, t: Token, o: Outcomes): (State, Reply) {
    if !CheckActive(s, t) then (s, Refused) else CancelHandler(env, CancelTimer(s, t), t, o)
  }

  function DiscardStep(env: Env, s: State, t: Token, o: Outcomes): (State, Reply) {
    if !CheckActive(s, t) then (s, Refused) else DiscardHandler(env, CancelTimer(s, t), t, o)
  }

  /** Session expiry: the time-out callback, then the lease is erased.  An exception ends the process. */
  function ExpireSessionStep(env: Env, s: State, t: Token, o: Outcomes): State {
    var (discarded, reply) := DiscardHandler(env, RemoveSession(s, t), t, o);
    if reply == Thrown then discarded.(up := false) else
    discarded.(leased := discarded.leased - {t})
  }

  /** A due commit timer: discard, give up the active role, erase the timer. */
  function FireTimerStep(env: Env, s: State, t: Token, o: Outcomes): State {
    if t !in s.timers then s else
    var (discarded, reply) := DiscardHandler(env, s, t, o);
    if reply == Thrown then discarded.(up := false) else
    var inactive := RemoveActive(discarded, t);
    inactive.(timers := inactive.timers - {t})
  }

  function Step(env: Env, s: State, e: Event): State {
    if !s.up then s else
      match e
      case Advance(ticks) => s.(now := s.now + ticks)
      case Register(t) => RegisterStep(s, t)
      case Unregister(t) => RemoveSession(s, t)
      case Update(t, patch, o) => UpdateStep(env, s, t, patch, o).0
      case ReadCandidate(t) => s
      case Commit(t, o) => CommitStep(env, s, t, o).0
      case CommitTimeout(t, seconds, o) => CommitTimeoutStep(env, s, t, seconds, o).0
      case Confirm(t, o) => ConfirmStep(s, t, o).0
      case Cancel(t, o) => CancelStep(env, s, t, o).0
      case Discard(t, o) => DiscardStep(env, s, t, o).0
      case ExpireSession(t, o) => ExpireSessionStep(env, s, t, o)
      case FireTimer(t, o) => FireTimerStep(env, s, t, o)
      case DropTimer(t) => if TimerStopped(s, t) then s.(timers := s.timers - {t}) else s
  }

  function Run(env: Env, s: State, events: seq<Event>): State
    decreases |events|
  {
    if events == [] then s else Run(env, Step(env, s, events[0]), events[1..])
  }

  /** The server as it starts to listen: the startup config is running, valid in the target file, nobody is leased. */
  predicate Initial(env: Env, s: State) {
    && s.up
    && s.runningFile == s.running
    && s.candidate == None && s.waiting == None
    && env.convert(s.running) == Some(s.target)
    && s.leased == map[] && s.active == None && s.timers == map[]
  }
}
