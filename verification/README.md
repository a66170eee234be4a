# Verification of the BIRD configuration server

This project models, in Dafny, the parts of the server in which correctness spans several
functions, and proves what they promise.

* **The candidate / commit-confirm protocol.** `Protocol` is the state machine: one step is one
  request handler, one expiry or one firing of a commit timer, and every answer of a storage, the
  validator or the routing daemon is a parameter of the step. `ProtocolSafety`, `ProtocolTarget`,
  `ProtocolDaemon`, `ProtocolTimers` and `ProtocolInstalls` prove statements about every run of it, and
  `ProtocolAnswers` says what each answer to a request means. `ConfigServer` holds
  the objects the server updates in place (storages, config managers, session table, the shared
  candidate) and proves that each request method and each pass of the checking thread takes exactly those steps.
  `SweepInterleaving` goes down to single lock regions for the timer part of a sweep.
* **The policy compiler.** `BirdSource` is the BGP part of a document as the JSON schema shapes it;
  `BirdTarget` is BIRD syntax with its text as tokens; `BirdTranslate` says what becomes of a document,
  or that the conversion fails; `BirdConverter` is the converter itself, with loops, separators,
  the put position that moves back over a comma, and the table of taken names. `BirdParser` reads the
  text back, `BirdMeaning` gives policies and filters a meaning, `BirdReading` joins the two,
  `PrefixBounds` says which routes a prefix entry admits, `BirdAccepted` which documents are converted,
  and `BirdOutput` what becomes of their lists and sessions.
* **The timer service.** `TimerService` (heap with lazily removed timers against a plain map) and
  `TimerInterleaving` (callers and worker between the lock regions).
* **Algorithms of the bundled HTTP library and of the string utilities.** `Multipart`, `Ranges`,
  `Base64`, `ReplaceAll`, and the chunked coding: `Chunked` as a function of the bytes, `ChunkSizes` with
  the spellings of a size, `ChunkedReading` with the form a stream may have, `ChunkedStream` as it runs.
  `Searching`, `Bytes` and `Options` are shared.

## Results about the code that may surprise

Each is a theorem here, with the exact condition where there is one.

* Confirming twice ends the process: confirm drops the candidate but not the waiting owner, and
  dereferences the missing candidate the next time (`ProtocolTarget.SecondConfirmEndsProcess`,
  `ProtocolTarget.ProcessEndsExactlyWhen`).
* A failed patch stays behind as the candidate. While somebody waits for a confirm this breaks the
  agreement of target file and configuration (`ProtocolTarget.FailedPatchKeepsAgreementIff`).
* A commit with a time-out is rolled back at its deadline if and only if the session had no timer at
  all, not even a cancelled one that no sweep had removed; otherwise it stays pending until the
  session ends (`ProtocolTimers.RolledBackExactlyWhenSlotEmpty`, `ProtocolTimers.SessionEndRollsBack`).
* A rollback drops the candidate whatever happens, but the daemon is back on the running config exactly
  when that could be saved and loaded (`ProtocolDaemon.DaemonIsBackExactly`). Exactly which steps take the
  daemon off both the running config and the candidate is `ProtocolDaemon.DaemonAgreementStepExactly`.
* A patch that fails half-way is not validated, and a commit installs it all the same: an install is
  valid exactly when the candidate was accepted by an update or happens to be valid
  (`ProtocolInstalls.InstallIsValidExactly`, `ProtocolInstalls.HalfPatchedBecomesRunning`).
* A confirm loads nothing. An owner who is still waiting from an earlier commit can install a candidate
  that the daemon has never loaded (`ProtocolInstalls.ConfirmDaemonExactly`,
  `ProtocolInstalls.StaleConfirmSkipsDaemon`).
* A timer cancelled after a sweep has collected it is called all the same
  (`SweepInterleaving.LateCancelDoesNotStopCall`). In the timer service a callback may start after
  `Cancel` has returned, exactly when the worker had popped the timer already
  (`TimerInterleaving.StartsAfterCancelExactlyWhenPopped`).
* A printed term keeps its meaning exactly under `BirdMeaning.Kept`. Conditions on
  large communities and four-byte paths, `net-in`, and edits of extended and large communities never
  reach the output, of a `net-eq` only the first prefix does, and a term none of whose conditions does
  disappears with its actions. For every other accepted term there are a semantics of the atomic
  conditions and a route on which the output differs (`BirdMeaning.OtherTermsDoNot`).
* The text of a configuration can be read back exactly when no printed term removes exactly one
  community given in place: that statement is left unclosed
  (`BirdReading.ReadsBackExactlyWhenReadable`).
* A `default-action` inside a policy, and a `call-next` object as the action of a printed term, make
  the conversion fail (`BirdReading.AcceptedPolicy`).
* The last line of a chunked stream may be missing: a size line of zero and then the end of the input, or
  a line that is too long, is a success (`ChunkedReading.DecodeSucceedsExactly`).
* A suffix range longer than the content is refused (`Ranges.NormalizeMeans`), where section 14.1.2
  of RFC 9110 would serve the whole content.
* Merged ranges are separated, however ranges with the same first position are sorted, exactly when
  every repeated range is overlapped or touched by one that starts before it
  (`Ranges.SeparatedHoweverSorted`); for one arrangement the exact condition is
  `Ranges.MergeSeparatesExactly`.
* Up to the piece that closes a form, the way the bytes are cut does not matter; behind it, it does.
  A closed form is opened again exactly when a later piece makes the buffer start with a line break
  (`Multipart.ReopenedExactly`), although the same bytes in the closing piece are dropped
  (`Multipart.CutBehindClose`, `Multipart.EpilogueMayReopen`).
* A chunked body ends in its terminator exactly when the provider reports once that it is done and writes
  nothing afterwards; an empty write also ends the calls, with success and without a terminator
  (`Chunked.TerminatedExactly`, `Chunked.EmptyWriteEndsWithoutTerminator`).

## Model

| member | source | states |
|---|---|---|
| `ConfigServer.JsonConfigManager.ApplyPatch` | Source/JsonConfigManager.hpp:76-90 | a patch changes the document operation by operation and stops at the first failing one, keeping what was done before it |
| `ConfigServer.JsonConfigManager.LoadConfig` | Source/JsonConfigManager.hpp:19-38 | the document becomes the stored one, or stays when the storage cannot be read |
| `ConfigServer.SerializePatchedCopy` | Source/JsonConfigManager.hpp:17-48 | a copy is patched and serialized to the patched original, while the original document and the stored one stay |
| `ConfigServer.FileStorage.SaveData` | Source/FileStorage.hpp:28-66 | a save replaces the file as a whole or leaves it alone |
| `ConfigServer.SessionManager.RegisterSessionToken` | Source/SessionManagement.cpp:88-100 | a token is leased once |
| `ConfigServer.SessionManager.CheckSessionToken` | Source/SessionManagement.cpp:102-119 | a leased token's last request becomes now |
| `ConfigServer.SessionManager.SetActiveSessionToken` | Source/SessionManagement.cpp:121-138 | the active role goes to a leased token only when nobody else has it; the lease is renewed even on refusal |
| `ConfigServer.SessionManager.CheckActiveSessionToken` | Source/SessionManagement.cpp:140-162 | both leased and active |
| `ConfigServer.SessionManager.RemoveSessionToken` | Source/SessionManagement.cpp:164-183 | the lease ends and with it the token's active role |
| `ConfigServer.SessionManager.RemoveActiveSessionToken` | Source/SessionManagement.cpp:193-205 | only the named token loses the active role |
| `ConfigServer.SessionManager.CollectExpired` | Source/SessionManagement.cpp:29-36 | exactly the sessions past the limit, each once |
| `ConfigServer.SessionManager.CollectTimers` | Source/SessionManagement.cpp:51-63 | exactly the cancelled timers and exactly the live ones past their time, each once |
| `ConfigServer.SessionManager.SetSessionTokenTimerOnce` | Source/SessionManagement.cpp:248-267 | an occupied slot is left as it is; success is reported even for a slot whose timer is only cancelled |
| `ConfigServer.SessionManager.CancelSessionTokenTimerOnce` | Source/SessionManagement.cpp:269-284 | the timer is marked, not removed |
| `ConfigServer.Server.OnUpdate` | Source/Main.cpp:48-118 | on the objects, exactly the update step of the state machine, with every failure |
| `ConfigServer.Server.DoApplyConfig` | Source/Main.cpp:191-226 | target file and daemon take the candidate, or the running config is written back |
| `ConfigServer.Server.InstallCandidate` | Source/Main.cpp:290-301 | the candidate becomes the running file, then the running config, and is dropped last |
| `ConfigServer.Server.OnCommit` | Source/Main.cpp:230-255 | exactly the commit step; the waiting owner stays |
| `ConfigServer.Server.OnCommitTimeout` | Source/Main.cpp:257-271 | exactly the commit/timeout step; its session becomes the waiting owner |
| `ConfigServer.Server.OnConfirm` | Source/Main.cpp:273-302 | exactly the confirm step, including the end of the process without a candidate |
| `ConfigServer.Server.OnCancel` | Source/Main.cpp:304-340 | exactly the cancel step; the candidate stays |
| `ConfigServer.Server.OnDiscard` | Source/Main.cpp:343-380 | exactly the discard step; the clean-up runs on every way out once there is a candidate |
| `ConfigServer.Server.CreateToken` | Source/ConnectionManagement.cpp:102-105 | exactly the register step |
| `ConfigServer.Server.DeleteToken` | Source/ConnectionManagement.cpp:107-109 | exactly the unregister step; the candidate is not discarded |
| `ConfigServer.Server.PatchRunning` | Source/ConnectionManagement.cpp:119-129 | gate and handler together are one step of the state machine |
| `ConfigServer.Server.PostCommit` | Source/ConnectionManagement.cpp:150-161 | likewise, with the session's timer cancelled first |
| `ConfigServer.Server.PostCommitTimeout` | Source/ConnectionManagement.cpp:176-203 | likewise, with the time limit checked before the session and the timer set whether or not the handler succeeded |
| `ConfigServer.Server.PostConfirm` | Source/ConnectionManagement.cpp:163-174 | likewise |
| `ConfigServer.Server.PostCancel` | Source/ConnectionManagement.cpp:205-216 | likewise |
| `ConfigServer.Server.DeleteCandidate` | Source/ConnectionManagement.cpp:218-229 | likewise |
| `ConfigServer.Server.Expire` | Source/ConnectionManagement.cpp:35-46 | an expired session is removed, its candidate discarded, and its lease erased |
| `ConfigServer.Server.Fire` | Source/SessionManagement.cpp:70-75 | a due timer discards, gives up the active role and is erased |
| `ConfigServer.Server.CheckExpirations` | Source/SessionManagement.cpp:20-78 | one pass is a sweep: every overdue session, every stopped and every due timer exactly once, in this order, as steps of the state machine |
| `ProtocolSafety.OwnershipStep` | Source/SessionManagement.cpp:121-205 | the active token is leased; ownership never jumps between tokens; candidate and running change only for the active leased token or by an expiry |
| `ProtocolSafety.OwnershipOverRuns` | Source/SessionManagement.cpp:29-47 | in every run the active token is leased |
| `ProtocolSafety.CommitTimeoutMakesPending` | Source/Main.cpp:257-271 | after an OK answer the session waits, target file and daemon hold its candidate, running is unchanged |
| `ProtocolSafety.IsolationStep` | Source/Main.cpp:343-354 | while a commit is pending no request, expiry or stale timer of another token changes anything that belongs to it |
| `ProtocolSafety.IsolationOverRuns` | Source/ConnectionManagement.cpp:35-46 | the same over every run of other tokens, of any length |
| `ProtocolSafety.ApplyOpsIsReplayOfEffective` | Source/JsonConfigManager.hpp:76-90 | a patch has the effect of a prefix of its operations, of all of them exactly when it succeeds |
| `ProtocolSafety.PatchSucceedsExactly` | Source/JsonConfigManager.hpp:76-90 | a patch succeeds if and only if it can be parsed and all its operations can be replayed, and then it is their replay |
| `ProtocolSafety.UpdateMakesPatchedCopy` | Source/Main.cpp:63-77 | a new candidate is the running config with the patch applied |
| `ProtocolSafety.CandidateKeptOrDropped` | Source/Main.cpp:56-59 | a candidate is never altered once it exists, and running stays until it is installed |
| `ProtocolSafety.InstallTakesCandidate` | Source/Main.cpp:243-254 | an install makes exactly the candidate the running config, in memory and in the file |
| `ProtocolSafety.NoLostUpdates` | Source/Main.cpp:290-301 | in every run the running config is the startup config with the effective operations of the installed patches in installation order; the log of them only grows |
| `ProtocolSafety.NoLostUpdatesSinceStartup` | Source/Main.cpp:56-77 | the same from the state in which the server starts |
| `ProtocolTarget.TargetAgreementStep` | Source/Main.cpp:86-117 | a step without harmful failure keeps the agreement: without candidate the target is the converted running config, with one it is the candidate's, or the running one's with nobody waiting |
| `ProtocolTarget.TargetAgreementOverRuns` | Source/Main.cpp:191-226 | the same over every run |
| `ProtocolTarget.FaultlessRunsAgree` | Source/Main.cpp:243-254 | in every run from startup without storage, daemon or patch failures the agreement holds |
| `ProtocolTarget.SettledTargetIsRunning` | Source/Main.cpp:325-339 | a commit, a confirm, an effective discard and a rejected update end with the target equal to the converted running config |
| `ProtocolTarget.FailedPatchKeepsAgreementIff` | Source/Main.cpp:74-77 | exactly when the candidate left by a failed patch keeps the agreement |
| `ProtocolTarget.ProcessEndsExactlyWhen` | Source/Main.cpp:290 | exactly which steps end the process |
| `ProtocolTarget.SecondConfirmEndsProcess` | Source/Main.cpp:300-301 | a second confirm by the same owner does |
| `ProtocolDaemon.DroppedIsRolledBack` | Source/Main.cpp:361-379 | a discard, an expiry or a timer that finds a candidate it may drop puts the running config back into the target file and has the daemon load it, by the answers of both |
| `ProtocolDaemon.DaemonIsBackExactly` | Source/Main.cpp:366-376 | after it the daemon runs the running config exactly when that was saved and loaded, or happened to be left there |
| `ProtocolDaemon.DroppedWithoutText` | Source/Main.cpp:361-369 | a running config that does not convert: the candidate goes, nothing is restored, and outside a request the process ends |
| `ProtocolDaemon.NothingToDrop` | Source/Main.cpp:349-359 | otherwise such a step leaves configuration, target file and daemon alone |
| `ProtocolDaemon.DaemonAgreementStepExactly` | Source/Main.cpp:214-225 | the daemon stays on the running config or the open candidate, and on the running one without candidate, exactly unless one of the listed things happens |
| `ProtocolDaemon.DaemonAgreementOverRuns` | Source/Main.cpp:191-380 | the same over runs |
| `ProtocolAnswers.UpdateAnswer` | Source/Main.cpp:48-118 | an update is OK if and only if the session may become active, no candidate is open and the patch applies, validates, converts, is saved and checked; the lease is renewed even on refusal |
| `ProtocolAnswers.FailedUpdate` | Source/Main.cpp:74-117 | what each failure of an update leaves: a half-patched candidate or none, and the target file as it was or restored |
| `ProtocolAnswers.CommitAnswer` | Source/Main.cpp:191-255 | exactly when a commit is OK, and what a failed conversion, save, load, install or reload leaves |
| `ProtocolAnswers.CommitTimeoutAnswer` | Source/ConnectionManagement.cpp:176-203 | the same for a commit/timeout; one beyond the limit does not even renew the lease |
| `ProtocolAnswers.CommitTimeoutTimers` | Source/SessionManagement.cpp:248-284 | a timer the session had is cancelled and stays; only an empty slot gets a live one |
| `ProtocolAnswers.ConfirmAnswer` | Source/Main.cpp:273-302 | exactly when a confirm is OK, fails, or ends the process; the waiting owner stays |
| `ProtocolAnswers.CancelAnswer` | Source/Main.cpp:304-340 | a cancel takes the target file back and ends the waiting, keeps the candidate, and is OK exactly when storage and daemon agree to it |
| `ProtocolTimers.ArmedExactlyWhenSlotEmpty` | Source/SessionManagement.cpp:257-264 | a commit/timeout past the session checks has a live timer exactly when the slot was empty |
| `ProtocolTimers.ExpiredAtDeadline` | Source/SessionManagement.cpp:59 | whole seconds are compared, so a timer of T seconds is due T + 1 seconds after its start |
| `ProtocolTimers.EarlySweepPassesOver` | Source/SessionManagement.cpp:48-75 | a sweep before the deadline has no event for the owner |
| `ProtocolTimers.StaysArmed` | Source/SessionManagement.cpp:48-75 | through any rounds without the owner and any earlier sweeps the commit stays pending |
| `ProtocolTimers.SweepRollsBack` | Source/SessionManagement.cpp:39-75 | a sweep with an event of the pending owner rolls back by the answers to its first one, which is the expiry exactly when the session is overdue |
| `ProtocolTimers.LateSweepRollsBack` | Source/Main.cpp:349-379 | the first sweep at the deadline fires once, clears candidate, waiting owner, active token and timer, and takes target file and daemon back |
| `ProtocolTimers.BoundedRollback` | Source/ConnectionManagement.cpp:188-202 | from the request to the rollback: never early, exactly once, running untouched; target file and daemon back on running when storage and daemon do what they are asked |
| `ProtocolTimers.SweepPassesOver` | Source/SessionManagement.cpp:29-63 | a sweep has no event for a token whose session is not overdue and whose timer is not due |
| `ProtocolTimers.StaysUnarmed` | Source/SessionManagement.cpp:257-264 | without a live timer the commit stays pending through the same rounds |
| `ProtocolTimers.RolledBackExactlyWhenSlotEmpty` | Source/SessionManagement.cpp:257-264 | the first sweep at the deadline rolls back if and only if the slot was empty; otherwise nothing of the pending commit changes |
| `ProtocolTimers.SessionEndRollsBack` | Source/ConnectionManagement.cpp:35-46 | then the sweep that ends the session rolls back, the daemon included |
| `ProtocolTimers.CancellingStopsTimer` | Source/ConnectionManagement.cpp:150-229 | commit, confirm, cancel and discard mark the timer of their session, whatever the handler answers, and no other |
| `ProtocolTimers.StaysDisarmed` | Source/SessionManagement.cpp:248-284 | only a commit/timeout of the session itself can arm it again, in every run |
| `ProtocolTimers.ConfirmStopsRollback` | Source/ConnectionManagement.cpp:163-174 | after an OK confirm and any events but a commit/timeout of the owner no sweep fires for it, nor has any event for it while its session lasts |
| `ProtocolTimers.OverdueAtDeadline` | Source/SessionManagement.cpp:32-59 | sessions end 721 seconds after their last request, timers of T seconds are due after T + 1 |
| `ProtocolInstalls.SoundStepExactly` | Source/Main.cpp:74-90 | running and candidate stay valid under the schema in every step but an update whose patch fails and leaves an invalid document |
| `ProtocolInstalls.SoundOverRuns` | Source/Main.cpp:86-90 | the same over runs |
| `ProtocolInstalls.InstallIsValidExactly` | Source/Main.cpp:243-254 | in every run from startup an install is valid if and only if its candidate was accepted by an update or happens to be valid |
| `ProtocolInstalls.HalfPatchedBecomesRunning` | Source/Main.cpp:74-77 | without other failures a failed patch and a commit make the half-patched document run |
| `ProtocolInstalls.CommitLoadsDaemon` | Source/Main.cpp:214-223 | after an OK commit the daemon runs the running config |
| `ProtocolInstalls.ConfirmDaemonExactly` | Source/Main.cpp:290-301 | after a confirm it does exactly when it ran the candidate before |
| `ProtocolInstalls.ConfirmAfterCommitTimeout` | Source/Main.cpp:257-302 | it does when the confirm follows the OK commit/timeout of its session, whatever others do in between |
| `ProtocolInstalls.StaleConfirmSkipsDaemon` | Source/Main.cpp:253-254 | an owner left waiting by an earlier commit installs what the daemon never loaded |
| `ProtocolInstalls.CommitLeavesWaiting` | Source/Main.cpp:253-254 | a commit by the pending owner leaves it waiting |
| `SweepInterleaving.InvStep` | Source/SessionManagement.cpp:49-75 | with requests between the lock regions the collected lists stay disjoint and every collected token stays in the table |
| `SweepInterleaving.SweepIsSoundFromStart` | Source/SessionManagement.cpp:70-75 | in every interleaving the look-up of a due token succeeds |
| `SweepInterleaving.LateCancelDoesNotStopCall` | Source/SessionManagement.cpp:269-283 | a cancel after collection does not keep the callback from being called |
| `SweepInterleaving.EarlyCancelPreventsCall` | Source/SessionManagement.cpp:54-57 | a cancel before collection does, and frees the slot |
| `SweepInterleaving.CollectsExactly` | Source/SessionManagement.cpp:51-63 | a collection picks the cancelled timers and the live ones past their deadline, and changes nothing |
| `SweepInterleaving.OneEntryAtATime` | Source/SessionManagement.cpp:65-75 | every other action touches its own entry only; a set keeps an occupied slot |
| `BirdConverter.TokenStream.Write` | Source/BirdConfigConverter.hpp:417-424 | writing overwrites from the put position and then appends |
| `BirdConverter.RenderCommsSeparatorFirst` | Source/BirdConfigConverter.hpp:223-226 | separators only between communities |
| `BirdConverter.RenderCommsSeparatorLast` | Source/BirdConfigConverter.hpp:538-543 | the other loop prints the same |
| `BirdConverter.RenderPathCheck` | Source/BirdConfigConverter.hpp:445-491 | a path condition, a checked list name, or failure |
| `BirdConverter.RenderCommCheck` | Source/BirdConfigConverter.hpp:501-603 | a community condition, a checked list name, or failure |
| `BirdConverter.RenderNetEqCheck` | Source/BirdConfigConverter.hpp:613-701 | both families print the bounds of the first prefix by the same rule, with 32 and 128 as maximum |
| `BirdConverter.RenderConditions` | Source/BirdConfigConverter.hpp:1276-1465 | the present conditions in order, joined by the connective of the match type |
| `BirdConverter.RenderPrepend` | Source/BirdConfigConverter.hpp:856-881 | as many prepend statements as asked for |
| `BirdConverter.RenderCommAdd` | Source/BirdConfigConverter.hpp:907-948 | one literal community, or a list that holds a single one |
| `BirdConverter.RenderCommRemove` | Source/BirdConfigConverter.hpp:950-998 | a deletion, closed unless it names exactly one community in place |
| `BirdConverter.RenderThen` | Source/BirdConfigConverter.hpp:1472-1531 | edits in their fixed order, then the verdict |
| `BirdConverter.RenderTerm` | Source/BirdConfigConverter.hpp:1276-1537 | an if statement, or nothing when no condition is printed |
| `BirdConverter.RenderPrefixList` | Source/BirdConfigConverter.hpp:370-424 | the comma behind the last entry is gone: separators only between entries |
| `BirdConverter.RenderPolicy` | Source/BirdConfigConverter.hpp:326-356 | the terms in order and a final reject |
| `BirdConverter.RenderSession` | Source/BirdConfigConverter.hpp:1673-1737 | the policies of both channels, each checked to exist |
| `BirdConverter.BirdConfigConverter.TakeName` | Source/BirdConfigConverter.hpp:178-185 | a name is taken once over all sections |
| `BirdConverter.BirdConfigConverter.RenderAsPathListSection` | Source/BirdConfigConverter.hpp:169-196 | succeeds exactly when the names are new, and prints the definitions |
| `BirdConverter.BirdConfigConverter.RenderCommunityListSection` | Source/BirdConfigConverter.hpp:200-314 | the same for the three kinds of community lists |
| `BirdConverter.BirdConfigConverter.RenderPrefixListSection` | Source/BirdConfigConverter.hpp:361-428 | the same, and every range must be valid |
| `BirdConverter.BirdConfigConverter.RenderPolicyListSection` | Source/BirdConfigConverter.hpp:317-359 | the same for policies |
| `BirdConverter.BirdConfigConverter.Convert` | Source/BirdConfigConverter.hpp:50-130 | the output is the printed translation, whatever an earlier conversion left behind |
| `BirdConverter.LastCommaIsExtra` | Source/BirdConfigConverter.hpp:412-420 | entries each followed by a comma are the separated entries and one comma more |
| `BirdTranslate.Layout` | Source/BirdConfigConverter.hpp:1089-1162 | lists, then filters, then sessions, with one definition for each name |
| `BirdTranslate.NamesResolve` | Source/BirdConfigConverter.hpp:1031-1068 | in every successful output names are pairwise distinct and every list or policy name is defined before it is used |
| `BirdParser.NetsRoundTrip` | Source/BirdConfigConverter.hpp:371-425 | a printed prefix list is read back exactly |
| `BirdParser.SimpleRoundTrip` | Source/BirdConfigConverter.hpp:950-998 | a printed action is read back exactly when it is closed |
| `BirdParser.IfRoundTrip` | Source/BirdConfigConverter.hpp:1292-1534 | conditions and actions of an if statement are read back with their structure |
| `BirdParser.RoundTrip` | Source/BirdConfigConverter.hpp:169-236 | a printed program is read back exactly, or refused exactly when some deletion is unclosed |
| `BirdReading.OutputReading` | Source/BirdConfigConverter.hpp:960-972 | outputs are closed exactly when no printed term removes one community given in place |
| `BirdReading.ReadsBackExactlyWhenReadable` | Source/BirdConfigConverter.hpp:960-972 | the condition under which the text of a document can be read back, on the document |
| `BirdReading.TextDecidesAsPolicy` | Source/BirdConfigConverter.hpp:317-359 | the text, read back, holds for every policy of kept terms a filter that treats every route as the policy does |
| `BirdReading.AcceptedPolicy` | Source/BirdConfigConverter.hpp:345-352 | an accepted document has no default-action in a policy and calls no rule from a printed term |
| `BirdAccepted.AcceptedExactly` | Source/BirdConfigConverter.hpp:50-130 | a document is converted if and only if its names are distinct, its bounds in order, its references known and its printed actions printable; without sessions to nothing |
| `BirdOutput.ListsKeepTheirContents` | Source/BirdConfigConverter.hpp:169-428 | in every output each list of the six kinds is found under its name with its contents, prefix entries with bounds that match exactly what is asked for in 32 or 128 bits |
| `BirdOutput.NetEqPrintsFirst` | Source/BirdConfigConverter.hpp:613-701 | a net-eq prints its first prefix with the bounds a list of its family would print |
| `BirdOutput.SessionsKeepTheirPolicies` | Source/BirdConfigConverter.hpp:1674-1729 | the k-th printed session has the k-th name, and in each family a channel exactly when the document has one, with its policy-in as import and its policy-out as export |
| `BirdOutput.SessionsExchangeAsTheDocument` | Source/BirdConfigConverter.hpp:1031-1067 | for every session, family, direction, semantics and route: the printed session treats the route as the policy the document names there |
| `BirdOutput.TextExchangesAsTheDocument` | Source/BirdConfigConverter.hpp:1031-1067 | the same for the session read back from the text |
| `BirdMeaning.CondMeansFires` | Source/BirdConfigConverter.hpp:1284-1315 | the joined condition holds exactly when some, or all, of the present conditions do |
| `BirdMeaning.TermRuns` | Source/BirdConfigConverter.hpp:1276-1537 | what the statements printed for a term do, said on the term |
| `BirdMeaning.KeptTermsKeepTheirMeaning` | Source/BirdConfigConverter.hpp:1276-1537 | the sufficient half of the exact condition |
| `BirdMeaning.OtherTermsDoNot` | Source/BirdConfigConverter.hpp:1460-1464 | the necessary half: a term outside the condition has a semantics and a route that tell |
| `BirdMeaning.TermsKeepTheirMeaning` | Source/BirdConfigConverter.hpp:326-356 | terms run in order, edits are visible to later terms, call-next falls through, the end rejects |
| `BirdMeaning.PolicyKeepsItsMeaning` | Source/BirdConfigConverter.hpp:326-356 | for every accepted document, policy of kept terms, semantics and route the filter gives the verdict and the edits of the policy |
| `BirdMeaning.PoliciesDecide` | Source/BirdConfigConverter.hpp:345-352 | every route is decided, and only a permitting term accepts |
| `PrefixBounds.RejectedWhenEmptyOrTooShort` | Source/BirdConfigConverter.hpp:380-407 | an entry is rejected exactly when a bound is too short or the bounds cross; otherwise the printed bounds are in order |
| `PrefixBounds.MatchesExactlyTheAllowed` | Source/BirdConfigConverter.hpp:380-407 | the printed bounds match exactly the sub-prefixes that ge and le allow |
| `PrefixBounds.AllowedByLengths` | Source/BirdConfigConverter.hpp:380-407 | what ge and le allow are the sub-prefixes between the shortest and the longest length a policy goes by |
| `PrefixBounds.ListMatchesTheUnion` | Source/BirdConfigConverter.hpp:376-412 | a list matches the union of what its entries allow |
| `TimerService.TimerService.ScheduleTimer` | Source/Lib/TimerService.hpp:60-72 | a new id joins the live timers with its deadline |
| `TimerService.TimerService.Cancel` | Source/Lib/TimerService.hpp:42-46 | the timer leaves the map although its item stays in the heap |
| `TimerService.TimerService.Pop` | Source/Lib/TimerService.hpp:96-115 | a popped item starts its timer when it is live, which moves it by its interval or removes it, and is forgotten otherwise; what is due shrinks |
| `TimerService.TimerService.Drain` | Source/Lib/TimerService.hpp:96-115 | every due live timer starts exactly once, in the order of deadlines, and no other; a repeated one is due again one interval later, a one-shot is gone, every other is as it was; the loop ends |
| `TimerService.PopRepresents` | Source/Lib/TimerService.hpp:98-109 | heap and active ids keep standing for the map, whichever item is popped |
| `TimerService.PopShrinks` | Source/Lib/TimerService.hpp:102-105 | a repeat moves beyond the fixed now |
| `TimerInterleaving.HeapStandsForMapFromStart` | Source/Lib/TimerService.hpp:60-115 | in every interleaving heap and active ids stand for the map with eager deletion |
| `TimerInterleaving.NeverEarly` | Source/Lib/TimerService.hpp:96-112 | no callback starts before its deadline |
| `TimerInterleaving.OneShotStartsAtMostOnce` | Source/Lib/TimerService.hpp:106-109 | however callers and worker interleave |
| `TimerInterleaving.StartsAfterCancelExactlyWhenPopped` | Source/Lib/TimerService.hpp:42-46 | a start after Cancel has returned is possible if and only if the worker had popped the timer |
| `TimerInterleaving.AtMostOneStartAfterCancel` | Source/Lib/TimerService.hpp:111-113 | and then it starts once at most |
| `TimerInterleaving.PassEnds` | Source/Lib/TimerService.hpp:96-115 | a pass pops no more items than were due when it took the time, plus those inserted meanwhile that are due |
| `TimerInterleaving.PopMovesOrRemoves` | Source/Lib/TimerService.hpp:102-109 | a start moves a repeated timer by its interval and removes a one-shot |
| `TimerInterleaving.NotBeforeDelay` | Source/Lib/TimerService.hpp:61-62 | a timer starts no earlier than its delay after it was scheduled, in every interleaving |
| `TimerInterleaving.RepeatsAreSpaced` | Source/Lib/TimerService.hpp:102-105 | behind the pop of a repeated timer every start but the first lies at least an interval behind that time |
| `TimerInterleaving.PopsInOrder` | Source/Lib/TimerService.hpp:97-99 | nothing with an earlier deadline is popped later, unless it is inserted meanwhile |
| `TimerInterleaving.PassStartsWhatIsDue` | Source/Lib/TimerService.hpp:96-115 | a pass starts every timer that was live and due when it took the time, unless it is cancelled meanwhile |
| `Searching.SearchBehind` | Source/Lib/Utils.hpp:32-33 | a search from behind a prefix is a search of the rest |
| `Multipart.FormDataParser.BufFind` | Source/Lib/ThirdParty/httplib/httplib.h:5706-5727 | the offset of the first occurrence, or the size of the buffer |
| `Multipart.FormDataParser.StartsWith` | Source/Lib/ThirdParty/httplib/httplib.h:5687-5694 | the string stands at that position of the buffer |
| `Multipart.FormDataParser.BufAppend` | Source/Lib/ThirdParty/httplib/httplib.h:5729-5745 | the unread bytes stay in order when they move to the front and the array grows |
| `Multipart.FormDataParser.BufErase` | Source/Lib/ThirdParty/httplib/httplib.h:5747 | the first bytes are gone |
| `Multipart.FormDataParser.EnterBody` | Source/Lib/ThirdParty/httplib/httplib.h:5534-5543 | the body starts behind the empty line |
| `Multipart.FormDataParser.ParseBody` | Source/Lib/ThirdParty/httplib/httplib.h:5611-5633 | everything before the delimiter is handed over, or all but as many bytes as the delimiter has; refused exactly when the receiver refuses and there is something to hand over |
| `Multipart.FormDataParser.ParseBoundary` | Source/Lib/ThirdParty/httplib/httplib.h:5634-5650 | a line break, two dashes, or waiting, whether or not the form is closed already |
| `Multipart.FormDataParser.Parse` | Source/Lib/ThirdParty/httplib/httplib.h:5511-5655 | up to the piece that closes the form everything is a function of the bytes so far, not of the pieces; behind it of the single pieces |
| `Multipart.FormDataParser.ParseAll` | Source/Lib/ThirdParty/httplib/httplib.h:5511-5655 | the same for every sequence of pieces, as long as the parser is in the body or at a boundary |
| `Multipart.EpilogueSnoc` | Source/Lib/ThirdParty/httplib/httplib.h:5634-5650 | one more piece behind the close acts on the buffer those before it have left |
| `Multipart.WaitingHolds` | Source/Lib/ThirdParty/httplib/httplib.h:5634-5650 | while the form stays closed the buffer holds the pieces since the last dashes |
| `Multipart.ReopenedHolds` | Source/Lib/ThirdParty/httplib/httplib.h:5636-5638 | what follows the line break that opens it again is everything behind it |
| `Multipart.ReopenedExactly` | Source/Lib/ThirdParty/httplib/httplib.h:5636-5638 | a closed form is opened again exactly when a piece makes the buffer start with a line break |
| `Multipart.CutBehindClose` | Source/Lib/ThirdParty/httplib/httplib.h:5641-5645 | the same bytes in the closing piece are dropped |
| `Multipart.EpilogueMayReopen` | Source/Lib/ThirdParty/httplib/httplib.h:5634-5650 | an input whose two cuts differ |
| `Multipart.ReceivedGrows` | Source/Lib/ThirdParty/httplib/httplib.h:5622-5631 | nothing is handed over early |
| `Multipart.ContentComesBack` | Source/Lib/ThirdParty/httplib/httplib.h:5614-5621 | a content in which no delimiter starts is received exactly; a line break behind the delimiter leads on, two dashes close, anything else waits |
| `Multipart.NothingIsLost` | Source/Lib/ThirdParty/httplib/httplib.h:5622-5631 | without a delimiter what is handed over and what is kept make up the stream, and as many bytes are kept as the delimiter has |
| `ChunkedStream.FromIToHex` | Source/Lib/ThirdParty/httplib/httplib.h:2692-2700 | the hexadecimal digits of the size |
| `ChunkedStream.DataSink.Write` | Source/Lib/ThirdParty/httplib/httplib.h:5131-5153 | a frame for every write that is not empty, until a write fails; only a write that is not empty keeps data available |
| `ChunkedStream.DataSink.Done` | Source/Lib/ThirdParty/httplib/httplib.h:5157-5200 | the terminator |
| `ChunkedStream.DataSink.WriteContentChunked` | Source/Lib/ThirdParty/httplib/httplib.h:5203-5219 | the calls end as their answers say, with that error after that many of them; on success the wire holds what the provider did, and a terminator exactly when it finished |
| `ChunkedStream.OneEnd` | Source/Lib/ThirdParty/httplib/httplib.h:5203-5219 | every sequence of calls ends in one way only |
| `ChunkedStream.DataSink.Send` | Source/Lib/ThirdParty/httplib/httplib.h:5123-5219 | the frames of all writes and the terminator |
| `Chunked.TerminatedExactly` | Source/Lib/ThirdParty/httplib/httplib.h:5131-5200 | the wire is the frames of all writes and one terminator exactly when the provider finishes once and writes nothing afterwards |
| `Chunked.EmptyWriteEndsWithoutTerminator` | Source/Lib/ThirdParty/httplib/httplib.h:5133 | a single empty write ends the calls without a terminator |
| `ChunkedStream.StreamLineReader.Append` | Source/Lib/ThirdParty/httplib/httplib.h:3036-3047 | the line goes on in the growing buffer once the fixed one is full |
| `ChunkedStream.StreamLineReader.Getline` | Source/Lib/ThirdParty/httplib/httplib.h:2996-3034 | through the first CRLF or the end of input, and no longer than the limit |
| `ChunkedStream.ReadContentWithLength` | Source/Lib/ThirdParty/httplib/httplib.h:4669-4689 | exactly so many bytes, however short the reads, or failure with what there was |
| `ChunkedStream.ReadTrailers` | Source/Lib/ThirdParty/httplib/httplib.h:4791-4855 | lines up to an empty one, or no line at all |
| `ChunkedStream.ReadContentChunked` | Source/Lib/ThirdParty/httplib/httplib.h:4734-4856 | for every input the verdict, the bytes handed over and the place where reading stops |
| `Chunked.HexDigits` | Source/Lib/ThirdParty/httplib/httplib.h:2692-2700 | printed sizes have their value |
| `Chunked.SizeComesBack` | Source/Lib/ThirdParty/httplib/httplib.h:4751-4754 | a printed size line is parsed to the size |
| `ChunkSizes.SpellingIsRead` | Source/Lib/ThirdParty/httplib/httplib.h:4749 | every spelling of a size is read as its positional value: digits in lower, upper or mixed case, with blanks, a sign or 0x in front and anything behind |
| `ChunkSizes.SizeReadExactly` | Source/Lib/ThirdParty/httplib/httplib.h:4749-4752 | a number is read from a line if and only if the line spells it |
| `ChunkedReading.LineExactly` | Source/Lib/ThirdParty/httplib/httplib.h:2996-3034 | the line is the bytes through the first line break or to the end of the input, and no longer than the limit |
| `ChunkedReading.ChunksComeBack` | Source/Lib/ThirdParty/httplib/httplib.h:4734-4856 | for every sequence of chunks, spelling of their sizes and trailer section: exactly the payloads and exactly behind the empty line, or too large after the ones that fit |
| `ChunkedReading.SpelledRoundTrip` | Source/Lib/ThirdParty/httplib/httplib.h:4734-4856 | the whole exchange with such a sender, whatever follows on the wire |
| `ChunkedReading.DecodeSucceedsExactly` | Source/Lib/ThirdParty/httplib/httplib.h:4734-4856 | reading succeeds with these bytes and stops there if and only if the stream has that form |
| `ChunkedReading.DecodeRefusesExactly` | Source/Lib/ThirdParty/httplib/httplib.h:4756-4760 | too large if and only if behind chunks that fit a size line asks for more than is left |
| `ChunkedReading.DecodeFailsWith` | Source/Lib/ThirdParty/httplib/httplib.h:4751-4775 | a failure has handed over whole chunks, and of the next one what there was |
| `ChunkedReading.WritesComeBack` | Source/Lib/ThirdParty/httplib/httplib.h:4734-4791 | for every sequence of writes: exactly their concatenation and exactly behind the terminator, or too large after the ones that fit |
| `ChunkedReading.RoundTrip` | Source/Lib/ThirdParty/httplib/httplib.h:5123-5219 | the whole exchange, whatever follows on the wire |
| `Ranges.NormalizeMeans` | Source/Lib/ThirdParty/httplib/httplib.h:5911-5938 | a normalized range covers exactly the positions asked for; it is outside exactly when there are none or the suffix is longer than the content |
| `Ranges.OverlapMeans` | Source/Lib/ThirdParty/httplib/httplib.h:5942-5943 | the test finds a common position |
| `Ranges.AcceptedExactly` | Source/Lib/ThirdParty/httplib/httplib.h:5892-5951 | accepted exactly when there are at most 1024 ranges, each can be satisfied, and at most two share a position with an earlier one |
| `Ranges.Request.RangeError` | Source/Lib/ThirdParty/httplib/httplib.h:5892-5958 | refused exactly on too many ranges, one outside the content or a third overlap; otherwise the ranges lie inside the content, are sorted, cover exactly the union of what was asked for, and are separated when repeats are reached |
| `Ranges.Request.CheckEach` | Source/Lib/ThirdParty/httplib/httplib.h:5907-5951 | the ranges are replaced one by one; each counts once as overlapping |
| `Ranges.Request.CoalesceRanges` | Source/Lib/ThirdParty/httplib/httplib.h:5836-5890 | the same positions, sorted; separated when repeated ranges are reached, and without ties only then |
| `Ranges.MergeCovers` | Source/Lib/ThirdParty/httplib/httplib.h:5846-5887 | merging keeps the union |
| `Ranges.MergeSeparatesExactly` | Source/Lib/ThirdParty/httplib/httplib.h:5871-5886 | for a sorted arrangement: separated exactly when no range comes after its like with nothing reaching it and nothing longer beside it |
| `Ranges.SeparatedHoweverSorted` | Source/Lib/ThirdParty/httplib/httplib.h:5836-5890 | separated in every arrangement that sorting may give, exactly when every repeated range is reached by an earlier one |
| `Ranges.SomeArrangementStays` | Source/Lib/ThirdParty/httplib/httplib.h:5839-5841 | a repeated range that nothing reaches has an arrangement in which it stays beside its like |
| `Ranges.OffsetAndLength` | Source/Lib/ThirdParty/httplib/httplib.h:5960-5968 | its assertions hold of every range that passed; offset and length are the same positions |
| `Base64.Base64Encode` | Source/Lib/ThirdParty/httplib/httplib.h:2736-2762 | the wrapping 32-bit accumulator yields the encoding by groups of three |
| `Base64.WrapKeepsSextets` | Source/Lib/ThirdParty/httplib/httplib.h:2747-2755 | for the shifts that occur, wrapping does not touch the six bits read |
| `Base64.RoundTrip` | Source/Lib/ThirdParty/httplib/httplib.h:2736-2762 | the encoding decodes to the input |
| `Base64.EncodedLength` | Source/Lib/ThirdParty/httplib/httplib.h:2757-2759 | four letters for every three bytes begun |
| `ReplaceAll.StringBuffer.FindAndReplaceAllInPlace` | Source/Lib/Utils.hpp:25-35 | splitting at the leftmost occurrences and joining with the replacement, which ends even when the replacement holds the search string |
| `ReplaceAll.FindAndReplaceAll` | Source/Lib/Utils.hpp:37-50 | the loop of the copying version comes to the same |
| `ReplaceAll.PiecesMakeUp` | Source/Lib/Utils.hpp:25-35 | splitting loses nothing and no piece holds the search string |
| `ReplaceAll.PiecesOfJoined` | Source/Lib/Utils.hpp:25-35 | splitting at a character undoes joining with it |
| `ReplaceAll.ColonsBecomeCommas` | Source/BirdConfigConverter.hpp:223 | a community's colons become commas and nothing else changes |

## Left out

- HTTP sockets, TLS, compression, routing patterns, the client and the rest of the HTTP library: input and output.
- Request dispatch by callback maps (Source/ConnectionManagement.cpp:245-319): a request reaches its one handler.
- The `birdc` subprocess: validate, load and undo are arbitrary answers, and after a failed load or an undo the daemon runs an arbitrary text.
- File system details: a save is atomic, and what was saved is what the next load returns.
- JSON parsing, dumping, RFC 6902 operations, schema validation and diffs: abstract functions; a move counts as one operation that either takes effect or does not.
- Request tokens that are empty or need escaping in a header, log messages, and the two JSON look-ups that return the running config and its difference.
- Data races on the candidate and the waiting owner, which no lock guards: handlers are single steps. The clock never goes back.
- ConfigServer.FileStorage.SaveData: empty contents, for which the source reports success without writing; neither a dumped document nor a converted one is ever empty.
- ConfigServer.Server.CheckExpirations: the whole pass at one instant; `SweepInterleaving` treats the timer part between its lock regions.
- BIRD text below the level of tokens: spelling of names, prefixes, indentation and comments. Line breaks are kept only in prefix lists, where one of them overwrites a comma.
- The order of JSON object members: it is taken as given. The library iterates by key, so term-10 comes before term-2.
- BirdConverter.RenderSession: the mandatory peer and local keys, addresses, ports and next-hop-self.
- BirdConverter.BirdConfigConverter.Convert: the BGP part only, without the router id and the other protocols.
- Device, kernel, direct and static protocols, session addresses, ports, multihop and next-hop-self: straight-line text.
- The `net-in` renderer: for documents the schema accepts it looks under keys that are not there and prints nothing.
- Numbers beyond the ranges the schema allows, which the converter would truncate to 16 or 32 bits.
- BirdMeaning.PolicyKeepsItsMeaning: the meaning of an atomic condition or edit on a route is a parameter; that BIRD gives it the meaning the schema intends is not part of this model.
- Stopping the timer service, and the waiting of its worker: it may look at its heap at any time.
- Form-data headers and the initial boundary (states 0 to 2 of the parser); a body starts with whatever the buffer holds behind the empty line, and a form that is opened again behind its close is not followed further.
- ChunkedStream.ReadTrailers: declared trailer fields and the limit on their number.
- Read errors of the socket, and receivers of a chunked body that refuse data.
- ChunkedStream.DataSink.Send: a provider that makes its writes and then reports that it is done, over a socket that delivers; compression is the identity.
- ReplaceAll.StringBuffer.FindAndReplaceAllInPlace: an empty search string, for which the loop of the source does not end, is excluded as the source's callers do.
- Ranges.Request.RangeError: what is left in the ranges of a refused request.
