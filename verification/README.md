# kube-autopsy, modelled and proved in Dafny

kube-autopsy turns kernel OOM kills into `PodCrashReport` objects. A per-node agent identifies the victim
container, captures the end of its log and writes a report in two steps; a controller picks the report up from
a cache, notifies a webhook, marks the report Processed, and a garbage collector removes old reports. This
project models the parts of that system whose correctness is not visible in any one function and proves what
they promise for every input and every run. `dafny verify dfyconfig.toml` checks all of it.

| module | what it holds |
|---|---|
| `Lifecycle`, `LifecycleTheorems`, `LandingTheorems`, `DeadlineTheorems` | the life of one report as a state machine: the agent's two writes, the API server, a controller on an arbitrarily stale cache, lost, delayed and refused writes, crashes, restarts, deletion and other writers |
| `Clusters`, `Reconciler`, `ReportWriter` | `Reconcile` and `CreateCrashReport` in their imperative form, shown to be paths of that state machine |
| `MergePatch`, `CrashReport` | JSON Merge Patch (section 2 of RFC 7396), the diff the client library computes, and the report's encoding; together they justify what a write on the wire does |
| `AgentLoop`, `AgentLoopTheorems`, `Cooldown` | the agent's reader, workers, slots, wait group and bounded drain, over every interleaving; the evicting cooldown map against one that never forgets |
| `TailFile`, `LogLines`, `Truncate`, `LogCapture` | the log pipeline: chunked backwards read, reassembly of split container log lines, byte and item bounds, and their composition |
| `GarbageCollector` | the sort, count and delete pass |
| `Slack` | escaping and the log block cut to a byte budget |
| `Reporter`, `Retry`, `Names` | from a cgroup name to the container incarnation, the retry loops, generated names and labels |
| `Bytes`, `Utf8`, `Clock` | instants and the whole seconds they are stored in, byte strings, splitting and joining, and well-formed UTF-8 (section 4 of RFC 3629) |

Strings are byte sequences. Time is an unbounded integer of nanoseconds (milliseconds in `Retry`), advanced by
explicit steps. Clocks, directory contents, listings, replies and delivery outcomes are parameters, so every
statement quantifies over them.

## Where the code and its own words differ

The model follows the code.

- docs/configuration.md describes reports as created in phase Pending. In the code the phase is empty until the
  agent's second write.
- docs/configuration.md says that delivery is given up ten minutes after creation, and with
  internal/controller/reconciler.go:33-36 and 138-139 that a dead endpoint therefore cannot keep reports in
  Pending for ever. In the code the ten minutes must also have passed since
  the controller process started, so processes that are replaced within ten minutes each keep a report Pending
  past any bound, with every delivery failing and none given up (`DeadlineTheorems.PinnedPastAnyBound`).
  `DeadlineTheorems.GivesUpIff` gives the exact condition, and `DeadlineTheorems.SteadyProcessGivesUp` says that a
  process which has run for ten minutes keeps the documented promise.
- The comment on `Send` (internal/controller/webhook.go:75-78) says errors are not returned; they are, and
  `Reconcile` depends on it.
- The comment at internal/agent/logcapture.go:27-29 counts three waits of about 500 ms in all; three attempts
  have two waits between them, 300 ms in all (`LogCapture.CaptureLogTail`).
- `truncateLines` sets out to keep the tail, but its byte budget is spent from the oldest kept line, so it is
  the newest lines that are lost. `Truncate.NewestLineCanBeLost` gives an input and
  `Truncate.NewestLineSurvivesIff` the exact condition.
- `sanitizeName` promises a valid resource name. `Names.SanitizedCanBeInvalid` gives an input that yields an
  invalid one and `Names.SanitizedIsSubdomainIff` the exact condition, which every Kubernetes pod name meets.
- A status-write error is described as a report that nothing will ever fill in. After a lost reply the agent
  conflicts with its own earlier write, and reports that error although the diagnostics have landed
  (`LifecycleTheorems.LandedYetReportedFailed`). `LandingTheorems.CanLandIff` gives the exact condition, and
  `LandingTheorems.FirstTryErrorIsFinal` the part of it a caller can see: an error without a retry is final.

## Model

| member | source | states |
|---|---|---|
| `MergePatch.MergeDiff` | internal/controller/reconciler.go:163-166 | round trip: merging into a document the patch diffed from it to any null-free target yields that target |
| `MergePatch.MergeIntoAtom` | internal/controller/reconciler.go:163-166 | a null-free patch merged into anything that is not an object replaces it |
| `MergePatch.DiffEmptyIff` | internal/controller/reconciler.go:163-166 | the client sends an empty patch exactly when it changed nothing |
| `CrashReport.ControllerPatchShape` | internal/controller/reconciler.go:163-166 | the controller's patch mentions only phase, and notifiedAt when that changed |
| `CrashReport.StampedMembers` | internal/controller/reconciler.go:155-165 | the patch carries the notification time in whole seconds, so stamping it first changes nothing |
| `CrashReport.StrippedPatchIsFullPatch` | internal/controller/reconciler.go:65-78 | a patch computed from a copy without log lines is the one computed from the full copy |
| `CrashReport.ControllerPatchEffect` | internal/controller/reconciler.go:163-168 | merged into any stored report, whatever the copy it came from held, it sets those two fields and leaves everything else, diagnostics included |
| `CrashReport.AgentPatchShape` | internal/agent/reporter.go:156-189 | the agent's patch carries exactly the diagnostics and phase Pending |
| `CrashReport.AgentPatchEffect` | internal/agent/reporter.go:156-205 | merged into a report without diagnostics it attaches exactly the captured ones and sets Pending |
| `Lifecycle.ApplyWriteGrows` | internal/controller/reconciler.go:163-168 | an applied write never moves a status backwards, and only the agent's touches diagnostics |
| `Lifecycle.ServerKeepsStore` | internal/agent/reporter.go:147-205 | every server step, locked or unlocked write, foreign write or deletion, keeps the version history well-formed: one creation time, growing statuses, the lock version only on the empty status |
| `Lifecycle.AgentKeepsAgent` | internal/agent/reporter.go:147-212 | every agent step, lost replies and retries included, keeps what the agent knows consistent with the server and the wire |
| `Lifecycle.SeenIsRipe` | internal/controller/reconciler.go:107-125 | any cached copy that passes the checks, however stale, proves that the report is old enough or its diagnostics have landed |
| `Lifecycle.SendKeeps` | internal/controller/reconciler.go:135-160 | sending, succeeding and failing keep the record of attempts, deliveries and drops true |
| `Lifecycle.IssueKeeps` | internal/controller/reconciler.go:163-168 | a patch put on the wire is already justified by a delivery or a drop |
| `Lifecycle.StepKeeps` | internal/controller/reconciler.go:92-214 | every step of the agent, the server, the controller or the clock keeps the whole invariant |
| `Lifecycle.RunKeeps` | internal/controller/reconciler.go:92-214 | the invariant holds in every state of every run |
| `LifecycleTheorems.HistoryGrows` | internal/agent/reporter.go:147-205 | over a run the version history is only appended to, time does not run back, and a deleted report stays deleted |
| `LifecycleTheorems.StatusNeverRegresses` | internal/agent/reporter.go:147-212 | between any two moments of any run the phase only moves forward, attached diagnostics are never altered and a notification time is never cleared |
| `LifecycleTheorems.ProcessedIsAccountedFor` | internal/controller/reconciler.go:135-168 | with a webhook, a Processed report was delivered, or dropped no earlier than ten minutes after both its creation and that process's start; the justification precedes the write |
| `DeadlineTheorems.GivesUpIff` | internal/controller/reconciler.go:135-160 | in every run a failed delivery is given up exactly when the window has passed since both creation and process start; a report already as old as the window is held back exactly by a process that started after it and is younger than the window |
| `DeadlineTheorems.SteadyProcessGivesUp` | internal/controller/reconciler.go:216-231 | after a whole window without a restart, no failed delivery of a report as old as the window holds it back |
| `DeadlineTheorems.PinnedPastAnyBound` | internal/controller/reconciler.go:33-37 | for every bound and initial state, a run in which a report older than the bound is still Pending, every delivery tried and failed and none given up |
| `LifecycleTheorems.NotifiedMeansDelivered` | internal/controller/reconciler.go:155-165 | a recorded notification time is a whole second and does not precede the second in which the endpoint acknowledged some delivery; it may be later, since the clock is read after the answer |
| `LifecycleTheorems.YoungReportsWaitForDiagnostics` | internal/controller/reconciler.go:112-125 | no run notifies about or marks Processed a report younger than two minutes before its diagnostics are on the server, and a young report's notification carries the agent's own figures |
| `LifecycleTheorems.DiagnosticsLandOnce` | internal/agent/reporter.go:147-205 | at most one agent write is ever applied, diagnostics are present exactly when one was, and an agent that reports success is right |
| `LifecycleTheorems.LandedYetReportedFailed` | internal/agent/reporter.go:183-212 | the converse is false: a run in which the diagnostics land and the agent reports a status-write error |
| `LandingTheorems.SettledForGood` | internal/agent/reporter.go:147-212 | with the agent stopped, nothing landed and nothing under way, no sequence of steps of anyone lands anything |
| `LandingTheorems.CanLandIff` | internal/agent/reporter.go:183-212 | once the agent has stopped, some continuation has the diagnostics on the server exactly when they are there or one of its writes is under way to the version it was locked on |
| `LandingTheorems.FirstTryErrorIsFinal` | internal/agent/reporter.go:183-212 | if no attempt had to be repeated, a reported status-write error is the last word: in no continuation do diagnostics land |
| `LifecycleTheorems.CacheHoldsNoLogLines` | internal/controller/reconciler.go:65-78 | in every run with stripping on, the copy the controller holds carries no log lines |
| `LifecycleTheorems.PatchesComeFromOpenCopies` | internal/controller/reconciler.go:107-168 | every patch issued comes from a copy neither Processed nor notified, and the JSON diffed from that copy, whatever its metadata, is the phase and the decided time in whole seconds |
| `LifecycleTheorems.AppliedWriteIsMergePatch` | internal/controller/reconciler.go:163-168 | in every run an applied write stores what RFC 7396 makes of the patch the client diffed, from a copy with any metadata, stale resourceVersion included |
| `LifecycleTheorems.StrippedCacheIsInvisible` | internal/controller/reconciler.go:58-78 | every run on the stripped cache is matched step for step by one on full copies with the same server, wire, deliveries and drops, and every JSON patch diffed from the two copies held is the same |
| `LifecycleTheorems.StrippedCacheLosesNothing` | internal/controller/reconciler.go:58-78 | and every run on full copies by one on the stripped cache, with the same patches |
| `Clusters.Cluster.Perform` | internal/controller/reconciler.go:92-214 | each step a process takes is one of the protocol, and extends the path that led there |
| `Reconciler.Controller.Look` | internal/controller/reconciler.go:95-125 | fetching and checking leaves everything but the clock and the controller's position untouched, and is a path of the protocol |
| `Reconciler.Controller.Notify` | internal/controller/reconciler.go:135-160 | a delivery is recorded when it is acknowledged and the time decided on is read afterwards; a failure either waits for a retry or is recorded as a drop, by the deadline alone |
| `Reconciler.Controller.Patch` | internal/controller/reconciler.go:163-168 | an accepted patch marks the stored report whatever the cached copy held; a refused one changes nothing |
| `Reconciler.Controller.Act` | internal/controller/reconciler.go:127-168 | the report is held back exactly when delivery fails before this process's deadline; otherwise it is marked exactly when the patch is accepted; the effect on the stored status, deliveries and drops |
| `Reconciler.Controller.Reconcile` | internal/controller/reconciler.go:92-214 | each way a reconcile ends, with its exact condition, its effect on the stored status and on the delivery record; the whole is a path of the protocol and keeps its invariant |
| `ReportWriter.Agent.Attempt` | internal/agent/reporter.go:191-205 | an attempt succeeds exactly when it is answered, accepted and the stored version is the one it was locked on; otherwise retries are used up or the error is final |
| `ReportWriter.Agent.WriteStatus` | internal/agent/reporter.go:183-212 | the retry loop gives up after four attempts, on a final error or on a cancelled wait, and the agent's state in the protocol says the same |
| `ReportWriter.Agent.CreateCrashReport` | internal/agent/reporter.go:109-215 | both writes, step by step: a path of the protocol that keeps its invariant, ends with the verdict it returns, and decides it from the replies as stated |
| `TailFile.FileLinesSpellTheFile` | internal/agent/logcapture.go:476-494 | the lines of a file, joined by newlines, spell the file again up to one final newline |
| `TailFile.OnlyFileLines` | internal/agent/logcapture.go:476-494 | and no other newline-free lines do: the lines a log writer wrote, the last perhaps unterminated, are the lines of the file |
| `TailFile.ReadChunks` | internal/agent/logcapture.go:437-464 | the chunks are exactly the end of the file, less than 4096·N + 2·8192 bytes, and the scan stops only at the start, on the newline count or having read exactly the cap rounded up to whole chunks |
| `TailFile.JoinChunks` | internal/agent/logcapture.go:466-474 | chunks collected backwards are joined in file order |
| `TailFile.EnoughNewlines` | internal/agent/logcapture.go:450-464 | once more than N newlines are read, the last N lines of what was read are those of the file |
| `TailFile.CutTail` | internal/agent/logcapture.go:476-494 | stopped anywhere, the result is a suffix of the last N lines, or the end of the last line when only a fragment was read |
| `TailFile.CutExactIff` | internal/agent/logcapture.go:476-494 | a cut tail gives exactly the last N lines if and only if more than N lines were read, or N is one and the line was read from its start |
| `TailFile.CompleteAtLimit` | internal/agent/logcapture.go:437-464 | wherever the scan stops, it has the lines asked for exactly when reading up to the limit would have them |
| `TailFile.TailFile` | internal/agent/logcapture.go:404-495 | for every content and N the result is the last N lines exactly when the file is within the read limit, or its end of that length holds more than N lines, or N is one and that end is one whole line; otherwise it is the end of them; fewer than one line is an error |
| `LogLines.ClassifyFrame` | internal/agent/logcapture.go:186-217 | a line framed in the container runtime's form is read back as the stream, tag and message it was framed from |
| `LogLines.OnlyFramesAreRecognised` | internal/agent/logcapture.go:186-217 | conversely, every line so read is the framing of what was read |
| `LogLines.ClassifyStream` | internal/agent/logcapture.go:138-166 | only the two named streams can be left open; an unframed line is always whole |
| `LogLines.AssembleIsExpected` | internal/agent/logcapture.go:122-166 | the emitted messages are, at each final line, the pieces of its own stream since that stream's last final line |
| `LogLines.StreamsDoNotInterfere` | internal/agent/logcapture.go:122-182 | for every interleaving, what one stream emits and leaves open is what parsing that stream alone would give |
| `LogLines.ParsedCount` | internal/agent/logcapture.go:122-182 | parsing never yields more lines than it was given |
| `LogLines.StreamRoundTrip` | internal/agent/logcapture.go:122-182 | the messages split onto one stream come back whole and in order, whatever the other streams carried in between |
| `LogLines.FramingRoundTrip` | internal/agent/logcapture.go:186-217 | framing any list of items with any timestamps and tag flags and reading it back is the identity |
| `LogLines.RoundTrip` | internal/agent/logcapture.go:122-217 | splitting, framing and interleaving two streams arbitrarily and parsing returns the messages in order of their final lines, then the unfinished ones, stderr before stdout |
| `LogLines.EndOfStream` | internal/agent/logcapture.go:122-182 | what the front of a file adds to parsing its end alone, per stream: its own messages, and its unfinished text in front of the first message of the end |
| `LogLines.CompletionsAreEmitted` | internal/agent/logcapture.go:122-182 | a stream emits as many messages as it ends among the lines parsed |
| `LogLines.EndOfFileParses` | internal/agent/logcapture.go:122-182 | parsing only the end of a file gives, per stream, exactly the messages that end there, of which only the first may be cut, to its own end, and an unfinished one exactly when part of it is there |
| `LogLines.StderrSortsFirst` | internal/agent/logcapture.go:168-181 | stderr precedes stdout in byte order, which fixes the order of unfinished messages |
| `LogLines.OpenStreams` | internal/agent/logcapture.go:168-181 | the open streams are listed once each in ascending order |
| `LogLines.Flush` | internal/agent/logcapture.go:128-136 | one message is emitted with its stream's pieces and that stream alone is closed |
| `LogLines.ParseLogLines` | internal/agent/logcapture.go:122-182 | the loop over the partials map computes the specified parse, with no more lines out than in |
| `Truncate.TrimToValidUTF8` | internal/agent/logcapture.go:293-301 | the backwards loop stops at the last character boundary within the limit |
| `Truncate.TrimmedIsLongest` | internal/agent/logcapture.go:293-301 | on valid UTF-8 the result is the longest valid prefix within the limit, at most three bytes short of it |
| `Truncate.FitIsLongest` | internal/agent/logcapture.go:273-283 | the lines kept are the longest prefix that fits the byte budget |
| `Truncate.TruncateLines` | internal/agent/logcapture.go:253-290 | the loop yields an optional marker, that prefix of the shortened kept lines, and a marker exactly when cut |
| `Truncate.TruncatedBounds` | internal/agent/logcapture.go:253-290 | for every input: at most 200 entries, 2048 bytes and a marker each, 65536 bytes and a marker in all |
| `Truncate.TruncatedIsValid` | internal/agent/logcapture.go:253-301 | valid UTF-8 in, valid UTF-8 out, entry by entry |
| `Truncate.NewestLineSurvivesIff` | internal/agent/logcapture.go:258-283 | the output closes with the newest line exactly when the kept lines fit the budget together, and with the marker otherwise |
| `Truncate.NewestLineCanBeLost` | internal/agent/logcapture.go:258-283 | an input whose newest line does not survive |
| `LogCapture.ItoaValue` | internal/agent/logcapture.go:313-328 | decimal file numbers read back as the number they were made from |
| `LogCapture.LogNamesDiffer` | internal/agent/logcapture.go:313-328 | two incarnations never share a log file name |
| `LogCapture.NeverSubstituted` | internal/agent/logcapture.go:313-328 | a known incarnation's own file is opened or nothing is |
| `LogCapture.TryCapture` | internal/agent/logcapture.go:65-94 | an attempt succeeds exactly when the file is found and regular, and yields its processed tail |
| `LogCapture.CaptureLogTail` | internal/agent/logcapture.go:65-94 | the first readable attempt of three wins, waiting 100 and 200 ms in between; an error exactly when none is readable |
| `LogCapture.CapturedLogFits` | internal/config/config.go:276-285 | with a validated tail count the captured log fits the report's schema and the item-count branch of truncation is never taken |
| `LogCapture.SmallLogIsCapturedWhole` | internal/agent/logcapture.go:65-182 | end to end, a log within the line count and the read cap comes back as the messages that were written, bounded |
| `LogCapture.LogEndIsCaptured` | internal/agent/logcapture.go:65-182 | end to end, a log of any length comes back as the end of each stream, every message that ends in the lines captured and no other, or as the end of its last line when the read cap held not one whole line |
| `Cooldown.LastReportsAreReports` | internal/agent/agent.go:88-108 | the reference map holds, per container, the latest report that was allowed |
| `Cooldown.ReportsAreSpaced` | internal/agent/agent.go:88-108 | two allowed reports of one container are at least the window apart |
| `Cooldown.ReportCooldown.Allow` | internal/agent/agent.go:88-108 | decision and new map as specified; after an allowed call everything retained is younger than the window |
| `Cooldown.RetainedAgrees` | internal/agent/agent.go:88-108 | after any chronological history the evicting map differs from the full one only in entries too old to matter |
| `Cooldown.EvictionIsInvisible` | internal/agent/agent.go:88-108 | for every chronological history the evicting map decides every crash as one that never evicts |
| `Cooldown.EvictionIsInvisibleIff` | internal/agent/agent.go:88-108 | for every history, in order or not, the two maps decide alike throughout exactly when no crash comes within the window of its container's last report after a report at or past that window's end |
| `Cooldown.EvictionNeedsChronology` | internal/agent/agent.go:88-108 | for every window there is an out-of-order history of three crashes on which the evicting map decides differently |
| `AgentLoop.ReaderKeeps` | internal/agent/agent.go:225-307 | every step of the reader keeps slots, wait group, counters and cooldown consistent with where the events are |
| `AgentLoop.WorkerKeeps` | internal/agent/agent.go:299-305 | so does every step of a worker, in the order handler, slot, wait group |
| `AgentLoop.RunnerKeeps` | internal/agent/agent.go:309-343 | so does every step of the main goroutine, timeouts included |
| `AgentLoop.RunKeeps` | internal/agent/agent.go:198-343 | the invariant holds in every state of every interleaving |
| `AgentLoopTheorems.HandlersAreBounded` | internal/agent/agent.go:198-204 | running handlers are no more than held slots, and those no more than the configured limit |
| `AgentLoopTheorems.EventsAreConserved` | internal/agent/agent.go:225-432 | every received event is in exactly one of suppressed, discarded, held by the reader, in a handler, or finished, and each outcome is counted as often as events finished with it |
| `AgentLoopTheorems.NoAddAfterWait` | internal/agent/agent.go:316-343 | without a drain timeout no wg.Add follows the start of wg.Wait |
| `AgentLoopTheorems.AddCanFollowIff` | internal/agent/agent.go:225-343 | at any point of any run a wg.Add can still follow exactly when the reader has not exited |
| `AgentLoopTheorems.AddAfterWaitIff` | internal/agent/agent.go:316-343 | where wg.Wait begins, a wg.Add can follow it exactly when it began on a timeout with the reader not exited |
| `AgentLoopTheorems.AddAfterWaitNeedsTimeout` | internal/agent/agent.go:324-343 | such interleavings exist: from every initial state a run in which a wg.Add follows wg.Wait |
| `AgentLoopTheorems.CleanReturnIsComplete` | internal/agent/agent.go:316-343 | a drain that did not time out returns only after every accepted event has finished and the reader has exited |
| `AgentLoopTheorems.AcceptedCrashesAreSpaced` | internal/agent/agent.go:273-282 | in every interleaving an event is suppressed exactly when its container was reported within the window |
| `AgentLoopTheorems.StepsDecrease` | internal/agent/agent.go:293-343 | every step but receiving an event or waiting brings the shutdown closer |
| `AgentLoopTheorems.DrainNeverStuck` | internal/agent/agent.go:293-343 | after cancellation some step other than a timeout is always possible until Run returns |
| `AgentLoopTheorems.DrainCompletes` | internal/agent/agent.go:293-343 | from any point after cancellation the loop can drain without a timeout in a bounded number of steps |
| `GarbageCollector.TTLDoesNotOverflow` | internal/config/config.go:264-275 | the duration is exact in 64 bits exactly up to 2562047 hours, hence for every validated TTL, and negative one hour further |
| `GarbageCollector.ExpiredIsExact` | internal/controller/gc.go:106-125 | despite the saturating subtraction, expiry is the comparison of true ages |
| `GarbageCollector.SortOldestFirst` | internal/controller/gc.go:92-99 | the array is ordered by creation time and is a permutation of what it was |
| `GarbageCollector.CountLive` | internal/controller/gc.go:106-111 | the loop counts the unexpired reports |
| `GarbageCollector.DeleteDoomed` | internal/controller/gc.go:120-169 | the loop attempts exactly the doomed reports, once each and oldest first; deletions and failures are counted by their replies |
| `GarbageCollector.DeleteExpiredReports` | internal/controller/gc.go:80-172 | the whole pass: a failed listing deletes nothing; otherwise the attempts are those of the sorted list under its trim count |
| `GarbageCollector.AttemptedOrSpared` | internal/controller/gc.go:123-169 | every listed report is either attempted or spared, never both |
| `GarbageCollector.PassCounts` | internal/controller/gc.go:106-135 | attempts are the expired plus the over-cap reports, and the spared are the rest |
| `GarbageCollector.NewestAreSpared` | internal/controller/gc.go:92-135 | no unexpired report is trimmed while an older one is spared |
| `GarbageCollector.SurvivorsAreTheNewest` | internal/controller/gc.go:80-172 | for every list, instant, TTL and cap the survivors are the newest min(live, cap) unexpired reports, all live ones when there is no cap |
| `GarbageCollector.SecondPassIsIdle` | internal/controller/gc.go:80-172 | a second pass at the same instant, on any ordering of the survivors, attempts nothing |
| `GarbageCollector.RepliesAddUp` | internal/controller/gc.go:144-168 | deleted, already gone and failed add up to the attempts |
| `GarbageCollector.FailuresBoundTheExcess` | internal/controller/gc.go:113-169 | under any delete failures the unexpired reports left are exactly min(live, cap) and those that could not be deleted |
| `Slack.UnescapeEscape` | internal/controller/webhook.go:198-200 | round trip: unescaping an escaped text gives it back |
| `Slack.EscapeIsInjective` | internal/controller/webhook.go:198-200 | different texts stay different |
| `Slack.EscapeIsInert` | internal/controller/webhook.go:198-200 | an escaped text has no raw angle bracket and every ampersand begins a complete entity |
| `Slack.EscapeIsValid` | internal/controller/webhook.go:198-200 | escaping preserves valid UTF-8 |
| `Slack.InertSuffix` | internal/controller/webhook.go:211-231 | no suffix of such a text, wherever it is cut, regains markup |
| `Slack.BlockStartIsFirst` | internal/controller/webhook.go:217-230 | the block starts right after the first newline past the cut that leaves something, or else at the first character boundary |
| `Slack.ShowsLogEndIff` | internal/controller/webhook.go:198-231 | a suffix of the escaped log is the escaped form of a suffix of the log exactly when it does not begin inside an entity |
| `Slack.BlockShowsLogEndIff` | internal/controller/webhook.go:211-231 | a cut block is the marker and the escaped form of an end of the log exactly when the cut splits no entity, in particular at a line break |
| `Slack.CutCanSplitAnEntity` | internal/controller/webhook.go:211-231 | a log cut so that the reader sees text it never held |
| `Slack.SlackLogBlock` | internal/controller/webhook.go:211-231 | the loop yields the empty block, the whole log, or the marker and the suffix so determined |
| `Slack.BlockFits` | internal/controller/webhook.go:211-231 | the block never exceeds its budget, whatever the budget |
| `Slack.BlockIsInert` | internal/controller/webhook.go:211-231 | the block, marker included, holds no markup |
| `Slack.BlockIsValid` | internal/controller/webhook.go:211-231 | the block is valid UTF-8 when the log is |
| `Slack.AppendLogs` | internal/controller/webhook.go:139-145 | the text returned begins with the base text, is at most max(its length, 30000) bytes, carries no markup after it, and is valid UTF-8 when its parts are |
| `Slack.MessageFits` | internal/controller/webhook.go:130-145 | a message with a block is at most 30000 bytes, and the block is omitted only when there is nothing to show or no room for more than its marker |
| `Slack.MessageIsValid` | internal/controller/webhook.go:130-145 | the assembled message is valid UTF-8 when its parts are |
| `Slack.MessageShape` | internal/controller/webhook.go:139-145 | the base text comes first and unchanged, the whole is at most 30000 bytes or the base text's own length, and nothing after the base text is markup |
| `Slack.OnlyClosingFenceIff` | internal/controller/webhook.go:139-145 | the fence appended is the only one after the opening exactly when the block holds no triple backtick |
| `Retry.RetryOnBackoff` | internal/agent/reporter.go:331-360 | at most the allotted attempts, one wait between two and none after the last, and how it ends: last attempt, exhaustion or cancellation, exactly |
| `Retry.DelayIsPower` | internal/agent/reporter.go:331-360 | the k-th wait is the base duration times the k-th power of the factor; jitter does not compound |
| `Retry.DoublingWaitsSum` | internal/agent/reporter.go:47-61 | with factor two the waits sum to duration·(2ⁿ − 1) without jitter, and to no less with it |
| `Reporter.CgroupNamesYieldTheID` | internal/agent/agent.go:350-356 | any runtime prefix and scope suffix around a dash-free ID, or none, yields the ID |
| `Reporter.MatchIsEquality` | internal/agent/reporter.go:425-433 | whatever the scheme, a status ID matches exactly the ID behind its separator |
| `Reporter.FindContainerByID` | internal/agent/reporter.go:398-418 | the first matching container in status order, with the matching incarnation's index, or none when none matches |
| `Reporter.PublishedMatches` | internal/agent/reporter.go:398-418 | of a container's incarnations exactly the current and the previous are recognised, with their own restart numbers |
| `Reporter.PublishedIsStatus` | internal/agent/reporter.go:398-418 | what the kubelet publishes shows the last two incarnations under their own IDs and restart numbers |
| `Reporter.SilentDoesNotMatch` | internal/agent/reporter.go:398-433 | a status that does not show the ID, pending, lagging or published, does not match it |
| `Reporter.MatchInOwner` | internal/agent/reporter.go:249-298 | over all pods on the node, whatever else there is still waiting for an ID, the one status that shows the ID is found, with that incarnation's number |
| `Reporter.VictimIsIdentified` | internal/agent/reporter.go:249-298 | from the cgroup name with any runtime prefix: the owning incarnation is found in one look at the node, and the log opened for it is that incarnation's file or none |
| `Reporter.ResolvePodMeta` | internal/agent/reporter.go:249-298 | success exactly on a match in the last listing; "not found" only when that listing has none and nothing was pending or all six attempts were used; listing and context errors exactly when they occur; result and number of listings are those of the specified resolution |
| `Reporter.VictimIsResolved` | internal/agent/reporter.go:249-325 | a victim whose status is pending in the first n < 6 listings and shows its ID in the next is resolved, after exactly n + 1 listings, to the incarnation that died |
| `Reporter.ResolveScheduleTotal` | internal/agent/reporter.go:47-51 | a resolution that never settles waits 6.2 seconds in all |
| `Reporter.CreateCrashReport` | internal/agent/reporter.go:109-215 | once created, success exactly when the last status attempt succeeded; a final error is that attempt's own; the context's error exactly when a wait after a retryable reply was cancelled; at most four attempts |
| `Names.LabelValue` | internal/agent/reporter.go:460-478 | the builder loop computes the specified label |
| `Names.LabelValueIsValid` | internal/agent/reporter.go:460-478 | for every input the result is empty or a well-formed label value of at most 63 characters |
| `Names.LabelValueKeepsValid` | internal/agent/reporter.go:460-478 | a value that is already valid is unchanged |
| `Names.LabelValueIsIdempotent` | internal/agent/reporter.go:460-478 | applying it twice is applying it once |
| `Names.SanitizeName` | internal/agent/reporter.go:482-496 | the builder loop computes the specified name |
| `Names.SanitizedKeeps` | internal/agent/reporter.go:482-496 | a valid name is unchanged |
| `Names.SanitizedIsSubdomainIff` | internal/agent/reporter.go:482-496 | for every input the result is a valid DNS subdomain exactly when there is a letter or digit, and every dot with letters or digits on both sides, however far, has one next to it on each; letters of any case, and the two code points outside ASCII that lower-case into it |
| `Names.SanitizedCanBeInvalid` | internal/agent/reporter.go:482-496 | an input whose result is not a valid name |
| `Names.PrefixIsWellSpelled` | internal/agent/reporter.go:442-451 | the prefix is cut after a letter or digit and closed by one dash, within 58 bytes |
| `Names.GeneratedNameIsValid` | internal/agent/reporter.go:442-496 | for every valid pod and container name, the prefix and any five lower-case letters or digits form a DNS subdomain of at most 63 bytes |

## Left out

- The eBPF program, the ring buffer, kernel structures and cgroup detection: foreign calls; the loop starts at a received event.
- HTTP transport, JSON marshalling, URL redaction and the non-Slack payload: delivery is a success or a failure.
- The base text of the Slack message: any text; Kubernetes names in it are not escaped by the source and nothing is claimed about them.
- Docker's JSON log lines and RFC 3339 timestamps: recognised by parameters; the container runtime's own framing is modelled in full.
- The scan for the newest log file when the incarnation is unknown: a parameter. Files that shrink while being read and open flags are not modelled.
- Metrics, the label limiter and Kubernetes Events: only the counters a conservation law needs.
- Flags, environment and the other validated settings: only the TTL, the tail count and the slot limit, by their validated ranges; the cooldown window is any integer.
- Leader election and the work queue: one reconcile of a report at a time; one report per run, whose name is not reused.
- The assembly of the report's spec, labels and owner reference from the event: the report's other fields are arbitrary and unchanged.
- Deep copies, CRD and RBAC manifests, scripts: only the schema limits, as constants.
- Reconciler.Controller.Reconcile: describes one uninterrupted reconcile whose patch is answered; interleavings, restarts in the middle and lost replies are covered by the runs of `Lifecycle`.
- ReportWriter.Agent.CreateCrashReport: describes the two writes without other actors in between; interleavings are covered by the runs of `Lifecycle`, and the waits by `Reporter.CreateCrashReport`.
- Retry.RetryOnBackoff: the factor is a natural number and jitter an arbitrary extra wait; both schedules in the source double. A cancellation that coincides with an elapsed wait may be seen or not, as in the source.
- GarbageCollector.SortOldestFirst: an insertion sort stands for the library's; the order among equal timestamps is not part of any statement.
- Names.SanitizeName: works on code points; the decoding of UTF-8 into them is not modelled.
- Names.LabelValue: works on code points; the decoding of UTF-8 into them is not modelled.
- Slack.SlackLogBlock: takes the marker as an argument; the statements about whole messages fix it to the source's.
