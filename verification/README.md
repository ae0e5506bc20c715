# Verified models of ShowMesh's reporting and control clients

This project models the parts of ShowMesh whose correctness is about whole histories rather than
single calls, and proves what they promise.

- **The FPP plugin as a crash-prone reporter** (`FailureBuffer`, `Files`, `SubmitRun`, `MacroCache`,
  `PluginMachine`, `PluginAccounting`, `PluginRun`, `PluginDisk`). Every invocation loads a bounded buffer of
  degraded outcomes, reports it with its request, and either clears it (only after a confirmed run)
  or saves it with one more entry. `PluginMachine` has one transition per effect, plus crashes, lost
  answers, failed reads and writes and damaged files; `PluginRun.CmdRun` is the program's own sequence of
  effects, proved to be an execution of that machine. A process killed anywhere is therefore a
  prefix of an execution, and `PluginAccounting` proves what every execution keeps, and exactly when a
  failure is told to the coordinator twice. `PluginDisk` puts the file level underneath: a whole
  invocation on a file system, every system call of which leaves the files as some prefix of the
  invocation's effects leaves them.
- **The MultiSync evidence collector** (`SyncStreams`, `Capture`, `OpenBeforeStart`,
  `DurationStats`). A packet-by-packet collector whose every field equals a definition over the
  packet history; each definition is characterised without reference to the collector.
- **The audit pager** (`AuditPaging`). Following the printed cursors against a log that grows and is
  pruned between any two queries.
- **Optimistic concurrency** (`AudioNodeSet`). One read, fields carried forward, a conditional PUT,
  and other writers in between.
- **Parsers, printers and exact rewrites** (`Decimal`, `Text`, `ChannelRanges`, `PairingCode`,
  `Json`, `ScheduledAt`, `ConfigSet`, `AssetTransfer`).

`Sequences` holds the facts about filtering, windows and embeddings that several of them share.
Instants and durations are whole nanoseconds.

## Assumptions

- One plugin process at a time: the program takes no lock, and nothing here covers two overlapping
  processes.
- A reply that confirms a run (2xx, a body that decodes, a run id, the submitted macro) was made by
  the coordinator that accepted that request. Every other reply is unrestricted.
- The coordinator takes up one request at most once (each invocation sends one request, under an
  idempotency key of its own), but possibly long after its sender has given up on it.
- What was written to one of the three files decodes to the value that was encoded.
- The coordinator's verdict on a node's placement (routes, channels, timecode, role and zone, checked
  against the node's reports and the other nodes) stays the same while a command runs, and
  "2026-01-01T00:00:00Z" is a timestamp to it.
- A macro's definition does not change under a revision number (needed by the cache result only).
- A crash is the death of the process. The program calls no fsync, so what a power loss does to
  already renamed files is not claimed.
- The name that CreateTemp picks is not the target's own name.
- Audit ids are positive and never reused, as SQLite's AUTOINCREMENT gives them. Pruning may remove
  any rows: the store prunes by recorded time, which callers may set, so rows need not go oldest
  first, and the walk does not need them to.

## What is false, and exactly when

- The buffer is one batch prune of the history after every append if and only if every append keeps
  pace: no entry of the window that was too old at the last append is young enough again at this
  one, and an entry that leaves a full window young enough leaves only such entries behind
  (`FailureBuffers.BatchedExactly`). A clock that never runs backwards always does
  (`FailureBuffers.IncrementalIsBatch`); three failures, the first past thirty days at the second and
  within them again at the third, do not (`FailureBuffers.ClockStepBackLosesMore`).
- Reports are not exactly-once. While every invocation can read the buffer, of two accepted requests
  in a row the second reports again all that the first reported, unless the first got a confirming
  answer and its clear landed (`PluginAccounting.ReportedAgainExactly`); so such a history tells each failure at most once if and only
  if every accepted request that owed something was closed in that way before another accepted one
  was sent (`PluginAccounting.ToldOnceExactly`). A lost answer is enough: no write need fail
  (`PluginRuns.LostAnswerIsToldTwice`).
- A read of an intact file can fail. An invocation whose read of the buffer fails counts one lost
  record and, if its save or clear lands, writes over whatever the file held; until then nothing is
  lost, because the next invocation reads the file again (`PluginAccounting.NothingLostSilently`,
  `PluginAccounting.EntriesLeaveAccounted`). A cache refresh whose own read fails before it writes
  keeps no other macro's entry (`PluginRuns.CacheChangesOneMacro`).
- Whenever it lands over an object that is there, `audio node set` keeps the carried fields, against
  every sequence of other accepted requests, if and only if its own body is refused, or it carries
  nothing, or its If-Match is no newer than what was there at the read
  (`AudioNodeSet.KeepsFieldsExactly`). So `--force` and an `--if-match` from after the read are not
  safe, and neither is the default after a read that found nothing: it sends no header, and a
  concurrent creation is overwritten whenever anything is carried (`AudioNodeSet.DefaultSafeExactly`,
  `AudioNodeSet.CreateRaceLosesUpdate`).
- No If-Match protects a concurrent delete. A delete keeps the revision, so a write that is accepted
  and whose header can pass once there is something to delete may undo one
  (`AudioNodeSet.KeepsDeletesExactly`); a write that lands does so exactly when a delete has taken
  effect and no PUT since (`AudioNodeSet.UndoesDeleteExactly`), and the default header lets it
  (`AudioNodeSet.DeleteRaceIsUndone`).
- `--scheduled-at-ns` with params of JSON `null` is not refused like other non-objects: the program
  writes to a nil map and panics, and that is the only such input (`ScheduledAt.NullPanicsExactly`).
- The asset transfer budget stays within its bounds on every platform exactly up to
  9 671 406 525 459 753 bytes; beyond that a conversion or a sum overflows and the budget can be
  negative (`AssetTransfer.BudgetBoundsExactly`).
- A configuration payload passed bare and the same payload inside a get response come to the same
  result if and only if the payload has no member called "payload", or is itself unwrapped as a get
  response and what stands at "endpoints" in it and in its own payload makes no difference
  (`ConfigSet.BareAgreesExactly`). A payload with "kind", "revision", "endpoints" and a "payload" of
  its own sends its own list inside a response and the inner list when passed bare
  (`ConfigSet.TwoListsDisagree`, `ConfigSet.TwoListsExist`).
- The documentation says the audit log is pruned from its oldest end; the store's age bound deletes
  by recorded time instead. The model follows the store.

## Model

| member | source | states |
|---|---|---|
| FailureBuffers.FailureBuffer.Append | cmd/showmesh-fpp-plugin/failurebuffer.go:65-69 | the loops leave the buffer that appending, pruning by age and pruning by count give, entries and drop count alike |
| FailureBuffers.FailureBuffer.PruneByAge | cmd/showmesh-fpp-plugin/failurebuffer.go:71-81 | exactly the entries at most thirty days old stay, in order, and each other one is counted |
| FailureBuffers.FailureBuffer.PruneByCount | cmd/showmesh-fpp-plugin/failurebuffer.go:83-90 | the newest fifty stay and the excess is counted |
| FailureBuffers.FailureBuffer.AsPriorFailures | cmd/showmesh-fpp-plugin/failurebuffer.go:124-148 | the report loop yields the wire-valid entries in order and adds every other one to the dropped count |
| FailureBuffers.AppendKeepsNewest | cmd/showmesh-fpp-plugin/failurebuffer.go:61-90 | an append never drops the new entry and leaves at most fifty entries, none older than thirty days |
| FailureBuffers.AppendAnswers | cmd/showmesh-fpp-plugin/failurebuffer.go:61-90 | with any clock, an append keeps an ordered selection of the history and counts exactly the rest |
| FailureBuffers.ReportConserves | cmd/showmesh-fpp-plugin/failurebuffer.go:92-148 | a report carries only wire classes, is an ordered selection, conserves entries plus drops, and is the whole buffer when every class is wire-valid |
| FailureBuffers.ReportExactly | cmd/showmesh-fpp-plugin/failurebuffer.go:124-148 | the report holds exactly the refused, rejected and unreachable entries, field for field and in order, and counts every other one as a drop |
| FailureBuffers.BatchExact | cmd/showmesh-fpp-plugin/failurebuffer.go:17-20 | the batch prune keeps an entry if and only if it is among the last fifty and at most thirty days old, and counts all others |
| FailureBuffers.BatchAppend | cmd/showmesh-fpp-plugin/failurebuffer.go:65-90 | one more invocation on a batch-pruned buffer gives the batch prune of the longer history |
| FailureBuffers.IncrementalIsBatch | cmd/showmesh-fpp-plugin/failurebuffer.go:65-90 | for every history with a non-decreasing clock, pruning at each append equals one batch prune at the end, drop count included |
| FailureBuffers.BatchAppendExactly | cmd/showmesh-fpp-plugin/failurebuffer.go:65-90 | for any clock, one more invocation on a batch-pruned buffer gives the batch prune of the longer history if and only if the append keeps pace |
| FailureBuffers.BatchedExactly | cmd/showmesh-fpp-plugin/failurebuffer.go:65-90 | for every history and clock, the buffer is the batch prune after each append if and only if every append keeps pace |
| FailureBuffers.ClockStepBackLosesMore | cmd/showmesh-fpp-plugin/failurebuffer.go:71-81 | any three failures whose first is too old at the second and young enough at the third: the buffer keeps two and counts one, the batch prune keeps all three |
| Files.Stage | cmd/showmesh-fpp-plugin/jsonfile.go:22-42 | at every point up to the rename only the temporary file differs, partial writes included; a failure removes it |
| Files.Commit | cmd/showmesh-fpp-plugin/jsonfile.go:43-46 | a rename that succeeds is a single point, at which the target becomes the whole staged content; one that fails changes nothing but the temporary file, which is then removed |
| Files.WriteJsonFile | cmd/showmesh-fpp-plugin/jsonfile.go:16-47 | a write that succeeds changes the target at its last point, to all new bytes, and at no earlier one; a write that fails changes it at none; no other file changes; exactly when it reports success; what failure leaves |
| Files.SaveReadsOldOrNew | cmd/showmesh-fpp-plugin/jsonfile.go:10-67 | read back, the points of a save give the old value before the target changes and the whole new one after, and every other file reads as before |
| SubmitRuns.SubmitMacroRun | cmd/showmesh-fpp-plugin/client.go:53-146 | the early returns classify every reply as the function that OkOnlyWhenConfirmed pins down |
| SubmitRuns.OkOnlyWhenConfirmed | cmd/showmesh-fpp-plugin/client.go:80-135 | each of the five outcomes exactly: accepted is a 2xx answer of at most 1 MiB that decodes with a run id and the submitted macro; refused is 401 or 403, rejected any other 4xx, within the limit; unreachable is all that is left; the status and the run are those of the reply |
| MacroCaches.UpdateMacroCache | cmd/showmesh-fpp-plugin/cache.go:84-114 | the macro's entry mirrors the fetched definition step by step; other entries stay if the old cache was readable and none are kept otherwise |
| MacroCaches.UpdateAgrees | cmd/showmesh-fpp-plugin/cache.go:84-114 | an update from a faithful fetch keeps the whole cache in agreement with the definitions |
| PluginRuns.PluginHost.CmdRun | cmd/showmesh-fpp-plugin/run.go:60-156 | one invocation performs exactly its list of effects, each a legal transition of the machine, and ends idle; its exit code by what came back (local error without a credential, each other code by the reply itself); what each of the three files then holds if its write lands, and that it is unchanged if not |
| PluginRuns.PluginHost.LoadFailureBuffer | cmd/showmesh-fpp-plugin/run.go:111-128 | an absent file loads empty, one that is damaged or cannot be read as exactly one dropped record, a readable one as its age-pruned self; the report is that buffer's |
| PluginRuns.PluginHost.ReportLocalError | cmd/showmesh-fpp-plugin/run.go:181-193 | an attempt that never reaches the coordinator touches only the status file |
| PluginRuns.PluginHost.ReportOk | cmd/showmesh-fpp-plugin/run.go:195-223 | refresh, clear, status in that order, with the three files' contents for every combination of failed writes |
| PluginRuns.PluginHost.RefreshMacroCacheIfStale | cmd/showmesh-fpp-plugin/run.go:239-251 | no definition is asked for if and only if the cache, as read, holds the pinned revision; then the file stays, and otherwise a definition that came back and a write that lands leave the entry at its revision, mirroring it |
| PluginRuns.RefreshExactly | cmd/showmesh-fpp-plugin/run.go:225-251 | every refresh transition keeps a cache seen at the pinned revision and otherwise, with a fetch and a landed write, leaves the fetched definition at its revision |
| PluginRuns.PluginHost.ReportDegraded | cmd/showmesh-fpp-plugin/run.go:264-293 | status first, then the buffer with the new failure; never a clear and never a cache change |
| PluginAccounting.AlwaysSound | cmd/showmesh-fpp-plugin/run.go:102-156 | in every execution the readable file answers for everything owed and the in-memory buffer for what its invocation carries, every request reports that, and every clear follows a confirmed, recorded report that settled it |
| PluginAccounting.NothingLostSilently | cmd/showmesh-fpp-plugin/run.go:111-155 | at least once: a failure once saved is still held or counted, or was given up at a clear justified by a recorded report carrying or counting it, or was written over by an invocation that could not read the file |
| PluginAccounting.UndisturbedReadsAll | cmd/showmesh-fpp-plugin/run.go:111-126 | without outside damage and failing reads every invocation reads the whole buffer, through any crashes and failed writes |
| PluginAccounting.EntriesLeaveAccounted | cmd/showmesh-fpp-plugin/run.go:264-293 | step by step, entries leave a readable file only by being counted, one for one, or with a confirmed, recorded report that settles the whole file; if the invocation could not read it, the same holds of the one lost record it counts instead |
| PluginAccounting.ExactAccounting | cmd/showmesh-fpp-plugin/run.go:111-135 | while no save, clear or load went wrong, each accepted request reports exactly as many entries and drops as there were degraded attempts since the previous accepted one |
| PluginAccounting.CoveredIsReported | cmd/showmesh-fpp-plugin/run.go:111-135 | a request whose sender read the file, sent while a saved failure is neither cleared nor written over, reports it, carried or counted |
| PluginAccounting.ReportedAgainExactly | cmd/showmesh-fpp-plugin/run.go:200-207 | of two accepted requests in a row of an undisturbed execution, with crashes, lost answers, failed writes and late acceptance anywhere, the second covers a failure the first covered if and only if the first was not both confirmed and cleared; if it was not, the second reports the first one's whole account |
| PluginAccounting.ToldOnceExactly | cmd/showmesh-fpp-plugin/run.go:264-293 | each failure is in at most one accepted report if and only if every accepted request that owed something was confirmed and cleared before another accepted one was sent |
| PluginRuns.RunLeaves | cmd/showmesh-fpp-plugin/run.go:102-156 | one whole invocation leaves four events, its report on the record when the coordinator accepts it, and a buffer file cleared, extended or untouched |
| PluginRuns.RunClosesExactly | cmd/showmesh-fpp-plugin/run.go:200-207 | an invocation closes its request if and only if its reply confirms the run and its clear lands |
| PluginRuns.SecondRunRepeatsExactly | cmd/showmesh-fpp-plugin/run.go:127-155 | of two accepted invocations in a row that read the file the second reports a failure again if and only if the first was not both confirmed and cleared |
| PluginRuns.LostAnswerIsToldTwice | cmd/showmesh-fpp-plugin/client.go:80-89 | three runs whose reads and writes all succeed, the second accepted with its answer lost: the first failure is in two accepted reports |
| PluginAccounting.FileIsBatchPrune | cmd/showmesh-fpp-plugin/failurebuffer.go:65-90 | with a forward clock, a readable file is at every moment the batch prune of the failures saved since the last clear, through crashes, lost answers and failed writes |
| PluginAccounting.CleanFileIsBatchPrune | cmd/showmesh-fpp-plugin/failurebuffer.go:32-44 | when nothing went wrong it is the batch prune of the degraded attempts since the last accepted run |
| PluginDisks.WriteStep | cmd/showmesh-fpp-plugin/jsonfile.go:16-47 | at every point between the system calls of a save, clear, status or cache write the three files read as the machine's disk before the step, and from the rename on as its disk after it |
| PluginDisks.InvocationOnDisk | cmd/showmesh-fpp-plugin/run.go:60-156 | a whole invocation on the file system: every point between its system calls reads as the disk after some prefix of its effects, and the end as the disk after all of them |
| PluginRuns.CacheAlwaysAgrees | cmd/showmesh-fpp-plugin/run.go:225-251 | in every reachable state each cached entry is that macro's definition at its cached revision |
| PluginRuns.RefreshServesTheRun | cmd/showmesh-fpp-plugin/run.go:225-251 | after the refresh of an accepted run, in any reachable state, the cache holds the definition the run pinned, if it was seen there before or the fetch gave that revision and the write landed |
| PluginRuns.CacheChangesOneMacro | cmd/showmesh-fpp-plugin/cache.go:65-114 | no transition changes the entry of a macro other than the one being run, except that a refresh which writes after its own read of the file failed keeps no other entry |
| SyncStreams.IntervalSeries | cmd/showmesh-multisync-probe/main.go:577-590 | n stamps give n - 1 intervals exactly when none but the last is the zero instant; interval i is stamp i+1 minus stamp i and they sum to last minus first |
| SyncStreams.IntervalsExact | cmd/showmesh-multisync-probe/main.go:577-590 | one interval for each stamp but the last that is not the zero instant, up to the next stamp |
| SyncStreams.SyncStampsExact | cmd/showmesh-multisync-probe/main.go:492-501 | the stamps are the arrival times of exactly the SYNC packets of the class, in order |
| SyncStreams.StreamExact | cmd/showmesh-multisync-probe/main.go:543-548 | a class's stream is exactly its sync packets, media or not by their own file type, in order, each with its arrival |
| SyncStreams.AnchorOf | cmd/showmesh-multisync-probe/main.go:644-651 | the anchor is the latest OPEN, START or first packet of a same-file block at or before a packet |
| SyncStreams.SamplePointsExact | cmd/showmesh-multisync-probe/main.go:629-642 | samples stand exactly at the SYNC packets whose predecessor in their class names the same file, each once, in order |
| SyncStreams.DriftClosedForm | cmd/showmesh-multisync-probe/main.go:610-654 | the k-th sample stands at the k-th sample point and measures it against the packet with which its free run began (an OPEN, a START or the first of its file's block, and none since): file, position, estimate and delta by the two packets' own seconds or frames and arrival times |
| SyncStreams.DriftLaw | cmd/showmesh-multisync-probe/main.go:434-439 | so the delta is the advance of the master's clock, or of its frames, less the local time passed: exactly for frames, within a nanosecond where a clock is used, the mixed cases included |
| SyncStreams.DriftAppend | cmd/showmesh-multisync-probe/main.go:610-654 | a later packet adds at most its own sample and revises none |
| SyncStreams.StreamIndependence | cmd/showmesh-multisync-probe/main.go:543-548 | removing the other class's sync packets leaves a class's stream unchanged |
| Captures.DriftTracker.Observe | cmd/showmesh-multisync-probe/main.go:402-414 | the tracker always stands at the stream's latest anchor and samples exactly its sample points |
| Captures.NewestExact | cmd/showmesh-multisync-probe/main.go:629-642 | a packet gives a sample exactly when it is a SYNC of the file of the packet before it, and then one that measures its free run |
| Captures.Capture.Handle | cmd/showmesh-multisync-probe/main.go:447-541 | after any packet every field equals its definition over the whole history, and the record carries the packet's own drift sample or none |
| Captures.Capture.CountTraffic | cmd/showmesh-multisync-probe/main.go:448-460 | packet, transport and interface counts, first and last times and the source set are those of the history |
| Captures.CountersExact | cmd/showmesh-multisync-probe/main.go:448-460 | each counter holds every transport, or every nonzero interface, that occurred, with its number of packets, and nothing else |
| Captures.FirstAtExact | cmd/showmesh-multisync-probe/main.go:450-453 | the first time is that of the earliest packet whose clock is set, and unset only if none is |
| Captures.Capture.ObserveInterArrival | cmd/showmesh-multisync-probe/main.go:577-590 | a SYNC extends its own class's interval series and leaves the other class alone |
| Captures.Capture.ObserveLifecycle | cmd/showmesh-multisync-probe/main.go:592-605 | OPEN, START and STOP are logged, STOP also as a stop event, nothing else |
| Captures.LifecycleExact | cmd/showmesh-multisync-probe/main.go:592-600 | the lifecycle log holds exactly the OPEN, START and STOP packets, in order, with every field of the packet |
| Captures.StopsAndBlanksExact | cmd/showmesh-multisync-probe/main.go:508-510 | the stop and blank log holds exactly the STOP and BLANK packets, in order, with their fields |
| Captures.Capture.ObserveDrift | cmd/showmesh-multisync-probe/main.go:610-654 | the class's tracker and samples become those of the longer stream; the other class's samples stay |
| Captures.Collect | cmd/showmesh-multisync-probe/main.go:183-184 | driving a fresh capture with any packets records exactly that history |
| Captures.IntervalsFromPackets | cmd/showmesh-multisync-probe/main.go:577-590 | with every clock set, a class's intervals are the times from each of its SYNC packets to the next |
| Captures.DriftFromPackets | cmd/showmesh-multisync-probe/main.go:610-654 | a class's samples are one for each sample point of its stream, each measuring its free run |
| Captures.CaptureIndependence | cmd/showmesh-multisync-probe/main.go:303-313 | collecting an interleaved run and one class alone give that class the same intervals and drift samples |
| OpenBeforeStart.AnalyzeOpenBeforeStart | cmd/showmesh-multisync-probe/main.go:963-1009 | the map-and-order pass reports every line that is true of the events and no other, at most one a file, in order of first appearance |
| OpenBeforeStart.AnalysisExact | cmd/showmesh-multisync-probe/main.go:963-1009 | a line is there if and only if it holds of the events: the first OPEN at or before the first START with the time between, the START before the OPEN with the time between, a START without an OPEN, an OPEN without a START; in order of first appearance; a file has one exactly when it has an OPEN or a START |
| OpenBeforeStart.FirstTimeFound | cmd/showmesh-multisync-probe/main.go:982-991 | those first times are the times of the earliest such events |
| DurationStats.Summarize | cmd/showmesh-multisync-probe/main.go:913-935 | the four statistics are elements of the input with min <= median <= p95 <= max, min and max bound it, and median and p95 have the rank k with 100 k <= percent (n - 1) < 100 (k + 1) for 50 and 95 |
| DurationStats.RankOfSorted | cmd/showmesh-multisync-probe/main.go:923-935 | the sorted copy's entry at k has at least k + 1 input values at most it and n - k at least it |
| DurationStats.SortedUnique | cmd/showmesh-multisync-probe/main.go:914-915 | any sort of the copy gives the same series |
| AuditPaging.LimitsAgree | internal/coordinator/api/audit.go:144-154 | the client's full-page size is the server's for every query it accepts: 100, or the limit up to 500; it refuses exactly the limits below one |
| AuditPaging.PageAndNote | cmd/showmeshctl/cmd_audit.go:170-193 | a descending page holds all its request reaches (from the newest entry for no bound and for bound 0) down to its last id; its note continues from there or nothing retained lies beyond |
| AuditPaging.DescNoteExactly | cmd/showmeshctl/cmd_audit.go:170-193 | each note of a descending page exactly: the end of history, with its id, when the page ends at or below the oldest id the second query finds; otherwise its last id when it is full; otherwise none |
| AuditPaging.CursorAdvances | cmd/showmeshctl/cmd_audit.go:187-190 | a printed cursor is a real bound and what remains below it strictly shrinks, whatever is appended or pruned |
| AuditPaging.DescWalkComplete | cmd/showmeshctl/cmd_audit.go:155-193 | from any bound the server takes, 0 included, the descending walk ends, its ids strictly decrease, and it shows every entry its first page could reach that is still retained at the end |
| AuditPaging.AscWalkComplete | cmd/showmeshctl/cmd_audit.go:155-193 | the ascending walk of a quiescent log ends having shown exactly the ids above its start, in order |
| AuditPaging.AscTrailComplete | cmd/showmeshctl/cmd_audit.go:155-193 | however the log grows and is pruned meanwhile, after any number of ascending pages the ids strictly increase and everything up to the cursor that is still retained has been shown; a walk that ends has left nothing above it |
| AudioNodeSet.Reader.FetchCurrent | cmd/showmeshctl/cmd_audio.go:802-817 | the memo asks at most once, success or failure, and what it holds is a revision the object really had |
| AudioNodeSet.ResolveIfMatch | cmd/showmeshctl/revision.go:58-77 | force, explicit flag, fetched revision, in that precedence; an absent object sends no header; other read errors stop the command |
| AudioNodeSet.BuildBody | cmd/showmeshctl/cmd_audio.go:819-908 | what is sent is what the flags and the one read ask for, read only when an omitted field needs it, and refused only on a failed read without force |
| AudioNodeSet.BodyExactly | cmd/showmeshctl/cmd_audio.go:819-908 | field by field: given flags as given, omitted ones as read, no target but with the PipeWire sink, no latency but a measured one; the body meets this and no other does |
| AudioNodeSet.StoredIsAccepted | internal/coordinator/config/audionode.go:320-519 | the stored form of an accepted body is accepted and is its own stored form |
| AudioNodeSet.StoredExactly | internal/coordinator/config/audionode.go:320-519 | the stored form is the body with role, sink and latency defaults made explicit and every other field the same |
| AudioNodeSet.CmdAudioNodeSet | cmd/showmeshctl/cmd_audio.go:757-921 | usage errors, the read and its refusals exactly; what is sent is what the flags and the read ask for; it lands if and only if it is accepted and --force, else the --if-match flag, else the read revision lets it replace what it finds, whatever other accepted requests come first, and then adds exactly its stored form; the default write over an object that was read keeps every omitted field's meaning and undoes a delete exactly when one passed over that revision; at most one GET on any path |
| AudioNodeSet.CarryForwardKeeps | cmd/showmeshctl/cmd_audio.go:833-908 | a body built from a read keeps what the omitted fields meant there |
| AudioNodeSet.KeepsFieldsExactly | cmd/showmeshctl/revision.go:11-22 | against every sequence of other accepted PUTs and of DELETEs that leaves an object to write over, the carried fields are safe if and only if the command's own body is refused, or nothing is carried, or the If-Match is no newer than what was there at the read, found or not |
| AudioNodeSet.UndoesDeleteExactly | internal/coordinator/api/showconfig.go:838-855 | a write that lands undoes a delete if and only if a delete took effect since the read and no PUT after it |
| AudioNodeSet.KeepsDeletesExactly | internal/coordinator/store/config.go:458-474 | every concurrent delete is safe if and only if the command's own body is refused or its header cannot pass once there is something to delete |
| AudioNodeSet.DefaultSafeExactly | cmd/showmeshctl/revision.go:58-77 | without --force and --if-match an accepted body leaves the carried fields safe if and only if the read found the object or nothing is carried, and never a concurrent delete |
| AudioNodeSet.DeleteRaceIsUndone | internal/coordinator/api/showconfig.go:838-855 | a delete of the revision just read passes, and so does the default write that undoes it |
| AudioNodeSet.CreateRaceLosesUpdate | cmd/showmeshctl/revision.go:68-74 | for all flags that carry anything and whose body is accepted, another client's accepted creation after a not-found read is overwritten and loses a carried field |
| AudioNodeSet.TargetKeptExactly | cmd/showmeshctl/cmd_audio.go:865-880 | an omitted PipeWire target is kept exactly when the sink written is PipeWire or there was none |
| Decimal.ReadsWhatItPrints | cmd/showmeshctl/cmd_fpp_set_brightness_excluded_ranges.go:115 | printed decimals are canonical and read back as the same number |
| Decimal.PrintsWhatItReads | cmd/showmeshctl/cmd_audio_session.go:374-376 | text of the digits expression is the one decimal of its value |
| Decimal.AtoiPrint | cmd/showmeshctl/cmd_fpp_set_brightness_excluded_ranges.go:98-99 | reading a printed int gives it back exactly when it fits in 64 bits |
| Decimal.AtoiExactly | cmd/showmeshctl/cmd_fpp_set_brightness_excluded_ranges.go:98-99 | a text is read as n exactly when it is digits of that value after one sign or none and n fits in 64 bits |
| ChannelRanges.ParseChannelRanges | cmd/showmeshctl/cmd_fpp_set_brightness_excluded_ranges.go:89-106 | the loop returns the list, or the first part that cannot be read |
| ChannelRanges.PartExactly | cmd/showmeshctl/cmd_fpp_set_brightness_excluded_ranges.go:96-103 | a part is read as the numbers around its first dash, both at least one, whatever space stands around them, and in no other case |
| ChannelRanges.ReadAllExactly | cmd/showmeshctl/cmd_fpp_set_brightness_excluded_ranges.go:95-104 | the parts are read in order, each trimmed, or the first that cannot be read is refused |
| ChannelRanges.EmptyExactly | cmd/showmeshctl/cmd_fpp_set_brightness_excluded_ranges.go:90-94 | the empty list is what blank text and "none" in any case stand for, and nothing else |
| ChannelRanges.FormatChannelRanges | cmd/showmeshctl/cmd_fpp_set_brightness_excluded_ranges.go:109-118 | the loop prints the list that PrintedExactly describes |
| ChannelRanges.PrintedExactly | cmd/showmeshctl/cmd_fpp_set_brightness_excluded_ranges.go:109-118 | "none", or each start and count in decimal with a dash between and ", " after all but the last |
| ChannelRanges.RoundTrip | cmd/showmeshctl/cmd_fpp_set_brightness_excluded_ranges.go:87-118 | parsing the printed list gives it back if and only if every start and count is at least one and fits an int |
| ChannelRanges.Normalizes | cmd/showmeshctl/cmd_fpp_set_brightness_excluded_ranges.go:87-118 | for any accepted text, printing and reparsing is a fixed point |
| PairingCode.NormalizePairingCode | cmd/showmeshctl/cmd_fpp_pair.go:82-99 | the character loop accepts and returns what the whole-text definition does |
| PairingCode.AcceptedExactly | cmd/showmeshctl/cmd_fpp_pair.go:82-96 | an input is accepted exactly when, separators aside, it is eight characters that can be read |
| PairingCode.WrittenForm | cmd/showmeshctl/cmd_fpp_pair.go:97-98 | nine characters: a dash in the middle and eight of the alphabet |
| PairingCode.TakesPlainText | cmd/showmeshctl/cmd_fpp_pair.go:82-99 | eight characters of the alphabet are written as they are, with the dash |
| PairingCode.SeparatorsAreFree | cmd/showmeshctl/cmd_fpp_pair.go:86-87 | a dash, space or tab anywhere makes no difference |
| PairingCode.CaseIsFree | cmd/showmeshctl/cmd_fpp_pair.go:84 | the case of a letter makes no difference |
| PairingCode.AlphabetText | cmd/showmeshctl/cmd_fpp_pair.go:73-76 | the alphabet is the digits and the capitals without I, L, O and U |
| PairingCode.Idempotent | cmd/showmeshctl/cmd_fpp_pair.go:78-99 | the written form is its own written form |
| PairingCode.AgreeExactly | cmd/showmeshctl/cmd_fpp_pair.go:78-99 | accepted inputs agree exactly when their upper-cased, separator-free texts agree |
| ScheduledAt.WithScheduledAtNs | cmd/showmeshctl/cmd_audio_session.go:386-412 | the checks in order, with each refusal, give the specification's outcome |
| ScheduledAt.SucceedsExactly | cmd/showmeshctl/cmd_audio_session.go:374-412 | succeeds if and only if the text is the decimal of some n in int64 and the params are absent or an object without the key; adds that literal and keeps every other key |
| ScheduledAt.SecondIsRefused | cmd/showmeshctl/cmd_audio_session.go:401-404 | applying the flag to its own result is always refused |
| ScheduledAt.NullPanicsExactly | cmd/showmeshctl/cmd_audio_session.go:395-405 | params of null, and nothing else, crash the merge |
| ConfigSet.ParseConfigSetPayload | cmd/showmeshctl/cmd_config.go:347-384 | each branch and refusal as specified |
| ConfigSet.ParsedExactly | cmd/showmeshctl/cmd_config.go:347-384 | each outcome by what stands at "endpoints", or in its absence inside the payload: each refusal exactly, and a list exactly when an array stands there that reads as it |
| ConfigSet.EndpointExactly | cmd/showmeshctl/cmd_config.go:378-383 | an item reads as the last strings of its "id" and "url" members, in any case, empty if none, and not at all when one of them is neither a string nor null |
| Json.LastMemberStays | cmd/showmeshctl/cmd_config.go:348-354 | an object has under a key what the last of its members with that key holds |
| ConfigSet.UnwrapConfigGetResponse | cmd/showmeshctl/cmd_config.go:283-307 | the early returns unwrap a get response, pass other inputs through and refuse the ambiguous and the null one |
| ConfigSet.ConfigSetList | cmd/showmeshctl/cmd_config.go:191-199 | a list that is sent stood in the input as an array at one of three places, item for item; the unwrapping refuses exactly the inputs that have a payload without being a get response with one that is not null |
| ConfigSet.GetThenSet | cmd/showmeshctl/cmd_config.go:255-307 | a get response piped back comes to what its payload holds |
| ConfigSet.BareAgreesExactly | cmd/showmeshctl/cmd_config.go:283-307 | the bare payload comes to the same if and only if it has no payload of its own, or is unwrapped once more and what stands at "endpoints" in it and in its inner payload makes no difference |
| ConfigSet.BareSendsTheSame | cmd/showmeshctl/cmd_config.go:347-384 | when both send a list, they differ only for a payload with both an endpoints list and a payload of its own |
| ConfigSet.TwoListsDisagree | cmd/showmeshctl/cmd_config.go:283-384 | such a payload sends its own list inside a response and the inner list when passed bare |
| ConfigSet.NeverAWipe | cmd/showmeshctl/cmd_config.go:337-346 | whatever is sent was an array present in the input, item for item by each item's own members, never absent or null |
| AssetTransfer.BudgetSound | cmd/showmeshctl/cmd_assets.go:226-236 | up to the last sound size the budget is monotone and within 30 s and 2 h; below the ceiling it is the grace plus the whole nanoseconds the bytes take at 1 MiB/s, no more and no less; it is the ceiling only when they need it |
| AssetTransfer.BudgetBoundsExactly | cmd/showmeshctl/cmd_assets.go:226-236 | the bounds hold on every platform if and only if the size is at most that last sound size |
| AssetTransfer.EffectiveTransferTimeout | cmd/showmeshctl/cmd_assets.go:244-250 | the larger of flag and budget |
| AssetTransfer.FetchAsset | cmd/showmeshctl/cmd_assets.go:778-810 | the target changes once, at the last point, and only to the complete download whose hash matched; exactly when it succeeds; what failure leaves |

## Left out

- HTTP, TLS, redirects, timeouts and sockets: a request is a step with an answer chosen by its environment.
- JSON bytes: values are decoded trees with members in document order; re-encoding details (key order, whitespace, HTML escaping) are not modelled.
- Exit codes, messages, help texts, tables and flag parsing, except the plugin's run outcome.
- AuditPaging.LimitsAgree: only the limits the server accepts are compared; it refuses an explicit limit below one, and then no page exists to describe.
- AuditPaging.AscWalkComplete: for a log that does not move, because an ascending walk of a growing log has no end of its own; AscTrailComplete covers any number of its pages.
- SyncStreams.DriftClosedForm: durations are exact integers of nanoseconds and seconds are reals; float32 and float64 rounding and the millisecond fields are not modelled.
- DurationStats.Summarize: the percentile index is the exact floor; the program's float product has the same floor for every series shorter than 2^46.
- AssetTransfer.BudgetSound: float64 rounding of sizes above 2^53 bytes and of the product is not modelled.
- FailureBuffers.FailureBuffer.PruneByAge: ages are exact; Go saturates a difference beyond 292 years.
- PairingCode.NormalizePairingCode: input is code points; bytes that are not UTF-8 are not modelled.
- PluginRuns.PluginHost.CmdRun: whether the credential, the coordinator address and the idempotency key load is one yes or no, and the status message text is not modelled.
- AudioNodeSet.Accepts: timestamps are texts, compared as written; how the coordinator reformats them is not modelled.
- The collector's Timeline snapshots, its JSONL lines and its drift summary line.
- `wrapperRevision` and the If-Match of `config set`.
- The coordinator itself beyond the clauses cited: paging queries, revision precondition, tombstones, sink and target rules, the If-Match of a DELETE.
