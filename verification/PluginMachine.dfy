/**
 One plugin host and its coordinator as a state machine (cmd/showmesh-fpp-plugin/run.go).

 A state is what survives a crash (the three files), what one running invocation holds in memory
 (`phase`), what the coordinator has recorded (`ledger`) and a history variable (`log`). Every
 effect of cmdRun is one transition, so a process killed between any two effects is the `Crash`
 transition; `Damage` is anything outside the program that makes a file undecodable. One process
 runs at a time, as the program itself assumes by taking no lock.
 */
module PluginMachine {
  import opened Sequences
  import opened FailureBuffers
  import opened Files
  import opened SubmitRuns
  import opened MacroCaches

  datatype StatusRecord = StatusRecord(timestamp: Time, macroId: string, outcome: OutcomeClass, httpStatus: int, runId: string)

  datatype Disk = Disk(failures: File<Buffer>, cache: File<MacroCache>, status: File<StatusRecord>)

  /** What one invocation carries from loading the buffer to its last write. */
  datatype Attempt = Attempt(macroId: string, now: Time, buffer: Buffer, report: Report)

  datatype Phase =
    | Idle
    | Ready(att: Attempt)
    | InFlight(att: Attempt, request: nat, served: Option<MacroRun>)
    | Accepted(att: Attempt, run: MacroRun, httpStatus: int)
    | Refreshed(att: Attempt, run: MacroRun, httpStatus: int)
    | Flushed(att: Attempt, run: MacroRun, httpStatus: int)
    | Declined(att: Attempt, outcome: OutcomeClass, httpStatus: int)
    | Noted(att: Attempt, outcome: OutcomeClass, httpStatus: int)

  /** A request is known by the position of its `Sent` in the log. */
  datatype Event =
    | Sent(report: Report)                     // a request with this report left the host
    | Loaded(whole: bool)                      // an invocation loaded the buffer file, or could not read it
    | Degraded(failure: BufferedFailure)       // an attempt got one of the three degraded classes
    | Saved(failure: BufferedFailure)          // ... and the buffer with it reached the disk
    | SaveFailed                               // ... or did not
    | Confirmed(report: Report, run: MacroRun) // an answer confirmed the run
    | Cleared                                  // ... and the emptied buffer reached the disk
    | ClearFailed                              // ... or did not

  /** The coordinator's record: which requests it has accepted, with the report each one made. */
  type Ledger = map<nat, Report>

  datatype State = State(disk: Disk, phase: Phase, ledger: Ledger, log: seq<Event>)

  datatype WhichFile = FailuresFile | CacheFile | StatusFile

  /** Which of the two cache reads of one refresh fail although the file may be intact. */
  datatype CacheFaults = CacheFaults(check: bool, update: bool)

  /** `landed` says whether a write succeeded; a write that fails leaves the old file. `fault` and
      `faults` say which reads of a file fail, whatever the file holds. */
  datatype Transition =
    | Start(macroId: string, now: Time, fault: bool)
    | LocalFault(macroId: string, now: Time, landed: bool)
    | Send
    | Serve(runId: string, revision: int)      // the coordinator accepts the request in flight
    | LateServe(request: nat)                  // ... or one whose sender no longer waits for it
    | Answer(reply: Reply)                     // the client gets a reply, or learns it will not
    | Refresh(fetched: Option<MacroConfig>, landed: bool, faults: CacheFaults)
    | Flush(landed: bool)
    | WriteStatus(landed: bool)
    | Save(landed: bool)
    | Crash
    | Damage(file: WhichFile)

  function LoadedBuffer(file: File<Buffer>): Buffer {
    match file
    case Absent => EMPTY_BUFFER
    case Unreadable => Buffer([], 1)
    case Holds(b) => b
  }

  function FailureOf(att: Attempt, outcome: OutcomeClass, httpStatus: int): BufferedFailure {
    BufferedFailure(att.macroId, outcome, httpStatus, att.now)
  }

  function Begun(file: File<Buffer>, macroId: string, now: Time): Attempt {
    var buffer := PrunedByAge(LoadedBuffer(file), now);
    Attempt(macroId, now, buffer, AsReport(buffer))
  }

  /** Whether the refresh fetches: unless the cached revision is seen to be the run's own. */
  predicate IsStale(file: File<MacroCache>, att: Attempt, run: MacroRun, faults: CacheFaults) {
    CachedRevisionFor(Seen(file, faults.check), att.macroId) != Some(run.macroRevision)
  }

  function RefreshedCache(file: File<MacroCache>, att: Attempt, run: MacroRun,
                          fetched: Option<MacroConfig>, landed: bool, faults: CacheFaults): File<MacroCache>
  {
    if !IsStale(file, att, run, faults) || fetched.None? || !landed then file
    else Holds(Updated(Seen(file, faults.update), att.macroId, fetched.value, att.now))
  }

  function StatusAfter(file: File<StatusRecord>, rec: StatusRecord, landed: bool): File<StatusRecord> {
    if landed then Holds(rec) else file
  }

  /** A reply that confirms a run is the coordinator's own answer about the request it served. */
  ghost predicate Enabled(s: State, t: Transition) {
    match t
    case Start(_, _, _) => s.phase.Idle?
    case LocalFault(_, _, _) => s.phase.Idle?
    case Send => s.phase.Ready?
    case Serve(runId, _) => s.phase.InFlight? && s.phase.served.None? && runId != ""
    case LateServe(request) =>
      && request < |s.log| && s.log[request].Sent? && request !in s.ledger
      && !(s.phase.InFlight? && s.phase.request == request)
    case Answer(reply) =>
      && s.phase.InFlight?
      && (Confirms(reply, s.phase.att.macroId) ==> s.phase.served == reply.body.run)
    case Refresh(_, _, _) => s.phase.Accepted?
    case Flush(_) => s.phase.Refreshed?
    case WriteStatus(_) => s.phase.Flushed? || s.phase.Declined?
    case Save(_) => s.phase.Noted?
    case Crash => true
    case Damage(_) => true
  }

  ghost function Answered(s: State, reply: Reply): State
    requires s.phase.InFlight?
  {
    var att, result := s.phase.att, Submitted(reply, s.phase.att.macroId);
    if result.outcome == Ok then
      OkOnlyWhenConfirmed(reply, att.macroId);
      s.(phase := Accepted(att, result.run.value, result.httpStatus),
         log := s.log + [Confirmed(att.report, result.run.value)])
    else
      s.(phase := Declined(att, result.outcome, result.httpStatus),
         log := s.log + [Degraded(FailureOf(att, result.outcome, result.httpStatus))])
  }

  /** What a crash forfeits: the save or the clear that the invocation still owed. */
  ghost function Forfeited(phase: Phase): seq<Event> {
    match phase
    case Declined(_, _, _) => [SaveFailed]
    case Noted(_, _, _) => [SaveFailed]
    case Accepted(_, _, _) => [ClearFailed]
    case Refreshed(_, _, _) => [ClearFailed]
    case _ => []
  }

  ghost function Next(s: State, t: Transition): State
    requires Enabled(s, t)
  {
    match t
    case Start(macroId, now, fault) =>
      var seen := Seen(s.disk.failures, fault);
      s.(phase := Ready(Begun(seen, macroId, now)), log := s.log + [Loaded(!seen.Unreadable?)])
    case LocalFault(macroId, now, landed) =>
      s.(disk := s.disk.(status := StatusAfter(s.disk.status, StatusRecord(now, macroId, LocalError, 0, ""), landed)))
    case Send =>
      s.(phase := InFlight(s.phase.att, |s.log|, None), log := s.log + [Sent(s.phase.att.report)])
    case Serve(runId, revision) =>
      s.(phase := InFlight(s.phase.att, s.phase.request, Some(MacroRun(runId, s.phase.att.macroId, revision))),
         ledger := s.ledger[s.phase.request := s.phase.att.report])
    case LateServe(request) => s.(ledger := s.ledger[request := s.log[request].report])
    case Answer(reply) => Answered(s, reply)
    case Refresh(fetched, landed, faults) =>
      s.(phase := Refreshed(s.phase.att, s.phase.run, s.phase.httpStatus),
         disk := s.disk.(cache := RefreshedCache(s.disk.cache, s.phase.att, s.phase.run, fetched, landed, faults)))
    case Flush(landed) =>
      s.(phase := Flushed(s.phase.att, s.phase.run, s.phase.httpStatus),
         disk := if landed then s.disk.(failures := Holds(EMPTY_BUFFER)) else s.disk,
         log := s.log + [if landed then Cleared else ClearFailed])
    case WriteStatus(landed) =>
      var att, httpStatus := s.phase.att, s.phase.httpStatus;
      if s.phase.Flushed? then
        s.(phase := Idle,
           disk := s.disk.(status := StatusAfter(s.disk.status,
             StatusRecord(att.now, att.macroId, Ok, httpStatus, s.phase.run.id), landed)))
      else
        s.(phase := Noted(att, s.phase.outcome, httpStatus),
           disk := s.disk.(status := StatusAfter(s.disk.status,
             StatusRecord(att.now, att.macroId, s.phase.outcome, httpStatus, ""), landed)))
    case Save(landed) =>
      var f := FailureOf(s.phase.att, s.phase.outcome, s.phase.httpStatus);
      s.(phase := Idle,
         disk := if landed then s.disk.(failures := Holds(Appended(s.phase.att.buffer, f, s.phase.att.now))) else s.disk,
         log := s.log + [if landed then Saved(f) else SaveFailed])
    case Crash => s.(phase := Idle, log := s.log + Forfeited(s.phase))
    case Damage(file) =>
      s.(disk := match file
                 case FailuresFile => s.disk.(failures := Unreadable)
                 case CacheFile => s.disk.(cache := Unreadable)
                 case StatusFile => s.disk.(status := Unreadable))
  }

  // ---------------------------------------------------------------------------------------------
  // Executions
  // ---------------------------------------------------------------------------------------------

  ghost predicate Possible(s: State, ts: seq<Transition>)
    decreases |ts|, 0
  {
    ts != [] ==>
      && Possible(s, ts[..|ts| - 1])
      && Enabled(After(s, ts[..|ts| - 1]), ts[|ts| - 1])
  }

  ghost function After(s: State, ts: seq<Transition>): State
    requires Possible(s, ts)
    decreases |ts|, 1
  {
    if ts == [] then s else Next(After(s, ts[..|ts| - 1]), ts[|ts| - 1])
  }

  /** A host on which nothing has been recorded yet. */
  ghost predicate Fresh(s: State) {
    s == State(Disk(Absent, Absent, Absent), Idle, map[], [])
  }

  lemma {:induction false} Continue(s: State, ts: seq<Transition>, more: seq<Transition>)
    requires Possible(s, ts) && Possible(After(s, ts), more)
    ensures Possible(s, ts + more) && After(s, ts + more) == After(After(s, ts), more)
  {
    if more == [] {
      assert ts + more == ts;
    } else {
      var front := more[..|more| - 1];
      Continue(s, ts, front);
      assert (ts + more)[..|ts + more| - 1] == ts + front;
    }
  }

  lemma Extend(s: State, ts: seq<Transition>, t: Transition)
    requires Possible(s, ts) && Enabled(After(s, ts), t)
    ensures Possible(s, ts + [t]) && After(s, ts + [t]) == Next(After(s, ts), t)
  {
    assert (ts + [t])[..|ts + [t]| - 1] == ts;
  }

  lemma OneStep(s: State, t: Transition)
    requires Enabled(s, t)
    ensures Possible(s, [t]) && After(s, [t]) == Next(s, t)
  {
    Extend(s, [], t);
    assert [] + [t] == [t];
  }

  lemma TwoSteps(s: State, t: Transition, u: Transition)
    requires Enabled(s, t) && Enabled(Next(s, t), u)
    ensures Possible(s, [t, u]) && After(s, [t, u]) == Next(Next(s, t), u)
  {
    OneStep(s, t);
    Extend(s, [t], u);
    assert [t] + [u] == [t, u];
  }
}
