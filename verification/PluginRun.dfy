/**
 cmdRun itself: the ordered effects of one invocation, proved to be an execution of the machine,
 so that killing the process after any of them leaves a state the machine can reach.
 */
module PluginRuns {
  import opened Sequences
  import opened FailureBuffers
  import opened Files
  import opened SubmitRuns
  import opened MacroCaches
  import opened PluginMachine
  import opened PluginAccounting

  datatype ExitCode = ExitOk | ExitRefused | ExitRejected | ExitUnreachable | ExitLocalError

  /** Everything about one invocation that its environment decides. `served` is the run the
      coordinator accepts in time, if it accepts one; `bufferFault` and `cacheFaults` are reads that
      fail whatever the files hold; the other fields are what the calls return. */
  datatype World = World(
    credentialsLoad: bool,
    served: Option<MacroRun>,
    reply: Reply,
    fetched: Option<MacroConfig>,
    cacheLands: bool,
    bufferLands: bool,
    statusLands: bool,
    bufferFault: bool,
    cacheFaults: CacheFaults)

  /** The class that goes with each exit code in the status file and the buffer. */
  function ClassOf(exit: ExitCode): OutcomeClass {
    match exit
    case ExitOk => Ok
    case ExitRefused => Refused
    case ExitRejected => Rejected
    case ExitUnreachable => Unreachable
    case ExitLocalError => LocalError
  }

  /** A confirming reply comes from the coordinator that served this request. */
  ghost predicate Honest(w: World, macroId: string) {
    && (w.served.Some? ==> w.served.value.id != "" && w.served.value.macroObjectId == macroId)
    && (Confirms(w.reply, macroId) ==> w.served == w.reply.body.run)
  }

  /** The effects of one invocation, in the order the program has them. */
  function EffectsOf(macroId: string, now: Time, w: World): seq<Transition> {
    if !w.credentialsLoad then [LocalFault(macroId, now, w.statusLands)]
    else
      ExchangeOf(macroId, now, w) + OutcomeEffects(macroId, w)
  }

  function OutcomeEffects(macroId: string, w: World): seq<Transition> {
    if Confirms(w.reply, macroId) then ConfirmedEffects(w) else DegradedEffects(w)
  }

  function ExchangeOf(macroId: string, now: Time, w: World): seq<Transition> {
    [Start(macroId, now, w.bufferFault), Send]
    + (if w.served.Some? then [Serve(w.served.value.id, w.served.value.macroRevision)] else [])
    + [Answer(w.reply)]
  }

  /** The cache first, then the buffer is cleared, then the status. */
  function ConfirmedEffects(w: World): seq<Transition> {
    [Refresh(w.fetched, w.cacheLands, w.cacheFaults), Flush(w.bufferLands), WriteStatus(w.statusLands)]
  }

  /** The status first, whatever becomes of the buffer. */
  function DegradedEffects(w: World): seq<Transition> {
    [WriteStatus(w.statusLands), Save(w.bufferLands)]
  }

  /** Each exit code by what came back. A whole answer is one of at most 1 MiB that arrived complete. */
  predicate ExitsAs(credentialsLoad: bool, reply: Reply, macroId: string, exit: ExitCode) {
    var whole := credentialsLoad && reply.Response? && reply.body.length <= 1_048_576;
    && (exit == ExitLocalError <==> !credentialsLoad)
    && (exit == ExitOk <==>
          && whole && 200 <= reply.status <= 299 && reply.body.run.Some?
          && reply.body.run.value.id != "" && reply.body.run.value.macroObjectId == macroId)
    && (exit == ExitRefused <==> whole && (reply.status == 401 || reply.status == 403))
    && (exit == ExitRejected <==> whole && 400 <= reply.status <= 499 && reply.status != 401 && reply.status != 403)
  }

  /** The exit code that the five outcomes lead to. */
  lemma OutcomesExit(reply: Reply, macroId: string)
    ensures var r := Submitted(reply, macroId);
      var code := if r.outcome == Ok then ExitOk else if r.outcome == Refused then ExitRefused
                  else if r.outcome == Rejected then ExitRejected else ExitUnreachable;
      && ExitsAs(true, reply, macroId, code)
      && r.outcome == ClassOf(code) && r.httpStatus == StatusOf(reply)
      && (code == ExitOk ==> r.run == reply.body.run)
  {
    OkOnlyWhenConfirmed(reply, macroId);
  }

  /** A refresh seen from outside: a cache that this invocation reads and finds at the revision the run
      pinned stays as it is, as does one for which no definition came back or whose write failed; in
      every other case the macro's entry becomes what was fetched. */
  ghost predicate CacheRefreshed(before: File<MacroCache>, after: File<MacroCache>, macroId: string, pinned: int,
                                 now: Time, fetched: Option<MacroConfig>, landed: bool, faults: CacheFaults)
  {
    var current := !faults.check && before.Holds? && macroId in before.value.macros
      && before.value.macros[macroId].macroRevision == pinned;
    if current || fetched.None? || !landed then after == before
    else
      && after.Holds? && macroId in after.value.macros
      && after.value.macros[macroId].macroRevision == fetched.value.revision
      && after.value.macros[macroId].cachedAt == now
      && Mirrors(after.value.macros[macroId], fetched.value.payload)
  }

  lemma RefreshedAsSeen(file: File<MacroCache>, att: Attempt, run: MacroRun, fetched: Option<MacroConfig>,
                        landed: bool, faults: CacheFaults)
    ensures CacheRefreshed(file, RefreshedCache(file, att, run, fetched, landed, faults), att.macroId,
                           run.macroRevision, att.now, fetched, landed, faults)
  {
  }

  class PluginHost {
    var failuresFile: File<Buffer>
    var cacheFile: File<MacroCache>
    var statusFile: File<StatusRecord>
    ghost var machine: State
    ghost var done: seq<Transition>

    ghost predicate Consistent()
      reads this
    {
      machine.disk == Disk(failuresFile, cacheFile, statusFile)
    }

    /** The machine has gone from `before` through exactly the transitions done since `from`. */
    ghost predicate Followed(before: State, from: seq<Transition>)
      reads this
    {
      && from <= done
      && Possible(before, done[|from|..])
      && machine == After(before, done[|from|..])
    }

    /** Every effect on the files is followed by its own transition, and after each of them the files
        are the machine's again. */
    ghost method Step(t: Transition, before: State, from: seq<Transition>)
      requires Followed(before, from) && Enabled(machine, t)
      requires Next(machine, t).disk == Disk(failuresFile, cacheFile, statusFile)
      modifies `machine, `done
      ensures machine == Next(old(machine), t) && done == old(done) + [t]
      ensures Consistent() && Followed(before, from)
    {
      Extend(before, done[|from|..], t);
      machine := Next(machine, t);
      done := done + [t];
      assert done[|from|..] == old(done)[|from|..] + [t];
    }

    method WriteStatusFile(rec: StatusRecord, lands: bool,
                           ghost t: Transition, ghost before: State, ghost from: seq<Transition>)
      requires Consistent() && Followed(before, from) && Enabled(machine, t)
      requires Next(machine, t).disk == machine.disk.(status := StatusAfter(statusFile, rec, lands))
      modifies `statusFile, `machine, `done
      ensures Consistent() && Followed(before, from)
      ensures machine == Next(old(machine), t) && done == old(done) + [t]
      ensures statusFile == StatusAfter(old(statusFile), rec, lands)
    {
      if lands {
        statusFile := Holds(rec);
      }
      Step(t, before, from);
    }

    /** What the buffer held was in the request that has just been confirmed. */
    method FlushBuffer(lands: bool, ghost before: State, ghost from: seq<Transition>)
      requires Consistent() && Followed(before, from) && machine.phase.Refreshed?
      modifies `failuresFile, `machine, `done
      ensures Consistent() && Followed(before, from)
      ensures machine == Next(old(machine), Flush(lands)) && done == old(done) + [Flush(lands)]
      ensures failuresFile == if lands then Holds(EMPTY_BUFFER) else old(failuresFile)
    {
      if lands {
        failuresFile := Holds(EMPTY_BUFFER);
      }
      Step(Flush(lands), before, from);
    }

    method CmdRun(macroId: string, now: Time, w: World) returns (exit: ExitCode)
      requires Consistent() && machine.phase.Idle? && Honest(w, macroId)
      modifies this
      ensures Consistent() && machine.phase.Idle? && Followed(old(machine), old(done))
      ensures done == old(done) + EffectsOf(macroId, now, w)
      // The exit code, by what came back.
      ensures ExitsAs(w.credentialsLoad, w.reply, macroId, exit)
      // The three files: what each holds if its write lands.
      ensures w.statusLands ==> statusFile == Holds(StatusRecord(now, macroId, ClassOf(exit),
        if exit == ExitLocalError then 0 else StatusOf(w.reply),
        if exit == ExitOk then w.reply.body.run.value.id else ""))
      ensures exit in {ExitRefused, ExitRejected, ExitUnreachable} && w.bufferLands ==>
        var loaded := PrunedByAge(LoadedBuffer(Seen(old(failuresFile), w.bufferFault)), now);
        failuresFile == Holds(Appended(loaded, BufferedFailure(macroId, ClassOf(exit), StatusOf(w.reply), now), now))
      ensures exit == ExitOk && w.bufferLands ==> failuresFile == Holds(Buffer([], 0))
      ensures exit == ExitOk ==>
        CacheRefreshed(old(cacheFile), cacheFile, macroId, w.reply.body.run.value.macroRevision, now,
                       w.fetched, w.cacheLands, w.cacheFaults)
      // And what does not change.
      ensures !w.statusLands ==> statusFile == old(statusFile)
      ensures exit == ExitLocalError || !w.bufferLands ==> failuresFile == old(failuresFile)
      ensures exit != ExitOk ==> cacheFile == old(cacheFile)
    {
      ghost var before, from := machine, done;
      assert done[|from|..] == [];
      if !w.credentialsLoad {
        exit := ReportLocalError(macroId, now, w.statusLands, before, from);
        return;
      }
      exit := SubmitAndReport(macroId, now, w, before, from);
      OutcomesExit(w.reply, macroId);
    }

    /** Everything from loading the buffer on. */
    method SubmitAndReport(macroId: string, now: Time, w: World, ghost before: State, ghost from: seq<Transition>)
      returns (exit: ExitCode)
      requires Consistent() && machine.phase.Idle? && Honest(w, macroId) && Followed(before, from)
      modifies this
      ensures Consistent() && machine.phase.Idle? && Followed(before, from)
      ensures done == old(done) + ExchangeOf(macroId, now, w) + OutcomeEffects(macroId, w)
      ensures var result := Submitted(w.reply, macroId);
        var loaded := PrunedByAge(LoadedBuffer(Seen(old(failuresFile), w.bufferFault)), now);
        && exit == (if result.outcome == Ok then ExitOk else if result.outcome == Refused then ExitRefused
                    else if result.outcome == Rejected then ExitRejected else ExitUnreachable)
        && (result.outcome == Ok ==> result.run.Some?)
        && statusFile == StatusAfter(old(statusFile), StatusRecord(now, macroId, result.outcome, result.httpStatus,
             if result.outcome == Ok then result.run.value.id else ""), w.statusLands)
        && failuresFile == (if !w.bufferLands then old(failuresFile)
             else if result.outcome == Ok then Holds(EMPTY_BUFFER)
             else Holds(Appended(loaded, BufferedFailure(macroId, result.outcome, result.httpStatus, now), now)))
        && if result.outcome == Ok then
             CacheRefreshed(old(cacheFile), cacheFile, macroId, result.run.value.macroRevision, now,
                            w.fetched, w.cacheLands, w.cacheFaults)
           else cacheFile == old(cacheFile)
    {
      var buffer, report := LoadFailureBuffer(now, w.bufferFault);
      ghost var att := Attempt(macroId, now, buffer.Value(), report);
      var result := SubmitMacroRun(w.reply, macroId);
      Exchange(macroId, now, w, before, from);
      exit := Conclude(macroId, now, buffer, result, w, att, before, from);
    }

    /** The switch on the outcome: one report or the other. */
    method Conclude(macroId: string, now: Time, buffer: FailureBuffer, result: SubmitResult, w: World,
                    ghost att: Attempt, ghost before: State, ghost from: seq<Transition>)
      returns (exit: ExitCode)
      requires Consistent() && Followed(before, from)
      requires att.macroId == macroId && att.now == now && att.buffer == buffer.Value()
      requires if result.outcome == Ok then
          result.run.Some? && machine.phase == Accepted(att, result.run.value, result.httpStatus)
        else machine.phase == Declined(att, result.outcome, result.httpStatus)
      modifies this, buffer
      ensures Consistent() && machine.phase.Idle? && Followed(before, from)
      ensures done == old(done) + if result.outcome == Ok then ConfirmedEffects(w) else DegradedEffects(w)
      ensures exit == if result.outcome == Ok then ExitOk else if result.outcome == Refused then ExitRefused
                      else if result.outcome == Rejected then ExitRejected else ExitUnreachable
      ensures statusFile == StatusAfter(old(statusFile), StatusRecord(now, macroId, result.outcome, result.httpStatus,
        if result.outcome == Ok then result.run.value.id else ""), w.statusLands)
      ensures failuresFile == if !w.bufferLands then old(failuresFile)
        else if result.outcome == Ok then Holds(EMPTY_BUFFER)
        else Holds(Appended(att.buffer, BufferedFailure(macroId, result.outcome, result.httpStatus, now), now))
      ensures if result.outcome == Ok then
          CacheRefreshed(old(cacheFile), cacheFile, macroId, result.run.value.macroRevision, now,
                         w.fetched, w.cacheLands, w.cacheFaults)
        else cacheFile == old(cacheFile)
    {
      if result.outcome == Ok {
        exit := ReportOk(macroId, now, result, w, att, before, from);
      } else {
        var code := if result.outcome == Refused then ExitRefused
                    else if result.outcome == Rejected then ExitRejected else ExitUnreachable;
        exit := ReportDegraded(macroId, now, buffer, result, code, w, att, before, from);
      }
    }

    /** `fault` is a read that fails although the file may be intact. What cannot be read counts as one
        dropped record: a lower bound on what the file held. */
    method LoadFailureBuffer(now: Time, fault: bool) returns (buffer: FailureBuffer, report: Report)
      ensures fresh(buffer)
      ensures fault || failuresFile.Unreadable? ==> buffer.Value() == Buffer([], 1)
      ensures !fault && failuresFile.Absent? ==> buffer.Value() == Buffer([], 0)
      ensures !fault && failuresFile.Holds? ==> buffer.Value() == PrunedByAge(failuresFile.value, now)
      ensures buffer.Value() == PrunedByAge(LoadedBuffer(Seen(failuresFile, fault)), now)
      ensures report == AsReport(buffer.Value())
    {
      var loaded := EMPTY_BUFFER;
      if fault || failuresFile.Unreadable? {
        loaded := Buffer([], 1);
      } else if failuresFile.Holds? {
        loaded := failuresFile.value;
      }
      buffer := new FailureBuffer(loaded);
      buffer.PruneByAge(now);
      report := buffer.AsPriorFailures();
    }

    /** The transitions between loading the buffer and knowing the outcome: no file changes. */
    ghost method Exchange(macroId: string, now: Time, w: World, before: State, from: seq<Transition>)
      requires Consistent() && machine.phase.Idle? && Honest(w, macroId) && Followed(before, from)
      modifies `machine, `done
      ensures Consistent() && Followed(before, from)
      ensures done == old(done) + ExchangeOf(macroId, now, w)
      ensures var att, result := BegunIn(old(machine), macroId, now, w), Submitted(w.reply, macroId);
        && (result.outcome == Ok <==> Confirms(w.reply, macroId))
        && (result.outcome == Ok ==>
              result.run.Some? && machine.phase == Accepted(att, result.run.value, result.httpStatus))
        && (result.outcome != Ok ==>
              && IsWireFailureClass(result.outcome) && result.httpStatus == StatusOf(w.reply)
              && machine.phase == Declined(att, result.outcome, result.httpStatus))
    {
      OkOnlyWhenConfirmed(w.reply, macroId);
      Request(macroId, now, w, before, from);
      Step(Answer(w.reply), before, from);
    }

    ghost method Request(macroId: string, now: Time, w: World, before: State, from: seq<Transition>)
      requires Consistent() && machine.phase.Idle? && Honest(w, macroId) && Followed(before, from)
      modifies `machine, `done
      ensures Consistent() && Followed(before, from)
      ensures done + [Answer(w.reply)] == old(done) + ExchangeOf(macroId, now, w)
      ensures machine.phase ==
        InFlight(BegunIn(old(machine), macroId, now, w), RequestOf(old(machine)), w.served)
    {
      Step(Start(macroId, now, w.bufferFault), before, from);
      Step(Send, before, from);
      if w.served.Some? {
        Step(Serve(w.served.value.id, w.served.value.macroRevision), before, from);
      }
    }

    method ReportLocalError(macroId: string, now: Time, lands: bool, ghost before: State, ghost from: seq<Transition>)
      returns (exit: ExitCode)
      requires Consistent() && machine.phase.Idle? && Followed(before, from)
      modifies this
      ensures Consistent() && machine.phase.Idle? && Followed(before, from)
      ensures exit == ExitLocalError && done == old(done) + [LocalFault(macroId, now, lands)]
      ensures failuresFile == old(failuresFile) && cacheFile == old(cacheFile)
      ensures statusFile == StatusAfter(old(statusFile), StatusRecord(now, macroId, LocalError, 0, ""), lands)
    {
      WriteStatusFile(StatusRecord(now, macroId, LocalError, 0, ""), lands, LocalFault(macroId, now, lands), before, from);
      exit := ExitLocalError;
    }

    method ReportOk(macroId: string, now: Time, result: SubmitResult, w: World,
                    ghost att: Attempt, ghost before: State, ghost from: seq<Transition>)
      returns (exit: ExitCode)
      requires Consistent() && Followed(before, from)
      requires result.run.Some? && att.macroId == macroId && att.now == now
      requires machine.phase == Accepted(att, result.run.value, result.httpStatus)
      modifies this
      ensures Consistent() && machine.phase.Idle? && Followed(before, from)
      ensures exit == ExitOk && done == old(done) + ConfirmedEffects(w)
      ensures failuresFile == if w.bufferLands then Holds(EMPTY_BUFFER) else old(failuresFile)
      ensures CacheRefreshed(old(cacheFile), cacheFile, macroId, result.run.value.macroRevision, now,
                             w.fetched, w.cacheLands, w.cacheFaults)
      ensures cacheFile == RefreshedCache(old(cacheFile), att, result.run.value, w.fetched, w.cacheLands, w.cacheFaults)
      ensures statusFile == StatusAfter(old(statusFile),
        StatusRecord(now, macroId, Ok, result.httpStatus, result.run.value.id), w.statusLands)
    {
      var run := result.run.value;
      ghost var asked := RefreshMacroCacheIfStale(macroId, run.macroRevision, now, w, before, from);
      FlushBuffer(w.bufferLands, before, from);
      WriteStatusFile(StatusRecord(now, macroId, Ok, result.httpStatus, run.id), w.statusLands,
                      WriteStatus(w.statusLands), before, from);
      exit := ExitOk;
    }

    /** `asked` says that the definition was asked for. It is not asked for only if the cache, as this
        invocation reads it, already holds the revision that the run pinned. */
    method RefreshMacroCacheIfStale(macroId: string, runMacroRevision: int, now: Time, w: World,
                                    ghost before: State, ghost from: seq<Transition>)
      returns (ghost asked: bool)
      requires Consistent() && Followed(before, from) && machine.phase.Accepted?
      requires machine.phase.att.macroId == macroId && machine.phase.att.now == now
      requires machine.phase.run.macroRevision == runMacroRevision
      modifies `cacheFile, `machine, `done
      ensures Consistent() && Followed(before, from)
      ensures machine == Next(old(machine), Refresh(w.fetched, w.cacheLands, w.cacheFaults))
      ensures done == old(done) + [Refresh(w.fetched, w.cacheLands, w.cacheFaults)]
      ensures cacheFile ==
        RefreshedCache(old(cacheFile), old(machine).phase.att, old(machine).phase.run,
                       w.fetched, w.cacheLands, w.cacheFaults)
      ensures !asked <==>
        && !w.cacheFaults.check && old(cacheFile).Holds? && macroId in old(cacheFile).value.macros
        && old(cacheFile).value.macros[macroId].macroRevision == runMacroRevision
      ensures CacheRefreshed(old(cacheFile), cacheFile, macroId, runMacroRevision, now,
                             w.fetched, w.cacheLands, w.cacheFaults)
    {
      asked := CachedRevisionFor(Seen(cacheFile, w.cacheFaults.check), macroId) != Some(runMacroRevision);
      if CachedRevisionFor(Seen(cacheFile, w.cacheFaults.check), macroId) != Some(runMacroRevision) {
        if w.fetched.Some? {
          var updated := UpdateMacroCache(Seen(cacheFile, w.cacheFaults.update), macroId, w.fetched.value, now);
          if w.cacheLands {
            cacheFile := Holds(updated);
          }
        }
      }
      Step(Refresh(w.fetched, w.cacheLands, w.cacheFaults), before, from);
    }

    method SaveWith(buffer: FailureBuffer, f: BufferedFailure, now: Time, lands: bool,
                    ghost before: State, ghost from: seq<Transition>)
      requires Consistent() && Followed(before, from) && machine.phase.Noted?
      requires machine.phase.att.buffer == buffer.Value() && machine.phase.att.now == now
      requires f == FailureOf(machine.phase.att, machine.phase.outcome, machine.phase.httpStatus)
      modifies `failuresFile, `machine, `done, buffer
      ensures Consistent() && Followed(before, from)
      ensures machine == Next(old(machine), Save(lands)) && done == old(done) + [Save(lands)]
      ensures failuresFile == if lands then Holds(Appended(old(buffer.Value()), f, now)) else old(failuresFile)
    {
      buffer.Append(f, now);
      if lands {
        failuresFile := Holds(buffer.Value());
      }
      Step(Save(lands), before, from);
    }

    method ReportDegraded(macroId: string, now: Time, buffer: FailureBuffer, result: SubmitResult, code: ExitCode, w: World,
                          ghost att: Attempt, ghost before: State, ghost from: seq<Transition>)
      returns (exit: ExitCode)
      requires Consistent() && Followed(before, from)
      requires att.macroId == macroId && att.now == now && att.buffer == buffer.Value()
      requires machine.phase == Declined(att, result.outcome, result.httpStatus)
      modifies this, buffer
      ensures Consistent() && machine.phase.Idle? && Followed(before, from)
      ensures exit == code && done == old(done) + DegradedEffects(w)
      ensures failuresFile == if !w.bufferLands then old(failuresFile) else
        Holds(Appended(att.buffer, BufferedFailure(macroId, result.outcome, result.httpStatus, now), now))
      ensures cacheFile == old(cacheFile)
      ensures statusFile == StatusAfter(old(statusFile),
        StatusRecord(now, macroId, result.outcome, result.httpStatus, ""), w.statusLands)
    {
      WriteStatusFile(StatusRecord(now, macroId, result.outcome, result.httpStatus, ""), w.statusLands,
                      WriteStatus(w.statusLands), before, from);
      SaveWith(buffer, BufferedFailure(macroId, result.outcome, result.httpStatus, now), now, w.bufferLands, before, from);
      exit := code;
    }
  }

  // ---------------------------------------------------------------------------------------------
  // What one invocation leaves in the log and on the coordinator's record
  // ---------------------------------------------------------------------------------------------

  function Failure(macroId: string, now: Time, reply: Reply): BufferedFailure {
    BufferedFailure(macroId, Submitted(reply, macroId).outcome, StatusOf(reply), now)
  }

  ghost function BegunIn(s: State, macroId: string, now: Time, w: World): Attempt {
    Begun(Seen(s.disk.failures, w.bufferFault), macroId, now)
  }

  /** The place in the log of the request that an invocation started in `s` sends. */
  ghost function RequestOf(s: State): nat {
    |s.log| + 1
  }

  ghost function LoadEvents(s: State, w: World): seq<Event> {
    [Loaded(!Seen(s.disk.failures, w.bufferFault).Unreadable?)]
  }

  function OutcomeEvents(macroId: string, now: Time, w: World, report: Report): seq<Event> {
    if Confirms(w.reply, macroId) then
      [Confirmed(report, w.reply.body.run.value), if w.bufferLands then Cleared else ClearFailed]
    else
      var f := Failure(macroId, now, w.reply);
      [Degraded(f), if w.bufferLands then Saved(f) else SaveFailed]
  }

  function OutcomePhase(att: Attempt, w: World): Phase {
    if Confirms(w.reply, att.macroId) then Accepted(att, w.reply.body.run.value, StatusOf(w.reply))
    else Declined(att, Submitted(w.reply, att.macroId).outcome, StatusOf(w.reply))
  }

  function BufferAfter(file: File<Buffer>, macroId: string, now: Time, w: World): File<Buffer> {
    if !w.bufferLands then file
    else if Confirms(w.reply, macroId) then Holds(EMPTY_BUFFER)
    else Holds(Appended(PrunedByAge(LoadedBuffer(Seen(file, w.bufferFault)), now), Failure(macroId, now, w.reply), now))
  }

  lemma ExchangeLeaves(s: State, macroId: string, now: Time, w: World)
    requires s.phase.Idle? && Honest(w, macroId)
    ensures Possible(s, ExchangeOf(macroId, now, w))
    ensures var e, att := After(s, ExchangeOf(macroId, now, w)), BegunIn(s, macroId, now, w);
      && e.disk == s.disk
      && e.ledger == (if w.served.Some? then s.ledger[RequestOf(s) := att.report] else s.ledger)
      && e.log == s.log + LoadEvents(s, w) + [Sent(att.report), OutcomeEvents(macroId, now, w, att.report)[0]]
      && e.phase == OutcomePhase(att, w)
  {
    OkOnlyWhenConfirmed(w.reply, macroId);
    var start, send, answer := Start(macroId, now, w.bufferFault), Send, Answer(w.reply);
    TwoSteps(s, start, send);
    var sent := [start, send];
    if w.served.Some? {
      Extend(s, sent, Serve(w.served.value.id, w.served.value.macroRevision));
      sent := sent + [Serve(w.served.value.id, w.served.value.macroRevision)];
    }
    Extend(s, sent, answer);
    assert ExchangeOf(macroId, now, w) == sent + [answer];
  }

  lemma ConfirmedLeaves(s: State, w: World)
    requires s.phase.Accepted?
    ensures Possible(s, ConfirmedEffects(w))
    ensures var e := After(s, ConfirmedEffects(w));
      && e.phase.Idle? && e.ledger == s.ledger
      && e.log == s.log + [if w.bufferLands then Cleared else ClearFailed]
      && e.disk.failures == if w.bufferLands then Holds(EMPTY_BUFFER) else s.disk.failures
  {
    var refresh, flush, status := Refresh(w.fetched, w.cacheLands, w.cacheFaults), Flush(w.bufferLands), WriteStatus(w.statusLands);
    TwoSteps(s, refresh, flush);
    Extend(s, [refresh, flush], status);
    assert ConfirmedEffects(w) == [refresh, flush] + [status];
  }

  lemma DegradedLeaves(s: State, w: World)
    requires s.phase.Declined?
    ensures Possible(s, DegradedEffects(w))
    ensures var e, f := After(s, DegradedEffects(w)), FailureOf(s.phase.att, s.phase.outcome, s.phase.httpStatus);
      && e.phase.Idle? && e.ledger == s.ledger
      && e.log == s.log + [if w.bufferLands then Saved(f) else SaveFailed]
      && e.disk.failures ==
           if w.bufferLands then Holds(Appended(s.phase.att.buffer, f, s.phase.att.now)) else s.disk.failures
  {
    TwoSteps(s, WriteStatus(w.statusLands), Save(w.bufferLands));
  }

  lemma OutcomeLeaves(s: State, macroId: string, now: Time, w: World, b: State, report: Report)
    requires b.phase == OutcomePhase(BegunIn(s, macroId, now, w), w) && b.disk == s.disk
    ensures Possible(b, OutcomeEffects(macroId, w))
    ensures var e := After(b, OutcomeEffects(macroId, w));
      && e.phase.Idle? && e.ledger == b.ledger
      && e.log == b.log + [OutcomeEvents(macroId, now, w, report)[1]]
      && e.disk.failures == BufferAfter(s.disk.failures, macroId, now, w)
  {
    if Confirms(w.reply, macroId) {
      ConfirmedLeaves(b, w);
    } else {
      DegradedLeaves(b, w);
    }
  }

  /** What one invocation that gets as far as its request leaves: four events, at most one entry on
      the coordinator's record, and the buffer file. */
  ghost predicate Leaves(s: State, e: State, macroId: string, now: Time, w: World) {
    var report := BegunIn(s, macroId, now, w).report;
    && e.phase.Idle?
    && e.log == s.log + LoadEvents(s, w) + [Sent(report)] + OutcomeEvents(macroId, now, w, report)
    && e.ledger == (if w.served.Some? then s.ledger[RequestOf(s) := report] else s.ledger)
    && e.disk.failures == BufferAfter(s.disk.failures, macroId, now, w)
  }

  lemma RunLeaves(s: State, macroId: string, now: Time, w: World)
    requires s.phase.Idle? && w.credentialsLoad && Honest(w, macroId)
    ensures Possible(s, EffectsOf(macroId, now, w))
    ensures Leaves(s, After(s, EffectsOf(macroId, now, w)), macroId, now, w)
  {
    ExchangeLeaves(s, macroId, now, w);
    var b := After(s, ExchangeOf(macroId, now, w));
    OutcomeLeaves(s, macroId, now, w, b, b.phase.att.report);
    Continue(s, ExchangeOf(macroId, now, w), OutcomeEffects(macroId, w));
  }

  /** An invocation closes its request exactly when it gets a confirming reply and its clear lands. */
  lemma RunClosesExactly(s: State, macroId: string, now: Time, w: World)
    requires s.phase.Idle? && w.credentialsLoad && Honest(w, macroId)
    ensures Possible(s, EffectsOf(macroId, now, w))
    ensures Closed(After(s, EffectsOf(macroId, now, w)).log, RequestOf(s)) <==>
      Confirms(w.reply, macroId) && w.bufferLands
  {
    RunLeaves(s, macroId, now, w);
  }

  /** Two requests four events apart, as two invocations in a row send them, both reading the file. */
  lemma FourEventsLater(log: seq<Event>, q: nat, p: nat)
    requires q + 4 < |log| && log[q].Sent? && log[q + 3] == Loaded(true) && log[q + 4].Sent?
    requires log[q + 1].Confirmed? || log[q + 1].Degraded?
    requires !log[q + 2].Loaded? && Covers(log, q, p)
    ensures Covers(log, q + 4, p) <==> !log[q + 2].Cleared?
  {
    AccountStep(log, q);
    AccountStep(log, q + 1);
    AccountStep(log, q + 3);
    forall k: nat | p < k < q + 4
      ensures Replaces(log, k) <==> k == q + 2 && log[q + 2].Cleared?
    {
      assert k < q ==> !Replaces(log, k);
      assert k < q || k == q || k == q + 1 || k == q + 2 || k == q + 3;
    }
    assert !AccountOf(log[..q + 4]).blind;
    assert NoReset(log, p, q + 4) <==> !Replaces(log, q + 2);
  }

  /** Of two invocations in a row that read the file and whose requests the coordinator accepts, the
      second reports again what the first reported unless the first got its confirmation and cleared
      the buffer. */
  lemma SecondRunRepeatsExactly(s: State, middle: State, e: State, m1: string, now1: Time, w1: World,
                                m2: string, now2: Time, w2: World, p: nat)
    requires !s.disk.failures.Unreadable? && w1.served.Some? && w2.served.Some?
    requires !w1.bufferFault && !w2.bufferFault
    requires Leaves(s, middle, m1, now1, w1) && Leaves(middle, e, m2, now2, w2)
    requires Covers(e.log, RequestOf(s), p)
    ensures RequestOf(s) in e.ledger && RequestOf(middle) in e.ledger
    ensures Covers(e.log, RequestOf(middle), p) <==> !(Confirms(w1.reply, m1) && w1.bufferLands)
  {
    var q1, outcome := RequestOf(s), OutcomeEvents(m1, now1, w1, BegunIn(s, m1, now1, w1).report);
    assert e.log[q1 + 1] == outcome[0] && e.log[q1 + 2] == outcome[1];
    FourEventsLater(e.log, q1, p);
  }

  // ---------------------------------------------------------------------------------------------
  // The input that shows it: an accepted run whose answer is lost, then a confirmed one
  // ---------------------------------------------------------------------------------------------

  function Unanswered(served: Option<MacroRun>): World {
    World(true, served, NoResponse, None, true, true, true, false, CacheFaults(false, false))
  }

  function Answering(run: MacroRun): World {
    World(true, Some(run), Response(202, Body(100, Some(run))), None, true, true, true, false, CacheFaults(false, false))
  }

  /** Three runs of "m": unreachable, accepted with its answer lost, accepted and confirmed. Every
      read and write succeeds, nothing is damaged or killed, and no clear fails. */
  function LostAnswerRuns(): seq<Transition> {
    EffectsOf("m", 0, Unanswered(None))
    + EffectsOf("m", 1, Unanswered(Some(MacroRun("r1", "m", 1))))
    + EffectsOf("m", 2, Answering(MacroRun("r2", "m", 1)))
  }

  /** A fresh enough entry of a short buffer survives an append, and goes into the next report. */
  lemma EntryTravels(b: Buffer, g: BufferedFailure, f: BufferedFailure)
    requires g in b.failures + [f] && |b.failures| < MAX_BUFFERED_FAILURES && f.at - g.at <= MAX_FAILURE_AGE
    ensures g in Appended(b, f, f.at).failures && |Appended(b, f, f.at).failures| <= |b.failures| + 1
  {
    FilterMember(b.failures + [f], FreshAt(f.at), g);
  }

  lemma EntryIsReported(b: Buffer, g: BufferedFailure, now: Time)
    requires g in b.failures && now - g.at <= MAX_FAILURE_AGE && IsWireFailureClass(g.outcome)
    ensures g in PrunedByAge(b, now).failures
    ensures PriorFailure(g.macroObjectId, g.outcome, g.httpStatus, g.at) in AsReport(PrunedByAge(b, now)).priorFailures
  {
    FilterMember(b.failures, FreshAt(now), g);
    var loaded := PrunedByAge(b, now);
    FilterMember(loaded.failures, OnWire(), g);
    var sent := Filter(loaded.failures, OnWire());
    var i :| 0 <= i < |sent| && sent[i] == g;
    assert ToWire(sent)[i] in ToWire(sent);
  }

  ghost predicate RanTo(s: State, e: State, report: Report, x: Event, y: Event, accepted: bool) {
    && e.log == s.log + [Loaded(true), Sent(report), x, y]
    && e.ledger == if accepted then s.ledger[|s.log| + 1 := report] else s.ledger
  }

  lemma UnansweredLeaves(s: State, e: State, now: Time, served: Option<MacroRun>)
    requires Leaves(s, e, "m", now, Unanswered(served)) && !s.disk.failures.Unreadable?
    ensures var b, f := LoadedBuffer(s.disk.failures), BufferedFailure("m", Unreachable, 0, now);
      && RanTo(s, e, AsReport(PrunedByAge(b, now)), Degraded(f), Saved(f), served.Some?)
      && e.disk.failures == Holds(Appended(PrunedByAge(b, now), f, now))
  {
  }

  lemma UnansweredRun(s: State, now: Time, served: Option<MacroRun>) returns (e: State)
    requires s.phase.Idle? && !s.disk.failures.Unreadable?
    requires served.Some? ==> served.value.macroObjectId == "m" && served.value.id != ""
    ensures Possible(s, EffectsOf("m", now, Unanswered(served)))
    ensures e == After(s, EffectsOf("m", now, Unanswered(served))) && e.phase.Idle?
    ensures var b, f := LoadedBuffer(s.disk.failures), BufferedFailure("m", Unreachable, 0, now);
      && RanTo(s, e, AsReport(PrunedByAge(b, now)), Degraded(f), Saved(f), served.Some?)
      && e.disk.failures == Holds(Appended(PrunedByAge(b, now), f, now))
  {
    var w := Unanswered(served);
    RunLeaves(s, "m", now, w);
    e := After(s, EffectsOf("m", now, w));
    UnansweredLeaves(s, e, now, served);
  }

  lemma ConfirmedRun(s: State, now: Time, run: MacroRun) returns (e: State)
    requires s.phase.Idle? && !s.disk.failures.Unreadable?
    requires run.macroObjectId == "m" && run.id != ""
    ensures Possible(s, EffectsOf("m", now, Answering(run)))
    ensures e == After(s, EffectsOf("m", now, Answering(run)))
    ensures var report := AsReport(PrunedByAge(LoadedBuffer(s.disk.failures), now));
      RanTo(s, e, report, Confirmed(report, run), Cleared, true)
  {
    RunLeaves(s, "m", now, Answering(run));
    e := After(s, EffectsOf("m", now, Answering(run)));
  }

  /** The failure of the first run is in two accepted reports, and nothing went wrong on the host. */
  ghost predicate TellsFirstFailureTwice(e: State) {
    var told := PriorFailure("m", Unreachable, 0, 0);
    && Clean(e.log) && e.ledger.Keys == {5, 9}
    && told in e.ledger[5].priorFailures && told in e.ledger[9].priorFailures
    && Covers(e.log, 5, 3) && Covers(e.log, 9, 3) && !ToldOnce(e)
  }

  lemma TwelveEventsCover(log: seq<Event>)
    requires |log| == 12 && log[3].Saved? && log[4] == Loaded(true) && log[5].Sent? && log[8] == Loaded(true) && log[9].Sent?
    requires forall k :: 0 <= k < 12 && k != 11 ==>
      log[k] != Loaded(false) && !log[k].Cleared? && !log[k].SaveFailed? && !log[k].ClearFailed?
    requires log[11].Cleared?
    ensures Clean(log) && Covers(log, 5, 3) && Covers(log, 9, 3)
  {
    assert AllLoadsWhole(log);
    forall k: nat | k < 11
      ensures !Replaces(log, k)
    {
      NeverBlind(log, k);
    }
    NeverBlind(log, 5);
    NeverBlind(log, 9);
  }

  /** What three runs with these events leave, once the first failure is in the later reports. */
  lemma TwelveEvents(s: State, s0: State, s1: State, s2: State, r0: Report, r1: Report, r2: Report,
                     f0: BufferedFailure, f1: BufferedFailure, run: MacroRun)
    requires Fresh(s)
    requires RanTo(s, s0, r0, Degraded(f0), Saved(f0), false)
    requires RanTo(s0, s1, r1, Degraded(f1), Saved(f1), true)
    requires RanTo(s1, s2, r2, Confirmed(r2, run), Cleared, true)
    requires var told := PriorFailure("m", Unreachable, 0, 0); told in r1.priorFailures && told in r2.priorFailures
    ensures TellsFirstFailureTwice(s2)
  {
    var log := [Loaded(true), Sent(r0), Degraded(f0), Saved(f0), Loaded(true), Sent(r1), Degraded(f1), Saved(f1),
                Loaded(true), Sent(r2), Confirmed(r2, run), Cleared];
    assert s0.log == log[..4] && s1.log == log[..8] && s2.log == log;
    TwelveEventsCover(log);
    assert s2.ledger == map[5 := r1, 9 := r2];
  }

  function LostAnswerFailure(at: Time): BufferedFailure {
    BufferedFailure("m", Unreachable, 0, at)
  }

  /** The buffer that run 0 or run 1 saves. */
  function LostAnswerBuffer(run: nat): Buffer {
    var first := Appended(EMPTY_BUFFER, LostAnswerFailure(0), 0);
    if run == 0 then first else Appended(PrunedByAge(first, 1), LostAnswerFailure(1), 1)
  }

  lemma LostAnswerReports()
    ensures var told := PriorFailure("m", Unreachable, 0, 0);
      && told in AsReport(PrunedByAge(LostAnswerBuffer(0), 1)).priorFailures
      && told in AsReport(PrunedByAge(LostAnswerBuffer(1), 2)).priorFailures
  {
    var f0, f1 := LostAnswerFailure(0), LostAnswerFailure(1);
    EntryTravels(EMPTY_BUFFER, f0, f0);
    EntryIsReported(LostAnswerBuffer(0), f0, 1);
    EntryTravels(PrunedByAge(LostAnswerBuffer(0), 1), f0, f1);
    EntryIsReported(LostAnswerBuffer(1), f0, 2);
  }

  lemma LostAnswerIsToldTwice(s: State)
    requires Fresh(s)
    ensures Possible(s, LostAnswerRuns()) && TellsFirstFailureTwice(After(s, LostAnswerRuns()))
  {
    var w0, w1, w2 := Unanswered(None), Unanswered(Some(MacroRun("r1", "m", 1))), Answering(MacroRun("r2", "m", 1));
    assert PrunedByAge(EMPTY_BUFFER, 0) == EMPTY_BUFFER;
    var s0 := UnansweredRun(s, 0, w0.served);
    var s1 := UnansweredRun(s0, 1, w1.served);
    var e := ConfirmedRun(s1, 2, w2.served.value);
    LostAnswerReports();
    var r1, r2 := BegunIn(s0, "m", 1, w1).report, BegunIn(s1, "m", 2, w2).report;
    TwelveEvents(s, s0, s1, e, AsReport(EMPTY_BUFFER), r1, r2, LostAnswerFailure(0), LostAnswerFailure(1), w2.served.value);
    Continue(s, EffectsOf("m", 0, w0), EffectsOf("m", 1, w1));
    Continue(s, EffectsOf("m", 0, w0) + EffectsOf("m", 1, w1), EffectsOf("m", 2, w2));
  }

  // ---------------------------------------------------------------------------------------------
  // The cache over whole executions
  // ---------------------------------------------------------------------------------------------

  /** Every definition fetched along the way is the macro's definition at the revision it names. */
  ghost predicate FetchesDefinitions(s: State, ts: seq<Transition>, defs: Definitions)
    requires Possible(s, ts)
  {
    ts != [] ==>
      var before, t := ts[..|ts| - 1], ts[|ts| - 1];
      && FetchesDefinitions(s, before, defs)
      && (t.Refresh? && t.fetched.Some? ==>
           t.fetched.value.payload == defs(After(s, before).phase.att.macroId, t.fetched.value.revision))
  }

  /** Every cached entry of a reachable state is that macro's definition at its cached revision. */
  lemma {:induction false} CacheAlwaysAgrees(s: State, ts: seq<Transition>, defs: Definitions)
    requires Fresh(s) && Possible(s, ts) && FetchesDefinitions(s, ts, defs)
    ensures var e := After(s, ts);
      && Agrees(e.disk.cache, defs)
      && (e.phase.Accepted? && CachedRevisionFor(e.disk.cache, e.phase.att.macroId) == Some(e.phase.run.macroRevision) ==>
            Mirrors(e.disk.cache.value.macros[e.phase.att.macroId], defs(e.phase.att.macroId, e.phase.run.macroRevision)))
  {
    if ts != [] {
      var before, t := ts[..|ts| - 1], ts[|ts| - 1];
      CacheAlwaysAgrees(s, before, defs);
      var b := After(s, before);
      if t.Refresh? && t.fetched.Some? {
        UpdateAgrees(b.disk.cache, b.phase.att.macroId, t.fetched.value, b.phase.att.now, defs);
      }
    }
  }

  /** What one refresh does: nothing if it sees the run's own revision cached, if no definition comes
      back or if its write fails; otherwise the macro's entry becomes what was fetched. */
  lemma RefreshExactly(s: State, t: Transition)
    requires Enabled(s, t) && t.Refresh?
    ensures CacheRefreshed(s.disk.cache, Next(s, t).disk.cache, s.phase.att.macroId, s.phase.run.macroRevision,
                           s.phase.att.now, t.fetched, t.landed, t.faults)
  {
    RefreshedAsSeen(s.disk.cache, s.phase.att, s.phase.run, t.fetched, t.landed, t.faults);
  }

  /** After the refresh of an accepted run, in any reachable state, the cache holds the definition that
      the run pinned, if it held that revision before and the refresh could see so, or if the fetch
      gave that revision and the write landed. */
  lemma RefreshServesTheRun(s: State, ts: seq<Transition>, t: Transition, defs: Definitions)
    requires Fresh(s) && Possible(s, ts) && FetchesDefinitions(s, ts, defs)
    requires Enabled(After(s, ts), t) && t.Refresh?
    requires t.fetched.Some? ==> t.fetched.value.payload == defs(After(s, ts).phase.att.macroId, t.fetched.value.revision)
    requires var e := After(s, ts);
      var m, pinned := e.phase.att.macroId, e.phase.run.macroRevision;
      || (t.landed && t.fetched.Some? && t.fetched.value.revision == pinned)
      || (!t.faults.check && e.disk.cache.Holds? && m in e.disk.cache.value.macros
          && e.disk.cache.value.macros[m].macroRevision == pinned)
    ensures var e := After(s, ts);
      var m, pinned, c := e.phase.att.macroId, e.phase.run.macroRevision, Next(After(s, ts), t).disk.cache;
      && c.Holds? && m in c.value.macros
      && c.value.macros[m].macroRevision == pinned
      && Mirrors(c.value.macros[m], defs(m, pinned))
  {
    CacheAlwaysAgrees(s, ts, defs);
    RefreshExactly(After(s, ts), t);
  }

  /** The refresh writes a cache that its own second read could not see. */
  ghost predicate ForgetsOthers(s: State, t: Transition)
    requires Enabled(s, t)
  {
    && t.Refresh? && t.faults.update && t.landed && t.fetched.Some?
    && IsStale(s.disk.cache, s.phase.att, s.phase.run, t.faults)
  }

  /** A transition changes the cache only for the macro of a confirmed run. It keeps every other
      macro's entry of a cache that could be read, except that a refresh whose own read of the file
      fails before it writes keeps none. */
  lemma CacheChangesOneMacro(s: State, t: Transition, other: string)
    requires Enabled(s, t) && t != Damage(CacheFile)
    requires s.disk.cache.Holds? && other in s.disk.cache.value.macros
    requires s.phase.Idle? || other != s.phase.att.macroId
    ensures var c := Next(s, t).disk.cache;
      c.Holds? && (if ForgetsOthers(s, t) then other !in c.value.macros
                   else other in c.value.macros && c.value.macros[other] == s.disk.cache.value.macros[other])
  {
  }
}
