/**
 The two levels put together: each write that the machine takes in one step is writeJSONFile's
 sequence of system calls, and every point between those calls is a state of the machine.
 */
module PluginDisks {
  import opened Sequences
  import opened FailureBuffers
  import opened Files
  import opened MacroCaches
  import opened SubmitRuns
  import opened PluginMachine
  import opened PluginRuns

  /** Where the three files stand and how their values are written and read. */
  datatype Layout = Layout(
    failures: Path, cache: Path, status: Path,
    encodeFailures: Buffer -> Bytes, decodeFailures: Bytes -> Option<Buffer>,
    encodeCache: MacroCache -> Bytes, decodeCache: Bytes -> Option<MacroCache>,
    encodeStatus: StatusRecord -> Bytes, decodeStatus: Bytes -> Option<StatusRecord>)

  /** Three different files, each of which reads back what was written to it. */
  ghost predicate Lawful(l: Layout) {
    && l.failures != l.cache && l.failures != l.status && l.cache != l.status
    && (forall b :: l.decodeFailures(l.encodeFailures(b)) == Some(b))
    && (forall c :: l.decodeCache(l.encodeCache(c)) == Some(c))
    && (forall r :: l.decodeStatus(l.encodeStatus(r)) == Some(r))
  }

  function DiskOf(l: Layout, files: Contents): Disk {
    Disk(ReadJsonFile(files, l.failures, l.decodeFailures),
         ReadJsonFile(files, l.cache, l.decodeCache),
         ReadJsonFile(files, l.status, l.decodeStatus))
  }

  /** A transition that calls writeJSONFile once. */
  ghost predicate Writes(s: State, t: Transition)
    requires Enabled(s, t)
  {
    match t
    case LocalFault(_, _, _) => true
    case Refresh(fetched, _, faults) => fetched.Some? && IsStale(s.disk.cache, s.phase.att, s.phase.run, faults)
    case Flush(_) => true
    case WriteStatus(_) => true
    case Save(_) => true
    case _ => false
  }

  /** The disk that `t` leaves when its write succeeds, or when it does not. */
  ghost function Landed(s: State, t: Transition, landed: bool): Disk
    requires Enabled(s, t) && Writes(s, t)
  {
    Next(s, t.(landed := landed)).disk
  }

  ghost function Target(l: Layout, t: Transition): Path {
    if t.Refresh? then l.cache else if t.Save? || t.Flush? then l.failures else l.status
  }

  /** The bytes handed to writeJSONFile are those of the file that the machine's step leaves. */
  ghost predicate Encodes(l: Layout, s: State, t: Transition, data: Bytes)
    requires Enabled(s, t) && Writes(s, t)
  {
    var after := Landed(s, t, true);
    if t.Refresh? then after.cache.Holds? && data == l.encodeCache(after.cache.value)
    else if t.Save? || t.Flush? then after.failures.Holds? && data == l.encodeFailures(after.failures.value)
    else after.status.Holds? && data == l.encodeStatus(after.status.value)
  }

  /** A successful write changes one file of the disk, an unsuccessful one none. */
  lemma OneFileChanges(s: State, t: Transition)
    requires Enabled(s, t) && Writes(s, t)
    ensures Landed(s, t, false) == s.disk
    ensures var after := Landed(s, t, true);
      after == if t.Refresh? then s.disk.(cache := after.cache)
               else if t.Save? || t.Flush? then s.disk.(failures := after.failures)
               else s.disk.(status := after.status)
  {
  }

  lemma UntouchedShowsSame(l: Layout, before: Contents, now: Contents, tmp: Path)
    requires tmp != l.failures && tmp != l.cache && tmp != l.status && Untouched(before, now, tmp)
    ensures DiskOf(l, now) == DiskOf(l, before)
  {
    UntouchedReadsSame(before, now, tmp, l.failures, l.decodeFailures);
    UntouchedReadsSame(before, now, tmp, l.cache, l.decodeCache);
    UntouchedReadsSame(before, now, tmp, l.status, l.decodeStatus);
  }

  lemma ReplacedShowsNext(l: Layout, s: State, t: Transition, before: Contents, now: Contents, tmp: Path, data: Bytes)
    requires Lawful(l) && tmp != l.failures && tmp != l.cache && tmp != l.status
    requires Enabled(s, t) && Writes(s, t) && DiskOf(l, before) == s.disk && Encodes(l, s, t, data)
    requires Replaced(before, now, tmp, Target(l, t), data)
    ensures DiskOf(l, now) == Landed(s, t, true)
  {
    OneFileChanges(s, t);
    var after := Landed(s, t, true);
    if t.Refresh? {
      var v := after.cache.value;
      SaveReadsOldOrNew(before, now, tmp, l.cache, v, l.encodeCache, l.decodeCache, l.failures, l.decodeFailures);
      SaveReadsOldOrNew(before, now, tmp, l.cache, v, l.encodeCache, l.decodeCache, l.status, l.decodeStatus);
    } else if t.Save? || t.Flush? {
      var v := after.failures.value;
      SaveReadsOldOrNew(before, now, tmp, l.failures, v, l.encodeFailures, l.decodeFailures, l.cache, l.decodeCache);
      SaveReadsOldOrNew(before, now, tmp, l.failures, v, l.encodeFailures, l.decodeFailures, l.status, l.decodeStatus);
    } else {
      var v := after.status.value;
      SaveReadsOldOrNew(before, now, tmp, l.status, v, l.encodeStatus, l.decodeStatus, l.failures, l.decodeFailures);
      SaveReadsOldOrNew(before, now, tmp, l.status, v, l.encodeStatus, l.decodeStatus, l.cache, l.decodeCache);
    }
  }

  /** One write of the program. At every point between its system calls the three files read as the
      machine's disk before the step, and after the rename as its disk after it; so a process killed
      inside the write leaves what a machine killed before or after the step leaves. */
  method WriteStep(fs: FileSystem, l: Layout, path: Path, data: Bytes, tmp: Path, faults: Faults,
                   ghost s: State, ghost t: Transition)
    returns (ok: bool)
    requires Lawful(l) && tmp != l.failures && tmp != l.cache && tmp != l.status
    requires DiskOf(l, fs.files) == s.disk && Enabled(s, t) && Writes(s, t)
    requires path == Target(l, t) && Encodes(l, s, t, data)
    modifies fs
    ensures old(fs.trace) <= fs.trace
    ensures forall i :: |old(fs.trace)| <= i < |fs.trace| ==>
      DiskOf(l, fs.trace[i]) == Landed(s, t, ok && i == |fs.trace| - 1)
    ensures DiskOf(l, fs.files) == Landed(s, t, ok)
  {
    ghost var before := fs.files;
    OneFileChanges(s, t);
    ok := WriteJsonFile(fs, path, data, tmp, faults);
    forall i | |old(fs.trace)| <= i < |fs.trace|
      ensures DiskOf(l, fs.trace[i]) == Landed(s, t, ok && i == |fs.trace| - 1)
    {
      if ok && i == |fs.trace| - 1 {
        ReplacedShowsNext(l, s, t, before, fs.trace[i], tmp, data);
      } else {
        UntouchedShowsSame(l, before, fs.trace[i], tmp);
      }
    }
    if ok {
      assert Replaced(before, fs.files, tmp, path, data);
      ReplacedShowsNext(l, s, t, before, fs.files, tmp, data);
    } else {
      UntouchedShowsSame(l, before, fs.files, tmp);
    }
  }

  // ---------------------------------------------------------------------------------------------
  // A whole invocation
  // ---------------------------------------------------------------------------------------------

  /** The three files read as the machine's disk after some of the transitions `ts` from `s`. */
  ghost predicate IsPoint(l: Layout, files: Contents, s: State, ts: seq<Transition>) {
    exists k: nat :: k <= |ts| && Possible(s, ts[..k]) && DiskOf(l, files) == After(s, ts[..k]).disk
  }

  /** The file system has gone from `start` through points of the execution `ts`, and is at its end. */
  ghost predicate Follows(l: Layout, fs: FileSystem, start: nat, s: State, ts: seq<Transition>)
    reads fs
  {
    && start <= |fs.trace|
    && Possible(s, ts) && DiskOf(l, fs.files) == After(s, ts).disk
    && forall i :: start <= i < |fs.trace| ==> IsPoint(l, fs.trace[i], s, ts)
  }

  lemma EarlierPoint(l: Layout, files: Contents, s: State, ts: seq<Transition>, more: seq<Transition>)
    requires IsPoint(l, files, s, ts)
    ensures IsPoint(l, files, s, ts + more)
  {
    var k: nat :| k <= |ts| && Possible(s, ts[..k]) && DiskOf(l, files) == After(s, ts[..k]).disk;
    assert (ts + more)[..k] == ts[..k];
  }

  lemma LastPoint(l: Layout, files: Contents, s: State, ts: seq<Transition>)
    requires Possible(s, ts) && DiskOf(l, files) == After(s, ts).disk
    ensures IsPoint(l, files, s, ts)
  {
    assert ts[..|ts|] == ts;
  }

  /** Transitions that change no file. */
  lemma FollowsQuietly(l: Layout, fs: FileSystem, start: nat, s: State, ts: seq<Transition>, more: seq<Transition>)
    requires Follows(l, fs, start, s, ts) && Possible(After(s, ts), more)
    requires After(After(s, ts), more).disk == After(s, ts).disk
    ensures Follows(l, fs, start, s, ts + more)
  {
    Continue(s, ts, more);
    forall i | start <= i < |fs.trace|
      ensures IsPoint(l, fs.trace[i], s, ts + more)
    {
      EarlierPoint(l, fs.trace[i], s, ts, more);
    }
  }

  ghost predicate Names(l: Layout, tmp: Path) {
    tmp != l.failures && tmp != l.cache && tmp != l.status
  }

  /** One more write, by the transition `t` once it is known whether it landed. */
  method FollowingWrite(fs: FileSystem, l: Layout, path: Path, data: Bytes, tmp: Path, faults: Faults,
                        ghost start: nat, ghost s: State, ghost ts: seq<Transition>, ghost t: Transition)
    returns (ok: bool)
    requires Lawful(l) && Names(l, tmp) && Follows(l, fs, start, s, ts)
    requires Enabled(After(s, ts), t) && Writes(After(s, ts), t)
    requires path == Target(l, t) && Encodes(l, After(s, ts), t, data)
    modifies fs
    ensures old(fs.trace) <= fs.trace
    ensures Follows(l, fs, start, s, ts + [t.(landed := ok)])
  {
    ghost var before := After(s, ts);
    ok := WriteStep(fs, l, path, data, tmp, faults, before, t);
    ghost var landed := t.(landed := ok);
    OneFileChanges(before, t);
    Extend(s, ts, landed);
    forall i | start <= i < |fs.trace|
      ensures IsPoint(l, fs.trace[i], s, ts + [landed])
    {
      if i < |old(fs.trace)| {
        assert fs.trace[i] == old(fs.trace)[i];
        EarlierPoint(l, fs.trace[i], s, ts, [landed]);
      } else if ok && i == |fs.trace| - 1 {
        LastPoint(l, fs.trace[i], s, ts + [landed]);
      } else {
        LastPoint(l, fs.trace[i], s, ts);
        EarlierPoint(l, fs.trace[i], s, ts, [landed]);
      }
    }
  }

  lemma TwoEffects(ts: seq<Transition>, t: Transition, u: Transition)
    ensures ts + [t] + [u] == ts + [t, u]
  {
  }

  lemma ThreeEffects(ts: seq<Transition>, t: Transition, u: Transition, v: Transition)
    ensures ts + [t] + [u, v] == ts + [t, u, v]
  {
  }

  /** One invocation on the file system itself. `w` decides everything but which writes land; the three
      entries of `tmps` and `faults` are for its first, second and third write. A process killed at any
      point, between effects or inside a write, leaves the files as some prefix of the invocation's
      effects leaves them. */
  method InvocationOnDisk(fs: FileSystem, l: Layout, macroId: string, now: Time, w: World,
                          tmps: (Path, Path, Path), faults: (Faults, Faults, Faults), ghost s: State)
    returns (ghost done: World)
    requires Lawful(l) && Names(l, tmps.0) && Names(l, tmps.1) && Names(l, tmps.2)
    requires s.phase.Idle? && Honest(w, macroId) && DiskOf(l, fs.files) == s.disk
    modifies fs
    ensures done == w.(cacheLands := done.cacheLands, bufferLands := done.bufferLands, statusLands := done.statusLands)
    ensures old(fs.trace) <= fs.trace && Follows(l, fs, |old(fs.trace)|, s, EffectsOf(macroId, now, done))
  {
    ghost var start, ts: seq<Transition> := |fs.trace|, [];
    done := w;
    if !w.credentialsLoad {
      var local := l.encodeStatus(StatusRecord(now, macroId, LocalError, 0, ""));
      var ok := FollowingWrite(fs, l, l.status, local, tmps.0, faults.0, start, s, [], LocalFault(macroId, now, true));
      done := w.(statusLands := ok);
      assert [] + [LocalFault(macroId, now, ok)] == EffectsOf(macroId, now, done);
      return;
    }
    var seen := Seen(ReadJsonFile(fs.files, l.failures, l.decodeFailures), w.bufferFault);
    var att := Begun(seen, macroId, now);
    ExchangeLeaves(s, macroId, now, w);
    ts := ExchangeOf(macroId, now, w);
    FollowsQuietly(l, fs, start, s, [], ts);
    assert [] + ts == ts;
    if Confirms(w.reply, macroId) {
      done := ConfirmedOnDisk(fs, l, att, w.reply.body.run.value, w, tmps, faults, start, s, ts);
    } else {
      done := DegradedOnDisk(fs, l, att, w, tmps, faults, start, s, ts);
    }
  }

  method ConfirmedOnDisk(fs: FileSystem, l: Layout, att: Attempt, run: MacroRun, w: World, tmps: (Path, Path, Path),
                         faults: (Faults, Faults, Faults), ghost start: nat, ghost s: State, ghost ts: seq<Transition>)
    returns (ghost done: World)
    requires Lawful(l) && Names(l, tmps.0) && Names(l, tmps.1) && Names(l, tmps.2)
    requires Follows(l, fs, start, s, ts) && After(s, ts).phase == Accepted(att, run, StatusOf(w.reply))
    modifies fs
    ensures done == w.(cacheLands := done.cacheLands, bufferLands := done.bufferLands, statusLands := done.statusLands)
    ensures old(fs.trace) <= fs.trace && Follows(l, fs, start, s, ts + ConfirmedEffects(done))
  {
    var cacheLands := RefreshOnDisk(fs, l, att, run, w, tmps.0, faults.0, start, s, ts);
    ghost var refresh := Refresh(w.fetched, cacheLands, w.cacheFaults);
    var bufferLands, statusLands := ClearOnDisk(fs, l, att, run, StatusOf(w.reply), tmps, faults, start, s, ts + [refresh]);
    done := w.(cacheLands := cacheLands, bufferLands := bufferLands, statusLands := statusLands);
    ThreeEffects(ts, refresh, Flush(bufferLands), WriteStatus(statusLands));
  }

  method ClearOnDisk(fs: FileSystem, l: Layout, att: Attempt, run: MacroRun, httpStatus: int, tmps: (Path, Path, Path),
                     faults: (Faults, Faults, Faults), ghost start: nat, ghost s: State, ghost ts: seq<Transition>)
    returns (bufferLands: bool, statusLands: bool)
    requires Lawful(l) && Names(l, tmps.1) && Names(l, tmps.2) && Follows(l, fs, start, s, ts)
    requires After(s, ts).phase == Refreshed(att, run, httpStatus)
    modifies fs
    ensures old(fs.trace) <= fs.trace
    ensures Follows(l, fs, start, s, ts + [Flush(bufferLands), WriteStatus(statusLands)])
  {
    bufferLands := FollowingWrite(fs, l, l.failures, l.encodeFailures(EMPTY_BUFFER), tmps.1, faults.1,
                                  start, s, ts, Flush(true));
    ghost var flushed := ts + [Flush(bufferLands)];
    Extend(s, ts, Flush(bufferLands));
    var rec := l.encodeStatus(StatusRecord(att.now, att.macroId, Ok, httpStatus, run.id));
    statusLands := FollowingWrite(fs, l, l.status, rec, tmps.2, faults.2, start, s, flushed, WriteStatus(true));
    TwoEffects(ts, Flush(bufferLands), WriteStatus(statusLands));
  }

  method RefreshOnDisk(fs: FileSystem, l: Layout, att: Attempt, run: MacroRun, w: World, tmp: Path, faults: Faults,
                       ghost start: nat, ghost s: State, ghost ts: seq<Transition>)
    returns (landed: bool)
    requires Lawful(l) && Names(l, tmp) && Follows(l, fs, start, s, ts)
    requires After(s, ts).phase == Accepted(att, run, StatusOf(w.reply))
    modifies fs
    ensures old(fs.trace) <= fs.trace && Follows(l, fs, start, s, ts + [Refresh(w.fetched, landed, w.cacheFaults)])
    ensures After(s, ts + [Refresh(w.fetched, landed, w.cacheFaults)]).phase == Refreshed(att, run, StatusOf(w.reply))
  {
    landed := false;
    var file := ReadJsonFile(fs.files, l.cache, l.decodeCache);
    if IsStale(file, att, run, w.cacheFaults) && w.fetched.Some? {
      var data := l.encodeCache(Updated(Seen(file, w.cacheFaults.update), att.macroId, w.fetched.value, att.now));
      landed := FollowingWrite(fs, l, l.cache, data, tmp, faults, start, s, ts, Refresh(w.fetched, true, w.cacheFaults));
    } else {
      OneStep(After(s, ts), Refresh(w.fetched, false, w.cacheFaults));
      FollowsQuietly(l, fs, start, s, ts, [Refresh(w.fetched, false, w.cacheFaults)]);
    }
    Extend(s, ts, Refresh(w.fetched, landed, w.cacheFaults));
  }

  method DegradedOnDisk(fs: FileSystem, l: Layout, att: Attempt, w: World, tmps: (Path, Path, Path),
                        faults: (Faults, Faults, Faults), ghost start: nat, ghost s: State, ghost ts: seq<Transition>)
    returns (ghost done: World)
    requires Lawful(l) && Names(l, tmps.0) && Names(l, tmps.1)
    requires Follows(l, fs, start, s, ts) && !Confirms(w.reply, att.macroId)
    requires After(s, ts).phase == OutcomePhase(att, w)
    modifies fs
    ensures done == w.(cacheLands := done.cacheLands, bufferLands := done.bufferLands, statusLands := done.statusLands)
    ensures old(fs.trace) <= fs.trace && Follows(l, fs, start, s, ts + DegradedEffects(done))
  {
    var outcome, httpStatus := Submitted(w.reply, att.macroId).outcome, StatusOf(w.reply);
    var rec := l.encodeStatus(StatusRecord(att.now, att.macroId, outcome, httpStatus, ""));
    var statusLands := FollowingWrite(fs, l, l.status, rec, tmps.0, faults.0, start, s, ts, WriteStatus(true));
    ghost var noted := ts + [WriteStatus(statusLands)];
    Extend(s, ts, WriteStatus(statusLands));
    var f := FailureOf(att, outcome, httpStatus);
    var data := l.encodeFailures(Appended(att.buffer, f, att.now));
    var bufferLands := FollowingWrite(fs, l, l.failures, data, tmps.1, faults.1, start, s, noted, Save(true));
    done := w.(bufferLands := bufferLands, statusLands := statusLands);
    TwoEffects(ts, WriteStatus(statusLands), Save(bufferLands));
  }
}
