/**
 What every execution of the plugin machine keeps: nothing degraded is ever lost silently.
 */
module PluginAccounting {
  import opened Sequences
  import opened FailureBuffers
  import opened Files
  import opened SubmitRuns
  import opened PluginMachine

  // ---------------------------------------------------------------------------------------------
  // The account: what the host still owes the coordinator, read off the log alone
  // ---------------------------------------------------------------------------------------------

  /** What the buffer file stands for: `owed` are the failures saved in it since the last clear,
      oldest first, and `base` counts records known to be lost before them. `blind` says that the
      latest invocation could not read the file; what it holds in memory then stands for one lost
      record instead, and takes the file's place when a write lands. */
  datatype Account = Account(base: int, owed: seq<BufferedFailure>, blind: bool) {
    function Carried(): Account {
      if blind then Account(1, [], false) else this
    }
  }

  const SETTLED := Account(0, [], false)

  function Booked(a: Account, e: Event): Account {
    match e
    case Loaded(whole) => a.(blind := !whole)
    case Saved(f) => Account(a.Carried().base, a.Carried().owed + [f], false)
    case Cleared => SETTLED
    case _ => a
  }

  ghost function AccountOf(log: seq<Event>): Account {
    if log == [] then SETTLED else Booked(AccountOf(log[..|log| - 1]), log[|log| - 1])
  }

  lemma AccountAppend(log: seq<Event>, e: Event)
    ensures AccountOf(log + [e]) == Booked(AccountOf(log), e)
  {
    assert (log + [e])[..|log + [e]| - 1] == log;
  }

  /** Events that are neither loads, saves nor clears leave the account alone. */
  lemma QuietEvents(log: seq<Event>, more: seq<Event>)
    requires |more| <= 1
    requires more != [] ==> !more[0].Saved? && !more[0].Cleared? && !more[0].Loaded?
    ensures AccountOf(log + more) == AccountOf(log)
  {
    if more == [] {
      assert log + more == log;
    } else {
      AccountAppend(log, more[0]);
      assert more == [more[0]];
    }
  }

  lemma AccountStep(log: seq<Event>, n: nat)
    requires n < |log|
    ensures AccountOf(log[..n + 1]) == Booked(AccountOf(log[..n]), log[n])
  {
    assert log[..n + 1] == log[..n] + [log[n]];
    AccountAppend(log[..n], log[n]);
  }

  ghost predicate Settles(report: Report, a: Account) {
    && report.Total() == a.base + |a.owed|
    && exists sent :: Subsequence(sent, a.owed) && report.priorFailures == ToWire(sent)
  }

  ghost predicate Answers(b: Buffer, a: Account) {
    AnswersFor(b, a.base, a.owed)
  }

  lemma ReportSettles(b: Buffer, a: Account)
    requires Answers(b, a)
    ensures Settles(AsReport(b), a)
  {
    ReportConserves(b, a.base, a.owed);
    var sent :| Subsequence(sent, b.failures) && AsReport(b).priorFailures == ToWire(sent);
    SubsequenceTransitive(sent, b.failures, a.owed);
  }

  /** The clear at position `i` gives up exactly what the coordinator has on record: it follows the
      confirmed answer to a recorded request whose report settled the account as it still stands. */
  ghost predicate JustifiedClear(log: seq<Event>, ledger: Ledger, i: nat)
    requires i < |log|
  {
    && i >= 2
    && log[i - 1].Confirmed? && log[i - 1].run.id != ""
    && log[i - 2] == Sent(log[i - 1].report) && i - 2 in ledger
    && Settles(log[i - 1].report, AccountOf(log[..i]).Carried())
  }

  /** A clear is justified, and a request reports all that its sender carried. */
  ghost predicate Faithful(log: seq<Event>, ledger: Ledger, i: nat)
    requires i < |log|
  {
    && (log[i].Cleared? ==> JustifiedClear(log, ledger, i))
    && (log[i].Sent? ==> Settles(log[i].report, AccountOf(log[..i]).Carried()))
  }

  ghost predicate AllFaithful(log: seq<Event>, ledger: Ledger) {
    forall i: nat :: i < |log| ==> Faithful(log, ledger, i)
  }

  ghost predicate LedgerMatches(log: seq<Event>, ledger: Ledger) {
    forall q :: q in ledger ==> q < |log| && log[q] == Sent(ledger[q])
  }

  /** The last two events are the request that the invocation in `phase` sent and its confirmation. */
  ghost predicate JustConfirmed(s: State)
    requires s.phase.Accepted? || s.phase.Refreshed?
  {
    var n := |s.log|;
    && n >= 2
    && s.log[n - 1] == Confirmed(s.phase.att.report, s.phase.run) && s.phase.run.id != ""
    && s.log[n - 2] == Sent(s.phase.att.report) && n - 2 in s.ledger
  }

  // ---------------------------------------------------------------------------------------------
  // The invariant
  // ---------------------------------------------------------------------------------------------

  ghost predicate DiskAnswers(s: State) {
    match s.disk.failures
    case Absent => AccountOf(s.log).base == 0 && AccountOf(s.log).owed == []
    case Unreadable => true
    case Holds(b) => Answers(b, AccountOf(s.log))
  }

  /** The buffer in memory stands for what the invocation carries. Unless that is blind, it is the
      file's, pruned; only damage can change the file meanwhile. */
  ghost predicate AttemptAnswers(s: State) {
    !s.phase.Idle? && !s.phase.Flushed? ==>
      && Answers(s.phase.att.buffer, AccountOf(s.log).Carried())
      && s.phase.att.report == AsReport(s.phase.att.buffer)
      && (s.disk.failures.Unreadable? || AccountOf(s.log).blind
          || s.phase.att.buffer == PrunedByAge(LoadedBuffer(s.disk.failures), s.phase.att.now))
  }

  ghost predicate Recorded(s: State) {
    && LedgerMatches(s.log, s.ledger)
    && (s.phase.InFlight? ==>
         && s.phase.request + 1 == |s.log|
         && s.log[s.phase.request] == Sent(s.phase.att.report)
         && (s.phase.served.Some? ==>
              && s.phase.request in s.ledger
              && s.phase.served.value.id != ""
              && s.phase.served.value.macroObjectId == s.phase.att.macroId))
    && (s.phase.Accepted? || s.phase.Refreshed? ==>
         s.phase.run.macroObjectId == s.phase.att.macroId && JustConfirmed(s))
  }

  ghost predicate Sound(s: State) {
    && DiskAnswers(s)
    && AttemptAnswers(s)
    && Recorded(s)
    && AllFaithful(s.log, s.ledger)
  }

  lemma LongerLog(log: seq<Event>, ledger: Ledger, more: seq<Event>, newer: Ledger)
    requires AllFaithful(log, ledger) && |more| <= 1
    requires forall q :: q in ledger ==> q in newer
    requires more != [] ==> Faithful(log + more, newer, |log|)
    ensures AllFaithful(log + more, newer)
  {
    var longer := log + more;
    forall i: nat | i < |longer|
      ensures Faithful(longer, newer, i)
    {
      if i < |log| {
        assert Faithful(log, ledger, i);
        assert longer[..i] == log[..i];
      }
    }
  }

  /** Most events are faithful whatever came before. */
  lemma LongerQuietLog(log: seq<Event>, ledger: Ledger, more: seq<Event>, newer: Ledger)
    requires AllFaithful(log, ledger) && |more| <= 1
    requires forall q :: q in ledger ==> q in newer
    requires more != [] ==> !more[0].Cleared? && !more[0].Sent?
    ensures AllFaithful(log + more, newer)
  {
    LongerLog(log, ledger, more, newer);
  }

  lemma StartIsSound(s: State, macroId: string, now: Time, fault: bool)
    requires Sound(s) && s.phase.Idle?
    ensures Sound(Next(s, Start(macroId, now, fault)))
  {
    var seen := Seen(s.disk.failures, fault);
    var e := Loaded(!seen.Unreadable?);
    AccountAppend(s.log, e);
    LongerQuietLog(s.log, s.ledger, [e], s.ledger);
    var a := AccountOf(s.log + [e]).Carried();
    assert Answers(LoadedBuffer(seen), a);
    AgePruneAnswers(LoadedBuffer(seen), now, a.base, a.owed);
  }

  lemma AnswerIsRecorded(s: State, reply: Reply)
    requires Recorded(s) && Enabled(s, Answer(reply))
    ensures var s' := Next(s, Answer(reply));
      && Recorded(s') && s'.ledger == s.ledger && s'.disk == s.disk && s'.phase.att == s.phase.att
      && exists e: Event :: (e.Confirmed? || e.Degraded?) && s'.log == s.log + [e]
  {
    OkOnlyWhenConfirmed(reply, s.phase.att.macroId);
    var s' := Next(s, Answer(reply));
    assert s'.log == s.log + [s'.log[|s.log|]];
  }

  lemma AnswerIsSound(s: State, reply: Reply)
    requires Sound(s) && Enabled(s, Answer(reply))
    ensures Sound(Next(s, Answer(reply)))
  {
    AnswerIsRecorded(s, reply);
    var e: Event :| (e.Confirmed? || e.Degraded?) && Next(s, Answer(reply)).log == s.log + [e];
    AccountAppend(s.log, e);
    LongerQuietLog(s.log, s.ledger, [e], s.ledger);
  }

  lemma SendIsSound(s: State)
    requires Sound(s) && s.phase.Ready?
    ensures Sound(Next(s, Send))
  {
    var e := Sent(s.phase.att.report);
    AccountAppend(s.log, e);
    ReportSettles(s.phase.att.buffer, AccountOf(s.log).Carried());
    assert (s.log + [e])[..|s.log|] == s.log;
    LongerLog(s.log, s.ledger, [e], s.ledger);
  }

  /** In phase `Refreshed` the account is still the one the confirmed report settled. */
  lemma ClearIsJustified(log: seq<Event>, ledger: Ledger, b: Buffer, run: MacroRun)
    requires |log| >= 2 && log[|log| - 1] == Confirmed(AsReport(b), run) && log[|log| - 2] == Sent(AsReport(b))
    requires run.id != "" && |log| - 2 in ledger && Answers(b, AccountOf(log).Carried())
    ensures JustifiedClear(log + [Cleared], ledger, |log|)
  {
    assert (log + [Cleared])[..|log|] == log;
    ReportSettles(b, AccountOf(log).Carried());
  }

  lemma FlushAnswers(s: State, landed: bool)
    requires s.phase.Refreshed? && DiskAnswers(s)
    ensures DiskAnswers(Next(s, Flush(landed)))
  {
    if landed {
      AccountAppend(s.log, Cleared);
      assert Answers(EMPTY_BUFFER, SETTLED);
    } else {
      QuietEvents(s.log, [ClearFailed]);
    }
  }

  lemma FlushIsSound(s: State, landed: bool)
    requires Sound(s) && s.phase.Refreshed?
    ensures Sound(Next(s, Flush(landed)))
  {
    FlushAnswers(s, landed);
    if landed {
      ClearIsJustified(s.log, s.ledger, s.phase.att.buffer, s.phase.run);
      LongerLog(s.log, s.ledger, [Cleared], s.ledger);
    } else {
      LongerQuietLog(s.log, s.ledger, [ClearFailed], s.ledger);
    }
  }

  /** What a landed save writes, and the account it belongs to. */
  lemma SaveWrites(s: State)
    requires s.phase.Noted?
    ensures var s' := Next(s, Save(true));
      var f := FailureOf(s.phase.att, s.phase.outcome, s.phase.httpStatus);
      && s'.phase.Idle?
      && s'.disk.failures.Holds? && s'.disk.failures.value == Appended(s.phase.att.buffer, f, s.phase.att.now)
      && AccountOf(s'.log) == Account(AccountOf(s.log).Carried().base, AccountOf(s.log).Carried().owed + [f], false)
  {
    AccountAppend(s.log, Saved(FailureOf(s.phase.att, s.phase.outcome, s.phase.httpStatus)));
  }

  lemma SaveAnswers(s: State, landed: bool)
    requires s.phase.Noted? && DiskAnswers(s) && AttemptAnswers(s)
    ensures DiskAnswers(Next(s, Save(landed)))
  {
    if landed {
      SaveWrites(s);
      var f, a := FailureOf(s.phase.att, s.phase.outcome, s.phase.httpStatus), AccountOf(s.log).Carried();
      AppendAnswers(s.phase.att.buffer, f, s.phase.att.now, a.base, a.owed);
    } else {
      AccountAppend(s.log, SaveFailed);
    }
  }

  lemma SaveIsSound(s: State, landed: bool)
    requires Sound(s) && s.phase.Noted?
    ensures Sound(Next(s, Save(landed)))
  {
    SaveAnswers(s, landed);
    var f := FailureOf(s.phase.att, s.phase.outcome, s.phase.httpStatus);
    LongerQuietLog(s.log, s.ledger, [if landed then Saved(f) else SaveFailed], s.ledger);
  }

  lemma CrashIsSound(s: State)
    requires Sound(s)
    ensures Sound(Next(s, Crash))
  {
    var lost := Forfeited(s.phase);
    QuietEvents(s.log, lost);
    LongerQuietLog(s.log, s.ledger, lost, s.ledger);
    CrashIsRecorded(s);
  }

  lemma CrashIsRecorded(s: State)
    requires LedgerMatches(s.log, s.ledger)
    ensures Recorded(Next(s, Crash))
  {
    var s' := Next(s, Crash);
    assert s'.log == s.log + Forfeited(s.phase);
  }

  lemma ServeIsSound(s: State, t: Transition)
    requires Sound(s) && Enabled(s, t) && (t.Serve? || t.LateServe?)
    ensures Sound(Next(s, t))
  {
    assert s.log + [] == s.log;
    LongerQuietLog(s.log, s.ledger, [], Next(s, t).ledger);
  }

  lemma NextIsSound(s: State, t: Transition)
    requires Sound(s) && Enabled(s, t)
    ensures Sound(Next(s, t))
  {
    match t
    case Start(macroId, now, fault) => StartIsSound(s, macroId, now, fault);
    case Send => SendIsSound(s);
    case Serve(_, _) => ServeIsSound(s, t);
    case LateServe(_) => ServeIsSound(s, t);
    case Answer(reply) => AnswerIsSound(s, reply);
    case Flush(landed) => FlushIsSound(s, landed);
    case Save(landed) => SaveIsSound(s, landed);
    case Crash => CrashIsSound(s);
    case LocalFault(_, _, _) =>
    case Refresh(_, _, _) =>
    case WriteStatus(_) =>
    case Damage(_) =>
  }

  /** Every execution, with crashes, lost answers, failed writes and damaged files anywhere. */
  lemma {:induction false} AlwaysSound(s: State, ts: seq<Transition>)
    requires Fresh(s) && Possible(s, ts)
    ensures Sound(After(s, ts))
  {
    if ts != [] {
      AlwaysSound(s, ts[..|ts| - 1]);
      NextIsSound(After(s, ts[..|ts| - 1]), ts[|ts| - 1]);
    }
  }

  // ---------------------------------------------------------------------------------------------
  // At least once
  // ---------------------------------------------------------------------------------------------

  /** The write at `k` puts something else in the file's place: a clear, or the save of an invocation
      that could not read the file. */
  ghost predicate Replaces(log: seq<Event>, k: nat)
    requires k < |log|
  {
    log[k].Cleared? || (log[k].Saved? && AccountOf(log[..k]).blind)
  }

  ghost predicate NoReset(log: seq<Event>, i: nat, n: nat)
    requires n <= |log|
  {
    forall k: nat :: i < k < n ==> !Replaces(log, k)
  }

  lemma {:induction false} SavedStaysOwed(log: seq<Event>, i: nat, n: nat)
    requires i < n <= |log| && log[i].Saved? && NoReset(log, i, n)
    ensures log[i].failure in AccountOf(log[..n]).owed
  {
    assert log[..n][..n - 1] == log[..n - 1];
    if n > i + 1 {
      SavedStaysOwed(log, i, n - 1);
      assert !Replaces(log, n - 1);
    }
  }

  /** The failure saved at `i` was still owed when the clear at `k` rightly settled the account. */
  ghost predicate GivenUpAt(s: State, i: nat, k: nat) {
    && i < k < |s.log|
    && s.log[i].Saved? && s.log[k].Cleared? && !AccountOf(s.log[..k]).blind
    && s.log[i].failure in AccountOf(s.log[..k]).owed
    && JustifiedClear(s.log, s.ledger, k)
  }

  /** It was still owed when the write at `k` landed over it, by an invocation that could not read
      the file and said so by counting a lost record. */
  ghost predicate OverwrittenAt(log: seq<Event>, i: nat, k: nat) {
    && i < k < |log|
    && log[i].Saved? && (log[k].Saved? || log[k].Cleared?) && AccountOf(log[..k]).blind
    && log[i].failure in AccountOf(log[..k]).owed
  }

  /** In any execution, a failure that once reached the disk is still owed, and then a readable
      buffer file holds or counts it; or a later invocation that could not read the file has written
      over it; or it was given up at a clear that follows a confirmed answer to a recorded report
      carrying or counting everything owed. */
  lemma NothingLostSilently(s: State, ts: seq<Transition>, i: nat)
    requires Fresh(s) && Possible(s, ts)
    requires i < |After(s, ts).log| && After(s, ts).log[i].Saved?
    ensures var e := After(s, ts);
      || (&& e.log[i].failure in AccountOf(e.log).owed
          && !e.disk.failures.Absent?
          && (e.disk.failures.Holds? ==> Answers(e.disk.failures.value, AccountOf(e.log))))
      || (exists k: nat :: OverwrittenAt(e.log, i, k))
      || (exists k: nat :: GivenUpAt(e, i, k))
  {
    AlwaysSound(s, ts);
    var e := After(s, ts);
    if NoReset(e.log, i, |e.log|) {
      SavedStaysOwed(e.log, i, |e.log|);
      assert e.log[..|e.log|] == e.log;
    } else {
      var k := FirstReset(e.log, i);
      SavedStaysOwed(e.log, i, k);
      if AccountOf(e.log[..k]).blind {
        assert OverwrittenAt(e.log, i, k);
      } else {
        assert Faithful(e.log, e.ledger, k);
        assert GivenUpAt(e, i, k);
      }
    }
  }

  lemma {:induction false} FirstReset(log: seq<Event>, i: nat) returns (k: nat)
    requires i < |log| && !NoReset(log, i, |log|)
    ensures i < k < |log| && Replaces(log, k) && NoReset(log, i, k)
  {
    k := i + 1;
    while !Replaces(log, k)
      invariant i < k < |log| && NoReset(log, i, k)
      invariant exists m: nat :: k <= m < |log| && Replaces(log, m)
      decreases |log| - k
    {
      k := k + 1;
    }
  }

  /** Every load so far could read the file. */
  ghost predicate AllLoadsWhole(log: seq<Event>) {
    Loaded(false) !in log
  }

  /** No outside damage to the buffer file, and no read of it that fails. */
  ghost predicate Undisturbed(ts: seq<Transition>) {
    forall t :: t in ts ==> t != Damage(FailuresFile) && (t.Start? ==> !t.fault)
  }

  lemma UndisturbedStep(s: State, t: Transition)
    requires Enabled(s, t) && t != Damage(FailuresFile) && (t.Start? ==> !t.fault)
    requires !s.disk.failures.Unreadable? && AllLoadsWhole(s.log)
    ensures !Next(s, t).disk.failures.Unreadable? && AllLoadsWhole(Next(s, t).log)
  {
    match t
    case Answer(reply) => OkOnlyWhenConfirmed(reply, s.phase.att.macroId);
    case Crash => assert Loaded(false) !in Forfeited(s.phase);
    case _ =>
  }

  /** Undisturbed, every invocation reads the file, so the second way out never happens. */
  lemma {:induction false} UndisturbedReadsAll(s: State, ts: seq<Transition>)
    requires Fresh(s) && Possible(s, ts) && Undisturbed(ts)
    ensures var e := After(s, ts); !e.disk.failures.Unreadable? && AllLoadsWhole(e.log)
  {
    if ts != [] {
      UndisturbedReadsAll(s, ts[..|ts| - 1]);
      assert ts[|ts| - 1] in ts;
      UndisturbedStep(After(s, ts[..|ts| - 1]), ts[|ts| - 1]);
    }
  }

  lemma {:induction false} NeverBlind(log: seq<Event>, n: nat)
    requires n <= |log| && AllLoadsWhole(log)
    ensures !AccountOf(log[..n]).blind
  {
    if n > 0 {
      NeverBlind(log, n - 1);
      assert log[..n][..n - 1] == log[..n - 1] && log[n - 1] in log;
    }
  }

  /** What the save left out of `b'`, one entry for each that it counts. */
  ghost predicate LeftCounted(b: Buffer, f: BufferedFailure, b': Buffer) {
    var all := multiset(b.failures) + multiset{f};
    multiset(b'.failures) <= all && |all - multiset(b'.failures)| == b'.dropped - b.dropped
  }

  lemma SaveCounts(b: Buffer, f: BufferedFailure, now: Time)
    ensures LeftCounted(b, f, Appended(PrunedByAge(b, now), f, now))
  {
    SubsequenceReflexive(b.failures);
    AgePruneAnswers(b, now, b.dropped, b.failures);
    AppendAnswers(PrunedByAge(b, now), f, now, b.dropped, b.failures);
    SubsequenceMultiset(Appended(PrunedByAge(b, now), f, now).failures, b.failures + [f]);
  }

  lemma ReportCovers(b: Buffer, now: Time)
    ensures Settles(AsReport(PrunedByAge(b, now)), Account(b.dropped, b.failures, false))
  {
    SubsequenceReflexive(b.failures);
    AgePruneAnswers(b, now, b.dropped, b.failures);
    ReportSettles(PrunedByAge(b, now), Account(b.dropped, b.failures, false));
  }

  /** The buffer that the invocation in `s` answers for when it replaces a file holding `b`: `b`, or
      one lost record if it could not read the file. */
  ghost function Replaced(s: State, b: Buffer): Buffer {
    if AccountOf(s.log).blind then Buffer([], 1) else b
  }

  lemma BlindBuffer(b: Buffer)
    requires Answers(b, Account(1, [], false))
    ensures b == Buffer([], 1)
  {
  }

  lemma BufferIsReplaced(s: State)
    requires AttemptAnswers(s) && (s.phase.Noted? || s.phase.Refreshed?) && s.disk.failures.Holds?
    ensures s.phase.att.buffer == PrunedByAge(Replaced(s, s.disk.failures.value), s.phase.att.now)
  {
    if AccountOf(s.log).blind {
      BlindBuffer(s.phase.att.buffer);
    }
  }

  /** One transition at a time: when a readable buffer file gives way to another, every entry that
      left it is either counted in `dropped` or was in, or counted by, the report that a confirmed
      run has just put on the coordinator's record; or the invocation could not read the file, and
      the same holds of the one lost record it counts in its place. */
  lemma EntriesLeaveAccounted(s: State, t: Transition)
    requires Sound(s) && Enabled(s, t)
    requires s.disk.failures.Holds? && Next(s, t).disk.failures.Holds?
    ensures var b, b' := s.disk.failures.value, Next(s, t).disk.failures.value;
      || b' == b
      || (&& s.phase.Noted?
          && LeftCounted(Replaced(s, b), FailureOf(s.phase.att, s.phase.outcome, s.phase.httpStatus), b'))
      || (&& s.phase.Refreshed? && b' == EMPTY_BUFFER && JustConfirmed(s)
          && s.phase.run.macroObjectId == s.phase.att.macroId
          && Settles(s.phase.att.report, Account(Replaced(s, b).dropped, Replaced(s, b).failures, false)))
  {
    if s.phase.Noted? && t == Save(true) {
      BufferIsReplaced(s);
      SaveCounts(Replaced(s, s.disk.failures.value), FailureOf(s.phase.att, s.phase.outcome, s.phase.httpStatus), s.phase.att.now);
    } else if s.phase.Refreshed? && t == Flush(true) {
      BufferIsReplaced(s);
      ReportCovers(Replaced(s, s.disk.failures.value), s.phase.att.now);
    }
  }

  // ---------------------------------------------------------------------------------------------
  // Exact accounting when nothing failed
  // ---------------------------------------------------------------------------------------------

  /** The degraded attempts since the last confirmed run, whatever happened to them. */
  ghost function DegradedSince(log: seq<Event>): seq<BufferedFailure> {
    if log == [] then []
    else match log[|log| - 1]
      case Confirmed(_, _) => []
      case Degraded(f) => DegradedSince(log[..|log| - 1]) + [f]
      case _ => DegradedSince(log[..|log| - 1])
  }

  /** No save, clear or load of the buffer went wrong; a crash that owed a write counts as one. */
  ghost predicate Clean(log: seq<Event>) {
    SaveFailed !in log && ClearFailed !in log && Loaded(false) !in log
  }

  ghost predicate PhaseBalanced(s: State) {
    var a, d := AccountOf(s.log), DegradedSince(s.log);
    a.base == 0 && !a.blind &&
    match s.phase
    case Accepted(_, _, _) => d == []
    case Refreshed(_, _, _) => d == []
    case Declined(att, outcome, status) => d == a.owed + [FailureOf(att, outcome, status)]
    case Noted(att, outcome, status) => d == a.owed + [FailureOf(att, outcome, status)]
    case _ => d == a.owed
  }

  ghost predicate ReportBalanced(log: seq<Event>, i: nat)
    requires i < |log|
  {
    log[i].Confirmed? && Clean(log[..i]) ==> log[i].report.Total() == |DegradedSince(log[..i])|
  }

  ghost predicate ReportsBalanced(log: seq<Event>) {
    forall i: nat :: i < |log| ==> ReportBalanced(log, i)
  }

  ghost predicate Balanced(s: State) {
    (Clean(s.log) ==> PhaseBalanced(s)) && ReportsBalanced(s.log)
  }

  lemma CleanAppend(log: seq<Event>, e: Event)
    ensures Clean(log + [e]) <==> Clean(log) && !e.SaveFailed? && !e.ClearFailed? && e != Loaded(false)
  {
    assert forall x :: x in log + [e] <==> x in log || x == e;
  }

  lemma ReportsAppend(log: seq<Event>, e: Event)
    requires ReportsBalanced(log)
    requires e.Confirmed? && Clean(log) ==> e.report.Total() == |DegradedSince(log)|
    ensures ReportsBalanced(log + [e])
  {
    var longer := log + [e];
    forall i: nat | i < |longer|
      ensures ReportBalanced(longer, i)
    {
      assert longer[..i] == log[..i];
      if i < |log| {
        assert ReportBalanced(log, i);
      } else {
        assert log[..i] == log;
      }
    }
  }

  lemma DegradedAppend(log: seq<Event>, e: Event)
    ensures DegradedSince(log + [e]) ==
      (if e.Confirmed? then [] else if e.Degraded? then DegradedSince(log) + [e.failure] else DegradedSince(log))
  {
    assert (log + [e])[..|log + [e]| - 1] == log;
  }

  lemma LogAppendBalanced(log: seq<Event>, e: Event)
    requires ReportsBalanced(log)
    requires e.Confirmed? && Clean(log) ==> e.report.Total() == |DegradedSince(log)|
    ensures ReportsBalanced(log + [e])
    ensures Clean(log + [e]) <==> Clean(log) && !e.SaveFailed? && !e.ClearFailed? && e != Loaded(false)
    ensures DegradedSince(log + [e]) ==
      (if e.Confirmed? then [] else if e.Degraded? then DegradedSince(log) + [e.failure] else DegradedSince(log))
    ensures AccountOf(log + [e]) == Booked(AccountOf(log), e)
  {
    ReportsAppend(log, e);
    CleanAppend(log, e);
    AccountAppend(log, e);
    DegradedAppend(log, e);
  }

  lemma ReportIsBalanced(s: State)
    requires AttemptAnswers(s) && s.phase.InFlight? && PhaseBalanced(s)
    ensures s.phase.att.report.Total() == |DegradedSince(s.log)|
  {
    ReportSettles(s.phase.att.buffer, AccountOf(s.log).Carried());
  }

  lemma ConfirmedIsBalanced(s: State, s': State, e: Event)
    requires Balanced(s) && s'.phase.Accepted? && s'.log == s.log + [e] && e.Confirmed? && s.phase.InFlight?
    requires Clean(s.log) ==> e.report.Total() == |DegradedSince(s.log)|
    ensures Balanced(s')
  {
    LogAppendBalanced(s.log, e);
  }

  lemma DeclinedIsBalanced(s: State, s': State)
    requires Balanced(s) && s.phase.InFlight? && s'.phase.Declined?
    requires s'.log == s.log + [Degraded(FailureOf(s'.phase.att, s'.phase.outcome, s'.phase.httpStatus))]
    ensures Balanced(s')
  {
    LogAppendBalanced(s.log, s'.log[|s.log|]);
  }

  lemma AnswerIsBalanced(s: State, reply: Reply)
    requires Sound(s) && Balanced(s) && Enabled(s, Answer(reply))
    ensures Balanced(Next(s, Answer(reply)))
  {
    OkOnlyWhenConfirmed(reply, s.phase.att.macroId);
    var s' := Next(s, Answer(reply));
    if Confirms(reply, s.phase.att.macroId) {
      if Clean(s.log) {
        ReportIsBalanced(s);
      }
      ConfirmedIsBalanced(s, s', Confirmed(s.phase.att.report, reply.body.run.value));
    } else {
      DeclinedIsBalanced(s, s');
    }
  }

  lemma WriteIsBalanced(s: State, t: Transition)
    requires Balanced(s) && Enabled(s, t) && (t.Save? || t.Flush?)
    ensures Balanced(Next(s, t))
  {
    var e := Next(s, t).log[|s.log|];
    assert Next(s, t).log == s.log + [e];
    LogAppendBalanced(s.log, e);
  }

  lemma StartIsBalanced(s: State, t: Transition)
    requires Balanced(s) && Enabled(s, t) && t.Start?
    ensures Balanced(Next(s, t))
  {
    LogAppendBalanced(s.log, Loaded(!Seen(s.disk.failures, t.fault).Unreadable?));
  }

  lemma CrashIsBalanced(s: State)
    requires Balanced(s)
    ensures Balanced(Next(s, Crash))
  {
    var lost := Forfeited(s.phase);
    if lost != [] {
      LogAppendBalanced(s.log, lost[0]);
    } else {
      assert s.log + lost == s.log;
    }
  }

  lemma NextIsBalanced(s: State, t: Transition)
    requires Sound(s) && Balanced(s) && Enabled(s, t)
    ensures Balanced(Next(s, t))
  {
    match t
    case Start(_, _, _) => StartIsBalanced(s, t);
    case Answer(reply) => AnswerIsBalanced(s, reply);
    case Flush(_) => WriteIsBalanced(s, t);
    case Save(_) => WriteIsBalanced(s, t);
    case Crash => CrashIsBalanced(s);
    case Send => LogAppendBalanced(s.log, Sent(s.phase.att.report));
    case LocalFault(_, _, _) =>
    case Serve(_, _) =>
    case LateServe(_) =>
    case Refresh(_, _, _) =>
    case WriteStatus(_) =>
    case Damage(_) =>
  }

  /** Whenever no save, clear or load before it went wrong, an accepted request reports exactly the
      degraded attempts since the previous accepted one: as many entries and drops as attempts. */
  lemma {:induction false} ExactAccounting(s: State, ts: seq<Transition>)
    requires Fresh(s) && Possible(s, ts)
    ensures var e := After(s, ts);
      && (forall i: nat :: i < |e.log| && e.log[i].Confirmed? && Clean(e.log[..i]) ==>
            e.log[i].report.Total() == |DegradedSince(e.log[..i])|)
      && (Clean(e.log) && e.phase.Idle? ==> AccountOf(e.log) == Account(0, DegradedSince(e.log), false))
  {
    AlwaysBalanced(s, ts);
    var log := After(s, ts).log;
    forall i: nat | i < |log| && log[i].Confirmed? && Clean(log[..i])
      ensures log[i].report.Total() == |DegradedSince(log[..i])|
    {
      assert ReportBalanced(log, i);
    }
  }

  lemma {:induction false} AlwaysBalanced(s: State, ts: seq<Transition>)
    requires Fresh(s) && Possible(s, ts)
    ensures Balanced(After(s, ts))
  {
    if ts != [] {
      AlwaysBalanced(s, ts[..|ts| - 1]);
      AlwaysSound(s, ts[..|ts| - 1]);
      NextIsBalanced(After(s, ts[..|ts| - 1]), ts[|ts| - 1]);
    }
  }

  // ---------------------------------------------------------------------------------------------
  // Exactly once, exactly when
  // ---------------------------------------------------------------------------------------------

  /** The report of the request at `q` carries or counts the failure saved at `p`. */
  ghost predicate Covers(log: seq<Event>, q: nat, p: nat) {
    p < q < |log| && log[p].Saved? && log[q].Sent? && NoReset(log, p, q) && !AccountOf(log[..q]).blind
  }

  /** The request at `q` got a confirming answer and the clear that this calls for landed. */
  ghost predicate Closed(log: seq<Event>, q: nat) {
    q + 2 < |log| && log[q + 1].Confirmed? && log[q + 2].Cleared?
  }

  /** No saved failure is covered by two requests that the coordinator has accepted. */
  ghost predicate ToldOnce(s: State) {
    forall p, q1, q2 :: Covers(s.log, q1, p) && Covers(s.log, q2, p) && q1 in s.ledger && q2 in s.ledger ==> q1 == q2
  }

  /** An accepted request that was sent while failures were owed. */
  ghost predicate Owing(s: State, q: nat) {
    q in s.ledger && q < |s.log| && AccountOf(s.log[..q]).Carried().owed != []
  }

  /** What covering means for the report itself. */
  lemma CoveredIsReported(s: State, ts: seq<Transition>, q: nat, p: nat)
    requires Fresh(s) && Possible(s, ts) && Covers(After(s, ts).log, q, p)
    ensures var log := After(s, ts).log;
      && log[p].failure in AccountOf(log[..q]).owed
      && !AccountOf(log[..q]).blind && Settles(log[q].report, AccountOf(log[..q]))
  {
    AlwaysSound(s, ts);
    var e := After(s, ts);
    SavedStaysOwed(e.log, p, q);
    assert Faithful(e.log, e.ledger, q);
  }

  lemma {:induction false} OwedWasSaved(log: seq<Event>, n: nat) returns (p: nat)
    requires n <= |log| && AccountOf(log[..n]).owed != []
    ensures p < n && log[p].Saved? && NoReset(log, p, n)
  {
    assert log[..n][..n - 1] == log[..n - 1];
    if log[n - 1].Saved? {
      p := n - 1;
    } else {
      p := OwedWasSaved(log, n - 1);
    }
  }

  lemma {:induction false} AccountGrows(log: seq<Event>, m: nat, n: nat)
    requires m <= n <= |log| && forall k: nat :: m <= k < n ==> !Replaces(log, k)
    ensures AccountOf(log[..m]).base == AccountOf(log[..n]).base
    ensures AccountOf(log[..m]).owed <= AccountOf(log[..n]).owed
    decreases n
  {
    if m < n {
      AccountGrows(log, m, n - 1);
      assert !Replaces(log, n - 1);
      assert log[..n][..n - 1] == log[..n - 1];
    }
  }

  /** No accepted request was sent between these two. */
  ghost predicate NextAccepted(ledger: Ledger, q1: nat, q2: nat) {
    q1 in ledger && q2 in ledger && q1 < q2 && forall q :: q1 < q < q2 ==> q !in ledger
  }

  /** Only the clear of the earlier request can stand between two accepted requests in a row. */
  lemma OnlyItsOwnClear(s: State, q1: nat, q2: nat)
    requires Sound(s) && AllLoadsWhole(s.log) && NextAccepted(s.ledger, q1, q2) && !Closed(s.log, q1)
    ensures forall k: nat :: q1 <= k < q2 ==> !Replaces(s.log, k)
  {
    forall k: nat | q1 <= k < q2
      ensures !Replaces(s.log, k)
    {
      NeverBlind(s.log, k);
      assert Faithful(s.log, s.ledger, k);
    }
  }

  lemma AgainUnlessClosed(s: State, q1: nat, q2: nat)
    requires Sound(s) && AllLoadsWhole(s.log) && NextAccepted(s.ledger, q1, q2)
    ensures forall p :: Covers(s.log, q1, p) ==> (Covers(s.log, q2, p) <==> !Closed(s.log, q1))
    ensures !Closed(s.log, q1) ==> AccountOf(s.log[..q1]).owed <= AccountOf(s.log[..q2]).owed
    ensures !Closed(s.log, q1) ==> s.ledger[q1].Total() <= s.ledger[q2].Total()
  {
    NeverBlind(s.log, q1);
    NeverBlind(s.log, q2);
    if Closed(s.log, q1) {
      assert q1 + 2 < q2 && Replaces(s.log, q1 + 2);
    } else {
      OnlyItsOwnClear(s, q1, q2);
      AccountGrows(s.log, q1, q2);
      assert Faithful(s.log, s.ledger, q1) && Faithful(s.log, s.ledger, q2);
    }
  }

  /** Of two accepted requests in a row, the later one reports again everything the earlier one
      reported, and whatever was saved in between, unless the earlier one was closed; then it
      reports none of it. It makes no difference whether the clear failed, the answer was lost, the
      process was killed before either, or the coordinator took the request up after all that. */
  lemma ReportedAgainExactly(s: State, ts: seq<Transition>, q1: nat, q2: nat)
    requires Fresh(s) && Possible(s, ts) && Undisturbed(ts)
    requires NextAccepted(After(s, ts).ledger, q1, q2)
    ensures var e := After(s, ts);
      && q2 < |e.log| && e.log[q1] == Sent(e.ledger[q1]) && e.log[q2] == Sent(e.ledger[q2])
      && (forall p :: Covers(e.log, q1, p) ==> (Covers(e.log, q2, p) <==> !Closed(e.log, q1)))
      && (!Closed(e.log, q1) ==>
            && AccountOf(e.log[..q1]).owed <= AccountOf(e.log[..q2]).owed
            && e.ledger[q1].Total() <= e.ledger[q2].Total())
  {
    AlwaysSound(s, ts);
    UndisturbedReadsAll(s, ts);
    AgainUnlessClosed(After(s, ts), q1, q2);
  }

  lemma UnclosedIsToldTwice(s: State, q1: nat, q2: nat)
    requires Sound(s) && AllLoadsWhole(s.log)
    requires Owing(s, q1) && q2 in s.ledger && q1 < q2 && !Closed(s.log, q1)
    ensures !ToldOnce(s)
  {
    var next := FirstAfter(s.ledger, q1, q2);
    NeverBlind(s.log, q1);
    var p := OwedWasSaved(s.log, q1);
    assert Covers(s.log, q1, p);
    AgainUnlessClosed(s, q1, next);
  }

  lemma TwiceMeansUnclosed(log: seq<Event>, q1: nat, q2: nat, p: nat)
    requires Covers(log, q1, p) && Covers(log, q2, p) && q1 < q2
    ensures AccountOf(log[..q1]).owed != [] && !Closed(log, q1)
  {
    SavedStaysOwed(log, p, q1);
    assert Closed(log, q1) ==> Replaces(log, q1 + 2);
  }

  ghost predicate OwingClosed(s: State) {
    forall q1: nat, q2: nat :: Owing(s, q1) && q2 in s.ledger && q1 < q2 ==> Closed(s.log, q1)
  }

  lemma OnceMeansClosed(s: State)
    requires Sound(s) && AllLoadsWhole(s.log) && ToldOnce(s)
    ensures OwingClosed(s)
  {
    forall q1: nat, q2: nat | Owing(s, q1) && q2 in s.ledger && q1 < q2
      ensures Closed(s.log, q1)
    {
      if !Closed(s.log, q1) {
        UnclosedIsToldTwice(s, q1, q2);
      }
    }
  }

  lemma ClosedMeansOnce(s: State)
    requires OwingClosed(s)
    ensures ToldOnce(s)
  {
    forall p, q1, q2 | Covers(s.log, q1, p) && Covers(s.log, q2, p) && q1 in s.ledger && q2 in s.ledger && q1 < q2
      ensures false
    {
      TwiceMeansUnclosed(s.log, q1, q2, p);
      assert Owing(s, q1);
    }
  }

  /** An execution tells each failure at most once if and only if every accepted request that owed
      something was closed before another accepted one was sent. */
  lemma ToldOnceExactly(s: State, ts: seq<Transition>)
    requires Fresh(s) && Possible(s, ts) && Undisturbed(ts)
    ensures ToldOnce(After(s, ts)) <==> OwingClosed(After(s, ts))
  {
    AlwaysSound(s, ts);
    UndisturbedReadsAll(s, ts);
    var e := After(s, ts);
    if ToldOnce(e) {
      OnceMeansClosed(e);
    }
    if OwingClosed(e) {
      ClosedMeansOnce(e);
    }
  }

  lemma {:induction false} FirstAfter(ledger: Ledger, q1: nat, q2: nat) returns (next: nat)
    requires q1 in ledger && q2 in ledger && q1 < q2
    ensures NextAccepted(ledger, q1, next)
  {
    if q :| q1 < q < q2 && q in ledger {
      next := FirstAfter(ledger, q1, q);
    } else {
      next := q2;
    }
  }

  // ---------------------------------------------------------------------------------------------
  // The file is one batch prune of the history
  // ---------------------------------------------------------------------------------------------

  ghost function Latest(ts: seq<Transition>): Option<Time> {
    if ts == [] then None
    else if ts[|ts| - 1].Start? then Some(ts[|ts| - 1].now)
    else Latest(ts[..|ts| - 1])
  }

  /** Invocations start at times that do not decrease. */
  ghost predicate ClockForward(ts: seq<Transition>) {
    ts != [] ==>
      && ClockForward(ts[..|ts| - 1])
      && (ts[|ts| - 1].Start? && Latest(ts[..|ts| - 1]).Some? ==> Latest(ts[..|ts| - 1]).value <= ts[|ts| - 1].now)
  }

  ghost function BatchOf(a: Account): Buffer {
    Batch(a.base, a.owed, LastAt(a.owed))
  }

  ghost predicate Batched(s: State, latest: Option<Time>) {
    var a := AccountOf(s.log);
    && NonDecreasing(a.owed)
    && (forall f :: f in a.owed ==> latest.Some? && f.at <= latest.value)
    && (s.disk.failures.Holds? ==> s.disk.failures.value == BatchOf(a))
    && (!s.phase.Idle? ==> latest == Some(s.phase.att.now))
    && (!s.phase.Idle? && !s.phase.Flushed? ==> s.phase.att.buffer == PrunedByAge(BatchOf(a.Carried()), s.phase.att.now))
  }

  lemma {:induction false} AppendIsBatched(a: Account, f: BufferedFailure, b: Buffer)
    requires NonDecreasing(a.owed) && forall g :: g in a.owed ==> g.at <= f.at
    requires b == PrunedByAge(BatchOf(a), f.at)
    ensures Appended(b, f, f.at) == BatchOf(Account(a.base, a.owed + [f], false))
    ensures NonDecreasing(a.owed + [f])
  {
    BatchAppend(a.base, a.owed, f, LastAt(a.owed));
  }

  lemma {:induction false} SaveIsBatched(s: State, landed: bool, latest: Option<Time>)
    requires s.phase.Noted? && Batched(s, latest)
    ensures Batched(Next(s, Save(landed)), latest)
  {
    if landed {
      SaveWrites(s);
      AppendIsBatched(AccountOf(s.log).Carried(), FailureOf(s.phase.att, s.phase.outcome, s.phase.httpStatus), s.phase.att.buffer);
    } else {
      QuietEvents(s.log, [SaveFailed]);
    }
  }

  /** Whatever the read gives is the batch of what the invocation then carries. */
  lemma LoadedIsBatch(file: File<Buffer>, fault: bool, a: Account)
    requires file.Holds? ==> file.value == BatchOf(a)
    requires file.Absent? ==> a.base == 0 && a.owed == []
    ensures var seen := Seen(file, fault);
      LoadedBuffer(seen) == BatchOf(a.(blind := seen.Unreadable?).Carried())
  {
    EmptyBatch(0);
    EmptyBatch(1);
  }

  lemma BatchIgnoresBlind(a: Account, blind: bool)
    ensures BatchOf(a.(blind := blind)) == BatchOf(a)
  {
  }

  lemma {:induction false} StartIsBatched(s: State, macroId: string, now: Time, fault: bool, latest: Option<Time>)
    requires DiskAnswers(s) && s.phase.Idle? && Batched(s, latest)
    requires latest.Some? ==> latest.value <= now
    ensures Batched(Next(s, Start(macroId, now, fault)), Some(now))
  {
    LoadedIsBatch(s.disk.failures, fault, AccountOf(s.log));
    var blind := Seen(s.disk.failures, fault).Unreadable?;
    AccountAppend(s.log, Loaded(!blind));
    BatchIgnoresBlind(AccountOf(s.log), blind);
  }

  lemma {:induction false} FlushIsBatched(s: State, landed: bool, latest: Option<Time>)
    requires s.phase.Refreshed? && Batched(s, latest)
    ensures Batched(Next(s, Flush(landed)), latest)
  {
    if landed {
      ClearIsBatched(s, latest);
    } else {
      QuietEvents(s.log, [ClearFailed]);
    }
  }

  lemma {:induction false} ClearIsBatched(s: State, latest: Option<Time>)
    requires s.phase.Refreshed? && Batched(s, latest)
    ensures Batched(Next(s, Flush(true)), latest)
  {
    var s' := Next(s, Flush(true));
    AccountAppend(s.log, Cleared);
    assert AccountOf(s'.log) == Booked(AccountOf(s.log), Cleared);
    assert AccountOf(s'.log).owed == [];
    EmptyBatch(AccountOf(s'.log).base);
  }

  lemma {:induction false} AnswerIsBatched(s: State, reply: Reply, latest: Option<Time>)
    requires Enabled(s, Answer(reply)) && Batched(s, latest)
    ensures Batched(Next(s, Answer(reply)), latest)
  {
    OkOnlyWhenConfirmed(reply, s.phase.att.macroId);
    var s' := Next(s, Answer(reply));
    assert s'.log == s.log + [s'.log[|s.log|]];
    QuietEvents(s.log, [s'.log[|s.log|]]);
  }

  lemma {:induction false} CrashIsBatched(s: State, latest: Option<Time>)
    requires Batched(s, latest)
    ensures Batched(Next(s, Crash), latest)
  {
    QuietEvents(s.log, Forfeited(s.phase));
  }

  lemma {:induction false} SendIsBatched(s: State, latest: Option<Time>)
    requires s.phase.Ready? && Batched(s, latest)
    ensures Batched(Next(s, Send), latest)
  {
    QuietEvents(s.log, [Sent(s.phase.att.report)]);
  }

  lemma {:induction false} RestIsBatched(s: State, t: Transition, latest: Option<Time>)
    requires Enabled(s, t) && Batched(s, latest)
    requires t.LocalFault? || t.Serve? || t.LateServe? || t.Refresh? || t.WriteStatus? || t.Damage?
    ensures Batched(Next(s, t), latest)
  {
  }

  lemma {:induction false} NextIsBatched(s: State, t: Transition, latest: Option<Time>)
    requires Sound(s) && Enabled(s, t) && Batched(s, latest)
    requires t.Start? && latest.Some? ==> latest.value <= t.now
    ensures Batched(Next(s, t), if t.Start? then Some(t.now) else latest)
  {
    match t
    case Start(macroId, now, fault) => StartIsBatched(s, macroId, now, fault, latest);
    case Send => SendIsBatched(s, latest);
    case Answer(reply) => AnswerIsBatched(s, reply, latest);
    case Flush(landed) => FlushIsBatched(s, landed, latest);
    case Save(landed) => SaveIsBatched(s, landed, latest);
    case Crash => CrashIsBatched(s, latest);
    case _ => RestIsBatched(s, t, latest);
  }

  lemma EmptyBatch(base: int)
    ensures forall blind :: BatchOf(Account(base, [], blind)) == Buffer([], base)
  {
  }

  /** With a clock that does not run backwards, a readable buffer file is at every moment one batch
      prune of the failures saved since the last clear (fifty newest, at most thirty days old at
      the last of them, everything else counted), through crashes, lost answers and failed writes. */
  lemma {:induction false} FileIsBatchPrune(s: State, ts: seq<Transition>)
    requires Fresh(s) && Possible(s, ts) && ClockForward(ts)
    ensures var e := After(s, ts);
      && (e.disk.failures.Holds? ==> e.disk.failures.value == BatchOf(AccountOf(e.log)))
      && Batched(e, Latest(ts))
  {
    if ts != [] {
      var before := ts[..|ts| - 1];
      FileIsBatchPrune(s, before);
      AlwaysSound(s, before);
      NextIsBatched(After(s, before), ts[|ts| - 1], Latest(before));
    }
  }

  /** Between invocations of a history in which nothing went wrong, the file is the batch prune of
      the degraded attempts since the last accepted run. */
  lemma CleanFileIsBatchPrune(s: State, ts: seq<Transition>)
    requires Fresh(s) && Possible(s, ts) && ClockForward(ts)
    requires Clean(After(s, ts).log) && After(s, ts).phase.Idle? && After(s, ts).disk.failures.Holds?
    ensures var e := After(s, ts);
      var degraded := DegradedSince(e.log);
      e.disk.failures.value == Batch(0, degraded, LastAt(degraded))
  {
    FileIsBatchPrune(s, ts);
    ExactAccounting(s, ts);
  }
}
