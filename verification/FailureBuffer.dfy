/**
 The bounded buffer of degraded outcomes (cmd/showmesh-fpp-plugin/failurebuffer.go).

 `FailureBuffer` is the program's own mutable record. `Appended`, `PrunedByAge` and
 `PrunedByCount` say what its methods do to the buffer's value, and `Batch` is the definition that
 does not mention pruning order at all: one prune of the whole history at the end.
 */
module FailureBuffers {
  import opened Sequences

  /** Instants and durations are whole nanoseconds. */
  type Time = int

  const MAX_BUFFERED_FAILURES := 50
  const MAX_FAILURE_AGE: Time := 30 * 24 * 3600 * 1_000_000_000

  /** The class strings of status.go; `Unlisted` is any other text a file might hold. */
  datatype OutcomeClass = Ok | Refused | Rejected | Unreachable | LocalError | Unlisted(text: string)

  datatype BufferedFailure = BufferedFailure(macroObjectId: string, outcome: OutcomeClass, httpStatus: int, at: Time)

  /** What failures.json holds. */
  datatype Buffer = Buffer(failures: seq<BufferedFailure>, dropped: int) {
    /** Everything the buffer answers for: the entries it holds and the ones it only counts. */
    function Total(): int {
      |failures| + dropped
    }
  }

  datatype PriorFailure = PriorFailure(macroObjectId: string, outcome: OutcomeClass, httpStatus: int, at: Time)

  const EMPTY_BUFFER := Buffer([], 0)

  function FreshAt(now: Time): BufferedFailure -> bool {
    (f: BufferedFailure) => now - f.at <= MAX_FAILURE_AGE
  }

  function PrunedByAge(b: Buffer, now: Time): Buffer {
    var kept := Filter(b.failures, FreshAt(now));
    Buffer(kept, b.dropped + |b.failures| - |kept|)
  }

  function PrunedByCount(b: Buffer): Buffer {
    var kept := LastN(b.failures, MAX_BUFFERED_FAILURES);
    Buffer(kept, b.dropped + |b.failures| - |kept|)
  }

  function Appended(b: Buffer, f: BufferedFailure, now: Time): Buffer {
    PrunedByCount(PrunedByAge(Buffer(b.failures + [f], b.dropped), now))
  }

  predicate IsWireFailureClass(outcome: OutcomeClass) {
    outcome == Refused || outcome == Rejected || outcome == Unreachable
  }

  function OnWire(): BufferedFailure -> bool {
    (f: BufferedFailure) => IsWireFailureClass(f.outcome)
  }

  function ToWire(fs: seq<BufferedFailure>): (r: seq<PriorFailure>)
    ensures |r| == |fs|
    ensures forall i :: 0 <= i < |fs| ==>
      r[i] == PriorFailure(fs[i].macroObjectId, fs[i].outcome, fs[i].httpStatus, fs[i].at)
  {
    seq(|fs|, i requires 0 <= i < |fs| => PriorFailure(fs[i].macroObjectId, fs[i].outcome, fs[i].httpStatus, fs[i].at))
  }

  /** The request fields that a buffer turns into. */
  datatype Report = Report(priorFailures: seq<PriorFailure>, dropped: int) {
    function Total(): int {
      |priorFailures| + dropped
    }
  }

  function AsReport(b: Buffer): Report {
    var sent := Filter(b.failures, OnWire());
    Report(ToWire(sent), b.dropped + |b.failures| - |sent|)
  }

  class FailureBuffer {
    var failures: seq<BufferedFailure>
    var dropped: int

    constructor (b: Buffer)
      ensures Value() == b
    {
      failures, dropped := b.failures, b.dropped;
    }

    function Value(): Buffer
      reads this
    {
      Buffer(failures, dropped)
    }

    method Append(f: BufferedFailure, now: Time)
      modifies this
      ensures Value() == Appended(old(Value()), f, now)
    {
      failures := failures + [f];
      PruneByAge(now);
      PruneByCount();
    }

    method PruneByAge(now: Time)
      modifies this
      ensures Value() == PrunedByAge(old(Value()), now)
    {
      var kept := [];
      var i := 0;
      while i < |failures|
        invariant 0 <= i <= |failures|
        invariant failures == old(failures)
        invariant kept == Filter(failures[..i], FreshAt(now))
        invariant dropped == old(dropped) + i - |kept|
      {
        assert failures[..i + 1][..i] == failures[..i];
        var f := failures[i];
        i := i + 1;
        if now - f.at > MAX_FAILURE_AGE {
          dropped := dropped + 1;
          continue;
        }
        kept := kept + [f];
      }
      assert failures[..i] == failures;
      failures := kept;
    }

    method PruneByCount()
      modifies this
      ensures Value() == PrunedByCount(old(Value()))
    {
      if |failures| <= MAX_BUFFERED_FAILURES {
        return;
      }
      var excess := |failures| - MAX_BUFFERED_FAILURES;
      dropped := dropped + excess;
      failures := failures[excess..];
    }

    method AsPriorFailures() returns (report: Report)
      ensures report == AsReport(Value())
    {
      var droppedCount := dropped;
      var out := [];
      ghost var sent := [];
      var i := 0;
      while i < |failures|
        invariant 0 <= i <= |failures|
        invariant sent == Filter(failures[..i], OnWire())
        invariant out == ToWire(sent)
        invariant droppedCount == dropped + i - |out|
      {
        assert failures[..i + 1][..i] == failures[..i];
        var f := failures[i];
        i := i + 1;
        if !IsWireFailureClass(f.outcome) {
          droppedCount := droppedCount + 1;
          continue;
        }
        out := out + [PriorFailure(f.macroObjectId, f.outcome, f.httpStatus, f.at)];
        sent := sent + [f];
      }
      assert failures[..i] == failures;
      if |out| == 0 && droppedCount == 0 {
        return Report([], 0);
      }
      return Report(out, droppedCount);
    }
  }

  // ---------------------------------------------------------------------------------------------
  // What holds for any clock
  // ---------------------------------------------------------------------------------------------

  /** `b` answers for exactly the `base` earlier records plus every entry of `history`: what it
      still holds is an ordered selection of that history and the rest is counted. */
  ghost predicate AnswersFor(b: Buffer, base: int, history: seq<BufferedFailure>) {
    Subsequence(b.failures, history) && b.Total() == base + |history|
  }

  lemma AgePruneAnswers(b: Buffer, now: Time, base: int, history: seq<BufferedFailure>)
    requires AnswersFor(b, base, history)
    ensures AnswersFor(PrunedByAge(b, now), base, history)
  {
    FilterIsSubsequence(b.failures, FreshAt(now));
    SubsequenceTransitive(PrunedByAge(b, now).failures, b.failures, history);
  }

  lemma AppendAnswers(b: Buffer, f: BufferedFailure, now: Time, base: int, history: seq<BufferedFailure>)
    requires AnswersFor(b, base, history)
    ensures AnswersFor(Appended(b, f, now), base, history + [f])
  {
    SubsequenceAppend(b.failures, history, f);
    var grown := Buffer(b.failures + [f], b.dropped);
    AgePruneAnswers(grown, now, base, history + [f]);
    var aged := PrunedByAge(grown, now);
    LastNIsSubsequence(aged.failures, MAX_BUFFERED_FAILURES);
    SubsequenceTransitive(PrunedByCount(aged).failures, aged.failures, history + [f]);
  }

  /** A fresh entry is never the one an append throws away, and the bounds hold afterwards. */
  lemma AppendKeepsNewest(b: Buffer, f: BufferedFailure)
    ensures var r := Appended(b, f, f.at);
      && |r.failures| > 0
      && r.failures[|r.failures| - 1] == f
      && |r.failures| <= MAX_BUFFERED_FAILURES
      && forall g :: g in r.failures ==> f.at - g.at <= MAX_FAILURE_AGE
  {
    FilterConcat(b.failures, [f], FreshAt(f.at));
    var kept := Filter(b.failures + [f], FreshAt(f.at));
    assert kept[|kept| - 1] == f;
    forall g | g in LastN(kept, MAX_BUFFERED_FAILURES)
      ensures f.at - g.at <= MAX_FAILURE_AGE
    {
      FilterMember(b.failures + [f], FreshAt(f.at), g);
    }
  }

  /** The report carries exactly the refused, rejected and unreachable entries, as they stand and in
      the order they stand in, and counts every other entry as one more drop. */
  lemma ReportExactly(b: Buffer)
    ensures var at := Indices(b.failures, (f: BufferedFailure) => f.outcome in {Refused, Rejected, Unreachable});
      var r := AsReport(b);
      && |r.priorFailures| == |at| && r.dropped == b.dropped + |b.failures| - |at|
      && forall k :: 0 <= k < |at| ==>
           var f := b.failures[at[k]];
           r.priorFailures[k] == PriorFailure(f.macroObjectId, f.outcome, f.httpStatus, f.at)
  {
    FilterAt(b.failures, OnWire(), (f: BufferedFailure) => f.outcome in {Refused, Rejected, Unreachable});
  }

  lemma {:induction false} FilterAt(s: seq<BufferedFailure>, p: BufferedFailure -> bool, q: BufferedFailure -> bool)
    requires forall f :: p(f) <==> q(f)
    ensures var at := Indices(s, q);
      |Filter(s, p)| == |at| && forall k :: 0 <= k < |at| ==> Filter(s, p)[k] == s[at[k]]
  {
    if s != [] {
      FilterAt(s[..|s| - 1], p, q);
    }
  }

  /** The report carries the wire-valid entries in order, nothing else, and loses no count. */
  lemma ReportConserves(b: Buffer, base: int, history: seq<BufferedFailure>)
    requires AnswersFor(b, base, history)
    ensures var r := AsReport(b);
      && r.Total() == b.Total() == base + |history|
      && (exists sent :: Subsequence(sent, b.failures) && r.priorFailures == ToWire(sent))
      && (forall p :: p in r.priorFailures ==> IsWireFailureClass(p.outcome))
      && ((forall f :: f in b.failures ==> IsWireFailureClass(f.outcome)) ==>
            r == Report(ToWire(b.failures), b.dropped))
  {
    var sent := Filter(b.failures, OnWire());
    FilterIsSubsequence(b.failures, OnWire());
    forall i | 0 <= i < |sent|
      ensures IsWireFailureClass(sent[i].outcome)
    {
      FilterMember(b.failures, OnWire(), sent[i]);
    }
    if forall f :: f in b.failures ==> IsWireFailureClass(f.outcome) {
      FilterKeepsAll(b.failures, OnWire());
    }
  }

  // ---------------------------------------------------------------------------------------------
  // Incremental pruning is one batch prune
  // ---------------------------------------------------------------------------------------------

  ghost predicate NonDecreasing(history: seq<BufferedFailure>) {
    forall i, j :: 0 <= i < j < |history| ==> history[i].at <= history[j].at
  }

  /** The buffer after appending `history` one invocation at a time: each invocation prunes by age
      when it loads the buffer and again when it appends. */
  ghost function Incremental(base: int, history: seq<BufferedFailure>): Buffer {
    if history == [] then Buffer([], base)
    else
      var f := history[|history| - 1];
      Appended(PrunedByAge(Incremental(base, history[..|history| - 1]), f.at), f, f.at)
  }

  /** One prune of the whole history: of its last fifty entries those at most thirty days old
      survive, and every other entry is counted. */
  ghost function Batch(base: int, history: seq<BufferedFailure>, now: Time): Buffer {
    var kept := Filter(LastN(history, MAX_BUFFERED_FAILURES), FreshAt(now));
    Buffer(kept, base + |history| - |kept|)
  }

  /** What the batch prune keeps and counts, entry by entry. */
  lemma BatchExact(base: int, history: seq<BufferedFailure>, now: Time, g: BufferedFailure)
    ensures var b := Batch(base, history, now);
      && (g in b.failures <==> g in LastN(history, 50) && now - g.at <= 2_592_000_000_000_000)
      && Subsequence(b.failures, history)
      && b.Total() == base + |history|
  {
    FilterMember(LastN(history, MAX_BUFFERED_FAILURES), FreshAt(now), g);
    FilterIsSubsequence(LastN(history, MAX_BUFFERED_FAILURES), FreshAt(now));
    LastNIsSubsequence(history, MAX_BUFFERED_FAILURES);
    SubsequenceTransitive(Batch(base, history, now).failures, LastN(history, MAX_BUFFERED_FAILURES), history);
  }

  ghost function LastAt(history: seq<BufferedFailure>): Time {
    if history == [] then 0 else history[|history| - 1].at
  }

  /** For every history whose clock does not run backwards, the buffer that fifty-entry and
      thirty-day pruning leaves after each append is the batch prune of the whole history. */
  lemma {:induction false} IncrementalIsBatch(base: int, history: seq<BufferedFailure>)
    requires NonDecreasing(history)
    ensures Incremental(base, history) == Batch(base, history, LastAt(history))
  {
    if history != [] {
      var h, f := history[..|history| - 1], history[|history| - 1];
      assert history == h + [f];
      IncrementalIsBatch(base, h);
      BatchAppend(base, h, f, LastAt(h));
    }
  }

  /** One invocation on top of a batch-pruned buffer gives the batch prune of the longer history. */
  lemma BatchAppend(base: int, h: seq<BufferedFailure>, f: BufferedFailure, earlier: Time)
    requires forall g :: g in h ==> g.at <= f.at
    requires NonDecreasing(h)
    requires h != [] ==> earlier <= f.at
    ensures Appended(PrunedByAge(Batch(base, h, earlier), f.at), f, f.at) == Batch(base, h + [f], f.at)
  {
    var window, p := LastN(h, MAX_BUFFERED_FAILURES), FreshAt(f.at);
    var before := Batch(base, h, earlier);
    var loaded := PrunedByAge(before, f.at);
    LoadedTwice(window, f, earlier);
    assert Upward(h, p);
    WindowStep(h, f, MAX_BUFFERED_FAILURES, p);
  }

  /** The age prunes of an earlier invocation, of loading and of appending collapse into one. */
  lemma LoadedTwice(window: seq<BufferedFailure>, f: BufferedFailure, earlier: Time)
    requires window != [] ==> earlier <= f.at
    ensures var p := FreshAt(f.at);
      Filter(Filter(Filter(window, FreshAt(earlier)), p) + [f], p) == Filter(window + [f], p)
  {
    var p := FreshAt(f.at);
    FilterAbsorbs(window, FreshAt(earlier), p);
    FilterAbsorbs(window, p, p);
    FilterConcat(Filter(window, p), [f], p);
    FilterConcat(window, [f], p);
  }

  // ---------------------------------------------------------------------------------------------
  // Exactly which clocks do
  // ---------------------------------------------------------------------------------------------

  /** The step from a history `h`, last pruned at `earlier`, to `h` and `f`: no entry still in the
      window was too old at `earlier` and is young enough again at `f`, and an entry that leaves the
      window young enough both times leaves only entries of that kind behind it. It is read off the
      times of the last fifty attempts, those the file has already dropped included. */
  ghost predicate KeepsPace(h: seq<BufferedFailure>, earlier: Time, f: BufferedFailure) {
    && (forall g :: g in LastN(h, MAX_BUFFERED_FAILURES - 1) && FreshAt(f.at)(g) ==> FreshAt(earlier)(g))
    && (|h| >= MAX_BUFFERED_FAILURES ==>
          var window := LastN(h, MAX_BUFFERED_FAILURES);
          FreshAt(earlier)(window[0]) && FreshAt(f.at)(window[0]) ==>
            forall g :: g in window ==> FreshAt(earlier)(g) && FreshAt(f.at)(g))
  }

  /** What is left of a window when `f` is appended. */
  lemma AppendedLeft(base: int, h: seq<BufferedFailure>, earlier: Time, f: BufferedFailure)
    ensures var left := Filter(Filter(LastN(h, MAX_BUFFERED_FAILURES), FreshAt(earlier)), FreshAt(f.at));
      Appended(PrunedByAge(Batch(base, h, earlier), f.at), f, f.at).failures == LastN(left + [f], MAX_BUFFERED_FAILURES)
  {
    var p := FreshAt(f.at);
    var aged := Filter(LastN(h, MAX_BUFFERED_FAILURES), FreshAt(earlier));
    FilterAbsorbs(aged, p, p);
    FilterConcat(Filter(aged, p), [f], p);
  }

  lemma LongerBatch(base: int, h: seq<BufferedFailure>, f: BufferedFailure)
    ensures Batch(base, h + [f], f.at).failures == Filter(LastN(h, MAX_BUFFERED_FAILURES - 1), FreshAt(f.at)) + [f]
  {
    FilterConcat(LastN(h, MAX_BUFFERED_FAILURES - 1), [f], FreshAt(f.at));
    assert LastN(h + [f], MAX_BUFFERED_FAILURES) == LastN(h, MAX_BUFFERED_FAILURES - 1) + [f];
  }

  /** Two filters in a row leave what the second alone leaves exactly when the first removes nothing
      that the second would keep. */
  lemma FiltersAgreeExactly(s: seq<BufferedFailure>, p: BufferedFailure -> bool, q: BufferedFailure -> bool)
    ensures Filter(Filter(s, p), q) == Filter(s, q) <==> forall g :: g in s && q(g) ==> p(g)
  {
    if forall g :: g in s && q(g) ==> p(g) {
      FilterAbsorbs(s, p, q);
    } else {
      var g :| g in s && q(g) && !p(g);
      FilterMember(s, q, g);
      FilterMember(Filter(s, p), q, g);
      FilterMember(s, p, g);
    }
  }

  lemma FullWindowKept(window: seq<BufferedFailure>, p: BufferedFailure -> bool, q: BufferedFailure -> bool)
    ensures |Filter(Filter(window, p), q)| == |window| <==> forall g :: g in window ==> p(g) && q(g)
    ensures (forall g :: g in window ==> p(g) && q(g)) ==> Filter(Filter(window, p), q) == window
  {
    if forall g :: g in window ==> p(g) && q(g) {
      FilterKeepsAll(window, p);
      FilterKeepsAll(window, q);
    } else {
      FilterShortens(window, p);
      FilterShortens(Filter(window, p), q);
      if forall g :: g in window ==> p(g) {
        FilterKeepsAll(window, p);
      }
    }
  }

  lemma {:induction false} FilterShortens(s: seq<BufferedFailure>, p: BufferedFailure -> bool)
    ensures |Filter(s, p)| == |s| ==> forall g :: g in s ==> p(g)
  {
    if s != [] {
      FilterShortens(s[..|s| - 1], p);
      assert s == s[..|s| - 1] + [s[|s| - 1]];
    }
  }

  /** The oldest entry `g` of a full window and the `rest` behind it, filtered twice. */
  lemma OldestApart(g: BufferedFailure, rest: seq<BufferedFailure>, p: BufferedFailure -> bool, q: BufferedFailure -> bool)
    ensures Filter(Filter([g] + rest, p), q) == (if p(g) && q(g) then [g] else []) + Filter(Filter(rest, p), q)
  {
    FilterConcat([g], rest, p);
    FilterConcat(Filter([g], p), Filter(rest, p), q);
    assert Filter([g], p) == if p(g) then [g] else [];
    assert Filter([g], q) == if q(g) then [g] else [];
  }

  /** If the oldest entry stays, what stays is one entry too many, or the wrong ones. */
  lemma OldestInTheWay(g: BufferedFailure, rest: seq<BufferedFailure>, p: BufferedFailure -> bool, q: BufferedFailure -> bool)
    requires p(g) && q(g)
    ensures Filter(Filter([g] + rest, p), q) != Filter(rest, q)
  {
    var window := [g] + rest;
    var left := Filter(Filter(window, p), q);
    OldestApart(g, rest, p, q);
    if left == Filter(rest, q) {
      forall x | x in rest && q(x)
        ensures p(x)
      {
        FilterMember(rest, q, x);
        FilterMember(Filter(window, p), q, x);
        FilterMember(window, p, x);
      }
      FiltersAgreeExactly(rest, p, q);
      assert false;
    }
  }

  lemma SameLast(a: seq<BufferedFailure>, b: seq<BufferedFailure>, f: BufferedFailure)
    ensures a + [f] == b + [f] <==> a == b
  {
    assert (a + [f])[..|a|] == a && (b + [f])[..|b|] == b;
  }

  lemma AllOfWindow(g: BufferedFailure, rest: seq<BufferedFailure>, q: BufferedFailure -> bool, f: BufferedFailure)
    requires |rest| + 1 == MAX_BUFFERED_FAILURES && forall x :: x in rest ==> q(x)
    ensures LastN([g] + rest + [f], MAX_BUFFERED_FAILURES) == Filter(rest, q) + [f]
  {
    FilterKeepsAll(rest, q);
    assert ([g] + rest + [f])[1..] == rest + [f];
  }

  lemma PartOfWindow(g: BufferedFailure, rest: seq<BufferedFailure>, p: BufferedFailure -> bool, q: BufferedFailure -> bool)
    ensures Filter(Filter([g] + rest, p), q) == Filter(rest, q) <==>
      !(p(g) && q(g)) && forall x :: x in rest && q(x) ==> p(x)
  {
    if p(g) && q(g) {
      OldestInTheWay(g, rest, p, q);
    } else {
      OldestApart(g, rest, p, q);
      FiltersAgreeExactly(rest, p, q);
    }
  }

  lemma FullWindowExactly(g: BufferedFailure, rest: seq<BufferedFailure>, p: BufferedFailure -> bool,
                          q: BufferedFailure -> bool, f: BufferedFailure)
    requires |rest| + 1 == MAX_BUFFERED_FAILURES
    ensures var window := [g] + rest;
      LastN(Filter(Filter(window, p), q) + [f], MAX_BUFFERED_FAILURES) == Filter(rest, q) + [f] <==>
        && (forall x :: x in rest && q(x) ==> p(x))
        && (p(g) && q(g) ==> forall x :: x in window ==> p(x) && q(x))
  {
    var window := [g] + rest;
    var left := Filter(Filter(window, p), q);
    FullWindowKept(window, p, q);
    assert window[0] == g && forall x :: x in rest ==> x in window;
    if |left| == |window| {
      AllOfWindow(g, rest, q, f);
    } else {
      SameLast(left, Filter(rest, q), f);
      PartOfWindow(g, rest, p, q);
    }
  }

  lemma WindowExactly(h: seq<BufferedFailure>, earlier: Time, f: BufferedFailure)
    ensures
      LastN(Filter(Filter(LastN(h, MAX_BUFFERED_FAILURES), FreshAt(earlier)), FreshAt(f.at)) + [f], MAX_BUFFERED_FAILURES)
        == Filter(LastN(h, MAX_BUFFERED_FAILURES - 1), FreshAt(f.at)) + [f] <==>
      KeepsPace(h, earlier, f)
  {
    var p, q := FreshAt(earlier), FreshAt(f.at);
    if |h| < MAX_BUFFERED_FAILURES {
      var left, right := Filter(Filter(h, p), q), Filter(h, q);
      FiltersAgreeExactly(h, p, q);
      assert (left + [f])[..|left|] == left && (right + [f])[..|right|] == right;
    } else {
      var window, rest := LastN(h, MAX_BUFFERED_FAILURES), LastN(h, MAX_BUFFERED_FAILURES - 1);
      assert window == [window[0]] + rest;
      FullWindowExactly(window[0], rest, p, q, f);
    }
  }

  /** One invocation on a batch-pruned buffer: the result is the batch prune of the longer history if
      and only if the step keeps pace. */
  lemma BatchAppendExactly(base: int, h: seq<BufferedFailure>, earlier: Time, f: BufferedFailure)
    ensures Appended(PrunedByAge(Batch(base, h, earlier), f.at), f, f.at) == Batch(base, h + [f], f.at) <==>
      KeepsPace(h, earlier, f)
  {
    var b, longer := Appended(PrunedByAge(Batch(base, h, earlier), f.at), f, f.at), Batch(base, h + [f], f.at);
    assert b.Total() == longer.Total() == base + |h| + 1;
    AppendedLeft(base, h, earlier, f);
    LongerBatch(base, h, f);
    WindowExactly(h, earlier, f);
  }

  ghost predicate KeepsPaceThroughout(history: seq<BufferedFailure>) {
    history != [] ==>
      var h := history[..|history| - 1];
      KeepsPaceThroughout(h) && KeepsPace(h, LastAt(h), history[|history| - 1])
  }

  ghost predicate BatchedThroughout(base: int, history: seq<BufferedFailure>) {
    history != [] ==>
      && BatchedThroughout(base, history[..|history| - 1])
      && Incremental(base, history) == Batch(base, history, LastAt(history))
  }

  lemma ThroughoutOneMore(base: int, h: seq<BufferedFailure>, f: BufferedFailure)
    ensures KeepsPaceThroughout(h + [f]) <==> KeepsPaceThroughout(h) && KeepsPace(h, LastAt(h), f)
    ensures BatchedThroughout(base, h) ==> Incremental(base, h) == Batch(base, h, LastAt(h))
    ensures BatchedThroughout(base, h + [f]) <==>
      && BatchedThroughout(base, h)
      && Appended(PrunedByAge(Incremental(base, h), f.at), f, f.at) == Batch(base, h + [f], f.at)
  {
    assert (h + [f])[..|h + [f]| - 1] == h;
  }

  /** For every history and clock: the buffer is the batch prune after each of its appends if and only
      if every append keeps pace. */
  lemma {:induction false} BatchedExactly(base: int, history: seq<BufferedFailure>)
    ensures BatchedThroughout(base, history) <==> KeepsPaceThroughout(history)
  {
    if history != [] {
      var h, f := history[..|history| - 1], history[|history| - 1];
      assert history == h + [f];
      BatchedExactly(base, h);
      ThroughoutOneMore(base, h, f);
      BatchAppendExactly(base, h, LastAt(h), f);
    }
  }

  lemma BatchOfSecond(f0: BufferedFailure, f1: BufferedFailure)
    requires f1.at - f0.at > MAX_FAILURE_AGE
    ensures Batch(0, [f0, f1], f1.at) == Buffer([f1], 1)
  {
    FilterDropsFirst([f0, f1], FreshAt(f1.at));
    assert [f0, f1][1..] == [f1];
    FilterKeepsAll([f1], FreshAt(f1.at));
  }

  lemma SecondDropsFirst(f0: BufferedFailure, f1: BufferedFailure)
    requires f1.at - f0.at > MAX_FAILURE_AGE
    ensures Incremental(0, [f0, f1]) == Buffer([f1], 1)
  {
    IncrementalIsBatch(0, [f0, f1]);
    BatchOfSecond(f0, f1);
  }

  lemma LateArrival(f1: BufferedFailure, f2: BufferedFailure)
    requires f2.at - f1.at <= MAX_FAILURE_AGE
    ensures Appended(PrunedByAge(Buffer([f1], 1), f2.at), f2, f2.at) == Buffer([f1, f2], 1)
  {
    FilterKeepsAll([f1], FreshAt(f2.at));
    assert [f1] + [f2] == [f1, f2];
    FilterKeepsAll([f1, f2], FreshAt(f2.at));
  }

  /** Three failures, the first too old at the second and young enough again at the third: it is
      counted at the second and stays lost, while one prune at the end would keep it. */
  lemma ClockStepBackLosesMore(f0: BufferedFailure, f1: BufferedFailure, f2: BufferedFailure)
    requires f1.at - f0.at > MAX_FAILURE_AGE
    requires f2.at - f0.at <= MAX_FAILURE_AGE
    ensures Incremental(0, [f0, f1, f2]) == Buffer([f1, f2], 1)
    ensures Batch(0, [f0, f1, f2], f2.at) == Buffer([f0, f1, f2], 0)
    ensures !KeepsPaceThroughout([f0, f1, f2])
  {
    var three := [f0, f1, f2];
    assert three[..2] == [f0, f1];
    SecondDropsFirst(f0, f1);
    LateArrival(f1, f2);
    FilterKeepsAll(three, FreshAt(f2.at));
    assert Incremental(0, three) != Batch(0, three, LastAt(three));
    BatchedExactly(0, three);
  }
}
