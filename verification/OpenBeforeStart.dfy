/**
 The per-file OPEN-before-START check of cmd/showmesh-multisync-probe/main.go.
 */
module OpenBeforeStart {
  import opened Sequences
  import opened SyncStreams
  import opened Captures

  datatype Line =
    | OpenFirst(filename: string, gap: Time)
    | StartFirst(filename: string, gap: Time)
    | NoOpen(filename: string)
    | NoStart(filename: string)

  datatype FileState = FileState(openAt: Option<Time>, startAt: Option<Time>)

  /** When the file's first event of this action happened, by rescanning all events. */
  function FirstTime(events: seq<LifecycleEvent>, filename: string, action: SyncAction): Option<Time> {
    if events == [] then None
    else
      var earlier := FirstTime(events[..|events| - 1], filename, action);
      var e := events[|events| - 1];
      if earlier.Some? then earlier
      else if e.filename == filename && e.action == action then Some(e.at) else None
  }

  function Rescanned(events: seq<LifecycleEvent>, filename: string): FileState {
    FileState(FirstTime(events, filename, Open), FirstTime(events, filename, Start))
  }

  /** The line a file's two first times call for; a file with neither gets none. */
  function Verdict(filename: string, fs: FileState): (r: seq<Line>)
    ensures |r| <= 1 && (r != [] ==> r[0].filename == filename)
    ensures r == [] <==> fs.openAt.None? && fs.startAt.None?
  {
    match (fs.openAt, fs.startAt)
    case (Some(o), Some(s)) => if o <= s then [OpenFirst(filename, s - o)] else [StartFirst(filename, o - s)]
    case (None, Some(_)) => [NoOpen(filename)]
    case (Some(_), None) => [NoStart(filename)]
    case (None, None) => []
  }

  /** Where the file first appears, or the number of events when it does not. */
  function FirstIndex(events: seq<LifecycleEvent>, filename: string): (i: nat)
    ensures i <= |events|
    ensures i < |events| ==> events[i].filename == filename
    ensures forall k :: 0 <= k < i ==> events[k].filename != filename
  {
    if events == [] then 0
    else if events[0].filename == filename then 0
    else 1 + FirstIndex(events[1..], filename)
  }

  /** Distinct filenames in order of first appearance. */
  function Order(events: seq<LifecycleEvent>): seq<string> {
    if events == [] then []
    else
      var order := Order(events[..|events| - 1]);
      var f := events[|events| - 1].filename;
      if f in order then order else order + [f]
  }

  function Lines(events: seq<LifecycleEvent>, order: seq<string>): seq<Line> {
    if order == [] then []
    else
      var f := order[|order| - 1];
      Lines(events, order[..|order| - 1]) + Verdict(f, Rescanned(events, f))
  }

  /** One more event can only fill a gap in its own file's state. */
  function Filled(fs: FileState, e: LifecycleEvent): FileState {
    FileState(if fs.openAt.None? && e.action == Open then Some(e.at) else fs.openAt,
              if fs.startAt.None? && e.action == Start then Some(e.at) else fs.startAt)
  }

  lemma RescanStep(events: seq<LifecycleEvent>, e: LifecycleEvent)
    ensures forall f ::
      Rescanned(events + [e], f) ==
        if f == e.filename then Filled(Rescanned(events, f), e) else Rescanned(events, f)
    ensures Order(events + [e]) == if e.filename in Order(events) then Order(events) else Order(events) + [e.filename]
  {
    assert (events + [e])[..|events + [e]| - 1] == events;
  }

  /** The order list and the state map after a prefix of the events. */
  ghost predicate Collected(events: seq<LifecycleEvent>, order: seq<string>, seen: map<string, FileState>) {
    && order == Order(events)
    && (forall f :: f in seen <==> f in order)
    && (forall f :: Rescanned(events, f) == if f in seen then seen[f] else FileState(None, None))
  }

  lemma CollectedStep(events: seq<LifecycleEvent>, e: LifecycleEvent, order: seq<string>, seen: map<string, FileState>)
    requires Collected(events, order, seen)
    ensures var fs := Filled(if e.filename in seen then seen[e.filename] else FileState(None, None), e);
      Collected(events + [e], if e.filename in seen then order else order + [e.filename], seen[e.filename := fs])
  {
    RescanStep(events, e);
  }

  method CollectStates(events: seq<LifecycleEvent>) returns (order: seq<string>, seen: map<string, FileState>)
    ensures Collected(events, order, seen)
  {
    order, seen := [], map[];
    var i := 0;
    while i < |events|
      invariant 0 <= i <= |events|
      invariant Collected(events[..i], order, seen)
    {
      var e := events[i];
      assert events[..i + 1] == events[..i] + [e];
      CollectedStep(events[..i], e, order, seen);
      var fs := FileState(None, None);
      if e.filename in seen {
        fs := seen[e.filename];
      } else {
        order := order + [e.filename];
      }
      match e.action {
        case Open =>
          if fs.openAt.None? {
            fs := fs.(openAt := Some(e.at));
          }
        case Start =>
          if fs.startAt.None? {
            fs := fs.(startAt := Some(e.at));
          }
        case _ =>
      }
      seen := seen[e.filename := fs];
      i := i + 1;
    }
    assert events[..i] == events;
  }

  /** Reports every line that is true of the events and no other, in order of the files' first appearance. */
  method AnalyzeOpenBeforeStart(events: seq<LifecycleEvent>) returns (lines: seq<Line>)
    ensures lines == Lines(events, Order(events))
    ensures forall line :: line in lines <==> Holds(events, line)
    ensures InOrder(events, Names(lines))
  {
    var order, seen := CollectStates(events);
    lines := [];
    var i := 0;
    while i < |order|
      invariant 0 <= i <= |order|
      invariant lines == Lines(events, order[..i])
    {
      assert order[..i + 1][..i] == order[..i];
      assert order[i] in seen;
      lines := lines + Verdict(order[i], seen[order[i]]);
      i := i + 1;
    }
    assert order[..i] == order;
    AnalysisExact(events);
  }

  // ---------------------------------------------------------------------------------------------
  // What the lines say
  // ---------------------------------------------------------------------------------------------

  ghost predicate Opened(events: seq<LifecycleEvent>, filename: string, action: SyncAction) {
    exists e :: e in events && e.filename == filename && e.action == action
  }

  /** The first event of the file with this action is at `i`. */
  ghost predicate IsFirst(events: seq<LifecycleEvent>, filename: string, action: SyncAction, i: nat) {
    && i < |events| && events[i].filename == filename && events[i].action == action
    && forall k :: 0 <= k < i ==> events[k].filename != filename || events[k].action != action
  }

  /** FirstTime is the time of the earliest such event, and none when there is no such event. */
  lemma {:induction false} FirstTimeFound(events: seq<LifecycleEvent>, filename: string, action: SyncAction)
    ensures FirstTime(events, filename, action).None? ==> !Opened(events, filename, action)
    ensures FirstTime(events, filename, action).Some? ==>
      Opened(events, filename, action) &&
      exists i: nat :: IsFirst(events, filename, action, i) && events[i].at == FirstTime(events, filename, action).value
  {
    if events != [] {
      var front, last := events[..|events| - 1], events[|events| - 1];
      FirstTimeFound(front, filename, action);
      assert forall e :: e in events <==> e in front || e == last;
      if FirstTime(front, filename, action).Some? {
        var i: nat :| IsFirst(front, filename, action, i) && front[i].at == FirstTime(front, filename, action).value;
        assert IsFirst(events, filename, action, i);
      } else if last.filename == filename && last.action == action {
        assert forall k :: 0 <= k < |front| ==> front[k] in front;
        assert IsFirst(events, filename, action, |front|);
      }
    }
  }

  lemma {:induction false} FirstIndexAppend(events: seq<LifecycleEvent>, e: LifecycleEvent, filename: string)
    ensures FirstIndex(events + [e], filename) ==
      if FirstIndex(events, filename) < |events| then FirstIndex(events, filename)
      else if e.filename == filename then |events| else |events| + 1
  {
    var i, j := FirstIndex(events, filename), FirstIndex(events + [e], filename);
    var longer := events + [e];
    assert longer[|events|] == e;
    if i < |events| {
      assert longer[i] == events[i];
      assert j >= |longer| || longer[j].filename == filename;
    } else {
      assert forall k :: 0 <= k < |events| ==> longer[k] == events[k];
    }
  }

  lemma {:induction false} OrderExact(events: seq<LifecycleEvent>)
    ensures forall f :: f in Order(events) <==> FirstIndex(events, f) < |events|
    ensures forall a, b :: 0 <= a < b < |Order(events)| ==>
      FirstIndex(events, Order(events)[a]) < FirstIndex(events, Order(events)[b])
  {
    if events != [] {
      var front, last := events[..|events| - 1], events[|events| - 1];
      assert events == front + [last];
      OrderExact(front);
      forall f
        ensures FirstIndex(events, f) == if FirstIndex(front, f) < |front| then FirstIndex(front, f)
                                         else if last.filename == f then |front| else |front| + 1
      {
        FirstIndexAppend(front, last, f);
      }
    }
  }

  ghost predicate InOrder(events: seq<LifecycleEvent>, names: seq<string>) {
    forall a, b :: 0 <= a < b < |names| ==> FirstIndex(events, names[a]) < FirstIndex(events, names[b])
  }

  function Names(lines: seq<Line>): (r: seq<string>)
    ensures |r| == |lines| && forall k :: 0 <= k < |r| ==> r[k] == lines[k].filename
  {
    seq(|lines|, k requires 0 <= k < |lines| => lines[k].filename)
  }

  lemma {:induction false} LinesExact(events: seq<LifecycleEvent>, order: seq<string>)
    ensures forall line :: line in Lines(events, order) <==>
      line.filename in order && Verdict(line.filename, Rescanned(events, line.filename)) == [line]
  {
    if order != [] {
      LinesExact(events, order[..|order| - 1]);
      assert order == order[..|order| - 1] + [order[|order| - 1]];
    }
  }

  lemma {:induction false} LinesOrdered(events: seq<LifecycleEvent>, order: seq<string>)
    requires InOrder(events, order)
    ensures InOrder(events, Names(Lines(events, order)))
  {
    if order != [] {
      var front, f := order[..|order| - 1], order[|order| - 1];
      forall a, b | 0 <= a < b < |front|
        ensures FirstIndex(events, front[a]) < FirstIndex(events, front[b])
      {
        assert front[a] == order[a] && front[b] == order[b];
      }
      LinesOrdered(events, front);
      LineNamesPrecede(events, order, Lines(events, front));
      OrderJoin(events, Lines(events, front), f, Verdict(f, Rescanned(events, f)));
    }
  }

  lemma OrderJoin(events: seq<LifecycleEvent>, lines: seq<Line>, f: string, own: seq<Line>)
    requires InOrder(events, Names(lines)) && |own| <= 1 && (own != [] ==> own[0].filename == f)
    requires AllPrecede(events, lines, f)
    ensures InOrder(events, Names(lines + own))
  {
    var all := Names(lines + own);
    forall a, b | 0 <= a < b < |all|
      ensures FirstIndex(events, all[a]) < FirstIndex(events, all[b])
    {
      assert all[a] == Names(lines)[a];
      if b < |lines| {
        assert all[b] == Names(lines)[b];
      }
    }
  }

  ghost predicate AllPrecede(events: seq<LifecycleEvent>, lines: seq<Line>, f: string) {
    forall a :: 0 <= a < |lines| ==> FirstIndex(events, lines[a].filename) < FirstIndex(events, f)
  }

  /** The lines of the earlier files all name files that first appear before the last one. */
  lemma LineNamesPrecede(events: seq<LifecycleEvent>, order: seq<string>, lines: seq<Line>)
    requires order != [] && InOrder(events, order) && lines == Lines(events, order[..|order| - 1])
    ensures AllPrecede(events, lines, order[|order| - 1])
  {
    var front := order[..|order| - 1];
    LinesExact(events, front);
    forall a | 0 <= a < |lines|
      ensures FirstIndex(events, lines[a].filename) < FirstIndex(events, order[|order| - 1])
    {
      assert lines[a] in lines;
      var k :| 0 <= k < |front| && front[k] == lines[a].filename;
      assert order[k] == front[k];
    }
  }

  /** What a line says of the events, by the file's first OPEN at `i` and first START at `j`. */
  ghost predicate Holds(events: seq<LifecycleEvent>, line: Line) {
    match line
    case OpenFirst(f, gap) =>
      exists i: nat, j: nat :: (IsFirst(events, f, Open, i) && IsFirst(events, f, Start, j)
        && events[i].at <= events[j].at && gap == events[j].at - events[i].at)
    case StartFirst(f, gap) =>
      exists i: nat, j: nat :: (IsFirst(events, f, Open, i) && IsFirst(events, f, Start, j)
        && events[j].at < events[i].at && gap == events[i].at - events[j].at)
    case NoOpen(f) => Opened(events, f, Start) && !Opened(events, f, Open)
    case NoStart(f) => Opened(events, f, Open) && !Opened(events, f, Start)
  }

  lemma FirstIsUnique(events: seq<LifecycleEvent>, filename: string, action: SyncAction, i: nat, j: nat)
    requires IsFirst(events, filename, action, i) && IsFirst(events, filename, action, j)
    ensures i == j
  {
  }

  /** A file's first time is `events[i].at` exactly for its first event at `i`. */
  lemma FirstTimeAt(events: seq<LifecycleEvent>, filename: string, action: SyncAction, i: nat)
    requires IsFirst(events, filename, action, i)
    ensures FirstTime(events, filename, action) == Some(events[i].at)
  {
    FirstTimeFound(events, filename, action);
    assert events[i] in events;
    var k: nat :| IsFirst(events, filename, action, k) && events[k].at == FirstTime(events, filename, action).value;
    FirstIsUnique(events, filename, action, i, k);
  }

  lemma VerdictHolds(events: seq<LifecycleEvent>, line: Line)
    ensures Verdict(line.filename, Rescanned(events, line.filename)) == [line] <==> Holds(events, line)
  {
    var f := line.filename;
    FirstTimeFound(events, f, Open);
    FirstTimeFound(events, f, Start);
    forall i: nat | IsFirst(events, f, Open, i)
      ensures FirstTime(events, f, Open) == Some(events[i].at)
    {
      FirstTimeAt(events, f, Open, i);
    }
    forall j: nat | IsFirst(events, f, Start, j)
      ensures FirstTime(events, f, Start) == Some(events[j].at)
    {
      FirstTimeAt(events, f, Start, j);
    }
  }

  /** Every line that is true of the events and no other, at most one to a file, in order of the files'
      first appearance; and a file has a line exactly when it has an OPEN or a START. */
  lemma AnalysisExact(events: seq<LifecycleEvent>)
    ensures var lines := Lines(events, Order(events));
      && (forall line :: line in lines <==> Holds(events, line))
      && InOrder(events, Names(lines))
      && (forall f :: Opened(events, f, Open) || Opened(events, f, Start) <==>
            exists line :: line in lines && line.filename == f)
  {
    OrderExact(events);
    LinesExact(events, Order(events));
    LinesOrdered(events, Order(events));
    var lines := Lines(events, Order(events));
    forall f
      ensures Verdict(f, Rescanned(events, f)) != [] <==> Opened(events, f, Open) || Opened(events, f, Start)
      ensures Verdict(f, Rescanned(events, f)) != [] ==> f in Order(events)
    {
      FirstTimeFound(events, f, Open);
      FirstTimeFound(events, f, Start);
    }
    forall line
      ensures line in lines <==> Holds(events, line)
    {
      VerdictHolds(events, line);
    }
    forall f | Opened(events, f, Open) || Opened(events, f, Start)
      ensures exists line :: line in lines && line.filename == f
    {
      var own := Verdict(f, Rescanned(events, f));
      assert own == [own[0]] && own[0] in lines;
    }
  }
}
