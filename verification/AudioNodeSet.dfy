/**
 `showmeshctl audio node set`: a read at most once, fields carried forward, and a conditional PUT
 (cmd/showmeshctl/cmd_audio.go, cmd/showmeshctl/revision.go), against a revisioned object that
 other writers change in between (If-Match as in section 13.1.1 of RFC 9110).
 */
module AudioNodeSet {
  import opened Sequences

  const ALSA_SINK := "alsasink"
  const PIPEWIRE_SINK := "pipewiresink"
  const UNMEASURED := "unmeasured"
  const DEFAULT_ROLE := "program+ltc"
  const LATENCY_BOUND_US := 1_000_000

  datatype Latency = Latency(valueUs: Option<int>, measurement: string, measuredAt: Option<string>,
                             reference: string, confidence: string, configuration: string)

  datatype Node = Node(programRoute: string, ltcRoute: string, programChannels: seq<int>, ltcChannel: int,
                       localClockOverride: string, role: string, zone: Option<string>, sinkBackend: string,
                       pipewireTargetNode: Option<string>, outputLatency: Option<Latency>)

  /** The --output-latency-* flags when any of them was given. */
  datatype LatencyFlags = LatencyFlags(us: int, measurement: string, measuredAt: string,
                                       reference: string, confidence: string, configuration: string)

  /** `None` is a flag that was not given; `programChannels` is the list the text parses to. */
  datatype Flags = Flags(programRoute: string, programChannels: Option<seq<int>>, ltcRoute: string, ltcChannel: Option<int>,
                         localClockOverride: Option<string>, role: string, zone: Option<string>,
                         sinkBackend: Option<string>, pipewireTargetNode: Option<string>,
                         outputLatency: Option<LatencyFlags>, ifMatch: Option<nat>, force: bool)

  /** What a GET of the object gives. */
  datatype Fetch = Found(revision: nat, node: Node) | NotFound | ReadFailed

  // ---------------------------------------------------------------------------------------------
  // What the fields mean to the coordinator
  // ---------------------------------------------------------------------------------------------

  function SinkMeaning(n: Node): string {
    if n.sinkBackend == "" then ALSA_SINK else n.sinkBackend
  }

  /** A target is only ever read, and only ever accepted, with the PipeWire sink. */
  function TargetMeaning(n: Node): Option<string> {
    if SinkMeaning(n) == PIPEWIRE_SINK then n.pipewireTargetNode else None
  }

  function Measured(l: Option<Latency>): bool {
    l.Some? && l.value.measurement != "" && l.value.measurement != UNMEASURED
  }

  function LatencyMeaning(n: Node): Option<Latency> {
    if Measured(n.outputLatency) then n.outputLatency else None
  }

  function RoleMeaning(n: Node): string {
    if n.role == "" then DEFAULT_ROLE else n.role
  }

  /** How an accepted body is stored and later read back: defaults made explicit. */
  function Stored(n: Node): Node {
    n.(role := RoleMeaning(n),
       sinkBackend := SinkMeaning(n),
       outputLatency := if Measured(n.outputLatency) then n.outputLatency
                        else Some(Latency(None, UNMEASURED, None, "", "", "")))
  }

  // ---------------------------------------------------------------------------------------------
  // Which bodies the coordinator accepts
  // ---------------------------------------------------------------------------------------------

  /** The fields that are never carried forward. */
  datatype Placement = Placement(programRoute: string, ltcRoute: string, programChannels: seq<int>, ltcChannel: int,
                                 role: string, zone: Option<string>)

  function PlacementOf(n: Node): Placement {
    Placement(n.programRoute, n.ltcRoute, n.programChannels, n.ltcChannel, RoleMeaning(n), n.zone)
  }

  /** `placed` is the coordinator's verdict on a placement, from its own rules, the node's reports and
      the other nodes' roles; `isTimestamp` is its reading of RFC 3339 timestamps. */
  datatype Rules = Rules(placed: Placement -> bool, isTimestamp: string -> bool)

  const A_TIMESTAMP := "2026-01-01T00:00:00Z"

  /** All that is asked of the timestamp syntax: section 5.6 of RFC 3339 has this text in it. */
  ghost predicate Lawful(rules: Rules) {
    rules.isTimestamp(A_TIMESTAMP)
  }

  predicate AcceptsLatency(rules: Rules, l: Latency) {
    if l.measurement == "" || l.measurement == UNMEASURED then
      l.valueUs.None? && l.measuredAt.None? && l.reference == "" && l.confidence == "" && l.configuration == ""
    else
      && l.measurement in ["loopback", "acoustic", "declared"]
      && l.valueUs.Some? && -LATENCY_BOUND_US <= l.valueUs.value <= LATENCY_BOUND_US && l.valueUs.value != 0
      && l.measuredAt.Some? && rules.isTimestamp(l.measuredAt.value)
      && l.reference != "" && l.confidence != "" && l.configuration != ""
  }

  predicate Accepts(rules: Rules, n: Node) {
    && rules.placed(PlacementOf(n))
    && n.sinkBackend in ["", ALSA_SINK, PIPEWIRE_SINK]
    && (n.pipewireTargetNode.Some? ==> SinkMeaning(n) == PIPEWIRE_SINK && n.pipewireTargetNode.value != "")
    && (n.outputLatency.Some? ==> AcceptsLatency(rules, n.outputLatency.value))
  }

  lemma StoredIsAccepted(rules: Rules, n: Node)
    requires Accepts(rules, n)
    ensures Accepts(rules, Stored(n)) && Stored(Stored(n)) == Stored(n)
  {
  }

  /** Every carry-forward field whose flag was omitted means after the write what it meant before.
      The target is only promised while the sink it belongs to is the one being written. */
  predicate KeepsOmitted(f: Flags, before: Node, after: Node) {
    && (f.localClockOverride.None? ==> after.localClockOverride == before.localClockOverride)
    && (f.sinkBackend.None? ==> SinkMeaning(after) == SinkMeaning(before))
    && (f.pipewireTargetNode.None? && SinkMeaning(after) == PIPEWIRE_SINK && SinkMeaning(before) == PIPEWIRE_SINK ==>
          TargetMeaning(after) == TargetMeaning(before))
    && (f.outputLatency.None? ==> LatencyMeaning(after) == LatencyMeaning(before))
  }

  /** Some carry-forward field depends on what was read. */
  predicate OmitsSomething(f: Flags) {
    || f.localClockOverride.None?
    || f.sinkBackend.None?
    || (f.pipewireTargetNode.None? && f.sinkBackend == Some(PIPEWIRE_SINK))
    || f.outputLatency.None?
  }

  // ---------------------------------------------------------------------------------------------
  // The body and the header as functions of the one read
  // ---------------------------------------------------------------------------------------------

  predicate UsageError(f: Flags) {
    || f.programRoute == ""
    || f.programChannels.None?
    || ((f.ltcRoute != "" || f.ltcChannel.Some?) && (f.ltcRoute == "" || f.ltcChannel.None?))
  }

  predicate NeedsRead(f: Flags) {
    OmitsSomething(f) || (!f.force && f.ifMatch.None?)
  }

  function LatencyFromFlags(l: LatencyFlags): Latency {
    Latency(if l.measurement != "" && l.measurement != UNMEASURED then Some(l.us) else None, l.measurement,
            if l.measuredAt != "" then Some(l.measuredAt) else None, l.reference, l.confidence, l.configuration)
  }

  function ClockFor(f: Flags, cur: Fetch): string {
    if f.localClockOverride.Some? then f.localClockOverride.value
    else if cur.Found? then cur.node.localClockOverride else ""
  }

  function SinkFor(f: Flags, cur: Fetch): string {
    if f.sinkBackend.Some? then f.sinkBackend.value
    else if cur.Found? then cur.node.sinkBackend else ""
  }

  function TargetFor(f: Flags, sink: string, cur: Fetch): Option<string> {
    if f.pipewireTargetNode.Some? then f.pipewireTargetNode
    else if sink == PIPEWIRE_SINK && cur.Found? then cur.node.pipewireTargetNode else None
  }

  function LatencyFor(f: Flags, cur: Fetch): Option<Latency> {
    if f.outputLatency.Some? then Some(LatencyFromFlags(f.outputLatency.value))
    else if cur.Found? && Measured(cur.node.outputLatency) then cur.node.outputLatency else None
  }

  function BodyFor(f: Flags, cur: Fetch): Node
    requires !UsageError(f)
  {
    var sink := SinkFor(f, cur);
    Node(f.programRoute, f.ltcRoute, f.programChannels.value, if f.ltcChannel.Some? then f.ltcChannel.value else 0,
         ClockFor(f, cur), f.role, f.zone, sink, TargetFor(f, sink, cur), LatencyFor(f, cur))
  }

  /** resolveIfMatch's precedence; a payload never carries a revision for this command. */
  function HeaderFor(f: Flags, cur: Fetch): Option<nat> {
    if f.force then None
    else if f.ifMatch.Some? then f.ifMatch
    else if cur.Found? then Some(cur.revision) else None
  }

  /** `sent` is what these flags ask for, given the one read: each flag that is given, as it is given;
      where it is omitted, what was read of that field, or nothing if no object was found; no target but
      with the PipeWire sink, and no latency but a measured one. */
  predicate Sends(f: Flags, cur: Fetch, sent: Node) {
    && sent.programRoute == f.programRoute && Some(sent.programChannels) == f.programChannels
    && sent.ltcRoute == f.ltcRoute && sent.ltcChannel == (if f.ltcChannel.Some? then f.ltcChannel.value else 0)
    && sent.role == f.role && sent.zone == f.zone
    && match (f.localClockOverride, cur) {
         case (Some(given), _) => sent.localClockOverride == given
         case (None, Found(_, node)) => sent.localClockOverride == node.localClockOverride
         case _ => sent.localClockOverride == ""
       }
    && match (f.sinkBackend, cur) {
         case (Some(given), _) => sent.sinkBackend == given
         case (None, Found(_, node)) => sent.sinkBackend == node.sinkBackend
         case _ => sent.sinkBackend == ""
       }
    && match (f.pipewireTargetNode, cur) {
         case (Some(_), _) => sent.pipewireTargetNode == f.pipewireTargetNode
         case (None, Found(_, node)) =>
           sent.pipewireTargetNode == if sent.sinkBackend == "pipewiresink" then node.pipewireTargetNode else None
         case _ => sent.pipewireTargetNode == None
       }
    && match (f.outputLatency, cur) {
         case (Some(given), _) => sent.outputLatency.Some? && Converts(given, sent.outputLatency.value)
         case (None, Found(_, node)) => CarriesLatency(node.outputLatency, sent.outputLatency)
         case _ => sent.outputLatency == None
       }
  }

  /** The microseconds go along only with a measurement, the time only if one is given. */
  predicate Converts(given: LatencyFlags, sent: Latency) {
    && sent.measurement == given.measurement && sent.reference == given.reference
    && sent.confidence == given.confidence && sent.configuration == given.configuration
    && (given.measurement in ["", "unmeasured"] ==> sent.valueUs == None)
    && (given.measurement !in ["", "unmeasured"] ==> sent.valueUs == Some(given.us))
    && (given.measuredAt == "" ==> sent.measuredAt == None)
    && (given.measuredAt != "" ==> sent.measuredAt == Some(given.measuredAt))
  }

  predicate CarriesLatency(read: Option<Latency>, sent: Option<Latency>) {
    if read.Some? && read.value.measurement !in ["", "unmeasured"] then sent == read else sent == None
  }

  /** `stored` is `sent` with its defaults made explicit, and the same in every other field. */
  predicate StoredAs(sent: Node, stored: Node) {
    && stored.programRoute == sent.programRoute && stored.programChannels == sent.programChannels
    && stored.ltcRoute == sent.ltcRoute && stored.ltcChannel == sent.ltcChannel
    && stored.zone == sent.zone && stored.localClockOverride == sent.localClockOverride
    && stored.pipewireTargetNode == sent.pipewireTargetNode
    && stored.role == (if sent.role == "" then "program+ltc" else sent.role)
    && stored.sinkBackend == (if sent.sinkBackend == "" then "alsasink" else sent.sinkBackend)
    && stored.outputLatency.Some?
    && (if sent.outputLatency.Some? && sent.outputLatency.value.measurement !in ["", "unmeasured"]
        then stored.outputLatency == sent.outputLatency
        else stored.outputLatency.value == Latency(None, "unmeasured", None, "", "", ""))
  }

  lemma StoredExactly(sent: Node, stored: Node)
    ensures StoredAs(sent, stored) <==> stored == Stored(sent)
  {
  }

  lemma LatencyExactly(f: Flags, cur: Fetch, sent: Latency)
    requires f.outputLatency.Some?
    ensures Converts(f.outputLatency.value, sent) <==> Some(sent) == LatencyFor(f, cur)
  {
  }

  /** The body is what the flags and the read ask for, and nothing else is. */
  lemma BodyExactly(f: Flags, cur: Fetch, sent: Node)
    requires !UsageError(f)
    ensures Sends(f, cur, sent) <==> sent == BodyFor(f, cur)
  {
    if f.outputLatency.Some? && sent.outputLatency.Some? {
      LatencyExactly(f, cur, sent.outputLatency.value);
    }
  }

  // ---------------------------------------------------------------------------------------------
  // The coordinator's object and the command
  // ---------------------------------------------------------------------------------------------

  /** One audio.node object as the coordinator stores it: revision r is history[r - 1], and a delete
      hides the object while keeping its revisions and their count. */
  datatype Obj = Obj(history: seq<Node>, live: bool)

  /** Another client's request, as far as its body is accepted: a refused one changes nothing. */
  datatype OtherWrite = OtherPut(ifMatch: Option<nat>, body: Node) | OtherDelete(ifMatch: Option<nat>)

  ghost predicate IsObj(o: Obj) {
    o.live ==> o.history != []
  }

  /** The precondition is checked against the stored revision, whether or not it is deleted. */
  predicate Passes(ifMatch: Option<nat>, o: Obj) {
    ifMatch.None? || ifMatch.value == |o.history|
  }

  ghost predicate AllAccepted(rules: Rules, ws: seq<OtherWrite>) {
    forall w :: w in ws && w.OtherPut? ==> Accepts(rules, w.body)
  }

  function Written(o: Obj, body: Node): Obj {
    Obj(o.history + [Stored(body)], true)
  }

  function Applied(o: Obj, w: OtherWrite): Obj {
    if !Passes(w.ifMatch, o) then o
    else match w
      case OtherPut(_, body) => Written(o, body)
      case OtherDelete(_) => o.(live := false)
  }

  function AppliedAll(o: Obj, ws: seq<OtherWrite>): Obj {
    if ws == [] then o else Applied(AppliedAll(o, ws[..|ws| - 1]), ws[|ws| - 1])
  }

  function ReadOf(o: Obj): Fetch {
    if o.live && o.history != [] then Found(|o.history|, o.history[|o.history| - 1]) else NotFound
  }

  lemma {:induction false} HistoryGrows(o: Obj, ws: seq<OtherWrite>)
    ensures o.history <= AppliedAll(o, ws).history
    ensures IsObj(o) ==> IsObj(AppliedAll(o, ws))
  {
    if ws != [] {
      HistoryGrows(o, ws[..|ws| - 1]);
    }
  }

  lemma AppliedOneMore(o: Obj, ws: seq<OtherWrite>, w: OtherWrite)
    ensures AppliedAll(o, ws + [w]) == Applied(AppliedAll(o, ws), w)
  {
    assert (ws + [w])[..|ws + [w]| - 1] == ws;
  }

  datatype PutResult = Accepted(revision: nat) | Refused | AnswerLost

  /** Other clients' requests in `pending` may be served before any of ours. */
  class Coordinator {
    var history: seq<Node>
    var live: bool
    var pending: seq<OtherWrite>
    ghost var answered: seq<Fetch>   // what each GET of ours was answered, in order
    const rules: Rules

    constructor (rules: Rules)
      ensures Object() == Obj([], false) && answered == [] && this.rules == rules
    {
      history, live, pending, answered := [], false, [], [];
      this.rules := rules;
    }

    function Object(): Obj
      reads this
    {
      Obj(history, live)
    }

    method ServeOthers() returns (ghost served: seq<OtherWrite>)
      modifies `history, `live, `pending
      ensures Object() == AppliedAll(old(Object()), served) && AllAccepted(rules, served)
    {
      var k: nat :| k <= |pending|;
      ghost var before := Object();
      served := [];
      var i := 0;
      while i < k
        invariant 0 <= i <= k <= |pending| && pending == old(pending)
        invariant Object() == AppliedAll(before, served) && AllAccepted(rules, served)
      {
        var w := pending[i];
        i := i + 1;
        if w.OtherPut? && !Accepts(rules, w.body) {
          continue;
        }
        AppliedOneMore(before, served, w);
        served := served + [w];
        if w.ifMatch.None? || w.ifMatch.value == |history| {
          if w.OtherPut? {
            history := history + [Stored(w.body)];
          }
          live := w.OtherPut?;
        }
      }
      pending := pending[k..];
    }

    method Get(unreachable: bool) returns (r: Fetch)
      requires IsObj(Object())
      modifies this
      ensures old(history) <= history && IsObj(Object())
      ensures answered == old(answered) + [r]
      ensures r == if unreachable then ReadFailed else ReadOf(Object())
    {
      ghost var before := Object();
      ghost var served := ServeOthers();
      HistoryGrows(before, served);
      r := if unreachable then ReadFailed else if !live then NotFound
           else Found(|history|, history[|history| - 1]);
      answered := answered + [r];
    }

    /** `between` is what other clients got served first; `landed` says whether this PUT was written,
        whether or not its answer arrived. A PUT over a deleted object brings it back. */
    method Put(ifMatch: Option<nat>, body: Node, answerLost: bool)
      returns (r: PutResult, ghost between: seq<OtherWrite>, ghost landed: bool)
      requires IsObj(Object())
      modifies this
      ensures answered == old(answered) && AllAccepted(rules, between)
      ensures var found := AppliedAll(old(Object()), between);
        && (landed <==> Passes(ifMatch, found) && Accepts(rules, body))
        && Object() == if landed then Written(found, body) else found
      ensures r.Accepted? ==> landed && r.revision == |history|
      ensures r.Refused? ==> !landed
    {
      between := ServeOthers();
      landed := false;
      if (ifMatch.Some? && ifMatch.value != |history|) || !Accepts(rules, body) {
        r := if answerLost then AnswerLost else Refused;
        return;
      }
      history := history + [Stored(body)];
      live := true;
      landed := true;
      r := if answerLost then AnswerLost else Accepted(|history|);
    }
  }

  datatype Outcome = Usage | ReadError | Sent(result: PutResult)

  /** One invocation's memo of the object: at most one GET, success or failure. */
  class Reader {
    const api: Coordinator
    const unreachable: bool
    var fetchAttempted: bool
    var current: Fetch

    constructor (api: Coordinator, unreachable: bool)
      ensures this.api == api && this.unreachable == unreachable && !fetchAttempted && current == ReadFailed
    {
      this.api := api;
      this.unreachable := unreachable;
      fetchAttempted := false;
      current := ReadFailed;
    }

    /** What has been read is the object as it still is: other clients are served before our requests,
        and nothing follows the one read until the write. */
    ghost predicate Memo(start: seq<Node>, earlier: seq<Fetch>)
      reads this, api
    {
      && IsObj(api.Object())
      && start <= api.history
      && api.answered == earlier + (if fetchAttempted then [current] else [])
      && (!fetchAttempted ==> current == ReadFailed)
      && (current.ReadFailed? || current == ReadOf(api.Object()))
    }

    method FetchCurrent(ghost start: seq<Node>, ghost earlier: seq<Fetch>) returns (r: Fetch)
      requires Memo(start, earlier)
      modifies this, api
      ensures Memo(start, earlier) && fetchAttempted && r == current
      ensures old(fetchAttempted) ==> current == old(current)
    {
      if fetchAttempted {
        return current;
      }
      fetchAttempted := true;
      current := api.Get(unreachable);
      r := current;
    }
  }

  /** The one read, for a field whose flag was omitted: an object that does not exist leaves the
      field unset, and so does a failed read under --force. */
  method CarryFrom(f: Flags, reader: Reader, ghost start: seq<Node>, ghost earlier: seq<Fetch>)
    returns (ok: bool, got: Fetch)
    requires reader.Memo(start, earlier)
    modifies reader, reader.api
    ensures reader.Memo(start, earlier) && reader.fetchAttempted && got == reader.current
    ensures old(reader.fetchAttempted) ==> reader.current == old(reader.current)
    ensures ok <==> !got.ReadFailed? || f.force
  {
    got := reader.FetchCurrent(start, earlier);
    ok := !got.ReadFailed? || f.force;
  }

  method CarryClockAndSink(f: Flags, reader: Reader, ghost start: seq<Node>, ghost earlier: seq<Fetch>)
    returns (ok: bool, clock: string, sink: string)
    requires reader.Memo(start, earlier) && !reader.fetchAttempted
    modifies reader, reader.api
    ensures reader.Memo(start, earlier)
    ensures reader.fetchAttempted <==> f.localClockOverride.None? || f.sinkBackend.None?
    ensures ok <==> !reader.fetchAttempted || !reader.current.ReadFailed? || f.force
    ensures ok ==> clock == ClockFor(f, reader.current) && sink == SinkFor(f, reader.current)
  {
    var got;
    ok, clock, sink := true, "", "";
    if f.localClockOverride.Some? {
      clock := f.localClockOverride.value;
    } else {
      ok, got := CarryFrom(f, reader, start, earlier);
      if !ok {
        return;
      }
      clock := if got.Found? then got.node.localClockOverride else "";
    }
    if f.sinkBackend.Some? {
      sink := f.sinkBackend.value;
    } else {
      ok, got := CarryFrom(f, reader, start, earlier);
      if !ok {
        return;
      }
      sink := if got.Found? then got.node.sinkBackend else "";
    }
  }

  method CarryTargetAndLatency(f: Flags, sink: string, reader: Reader, ghost start: seq<Node>, ghost earlier: seq<Fetch>)
    returns (ok: bool, target: Option<string>, latency: Option<Latency>)
    requires reader.Memo(start, earlier)
    modifies reader, reader.api
    ensures reader.Memo(start, earlier)
    ensures old(reader.fetchAttempted) ==> reader.current == old(reader.current)
    ensures reader.fetchAttempted <==>
      || old(reader.fetchAttempted)
      || (f.pipewireTargetNode.None? && sink == PIPEWIRE_SINK)
      || f.outputLatency.None?
    ensures (f.pipewireTargetNode.None? && sink == PIPEWIRE_SINK) || f.outputLatency.None? ==>
      (ok <==> !reader.current.ReadFailed? || f.force)
    ensures (f.pipewireTargetNode.Some? || sink != PIPEWIRE_SINK) && f.outputLatency.Some? ==> ok
    ensures ok ==> target == TargetFor(f, sink, reader.current) && latency == LatencyFor(f, reader.current)
  {
    var got;
    ok, target, latency := true, None, None;
    if f.pipewireTargetNode.Some? {
      target := f.pipewireTargetNode;
    } else if sink == PIPEWIRE_SINK {
      ok, got := CarryFrom(f, reader, start, earlier);
      if !ok {
        return;
      }
      target := if got.Found? then got.node.pipewireTargetNode else None;
    }
    if f.outputLatency.Some? {
      latency := Some(LatencyFromFlags(f.outputLatency.value));
    } else {
      ok, got := CarryFrom(f, reader, start, earlier);
      if !ok {
        return;
      }
      latency := if got.Found? && Measured(got.node.outputLatency) then got.node.outputLatency else None;
    }
  }

  method BuildBody(f: Flags, reader: Reader, ghost start: seq<Node>, ghost earlier: seq<Fetch>) returns (body: Option<Node>)
    requires !UsageError(f) && reader.Memo(start, earlier) && !reader.fetchAttempted
    modifies reader, reader.api
    ensures reader.Memo(start, earlier)
    ensures reader.fetchAttempted <==> OmitsSomething(f)
    ensures body.None? <==> OmitsSomething(f) && reader.current == ReadFailed && !f.force
    ensures body.Some? ==> body.value == BodyFor(f, reader.current) && Sends(f, reader.current, body.value)
  {
    var ok, clock, sink := CarryClockAndSink(f, reader, start, earlier);
    if !ok {
      return None;
    }
    var target, latency;
    ok, target, latency := CarryTargetAndLatency(f, sink, reader, start, earlier);
    if !ok {
      return None;
    }
    body := Some(Node(f.programRoute, f.ltcRoute, f.programChannels.value,
      if f.ltcChannel.Some? then f.ltcChannel.value else 0, clock, f.role, f.zone, sink, target, latency));
    BodyExactly(f, reader.current, body.value);
  }

  /** `ok` is false when the revision was needed and could not be read. */
  method ResolveIfMatch(f: Flags, reader: Reader, ghost start: seq<Node>, ghost earlier: seq<Fetch>)
    returns (ok: bool, header: Option<nat>)
    requires reader.Memo(start, earlier)
    modifies reader, reader.api
    ensures reader.Memo(start, earlier)
    ensures old(reader.fetchAttempted) ==> reader.fetchAttempted && reader.current == old(reader.current)
    ensures reader.fetchAttempted <==> old(reader.fetchAttempted) || (!f.force && f.ifMatch.None?)
    ensures ok <==> f.force || f.ifMatch.Some? || !reader.current.ReadFailed?
    ensures ok ==> header == HeaderFor(f, reader.current)
  {
    if f.force {
      return true, None;
    }
    if f.ifMatch.Some? {
      return true, f.ifMatch;
    }
    var got := reader.FetchCurrent(start, earlier);
    match got {
      case Found(revision, _) => return true, Some(revision);
      case NotFound => return true, None;
      case ReadFailed => return false, None;
    }
  }

  /** Whether the header passes, from the flags and the read, and what a write leaves. */
  lemma Overwrites(f: Flags, cur: Fetch, o: Obj, ws: seq<OtherWrite>, body: Node)
    ensures var found := AppliedAll(o, ws);
      && (Passes(HeaderFor(f, cur), found) <==> MayReplace(f, cur, found))
      && AddsRevision(found, body, Written(found, body))
  {
    StoredExactly(body, Stored(body));
  }

  /** Nothing forbids the revision that the write finds: a flag's comes before the read one's, and
      --force before both. */
  predicate MayReplace(f: Flags, cur: Fetch, found: Obj) {
    f.force || if f.ifMatch.Some? then f.ifMatch.value == |found.history| else cur.Found? ==> cur.revision == |found.history|
  }

  /** Everything before the write: the one read as far as it is needed, the body and the header. */
  method Prepare(f: Flags, api: Coordinator, unreachable: bool)
    returns (ready: bool, body: Option<Node>, header: Option<nat>, ghost cur: Fetch)
    requires !UsageError(f) && IsObj(api.Object())
    modifies api
    ensures old(api.history) <= api.history && IsObj(api.Object())
    ensures cur.ReadFailed? || cur == ReadOf(api.Object())
    ensures api.answered == old(api.answered) + if NeedsRead(f) then [cur] else []
    ensures ready <==> !NeedsRead(f) || !cur.ReadFailed? || f.force
    ensures ready ==> body == Some(BodyFor(f, cur)) && Sends(f, cur, body.value) && header == HeaderFor(f, cur)
  {
    ghost var start, earlier := api.history, api.answered;
    var reader := new Reader(api, unreachable);
    header := None;
    body := BuildBody(f, reader, start, earlier);
    ready := body.Some?;
    if ready {
      ready, header := ResolveIfMatch(f, reader, start, earlier);
    }
    cur := reader.current;
  }

  /** `after` is `found` with one more revision, the stored form of `body`, and is there. */
  ghost predicate AddsRevision(found: Obj, body: Node, after: Obj) {
    && after.live && |after.history| == |found.history| + 1 && found.history <= after.history
    && StoredAs(body, after.history[|found.history|])
  }

  /** The write, over whatever other clients got served first. */
  method Write(f: Flags, api: Coordinator, ghost cur: Fetch, body: Node, header: Option<nat>, answerLost: bool)
    returns (result: PutResult, ghost between: seq<OtherWrite>, ghost landed: bool)
    requires !UsageError(f) && IsObj(api.Object()) && (cur.ReadFailed? || cur == ReadOf(api.Object()))
    requires body == BodyFor(f, cur) && header == HeaderFor(f, cur)
    modifies api
    ensures api.answered == old(api.answered)
    ensures AllAccepted(api.rules, between)
    ensures var found := AppliedAll(old(api.Object()), between);
      && (landed <==> Accepts(api.rules, body) && MayReplace(f, cur, found))
      && (landed ==> AddsRevision(found, body, api.Object()))
      && (!landed ==> api.Object() == found)
    ensures result.Accepted? ==> landed && result.revision == |api.history|
    ensures result.Refused? ==> !landed
    ensures landed && !f.force && f.ifMatch.None? && cur.Found? ==>
      && |api.history| == |old(api.history)| + 1 >= 2
      && KeepsOmitted(f, api.history[|api.history| - 2], api.history[|api.history| - 1])
      && (UndoesDelete(old(api.Object()), between) <==> DeletesRevision(between, |old(api.history)|))
  {
    ghost var seen := api.Object();
    result, between, landed := api.Put(header, body, answerLost);
    Overwrites(f, cur, seen, between, body);
    if landed && !f.force && f.ifMatch.None? && cur.Found? {
      DefaultWriteLands(f, seen, between);
    }
  }

  /** `seen` is the object when the command turned to its write: as its one read found it, if it read
      it at all. `sent` is the body of its write and `between` what other clients got served before it. */
  method CmdAudioNodeSet(f: Flags, api: Coordinator, unreachable: bool, answerLost: bool)
    returns (out: Outcome, ghost cur: Fetch, ghost seen: Obj, ghost sent: Option<Node>,
             ghost between: seq<OtherWrite>, ghost landed: bool)
    requires IsObj(api.Object())
    modifies api
    // Half an LTC pair is as much a usage error as a missing route or missing channels.
    ensures out.Usage? <==>
      f.programRoute == "" || f.programChannels.None? || (f.ltcRoute == "") != f.ltcChannel.None?
    // At most one GET, exactly when a field or the header depends on it; `cur` is its answer, and only
    // --force goes on without one.
    ensures var needed := !out.Usage? &&
        (f.localClockOverride.None? || f.sinkBackend.None? || f.outputLatency.None?
         || (f.pipewireTargetNode.None? && f.sinkBackend == Some("pipewiresink")) || (!f.force && f.ifMatch.None?));
      && api.answered == old(api.answered) + (if needed then [cur] else [])
      && (out.ReadError? <==> needed && cur == ReadFailed && !f.force)
    ensures old(api.history) <= seen.history && IsObj(seen) && (cur.ReadFailed? || cur == ReadOf(seen))
    // What is sent is what the flags and the read ask for.
    ensures out.Sent? <==> sent.Some?
    ensures sent.Some? ==> Sends(f, cur, sent.value)
    // It lands exactly when it is accepted and may replace what it then finds.
    ensures AllAccepted(api.rules, between)
    ensures var found := AppliedAll(seen, between);
      && (landed <==> sent.Some? && Accepts(api.rules, sent.value) && MayReplace(f, cur, found))
      && (landed ==> AddsRevision(found, sent.value, api.Object()))
      && (!landed ==> api.Object() == found)
    ensures out.Sent? && out.result.Accepted? ==> landed && out.result.revision == |api.history|
    ensures out.Sent? && out.result.Refused? ==> !landed
    // Written without --force or --if-match over an object that the read found, it keeps what the
    // omitted fields mean in the revision before it, but it undoes any delete that came in between.
    ensures landed && !f.force && f.ifMatch.None? && cur.Found? ==>
      && |api.history| == |seen.history| + 1 >= 2
      && KeepsOmitted(f, api.history[|api.history| - 2], api.history[|api.history| - 1])
      && (UndoesDelete(seen, between) <==> DeletesRevision(between, |seen.history|))
  {
    cur, seen, sent, between, landed := ReadFailed, api.Object(), None, [], false;
    if UsageError(f) {
      out := Usage;
      return;
    }
    var ready, body, header;
    ready, body, header, cur := Prepare(f, api, unreachable);
    seen := api.Object();
    if !ready {
      out := ReadError;
      return;
    }
    var result;
    sent := body;
    result, between, landed := Write(f, api, cur, body.value, header, answerLost);
    out := Sent(result);
  }

  /** What is read is what the body carries. */
  lemma CarryForwardKeeps(f: Flags, node: Node, revision: nat)
    requires !UsageError(f)
    ensures KeepsOmitted(f, node, Stored(BodyFor(f, Found(revision, node))))
  {
  }

  // ---------------------------------------------------------------------------------------------
  // What happens to a delete in between
  // ---------------------------------------------------------------------------------------------

  function After(o: Obj, ws: seq<OtherWrite>, n: nat): Obj
    requires n <= |ws|
  {
    AppliedAll(o, ws[..n])
  }

  lemma AfterOneMore(o: Obj, ws: seq<OtherWrite>, n: nat)
    requires n < |ws|
    ensures After(o, ws, n + 1) == Applied(After(o, ws, n), ws[n])
  {
    assert ws[..n + 1][..n] == ws[..n];
  }

  lemma AfterAll(o: Obj, ws: seq<OtherWrite>)
    ensures After(o, ws, 0) == o && After(o, ws, |ws|) == AppliedAll(o, ws)
  {
    assert ws[..|ws|] == ws;
  }

  /** The object was there at some moment since `o` and is not there when the write finds it. */
  ghost predicate UndoesDelete(o: Obj, ws: seq<OtherWrite>) {
    !AppliedAll(o, ws).live && exists n: nat :: n <= |ws| && After(o, ws, n).live
  }

  /** The request at `i` deletes the object and no PUT takes effect after it. */
  ghost predicate DeleteStands(o: Obj, ws: seq<OtherWrite>, i: nat)
    requires i < |ws|
  {
    && ws[i].OtherDelete? && Passes(ws[i].ifMatch, After(o, ws, i)) && After(o, ws, i).live
    && forall k: nat :: i < k < |ws| && ws[k].OtherPut? ==> !Passes(ws[k].ifMatch, After(o, ws, k))
  }

  lemma {:induction false} GoneAfterStandingDelete(o: Obj, ws: seq<OtherWrite>, i: nat, n: nat)
    requires i < n <= |ws| && DeleteStands(o, ws, i)
    ensures !After(o, ws, n).live
  {
    AfterOneMore(o, ws, n - 1);
    if i < n - 1 {
      GoneAfterStandingDelete(o, ws, i, n - 1);
    }
  }

  /** A write that lands undoes a delete exactly when a delete took effect since `o` and no PUT took
      effect after it. */
  lemma UndoesDeleteExactly(o: Obj, ws: seq<OtherWrite>)
    ensures UndoesDelete(o, ws) <==> exists i: nat :: i < |ws| && DeleteStands(o, ws, i)
  {
    AfterAll(o, ws);
    if UndoesDelete(o, ws) {
      var i := |ws|;
      while !After(o, ws, i).live
        invariant 0 <= i <= |ws| && forall k: nat :: i < k <= |ws| ==> !After(o, ws, k).live
        invariant exists n: nat :: n <= i && After(o, ws, n).live
        decreases i
      {
        i := i - 1;
      }
      AfterOneMore(o, ws, i);
      forall k: nat | i < k < |ws| && ws[k].OtherPut?
        ensures !Passes(ws[k].ifMatch, After(o, ws, k))
      {
        AfterOneMore(o, ws, k);
      }
      assert DeleteStands(o, ws, i);
    }
    if i: nat :| i < |ws| && DeleteStands(o, ws, i) {
      GoneAfterStandingDelete(o, ws, i, |ws|);
    }
  }

  predicate Deletes(w: OtherWrite, revision: nat) {
    w.OtherDelete? && (w.ifMatch.None? || w.ifMatch.value == revision)
  }

  /** A delete that passes over the object as it stood at `revision`. */
  predicate DeletesRevision(ws: seq<OtherWrite>, revision: nat) {
    exists w :: w in ws && Deletes(w, revision)
  }

  lemma DeletesOneMore(ws: seq<OtherWrite>, w: OtherWrite, revision: nat)
    ensures DeletesRevision(ws + [w], revision) <==> DeletesRevision(ws, revision) || Deletes(w, revision)
  {
    if x :| x in ws && Deletes(x, revision) {
      assert x in ws + [w];
    }
    assert w in ws + [w];
  }

  lemma {:induction false} NoPutLands(o: Obj, ws: seq<OtherWrite>)
    requires |AppliedAll(o, ws).history| == |o.history|
    ensures AppliedAll(o, ws).history == o.history
  {
    if ws != [] {
      HistoryGrows(o, ws[..|ws| - 1]);
      NoPutLands(o, ws[..|ws| - 1]);
    }
  }

  /** While the revision count stands still no PUT has taken effect. */
  lemma {:induction false} NoPutLanded(o: Obj, ws: seq<OtherWrite>)
    requires |AppliedAll(o, ws).history| == |o.history|
    ensures AppliedAll(o, ws).history == o.history
    ensures AppliedAll(o, ws).live <==> o.live && !DeletesRevision(ws, |o.history|)
  {
    NoPutLands(o, ws);
    if ws != [] {
      var front, last := ws[..|ws| - 1], ws[|ws| - 1];
      HistoryGrows(o, front);
      NoPutLanded(o, front);
      assert ws == front + [last];
      DeletesOneMore(front, last, |o.history|);
    }
  }

  /** A PUT with the revision that the read found lands only if no other PUT did, so it keeps what it
      carries; and it undoes a delete exactly when one passed over that revision. */
  lemma DefaultWriteLands(f: Flags, o: Obj, ws: seq<OtherWrite>)
    requires !UsageError(f) && o.live && o.history != []
    requires Passes(Some(|o.history|), AppliedAll(o, ws))
    ensures AppliedAll(o, ws).history == o.history
    ensures KeepsOmitted(f, o.history[|o.history| - 1], Stored(BodyFor(f, ReadOf(o))))
    ensures UndoesDelete(o, ws) <==> DeletesRevision(ws, |o.history|)
  {
    NoPutLanded(o, ws);
    AfterAll(o, ws);
    CarryForwardKeeps(f, o.history[|o.history| - 1], |o.history|);
  }

  // ---------------------------------------------------------------------------------------------
  // Exactly which writes are safe
  // ---------------------------------------------------------------------------------------------

  /** The command's PUT lands after the other clients' requests `ws`. */
  predicate Lands(rules: Rules, f: Flags, o: Obj, header: Option<nat>, ws: seq<OtherWrite>)
    requires !UsageError(f)
  {
    Passes(header, AppliedAll(o, ws)) && Accepts(rules, BodyFor(f, ReadOf(o)))
  }

  /** Whatever other clients get accepted after the read, a PUT that lands over an object that is
      there replaces a revision whose omitted fields it keeps. */
  ghost predicate KeepsFieldsAlways(rules: Rules, f: Flags, o: Obj, header: Option<nat>)
    requires !UsageError(f)
  {
    forall ws :: AllAccepted(rules, ws) ==> KeepsFields(rules, f, o, header, ws)
  }

  ghost predicate KeepsFields(rules: Rules, f: Flags, o: Obj, header: Option<nat>, ws: seq<OtherWrite>)
    requires !UsageError(f)
  {
    var found := AppliedAll(o, ws);
    Lands(rules, f, o, header, ws) && found.live && found.history != [] ==>
      KeepsOmitted(f, found.history[|found.history| - 1], Stored(BodyFor(f, ReadOf(o))))
  }

  /** Whatever other clients get accepted after the read, the PUT does not undo a delete. */
  ghost predicate KeepsDeletesAlways(rules: Rules, f: Flags, o: Obj, header: Option<nat>)
    requires !UsageError(f)
  {
    forall ws :: AllAccepted(rules, ws) && Lands(rules, f, o, header, ws) ==> !UndoesDelete(o, ws)
  }

  const A_LATENCY := Latency(Some(1), "loopback", Some(A_TIMESTAMP), "a", "b", "c")

  /** A node that differs from `after` in one field that was carried, and that is accepted wherever
      `after` is. */
  function Rival(f: Flags, after: Node): Node {
    if f.localClockOverride.None? then after.(localClockOverride := after.localClockOverride + "x")
    else if f.sinkBackend.None? then
      after.(sinkBackend := if SinkMeaning(after) == PIPEWIRE_SINK then ALSA_SINK else PIPEWIRE_SINK,
             pipewireTargetNode := None)
    else if f.outputLatency.None? then
      after.(outputLatency := if Measured(after.outputLatency) then None else Some(A_LATENCY))
    else after.(pipewireTargetNode := if after.pipewireTargetNode.None? then Some("x") else None)
  }

  lemma RivalIsLost(rules: Rules, f: Flags, cur: Fetch)
    requires Lawful(rules) && !UsageError(f) && OmitsSomething(f) && Accepts(rules, BodyFor(f, cur))
    ensures var after := Stored(BodyFor(f, cur));
      Accepts(rules, Rival(f, after)) && !KeepsOmitted(f, Stored(Rival(f, after)), after)
  {
    var after := Stored(BodyFor(f, cur));
    StoredIsAccepted(rules, BodyFor(f, cur));
    if f.localClockOverride.None? {
      assert |Rival(f, after).localClockOverride| == |after.localClockOverride| + 1;
    }
  }

  /** With every carried field given, whatever was there before is kept. */
  lemma NothingCarried(f: Flags, cur: Fetch, before: Node)
    requires !UsageError(f) && !OmitsSomething(f)
    ensures KeepsOmitted(f, before, Stored(BodyFor(f, cur)))
  {
  }

  function Puts(body: Node, n: nat): seq<OtherWrite> {
    if n == 0 then [] else Puts(body, n - 1) + [OtherPut(None, body)]
  }

  lemma {:induction false} PutsLand(o: Obj, body: Node, n: nat)
    ensures var after := AppliedAll(o, Puts(body, n));
      && |after.history| == |o.history| + n
      && (n > 0 ==> after.live && after.history[|after.history| - 1] == Stored(body))
      && (n == 0 ==> after == o)
  {
    if n > 0 {
      PutsLand(o, body, n - 1);
      AppliedOneMore(o, Puts(body, n - 1), OtherPut(None, body));
    }
  }

  lemma {:induction false} PutsAccepted(rules: Rules, body: Node, n: nat)
    requires Accepts(rules, body)
    ensures AllAccepted(rules, Puts(body, n)) && AllAccepted(rules, Puts(body, n) + [OtherDelete(None)])
  {
    if n > 0 {
      PutsAccepted(rules, body, n - 1);
    }
  }

  /** The number of other PUTs after which the header passes. */
  function Awaited(o: Obj, header: Option<nat>, atLeast: nat): nat
    requires header.Some? ==> header.value >= |o.history|
  {
    if header.None? then atLeast else header.value - |o.history|
  }

  /** The carried fields are safe against every sequence of accepted requests if and only if the
      command's own body is refused, or nothing is carried, or the PUT sends an If-Match no newer than
      what was there at the read; an object that was not there at the read counts with the revisions
      it had before it was deleted. */
  lemma KeepsFieldsExactly(rules: Rules, f: Flags, o: Obj, header: Option<nat>)
    requires Lawful(rules) && !UsageError(f) && IsObj(o)
    ensures KeepsFieldsAlways(rules, f, o, header) <==>
      || !Accepts(rules, BodyFor(f, ReadOf(o)))
      || !OmitsSomething(f)
      || (header.Some? && header.value <= |o.history|)
  {
    if !Accepts(rules, BodyFor(f, ReadOf(o))) {
    } else if !OmitsSomething(f) || (header.Some? && header.value <= |o.history|) {
      forall ws | AllAccepted(rules, ws)
        ensures KeepsFields(rules, f, o, header, ws)
      {
        KeepsFieldsHere(rules, f, o, header, ws);
      }
    } else {
      LosesFields(rules, f, o, header);
    }
  }

  lemma LosesFields(rules: Rules, f: Flags, o: Obj, header: Option<nat>)
    requires Lawful(rules) && !UsageError(f) && Accepts(rules, BodyFor(f, ReadOf(o))) && OmitsSomething(f)
    requires header.None? || header.value > |o.history|
    ensures !KeepsFieldsAlways(rules, f, o, header)
  {
    RivalIsLost(rules, f, ReadOf(o));
    LosesFieldsTo(rules, f, o, header, Rival(f, Stored(BodyFor(f, ReadOf(o)))));
  }

  /** Others put the rival until the header passes. */
  lemma LosesFieldsTo(rules: Rules, f: Flags, o: Obj, header: Option<nat>, rival: Node)
    requires !UsageError(f) && Accepts(rules, BodyFor(f, ReadOf(o)))
    requires Accepts(rules, rival) && !KeepsOmitted(f, Stored(rival), Stored(BodyFor(f, ReadOf(o))))
    requires header.None? || header.value > |o.history|
    ensures !KeepsFieldsAlways(rules, f, o, header)
  {
    var n := Awaited(o, header, 1);
    PutsLand(o, rival, n);
    PutsAccepted(rules, rival, n);
    RivalReplaced(rules, f, o, header, Puts(rival, n), rival);
  }

  lemma RivalReplaced(rules: Rules, f: Flags, o: Obj, header: Option<nat>, ws: seq<OtherWrite>, rival: Node)
    requires !UsageError(f) && Lands(rules, f, o, header, ws)
    requires var found := AppliedAll(o, ws);
      found.live && found.history != [] && found.history[|found.history| - 1] == Stored(rival)
    requires !KeepsOmitted(f, Stored(rival), Stored(BodyFor(f, ReadOf(o)))) && AllAccepted(rules, ws)
    ensures !KeepsFieldsAlways(rules, f, o, header)
  {
    assert !KeepsFields(rules, f, o, header, ws);
  }

  lemma KeepsFieldsHere(rules: Rules, f: Flags, o: Obj, header: Option<nat>, ws: seq<OtherWrite>)
    requires !UsageError(f) && IsObj(o)
    requires !OmitsSomething(f) || (header.Some? && header.value <= |o.history|)
    ensures KeepsFields(rules, f, o, header, ws)
  {
    var found := AppliedAll(o, ws);
    if Passes(header, found) && found.live && found.history != [] {
      if !OmitsSomething(f) {
        NothingCarried(f, ReadOf(o), found.history[|found.history| - 1]);
      } else {
        HistoryGrows(o, ws);
        NoPutLanded(o, ws);
        CarryForwardKeeps(f, o.history[|o.history| - 1], |o.history|);
      }
    }
  }

  /** Deletes are safe only if the command's own body is refused or its header cannot pass once there
      is something to delete: no If-Match that can land over the object protects one, because a
      delete leaves the revision as it is. */
  lemma KeepsDeletesExactly(rules: Rules, f: Flags, o: Obj, header: Option<nat>)
    requires !UsageError(f) && IsObj(o)
    ensures KeepsDeletesAlways(rules, f, o, header) <==>
      || !Accepts(rules, BodyFor(f, ReadOf(o)))
      || (header.Some? && if o.live then header.value < |o.history| else header.value <= |o.history|)
  {
    if !Accepts(rules, BodyFor(f, ReadOf(o))) {
    } else if header.Some? && if o.live then header.value < |o.history| else header.value <= |o.history| {
      forall ws | Passes(header, AppliedAll(o, ws))
        ensures !UndoesDelete(o, ws)
      {
        HistoryGrows(o, ws);
        NeverThere(o, ws);
      }
    } else {
      var ws := DeleteAfterPuts(rules, f, o, header);
    }
  }

  lemma {:induction false} AfterGrows(o: Obj, ws: seq<OtherWrite>, n: nat)
    requires n <= |ws|
    ensures After(o, ws, n).history <= AppliedAll(o, ws).history
    decreases |ws| - n
  {
    AfterAll(o, ws);
    if n < |ws| {
      AfterOneMore(o, ws, n);
      AfterGrows(o, ws, n + 1);
    }
  }

  /** An object that was not there and got no PUT was not there at any time. */
  lemma NeverThere(o: Obj, ws: seq<OtherWrite>)
    requires !o.live && |AppliedAll(o, ws).history| == |o.history|
    ensures !UndoesDelete(o, ws)
  {
    forall n: nat | n <= |ws|
      ensures !After(o, ws, n).live
    {
      HistoryGrows(o, ws[..n]);
      AfterGrows(o, ws, n);
      NoPutLanded(o, ws[..n]);
    }
  }

  /** A delete after anything that leaves the object there is undone by whatever lands next, and
      leaves the revision count to any header. */
  lemma LastDelete(o: Obj, ws: seq<OtherWrite>)
    requires AppliedAll(o, ws).live
    ensures UndoesDelete(o, ws + [OtherDelete(None)])
    ensures AppliedAll(o, ws + [OtherDelete(None)]).history == AppliedAll(o, ws).history
  {
    var longer := ws + [OtherDelete(None)];
    AppliedOneMore(o, ws, OtherDelete(None));
    assert longer[..|ws|] == ws;
    assert After(o, longer, |ws|).live;
  }

  /** The command's own body, put by others until the header passes, and then a delete. */
  lemma DeleteAfterPuts(rules: Rules, f: Flags, o: Obj, header: Option<nat>) returns (ws: seq<OtherWrite>)
    requires !UsageError(f) && IsObj(o) && Accepts(rules, BodyFor(f, ReadOf(o)))
    requires header.None? || (if o.live then header.value >= |o.history| else header.value > |o.history|)
    ensures AllAccepted(rules, ws) && Lands(rules, f, o, header, ws) && UndoesDelete(o, ws)
  {
    var body, n := BodyFor(f, ReadOf(o)), Awaited(o, header, if o.live then 0 else 1);
    PutsLand(o, body, n);
    PutsAccepted(rules, body, n);
    LastDelete(o, Puts(body, n));
    ws := Puts(body, n) + [OtherDelete(None)];
  }

  /** What that means without --force and --if-match, for a body that is accepted: the carried fields
      are safe over an object that was there, and over one that was not only if nothing is carried; a
      delete is never safe. */
  lemma DefaultSafeExactly(rules: Rules, f: Flags, o: Obj)
    requires Lawful(rules) && !UsageError(f) && IsObj(o) && !f.force && f.ifMatch.None?
    ensures KeepsFieldsAlways(rules, f, o, HeaderFor(f, ReadOf(o))) <==>
      !Accepts(rules, BodyFor(f, ReadOf(o))) || o.live || !OmitsSomething(f)
    ensures KeepsDeletesAlways(rules, f, o, HeaderFor(f, ReadOf(o))) <==> !Accepts(rules, BodyFor(f, ReadOf(o)))
  {
    KeepsFieldsExactly(rules, f, o, HeaderFor(f, ReadOf(o)));
    KeepsDeletesExactly(rules, f, o, HeaderFor(f, ReadOf(o)));
  }

  /** An object that was not there when it was read is written with no header at all, so one that
      another client creates in between, with a body the coordinator accepts, is overwritten,
      whichever fields are carried. */
  lemma CreateRaceLosesUpdate(rules: Rules, f: Flags, o: Obj)
    requires Lawful(rules) && !UsageError(f) && !f.force && f.ifMatch.None? && OmitsSomething(f) && !o.live
    requires Accepts(rules, BodyFor(f, NotFound))
    ensures var after := Stored(BodyFor(f, NotFound));
      var ws := [OtherPut(Some(|o.history|), Rival(f, after))];
      var found := AppliedAll(o, ws);
      && AllAccepted(rules, ws) && Lands(rules, f, o, HeaderFor(f, ReadOf(o)), ws)
      && found.live && |found.history| == |o.history| + 1
      && !KeepsOmitted(f, found.history[|found.history| - 1], after)
  {
    RivalIsLost(rules, f, NotFound);
    var w := OtherPut(Some(|o.history|), Rival(f, Stored(BodyFor(f, NotFound))));
    AppliedOneMore(o, [], w);
    assert [] + [w] == [w];
  }

  /** A delete that checks the revision just read passes, and so does the write that undoes it. */
  lemma DeleteRaceIsUndone(f: Flags, o: Obj)
    requires !f.force && f.ifMatch.None? && o.live && o.history != []
    ensures var ws := [OtherDelete(Some(|o.history|))];
      Passes(HeaderFor(f, ReadOf(o)), AppliedAll(o, ws)) && UndoesDelete(o, ws)
  {
    var ws := [OtherDelete(Some(|o.history|))];
    assert ws[..0] == [];
    assert AppliedAll(o, ws) == o.(live := false);
    AfterAll(o, ws);
  }

  /** An omitted target keeps its meaning exactly when the write stays on the PipeWire sink or there
      was no target to keep: choosing another sink drops it. Stored nodes never have a target
      without that sink, because the coordinator refuses one. */
  lemma TargetKeptExactly(f: Flags, node: Node, revision: nat)
    requires !UsageError(f) && f.pipewireTargetNode.None?
    requires node.pipewireTargetNode.Some? ==> SinkMeaning(node) == PIPEWIRE_SINK
    ensures var after := Stored(BodyFor(f, Found(revision, node)));
      TargetMeaning(after) == TargetMeaning(node) <==>
        SinkMeaning(after) == PIPEWIRE_SINK || TargetMeaning(node) == None
  {
  }
}
