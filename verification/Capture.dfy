/**
 The evidence collector of cmd/showmesh-multisync-probe/main.go: every field it updates packet by
 packet is shown equal to what SyncStreams.dfy says about the whole history.
 */
module Captures {
  import opened Sequences
  import opened SyncStreams

  datatype LifecycleEvent = LifecycleEvent(at: Time, action: SyncAction, fileType: SyncFileType, filename: string,
                                           frameNumber: nat, secondsElapsed: real, source: string)

  datatype StopBlankEvent =
    | StopEvent(at: Time, fileType: SyncFileType, filename: string, source: string)
    | BlankEvent(at: Time, source: string)

  function LifecycleOf(h: seq<Received>): seq<LifecycleEvent> {
    if h == [] then []
    else
      var rec := h[|h| - 1];
      LifecycleOf(h[..|h| - 1]) +
      if rec.payload.SyncPayload? && rec.payload.p.action in {Open, Start, Stop}
      then [EventOf(rec.payload.p, rec.at, rec.source)] else []
  }

  function EventOf(p: SyncPacket, at: Time, source: string): LifecycleEvent {
    LifecycleEvent(at, p.action, p.fileType, p.filename, p.frameNumber, p.secondsElapsed, source)
  }

  function StopsAndBlanks(h: seq<Received>): seq<StopBlankEvent> {
    if h == [] then []
    else
      var rec := h[|h| - 1];
      StopsAndBlanks(h[..|h| - 1]) +
      match rec.payload
      case SyncPayload(p) => if p.action == Stop then [StopEvent(rec.at, p.fileType, p.filename, rec.source)] else []
      case BlankPayload => [BlankEvent(rec.at, rec.source)]
      case OtherPayload => []
  }

  ghost function CountOf<K>(h: seq<Received>, key: Received -> Option<K>, k: K): nat {
    if h == [] then 0
    else CountOf(h[..|h| - 1], key, k) + if key(h[|h| - 1]) == Some(k) then 1 else 0
  }

  /** A counter map holds exactly the keys that occurred, each with its number of occurrences. */
  ghost predicate Counts<K(!new)>(m: map<K, nat>, h: seq<Received>, key: Received -> Option<K>) {
    forall k :: (k in m <==> CountOf(h, key, k) > 0) && (k in m ==> m[k] == CountOf(h, key, k))
  }

  function TransportKey(): Received -> Option<string> {
    (rec: Received) => Some(rec.transport)
  }

  function InterfaceKey(): Received -> Option<int> {
    (rec: Received) => if rec.ifIndex != 0 then Some(rec.ifIndex) else None
  }

  /** One more for `k`. */
  function Bumped<K>(m: map<K, nat>, k: K): map<K, nat> {
    m[k := (if k in m then m[k] else 0) + 1]
  }

  lemma CountStep<K(!new)>(m: map<K, nat>, m': map<K, nat>, h: seq<Received>, rec: Received, key: Received -> Option<K>)
    requires Counts(m, h, key)
    requires m' == match key(rec) { case None => m case Some(k) => Bumped(m, k) }
    ensures Counts(m', h + [rec], key)
  {
    forall k
      ensures CountOf(h + [rec], key, k) == CountOf(h, key, k) + if key(rec) == Some(k) then 1 else 0
    {
      assert (h + [rec])[..|h + [rec]| - 1] == h;
    }
  }

  function SourcesOf(h: seq<Received>): set<string> {
    set rec | rec in h && rec.srcIp.Some? :: rec.srcIp.value
  }

  function FirstAt(h: seq<Received>): Time {
    if h == [] then ZERO_TIME
    else if FirstAt(h[..|h| - 1]) != ZERO_TIME then FirstAt(h[..|h| - 1])
    else h[|h| - 1].at
  }

  /** The sample that a stream's last packet gives rise to, if it is one to sample. */
  function NewestSample(st: seq<Arrival>, stepTime: Time): Option<DriftSample> {
    if st != [] && IsSamplePoint(st, |st| - 1) then Some(SampleAt(st, |st| - 1, stepTime)) else None
  }

  /** It is one exactly when it is a SYNC of the file of the packet before it, and then measures its run. */
  lemma NewestExact(st: seq<Arrival>, stepTime: Time)
    ensures NewestSample(st, stepTime).Some? <==>
      |st| >= 2 && st[|st| - 1].p.action == Sync && st[|st| - 2].p.filename == st[|st| - 1].p.filename
    ensures NewestSample(st, stepTime).Some? ==>
      MeasuresRun(NewestSample(st, stepTime).value, st, stepTime, |st| - 1)
  {
    if NewestSample(st, stepTime).Some? {
      SampleMeasures(st, stepTime, |st| - 1);
    }
  }

  /** A free-run reference that nothing but a new anchor ever corrects. */
  class DriftTracker {
    var have: bool
    var filename: string
    var anchorAt: Time
    var anchorPos: Time

    constructor ()
      ensures !have
    {
      have, filename, anchorAt, anchorPos := false, "", ZERO_TIME, 0;
    }

    method Reset(at: Time, filename: string, pos: Time)
      modifies this
      ensures have && this.filename == filename && anchorAt == at && anchorPos == pos
    {
      have := true;
      this.filename := filename;
      anchorAt := at;
      anchorPos := pos;
    }

    function Estimate(at: Time): Time
      reads this
    {
      if !have then 0 else anchorPos + (at - anchorAt)
    }

    /** Samples a SYNC of the followed file, then re-anchors on OPEN, START or a change of file. */
    method Observe(p: SyncPacket, at: Time, stepTime: Time, ghost st: seq<Arrival>, ghost a: Arrival)
      returns (out: Option<DriftSample>)
      requires Tracks(st, stepTime) && a.p == p && a.at == at
      modifies this
      ensures Tracks(st + [a], stepTime)
      ensures out == NewestSample(st + [a], stepTime)
    {
      var masterPos := PositionFromSync(p, stepTime);
      AnchorStep(st, a);
      if st != [] {
        AnchorOfPrefix(st, [a], |st| - 1);
      }
      out := None;
      if p.action == Sync && have && filename == p.filename {
        var estimate := Estimate(at);
        out := Some(DriftSample(at, p.fileType, p.filename, masterPos, estimate, masterPos - estimate));
      }
      if p.action == Open || p.action == Start || !have || filename != p.filename {
        Reset(at, p.filename, masterPos);
      }
    }

    /** The tracker stands at the latest anchor of the stream and follows its last packet's file. */
    ghost predicate Tracks(st: seq<Arrival>, stepTime: Time)
      reads this
    {
      && (have <==> st != [])
      && (have ==>
            var a := st[AnchorOf(st, |st| - 1)];
            && filename == st[|st| - 1].p.filename
            && anchorAt == a.at
            && anchorPos == PositionFromSync(a.p, stepTime))
    }
  }

  /** After one more packet the latest anchor is that packet or the previous one. */
  lemma AnchorStep(st: seq<Arrival>, a: Arrival)
    ensures var longer := st + [a];
      if IsAnchor(longer, |st|) then AnchorOf(longer, |st|) == |st|
      else st != [] && AnchorOf(longer, |st|) == AnchorOf(st, |st| - 1)
  {
    if !IsAnchor(st + [a], |st|) {
      AnchorOfPrefix(st, [a], |st| - 1);
    }
  }

  class Capture {
    const stepTime: Time
    const seqDrift: DriftTracker
    const mediaDrift: DriftTracker

    var packetCount: nat
    var firstPacketAt: Time
    var lastPacketAt: Time
    var transportCounts: map<string, nat>
    var ifaceHits: map<int, nat>
    var sourceAddrs: set<string>

    var lastSeqSyncAt: Time
    var lastMediaSyncAt: Time
    var seqIntervals: seq<Time>
    var mediaIntervals: seq<Time>

    var lifecycleEvents: seq<LifecycleEvent>
    var stopBlankEvents: seq<StopBlankEvent>

    var seqDriftSamples: seq<DriftSample>
    var mediaDriftSamples: seq<DriftSample>

    static ghost predicate StampsRecorded(st: seq<Arrival>, lastAt: Time, intervals: seq<Time>) {
      lastAt == LastStamp(SyncStamps(st)) && intervals == Intervals(SyncStamps(st))
    }

    ghost predicate DriftRecorded(st: seq<Arrival>, tracker: DriftTracker, samples: seq<DriftSample>)
      reads tracker
    {
      tracker.Tracks(st, stepTime) && samples == DriftSamples(st, stepTime)
    }

    ghost predicate TrafficRecorded(h: seq<Received>)
      reads `packetCount, `firstPacketAt, `lastPacketAt, `transportCounts, `ifaceHits, `sourceAddrs
    {
      && packetCount == |h|
      && firstPacketAt == FirstAt(h)
      && lastPacketAt == (if h == [] then ZERO_TIME else h[|h| - 1].at)
      && Counts(transportCounts, h, TransportKey())
      && Counts(ifaceHits, h, InterfaceKey())
      && sourceAddrs == SourcesOf(h)
    }

    /** Everything the two classes' fields say about their streams. */
    ghost predicate ClassesRecorded(sequenceStream: seq<Arrival>, mediaStream: seq<Arrival>)
      reads `lastSeqSyncAt, `lastMediaSyncAt, `seqIntervals, `mediaIntervals
      reads `seqDriftSamples, `mediaDriftSamples, seqDrift, mediaDrift
    {
      && seqDrift != mediaDrift
      && StampsRecorded(sequenceStream, lastSeqSyncAt, seqIntervals)
      && DriftRecorded(sequenceStream, seqDrift, seqDriftSamples)
      && StampsRecorded(mediaStream, lastMediaSyncAt, mediaIntervals)
      && DriftRecorded(mediaStream, mediaDrift, mediaDriftSamples)
    }

    ghost predicate LogsRecorded(h: seq<Received>)
      reads `lifecycleEvents, `stopBlankEvents
    {
      lifecycleEvents == LifecycleOf(h) && stopBlankEvents == StopsAndBlanks(h)
    }

    /** The capture is a function of the packets received, whatever order its fields were set in. */
    ghost predicate Records(h: seq<Received>)
      reads this, seqDrift, mediaDrift
    {
      && TrafficRecorded(h)
      && LogsRecorded(h)
      && ClassesRecorded(Stream(h, false), Stream(h, true))
    }

    constructor (stepTime: Time)
      ensures Records([]) && this.stepTime == stepTime
      ensures fresh(seqDrift) && fresh(mediaDrift)
    {
      this.stepTime := stepTime;
      seqDrift := new DriftTracker();
      mediaDrift := new DriftTracker();
      packetCount, firstPacketAt, lastPacketAt := 0, ZERO_TIME, ZERO_TIME;
      transportCounts, ifaceHits, sourceAddrs := map[], map[], {};
      lastSeqSyncAt, lastMediaSyncAt, seqIntervals, mediaIntervals := ZERO_TIME, ZERO_TIME, [], [];
      lifecycleEvents, stopBlankEvents, seqDriftSamples, mediaDriftSamples := [], [], [], [];
    }

    method Handle(rec: Received, ghost h: seq<Received>) returns (drift: Option<DriftSample>)
      requires Records(h)
      modifies this, seqDrift, mediaDrift
      ensures Records(h + [rec])
      ensures !rec.payload.SyncPayload? ==> drift == None
      ensures rec.payload.SyncPayload? ==> drift == NewestSample(Stream(h + [rec], IsMedia(rec.payload.p)), stepTime)
    {
      CountTraffic(rec, h);
      if rec.payload.SyncPayload? {
        drift := HandleSync(rec, rec.payload.p, h);
      } else {
        HandleOther(rec, h);
        drift := None;
      }
    }

    /** Handle, with the history that the packets before it make up. */
    method HandleNext(packets: seq<Received>, i: nat) returns (drift: Option<DriftSample>)
      requires i < |packets| && Records(packets[..i])
      modifies this, seqDrift, mediaDrift
      ensures Records(packets[..i + 1])
      ensures packets[i].payload.SyncPayload? ==>
        drift == NewestSample(Stream(packets[..i + 1], IsMedia(packets[i].payload.p)), stepTime)
      ensures !packets[i].payload.SyncPayload? ==> drift == None
    {
      assert packets[..i + 1] == packets[..i] + [packets[i]];
      drift := Handle(packets[i], packets[..i]);
    }

    method HandleOther(rec: Received, ghost h: seq<Received>)
      requires !rec.payload.SyncPayload?
      requires LogsRecorded(h) && ClassesRecorded(Stream(h, false), Stream(h, true))
      modifies `stopBlankEvents
      ensures LogsRecorded(h + [rec]) && ClassesRecorded(Stream(h + [rec], false), Stream(h + [rec], true))
    {
      StreamStep(h, rec, false);
      StreamStep(h, rec, true);
      LogsStep(h, rec);
      if rec.payload.BlankPayload? {
        stopBlankEvents := stopBlankEvents + [BlankEvent(rec.at, rec.source)];
      }
    }

    method HandleSync(rec: Received, p: SyncPacket, ghost h: seq<Received>) returns (drift: Option<DriftSample>)
      requires rec.payload == SyncPayload(p)
      requires LogsRecorded(h) && ClassesRecorded(Stream(h, false), Stream(h, true))
      modifies `lastSeqSyncAt, `lastMediaSyncAt, `seqIntervals, `mediaIntervals
      modifies `seqDriftSamples, `mediaDriftSamples, seqDrift, mediaDrift, `lifecycleEvents, `stopBlankEvents
      ensures LogsRecorded(h + [rec]) && ClassesRecorded(Stream(h + [rec], false), Stream(h + [rec], true))
      ensures drift == NewestSample(Stream(h + [rec], IsMedia(p)), stepTime)
    {
      RecordLifecycle(rec, p, h);
      drift := RecordSync(rec, p, h);
    }

    method RecordSync(rec: Received, p: SyncPacket, ghost h: seq<Received>) returns (drift: Option<DriftSample>)
      requires rec.payload == SyncPayload(p)
      requires ClassesRecorded(Stream(h, false), Stream(h, true))
      modifies `lastSeqSyncAt, `lastMediaSyncAt, `seqIntervals, `mediaIntervals
      modifies `seqDriftSamples, `mediaDriftSamples, seqDrift, mediaDrift
      ensures ClassesRecorded(Stream(h + [rec], false), Stream(h + [rec], true))
      ensures drift == NewestSample(Stream(h + [rec], IsMedia(p)), stepTime)
    {
      StreamStep(h, rec, false);
      StreamStep(h, rec, true);
      drift := ObserveSync(p, rec.at, Stream(h, false), Stream(h, true), Arrival(p, rec.at, rec.source));
    }

    method RecordLifecycle(rec: Received, p: SyncPacket, ghost h: seq<Received>)
      requires rec.payload == SyncPayload(p) && LogsRecorded(h)
      modifies `lifecycleEvents, `stopBlankEvents
      ensures LogsRecorded(h + [rec])
    {
      LogsStep(h, rec);
      ObserveLifecycle(p, rec.at, rec.source);
    }

    method ObserveSync(p: SyncPacket, at: Time, ghost sequenceStream: seq<Arrival>, ghost mediaStream: seq<Arrival>, ghost a: Arrival)
      returns (drift: Option<DriftSample>)
      requires ClassesRecorded(sequenceStream, mediaStream) && a.p == p && a.at == at
      modifies `lastSeqSyncAt, `lastMediaSyncAt, `seqIntervals, `mediaIntervals
      modifies `seqDriftSamples, `mediaDriftSamples, seqDrift, mediaDrift
      ensures IsMedia(p) ==> ClassesRecorded(sequenceStream, mediaStream + [a])
      ensures !IsMedia(p) ==> ClassesRecorded(sequenceStream + [a], mediaStream)
      ensures drift == NewestSample((if IsMedia(p) then mediaStream else sequenceStream) + [a], stepTime)
    {
      ghost var st := if IsMedia(p) then mediaStream else sequenceStream;
      ObserveStamps(p, at, st, a);
      drift := ObserveDrift(p, at, st, a);
    }

    method ObserveStamps(p: SyncPacket, at: Time, ghost st: seq<Arrival>, ghost a: Arrival)
      requires a.p == p && a.at == at
      requires IsMedia(p) ==> StampsRecorded(st, lastMediaSyncAt, mediaIntervals)
      requires !IsMedia(p) ==> StampsRecorded(st, lastSeqSyncAt, seqIntervals)
      modifies `lastSeqSyncAt, `lastMediaSyncAt, `seqIntervals, `mediaIntervals
      ensures IsMedia(p) ==>
        && lastSeqSyncAt == old(lastSeqSyncAt) && seqIntervals == old(seqIntervals)
        && StampsRecorded(st + [a], lastMediaSyncAt, mediaIntervals)
      ensures !IsMedia(p) ==>
        && lastMediaSyncAt == old(lastMediaSyncAt) && mediaIntervals == old(mediaIntervals)
        && StampsRecorded(st + [a], lastSeqSyncAt, seqIntervals)
    {
      if p.action == Sync {
        ObserveInterArrival(p, at, st, a);
      } else {
        SyncStampsAppend(st, a);
        assert SyncStamps(st + [a]) == SyncStamps(st);
      }
    }

    method CountTraffic(rec: Received, ghost h: seq<Received>)
      requires TrafficRecorded(h)
      modifies `packetCount, `firstPacketAt, `lastPacketAt, `transportCounts, `ifaceHits, `sourceAddrs
      ensures TrafficRecorded(h + [rec])
    {
      ghost var transports, hits := transportCounts, ifaceHits;
      packetCount := packetCount + 1;
      if firstPacketAt == ZERO_TIME {
        firstPacketAt := rec.at;
      }
      lastPacketAt := rec.at;
      transportCounts := Bumped(transportCounts, rec.transport);
      if rec.ifIndex != 0 {
        ifaceHits := Bumped(ifaceHits, rec.ifIndex);
      }
      if rec.srcIp.Some? {
        sourceAddrs := sourceAddrs + {rec.srcIp.value};
      }
      FirstAndSourcesStep(h, rec);
      CountStep(transports, transportCounts, h, rec, TransportKey());
      CountStep(hits, ifaceHits, h, rec, InterfaceKey());
    }

    method ObserveInterArrival(p: SyncPacket, at: Time, ghost st: seq<Arrival>, ghost a: Arrival)
      requires p.action == Sync && a.p == p && a.at == at
      requires IsMedia(p) ==> StampsRecorded(st, lastMediaSyncAt, mediaIntervals)
      requires !IsMedia(p) ==> StampsRecorded(st, lastSeqSyncAt, seqIntervals)
      modifies `lastSeqSyncAt, `lastMediaSyncAt, `seqIntervals, `mediaIntervals
      ensures IsMedia(p) ==>
        && lastSeqSyncAt == old(lastSeqSyncAt) && seqIntervals == old(seqIntervals)
        && StampsRecorded(st + [a], lastMediaSyncAt, mediaIntervals)
      ensures !IsMedia(p) ==>
        && lastMediaSyncAt == old(lastMediaSyncAt) && mediaIntervals == old(mediaIntervals)
        && StampsRecorded(st + [a], lastSeqSyncAt, seqIntervals)
    {
      SyncStampsStep(st, a);
      if IsMedia(p) {
        if lastMediaSyncAt != ZERO_TIME {
          mediaIntervals := mediaIntervals + [at - lastMediaSyncAt];
        }
        lastMediaSyncAt := at;
      } else {
        if lastSeqSyncAt != ZERO_TIME {
          seqIntervals := seqIntervals + [at - lastSeqSyncAt];
        }
        lastSeqSyncAt := at;
      }
    }

    method ObserveLifecycle(p: SyncPacket, at: Time, source: string)
      modifies `lifecycleEvents, `stopBlankEvents
      ensures lifecycleEvents == old(lifecycleEvents) +
        if p.action in {Open, Start, Stop} then [EventOf(p, at, source)] else []
      ensures stopBlankEvents == old(stopBlankEvents) +
        if p.action == Stop then [StopEvent(at, p.fileType, p.filename, source)] else []
    {
      if p.action == Open || p.action == Start || p.action == Stop {
        lifecycleEvents := lifecycleEvents + [EventOf(p, at, source)];
      }
      if p.action == Stop {
        stopBlankEvents := stopBlankEvents + [StopEvent(at, p.fileType, p.filename, source)];
      }
    }

    method ObserveDrift(p: SyncPacket, at: Time, ghost st: seq<Arrival>, ghost a: Arrival)
      returns (out: Option<DriftSample>)
      requires seqDrift != mediaDrift && a.p == p && a.at == at
      requires IsMedia(p) ==> DriftRecorded(st, mediaDrift, mediaDriftSamples)
      requires !IsMedia(p) ==> DriftRecorded(st, seqDrift, seqDriftSamples)
      modifies `seqDriftSamples, `mediaDriftSamples, if IsMedia(p) then mediaDrift else seqDrift
      ensures IsMedia(p) ==>
        DriftRecorded(st + [a], mediaDrift, mediaDriftSamples) && seqDriftSamples == old(seqDriftSamples)
      ensures !IsMedia(p) ==>
        DriftRecorded(st + [a], seqDrift, seqDriftSamples) && mediaDriftSamples == old(mediaDriftSamples)
      ensures out == NewestSample(st + [a], stepTime)
    {
      DriftAppend(st, a, stepTime);
      if IsMedia(p) {
        out := mediaDrift.Observe(p, at, stepTime, st, a);
        if out.Some? {
          mediaDriftSamples := mediaDriftSamples + [out.value];
        }
      } else {
        out := seqDrift.Observe(p, at, stepTime, st, a);
        if out.Some? {
          seqDriftSamples := seqDriftSamples + [out.value];
        }
      }
    }
  }

  /** What one more packet adds to a class's stream, */
  lemma StreamStep(h: seq<Received>, rec: Received, media: bool)
    ensures Stream(h + [rec], media) ==
      if rec.payload.SyncPayload? && IsMedia(rec.payload.p) == media
      then Stream(h, media) + [Arrival(rec.payload.p, rec.at, rec.source)] else Stream(h, media)
  {
    assert (h + [rec])[..|h + [rec]| - 1] == h;
  }

  /** to the two event logs, */
  lemma LogsStep(h: seq<Received>, rec: Received)
    ensures LifecycleOf(h + [rec]) == LifecycleOf(h) +
      if rec.payload.SyncPayload? && rec.payload.p.action in {Open, Start, Stop}
      then [EventOf(rec.payload.p, rec.at, rec.source)] else []
    ensures StopsAndBlanks(h + [rec]) == StopsAndBlanks(h) +
      match rec.payload
      case SyncPayload(p) => if p.action == Stop then [StopEvent(rec.at, p.fileType, p.filename, rec.source)] else []
      case BlankPayload => [BlankEvent(rec.at, rec.source)]
      case OtherPayload => []
  {
    assert (h + [rec])[..|h + [rec]| - 1] == h;
  }

  /** and to the first time and the set of sources. */
  lemma FirstAndSourcesStep(h: seq<Received>, rec: Received)
    ensures FirstAt(h + [rec]) == if FirstAt(h) == ZERO_TIME then rec.at else FirstAt(h)
    ensures SourcesOf(h + [rec]) == SourcesOf(h) + if rec.srcIp.Some? then {rec.srcIp.value} else {}
  {
    assert (h + [rec])[..|h + [rec]| - 1] == h;
  }

  lemma SyncStampsStep(st: seq<Arrival>, a: Arrival)
    requires a.p.action == Sync
    ensures var before, after := SyncStamps(st), SyncStamps(st + [a]);
      && LastStamp(after) == a.at
      && Intervals(after) == Intervals(before) +
           if LastStamp(before) != ZERO_TIME then [a.at - LastStamp(before)] else []
  {
    SyncStampsAppend(st, a);
    var before := SyncStamps(st);
    assert (before + [a.at])[..|before + [a.at]| - 1] == before;
  }

  function IsLifecycle(): Received -> bool {
    (rec: Received) => rec.payload.SyncPayload?
      && (rec.payload.p.action == Open || rec.payload.p.action == Start || rec.payload.p.action == Stop)
  }

  /** The lifecycle log holds the OPEN, START and STOP packets, all of them and no others, in order, each
      with the fields of its packet. */
  lemma {:induction false} LifecycleExact(h: seq<Received>)
    ensures var at, log := Indices(h, IsLifecycle()), LifecycleOf(h);
      && |log| == |at|
      && forall k :: 0 <= k < |at| ==> ReportsPacket(log[k], h[at[k]])
  {
    if h != [] {
      LifecycleExact(h[..|h| - 1]);
    }
  }

  predicate ReportsPacket(e: LifecycleEvent, rec: Received) {
    && rec.payload.SyncPayload?
    && var p := rec.payload.p;
    && e.at == rec.at && e.source == rec.source
    && e.action == p.action && e.fileType == p.fileType && e.filename == p.filename
    && e.frameNumber == p.frameNumber && e.secondsElapsed == p.secondsElapsed
  }

  function IsStopOrBlank(): Received -> bool {
    (rec: Received) => rec.payload.BlankPayload? || (rec.payload.SyncPayload? && rec.payload.p.action == Stop)
  }

  /** The stop and blank log holds the STOP packets and the BLANK ones, likewise. */
  lemma {:induction false} StopsAndBlanksExact(h: seq<Received>)
    ensures var at, log := Indices(h, IsStopOrBlank()), StopsAndBlanks(h);
      && |log| == |at|
      && forall k :: 0 <= k < |at| ==>
           var e, rec := log[k], h[at[k]];
           && e.at == rec.at && e.source == rec.source
           && (rec.payload.BlankPayload? <==> e.BlankEvent?)
           && (e.StopEvent? ==> (rec.payload.SyncPayload?
                && e.fileType == rec.payload.p.fileType && e.filename == rec.payload.p.filename))
  {
    if h != [] {
      StopsAndBlanksExact(h[..|h| - 1]);
    }
  }

  function CarriedBy(transport: string): Received -> bool {
    (rec: Received) => rec.transport == transport
  }

  function HeardOn(ifIndex: int): Received -> bool {
    (rec: Received) => rec.ifIndex == ifIndex
  }

  lemma {:induction false} CountExact<K(!new)>(h: seq<Received>, key: Received -> Option<K>, k: K, p: Received -> bool)
    requires forall rec :: p(rec) <==> key(rec) == Some(k)
    ensures CountOf(h, key, k) == |Indices(h, p)|
  {
    if h != [] {
      CountExact(h[..|h| - 1], key, k, p);
    }
  }

  lemma {:induction false} NoCount<K(!new)>(h: seq<Received>, key: Received -> Option<K>, k: K)
    requires forall rec :: key(rec) != Some(k)
    ensures CountOf(h, key, k) == 0
  {
    if h != [] {
      NoCount(h[..|h| - 1], key, k);
    }
  }

  lemma {:induction false} FirstAtExact(h: seq<Received>)
    ensures FirstAt(h) == ZERO_TIME <==> forall i :: 0 <= i < |h| ==> h[i].at == ZERO_TIME
    ensures FirstAt(h) != ZERO_TIME ==>
      exists i :: 0 <= i < |h| && h[i].at == FirstAt(h) && forall m :: 0 <= m < i ==> h[m].at == ZERO_TIME
  {
    if h != [] {
      var front := h[..|h| - 1];
      FirstAtExact(front);
      assert forall i :: 0 <= i < |front| ==> front[i] == h[i];
      assert FirstAt(h) == h[|h| - 1].at || FirstAt(h) == FirstAt(front);
    }
  }

  /** The counters of a capture: each transport and each nonzero interface with the number of packets that
      came by it, and no other key. */
  lemma CountersExact(c: Capture, h: seq<Received>)
    requires c.TrafficRecorded(h)
    ensures forall t :: t in c.transportCounts <==> Indices(h, CarriedBy(t)) != []
    ensures forall t :: t in c.transportCounts ==> c.transportCounts[t] == |Indices(h, CarriedBy(t))|
    ensures forall k :: k in c.ifaceHits <==> k != 0 && Indices(h, HeardOn(k)) != []
    ensures forall k :: k in c.ifaceHits ==> c.ifaceHits[k] == |Indices(h, HeardOn(k))|
  {
    forall t
      ensures CountOf(h, TransportKey(), t) == |Indices(h, CarriedBy(t))|
    {
      CountExact(h, TransportKey(), t, CarriedBy(t));
    }
    forall k
      ensures CountOf(h, InterfaceKey(), k) == if k == 0 then 0 else |Indices(h, HeardOn(k))|
    {
      if k == 0 {
        NoCount(h, InterfaceKey(), k);
      } else {
        CountExact(h, InterfaceKey(), k, HeardOn(k));
      }
    }
  }

  /** Driving a fresh capture with every packet of a run. */
  method Collect(packets: seq<Received>, stepTime: Time) returns (c: Capture)
    ensures c.stepTime == stepTime && c.Records(packets)
  {
    c := new Capture(stepTime);
    assert packets[..0] == [];
    var i := 0;
    while i < |packets|
      invariant 0 <= i <= |packets|
      invariant fresh(c) && fresh(c.seqDrift) && fresh(c.mediaDrift)
      invariant c.stepTime == stepTime && c.Records(packets[..i])
    {
      var drift := c.HandleNext(packets, i);
      i := i + 1;
    }
    assert packets[..i] == packets;
  }

  /** The intervals of a class, from the packets: with every clock set, the times from each of its SYNC
      packets to the next. */
  lemma IntervalsFromPackets(c: Capture, h: seq<Received>, media: bool)
    requires c.Records(h)
    requires forall i :: 0 <= i < |h| ==> h[i].at != ZERO_TIME
    ensures var at, intervals := Indices(h, SyncsOf(media)), if media then c.mediaIntervals else c.seqIntervals;
      && |intervals| == (if at == [] then 0 else |at| - 1)
      && forall k :: 0 <= k < |intervals| ==> intervals[k] == h[at[k + 1]].at - h[at[k]].at
  {
    SyncStampsExact(h, media);
    var stamps := SyncStamps(Stream(h, media));
    if stamps != [] {
      IntervalSeries(stamps);
    }
  }

  /** The drift samples of a class: one for each sample point of its stream, measuring the free run there. */
  lemma DriftFromPackets(c: Capture, h: seq<Received>, media: bool)
    requires c.Records(h)
    ensures var st, samples := Stream(h, media), if media then c.mediaDriftSamples else c.seqDriftSamples;
      && |samples| == |SamplePoints(st)|
      && forall k :: 0 <= k < |samples| ==> MeasuresRun(samples[k], st, c.stepTime, SamplePoints(st)[k])
  {
    var st := Stream(h, media);
    forall k | 0 <= k < |DriftSamples(st, c.stepTime)|
      ensures MeasuresRun(DriftSamples(st, c.stepTime)[k], st, c.stepTime, SamplePoints(st)[k])
    {
      DriftClosedForm(st, c.stepTime, k);
    }
  }

  /** Collecting an interleaved run and collecting it with the other class's sync packets taken out
      give the same intervals and drift samples for the class that stays. */
  lemma CaptureIndependence(full: Capture, part: Capture, h: seq<Received>, media: bool)
    requires full.stepTime == part.stepTime
    requires full.Records(h) && part.Records(Filter(h, WithoutOther(media)))
    ensures media ==>
      part.mediaIntervals == full.mediaIntervals && part.mediaDriftSamples == full.mediaDriftSamples
    ensures !media ==>
      part.seqIntervals == full.seqIntervals && part.seqDriftSamples == full.seqDriftSamples
  {
    StreamIndependence(h, media);
  }
}
