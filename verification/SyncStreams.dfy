/**
 What a MultiSync capture should contain, said about the packet history as a whole
 (cmd/showmesh-multisync-probe/main.go): definitions for the collector in Capture.dfy to meet.
 */
module SyncStreams {
  import opened Sequences

  /** Whole nanoseconds; `ZERO_TIME` is the instant that IsZero recognises. */
  type Time = int
  const ZERO_TIME: Time := 0

  datatype SyncAction = Start | Stop | Sync | Open | OtherAction(code: nat)
  datatype SyncFileType = SequenceFile | MediaFile | OtherFile(code: nat)

  datatype SyncPacket = SyncPacket(action: SyncAction, fileType: SyncFileType, frameNumber: nat,
                                   secondsElapsed: real, filename: string)

  datatype Payload = SyncPayload(p: SyncPacket) | BlankPayload | OtherPayload

  datatype Received = Received(at: Time, transport: string, ifIndex: int, srcIp: Option<string>,
                               source: string, payload: Payload)

  /** One sync packet with its arrival. */
  datatype Arrival = Arrival(p: SyncPacket, at: Time, source: string)

  predicate IsMedia(p: SyncPacket) {
    p.fileType == MediaFile
  }

  /** The stream of one class: media, or everything that is not media. */
  function Stream(h: seq<Received>, media: bool): seq<Arrival> {
    if h == [] then []
    else
      var rec := h[|h| - 1];
      Stream(h[..|h| - 1], media) +
      if rec.payload.SyncPayload? && IsMedia(rec.payload.p) == media
      then [Arrival(rec.payload.p, rec.at, rec.source)] else []
  }

  /** The packets of one class, by their own file type. */
  function SyncOf(media: bool): Received -> bool {
    (rec: Received) => rec.payload.SyncPayload? && (rec.payload.p.fileType == MediaFile) == media
  }

  /** A stream is its class's packets, all of them and no others, in order, each with its arrival. */
  lemma {:induction false} StreamExact(h: seq<Received>, media: bool)
    ensures var at, st := Indices(h, SyncOf(media)), Stream(h, media);
      && |st| == |at|
      && forall k :: 0 <= k < |at| ==>
           h[at[k]].payload == SyncPayload(st[k].p) && st[k].at == h[at[k]].at && st[k].source == h[at[k]].source
  {
    if h != [] {
      StreamExact(h[..|h| - 1], media);
    }
  }

  /** The master's own position: its clock when usable, otherwise its frame count. */
  function PositionFromSync(p: SyncPacket, stepTime: Time): Time {
    if p.secondsElapsed > 0.0 then (p.secondsElapsed * 1_000_000_000.0).Floor
    else p.frameNumber * stepTime
  }

  // ---------------------------------------------------------------------------------------------
  // Inter-arrival intervals
  // ---------------------------------------------------------------------------------------------

  /** Arrival times of the SYNC packets. */
  function SyncStamps(st: seq<Arrival>): seq<Time> {
    if st == [] then []
    else
      var a := st[|st| - 1];
      SyncStamps(st[..|st| - 1]) + if a.p.action == Sync then [a.at] else []
  }

  /** The SYNC packets of one class, by their own file type. */
  function SyncsOf(media: bool): Received -> bool {
    (rec: Received) => rec.payload.SyncPayload? && (rec.payload.p.fileType == MediaFile) == media
      && rec.payload.p.action == Sync
  }

  lemma {:induction false} SyncStampsAppend(st: seq<Arrival>, a: Arrival)
    ensures SyncStamps(st + [a]) == SyncStamps(st) + if a.p.action == Sync then [a.at] else []
  {
    assert (st + [a])[..|st + [a]| - 1] == st;
  }

  lemma {:induction false} StampsStep(front: seq<Received>, rec: Received, media: bool)
    ensures SyncStamps(Stream(front + [rec], media)) ==
      if SyncsOf(media)(rec) then SyncStamps(Stream(front, media)) + [rec.at] else SyncStamps(Stream(front, media))
  {
    assert (front + [rec])[..|front + [rec]| - 1] == front;
    var st := Stream(front, media);
    if rec.payload.SyncPayload? && IsMedia(rec.payload.p) == media {
      var a := Arrival(rec.payload.p, rec.at, rec.source);
      assert Stream(front + [rec], media) == st + [a];
      SyncStampsAppend(st, a);
    } else {
      assert Stream(front + [rec], media) == st;
    }
  }

  /** `stamps` are the arrival times of the packets at these places. */
  ghost predicate StampsAt(h: seq<Received>, at: seq<nat>, stamps: seq<Time>) {
    |stamps| == |at| && forall k :: 0 <= k < |at| ==> at[k] < |h| && stamps[k] == h[at[k]].at
  }

  lemma {:induction false} StampsAtAppend(h: seq<Received>, rec: Received, at: seq<nat>, stamps: seq<Time>)
    requires StampsAt(h, at, stamps)
    ensures StampsAt(h + [rec], at, stamps) && StampsAt(h + [rec], at + [|h|], stamps + [rec.at])
  {
  }

  /** The stamps are the arrival times of the class's SYNC packets, all of them and no others, in order. */
  lemma {:induction false} SyncStampsExact(h: seq<Received>, media: bool)
    ensures StampsAt(h, Indices(h, SyncsOf(media)), SyncStamps(Stream(h, media)))
  {
    if h != [] {
      var front, rec := h[..|h| - 1], h[|h| - 1];
      SyncStampsExact(front, media);
      SyncStampsGrow(front, rec, media);
      assert h == front + [rec];
    }
  }

  lemma {:induction false} SyncStampsGrow(front: seq<Received>, rec: Received, media: bool)
    requires StampsAt(front, Indices(front, SyncsOf(media)), SyncStamps(Stream(front, media)))
    ensures StampsAt(front + [rec], Indices(front + [rec], SyncsOf(media)), SyncStamps(Stream(front + [rec], media)))
  {
    StampsStep(front, rec, media);
    IndicesAppend(front, rec, SyncsOf(media));
    StampsAtAppend(front, rec, Indices(front, SyncsOf(media)), SyncStamps(Stream(front, media)));
  }

  /** Gaps between consecutive stamps; a stamp at the zero instant counts as no stamp at all. */
  function Intervals(stamps: seq<Time>): seq<Time> {
    if |stamps| < 2 then []
    else
      var n := |stamps|;
      Intervals(stamps[..n - 1]) + if stamps[n - 2] != ZERO_TIME then [stamps[n - 1] - stamps[n - 2]] else []
  }

  function IsSet(): Time -> bool {
    (t: Time) => t != ZERO_TIME
  }

  lemma {:induction false} IntervalsAppend(stamps: seq<Time>, t: Time)
    requires stamps != []
    ensures var last := stamps[|stamps| - 1];
      Intervals(stamps + [t]) == if last != ZERO_TIME then Intervals(stamps) + [t - last] else Intervals(stamps)
  {
    var longer := stamps + [t];
    assert longer[..|longer| - 1] == stamps;
  }

  /** Each interval lies between the stamp at its place and the next. */
  ghost predicate IntervalsAt(stamps: seq<Time>, at: seq<nat>, intervals: seq<Time>) {
    && |intervals| == |at|
    && forall k :: 0 <= k < |at| ==> at[k] + 1 < |stamps| && intervals[k] == stamps[at[k] + 1] - stamps[at[k]]
  }

  lemma {:induction false} IntervalsAtAppend(stamps: seq<Time>, t: Time, at: seq<nat>, intervals: seq<Time>)
    requires stamps != [] && IntervalsAt(stamps, at, intervals)
    ensures IntervalsAt(stamps + [t], at, intervals)
    ensures IntervalsAt(stamps + [t], at + [|stamps| - 1], intervals + [t - stamps[|stamps| - 1]])
  {
  }

  /** One interval for each stamp but the last that is not the zero instant, up to the next stamp. */
  lemma {:induction false} IntervalsExact(stamps: seq<Time>)
    requires stamps != []
    ensures IntervalsAt(stamps, Indices(stamps[..|stamps| - 1], IsSet()), Intervals(stamps))
  {
    var n := |stamps|;
    if n >= 2 {
      var front, head := stamps[..n - 1], stamps[..n - 2];
      IntervalsExact(front);
      assert front[..n - 2] == head && front == head + [stamps[n - 2]] && stamps == front + [stamps[n - 1]];
      IntervalsGrow(head, stamps[n - 2], stamps[n - 1]);
    }
  }

  lemma {:induction false} IntervalsGrow(head: seq<Time>, last: Time, t: Time)
    requires IntervalsAt(head + [last], Indices(head, IsSet()), Intervals(head + [last]))
    ensures IntervalsAt(head + [last] + [t], Indices(head + [last], IsSet()), Intervals(head + [last] + [t]))
  {
    IntervalsAppend(head + [last], t);
    IndicesAppend(head, last, IsSet());
    IntervalsAtAppend(head + [last], t, Indices(head, IsSet()), Intervals(head + [last]));
  }

  function Sum(s: seq<Time>): Time {
    if s == [] then 0 else Sum(s[..|s| - 1]) + s[|s| - 1]
  }

  function LastStamp(stamps: seq<Time>): Time {
    if stamps == [] then ZERO_TIME else stamps[|stamps| - 1]
  }

  lemma SumAppend(s: seq<Time>, x: Time)
    ensures Sum(s + [x]) == Sum(s) + x
  {
    assert (s + [x])[..|s + [x]| - 1] == s;
  }

  lemma {:induction false} IntervalsBound(stamps: seq<Time>)
    ensures |Intervals(stamps)| <= if stamps == [] then 0 else |stamps| - 1
  {
    if |stamps| >= 2 {
      IntervalsBound(stamps[..|stamps| - 1]);
    }
  }

  lemma {:induction false} IntervalsCount(stamps: seq<Time>)
    requires stamps != []
    ensures |Intervals(stamps)| == |stamps| - 1 <==> ZERO_TIME !in stamps[..|stamps| - 1]
  {
    var n := |stamps|;
    if n >= 2 {
      var front := stamps[..n - 1];
      IntervalsCount(front);
      IntervalsBound(front);
      assert front == front[..n - 2] + [front[n - 2]];
    }
  }

  function Gaps(stamps: seq<Time>): (r: seq<Time>)
    requires stamps != []
    ensures |r| == |stamps| - 1 && forall i :: 0 <= i < |r| ==> r[i] == stamps[i + 1] - stamps[i]
  {
    seq(|stamps| - 1, i requires 0 <= i < |stamps| - 1 => stamps[i + 1] - stamps[i])
  }

  lemma GapsAppend(stamps: seq<Time>)
    requires |stamps| >= 2
    ensures var n := |stamps|;
      Gaps(stamps) == Gaps(stamps[..n - 1]) + [stamps[n - 1] - stamps[n - 2]]
  {
  }

  lemma {:induction false} IntervalsAreGaps(stamps: seq<Time>)
    requires stamps != [] && forall i :: 0 <= i < |stamps| - 1 ==> stamps[i] != ZERO_TIME
    ensures Intervals(stamps) == Gaps(stamps)
  {
    var n := |stamps|;
    if n >= 2 {
      var front := stamps[..n - 1];
      IntervalsAreGaps(front);
      GapsAppend(stamps);
    }
  }

  lemma {:induction false} GapsSum(stamps: seq<Time>)
    requires stamps != []
    ensures Sum(Gaps(stamps)) == stamps[|stamps| - 1] - stamps[0]
  {
    var n := |stamps|;
    if n >= 2 {
      GapsSum(stamps[..n - 1]);
      GapsAppend(stamps);
      SumAppend(Gaps(stamps[..n - 1]), stamps[n - 1] - stamps[n - 2]);
    }
  }

  lemma NoneIsZero(stamps: seq<Time>)
    requires ZERO_TIME !in stamps
    ensures forall i :: 0 <= i < |stamps| ==> stamps[i] != ZERO_TIME
  {
  }

  lemma SeriesOfGaps(stamps: seq<Time>)
    requires stamps != [] && ZERO_TIME !in stamps[..|stamps| - 1]
    ensures forall i :: 0 <= i < |stamps| - 1 ==> Gaps(stamps)[i] == stamps[i + 1] - stamps[i]
    ensures Intervals(stamps) == Gaps(stamps)
  {
    var front := stamps[..|stamps| - 1];
    NoneIsZero(front);
    forall i | 0 <= i < |stamps| - 1
      ensures stamps[i] != ZERO_TIME
    {
      assert stamps[i] == front[i];
    }
    IntervalsAreGaps(stamps);
  }

  /** There are n - 1 gaps for n stamps exactly when no stamp but the last is the zero instant, and
      then gap i is stamp i + 1 minus stamp i and they sum to last minus first. */
  lemma IntervalSeries(stamps: seq<Time>)
    requires stamps != []
    ensures |Intervals(stamps)| == |stamps| - 1 <==> ZERO_TIME !in stamps[..|stamps| - 1]
    ensures ZERO_TIME !in stamps[..|stamps| - 1] ==>
      && (forall i :: 0 <= i < |stamps| - 1 ==> Intervals(stamps)[i] == stamps[i + 1] - stamps[i])
      && Sum(Intervals(stamps)) == stamps[|stamps| - 1] - stamps[0]
  {
    IntervalsCount(stamps);
    if ZERO_TIME !in stamps[..|stamps| - 1] {
      SeriesOfGaps(stamps);
      GapsSum(stamps);
    }
  }

  // ---------------------------------------------------------------------------------------------
  // Free-run drift
  // ---------------------------------------------------------------------------------------------

  datatype DriftSample = DriftSample(at: Time, fileType: SyncFileType, filename: string,
                                     masterPosition: Time, localEstimate: Time, delta: Time)

  /** A packet that (re)starts the free-run reference: OPEN, START, or the first of its file block. */
  predicate IsAnchor(st: seq<Arrival>, k: nat)
    requires k < |st|
  {
    st[k].p.action == Open || st[k].p.action == Start || k == 0 || st[k - 1].p.filename != st[k].p.filename
  }

  /** The latest anchor at or before `k`. */
  function AnchorOf(st: seq<Arrival>, k: nat): (j: nat)
    requires k < |st|
    ensures j <= k && IsAnchor(st, j)
    ensures forall m :: j < m <= k ==> !IsAnchor(st, m)
  {
    if IsAnchor(st, k) then k else AnchorOf(st, k - 1)
  }

  /** A SYNC whose immediately preceding packet of its class names the same file. */
  predicate IsSamplePoint(st: seq<Arrival>, i: nat)
    requires i < |st|
  {
    i > 0 && st[i].p.action == Sync && st[i - 1].p.filename == st[i].p.filename
  }

  function SampleAt(st: seq<Arrival>, i: nat, stepTime: Time): DriftSample
    requires 0 < i < |st|
  {
    var j := AnchorOf(st, i - 1);
    var position := PositionFromSync(st[i].p, stepTime);
    var estimate := PositionFromSync(st[j].p, stepTime) + (st[i].at - st[j].at);
    DriftSample(st[i].at, st[i].p.fileType, st[i].p.filename, position, estimate, position - estimate)
  }

  function SamplePoints(st: seq<Arrival>): (r: seq<nat>)
    ensures forall k :: 0 <= k < |r| ==> 0 < r[k] < |st|
  {
    if st == [] then []
    else SamplePoints(st[..|st| - 1]) + if IsSamplePoint(st, |st| - 1) then [|st| - 1] else []
  }

  function DriftSamples(st: seq<Arrival>, stepTime: Time): (r: seq<DriftSample>)
    ensures |r| == |SamplePoints(st)|
  {
    var points := SamplePoints(st);
    seq(|points|, k requires 0 <= k < |points| => SampleAt(st, points[k], stepTime))
  }

  lemma {:induction false} SamplePointsAre(st: seq<Arrival>)
    ensures forall i: nat :: i in SamplePoints(st) <==> i < |st| && IsSamplePoint(st, i)
    ensures forall a, b :: 0 <= a < b < |SamplePoints(st)| ==> SamplePoints(st)[a] < SamplePoints(st)[b]
  {
    if st != [] {
      var front := st[..|st| - 1];
      SamplePointsAre(front);
      assert forall i: nat :: i < |front| ==> IsSamplePoint(front, i) == IsSamplePoint(st, i);
    }
  }

  /** The sample points are exactly the SYNC packets whose preceding packet names the same file, each
      once, in stream order. */
  lemma SamplePointsExact(st: seq<Arrival>)
    ensures forall i: nat :: i in SamplePoints(st) <==>
      0 < i < |st| && st[i].p.action == Sync && st[i - 1].p.filename == st[i].p.filename
    ensures forall a, b :: 0 <= a < b < |SamplePoints(st)| ==> SamplePoints(st)[a] < SamplePoints(st)[b]
  {
    SamplePointsAre(st);
  }

  /** `position` is where the packet itself says the master stands: its own seconds if it gives any, in
      whole nanoseconds, and otherwise its frame number in steps. */
  predicate StandsAt(p: SyncPacket, stepTime: Time, position: Time) {
    if p.secondsElapsed > 0.0 then position as real <= p.secondsElapsed * 1_000_000_000.0 < position as real + 1.0
    else position == p.frameNumber * stepTime
  }

  /** The free run that reaches `i` began at `j`: with an OPEN, a START or the first packet of its file's
      block, since when there was no other of these. */
  predicate RunsFrom(st: seq<Arrival>, j: nat, i: nat) {
    && j < i < |st|
    && (st[j].p.action == Open || st[j].p.action == Start || j == 0 || st[j - 1].p.filename != st[j].p.filename)
    && (forall m :: j < m < i ==> st[m].p.action != Open && st[m].p.action != Start)
    && (forall m :: j <= m < i ==> st[m].p.filename == st[i].p.filename)
  }

  /** `s` is taken at `i` against the packet at `j`, by the two packets' own fields and arrival times. */
  predicate Measures(s: DriftSample, st: seq<Arrival>, stepTime: Time, i: nat, j: nat)
    requires j < i < |st|
  {
    && s.at == st[i].at && s.fileType == st[i].p.fileType && s.filename == st[i].p.filename
    && StandsAt(st[i].p, stepTime, s.masterPosition)
    && StandsAt(st[j].p, stepTime, s.localEstimate - (st[i].at - st[j].at))
    && s.delta == s.masterPosition - s.localEstimate
  }

  /** `s` is a sample at `i` against the packet with which the free run that reaches `i` began. */
  ghost predicate MeasuresRun(s: DriftSample, st: seq<Arrival>, stepTime: Time, i: nat) {
    exists j: nat :: RunsFrom(st, j, i) && Measures(s, st, stepTime, i, j)
  }

  lemma SampleMeasures(st: seq<Arrival>, stepTime: Time, i: nat)
    requires i < |st| && IsSamplePoint(st, i)
    ensures MeasuresRun(SampleAt(st, i, stepTime), st, stepTime, i)
  {
    var j := AnchorOf(st, i - 1);
    SameFileBack(st, j, i - 1);
    forall m | j < m < i
      ensures st[m].p.action != Open && st[m].p.action != Start
    {
      assert !IsAnchor(st, m);
    }
    PositionStands(st[i].p, stepTime);
    PositionStands(st[j].p, stepTime);
    assert RunsFrom(st, j, i) && Measures(SampleAt(st, i, stepTime), st, stepTime, i, j);
  }

  /** Every drift sample, from the packets alone: the k-th stands at the k-th sample point and measures the
      free run that reaches it. */
  lemma DriftClosedForm(st: seq<Arrival>, stepTime: Time, k: nat)
    requires k < |DriftSamples(st, stepTime)|
    ensures MeasuresRun(DriftSamples(st, stepTime)[k], st, stepTime, SamplePoints(st)[k])
  {
    SamplePointsAre(st);
    assert SamplePoints(st)[k] in SamplePoints(st);
    SampleMeasures(st, stepTime, SamplePoints(st)[k]);
  }

  lemma PositionStands(p: SyncPacket, stepTime: Time)
    ensures StandsAt(p, stepTime, PositionFromSync(p, stepTime))
  {
  }

  /** What that makes of the delta: the advance of the master's own clock, or of its frames, less the
      local time that passed; exactly for frames, and to within a nanosecond where a clock is used. */
  lemma DriftLaw(s: DriftSample, st: seq<Arrival>, stepTime: Time, i: nat, j: nat)
    requires j < i < |st| && Measures(s, st, stepTime, i, j)
    ensures var p, q, passed := st[i].p, st[j].p, st[i].at - st[j].at;
      var clock := (p.secondsElapsed - q.secondsElapsed) * 1_000_000_000.0 - passed as real;
      var mixed := p.secondsElapsed * 1_000_000_000.0 - (q.frameNumber * stepTime + passed) as real;
      var mixedBack := (p.frameNumber * stepTime - passed) as real - q.secondsElapsed * 1_000_000_000.0;
      && (p.secondsElapsed > 0.0 && q.secondsElapsed > 0.0 ==> clock - 1.0 < s.delta as real < clock + 1.0)
      && (p.secondsElapsed <= 0.0 && q.secondsElapsed <= 0.0 ==>
            s.delta == (p.frameNumber - q.frameNumber) * stepTime - passed)
      && (p.secondsElapsed > 0.0 && q.secondsElapsed <= 0.0 ==> mixed - 1.0 < s.delta as real <= mixed)
      && (p.secondsElapsed <= 0.0 && q.secondsElapsed > 0.0 ==> mixedBack <= s.delta as real < mixedBack + 1.0)
  {
    assert (st[i].p.frameNumber - st[j].p.frameNumber) * stepTime
      == st[i].p.frameNumber * stepTime - st[j].p.frameNumber * stepTime;
  }

  lemma {:induction false} SameFileBack(st: seq<Arrival>, j: nat, k: nat)
    requires j <= k < |st| && forall m :: j < m <= k ==> !IsAnchor(st, m)
    ensures forall m :: j <= m <= k ==> st[m].p.filename == st[k].p.filename
  {
    if j < k {
      SameFileBack(st, j, k - 1);
      assert !IsAnchor(st, k);
    }
  }

  lemma {:induction false} AnchorOfPrefix(st: seq<Arrival>, more: seq<Arrival>, k: nat)
    requires k < |st|
    ensures AnchorOf(st + more, k) == AnchorOf(st, k)
  {
    assert IsAnchor(st + more, k) == IsAnchor(st, k);
    if !IsAnchor(st, k) {
      AnchorOfPrefix(st, more, k - 1);
    }
  }

  /** Later packets never revise a sample already taken. */
  lemma DriftAppend(st: seq<Arrival>, a: Arrival, stepTime: Time)
    ensures DriftSamples(st + [a], stepTime) == DriftSamples(st, stepTime) +
      if IsSamplePoint(st + [a], |st|) then [SampleAt(st + [a], |st|, stepTime)] else []
  {
    var longer := st + [a];
    assert longer[..|longer| - 1] == st;
    var points := SamplePoints(st);
    forall k | 0 <= k < |points|
      ensures SampleAt(longer, points[k], stepTime) == SampleAt(st, points[k], stepTime)
    {
      AnchorOfPrefix(st, [a], points[k] - 1);
    }
  }

  // ---------------------------------------------------------------------------------------------
  // Stream independence
  // ---------------------------------------------------------------------------------------------

  /** Everything but the sync packets of the other class. */
  function WithoutOther(media: bool): Received -> bool {
    (rec: Received) => rec.payload.SyncPayload? ==> IsMedia(rec.payload.p) == media
  }

  /** One class's stream does not depend on the packets of the other that arrive in between; so
      neither do its intervals and drift samples, which are functions of the stream. */
  lemma {:induction false} StreamIndependence(h: seq<Received>, media: bool)
    ensures Stream(Filter(h, WithoutOther(media)), media) == Stream(h, media)
  {
    if h != [] {
      var front, rec := h[..|h| - 1], h[|h| - 1];
      StreamIndependence(front, media);
      var kept := Filter(front, WithoutOther(media));
      if WithoutOther(media)(rec) {
        assert Filter(h, WithoutOther(media)) == kept + [rec];
        assert (kept + [rec])[..|kept + [rec]| - 1] == kept;
      } else {
        assert Filter(h, WithoutOther(media)) == kept;
      }
    }
  }
}
