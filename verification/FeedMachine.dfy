/**
 The need-data / have-data feed as a state machine. One step is one lock section of the client
 together with the pipeline call next to it. The callbacks of the server's IPC thread are
 serialized, so there is at most one round in flight; the steps of the main thread fall anywhere.
 */
module FeedMachine {
  import opened Basics
  import opened MediaStream

  type SourceId = int

  const SIZE_MAX_PLUS_1: nat := 0x1_0000_0000_0000_0000

  type Size = n: nat | n < 0x1_0000_0000_0000_0000

  /** `AddSegmentStatus` */
  datatype Status = Ok | NoSpace | Error

  /** `MediaSourceStatus` as the feed uses it. */
  datatype SourceStatus = SourceOk | SourceEos

  datatype Segment = Segment(sourceId: SourceId, timeStamp: int, duration: int, sampleRate: nat, channels: nat, data: seq<Byte>)

  datatype SourceFeed = SourceFeed(stream: Stream, nextFrame: nat)

  datatype NeedDataRecord = NeedDataRecord(sourceId: SourceId, frameCount: Size, requestId: nat, hadShmInfo: bool)

  /** The fields of the client. */
  datatype Client = Client(
    hasPipeline: bool,
    feeds: map<SourceId, SourceFeed>,
    needDataLog: seq<NeedDataRecord>,
    pendingNeedData: set<SourceId>,
    overlappingNeedData: bool,
    allSegmentsAccepted: bool,
    starve: bool,
    oversupply: Size,
    withhold: bool,
    corruptEvery: Size,
    segmentsOffered: nat,
    addOk: nat,
    addNoSpace: nat,
    addError: nat,
    noSpaceFrame: map<SourceId, nat>,
    noSpaceSegmentAccepted: bool,
    cancelCount: nat,
    cancelledSources: set<SourceId>)

  /** A call on the pipeline. `frame` is the stream position the segment was built from. */
  datatype ServerCall =
    | AddSegment(sourceId: SourceId, requestId: nat, frame: nat, segment: Segment, status: Status)
    | HaveData(sourceId: SourceId, requestId: nat, answer: SourceStatus)

  /** The need-data callback in flight: its locals, and how far it got. */
  datatype Round =
    | Idle
    | Offering(sourceId: SourceId, requestId: nat, first: nat, batch: seq<Segment>, accepted: nat, stopped: bool)
    | Starving(sourceId: SourceId, requestId: nat)
    | Answering(sourceId: SourceId, requestId: nat, answer: SourceStatus)

  datatype System = System(client: Client, round: Round, trace: seq<ServerCall>)

  datatype Step =
    // The server's thread
    | NeedData(sourceId: SourceId, frameCount: Size, requestId: nat, hasShmInfo: bool)
    | Offer(status: Status)
    | Advance
    | EndStarved
    | Answer
    | CancelNeedData(sourceId: SourceId)
    // The main thread
    | SetPipeline
    | AddSource(sourceId: SourceId, stream: Stream)
    | Rewind(sourceId: SourceId)
    | SetOversupply(multiple: Size)
    | SetWithhold(on: bool)
    | SetStarve(on: bool)
    | SetCorruptEvery(nth: Size)

  const INIT: System :=
    System(Client(false, map[], [], {}, false, true, false, 1, false, 0, 0, 0, 0, 0, map[], false, 0, {}), Idle, [])

  /** The calls of the application's own thread. */
  predicate MainStep(step: Step) {
    step.SetPipeline? || step.AddSource? || step.Rewind? || step.SetOversupply? || step.SetWithhold? ||
    step.SetStarve? || step.SetCorruptEvery?
  }

  predicate Enabled(sys: System, step: Step) {
    match step
    case NeedData(_, _, _, _) => sys.round.Idle?
    case CancelNeedData(_) => sys.round.Idle?
    case Offer(_) => sys.round.Offering? && !sys.round.stopped && sys.round.accepted < |sys.round.batch|
    case Advance => sys.round.Offering? && (sys.round.stopped || sys.round.accepted >= |sys.round.batch|)
    case EndStarved => sys.round.Starving?
    case Answer => sys.round.Answering?
    case _ => true
  }

  // ---- Building a batch ----

  /** `frameCount * (m_oversupply == 0 ? 1 : m_oversupply)` in 64 bits. */
  function OfferLimit(frameCount: Size, oversupply: Size): Size {
    frameCount * (if oversupply == 0 then 1 else oversupply) % SIZE_MAX_PLUS_1
  }

  function BatchSize(frames: nat, first: nat, limit: nat): (size: nat)
    ensures size <= limit && (first <= frames ==> first + size <= frames)
    ensures size < limit ==> frames <= first + size
    ensures first >= frames ==> size == 0
  {
    if first >= frames then 0 else if frames - first <= limit then frames - first else limit
  }

  /** Is the segment built as number `offered` corrupted? */
  predicate Corrupted(offered: nat, corruptEvery: nat) {
    corruptEvery != 0 && offered % corruptEvery == 0
  }

  function BuildSegment(stream: Stream, sourceId: SourceId, frame: nat, corrupted: bool): (segment: Segment)
    requires frame < |stream.frames|
    ensures Carries(segment, stream, sourceId, frame, corrupted)
  {
    var f := stream.frames[frame];
    Segment(sourceId, f.timeStamp, f.duration, stream.sampleRate, stream.channels,
            if corrupted then seq(|f.data|, _ => 0xA5) else f.data)
  }

  /**
   What a segment holds: the stamps and the format of its frame, and the frame's bytes or, when it
   is corrupt, as many bytes 0xA5.
   */
  predicate Carries(segment: Segment, stream: Stream, sourceId: SourceId, frame: nat, corrupt: bool) {
    && frame < |stream.frames|
    && segment.sourceId == sourceId
    && segment.timeStamp == stream.frames[frame].timeStamp && segment.duration == stream.frames[frame].duration
    && segment.sampleRate == stream.sampleRate && segment.channels == stream.channels
    && |segment.data| == |stream.frames[frame].data|
    && forall i :: 0 <= i < |segment.data| ==> segment.data[i] == if corrupt then 0xA5 else stream.frames[frame].data[i]
  }

  /**
   A batch holds the frames from `first` on. With `offered` segments built before it, a segment is
   corrupt exactly when corruption is on and its number among all segments built is a multiple of `nth`.
   */
  ghost predicate BatchCarries(batch: seq<Segment>, stream: Stream, sourceId: SourceId, first: nat, offered: nat, nth: nat) {
    forall k :: 0 <= k < |batch| ==>
      Carries(batch[k], stream, sourceId, first + k, nth != 0 && (offered + k + 1) % nth == 0)
  }

  function BuildBatch(stream: Stream, sourceId: SourceId, first: nat, limit: nat, offered: nat, corruptEvery: nat): (batch: seq<Segment>)
    ensures |batch| == BatchSize(|stream.frames|, first, limit)
    ensures BatchCarries(batch, stream, sourceId, first, offered, corruptEvery)
  {
    hide Carries;
    var size := BatchSize(|stream.frames|, first, limit);
    var batch := seq(size, k requires 0 <= k < size => BuildSegment(stream, sourceId, first + k, Corrupted(offered + k + 1, corruptEvery)));
    assert forall k :: 0 <= k < size ==> batch[k] == BuildSegment(stream, sourceId, first + k, Corrupted(offered + k + 1, corruptEvery));
    batch
  }

  // ---- The steps of the server's thread ----

  function Requested(c: Client, sourceId: SourceId, frameCount: Size, requestId: nat, hasShmInfo: bool): Client {
    c.(needDataLog := c.needDataLog + [NeedDataRecord(sourceId, frameCount, requestId, hasShmInfo)],
       overlappingNeedData := c.overlappingNeedData || sourceId in c.pendingNeedData,
       pendingNeedData := c.pendingNeedData + {sourceId})
  }

  /** The first lock section: record the request and build the batch. */
  function OnNeedData(sys: System, sourceId: SourceId, frameCount: Size, requestId: nat, hasShmInfo: bool): System {
    var c := Requested(sys.client, sourceId, frameCount, requestId, hasShmInfo);
    if !c.hasPipeline || sourceId !in c.feeds then sys.(client := c)
    else
      var feed := c.feeds[sourceId];
      var batch := BuildBatch(feed.stream, sourceId, feed.nextFrame, OfferLimit(frameCount, c.oversupply), c.segmentsOffered, c.corruptEvery);
      var round :=
        if c.withhold then Idle
        else if c.starve then Starving(sourceId, requestId)
        else Offering(sourceId, requestId, feed.nextFrame, batch, 0, false);
      sys.(client := c.(segmentsOffered := c.segmentsOffered + |batch|), round := round)
  }

  /** The lock section behind an accepted segment. */
  function Accept(c: Client, sourceId: SourceId, frame: nat): Client {
    var resent := sourceId in c.noSpaceFrame && c.noSpaceFrame[sourceId] == frame;
    c.(addOk := c.addOk + 1,
       noSpaceSegmentAccepted := c.noSpaceSegmentAccepted || resent,
       noSpaceFrame := if resent then c.noSpaceFrame - {sourceId} else c.noSpaceFrame)
  }

  /** The lock section behind a rejected segment. */
  function Reject(c: Client, sourceId: SourceId, frame: nat, status: Status): Client {
    c.(allSegmentsAccepted := false,
       addNoSpace := if status == NoSpace then c.addNoSpace + 1 else c.addNoSpace,
       addError := if status == NoSpace then c.addError else c.addError + 1,
       noSpaceFrame := if status == NoSpace then c.noSpaceFrame[sourceId := frame] else c.noSpaceFrame)
  }

  /** One `addSegment` and the bookkeeping of its status. */
  function OnOffer(sys: System, status: Status): System
    requires Enabled(sys, Offer(status))
  {
    var r := sys.round;
    var frame := r.first + r.accepted;
    var call := AddSegment(r.sourceId, r.requestId, frame, r.batch[r.accepted], status);
    if status == Ok then
      System(Accept(sys.client, r.sourceId, frame), r.(accepted := r.accepted + 1), sys.trace + [call])
    else
      System(Reject(sys.client, r.sourceId, frame, status), r.(stopped := true), sys.trace + [call])
  }

  /** The last lock section: move the cursor past what was accepted. */
  function OnAdvance(sys: System): System
    requires Enabled(sys, Advance)
  {
    var r, c := sys.round, sys.client;
    var settled := c.(pendingNeedData := c.pendingNeedData - {r.sourceId});
    if r.sourceId in c.feeds then
      var feed := c.feeds[r.sourceId];
      var next := feed.nextFrame + r.accepted;
      var answer := if next >= |feed.stream.frames| then SourceEos else SourceOk;
      sys.(client := settled.(feeds := c.feeds[r.sourceId := feed.(nextFrame := next)]),
           round := Answering(r.sourceId, r.requestId, answer))
    else sys.(client := settled, round := Answering(r.sourceId, r.requestId, SourceOk))
  }

  function OnEndStarved(sys: System): System
    requires Enabled(sys, EndStarved)
  {
    var r, c := sys.round, sys.client;
    sys.(client := c.(pendingNeedData := c.pendingNeedData - {r.sourceId}), round := Answering(r.sourceId, r.requestId, SourceOk))
  }

  /** `haveData` */
  function OnAnswer(sys: System): System
    requires Enabled(sys, Answer)
  {
    sys.(round := Idle, trace := sys.trace + [HaveData(sys.round.sourceId, sys.round.requestId, sys.round.answer)])
  }

  function OnCancel(c: Client, sourceId: SourceId): Client {
    c.(cancelCount := c.cancelCount + 1, cancelledSources := c.cancelledSources + {sourceId},
       pendingNeedData := c.pendingNeedData - {sourceId})
  }

  // ---- The steps of the main thread ----

  function OnMain(c: Client, step: Step): Client
    requires MainStep(step)
  {
    match step
    case SetPipeline => c.(hasPipeline := true)
    case AddSource(s, stream) => c.(feeds := c.feeds[s := SourceFeed(stream, 0)])
    case Rewind(s) => if s in c.feeds then c.(feeds := c.feeds[s := c.feeds[s].(nextFrame := 0)]) else c
    case SetOversupply(multiple) => c.(oversupply := if multiple == 0 then 1 else multiple)
    case SetWithhold(on) => c.(withhold := on)
    case SetStarve(on) => c.(starve := on)
    case SetCorruptEvery(nth) => c.(corruptEvery := nth)
  }

  function Apply(sys: System, step: Step): System
    requires Enabled(sys, step)
  {
    match step
    case NeedData(s, frameCount, id, shm) => OnNeedData(sys, s, frameCount, id, shm)
    case Offer(status) => OnOffer(sys, status)
    case Advance => OnAdvance(sys)
    case EndStarved => OnEndStarved(sys)
    case Answer => OnAnswer(sys)
    case CancelNeedData(s) => sys.(client := OnCancel(sys.client, s))
    case _ => sys.(client := OnMain(sys.client, step))
  }

  // ---- Runs ----

  ghost predicate LegalFrom(sys: System, steps: seq<Step>)
    decreases |steps|, 0
  {
    steps == [] ||
    (LegalFrom(sys, steps[..|steps| - 1]) && Enabled(From(sys, steps[..|steps| - 1]), steps[|steps| - 1]))
  }

  ghost function From(sys: System, steps: seq<Step>): System
    requires LegalFrom(sys, steps)
    decreases |steps|, 1
  {
    if steps == [] then sys else Apply(From(sys, steps[..|steps| - 1]), steps[|steps| - 1])
  }

  /** A run of the feed from the client's construction. */
  ghost predicate Legal(steps: seq<Step>) {
    LegalFrom(INIT, steps)
  }

  ghost function After(steps: seq<Step>): System
    requires Legal(steps)
  {
    From(INIT, steps)
  }

  lemma {:induction false} FromAppend(sys: System, a: seq<Step>, b: seq<Step>)
    requires LegalFrom(sys, a) && LegalFrom(From(sys, a), b)
    ensures LegalFrom(sys, a + b) && From(sys, a + b) == From(From(sys, a), b)
  {
    if b == [] {
      assert a + b == a;
    } else {
      FromAppend(sys, a, b[..|b| - 1]);
      assert (a + b)[..|a + b| - 1] == a + b[..|b| - 1];
    }
  }

  lemma RunNone(sys: System)
    ensures LegalFrom(sys, []) && From(sys, []) == sys
  {
  }

  lemma RunOne(sys: System, steps: seq<Step>, step: Step)
    requires LegalFrom(sys, steps) && Enabled(From(sys, steps), step)
    ensures LegalFrom(sys, steps + [step]) && From(sys, steps + [step]) == Apply(From(sys, steps), step)
  {
    assert (steps + [step])[..|steps|] == steps;
  }

  /** One step in front of a run. */
  lemma RunAfter(sys: System, step: Step, steps: seq<Step>)
    requires Enabled(sys, step) && LegalFrom(Apply(sys, step), steps)
    ensures LegalFrom(sys, [step] + steps) && From(sys, [step] + steps) == From(Apply(sys, step), steps)
  {
    hide Apply;
    RunNone(sys);
    RunOne(sys, [], step);
    assert [] + [step] == [step];
    FromAppend(sys, [step], steps);
  }

  // ---- Discipline of the main thread ----

  /** Each source is registered at most once. */
  ghost predicate RegisteredOnce(steps: seq<Step>) {
    forall i, j :: 0 <= i < j < |steps| && steps[i].AddSource? && steps[j].AddSource? ==> steps[i].sourceId != steps[j].sourceId
  }

  ghost predicate NoRewind(steps: seq<Step>) {
    forall i :: 0 <= i < |steps| ==> !steps[i].Rewind?
  }
}
