/** In-order delivery without rewinds, and the retain-and-resend contract of NO_SPACE. */
module FeedRetention {
  import opened MediaStream
  import opened FeedMachine
  import opened FeedSafety

  // ---- In-order, exactly-once delivery ----

  function UpTo(n: nat): (s: seq<nat>)
    ensures |s| == n && forall i :: 0 <= i < n ==> s[i] == i
  {
    seq(n, i => i)
  }

  /** Frames of `s` accepted in the round in flight and not yet counted by the cursor. */
  function InFlight(round: Round, s: SourceId): nat {
    if round.Offering? && round.sourceId == s then round.accepted else 0
  }

  /** The position the next frame of `s` is offered from. */
  function Position(sys: System, s: SourceId): nat {
    (if s in sys.client.feeds then sys.client.feeds[s].nextFrame else 0) + InFlight(sys.round, s)
  }

  /** Without rewinds: what was accepted is exactly the stream up to the position. */
  ghost predicate InOrder(sys: System, s: SourceId) {
    && AcceptedFrames(sys.trace, s) == UpTo(Position(sys, s))
    && (sys.round.Offering? && sys.round.sourceId == s ==>
          s in sys.client.feeds && sys.round.first == sys.client.feeds[s].nextFrame)
    && (s !in sys.client.feeds ==> Position(sys, s) == 0)
  }

  lemma InOrderOffer(sys: System, status: Status, s: SourceId)
    requires InOrder(sys, s) && Enabled(sys, Offer(status))
    ensures InOrder(OnOffer(sys, status), s)
  {
    hide AcceptedFrames;
    hide Accept;
    hide Reject;
    var r := sys.round;
    BookkeepingKeepsFeeds(sys.client, r.sourceId, r.first + r.accepted, status);
    TraceGrows(sys.trace, AddSegment(r.sourceId, r.requestId, r.first + r.accepted, r.batch[r.accepted], status), s);
  }

  lemma InOrderStep(sys: System, step: Step, s: SourceId)
    requires InOrder(sys, s) && Enabled(sys, step) && FreshSource(sys, step) && !step.Rewind?
    ensures InOrder(Apply(sys, step), s)
  {
    hide AcceptedFrames;
    hide OnOffer;
    hide BuildBatch;
    match step
    case Offer(status) => InOrderOffer(sys, status, s);
    case Answer => TraceGrows(sys.trace, HaveData(sys.round.sourceId, sys.round.requestId, sys.round.answer), s);
    case NeedData(_, _, _, _) =>
    case Advance =>
    case _ =>
  }

  lemma InitInOrder(s: SourceId)
    ensures InOrder(INIT, s)
  {
  }

  lemma {:induction false} RunsAreInOrder(steps: seq<Step>, s: SourceId)
    requires Legal(steps) && RegisteredOnce(steps) && NoRewind(steps)
    ensures InOrder(After(steps), s)
  {
    hide InOrder;
    if steps == [] {
      InitInOrder(s);
    } else {
      LastIsFresh(steps);
      RunsAreInOrder(steps[..|steps| - 1], s);
      InOrderStep(After(steps[..|steps| - 1]), steps[|steps| - 1], s);
    }
  }

  // ---- Rewinding ----

  lemma PositionOffer(sys: System, status: Status, s: SourceId)
    requires Enabled(sys, Offer(status)) && s in sys.client.feeds
    ensures var next := OnOffer(sys, status);
            s in next.client.feeds
            && Position(next, s) + |AcceptedFrames(sys.trace, s)| == Position(sys, s) + |AcceptedFrames(next.trace, s)|
  {
    hide AcceptedFrames;
    hide Accept;
    hide Reject;
    var r := sys.round;
    BookkeepingKeepsFeeds(sys.client, r.sourceId, r.first + r.accepted, status);
    TraceGrows(sys.trace, AddSegment(r.sourceId, r.requestId, r.first + r.accepted, r.batch[r.accepted], status), s);
  }

  lemma PositionAdvance(sys: System, s: SourceId)
    requires Enabled(sys, Advance) && s in sys.client.feeds
    ensures var next := OnAdvance(sys);
            s in next.client.feeds && Position(next, s) == Position(sys, s) && next.trace == sys.trace
  {
  }

  lemma PositionStep(sys: System, step: Step, s: SourceId)
    requires Enabled(sys, step) && s in sys.client.feeds
    requires !(step.Rewind? && step.sourceId == s) && !(step.AddSource? && step.sourceId == s)
    ensures s in Apply(sys, step).client.feeds
    ensures Position(Apply(sys, step), s) + |AcceptedFrames(sys.trace, s)|
         == Position(sys, s) + |AcceptedFrames(Apply(sys, step).trace, s)|
  {
    hide AcceptedFrames;
    hide OnOffer;
    hide OnAdvance;
    hide BuildBatch;
    match step
    case Offer(status) => PositionOffer(sys, status, s);
    case Advance => PositionAdvance(sys, s);
    case Answer => TraceGrows(sys.trace, HaveData(sys.round.sourceId, sys.round.requestId, sys.round.answer), s);
    case NeedData(_, _, _, _) =>
    case _ =>
  }

  /** The position moves by exactly the frames accepted, as long as `s` is not rewound or registered. */
  lemma {:induction false} PositionCountsAccepted(sys: System, steps: seq<Step>, s: SourceId)
    requires LegalFrom(sys, steps) && s in sys.client.feeds
    requires forall i :: 0 <= i < |steps| && (steps[i].Rewind? || steps[i].AddSource?) ==> steps[i].sourceId != s
    ensures s in From(sys, steps).client.feeds
    ensures Position(From(sys, steps), s) + |AcceptedFrames(sys.trace, s)|
         == Position(sys, s) + |AcceptedFrames(From(sys, steps).trace, s)|
  {
    hide AcceptedFrames;
    hide Apply;
    if steps != [] {
      PositionCountsAccepted(sys, steps[..|steps| - 1], s);
      PositionStep(From(sys, steps[..|steps| - 1]), steps[|steps| - 1], s);
    }
  }

  /** The round in flight has accepted, or may still accept, a frame of `s`. */
  predicate RoundMayAdvance(round: Round, s: SourceId) {
    round.Offering? && round.sourceId == s && (round.accepted > 0 || (!round.stopped && |round.batch| > 0))
  }

  /** No further request, rewind or registration of `s`; everything else may happen. */
  ghost predicate BeforeNextRequest(steps: seq<Step>, s: SourceId) {
    forall i :: 0 <= i < |steps| && (steps[i].NeedData? || steps[i].Rewind? || steps[i].AddSource?) ==> steps[i].sourceId != s
  }

  ghost predicate AtFirstFrame(sys: System, s: SourceId) {
    s in sys.client.feeds && sys.client.feeds[s].nextFrame == 0
  }

  /** Whatever happens until the server may request `s` again, that request finds the cursor at frame 0. */
  ghost predicate NextRequestStartsOver(sys: System, s: SourceId) {
    forall steps :: LegalFrom(sys, steps) && BeforeNextRequest(steps, s) && From(sys, steps).round.Idle? ==>
      AtFirstFrame(From(sys, steps), s)
  }

  /** The cursor is at frame 0 and the round in flight will not move it. */
  ghost predicate StaysAtFirst(sys: System, s: SourceId) {
    AtFirstFrame(sys, s) && !RoundMayAdvance(sys.round, s)
  }

  lemma StaysAtFirstStep(sys: System, step: Step, s: SourceId)
    requires StaysAtFirst(sys, s) && Enabled(sys, step) && BeforeNextRequest([step], s)
    ensures StaysAtFirst(Apply(sys, step), s)
  {
    hide BuildBatch;
    hide Accept;
    hide Reject;
    assert [step][0] == step;
    if step.Offer? {
      BookkeepingKeepsFeeds(sys.client, sys.round.sourceId, sys.round.first + sys.round.accepted, step.status);
    }
  }

  lemma {:induction false} StaysAtFirstRun(sys: System, steps: seq<Step>, s: SourceId)
    requires StaysAtFirst(sys, s) && LegalFrom(sys, steps) && BeforeNextRequest(steps, s)
    ensures StaysAtFirst(From(sys, steps), s)
  {
    hide StaysAtFirst;
    hide Apply;
    if steps != [] {
      StaysAtFirstRun(sys, steps[..|steps| - 1], s);
      StaysAtFirstStep(From(sys, steps[..|steps| - 1]), steps[|steps| - 1], s);
    }
  }

  /** The shortest way a round in flight that may advance ends with a frame counted. */
  function WayPast(round: Round): seq<Step>
    requires round.Offering?
  {
    if round.stopped || round.accepted >= |round.batch| then [Advance, Answer]
    else if round.accepted > 0 then [Offer(Error), Advance, Answer]
    else if |round.batch| == 1 then [Offer(Ok), Advance, Answer]
    else [Offer(Ok), Offer(Error), Advance, Answer]
  }

  /** A round of `s` in flight, `accepted` frames far. */
  ghost predicate OfferingFar(sys: System, s: SourceId, accepted: nat, stopped: bool) {
    && s in sys.client.feeds
    && sys.round.Offering? && sys.round.sourceId == s && sys.round.accepted == accepted && sys.round.stopped == stopped
  }

  lemma OneOffer(sys: System, s: SourceId, accepted: nat, status: Status)
    requires OfferingFar(sys, s, accepted, false) && accepted < |sys.round.batch|
    ensures Enabled(sys, Offer(status))
    ensures var next := Apply(sys, Offer(status));
            OfferingFar(next, s, if status == Ok then accepted + 1 else accepted, status != Ok)
            && next.round.batch == sys.round.batch
  {
    hide Accept;
    hide Reject;
    BookkeepingKeepsFeeds(sys.client, s, sys.round.first + accepted, status);
  }

  lemma FinishFar(sys: System, s: SourceId, accepted: nat, stopped: bool)
    requires OfferingFar(sys, s, accepted, stopped) && accepted > 0 && (stopped || accepted >= |sys.round.batch|)
    ensures LegalFrom(sys, [Advance, Answer]) && From(sys, [Advance, Answer]).round.Idle?
    ensures !AtFirstFrame(From(sys, [Advance, Answer]), s)
  {
    hide From;
    hide LegalFrom;
    RunNone(sys);
    RunOne(sys, [], Advance);
    assert [] + [Advance] == [Advance];
    RunOne(sys, [Advance], Answer);
    assert [Advance] + [Answer] == [Advance, Answer];
  }

  lemma WayPastMoves(sys: System, s: SourceId)
    requires s in sys.client.feeds && RoundMayAdvance(sys.round, s)
    ensures LegalFrom(sys, WayPast(sys.round)) && From(sys, WayPast(sys.round)).round.Idle?
    ensures !AtFirstFrame(From(sys, WayPast(sys.round)), s)
  {
    hide From;
    hide LegalFrom;
    hide Apply;
    hide AtFirstFrame;
    var r := sys.round;
    var end: seq<Step> := [Advance, Answer];
    if r.stopped || r.accepted >= |r.batch| {
      FinishFar(sys, s, r.accepted, r.stopped);
    } else if r.accepted > 0 {
      OneOffer(sys, s, r.accepted, Error);
      FinishFar(Apply(sys, Offer(Error)), s, r.accepted, true);
      RunAfter(sys, Offer(Error), end);
      assert [Offer(Error)] + end == WayPast(r);
    } else {
      OneOffer(sys, s, 0, Ok);
      var next := Apply(sys, Offer(Ok));
      if |r.batch| == 1 {
        FinishFar(next, s, 1, false);
        RunAfter(sys, Offer(Ok), end);
        assert [Offer(Ok)] + end == WayPast(r);
      } else {
        OneOffer(next, s, 1, Error);
        FinishFar(Apply(next, Offer(Error)), s, 1, true);
        RunAfter(next, Offer(Error), end);
        RunAfter(sys, Offer(Ok), [Offer(Error)] + end);
        assert [Offer(Ok)] + ([Offer(Error)] + end) == WayPast(r);
      }
    }
  }

  /**
   When a rewind restarts the stream: the next request is sure to start over at frame 0 if and
   only if, at the time of the call, no round in flight has accepted or may still accept a frame
   of the source. Otherwise that round may move the cursor after the rewind has reset it.
   */
  lemma RewindRestartsIff(sys: System, s: SourceId)
    requires s in sys.client.feeds
    ensures NextRequestStartsOver(Apply(sys, Rewind(s)), s) <==> !RoundMayAdvance(sys.round, s)
  {
    hide From;
    hide LegalFrom;
    var rewound := Apply(sys, Rewind(s));
    if RoundMayAdvance(sys.round, s) {
      WayPastMoves(rewound, s);
      var steps := WayPast(rewound.round);
      assert BeforeNextRequest(steps, s);
    } else {
      forall steps | LegalFrom(rewound, steps) && BeforeNextRequest(steps, s) ensures AtFirstFrame(From(rewound, steps), s) {
        StaysAtFirstRun(rewound, steps, s);
      }
    }
  }

  /** One source with three frames, a request for two, and a rewind between its two offers. */
  function RewindInFlight(stream: Stream): seq<Step> {
    [SetPipeline, AddSource(0, stream), NeedData(0, 2, 0, true), Offer(Ok), Rewind(0), Offer(Ok), Advance, Answer]
  }

  lemma AfterRequest(stream: Stream)
    requires |stream.frames| == 3
    ensures var sys := OnNeedData(INIT.(client := OnMain(OnMain(INIT.client, SetPipeline), AddSource(0, stream))), 0, 2, 0, true);
            OfferingTwo(sys, 0, SourceFeed(stream, 0))
  {
  }

  /** A batch of two for source 0, offered up to `accepted`. */
  ghost predicate OfferingTwo(sys: System, accepted: nat, feed: SourceFeed) {
    && sys.round.Offering? && sys.round.sourceId == 0 && sys.round.first == 0 && sys.round.accepted == accepted
    && |sys.round.batch| == 2 && !sys.round.stopped && sys.client.feeds == map[0 := feed]
  }

  lemma OfferOne(sys: System, accepted: nat, feed: SourceFeed)
    requires OfferingTwo(sys, accepted, feed) && accepted < 2
    ensures Enabled(sys, Offer(Ok)) && OfferingTwo(Apply(sys, Offer(Ok)), accepted + 1, feed)
  {
    hide Accept;
    BookkeepingKeepsFeeds(sys.client, 0, accepted, Ok);
  }

  lemma RewindOne(sys: System, accepted: nat, feed: SourceFeed)
    requires OfferingTwo(sys, accepted, feed)
    ensures OfferingTwo(Apply(sys, Rewind(0)), accepted, SourceFeed(feed.stream, 0))
  {
  }

  lemma FinishTwo(sys: System, feed: SourceFeed)
    requires OfferingTwo(sys, 2, feed)
    ensures Enabled(sys, Advance) && Enabled(OnAdvance(sys), Answer)
    ensures OnAnswer(OnAdvance(sys)).round.Idle?
    ensures OnAnswer(OnAdvance(sys)).client.feeds == map[0 := SourceFeed(feed.stream, feed.nextFrame + 2)]
  {
  }

  /** Two accepted offers with a rewind in between leave the cursor at 2. */
  lemma TwoOffers(sys: System, stream: Stream)
    requires OfferingTwo(sys, 0, SourceFeed(stream, 0))
    ensures LegalFrom(sys, [Offer(Ok), Rewind(0), Offer(Ok), Advance, Answer])
    ensures var end := From(sys, [Offer(Ok), Rewind(0), Offer(Ok), Advance, Answer]);
            end.round.Idle? && end.client.feeds == map[0 := SourceFeed(stream, 2)]
  {
    hide OnOffer;
    hide OnAdvance;
    hide OnAnswer;
    hide OnMain;
    hide OfferingTwo;
    hide From;
    hide LegalFrom;
    var feed := SourceFeed(stream, 0);
    RunNone(sys);
    OfferOne(sys, 0, feed);
    RunOne(sys, [], Offer(Ok));
    assert [] + [Offer(Ok)] == [Offer(Ok)];
    RewindOne(From(sys, [Offer(Ok)]), 1, feed);
    RunOne(sys, [Offer(Ok)], Rewind(0));
    assert [Offer(Ok)] + [Rewind(0)] == [Offer(Ok), Rewind(0)];
    OfferOne(From(sys, [Offer(Ok), Rewind(0)]), 1, feed);
    RunOne(sys, [Offer(Ok), Rewind(0)], Offer(Ok));
    assert [Offer(Ok), Rewind(0)] + [Offer(Ok)] == [Offer(Ok), Rewind(0), Offer(Ok)];
    FinishTwo(From(sys, [Offer(Ok), Rewind(0), Offer(Ok)]), feed);
    RunOne(sys, [Offer(Ok), Rewind(0), Offer(Ok)], Advance);
    assert [Offer(Ok), Rewind(0), Offer(Ok)] + [Advance] == [Offer(Ok), Rewind(0), Offer(Ok), Advance];
    RunOne(sys, [Offer(Ok), Rewind(0), Offer(Ok), Advance], Answer);
    assert [Offer(Ok), Rewind(0), Offer(Ok), Advance] + [Answer] == [Offer(Ok), Rewind(0), Offer(Ok), Advance, Answer];
  }

  /** A rewind between the two offers of a round: the next request goes on at frame 2, not 0. */
  lemma RewindInFlightSkips(stream: Stream)
    requires |stream.frames| == 3
    ensures Legal(RewindInFlight(stream)) && After(RewindInFlight(stream)).round.Idle?
    ensures After(RewindInFlight(stream)).client.feeds == map[0 := SourceFeed(stream, 2)]
  {
    hide OnNeedData;
    hide From;
    hide LegalFrom;
    var a: seq<Step> := [SetPipeline, AddSource(0, stream), NeedData(0, 2, 0, true)];
    var b: seq<Step> := [Offer(Ok), Rewind(0), Offer(Ok), Advance, Answer];
    FirstThree(stream);
    AfterRequest(stream);
    TwoOffers(From(INIT, a), stream);
    FromAppend(INIT, a, b);
    assert a + b == RewindInFlight(stream);
  }

  lemma FirstThree(stream: Stream)
    ensures LegalFrom(INIT, [SetPipeline, AddSource(0, stream), NeedData(0, 2, 0, true)])
    ensures From(INIT, [SetPipeline, AddSource(0, stream), NeedData(0, 2, 0, true)])
         == OnNeedData(INIT.(client := OnMain(OnMain(INIT.client, SetPipeline), AddSource(0, stream))), 0, 2, 0, true)
  {
    hide OnNeedData;
    var two: seq<Step> := [SetPipeline, AddSource(0, stream)];
    assert LegalFrom(INIT, []) && From(INIT, []) == INIT;
    RunOne(INIT, [], SetPipeline);
    assert [] + [SetPipeline] == [SetPipeline];
    RunOne(INIT, [SetPipeline], AddSource(0, stream));
    assert [SetPipeline] + [AddSource(0, stream)] == two;
    RunOne(INIT, two, NeedData(0, 2, 0, true));
    assert two + [NeedData(0, 2, 0, true)] == [SetPipeline, AddSource(0, stream), NeedData(0, 2, 0, true)];
  }

  // ---- The bytes delivered ----

  ghost predicate NoCorruption(steps: seq<Step>) {
    forall i :: 0 <= i < |steps| && steps[i].SetCorruptEvery? ==> steps[i].nth == 0
  }

  /** The segments are clean copies of the frames at the given positions. */
  ghost predicate CleanAt(segments: seq<Segment>, stream: Stream, s: SourceId, frames: seq<nat>) {
    |segments| == |frames| &&
    forall i :: 0 <= i < |frames| ==> IsClean(segments[i], stream, s, frames[i])
  }

  predicate IsClean(segment: Segment, stream: Stream, s: SourceId, frame: nat) {
    Carries(segment, stream, s, frame, false)
  }

  function Consecutive(first: nat, n: nat): (frames: seq<nat>)
    ensures |frames| == n && forall k :: 0 <= k < n ==> frames[k] == first + k
  {
    seq(n, k => first + k)
  }

  /** Everything accepted, and the batch in flight, is clean. */
  ghost predicate CleanSegments(sys: System, s: SourceId) {
    && sys.client.corruptEvery == 0
    && (s !in sys.client.feeds ==> AcceptedFrames(sys.trace, s) == [])
    && (s in sys.client.feeds ==>
          CleanAt(AcceptedSegments(sys.trace, s), sys.client.feeds[s].stream, s, AcceptedFrames(sys.trace, s)))
    && (sys.round.Offering? && sys.round.sourceId == s ==>
          && s in sys.client.feeds
          && CleanAt(sys.round.batch, sys.client.feeds[s].stream, s, Consecutive(sys.round.first, |sys.round.batch|)))
    && |AcceptedSegments(sys.trace, s)| == |AcceptedFrames(sys.trace, s)|
  }

  lemma CleanBatch(stream: Stream, s: SourceId, first: nat, limit: nat, offered: nat)
    ensures var batch := BuildBatch(stream, s, first, limit, offered, 0);
            CleanAt(batch, stream, s, Consecutive(first, |batch|))
  {
    hide Carries;
  }

  lemma CleanSegmentsOffer(sys: System, status: Status, s: SourceId)
    requires CleanSegments(sys, s) && Enabled(sys, Offer(status))
    ensures CleanSegments(OnOffer(sys, status), s)
  {
    hide AcceptedFrames;
    hide AcceptedSegments;
    hide IsClean;
    hide Accept;
    hide Reject;
    var r := sys.round;
    var call := AddSegment(r.sourceId, r.requestId, r.first + r.accepted, r.batch[r.accepted], status);
    BookkeepingKeepsFeeds(sys.client, r.sourceId, r.first + r.accepted, status);
    TraceGrows(sys.trace, call, s);
  }

  lemma CleanSegmentsStep(sys: System, step: Step, s: SourceId)
    requires CleanSegments(sys, s) && Enabled(sys, step) && FreshSource(sys, step)
    requires step.SetCorruptEvery? ==> step.nth == 0
    ensures CleanSegments(Apply(sys, step), s)
  {
    hide AcceptedFrames;
    hide AcceptedSegments;
    hide BuildBatch;
    hide IsClean;
    match step
    case NeedData(t, frameCount, _, _) =>
      if t in sys.client.feeds {
        var feed := sys.client.feeds[t];
        CleanBatch(feed.stream, t, feed.nextFrame, OfferLimit(frameCount, sys.client.oversupply), sys.client.segmentsOffered);
      }
    case Offer(status) => CleanSegmentsOffer(sys, status, s);
    case Answer => TraceGrows(sys.trace, HaveData(sys.round.sourceId, sys.round.requestId, sys.round.answer), s);
    case Advance =>
    case _ =>
  }

  lemma InitClean(s: SourceId)
    ensures CleanSegments(INIT, s)
  {
  }

  lemma {:induction false} RunsAreClean(steps: seq<Step>, s: SourceId)
    requires Legal(steps) && RegisteredOnce(steps) && NoCorruption(steps)
    ensures CleanSegments(After(steps), s)
  {
    hide CleanSegments;
    if steps == [] {
      InitClean(s);
    } else {
      LastIsFresh(steps);
      RunsAreClean(steps[..|steps| - 1], s);
      CleanSegmentsStep(After(steps[..|steps| - 1]), steps[|steps| - 1], s);
    }
  }

  lemma CleanIsFrame(segment: Segment, stream: Stream, s: SourceId, i: nat)
    requires Carries(segment, stream, s, i, false)
    ensures i < |stream.frames|
    ensures segment == Segment(sourceId := s, timeStamp := stream.frames[i].timeStamp, duration := stream.frames[i].duration,
                               sampleRate := stream.sampleRate, channels := stream.channels, data := stream.frames[i].data)
  {
  }

  /**
   In-order exactly-once delivery: between rounds, whatever mix of statuses, oversupply, starve
   and withhold the run saw, the accepted segments are the stream's first `nextFrame` frames.
   */
  lemma DeliveredExactlyOnceInOrder(steps: seq<Step>, s: SourceId)
    requires Legal(steps) && RegisteredOnce(steps) && NoRewind(steps) && NoCorruption(steps)
    requires s in After(steps).client.feeds && !After(steps).round.Offering?
    ensures var feed := After(steps).client.feeds[s];
            && feed.nextFrame <= |feed.stream.frames|
            && |AcceptedSegments(After(steps).trace, s)| == feed.nextFrame
            && forall i :: 0 <= i < feed.nextFrame ==>
                 AcceptedSegments(After(steps).trace, s)[i]
                 == Segment(sourceId := s,
                            timeStamp := feed.stream.frames[i].timeStamp, duration := feed.stream.frames[i].duration,
                            sampleRate := feed.stream.sampleRate, channels := feed.stream.channels,
                            data := feed.stream.frames[i].data)
  {
    hide AcceptedFrames;
    hide AcceptedSegments;
    hide HighWater;
    hide Carries;
    RunsAreInOrder(steps, s);
    RunsAreClean(steps, s);
    RunsAreSafe(steps, s);
    var feed, segments := After(steps).client.feeds[s], AcceptedSegments(After(steps).trace, s);
    forall i | 0 <= i < feed.nextFrame
      ensures segments[i] == Segment(sourceId := s,
                                     timeStamp := feed.stream.frames[i].timeStamp, duration := feed.stream.frames[i].duration,
                                     sampleRate := feed.stream.sampleRate, channels := feed.stream.channels,
                                     data := feed.stream.frames[i].data)
    {
      assert IsClean(segments[i], feed.stream, s, i);
      CleanIsFrame(segments[i], feed.stream, s, i);
    }
  }

  // ---- Retention ----

  /** A retained frame is not yet passed by the cursor or the round in flight, and exists. */
  ghost predicate Retained(sys: System, s: SourceId) {
    var c, r := sys.client, sys.round;
    s in c.noSpaceFrame ==>
      && s in c.feeds
      && c.feeds[s].nextFrame <= c.noSpaceFrame[s] < FrameCount(c, s)
      && (r.Offering? && r.sourceId == s ==> r.first + r.accepted <= c.noSpaceFrame[s])
  }

  /** What the two bookkeeping sections do to the retained frame of a source. */
  lemma BookkeepingRetains(c: Client, s: SourceId, frame: nat, status: Status, t: SourceId)
    ensures t in Accept(c, s, frame).noSpaceFrame <==> t in c.noSpaceFrame && !(t == s && c.noSpaceFrame[t] == frame)
    ensures t in Accept(c, s, frame).noSpaceFrame ==> Accept(c, s, frame).noSpaceFrame[t] == c.noSpaceFrame[t]
    ensures t in Reject(c, s, frame, status).noSpaceFrame <==> t in c.noSpaceFrame || (t == s && status == NoSpace)
    ensures t in Reject(c, s, frame, status).noSpaceFrame ==>
              Reject(c, s, frame, status).noSpaceFrame[t] == if t == s && status == NoSpace then frame else c.noSpaceFrame[t]
  {
  }

  lemma RetainedOffer(sys: System, status: Status, s: SourceId)
    requires CursorSafe(sys, s) && Retained(sys, s) && Enabled(sys, Offer(status))
    ensures Retained(OnOffer(sys, status), s)
  {
    hide AcceptedPrefix;
    hide HighWater;
    hide Accept;
    hide Reject;
    var r := sys.round;
    BookkeepingKeepsFeeds(sys.client, r.sourceId, r.first + r.accepted, status);
    BookkeepingRetains(sys.client, r.sourceId, r.first + r.accepted, status, s);
  }

  lemma RetainedAdvance(sys: System, s: SourceId)
    requires CursorSafe(sys, s) && Retained(sys, s) && Enabled(sys, Advance)
    ensures Retained(OnAdvance(sys), s)
  {
    hide AcceptedPrefix;
    hide HighWater;
  }

  lemma RetainedStep(sys: System, step: Step, s: SourceId)
    requires CursorSafe(sys, s) && Retained(sys, s) && Enabled(sys, step) && FreshSource(sys, step)
    ensures Retained(Apply(sys, step), s)
  {
    hide CursorSafe;
    hide OnOffer;
    hide OnAdvance;
    hide BuildBatch;
    match step
    case Offer(status) => RetainedOffer(sys, status, s);
    case Advance => RetainedAdvance(sys, s);
    case NeedData(_, _, _, _) =>
    case _ =>
  }

  /** Retention over every run, even with rewinds. */
  lemma {:induction false} RetentionHolds(steps: seq<Step>, s: SourceId)
    requires Legal(steps) && RegisteredOnce(steps)
    ensures Retained(After(steps), s)
  {
    hide Retained;
    hide CursorSafe;
    if steps == [] {
      InitRetained(s);
    } else {
      var front := steps[..|steps| - 1];
      LastIsFresh(steps);
      RunsAreSafe(front, s);
      RetentionHolds(front, s);
      RetainedStep(After(front), steps[|steps| - 1], s);
    }
  }

  lemma InitRetained(s: SourceId)
    ensures Retained(INIT, s)
  {
  }

  /** Without rewinds the retained frame is the next one offered. */
  ghost predicate RetainedIsNext(sys: System, s: SourceId) {
    s in sys.client.noSpaceFrame ==> sys.client.noSpaceFrame[s] == Position(sys, s)
  }

  lemma RetainedIsNextOffer(sys: System, status: Status, s: SourceId)
    requires InOrder(sys, s) && RetainedIsNext(sys, s) && Retained(sys, s) && Enabled(sys, Offer(status))
    ensures RetainedIsNext(OnOffer(sys, status), s)
  {
    hide AcceptedFrames;
    hide Accept;
    hide Reject;
    var r := sys.round;
    BookkeepingKeepsFeeds(sys.client, r.sourceId, r.first + r.accepted, status);
    BookkeepingRetains(sys.client, r.sourceId, r.first + r.accepted, status, s);
  }

  lemma RetainedIsNextStep(sys: System, step: Step, s: SourceId)
    requires InOrder(sys, s) && RetainedIsNext(sys, s) && Enabled(sys, step) && FreshSource(sys, step) && !step.Rewind?
    requires Retained(sys, s)
    ensures RetainedIsNext(Apply(sys, step), s)
  {
    hide AcceptedFrames;
    hide OnOffer;
    hide BuildBatch;
    match step
    case Offer(status) => RetainedIsNextOffer(sys, status, s);
    case NeedData(_, _, _, _) =>
    case Advance =>
    case _ =>
  }

  lemma InitRetainedIsNext(s: SourceId)
    ensures RetainedIsNext(INIT, s)
  {
  }

  lemma {:induction false} RetainedIsNextHolds(steps: seq<Step>, s: SourceId)
    requires Legal(steps) && RegisteredOnce(steps) && NoRewind(steps)
    ensures RetainedIsNext(After(steps), s)
  {
    hide InOrder;
    hide Retained;
    hide RetainedIsNext;
    if steps == [] {
      InitRetainedIsNext(s);
    } else {
      var front := steps[..|steps| - 1];
      LastIsFresh(steps);
      RunsAreInOrder(front, s);
      RetentionHolds(front, s);
      RetainedIsNextHolds(front, s);
      RetainedIsNextStep(After(front), steps[|steps| - 1], s);
    }
  }

  // ---- The resend flag ----

  ghost predicate Sent(trace: seq<ServerCall>, i: nat, s: SourceId, frame: nat, status: Status) {
    i < |trace| && trace[i].AddSegment? && trace[i].sourceId == s && trace[i].frame == frame && trace[i].status == status
  }

  /** The frame was rejected for want of space at call `i` and accepted at the later call `j`. */
  ghost predicate Resent(trace: seq<ServerCall>, i: nat, j: nat, s: SourceId, frame: nat) {
    i < j && Sent(trace, i, s, frame, NoSpace) && Sent(trace, j, s, frame, Ok)
  }

  ghost predicate SomeResent(trace: seq<ServerCall>) {
    exists i: nat, j: nat, s: SourceId, frame: nat :: Resent(trace, i, j, s, frame)
  }

  /** The books behind the flag: what is retained was rejected, and until a resend nothing is forgotten. */
  ghost predicate FlagBooks(sys: System) {
    && (forall s :: s in sys.client.noSpaceFrame ==>
          exists i: nat :: Sent(sys.trace, i, s, sys.client.noSpaceFrame[s], NoSpace))
    && (!sys.client.noSpaceSegmentAccepted ==>
          forall i: nat, s: SourceId, frame: nat :: Sent(sys.trace, i, s, frame, NoSpace) ==>
            s in sys.client.noSpaceFrame && sys.client.noSpaceFrame[s] <= frame)
    && (sys.client.noSpaceSegmentAccepted <==> SomeResent(sys.trace))
  }

  lemma SentGrows(trace: seq<ServerCall>, call: ServerCall)
    ensures forall i: nat, s: SourceId, frame: nat, status: Status :: Sent(trace + [call], i, s, frame, status) <==>
              Sent(trace, i, s, frame, status) || (i == |trace| && Sent([call], 0, s, frame, status))
  {
  }

  lemma ResentGrows(trace: seq<ServerCall>, call: ServerCall)
    ensures SomeResent(trace + [call]) <==>
              SomeResent(trace) || exists i: nat, s: SourceId, frame: nat :: Sent(trace, i, s, frame, NoSpace) && Sent([call], 0, s, frame, Ok)
  {
    SentGrows(trace, call);
    var t := trace + [call];
    if SomeResent(trace) {
      var i: nat, j: nat, s: SourceId, frame: nat :| Resent(trace, i, j, s, frame);
      assert Resent(t, i, j, s, frame);
    }
    if i: nat, s: SourceId, frame: nat :| Sent(trace, i, s, frame, NoSpace) && Sent([call], 0, s, frame, Ok) {
      assert Resent(t, i, |trace|, s, frame);
    }
    if SomeResent(t) {
      var i: nat, j: nat, s: SourceId, frame: nat :| Resent(t, i, j, s, frame);
      assert j < |trace| ==> Resent(trace, i, j, s, frame);
    }
  }

  lemma FlagAccepts(sys: System)
    requires FlagBooks(sys) && Enabled(sys, Offer(Ok)) && Retained(sys, sys.round.sourceId)
    ensures FlagBooks(OnOffer(sys, Ok))
  {
    hide SomeResent;
    hide Sent;
    var c, s, frame := sys.client, sys.round.sourceId, sys.round.first + sys.round.accepted;
    var call := AddSegment(s, sys.round.requestId, frame, sys.round.batch[sys.round.accepted], Ok);
    SentGrows(sys.trace, call);
    ResentGrows(sys.trace, call);
    assert forall t: SourceId, f: nat :: !Sent([call], 0, t, f, NoSpace) && (Sent([call], 0, t, f, Ok) <==> t == s && f == frame) by {
      OnlySent(call);
    }
    var next := OnOffer(sys, Ok);
    if s in c.noSpaceFrame && c.noSpaceFrame[s] == frame {
      var i: nat :| Sent(sys.trace, i, s, frame, NoSpace);
      assert Sent(sys.trace, i, s, frame, NoSpace) && Sent([call], 0, s, frame, Ok);
    } else if !c.noSpaceSegmentAccepted {
      if exists i: nat :: Sent(sys.trace, i, s, frame, NoSpace) {
        assert false;
      }
    }
    assert next.trace == sys.trace + [call];
  }

  lemma OnlySent(call: ServerCall)
    requires call.AddSegment?
    ensures forall t: SourceId, f: nat, status: Status ::
              Sent([call], 0, t, f, status) <==> t == call.sourceId && f == call.frame && status == call.status
  {
  }

  lemma FlagRejects(sys: System, status: Status)
    requires FlagBooks(sys) && Enabled(sys, Offer(status)) && status != Ok && Retained(sys, sys.round.sourceId)
    ensures FlagBooks(OnOffer(sys, status))
  {
    hide SomeResent;
    hide Sent;
    var c, s, frame := sys.client, sys.round.sourceId, sys.round.first + sys.round.accepted;
    var call := AddSegment(s, sys.round.requestId, frame, sys.round.batch[sys.round.accepted], status);
    SentGrows(sys.trace, call);
    ResentGrows(sys.trace, call);
    OnlySent(call);
    var next := OnOffer(sys, status);
    assert next.trace == sys.trace + [call];
    if status == NoSpace {
      assert Sent(next.trace, |sys.trace|, s, frame, NoSpace);
    }
  }

  lemma FlagAnswers(sys: System)
    requires FlagBooks(sys) && Enabled(sys, Answer)
    ensures FlagBooks(OnAnswer(sys))
  {
    hide SomeResent;
    var call := HaveData(sys.round.sourceId, sys.round.requestId, sys.round.answer);
    SentGrows(sys.trace, call);
    ResentGrows(sys.trace, call);
  }

  /** Every step but an offer and an answer leaves trace, retained frames and flag alone. */
  lemma FlagUntouched(sys: System, step: Step)
    requires Enabled(sys, step) && !step.Offer? && !step.Answer?
    ensures var next := Apply(sys, step);
            && next.trace == sys.trace && next.client.noSpaceFrame == sys.client.noSpaceFrame
            && next.client.noSpaceSegmentAccepted == sys.client.noSpaceSegmentAccepted
  {
    hide BuildBatch;
    match step
    case NeedData(_, _, _, _) =>
    case Advance =>
    case _ =>
  }

  lemma FlagBooksStep(sys: System, step: Step)
    requires FlagBooks(sys) && Enabled(sys, step) && (sys.round.Offering? ==> Retained(sys, sys.round.sourceId))
    ensures FlagBooks(Apply(sys, step))
  {
    hide OnNeedData;
    hide OnOffer;
    hide OnAdvance;
    hide OnMain;
    hide SomeResent;
    hide Sent;
    match step
    case Offer(status) => if status == Ok { FlagAccepts(sys); } else { FlagRejects(sys, status); }
    case Answer => FlagAnswers(sys);
    case _ => FlagUntouched(sys, step);
  }

  lemma InitFlagBooks()
    ensures FlagBooks(INIT)
  {
  }

  lemma {:induction false} FlagBooksHold(steps: seq<Step>)
    requires Legal(steps) && RegisteredOnce(steps)
    ensures FlagBooks(After(steps))
  {
    hide FlagBooks;
    hide Retained;
    if steps == [] {
      InitFlagBooks();
    } else {
      var front := steps[..|steps| - 1];
      LastIsFresh(steps);
      FlagBooksHold(front);
      if After(front).round.Offering? {
        RetentionHolds(front, After(front).round.sourceId);
      }
      FlagBooksStep(After(front), steps[|steps| - 1]);
    }
  }

  /**
   `sawNoSpaceSegmentAccepted` holds exactly when some frame was rejected with NO_SPACE and the same
   frame was accepted later, over every run and even with rewinds.
   */
  lemma ResendFlagIff(steps: seq<Step>)
    requires Legal(steps) && RegisteredOnce(steps)
    ensures After(steps).client.noSpaceSegmentAccepted <==>
            exists i: nat, j: nat, s: SourceId, frame: nat :: Resent(After(steps).trace, i, j, s, frame)
  {
    FlagBooksHold(steps);
  }

  /** Some frame of `s` was rejected for want of space and some frame of `s` accepted later. */
  ghost predicate AcceptedAfterRejection(trace: seq<ServerCall>, s: SourceId) {
    exists i: nat, j: nat, f: nat, g: nat :: i < j && Sent(trace, i, s, f, NoSpace) && Sent(trace, j, s, g, Ok)
  }

  /** Without rewinds the very first acceptance after a rejection is the resend, and sets the flag. */
  lemma {:induction false} FirstAcceptanceIsResend(steps: seq<Step>, s: SourceId)
    requires Legal(steps) && RegisteredOnce(steps) && NoRewind(steps)
    requires AcceptedAfterRejection(After(steps).trace, s)
    ensures After(steps).client.noSpaceSegmentAccepted
  {
    hide Retained;
    hide CursorSafe;
    hide AcceptedFrames;
    var front, last := steps[..|steps| - 1], steps[|steps| - 1];
    LastIsFresh(steps);
    var before, sys := After(front), After(steps);
    TraceOneLonger(before, last);
    FlagGoesUp(before, last);
    if AcceptedAfterRejection(before.trace, s) {
      FirstAcceptanceIsResend(front, s);
    } else {
      var i: nat, j: nat, f: nat, g: nat :| i < j && Sent(sys.trace, i, s, f, NoSpace) && Sent(sys.trace, j, s, g, Ok);
      assert Sent(before.trace, i, s, f, NoSpace);
      assert j < |before.trace| ==> Sent(before.trace, j, s, g, Ok);
      FlagBooksHold(front);
      RunsAreInOrder(front, s);
      RetainedIsNextHolds(front, s);
    }
  }

  lemma FlagGoesUp(sys: System, step: Step)
    requires Enabled(sys, step)
    ensures sys.client.noSpaceSegmentAccepted ==> Apply(sys, step).client.noSpaceSegmentAccepted
  {
  }
}
