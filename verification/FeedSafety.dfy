/** What every run of the feed keeps, wherever the main thread's steps fall. */
module FeedSafety {
  import opened MediaStream
  import opened FeedMachine

  // ---- What the server accepted ----

  ghost predicate AcceptedCall(call: ServerCall, s: SourceId) {
    call.AddSegment? && call.sourceId == s && call.status == Ok
  }

  /** The stream positions of source `s` the server accepted, in order. */
  function AcceptedFrames(trace: seq<ServerCall>, s: SourceId): seq<nat> {
    if trace == [] then []
    else
      var front, call := AcceptedFrames(trace[..|trace| - 1], s), trace[|trace| - 1];
      if call.AddSegment? && call.sourceId == s && call.status == Ok then front + [call.frame] else front
  }

  /** The segments of source `s` the server accepted, in order. */
  function AcceptedSegments(trace: seq<ServerCall>, s: SourceId): seq<Segment> {
    if trace == [] then []
    else
      var front, call := AcceptedSegments(trace[..|trace| - 1], s), trace[|trace| - 1];
      if call.AddSegment? && call.sourceId == s && call.status == Ok then front + [call.segment] else front
  }

  /** One more than the furthest position accepted. */
  function HighWater(trace: seq<ServerCall>, s: SourceId): nat {
    if trace == [] then 0
    else
      var front, call := HighWater(trace[..|trace| - 1], s), trace[|trace| - 1];
      if call.AddSegment? && call.sourceId == s && call.status == Ok && call.frame >= front then call.frame + 1 else front
  }

  lemma TraceGrows(trace: seq<ServerCall>, call: ServerCall, s: SourceId)
    ensures AcceptedFrames(trace + [call], s)
            == AcceptedFrames(trace, s) + if AcceptedCall(call, s) then [call.frame] else []
    ensures AcceptedSegments(trace + [call], s)
            == AcceptedSegments(trace, s) + if AcceptedCall(call, s) then [call.segment] else []
    ensures HighWater(trace + [call], s)
            == if AcceptedCall(call, s) && call.frame >= HighWater(trace, s) then call.frame + 1 else HighWater(trace, s)
  {
    assert (trace + [call])[..|trace|] == trace;
  }

  /** The accepted positions are exactly 0 up to the high-water mark. */
  ghost predicate AcceptedPrefix(trace: seq<ServerCall>, s: SourceId) {
    forall i: nat :: i in AcceptedFrames(trace, s) <==> i < HighWater(trace, s)
  }

  // ---- Safety of one source under interleaving ----

  function FrameCount(c: Client, s: SourceId): nat
    requires s in c.feeds
  {
    |c.feeds[s].stream.frames|
  }

  /** The cursor, the marks and the round in flight of source `s` fit together. */
  ghost predicate CursorSafe(sys: System, s: SourceId) {
    var c, r, high := sys.client, sys.round, HighWater(sys.trace, s);
    && AcceptedPrefix(sys.trace, s)
    && (s in c.feeds ==> c.feeds[s].nextFrame <= high <= FrameCount(c, s))
    && (s !in c.feeds ==> high == 0)
    && (r.Offering? && r.sourceId == s ==>
          && s in c.feeds
          && r.accepted <= |r.batch|
          && r.first + |r.batch| <= FrameCount(c, s)
          && r.first + r.accepted <= high
          && (r.stopped ==> r.accepted < |r.batch|)
          && (c.feeds[s].nextFrame == r.first || c.feeds[s].nextFrame == 0))
    && (r.Answering? && r.sourceId == s && r.answer == SourceEos ==> s in c.feeds && high == FrameCount(c, s))
  }

  /** End of stream was answered only when every frame had been accepted. */
  ghost predicate EosComplete(sys: System, s: SourceId) {
    forall k :: 0 <= k < |sys.trace| && sys.trace[k].HaveData? && sys.trace[k].sourceId == s && sys.trace[k].answer == SourceEos ==>
      s in sys.client.feeds && HighWater(sys.trace[..k], s) == FrameCount(sys.client, s)
  }

  /** A source is not registered again. */
  predicate FreshSource(sys: System, step: Step) {
    step.AddSource? ==> step.sourceId !in sys.client.feeds
  }

  /** Accepting at or below the mark keeps the accepted positions a prefix. */
  lemma PrefixGrows(trace: seq<ServerCall>, call: ServerCall, s: SourceId)
    requires AcceptedPrefix(trace, s)
    requires AcceptedCall(call, s) ==> call.frame <= HighWater(trace, s)
    ensures AcceptedPrefix(trace + [call], s)
  {
    TraceGrows(trace, call, s);
    var old', new' := AcceptedFrames(trace, s), AcceptedFrames(trace + [call], s);
    if AcceptedCall(call, s) {
      assert forall i: nat :: i in new' <==> i in old' || i == call.frame;
    }
  }

  lemma BookkeepingKeepsFeeds(c: Client, s: SourceId, frame: nat, status: Status)
    ensures Accept(c, s, frame).feeds == c.feeds && Reject(c, s, frame, status).feeds == c.feeds
    ensures Accept(c, s, frame).oversupply == c.oversupply && Reject(c, s, frame, status).oversupply == c.oversupply
    ensures Accept(c, s, frame).corruptEvery == c.corruptEvery && Reject(c, s, frame, status).corruptEvery == c.corruptEvery
  {
  }

  lemma CursorSafeOffer(sys: System, status: Status, s: SourceId)
    requires CursorSafe(sys, s) && Enabled(sys, Offer(status))
    ensures CursorSafe(OnOffer(sys, status), s)
  {
    hide AcceptedFrames;
    hide HighWater;
    hide AcceptedPrefix;
    hide Accept;
    hide Reject;
    var r := sys.round;
    BookkeepingKeepsFeeds(sys.client, r.sourceId, r.first + r.accepted, status);
    var call := AddSegment(r.sourceId, r.requestId, r.first + r.accepted, r.batch[r.accepted], status);
    TraceGrows(sys.trace, call, s);
    PrefixGrows(sys.trace, call, s);
  }

  lemma BatchLength(stream: Stream, s: SourceId, first: nat, limit: nat, offered: nat, corruptEvery: nat)
    ensures |BuildBatch(stream, s, first, limit, offered, corruptEvery)| == BatchSize(|stream.frames|, first, limit)
  {
  }

  lemma CursorSafeRequest(sys: System, t: SourceId, frameCount: Size, id: nat, shm: bool, s: SourceId)
    requires CursorSafe(sys, s) && sys.round.Idle?
    ensures CursorSafe(OnNeedData(sys, t, frameCount, id, shm), s)
  {
    hide AcceptedPrefix;
    hide HighWater;
    hide BuildBatch;
    if t in sys.client.feeds {
      var c, feed := sys.client, sys.client.feeds[t];
      BatchLength(feed.stream, t, feed.nextFrame, OfferLimit(frameCount, c.oversupply), c.segmentsOffered, c.corruptEvery);
    }
  }

  lemma CursorSafeAdvance(sys: System, s: SourceId)
    requires CursorSafe(sys, s) && Enabled(sys, Advance)
    ensures CursorSafe(OnAdvance(sys), s)
  {
    hide AcceptedPrefix;
    hide HighWater;
  }

  lemma CursorSafeStep(sys: System, step: Step, s: SourceId)
    requires CursorSafe(sys, s) && Enabled(sys, step) && FreshSource(sys, step)
    ensures CursorSafe(Apply(sys, step), s)
  {
    hide AcceptedFrames;
    hide HighWater;
    hide OnNeedData;
    hide OnOffer;
    hide OnAdvance;
    match step
    case NeedData(t, frameCount, id, shm) => CursorSafeRequest(sys, t, frameCount, id, shm, s);
    case Offer(status) => CursorSafeOffer(sys, status, s);
    case Advance => CursorSafeAdvance(sys, s);
    case Answer => TraceGrows(sys.trace, HaveData(sys.round.sourceId, sys.round.requestId, sys.round.answer), s);
    case _ =>
  }

  /** A trace grows by one call at most; feeds are kept, and an EOS goes out only as the round's answer. */
  lemma StepAnswers(sys: System, step: Step, s: SourceId)
    requires Enabled(sys, step) && FreshSource(sys, step) && CursorSafe(sys, s)
    ensures var next := Apply(sys, step);
            && sys.trace <= next.trace && |next.trace| <= |sys.trace| + 1
            && (s in sys.client.feeds ==> s in next.client.feeds && FrameCount(next.client, s) == FrameCount(sys.client, s))
            && (|next.trace| > |sys.trace| && next.trace[|sys.trace|].HaveData? && next.trace[|sys.trace|].sourceId == s
                && next.trace[|sys.trace|].answer == SourceEos ==>
                  s in sys.client.feeds && HighWater(sys.trace, s) == FrameCount(sys.client, s))
  {
    hide AcceptedPrefix;
    hide HighWater;
    hide BuildBatch;
    hide Accept;
    hide Reject;
    if step.Offer? {
      BookkeepingKeepsFeeds(sys.client, sys.round.sourceId, sys.round.first + sys.round.accepted, step.status);
    }
  }

  lemma EosCompleteStep(sys: System, step: Step, s: SourceId)
    requires CursorSafe(sys, s) && EosComplete(sys, s) && Enabled(sys, step) && FreshSource(sys, step)
    ensures EosComplete(Apply(sys, step), s)
  {
    hide CursorSafe;
    hide HighWater;
    hide Apply;
    StepAnswers(sys, step, s);
    var next := Apply(sys, step);
    forall k | 0 <= k < |next.trace| && next.trace[k].HaveData? && next.trace[k].sourceId == s && next.trace[k].answer == SourceEos
      ensures s in next.client.feeds && HighWater(next.trace[..k], s) == FrameCount(next.client, s)
    {
      if k < |sys.trace| {
        assert next.trace[..k] == sys.trace[..k] && next.trace[k] == sys.trace[k];
      } else {
        assert next.trace[..k] == sys.trace;
      }
    }
  }

  lemma InitSafe(s: SourceId)
    ensures CursorSafe(INIT, s) && EosComplete(INIT, s)
  {
  }

  /** Only registration adds a feed or changes its stream. */
  lemma StreamsStep(sys: System, step: Step, s: SourceId)
    requires Enabled(sys, step) && s in Apply(sys, step).client.feeds
    ensures step == AddSource(s, Apply(sys, step).client.feeds[s].stream)
         || (s in sys.client.feeds && sys.client.feeds[s].stream == Apply(sys, step).client.feeds[s].stream)
  {
    hide BuildBatch;
    hide Accept;
    hide Reject;
    if step.Offer? {
      BookkeepingKeepsFeeds(sys.client, sys.round.sourceId, sys.round.first + sys.round.accepted, step.status);
    }
  }

  /** What a registered source was registered with. */
  lemma {:induction false} FeedsAreRegistered(steps: seq<Step>, s: SourceId) returns (i: nat)
    requires Legal(steps) && s in After(steps).client.feeds
    ensures i < |steps| && steps[i] == AddSource(s, After(steps).client.feeds[s].stream)
  {
    hide Apply;
    var n := |steps| - 1;
    StreamsStep(After(steps[..n]), steps[n], s);
    if steps[n] == AddSource(s, After(steps).client.feeds[s].stream) {
      i := n;
    } else {
      i := FeedsAreRegistered(steps[..n], s);
    }
  }

  lemma LastIsFresh(steps: seq<Step>)
    requires steps != [] && Legal(steps) && RegisteredOnce(steps)
    ensures RegisteredOnce(steps[..|steps| - 1]) && FreshSource(After(steps[..|steps| - 1]), steps[|steps| - 1])
  {
    hide Apply;
    var front, last := steps[..|steps| - 1], steps[|steps| - 1];
    if last.AddSource? && last.sourceId in After(front).client.feeds {
      var i := FeedsAreRegistered(front, last.sourceId);
    }
  }

  /** Safety over every run: rewinds may fall at any step, even in the middle of a round. */
  lemma {:induction false} RunsAreSafe(steps: seq<Step>, s: SourceId)
    requires Legal(steps) && RegisteredOnce(steps)
    ensures CursorSafe(After(steps), s) && EosComplete(After(steps), s)
  {
    hide CursorSafe;
    hide EosComplete;
    if steps == [] {
      InitSafe(s);
    } else {
      var front, last := steps[..|steps| - 1], steps[|steps| - 1];
      LastIsFresh(steps);
      RunsAreSafe(front, s);
      CursorSafeStep(After(front), last, s);
      EosCompleteStep(After(front), last, s);
    }
  }

  /** `haveData(EOS)` for a source comes only after each of its frames was accepted at least once. */
  lemma EosOnlyAfterEveryFrame(steps: seq<Step>, k: nat, s: SourceId, i: nat)
    requires Legal(steps) && RegisteredOnce(steps)
    requires k < |After(steps).trace| && After(steps).trace[k].HaveData?
    requires After(steps).trace[k].sourceId == s && After(steps).trace[k].answer == SourceEos
    ensures s in After(steps).client.feeds
    ensures i in AcceptedFrames(After(steps).trace[..k], s) <==> i < FrameCount(After(steps).client, s)
  {
    hide AcceptedFrames;
    hide HighWater;
    RunsAreSafe(steps, s);
    PrefixOfTrace(steps, k, s);
  }

  /** At every point of the trace the accepted positions are a prefix of the stream. */
  lemma {:induction false} PrefixOfTrace(steps: seq<Step>, k: nat, s: SourceId)
    requires Legal(steps) && RegisteredOnce(steps) && k <= |After(steps).trace|
    ensures AcceptedPrefix(After(steps).trace[..k], s)
  {
    hide AcceptedFrames;
    hide HighWater;
    hide AcceptedPrefix;
    hide CursorSafe;
    var sys := After(steps);
    if k == |sys.trace| {
      RunsAreSafe(steps, s);
      assert sys.trace[..k] == sys.trace;
      assert AcceptedPrefix(sys.trace, s) by { CursorSafePrefix(sys, s); }
    } else {
      var front := steps[..|steps| - 1];
      LastIsFresh(steps);
      TraceOneLonger(After(front), steps[|steps| - 1]);
      PrefixOfTrace(front, k, s);
      assert sys.trace[..k] == After(front).trace[..k];
    }
  }

  lemma CursorSafePrefix(sys: System, s: SourceId)
    requires CursorSafe(sys, s)
    ensures AcceptedPrefix(sys.trace, s)
  {
  }

  lemma TraceOneLonger(sys: System, step: Step)
    requires Enabled(sys, step)
    ensures sys.trace <= Apply(sys, step).trace && |Apply(sys, step).trace| <= |sys.trace| + 1
  {
  }

  // ---- The segments sent ----

  /** A segment carries the stamps of its frame and its bytes, or as many corrupt ones. */
  predicate Matches(segment: Segment, stream: Stream, s: SourceId, frame: nat) {
    Carries(segment, stream, s, frame, false) || Carries(segment, stream, s, frame, true)
  }

  /** A batch in flight holds the frames from `first` on. */
  ghost predicate BatchMatches(batch: seq<Segment>, stream: Stream, s: SourceId, first: nat) {
    forall k :: 0 <= k < |batch| ==> Matches(batch[k], stream, s, first + k)
  }

  ghost predicate SegmentsFaithful(sys: System, s: SourceId) {
    && (forall k :: 0 <= k < |sys.trace| && sys.trace[k].AddSegment? && sys.trace[k].sourceId == s ==>
          s in sys.client.feeds && Matches(sys.trace[k].segment, sys.client.feeds[s].stream, s, sys.trace[k].frame))
    && (sys.round.Offering? && sys.round.sourceId == s ==>
          s in sys.client.feeds && BatchMatches(sys.round.batch, sys.client.feeds[s].stream, s, sys.round.first))
  }

  lemma BuiltBatchMatches(stream: Stream, s: SourceId, first: nat, limit: nat, offered: nat, corruptEvery: nat)
    ensures BatchMatches(BuildBatch(stream, s, first, limit, offered, corruptEvery), stream, s, first)
  {
    hide Carries;
  }

  lemma SegmentsFaithfulOffer(sys: System, status: Status, s: SourceId)
    requires SegmentsFaithful(sys, s) && Enabled(sys, Offer(status))
    ensures SegmentsFaithful(OnOffer(sys, status), s)
  {
    hide Matches;
    hide Accept;
    hide Reject;
    var r := sys.round;
    BookkeepingKeepsFeeds(sys.client, r.sourceId, r.first + r.accepted, status);
  }

  lemma SegmentsFaithfulStep(sys: System, step: Step, s: SourceId)
    requires SegmentsFaithful(sys, s) && Enabled(sys, step) && FreshSource(sys, step)
    ensures SegmentsFaithful(Apply(sys, step), s)
  {
    hide Matches;
    hide BuildBatch;
    hide BatchMatches;
    match step
    case Offer(status) => SegmentsFaithfulOffer(sys, status, s);
    case NeedData(t, frameCount, _, _) =>
      if t in sys.client.feeds {
        var c, feed := sys.client, sys.client.feeds[t];
        BuiltBatchMatches(feed.stream, t, feed.nextFrame, OfferLimit(frameCount, c.oversupply), c.segmentsOffered, c.corruptEvery);
      }
    case _ =>
  }

  lemma InitFaithful(s: SourceId)
    ensures SegmentsFaithful(INIT, s)
  {
  }

  /**
   Over every run, a segment sent from position `frame` has the stamps of that frame and the format
   of its stream; its bytes are the frame's, or equally many bytes 0xA5.
   */
  lemma SegmentsAreFaithful(steps: seq<Step>, k: nat)
    requires Legal(steps) && RegisteredOnce(steps)
    requires k < |After(steps).trace| && After(steps).trace[k].AddSegment?
    ensures var call := After(steps).trace[k];
            && call.sourceId in After(steps).client.feeds
            && var stream := After(steps).client.feeds[call.sourceId].stream;
            && call.frame < |stream.frames|
            && call.segment.sourceId == call.sourceId
            && call.segment.timeStamp == stream.frames[call.frame].timeStamp
            && call.segment.duration == stream.frames[call.frame].duration
            && call.segment.sampleRate == stream.sampleRate
            && call.segment.channels == stream.channels
            && (call.segment.data == stream.frames[call.frame].data
                || call.segment.data == seq(|stream.frames[call.frame].data|, _ => 0xA5))
  {
    RunsSendFrames(steps, After(steps).trace[k].sourceId);
  }

  lemma {:induction false} RunsSendFrames(steps: seq<Step>, s: SourceId)
    requires Legal(steps) && RegisteredOnce(steps)
    ensures SegmentsFaithful(After(steps), s)
  {
    hide SegmentsFaithful;
    if steps == [] {
      InitFaithful(s);
    } else {
      LastIsFresh(steps);
      RunsSendFrames(steps[..|steps| - 1], s);
      SegmentsFaithfulStep(After(steps[..|steps| - 1]), steps[|steps| - 1], s);
    }
  }
}
