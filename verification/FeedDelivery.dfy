/**
 The feed against a server whose buffer holds `capacity` bytes and empties between requests: the
 whole stream gets through, however small the buffer, as long as each frame fits it.
 */
module FeedDelivery {
  import opened Twos
  import opened MediaStream
  import opened FeedMachine
  import opened FeedSafety
  import opened FeedRetention

  /** A client bound to a pipeline, with one source registered, offering `multiple` times the request. */
  function Start(s: SourceId, stream: Stream, multiple: Size, corruptEvery: Size): System {
    var c := OnMain(OnMain(INIT.client, SetPipeline), AddSource(s, stream));
    INIT.(client := OnMain(OnMain(c, SetOversupply(multiple)), SetCorruptEvery(corruptEvery)))
  }

  /** The server's answer to a segment of `size` bytes when `used` bytes are taken. */
  function Admit(used: nat, size: nat, capacity: nat): Status {
    if used + size <= capacity then Ok else NoSpace
  }

  /** The offers of a round, up to the point where the client stops offering. */
  function Serve(sys: System, used: nat, capacity: nat): (r: System)
    requires sys.round.Offering? && sys.round.accepted <= |sys.round.batch|
    ensures Enabled(r, Advance)
    decreases if sys.round.stopped then 0 else 1 + |sys.round.batch| - sys.round.accepted
  {
    if Enabled(sys, Advance) then sys
    else
      var size := |sys.round.batch[sys.round.accepted].data|;
      var status := Admit(used, size, capacity);
      Serve(OnOffer(sys, status), if status == Ok then used + size else used, capacity)
  }

  /** The source is fed normally: bound, registered, neither withheld nor starved. */
  predicate Feeding(sys: System, s: SourceId) {
    sys.client.hasPipeline && s in sys.client.feeds && !sys.client.withhold && !sys.client.starve
  }

  /** One request served from beginning to end. */
  function ServeRequest(sys: System, s: SourceId, frameCount: Size, id: nat, capacity: nat): System
    requires sys.round.Idle? && Feeding(sys, s)
  {
    OnAnswer(OnAdvance(Serve(OnNeedData(sys, s, frameCount, id, true), 0, capacity)))
  }

  lemma ServeKeepsFeeding(sys: System, used: nat, capacity: nat, s: SourceId)
    requires sys.round.Offering? && sys.round.accepted <= |sys.round.batch| && Feeding(sys, s)
    ensures Feeding(Serve(sys, used, capacity), s)
    decreases if sys.round.stopped then 0 else 1 + |sys.round.batch| - sys.round.accepted
  {
    if !Enabled(sys, Advance) {
      var size := |sys.round.batch[sys.round.accepted].data|;
      var status := Admit(used, size, capacity);
      ServeKeepsFeeding(OnOffer(sys, status), if status == Ok then used + size else used, capacity, s);
    }
  }

  lemma RequestKeepsFeeding(sys: System, s: SourceId, frameCount: Size, id: nat, capacity: nat)
    requires sys.round.Idle? && Feeding(sys, s)
    ensures ServeRequest(sys, s, frameCount, id, capacity).round.Idle? && Feeding(ServeRequest(sys, s, frameCount, id, capacity), s)
  {
    hide BuildBatch;
    hide Serve;
    ServeKeepsFeeding(OnNeedData(sys, s, frameCount, id, true), 0, capacity, s);
  }

  /** Requests `0 .. |counts|`, the `k`-th asking for `counts[k]` frames. */
  function ServeAll(sys: System, s: SourceId, counts: seq<Size>, capacity: nat): (r: System)
    requires sys.round.Idle? && Feeding(sys, s)
    ensures r.round.Idle? && Feeding(r, s)
    decreases |counts|
  {
    if counts == [] then sys
    else
      var n := |counts| - 1;
      var before := ServeAll(sys, s, counts[..n], capacity);
      RequestKeepsFeeding(before, s, counts[n], n, capacity);
      ServeRequest(before, s, counts[n], n, capacity)
  }

  // ---- What the loop keeps ----

  ghost predicate FramesFit(c: Client, s: SourceId, capacity: nat)
    requires s in c.feeds
  {
    forall i :: 0 <= i < FrameCount(c, s) ==> |c.feeds[s].stream.frames[i].data| <= capacity
  }

  /** No errors, and every rejection is still retained or was made good. */
  ghost predicate NothingLost(c: Client, s: SourceId) {
    c.addError == 0 && (c.addNoSpace > 0 ==> c.noSpaceSegmentAccepted || s in c.noSpaceFrame)
  }

  ghost predicate Loop(sys: System, s: SourceId, capacity: nat) {
    && CursorSafe(sys, s) && SegmentsFaithful(sys, s) && InOrder(sys, s) && Retained(sys, s) && RetainedIsNext(sys, s)
    && NothingLost(sys.client, s)
    && s in sys.client.feeds && FramesFit(sys.client, s, capacity)
    && (sys.round.Offering? ==> sys.round.sourceId == s)
  }

  /** The steps of the loop: requests for the source, answered OK or NO_SPACE, and the round's own steps. */
  predicate LoopStep(step: Step, s: SourceId) {
    (step.NeedData? && step.sourceId == s) || (step.Offer? && step.status != Error) || step.Advance? || step.Answer?
  }

  lemma NothingLostOffer(c: Client, s: SourceId, frame: nat, status: Status)
    requires NothingLost(c, s) && status != Error
    ensures NothingLost(Accept(c, s, frame), s)
    ensures status == NoSpace ==> NothingLost(Reject(c, s, frame, status), s)
  {
  }

  lemma NothingLostStep(sys: System, step: Step, s: SourceId)
    requires NothingLost(sys.client, s) && Enabled(sys, step) && LoopStep(step, s)
    requires sys.round.Offering? ==> sys.round.sourceId == s
    ensures NothingLost(Apply(sys, step).client, s)
  {
    hide BuildBatch;
    hide Accept;
    hide Reject;
    if step.Offer? {
      NothingLostOffer(sys.client, s, sys.round.first + sys.round.accepted, step.status);
    }
  }

  lemma LoopKept(sys: System, step: Step, s: SourceId, capacity: nat)
    requires Loop(sys, s, capacity) && Enabled(sys, step) && LoopStep(step, s)
    ensures Loop(Apply(sys, step), s, capacity)
  {
    hide CursorSafe;
    hide SegmentsFaithful;
    hide InOrder;
    hide Retained;
    hide RetainedIsNext;
    hide NothingLost;
    CursorSafeStep(sys, step, s);
    SegmentsFaithfulStep(sys, step, s);
    InOrderStep(sys, step, s);
    RetainedStep(sys, step, s);
    RetainedIsNextStep(sys, step, s);
    NothingLostStep(sys, step, s);
    LoopFrame(sys, step, s);
  }

  lemma LoopFrame(sys: System, step: Step, s: SourceId)
    requires Enabled(sys, step) && LoopStep(step, s) && s in sys.client.feeds
    requires sys.round.Offering? ==> sys.round.sourceId == s
    ensures s in Apply(sys, step).client.feeds && Apply(sys, step).client.feeds[s].stream == sys.client.feeds[s].stream
    ensures Apply(sys, step).client.oversupply == sys.client.oversupply
    ensures Apply(sys, step).round.Offering? ==> Apply(sys, step).round.sourceId == s
  {
    hide BuildBatch;
    hide Accept;
    hide Reject;
    if step.Offer? {
      OfferFrame(sys, step.status);
    }
  }

  /** The size of the segment offered next is its frame's size. */
  lemma NextSize(sys: System, s: SourceId, capacity: nat)
    requires Loop(sys, s, capacity) && sys.round.Offering? && sys.round.accepted < |sys.round.batch|
    ensures |sys.round.batch[sys.round.accepted].data| <= capacity
  {
    hide CursorSafe;
    hide InOrder;
    hide Retained;
    hide RetainedIsNext;
    assert Matches(sys.round.batch[sys.round.accepted], sys.client.feeds[s].stream, s, sys.round.first + sys.round.accepted);
  }

  /** Serving a round keeps the loop and, in an empty buffer, gets at least one frame through. */
  lemma {:induction false} ServeGains(sys: System, used: nat, capacity: nat, s: SourceId)
    requires Loop(sys, s, capacity) && sys.round.Offering? && sys.round.accepted <= |sys.round.batch|
    ensures var r := Serve(sys, used, capacity);
            && Loop(r, s, capacity)
            && r.client.feeds == sys.client.feeds && r.client.oversupply == sys.client.oversupply
            && r.round.requestId == sys.round.requestId
            && r.round.accepted >= sys.round.accepted
            && (used == 0 && !sys.round.stopped && sys.round.accepted < |sys.round.batch| ==> r.round.accepted > sys.round.accepted)
    decreases if sys.round.stopped then 0 else 1 + |sys.round.batch| - sys.round.accepted
  {
    hide Loop;
    if !Enabled(sys, Advance) {
      NextSize(sys, s, capacity);
      var size := |sys.round.batch[sys.round.accepted].data|;
      var status := Admit(used, size, capacity);
      LoopKept(sys, Offer(status), s, capacity);
      OfferFrame(sys, status);
      ServeGains(OnOffer(sys, status), if status == Ok then used + size else used, capacity, s);
    }
  }

  lemma OfferFrame(sys: System, status: Status)
    requires Enabled(sys, Offer(status))
    ensures OnOffer(sys, status).client.feeds == sys.client.feeds
    ensures OnOffer(sys, status).client.oversupply == sys.client.oversupply
  {
    hide Accept;
    hide Reject;
    var frame := sys.round.first + sys.round.accepted;
    BookkeepingKeepsFeeds(sys.client, sys.round.sourceId, frame, status);
  }

  predicate LastCall(trace: seq<ServerCall>, call: ServerCall) {
    trace != [] && trace[|trace| - 1] == call
  }

  /** One request: the cursor gains a frame unless the stream is done, and EOS is answered iff it is. */
  lemma RequestGains(sys: System, s: SourceId, frameCount: Size, id: nat, capacity: nat)
    requires Loop(sys, s, capacity) && sys.round.Idle? && Feeding(sys, s)
    requires OfferLimit(frameCount, sys.client.oversupply) >= 1
    ensures var r := ServeRequest(sys, s, frameCount, id, capacity);
            Loop(r, s, capacity) &&
            var n, before, after := FrameCount(sys.client, s), sys.client.feeds[s].nextFrame, r.client.feeds[s].nextFrame;
            && r.client.feeds[s].stream == sys.client.feeds[s].stream && r.client.oversupply == sys.client.oversupply
            && before <= after <= n && (before < n ==> before < after)
            && LastCall(r.trace, HaveData(s, id, if after == n then SourceEos else SourceOk))
  {
    hide Loop;
    hide BuildBatch;
    hide Serve;
    hide Accept;
    hide Reject;
    var asked := OnNeedData(sys, s, frameCount, id, true);
    assert asked == Apply(sys, NeedData(s, frameCount, id, true));
    LoopKept(sys, NeedData(s, frameCount, id, true), s, capacity);
    BatchBegins(sys, s, frameCount, id);
    ServeGains(asked, 0, capacity, s);
    var served := Serve(asked, 0, capacity);
    LoopKept(served, Advance, s, capacity);
    var advanced := OnAdvance(served);
    assert advanced == Apply(served, Advance);
    LoopKept(advanced, Answer, s, capacity);
    LoopCursor(served, s, capacity);
    LoopCursor(advanced, s, capacity);
  }

  lemma BatchBegins(sys: System, s: SourceId, frameCount: Size, id: nat)
    requires sys.round.Idle? && Feeding(sys, s)
    ensures var asked := OnNeedData(sys, s, frameCount, id, true);
            && asked.round.Offering? && asked.round.sourceId == s && asked.round.requestId == id
            && asked.round.accepted == 0 && !asked.round.stopped
            && |asked.round.batch| == BatchSize(FrameCount(sys.client, s), sys.client.feeds[s].nextFrame, OfferLimit(frameCount, sys.client.oversupply))
            && asked.client.feeds == sys.client.feeds && asked.client.oversupply == sys.client.oversupply
  {
  }

  lemma LoopCursor(sys: System, s: SourceId, capacity: nat)
    requires Loop(sys, s, capacity)
    ensures s in sys.client.feeds && sys.client.feeds[s].nextFrame <= FrameCount(sys.client, s)
    ensures sys.round.Offering? ==> sys.round.sourceId == s
  {
    hide SegmentsFaithful;
    hide InOrder;
    hide Retained;
    hide RetainedIsNext;
  }

  function AtLeastOne(n: nat): nat {
    if n == 0 then 1 else n
  }

  /** After `k` requests at least `k` frames are through, or all of them. */
  lemma {:induction false} LoopGains(sys: System, s: SourceId, counts: seq<Size>, capacity: nat)
    requires Loop(sys, s, capacity) && sys.round.Idle? && Feeding(sys, s)
    requires forall k :: 0 <= k < |counts| ==> OfferLimit(counts[k], sys.client.oversupply) >= 1
    ensures var r, n := ServeAll(sys, s, counts, capacity), FrameCount(sys.client, s);
            && Loop(r, s, capacity)
            && r.client.feeds[s].stream == sys.client.feeds[s].stream && r.client.oversupply == sys.client.oversupply
            && (r.client.feeds[s].nextFrame >= |counts| || r.client.feeds[s].nextFrame == n)
            && (counts != [] ==> LastCall(r.trace, HaveData(s, |counts| - 1, if r.client.feeds[s].nextFrame == n then SourceEos else SourceOk)))
    decreases |counts|
  {
    hide Loop;
    hide ServeRequest;
    if counts != [] {
      var n := |counts| - 1;
      LoopGains(sys, s, counts[..n], capacity);
      var before := ServeAll(sys, s, counts[..n], capacity);
      LoopCursor(before, s, capacity);
      RequestGains(before, s, counts[n], n, capacity);
    }
  }

  lemma StartLoops(s: SourceId, stream: Stream, multiple: Size, corruptEvery: Size, capacity: nat)
    requires forall i :: 0 <= i < |stream.frames| ==> |stream.frames[i].data| <= capacity
    ensures var sys := Start(s, stream, multiple, corruptEvery);
            && Loop(sys, s, capacity) && sys.round.Idle? && Feeding(sys, s)
            && sys.client.feeds[s] == SourceFeed(stream, 0)
            && sys.client.oversupply == if multiple == 0 then 1 else multiple
  {
  }

  /**
   Closed-loop delivery: the request numbered max(1, n) is answered EOS, by then every frame was
   accepted exactly once and in order, no call failed with ERROR, and if NO_SPACE ever occurred
   then a rejected segment was resent and accepted.
   */
  lemma WholeStreamIsDelivered(s: SourceId, stream: Stream, multiple: Size, corruptEvery: Size, counts: seq<Size>, capacity: nat)
    requires forall i :: 0 <= i < |stream.frames| ==> |stream.frames[i].data| <= capacity
    requires |counts| == AtLeastOne(|stream.frames|)
    requires forall k :: 0 <= k < |counts| ==> OfferLimit(counts[k], if multiple == 0 then 1 else multiple) >= 1
    ensures Start(s, stream, multiple, corruptEvery).round.Idle? && Feeding(Start(s, stream, multiple, corruptEvery), s)
    ensures var r := ServeAll(Start(s, stream, multiple, corruptEvery), s, counts, capacity);
            && LastCall(r.trace, HaveData(s, |counts| - 1, SourceEos))
            && AcceptedFrames(r.trace, s) == UpTo(|stream.frames|)
            && r.client.addError == 0
            && (r.client.addNoSpace > 0 ==> r.client.noSpaceSegmentAccepted)
  {
    hide AcceptedFrames;
    hide Start;
    hide HighWater;
    hide SegmentsFaithful;
    hide ServeAll;
    hide AcceptedPrefix;
    var sys := Start(s, stream, multiple, corruptEvery);
    StartLoops(s, stream, multiple, corruptEvery, capacity);
    LoopGains(sys, s, counts, capacity);
  }

  // ---- The closed loop is a run of the feed ----

  ghost predicate LoopSteps(steps: seq<Step>, s: SourceId) {
    forall i :: 0 <= i < |steps| ==> LoopStep(steps[i], s)
  }

  lemma {:induction false} ServeIsRun(sys: System, used: nat, capacity: nat, s: SourceId) returns (steps: seq<Step>)
    requires sys.round.Offering? && sys.round.accepted <= |sys.round.batch|
    ensures LegalFrom(sys, steps) && From(sys, steps) == Serve(sys, used, capacity) && LoopSteps(steps, s)
    decreases if sys.round.stopped then 0 else 1 + |sys.round.batch| - sys.round.accepted
  {
    hide OnOffer;
    hide From;
    hide LegalFrom;
    if Enabled(sys, Advance) {
      steps := [];
      RunNone(sys);
    } else {
      var size := |sys.round.batch[sys.round.accepted].data|;
      var status := Admit(used, size, capacity);
      OfferMoves(sys, status);
      steps := ServeIsRun(OnOffer(sys, status), if status == Ok then used + size else used, capacity, s);
      RunAfter(sys, Offer(status), steps);
      steps := [Offer(status)] + steps;
    }
  }

  lemma OfferMoves(sys: System, status: Status)
    requires Enabled(sys, Offer(status))
    ensures var r, next := sys.round, OnOffer(sys, status).round;
            next.Offering? && next.batch == r.batch && next.accepted <= |r.batch|
            && (next.stopped || (!r.stopped && next.accepted == r.accepted + 1))
  {
    hide Accept;
    hide Reject;
  }

  lemma RequestIsRun(sys: System, s: SourceId, frameCount: Size, id: nat, capacity: nat) returns (steps: seq<Step>)
    requires sys.round.Idle? && Feeding(sys, s)
    ensures LegalFrom(sys, steps) && From(sys, steps) == ServeRequest(sys, s, frameCount, id, capacity) && LoopSteps(steps, s)
  {
    hide Serve;
    hide OnNeedData;
    hide OnAdvance;
    hide From;
    hide LegalFrom;
    var request := NeedData(s, frameCount, id, true);
    var asked := OnNeedData(sys, s, frameCount, id, true);
    BatchBegins(sys, s, frameCount, id);
    var offers := ServeIsRun(asked, 0, capacity, s);
    RunAfter(sys, request, offers);
    var served := [request] + offers;
    RunOne(sys, served, Advance);
    AdvanceAnswers(From(sys, served));
    RunOne(sys, served + [Advance], Answer);
    steps := served + [Advance] + [Answer];
  }

  lemma AdvanceAnswers(sys: System)
    requires Enabled(sys, Advance)
    ensures Enabled(OnAdvance(sys), Answer)
  {
  }

  lemma {:induction false} ServeAllIsRun(sys: System, s: SourceId, counts: seq<Size>, capacity: nat) returns (steps: seq<Step>)
    requires sys.round.Idle? && Feeding(sys, s)
    ensures LegalFrom(sys, steps) && From(sys, steps) == ServeAll(sys, s, counts, capacity) && LoopSteps(steps, s)
    decreases |counts|
  {
    hide From;
    hide LegalFrom;
    hide ServeRequest;
    hide LoopStep;
    if counts == [] {
      steps := [];
      RunNone(sys);
    } else {
      var n := |counts| - 1;
      var front := ServeAllIsRun(sys, s, counts[..n], capacity);
      var before := ServeAll(sys, s, counts[..n], capacity);
      var last := RequestIsRun(before, s, counts[n], n, capacity);
      FromAppend(sys, front, last);
      steps := front + last;
    }
  }

  /** The main thread's calls that lead to `Start`. */
  function Setup(s: SourceId, stream: Stream, multiple: Size, corruptEvery: Size): seq<Step> {
    [SetPipeline] + [AddSource(s, stream)] + [SetOversupply(multiple)] + [SetCorruptEvery(corruptEvery)]
  }

  lemma StartIsRun(s: SourceId, stream: Stream, multiple: Size, corruptEvery: Size)
    ensures var setup := Setup(s, stream, multiple, corruptEvery);
            Legal(setup) && After(setup) == Start(s, stream, multiple, corruptEvery)
  {
    hide From;
    hide LegalFrom;
    hide OnMain;
    RunNone(INIT);
    RunOne(INIT, [], SetPipeline);
    assert [] + [SetPipeline] == [SetPipeline];
    RunOne(INIT, [SetPipeline], AddSource(s, stream));
    RunOne(INIT, [SetPipeline] + [AddSource(s, stream)], SetOversupply(multiple));
    RunOne(INIT, [SetPipeline] + [AddSource(s, stream)] + [SetOversupply(multiple)], SetCorruptEvery(corruptEvery));
  }

  /** What the closed loop reaches, a legal run reaches: the theorems about runs hold of it. */
  lemma ClosedLoopIsRun(s: SourceId, stream: Stream, multiple: Size, corruptEvery: Size, counts: seq<Size>, capacity: nat)
    returns (steps: seq<Step>)
    ensures Legal(steps) && RegisteredOnce(steps) && NoRewind(steps)
    ensures corruptEvery == 0 ==> NoCorruption(steps)
    ensures Start(s, stream, multiple, corruptEvery).round.Idle? && Feeding(Start(s, stream, multiple, corruptEvery), s)
    ensures After(steps) == ServeAll(Start(s, stream, multiple, corruptEvery), s, counts, capacity)
  {
    hide From;
    hide LegalFrom;
    hide ServeAll;
    var setup := Setup(s, stream, multiple, corruptEvery);
    StartIsRun(s, stream, multiple, corruptEvery);
    var loop := ServeAllIsRun(After(setup), s, counts, capacity);
    FromAppend(INIT, setup, loop);
    steps := setup + loop;
    assert forall i :: 4 <= i < |steps| ==> LoopStep(steps[i], s) by {
      assert forall i :: 4 <= i < |steps| ==> steps[i] == loop[i - 4];
    }
  }

  /** Without corruption, what the closed loop delivers is the stream itself, frame by frame. */
  lemma StreamArrivesIntact(s: SourceId, stream: Stream, multiple: Size, counts: seq<Size>, capacity: nat)
    requires forall i :: 0 <= i < |stream.frames| ==> |stream.frames[i].data| <= capacity
    requires |counts| == AtLeastOne(|stream.frames|)
    requires forall k :: 0 <= k < |counts| ==> OfferLimit(counts[k], if multiple == 0 then 1 else multiple) >= 1
    ensures Start(s, stream, multiple, 0).round.Idle? && Feeding(Start(s, stream, multiple, 0), s)
    ensures var segments := AcceptedSegments(ServeAll(Start(s, stream, multiple, 0), s, counts, capacity).trace, s);
            && |segments| == |stream.frames|
            && forall i :: 0 <= i < |stream.frames| ==>
                 segments[i] == Segment(sourceId := s,
                                        timeStamp := stream.frames[i].timeStamp, duration := stream.frames[i].duration,
                                        sampleRate := stream.sampleRate, channels := stream.channels,
                                        data := stream.frames[i].data)
  {
    hide AcceptedFrames;
    hide AcceptedSegments;
    hide Start;
    hide ServeAll;
    hide Loop;
    var steps := ClosedLoopIsRun(s, stream, multiple, 0, counts, capacity);
    StartLoops(s, stream, multiple, 0, capacity);
    LoopGains(Start(s, stream, multiple, 0), s, counts, capacity);
    LoopCursor(After(steps), s, capacity);
    DeliveredExactlyOnceInOrder(steps, s);
  }

  // ---- Requests that offer nothing ----

  /** The limit is the requested count times the multiple, less whole multiples of 2 to the 64. */
  lemma LimitIsProduct(frameCount: Size, oversupply: Size) returns (wraps: nat)
    ensures var multiple := if oversupply == 0 then 1 else oversupply;
            && OfferLimit(frameCount, oversupply) == frameCount * multiple - wraps * SIZE_MAX_PLUS_1
            && (frameCount * multiple < SIZE_MAX_PLUS_1 ==> OfferLimit(frameCount, oversupply) == frameCount * multiple)
  {
    wraps := frameCount * (if oversupply == 0 then 1 else oversupply) / SIZE_MAX_PLUS_1;
  }

  /**
   A request offers nothing exactly when the requested count and the multiple hold 64 factors of
   two between them; so a request for at least one frame whose product needs at most 64 bits
   offers at least one.
   */
  lemma LimitPositive(frameCount: Size, oversupply: Size)
    ensures var multiple := if oversupply == 0 then 1 else oversupply;
            OfferLimit(frameCount, oversupply) == 0 <==> Shared(64, frameCount, multiple)
    ensures frameCount >= 1 && frameCount * oversupply < SIZE_MAX_PLUS_1 ==> OfferLimit(frameCount, oversupply) >= 1
  {
    var multiple := if oversupply == 0 then 1 else oversupply;
    TwoTo64();
    TwosInProduct(64, frameCount, multiple);
    if frameCount >= 1 && oversupply > 0 {
      assert frameCount * oversupply >= 1;
    }
  }
}
