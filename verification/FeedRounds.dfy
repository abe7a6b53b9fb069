/** The shape of one round, its progress, and the detection of overlapping requests. */
module FeedRounds {
  import opened Basics
  import opened FeedMachine
  import opened FeedSafety

  // ---- Round shape ----

  /** The last request of a run, if any. */
  ghost function LastRequest(steps: seq<Step>): (r: Option<nat>)
    ensures r.Some? ==> r.value < |steps| && steps[r.value].NeedData? && forall j :: r.value < j < |steps| ==> !steps[j].NeedData?
    ensures r.None? ==> forall j :: 0 <= j < |steps| ==> !steps[j].NeedData?
  {
    if steps == [] then None
    else if steps[|steps| - 1].NeedData? then Some(|steps| - 1)
    else LastRequest(steps[..|steps| - 1])
  }

  /** The `k`-th `addSegment` call of request `id`, which found the client `c`, and what it sends. */
  ghost predicate OfferCall(call: ServerCall, c: Client, s: SourceId, id: nat, k: nat)
    requires s in c.feeds
  {
    && call.AddSegment? && call.sourceId == s && call.requestId == id && call.frame == c.feeds[s].nextFrame + k
    && Carries(call.segment, c.feeds[s].stream, s, c.feeds[s].nextFrame + k,
               c.corruptEvery != 0 && (c.segmentsOffered + k + 1) % c.corruptEvery == 0)
  }

  /** Consecutive `addSegment` calls of one request: all OK, except that the last may not be. */
  ghost predicate OfferCalls(calls: seq<ServerCall>, c: Client, s: SourceId, id: nat, stopped: bool)
    requires s in c.feeds
  {
    && (stopped ==> calls != [])
    && (forall k :: 0 <= k < |calls| ==> OfferCall(calls[k], c, s, id, k))
    && (forall k :: 0 <= k < |calls| ==> (calls[k].status == Ok <==> !(stopped && k == |calls| - 1)))
  }

  /** The offers of a finished batch of `limit`: all of them OK, or up to the first that is not. */
  ghost predicate OffersOnly(calls: seq<ServerCall>, c: Client, s: SourceId, id: nat, limit: nat)
    requires s in c.feeds
  {
    (OfferCalls(calls, c, s, id, false) && |calls| == limit) || (OfferCalls(calls, c, s, id, true) && |calls| <= limit)
  }

  /** A request that is answered: its source is registered, and the feed does not withhold. */
  ghost predicate Answerable(c: Client, s: SourceId) {
    c.hasPipeline && s in c.feeds && !c.withhold
  }

  /**
   What the trace holds since the last request, by the stage the round is in: `before` is the
   system the request found, `calls` everything sent since.
   */
  ghost predicate RoundShape(before: System, request: Step, round: Round, calls: seq<ServerCall>)
    requires request.NeedData?
  {
    var s, id, c := request.sourceId, request.requestId, before.client;
    if !Answerable(c, s) then round.Idle? && calls == []
    else
      var limit := if c.starve then 0 else BatchSize(FrameCount(c, s), c.feeds[s].nextFrame, OfferLimit(request.frameCount, c.oversupply));
      var first := c.feeds[s].nextFrame;
      match round
      case Starving(s', id') => c.starve && s' == s && id' == id && calls == []
      case Offering(s', id', first', batch, accepted, stopped) =>
        && !c.starve && s' == s && id' == id && first' == first && |batch| == limit && accepted <= |batch|
        && |calls| == accepted + (if stopped then 1 else 0) <= limit
        && BatchCarries(batch, c.feeds[s].stream, s, first, c.segmentsOffered, c.corruptEvery)
        && OfferCalls(calls, c, s, id, stopped)
      case Answering(s', id', answer) =>
        && s' == s && id' == id && OffersOnly(calls, c, s, id, limit) && (c.starve ==> answer == SourceOk)
      case Idle =>
        && calls != []
        && OffersOnly(calls[..|calls| - 1], c, s, id, limit)
        && (exists answer :: calls[|calls| - 1] == HaveData(s, id, answer) && (c.starve ==> answer == SourceOk))
  }

  lemma ShapeBegins(before: System, request: Step)
    requires request.NeedData? && Enabled(before, request)
    ensures RoundShape(before, request, Apply(before, request).round, [])
  {
    hide BuildBatch;
    if Answerable(before.client, request.sourceId) {
      var feed := before.client.feeds[request.sourceId];
      BatchLength(feed.stream, request.sourceId, feed.nextFrame, OfferLimit(request.frameCount, before.client.oversupply),
                  before.client.segmentsOffered, before.client.corruptEvery);
    }
  }

  /** What a step sends. */
  function SentBy(sys: System, step: Step): seq<ServerCall>
    requires Enabled(sys, step)
  {
    match step
    case Offer(status) =>
      var r := sys.round;
      [AddSegment(r.sourceId, r.requestId, r.first + r.accepted, r.batch[r.accepted], status)]
    case Answer => [HaveData(sys.round.sourceId, sys.round.requestId, sys.round.answer)]
    case _ => []
  }

  lemma SentIsTraced(sys: System, step: Step)
    requires Enabled(sys, step)
    ensures Apply(sys, step).trace == sys.trace + SentBy(sys, step)
  {
  }

  lemma ShapeOffers(before: System, request: Step, sys: System, calls: seq<ServerCall>, status: Status)
    requires request.NeedData? && RoundShape(before, request, sys.round, calls) && Enabled(sys, Offer(status))
    ensures RoundShape(before, request, OnOffer(sys, status).round, calls + SentBy(sys, Offer(status)))
  {
    hide BatchSize;
    hide Carries;
    hide Accept;
    hide Reject;
    var call := SentBy(sys, Offer(status))[0];
    var next := calls + [call];
    assert forall k :: 0 <= k < |calls| ==> next[k] == calls[k];
    assert OfferCalls(next, before.client, sys.round.sourceId, sys.round.requestId, status != Ok);
  }

  lemma ShapeStep(before: System, request: Step, sys: System, calls: seq<ServerCall>, step: Step)
    requires request.NeedData? && RoundShape(before, request, sys.round, calls) && Enabled(sys, step) && !step.NeedData?
    ensures RoundShape(before, request, Apply(sys, step).round, calls + SentBy(sys, step))
  {
    hide BatchSize;
    hide Carries;
    hide OnOffer;
    assert calls + [] == calls;
    match step
    case Offer(status) => ShapeOffers(before, request, sys, calls, status);
    case EndStarved => assert OfferCalls([], before.client, request.sourceId, request.requestId, false);
    case Advance => assert OfferCalls(calls, before.client, request.sourceId, request.requestId, sys.round.stopped);
    case Answer => assert (calls + SentBy(sys, Answer))[..|calls|] == calls;
    case _ =>
  }

  /**
   Round shape over every run: since the last request the trace holds `addSegment` calls with the
   request's own id, at consecutive positions from the cursor on, the whole batch or up to the first
   status that is not OK, and then, once the round is over, exactly one `haveData` with that id. A
   withheld request, or one for an unknown source, sends nothing.
   */
  lemma {:induction false} RoundsAreShaped(steps: seq<Step>, i: nat) returns (n: nat)
    requires Legal(steps) && LastRequest(steps) == Some(i)
    ensures Legal(steps[..i]) && n == |After(steps[..i]).trace| <= |After(steps).trace|
    ensures RoundShape(After(steps[..i]), steps[i], After(steps).round, After(steps).trace[n..])
    decreases |steps|
  {
    hide Apply;
    hide RoundShape;
    var front, last := steps[..|steps| - 1], steps[|steps| - 1];
    SentIsTraced(After(front), last);
    if i == |steps| - 1 {
      n := |After(front).trace|;
      ShapeBegins(After(front), last);
      assert SentBy(After(front), last) == [];
      assert After(steps).trace[n..] == [];
    } else {
      n := RoundsAreShaped(front, i);
      assert front[..i] == steps[..i] && front[i] == steps[i];
      ShapeStep(After(steps[..i]), steps[i], After(front), After(front).trace[n..], last);
      assert After(steps).trace[n..] == After(front).trace[n..] + SentBy(After(front), last);
    }
  }

  ghost predicate Rejected(trace: seq<ServerCall>, i: nat) {
    i < |trace| && trace[i].AddSegment? && trace[i].status != Ok
  }

  /** The call behind `i` answers the round; while there is none, nothing more is offered. */
  ghost predicate AnswerFollows(trace: seq<ServerCall>, i: nat, round: Round) {
    if i + 1 < |trace| then trace[i + 1].HaveData? else round.Answering? || (round.Offering? && round.stopped)
  }

  /** A segment that was not accepted ends the offering: the next call is the round's answer. */
  ghost predicate RejectionsEnd(trace: seq<ServerCall>, round: Round) {
    forall i: nat :: Rejected(trace, i) ==> AnswerFollows(trace, i, round)
  }

  lemma RejectionsEndStep(sys: System, step: Step)
    requires RejectionsEnd(sys.trace, sys.round) && Enabled(sys, step)
    ensures RejectionsEnd(Apply(sys, step).trace, Apply(sys, step).round)
  {
    hide Accept;
    hide Reject;
    hide BuildBatch;
    SentIsTraced(sys, step);
    var next := Apply(sys, step);
    forall i: nat | Rejected(next.trace, i) ensures AnswerFollows(next.trace, i, next.round) {
      if i < |sys.trace| {
        assert Rejected(sys.trace, i);
      }
    }
  }

  lemma NothingRejected()
    ensures RejectionsEnd(INIT.trace, INIT.round)
  {
  }

  /** So a frame that was rejected and accepted later was accepted in a later round. */
  lemma {:induction false} RejectionsAreAnsweredNext(steps: seq<Step>)
    requires Legal(steps)
    ensures RejectionsEnd(After(steps).trace, After(steps).round)
  {
    hide RejectionsEnd;
    if steps == [] {
      NothingRejected();
    } else {
      RejectionsAreAnsweredNext(steps[..|steps| - 1]);
      RejectionsEndStep(After(steps[..|steps| - 1]), steps[|steps| - 1]);
    }
  }

  // ---- Progress ----

  /** Steps of the server's thread still to go in the round in flight. */
  function StepsLeft(round: Round): nat {
    match round
    case Idle => 0
    case Answering(_, _, _) => 1
    case Starving(_, _) => 2
    case Offering(_, _, _, batch, accepted, stopped) => if stopped || accepted >= |batch| then 2 else 2 + |batch| - accepted
  }

  /** A round in flight can always go on, main-thread steps do not hold it up, and it ends. */
  lemma RoundsEnd(sys: System, status: Status) returns (step: Step)
    requires !sys.round.Idle?
    ensures Enabled(sys, step) && !MainStep(step) && (step.Offer? ==> step.status == status)
    ensures StepsLeft(Apply(sys, step).round) < StepsLeft(sys.round)
    ensures forall main :: MainStep(main) ==> Enabled(sys, main) && StepsLeft(Apply(sys, main).round) == StepsLeft(sys.round)
  {
    hide Accept;
    hide Reject;
    step := match sys.round
      case Starving(_, _) => EndStarved
      case Answering(_, _, _) => Answer
      case _ => if Enabled(sys, Advance) then Advance else Offer(status);
  }

  // ---- Overlapping requests ----

  /** Request `i` of the run was followed by the `haveData` that answers it. */
  ghost predicate AnsweredIn(steps: seq<Step>, i: nat) {
    exists j :: i < j < |steps| && steps[j].Answer? && forall k :: i < k < j ==> !steps[k].NeedData?
  }

  ghost predicate CancelledIn(steps: seq<Step>, i: nat)
    requires i < |steps| && steps[i].NeedData?
  {
    exists j :: i < j < |steps| && steps[j] == CancelNeedData(steps[i].sourceId)
  }

  /** Step `i` is a request for `s` that was neither answered nor cancelled. */
  ghost predicate Outstanding(steps: seq<Step>, i: nat, s: SourceId) {
    i < |steps| && steps[i].NeedData? && steps[i].sourceId == s && !AnsweredIn(steps, i) && !CancelledIn(steps, i)
  }

  /** Request `k` arrived while the earlier request `i` for the same source was outstanding. */
  ghost predicate Overlap(steps: seq<Step>, i: nat, k: nat) {
    i < k < |steps| && steps[k].NeedData? && Outstanding(steps[..k], i, steps[k].sourceId)
  }

  /** While no overlap was seen, a source is pending exactly when it has an outstanding request. */
  ghost predicate PendingExact(steps: seq<Step>)
    requires Legal(steps)
  {
    var sys := After(steps);
    !sys.client.overlappingNeedData ==>
      forall s :: s in sys.client.pendingNeedData <==>
        (exists i: nat :: Outstanding(steps, i, s)) && !(sys.round.Answering? && sys.round.sourceId == s)
  }

  ghost predicate OverlapExact(steps: seq<Step>)
    requires Legal(steps)
  {
    After(steps).client.overlappingNeedData <==> exists i: nat, k: nat :: Overlap(steps, i, k)
  }

  lemma AnsweredGrows(steps: seq<Step>, last: Step, i: nat)
    requires i < |steps|
    ensures AnsweredIn(steps + [last], i) <==>
              AnsweredIn(steps, i) || (last.Answer? && forall k :: i < k < |steps| ==> !steps[k].NeedData?)
  {
    var all := steps + [last];
    assert forall k :: 0 <= k < |steps| ==> all[k] == steps[k];
    if AnsweredIn(steps, i) {
      var j :| i < j < |steps| && steps[j].Answer? && forall k :: i < k < j ==> !steps[k].NeedData?;
      assert all[j].Answer?;
    }
    if last.Answer? && forall k :: i < k < |steps| ==> !steps[k].NeedData? {
      assert all[|steps|].Answer?;
    }
  }

  lemma CancelledGrows(steps: seq<Step>, last: Step, i: nat)
    requires i < |steps| && steps[i].NeedData?
    ensures CancelledIn(steps + [last], i) <==> CancelledIn(steps, i) || last == CancelNeedData(steps[i].sourceId)
  {
    var all := steps + [last];
    assert forall k :: 0 <= k < |steps| ==> all[k] == steps[k];
    if CancelledIn(steps, i) {
      var j :| i < j < |steps| && steps[j] == CancelNeedData(steps[i].sourceId);
      assert all[j] == CancelNeedData(steps[i].sourceId);
    }
    if last == CancelNeedData(steps[i].sourceId) {
      assert all[|steps|] == last;
    }
  }

  /** How one more step changes which requests are outstanding. */
  lemma OutstandingGrows(steps: seq<Step>, last: Step, i: nat, s: SourceId)
    ensures i < |steps| ==>
              (Outstanding(steps + [last], i, s) <==>
                 && Outstanding(steps, i, s)
                 && last != CancelNeedData(s)
                 && !(last.Answer? && LastRequest(steps) == Some(i)))
    ensures i == |steps| ==> (Outstanding(steps + [last], i, s) <==> last.NeedData? && last.sourceId == s)
  {
    if i < |steps| && steps[i].NeedData? {
      AnsweredGrows(steps, last, i);
      CancelledGrows(steps, last, i);
    }
  }

  /** The round in flight belongs to the last request. */
  lemma {:induction false} RoundOfLastRequest(steps: seq<Step>) returns (i: nat)
    requires Legal(steps) && !After(steps).round.Idle?
    ensures LastRequest(steps) == Some(i) && steps[i].sourceId == After(steps).round.sourceId
    ensures !AnsweredIn(steps, i) && !CancelledIn(steps, i)
  {
    hide Outstanding;
    var front, last := steps[..|steps| - 1], steps[|steps| - 1];
    assert front + [last] == steps;
    if last.NeedData? {
      i := |steps| - 1;
    } else {
      RoundKept(After(front), last);
      i := RoundOfLastRequest(front);
      assert steps[i] == front[i];
      AnsweredGrows(front, last, i);
      CancelledGrows(front, last, i);
    }
  }

  lemma RoundKept(sys: System, step: Step)
    requires Enabled(sys, step) && !step.NeedData? && !Apply(sys, step).round.Idle?
    ensures !sys.round.Idle? && !step.Answer? && !step.CancelNeedData? && Apply(sys, step).round.sourceId == sys.round.sourceId
  {
    hide Accept;
    hide Reject;
  }

  lemma OutstandingPrefix(steps: seq<Step>, n: nat, i: nat, s: SourceId)
    requires i < n <= |steps| && Outstanding(steps, i, s)
    ensures Outstanding(steps[..n], i, s)
  {
    assert forall k :: 0 <= k < n ==> steps[..n][k] == steps[k];
  }

  /** Two outstanding requests for one source overlapped. */
  lemma TwoOutstandingOverlap(steps: seq<Step>, i: nat, k: nat, s: SourceId)
    requires i < k && Outstanding(steps, i, s) && Outstanding(steps, k, s)
    ensures Overlap(steps, i, k)
  {
    OutstandingPrefix(steps, k, i, s);
  }

  lemma OverlapGrows(steps: seq<Step>, last: Step)
    ensures (exists i: nat, k: nat :: Overlap(steps + [last], i, k)) <==>
              || (exists i: nat, k: nat :: Overlap(steps, i, k))
              || (last.NeedData? && exists i: nat :: Outstanding(steps, i, last.sourceId))
  {
    hide Outstanding;
    var all := steps + [last];
    forall i: nat, k: nat | k < |steps| ensures Overlap(all, i, k) <==> Overlap(steps, i, k) {
      assert all[..k] == steps[..k] && all[k] == steps[k];
    }
    assert all[..|steps|] == steps;
    if i: nat, k: nat :| Overlap(steps, i, k) {
      assert Overlap(all, i, k);
    }
    if last.NeedData? {
      if i: nat :| Outstanding(steps, i, last.sourceId) {
        OutstandingIndex(steps, i, last.sourceId);
        assert Overlap(all, i, |steps|);
      }
    }
    if i: nat, k: nat :| Overlap(all, i, k) {
      assert k < |steps| ==> Overlap(steps, i, k);
      assert k == |steps| ==> Outstanding(steps, i, last.sourceId);
    }
  }

  lemma OutstandingIndex(steps: seq<Step>, i: nat, s: SourceId)
    requires Outstanding(steps, i, s)
    ensures i < |steps|
  {
  }

  /** Which sources have an outstanding request. */
  ghost predicate SomeOutstanding(steps: seq<Step>, s: SourceId) {
    exists i: nat :: Outstanding(steps, i, s)
  }

  /** Apart from an answer, a step changes the sources with outstanding requests like the pending set. */
  lemma SomeOutstandingGrows(steps: seq<Step>, last: Step, s: SourceId)
    requires !last.Answer?
    ensures SomeOutstanding(steps + [last], s) <==>
              (SomeOutstanding(steps, s) && last != CancelNeedData(s)) || (last.NeedData? && last.sourceId == s)
  {
    hide Outstanding;
    var all := steps + [last];
    if i: nat :| Outstanding(steps, i, s) {
      OutstandingIndex(steps, i, s);
      OutstandingGrows(steps, last, i, s);
    }
    OutstandingGrows(steps, last, |steps|, s);
    if i: nat :| Outstanding(all, i, s) {
      OutstandingIndex(all, i, s);
      OutstandingGrows(steps, last, i, s);
    }
  }

  /** An answer, while no overlap was seen, leaves its source without outstanding requests. */
  lemma AnswerSettles(steps: seq<Step>, s: SourceId)
    requires Legal(steps) && After(steps).round.Answering?
    requires !exists i: nat, k: nat :: Overlap(steps, i, k)
    ensures SomeOutstanding(steps + [Answer], s) <==> SomeOutstanding(steps, s) && s != After(steps).round.sourceId
  {
    hide Overlap;
    hide Apply;
    var all := steps + [Answer];
    var l := RoundOfLastRequest(steps);
    assert Outstanding(steps, l, After(steps).round.sourceId);
    if i: nat :| Outstanding(steps, i, s) {
      OutstandingGrows(steps, Answer, i, s);
    }
    if i: nat :| Outstanding(all, i, s) {
      OutstandingGrows(steps, Answer, i, s);
      if s == After(steps).round.sourceId {
        TwoOutstandingOverlap(steps, i, l, s);
      }
    }
  }

  lemma PendingStep(sys: System, step: Step, s: SourceId)
    requires Enabled(sys, step)
    ensures s in Apply(sys, step).client.pendingNeedData <==>
              || (s in sys.client.pendingNeedData && step != CancelNeedData(s)
                  && !((step.Advance? || step.EndStarved?) && s == sys.round.sourceId))
              || (step.NeedData? && step.sourceId == s)
    ensures Apply(sys, step).client.overlappingNeedData <==>
              sys.client.overlappingNeedData || (step.NeedData? && step.sourceId in sys.client.pendingNeedData)
    ensures Apply(sys, step).round.Answering? <==> step.Advance? || step.EndStarved? || (sys.round.Answering? && !step.Answer?)
    ensures Apply(sys, step).round.Answering? ==> !sys.round.Idle? && Apply(sys, step).round.sourceId == sys.round.sourceId
  {
    hide Accept;
    hide Reject;
    hide BuildBatch;
    if step.Offer? {
      BookkeepingKeepsPending(sys.client, sys.round.sourceId, sys.round.first + sys.round.accepted, step.status);
    }
  }

  lemma BookkeepingKeepsPending(c: Client, s: SourceId, frame: nat, status: Status)
    ensures Accept(c, s, frame).pendingNeedData == Reject(c, s, frame, status).pendingNeedData == c.pendingNeedData
    ensures Accept(c, s, frame).overlappingNeedData == Reject(c, s, frame, status).overlappingNeedData == c.overlappingNeedData
  {
  }

  /** `m_overlappingNeedData` is set exactly when a request met an outstanding one of its source. */
  lemma {:induction false} OverlapsAreDetected(steps: seq<Step>)
    requires Legal(steps)
    ensures OverlapExact(steps) && PendingExact(steps)
  {
    hide Apply;
    hide Outstanding;
    hide Overlap;
    if steps == [] {
      NothingPending();
    } else {
      var front, last := steps[..|steps| - 1], steps[|steps| - 1];
      var sys := After(front);
      assert front + [last] == steps;
      OverlapsAreDetected(front);
      OverlapGrows(front, last);
      if last.NeedData? {
        PendingStep(sys, last, last.sourceId);
      } else {
        PendingStep(sys, last, 0);
      }
      if !After(steps).client.overlappingNeedData {
        forall s ensures s in After(steps).client.pendingNeedData <==>
                           SomeOutstanding(steps, s) && !(After(steps).round.Answering? && After(steps).round.sourceId == s)
        {
          PendingStep(sys, last, s);
          if last.Answer? {
            AnswerSettles(front, s);
          } else {
            SomeOutstandingGrows(front, last, s);
          }
          assert SomeOutstanding(front, s) <==> exists i: nat :: Outstanding(front, i, s);
        }
      }
    }
  }

  lemma NothingPending()
    ensures OverlapExact([]) && PendingExact([])
  {
  }
}
