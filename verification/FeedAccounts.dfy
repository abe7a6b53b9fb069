/** Conservation: the client's counters account for every segment built, sent and accepted. */
module FeedAccounts {
  import opened MapSum
  import opened FeedMachine
  import opened FeedSafety

  /** How many `addSegment` calls came back with `status`. */
  function Count(trace: seq<ServerCall>, status: Status): nat {
    if trace == [] then 0
    else
      var call := trace[|trace| - 1];
      Count(trace[..|trace| - 1], status) + if call.AddSegment? && call.status == status then 1 else 0
  }

  function AddSegmentCalls(trace: seq<ServerCall>): nat {
    if trace == [] then 0
    else AddSegmentCalls(trace[..|trace| - 1]) + if trace[|trace| - 1].AddSegment? then 1 else 0
  }

  lemma CountGrows(trace: seq<ServerCall>, call: ServerCall)
    ensures forall status :: Count(trace + [call], status)
              == Count(trace, status) + if call.AddSegment? && call.status == status then 1 else 0
    ensures AddSegmentCalls(trace + [call]) == AddSegmentCalls(trace) + if call.AddSegment? then 1 else 0
  {
    assert (trace + [call])[..|trace|] == trace;
  }

  /** Calls made so far in the round in flight. */
  function CallsMade(round: Round): nat {
    if round.Offering? then round.accepted + (if round.stopped then 1 else 0) else 0
  }

  function BatchInFlight(round: Round): nat {
    if round.Offering? then |round.batch| else 0
  }

  /**
   Segments a step leaves unsent: the whole batch of a withheld or starved request, and what an
   ended round did not get to offer.
   */
  function LeftUnsent(sys: System, step: Step): int
    requires Enabled(sys, step)
  {
    match step
    case NeedData(s, frameCount, _, _) =>
      if sys.client.hasPipeline && s in sys.client.feeds && (sys.client.withhold || sys.client.starve)
      then BatchSize(FrameCount(sys.client, s), sys.client.feeds[s].nextFrame, OfferLimit(frameCount, sys.client.oversupply))
      else 0
    case Advance => BatchInFlight(sys.round) - CallsMade(sys.round)
    case _ => 0
  }

  /** Segments built but never sent in a run. */
  ghost function Unsent(steps: seq<Step>): int
    requires Legal(steps)
  {
    if steps == [] then 0
    else Unsent(steps[..|steps| - 1]) + LeftUnsent(After(steps[..|steps| - 1]), steps[|steps| - 1])
  }

  /** The counters against the trace. */
  ghost predicate CountersExact(sys: System) {
    && sys.client.addOk == Count(sys.trace, Ok)
    && sys.client.addNoSpace == Count(sys.trace, NoSpace)
    && sys.client.addError == Count(sys.trace, Error)
    && (sys.client.allSegmentsAccepted <==> sys.client.addNoSpace + sys.client.addError == 0)
    && AddSegmentCalls(sys.trace) == sys.client.addOk + sys.client.addNoSpace + sys.client.addError
    && (sys.round.Offering? ==> CallsMade(sys.round) <= |sys.round.batch|)
  }

  lemma CountersExactOffer(sys: System, status: Status)
    requires CountersExact(sys) && Enabled(sys, Offer(status))
    ensures CountersExact(OnOffer(sys, status))
  {
    hide Count;
    hide AddSegmentCalls;
    var r := sys.round;
    CountGrows(sys.trace, AddSegment(r.sourceId, r.requestId, r.first + r.accepted, r.batch[r.accepted], status));
    if status == Ok {
      assert OnOffer(sys, status).client.addOk == sys.client.addOk + 1;
    } else {
      assert !OnOffer(sys, status).client.allSegmentsAccepted;
    }
  }

  lemma CountersExactStep(sys: System, step: Step)
    requires CountersExact(sys) && Enabled(sys, step)
    ensures CountersExact(Apply(sys, step))
  {
    hide Count;
    hide AddSegmentCalls;
    hide OnOffer;
    match step
    case Offer(status) => CountersExactOffer(sys, status);
    case Answer => CountGrows(sys.trace, HaveData(sys.round.sourceId, sys.round.requestId, sys.round.answer));
    case NeedData(_, _, _, _) =>
    case Advance =>
    case _ =>
  }

  lemma InitCounters()
    ensures CountersExact(INIT)
  {
  }

  /** Every `addSegment` is counted once, by its status; the all-accepted flag is the two failure counters. */
  lemma {:induction false} CountersAccountForCalls(steps: seq<Step>)
    requires Legal(steps)
    ensures CountersExact(After(steps))
  {
    hide CountersExact;
    if steps == [] {
      InitCounters();
    } else {
      CountersAccountForCalls(steps[..|steps| - 1]);
      CountersExactStep(After(steps[..|steps| - 1]), steps[|steps| - 1]);
    }
  }

  /** The segments built are those sent, those left unsent, and the rest of the round in flight. */
  ghost predicate OfferedExact(sys: System, unsent: int) {
    sys.client.segmentsOffered == AddSegmentCalls(sys.trace) + unsent + BatchInFlight(sys.round) - CallsMade(sys.round)
  }

  lemma OfferedExactOffer(sys: System, status: Status, unsent: int)
    requires Enabled(sys, Offer(status)) && OfferedExact(sys, unsent)
    ensures OfferedExact(OnOffer(sys, status), unsent)
  {
    hide AddSegmentCalls;
    var r := sys.round;
    CountGrows(sys.trace, AddSegment(r.sourceId, r.requestId, r.first + r.accepted, r.batch[r.accepted], status));
  }

  lemma OfferedExactStep(sys: System, step: Step, unsent: int)
    requires Enabled(sys, step) && OfferedExact(sys, unsent)
    ensures OfferedExact(Apply(sys, step), unsent + LeftUnsent(sys, step))
  {
    hide AddSegmentCalls;
    hide OnOffer;
    match step
    case Offer(status) => OfferedExactOffer(sys, status, unsent);
    case Answer => CountGrows(sys.trace, HaveData(sys.round.sourceId, sys.round.requestId, sys.round.answer));
    case _ =>
  }

  /** `m_segmentsOffered` accounts for every segment built, over every run. */
  lemma {:induction false} OfferedAccountsForSegments(steps: seq<Step>)
    requires Legal(steps)
    ensures Unsent(steps) >= 0 && OfferedExact(After(steps), Unsent(steps))
  {
    hide OfferedExact;
    hide LeftUnsent;
    hide CountersExact;
    hide Apply;
    if steps == [] {
      NothingOffered();
    } else {
      var front := steps[..|steps| - 1];
      OfferedAccountsForSegments(front);
      LeftUnsentNat(front, steps[|steps| - 1]);
      OfferedExactStep(After(front), steps[|steps| - 1], Unsent(front));
    }
  }

  lemma LeftUnsentNat(steps: seq<Step>, step: Step)
    requires Legal(steps) && Enabled(After(steps), step)
    ensures LeftUnsent(After(steps), step) >= 0
  {
    CountersAccountForCalls(steps);
  }

  lemma NothingOffered()
    ensures OfferedExact(INIT, 0)
  {
  }

  // ---- Requests and cancellations ----

  /** The requests of a run, in order. */
  function RequestsOf(steps: seq<Step>): seq<NeedDataRecord> {
    if steps == [] then []
    else
      var last := steps[|steps| - 1];
      RequestsOf(steps[..|steps| - 1])
      + if last.NeedData? then [NeedDataRecord(last.sourceId, last.frameCount, last.requestId, last.hasShmInfo)] else []
  }

  function CancellationsOf(steps: seq<Step>): seq<SourceId> {
    if steps == [] then []
    else CancellationsOf(steps[..|steps| - 1]) + if steps[|steps| - 1].CancelNeedData? then [steps[|steps| - 1].sourceId] else []
  }

  lemma RecordsStep(sys: System, step: Step)
    requires Enabled(sys, step)
    ensures var c, next := sys.client, Apply(sys, step).client;
            && next.needDataLog == c.needDataLog + RequestsOf([step])
            && next.cancelCount == c.cancelCount + |CancellationsOf([step])|
            && forall s :: s in next.cancelledSources <==> s in c.cancelledSources || s in CancellationsOf([step])
  {
    hide BuildBatch;
    hide OnOffer;
    assert [step][..0] == [];
    match step
    case Offer(status) => OfferRecords(sys, status);
    case NeedData(_, _, _, _) =>
    case Advance =>
    case _ =>
  }

  lemma OfferRecords(sys: System, status: Status)
    requires Enabled(sys, Offer(status))
    ensures var c, next := sys.client, OnOffer(sys, status).client;
            next.needDataLog == c.needDataLog && next.cancelCount == c.cancelCount && next.cancelledSources == c.cancelledSources
  {
    hide Accept;
    hide Reject;
    BookkeepingRecords(sys.client, sys.round.sourceId, sys.round.first + sys.round.accepted, status);
  }

  lemma BookkeepingRecords(c: Client, s: SourceId, frame: nat, status: Status)
    ensures Accept(c, s, frame).needDataLog == Reject(c, s, frame, status).needDataLog == c.needDataLog
    ensures Accept(c, s, frame).cancelCount == Reject(c, s, frame, status).cancelCount == c.cancelCount
    ensures Accept(c, s, frame).cancelledSources == Reject(c, s, frame, status).cancelledSources == c.cancelledSources
  {
  }

  /** Every request is logged as it came, and every cancellation is counted with its source. */
  lemma {:induction false} RequestsAreLogged(steps: seq<Step>)
    requires Legal(steps)
    ensures After(steps).client.needDataLog == RequestsOf(steps)
    ensures After(steps).client.cancelCount == |CancellationsOf(steps)|
    ensures forall s :: s in After(steps).client.cancelledSources <==> s in CancellationsOf(steps)
  {
    hide Apply;
    if steps != [] {
      var front, last := steps[..|steps| - 1], steps[|steps| - 1];
      RequestsAreLogged(front);
      RecordsStep(After(front), last);
      assert [last][..0] == [];
    }
  }

  // ---- Across sources ----

  function Cursors(feeds: map<SourceId, SourceFeed>): map<SourceId, nat> {
    map s | s in feeds :: feeds[s].nextFrame
  }

  /** The sum of all sources' cursors. */
  ghost function AllCursors(c: Client): nat {
    Sum(Cursors(c.feeds))
  }

  lemma CursorMoves(feeds: map<SourceId, SourceFeed>, s: SourceId, feed: SourceFeed)
    ensures Sum(Cursors(feeds[s := feed])) == Sum(Cursors(feeds)) + feed.nextFrame - if s in feeds then feeds[s].nextFrame else 0
  {
    hide Sum;
    assert Cursors(feeds[s := feed]) == Cursors(feeds)[s := feed.nextFrame];
    SumUpdate(Cursors(feeds), s, feed.nextFrame);
  }

  function InFlightAccepted(round: Round): nat {
    if round.Offering? then round.accepted else 0
  }

  /** The cursors and the round in flight add up to the accepted segments. */
  ghost predicate CursorsExact(sys: System) {
    && AllCursors(sys.client) + InFlightAccepted(sys.round) == sys.client.addOk
    && (sys.round.Offering? ==> sys.round.sourceId in sys.client.feeds)
  }

  lemma CursorsOffer(sys: System, status: Status)
    requires Enabled(sys, Offer(status)) && CursorsExact(sys)
    ensures CursorsExact(OnOffer(sys, status))
  {
    hide Sum;
    hide Cursors;
    var r := sys.round;
    BookkeepingKeepsFeeds(sys.client, r.sourceId, r.first + r.accepted, status);
    if status == Ok {
      assert OnOffer(sys, status).client.addOk == sys.client.addOk + 1;
    } else {
      assert OnOffer(sys, status).client.addOk == sys.client.addOk;
    }
  }

  lemma CursorsAdvance(sys: System)
    requires Enabled(sys, Advance) && CursorsExact(sys)
    ensures CursorsExact(OnAdvance(sys))
  {
    hide Sum;
    hide Cursors;
    var s := sys.round.sourceId;
    var feed := sys.client.feeds[s];
    CursorMoves(sys.client.feeds, s, feed.(nextFrame := feed.nextFrame + sys.round.accepted));
  }

  lemma CursorsStep(sys: System, step: Step)
    requires Enabled(sys, step) && FreshSource(sys, step) && !step.Rewind? && CursorsExact(sys)
    ensures CursorsExact(Apply(sys, step))
  {
    hide Sum;
    hide Cursors;
    hide OnOffer;
    hide OnAdvance;
    hide BuildBatch;
    match step
    case Offer(status) => CursorsOffer(sys, status);
    case Advance => CursorsAdvance(sys);
    case AddSource(s, stream) => CursorMoves(sys.client.feeds, s, SourceFeed(stream, 0));
    case _ =>
  }

  /** Without rewinds or re-registration the cursors of all sources add up to the accepted segments. */
  lemma {:induction false} CursorsAddUp(steps: seq<Step>)
    requires Legal(steps) && RegisteredOnce(steps) && NoRewind(steps)
    ensures CursorsExact(After(steps))
  {
    hide CursorsExact;
    if steps == [] {
      NoCursors();
    } else {
      LastIsFresh(steps);
      CursorsAddUp(steps[..|steps| - 1]);
      CursorsStep(After(steps[..|steps| - 1]), steps[|steps| - 1]);
    }
  }

  lemma NoCursors()
    ensures CursorsExact(INIT)
  {
    assert Cursors(INIT.client.feeds) == map[];
  }
}
