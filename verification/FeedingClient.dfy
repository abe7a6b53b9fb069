/**
 The feeding client itself: its fields, its lock sections, and the need-data callback that strings
 them together. Every lock section is one step of the feed machine; the ghost `history` collects
 the steps taken, so whatever holds over all runs of the machine holds of the object.
 */
module FeedingPipelineClient {
  import opened Basics
  import opened MediaStream
  import opened FeedMachine
  import opened FeedRetention
  import opened FeedRounds

  lemma Extend(history: seq<Step>, step: Step)
    requires Legal(history) && Enabled(After(history), step)
    ensures Legal(history + [step]) && After(history + [step]) == Apply(After(history), step)
  {
    RunOne(INIT, history, step);
  }

  lemma RequestedFields(c: Client, s: SourceId, frameCount: Size, requestId: nat, hasShmInfo: bool)
    ensures var r := Requested(c, s, frameCount, requestId, hasShmInfo);
            && r.hasPipeline == c.hasPipeline && r.feeds == c.feeds && r.withhold == c.withhold && r.starve == c.starve
            && r.oversupply == c.oversupply && r.corruptEvery == c.corruptEvery && r.segmentsOffered == c.segmentsOffered
  {
  }

  /** The first lock section, case by case. */
  lemma NeedDataOutcome(sys: System, s: SourceId, frameCount: Size, requestId: nat, hasShmInfo: bool)
    ensures var c := Requested(sys.client, s, frameCount, requestId, hasShmInfo);
            if !c.hasPipeline || s !in c.feeds then OnNeedData(sys, s, frameCount, requestId, hasShmInfo) == System(c, sys.round, sys.trace)
            else
              var feed := c.feeds[s];
              var batch := BuildBatch(feed.stream, s, feed.nextFrame, OfferLimit(frameCount, c.oversupply), c.segmentsOffered, c.corruptEvery);
              OnNeedData(sys, s, frameCount, requestId, hasShmInfo)
              == System(c.(segmentsOffered := c.segmentsOffered + |batch|),
                        if c.withhold then Idle else if c.starve then Starving(s, requestId)
                        else Offering(s, requestId, feed.nextFrame, batch, 0, false),
                        sys.trace)
  {
    hide BuildBatch;
    hide Requested;
  }

  /** An offer, part by part. */
  lemma OfferOutcome(sys: System, status: Status)
    requires Enabled(sys, Offer(status))
    ensures var r, next := sys.round, Apply(sys, Offer(status));
            && next.client == (if status == Ok then Accept(sys.client, r.sourceId, r.first + r.accepted)
                               else Reject(sys.client, r.sourceId, r.first + r.accepted, status))
            && next.round == (if status == Ok then r.(accepted := r.accepted + 1) else r.(stopped := true))
            && next.trace == sys.trace + [AddSegment(r.sourceId, r.requestId, r.first + r.accepted, r.batch[r.accepted], status)]
  {
    hide Accept;
    hide Reject;
  }

  /** From `start` on, the steps of one callback: the request, then steps of its round and of the main thread. */
  ghost predicate CallbackSince(history: seq<Step>, start: nat, request: Step) {
    start < |history| && history[start] == request &&
    forall i :: start < i < |history| ==> !history[i].NeedData? && !history[i].CancelNeedData?
  }

  /** The `k`-th call from `sent` on, if it is an `addSegment`, was answered `server(k)`. */
  ghost predicate FollowsServer(trace: seq<ServerCall>, sent: nat, server: nat -> Status) {
    forall k: nat :: sent <= k < |trace| && trace[k].AddSegment? ==> trace[k].status == server(k - sent)
  }

  lemma CallbackBegins(history: seq<Step>, request: Step)
    ensures CallbackSince(history + [request], |history|, request)
  {
  }

  lemma FollowsNothing(trace: seq<ServerCall>, server: nat -> Status)
    ensures FollowsServer(trace, |trace|, server)
  {
  }

  lemma FollowsMore(trace: seq<ServerCall>, sent: nat, server: nat -> Status, call: ServerCall)
    requires sent <= |trace| && FollowsServer(trace, sent, server)
    requires call.AddSegment? ==> call.status == server(|trace| - sent)
    ensures FollowsServer(trace + [call], sent, server)
  {
  }

  lemma CallbackMore(history: seq<Step>, start: nat, request: Step, steps: seq<Step>)
    requires CallbackSince(history, start, request)
    requires forall i :: 0 <= i < |steps| ==> !steps[i].NeedData? && !steps[i].CancelNeedData?
    ensures CallbackSince(history + steps, start, request)
  {
  }

  class FeedingClient {
    var hasPipeline: bool
    var feeds: map<SourceId, SourceFeed>
    var needDataLog: seq<NeedDataRecord>
    var pendingNeedData: set<SourceId>
    var overlappingNeedData: bool
    var allSegmentsAccepted: bool
    var starve: bool
    var oversupply: Size
    var withhold: bool
    var corruptEvery: Size
    var segmentsOffered: nat
    var addOk: nat
    var addNoSpace: nat
    var addError: nat
    var noSpaceFrame: map<SourceId, nat>
    var noSpaceSegmentAccepted: bool
    var cancelCount: nat
    var cancelledSources: set<SourceId>

    /** The callback in flight, the calls made on the pipeline, and the steps taken so far. */
    ghost var round: Round
    ghost var trace: seq<ServerCall>
    ghost var history: seq<Step>

    function Fields(): Client
      reads this`hasPipeline, this`feeds, this`needDataLog, this`pendingNeedData, this`overlappingNeedData
      reads this`allSegmentsAccepted, this`starve, this`oversupply, this`withhold, this`corruptEvery, this`segmentsOffered
      reads this`addOk, this`addNoSpace, this`addError, this`noSpaceFrame, this`noSpaceSegmentAccepted
      reads this`cancelCount, this`cancelledSources
    {
      Client(hasPipeline, feeds, needDataLog, pendingNeedData, overlappingNeedData, allSegmentsAccepted, starve, oversupply,
             withhold, corruptEvery, segmentsOffered, addOk, addNoSpace, addError, noSpaceFrame, noSpaceSegmentAccepted,
             cancelCount, cancelledSources)
    }

    /** The object is where its history leads. */
    ghost predicate Valid()
      reads this
    {
      Legal(history) && After(history) == System(Fields(), round, trace)
    }

    constructor ()
      ensures Valid() && round.Idle? && history == [] && trace == [] && Fields() == INIT.client
    {
      hasPipeline, feeds, needDataLog, pendingNeedData, overlappingNeedData := false, map[], [], {}, false;
      allSegmentsAccepted, starve, oversupply, withhold, corruptEvery := true, false, 1, false, 0;
      segmentsOffered, addOk, addNoSpace, addError, noSpaceFrame := 0, 0, 0, 0, map[];
      noSpaceSegmentAccepted, cancelCount, cancelledSources := false, 0, {};
      round, trace, history := Idle, [], [];
    }

    // ---- Main thread ----

    method BindPipeline()
      requires Valid()
      modifies this`hasPipeline, this`history
      ensures Valid() && history == old(history) + [SetPipeline]
      ensures hasPipeline
    {
      hide From;
      hide LegalFrom;
      Extend(history, SetPipeline);
      hasPipeline := true;
      history := history + [SetPipeline];
    }

    method AddAudioSource(sourceId: SourceId, stream: Stream)
      requires Valid()
      modifies this`feeds, this`history
      ensures Valid() && history == old(history) + [AddSource(sourceId, stream)]
      ensures feeds == old(feeds)[sourceId := SourceFeed(stream, 0)]
    {
      hide From;
      hide LegalFrom;
      Extend(history, AddSource(sourceId, stream));
      feeds := feeds[sourceId := SourceFeed(stream, 0)];
      history := history + [AddSource(sourceId, stream)];
    }

    method RewindSource(sourceId: SourceId)
      requires Valid()
      modifies this`feeds, this`history
      ensures Valid() && history == old(history) + [Rewind(sourceId)]
      ensures feeds.Keys == old(feeds).Keys
      ensures forall s :: s in feeds ==> feeds[s] == if s == sourceId then SourceFeed(old(feeds)[s].stream, 0) else old(feeds)[s]
    {
      hide From;
      hide LegalFrom;
      Extend(history, Rewind(sourceId));
      if sourceId in feeds {
        feeds := feeds[sourceId := feeds[sourceId].(nextFrame := 0)];
      }
      history := history + [Rewind(sourceId)];
    }

    method SetOversupplyMultiple(multiple: Size)
      requires Valid()
      modifies this`oversupply, this`history
      ensures Valid() && history == old(history) + [SetOversupply(multiple)]
      ensures oversupply >= 1 && (multiple != 0 ==> oversupply == multiple) && (multiple == 0 ==> oversupply == 1)
    {
      hide From;
      hide LegalFrom;
      Extend(history, SetOversupply(multiple));
      oversupply := if multiple == 0 then 1 else multiple;
      history := history + [SetOversupply(multiple)];
    }

    method SetWithholding(on: bool)
      requires Valid()
      modifies this`withhold, this`history
      ensures Valid() && history == old(history) + [SetWithhold(on)]
      ensures withhold == on
    {
      hide From;
      hide LegalFrom;
      Extend(history, SetWithhold(on));
      withhold := on;
      history := history + [SetWithhold(on)];
    }

    method SetStarving(on: bool)
      requires Valid()
      modifies this`starve, this`history
      ensures Valid() && history == old(history) + [SetStarve(on)]
      ensures starve == on
    {
      hide From;
      hide LegalFrom;
      Extend(history, SetStarve(on));
      starve := on;
      history := history + [SetStarve(on)];
    }

    method SetCorruption(nth: Size)
      requires Valid()
      modifies this`corruptEvery, this`history
      ensures Valid() && history == old(history) + [SetCorruptEvery(nth)]
      ensures corruptEvery == nth
    {
      hide From;
      hide LegalFrom;
      Extend(history, SetCorruptEvery(nth));
      corruptEvery := nth;
      history := history + [SetCorruptEvery(nth)];
    }

    /** Whatever the main thread does between two lock sections of the server's thread. */
    method Interfere(steps: seq<Step>)
      requires Valid() && forall i :: 0 <= i < |steps| ==> MainStep(steps[i])
      modifies this
      ensures Valid() && history == old(history) + steps && round == old(round) && trace == old(trace)
    {
      hide Valid;
      for i := 0 to |steps|
        invariant Valid() && history == old(history) + steps[..i] && round == old(round) && trace == old(trace)
      {
        match steps[i] {
          case SetPipeline => BindPipeline();
          case AddSource(s, stream) => AddAudioSource(s, stream);
          case Rewind(s) => RewindSource(s);
          case SetOversupply(multiple) => SetOversupplyMultiple(multiple);
          case SetWithhold(on) => SetWithholding(on);
          case SetStarve(on) => SetStarving(on);
          case SetCorruptEvery(nth) => SetCorruption(nth);
        }
        assert steps[..i + 1] == steps[..i] + [steps[i]];
      }
      assert steps[..|steps|] == steps;
    }

    // ---- The server's thread ----

    method NotifyCancelNeedMediaData(sourceId: SourceId)
      requires Valid() && round.Idle?
      modifies this`cancelCount, this`cancelledSources, this`pendingNeedData, this`history
      ensures Valid() && round.Idle? && history == old(history) + [CancelNeedData(sourceId)]
      ensures pendingNeedData == old(pendingNeedData) - {sourceId}
      ensures cancelCount == old(cancelCount) + 1 && cancelledSources == old(cancelledSources) + {sourceId}
    {
      hide From;
      hide LegalFrom;
      Extend(history, CancelNeedData(sourceId));
      cancelCount := cancelCount + 1;
      cancelledSources := cancelledSources + {sourceId};
      pendingNeedData := pendingNeedData - {sourceId};
      history := history + [CancelNeedData(sourceId)];
    }

    /** The batch loop of the first lock section. */
    method BuildSegments(sourceId: SourceId, feed: SourceFeed, limit: nat) returns (batch: seq<Segment>)
      modifies this`segmentsOffered
      ensures batch == BuildBatch(feed.stream, sourceId, feed.nextFrame, limit, old(segmentsOffered), corruptEvery)
      ensures BatchCarries(batch, feed.stream, sourceId, feed.nextFrame, old(segmentsOffered), corruptEvery)
      ensures |batch| <= limit && (|batch| < limit ==> feed.nextFrame + |batch| >= |feed.stream.frames|)
      ensures Fields() == old(Fields()).(segmentsOffered := old(segmentsOffered) + |batch|)
    {
      hide BuildSegment;
      hide Corrupted;
      batch := [];
      var idx := feed.nextFrame;
      ghost var offered := segmentsOffered;
      ghost var size := BatchSize(|feed.stream.frames|, feed.nextFrame, limit);
      while idx < |feed.stream.frames| && |batch| < limit
        invariant idx == feed.nextFrame + |batch| && |batch| <= size
        invariant segmentsOffered == offered + |batch|
        invariant size > 0 ==> feed.nextFrame + size <= |feed.stream.frames|
        invariant forall k :: 0 <= k < |batch| ==>
                    batch[k] == BuildSegment(feed.stream, sourceId, feed.nextFrame + k, Corrupted(offered + k + 1, corruptEvery))
      {
        segmentsOffered := segmentsOffered + 1;
        batch := batch + [BuildSegment(feed.stream, sourceId, idx, Corrupted(segmentsOffered, corruptEvery))];
        idx := idx + 1;
      }
    }

    /** The bookkeeping at the start of the first lock section. */
    method NoteRequest(sourceId: SourceId, frameCount: Size, requestId: nat, hasShmInfo: bool)
      modifies this`needDataLog, this`overlappingNeedData, this`pendingNeedData
      ensures Fields() == Requested(old(Fields()), sourceId, frameCount, requestId, hasShmInfo)
      ensures needDataLog == old(needDataLog) + [NeedDataRecord(sourceId, frameCount, requestId, hasShmInfo)]
      ensures pendingNeedData == old(pendingNeedData) + {sourceId}
      ensures overlappingNeedData == (old(overlappingNeedData) || sourceId in old(pendingNeedData))
    {
      needDataLog := needDataLog + [NeedDataRecord(sourceId, frameCount, requestId, hasShmInfo)];
      if sourceId in pendingNeedData {
        overlappingNeedData := true;
      }
      pendingNeedData := pendingNeedData + {sourceId};
    }

    /** The first lock section; `offering` says whether the callback goes on to offer a batch. */
    method BeginRound(sourceId: SourceId, frameCount: Size, requestId: nat, hasShmInfo: bool)
      returns (offering: bool, starving: bool, firstFrame: nat, batch: seq<Segment>)
      requires Valid() && round.Idle?
      modifies this`needDataLog, this`overlappingNeedData, this`pendingNeedData, this`segmentsOffered, this`round, this`history
      ensures Valid() && history == old(history) + [NeedData(sourceId, frameCount, requestId, hasShmInfo)]
      ensures !(offering && starving)
      ensures round == if offering then Offering(sourceId, requestId, firstFrame, batch, 0, false)
                       else if starving then Starving(sourceId, requestId) else Idle
    {
      hide From;
      hide LegalFrom;
      hide OnNeedData;
      hide Fields;
      hide BuildBatch;
      hide OfferLimit;
      hide Requested;
      ghost var step := NeedData(sourceId, frameCount, requestId, hasShmInfo);
      ghost var before := Fields();
      ExtendBy(step);
      NoteRequest(sourceId, frameCount, requestId, hasShmInfo);
      RequestedFields(before, sourceId, frameCount, requestId, hasShmInfo);
      FieldsView();
      NeedDataOutcome(System(before, round, trace), sourceId, frameCount, requestId, hasShmInfo);
      history := history + [step];
      if !hasPipeline || sourceId !in feeds {
        return false, false, 0, [];
      }
      firstFrame := feeds[sourceId].nextFrame;
      batch := BuildSegments(sourceId, feeds[sourceId], OfferLimit(frameCount, oversupply));
      offering, starving := !withhold && !starve, !withhold && starve;
      round := if offering then Offering(sourceId, requestId, firstFrame, batch, 0, false)
               else if starving then Starving(sourceId, requestId) else Idle;
    }

    lemma FieldsView()
      ensures var c := Fields();
              && c.hasPipeline == hasPipeline && c.feeds == feeds && c.withhold == withhold && c.starve == starve
              && c.oversupply == oversupply && c.corruptEvery == corruptEvery && c.segmentsOffered == segmentsOffered
              && c.pendingNeedData == pendingNeedData
    {
    }

    lemma ExtendBy(step: Step)
      requires Valid() && Enabled(System(Fields(), round, trace), step)
      ensures Legal(history + [step]) && After(history + [step]) == Apply(System(Fields(), round, trace), step)
    {
      hide From;
      hide LegalFrom;
      Extend(history, step);
    }

    method NoteAccepted(sourceId: SourceId, frame: nat)
      modifies this`addOk, this`noSpaceSegmentAccepted, this`noSpaceFrame
      ensures Fields() == Accept(old(Fields()), sourceId, frame)
    {
      addOk := addOk + 1;
      if sourceId in noSpaceFrame && frame == noSpaceFrame[sourceId] {
        noSpaceSegmentAccepted := true;
        noSpaceFrame := noSpaceFrame - {sourceId};
      }
    }

    method NoteRejected(sourceId: SourceId, frame: nat, status: Status)
      requires status != Ok
      modifies this`allSegmentsAccepted, this`addNoSpace, this`addError, this`noSpaceFrame
      ensures Fields() == Reject(old(Fields()), sourceId, frame, status)
    {
      allSegmentsAccepted := false;
      if status == NoSpace {
        addNoSpace := addNoSpace + 1;
        noSpaceFrame := noSpaceFrame[sourceId := frame];
      } else {
        addError := addError + 1;
      }
    }

    /** One `addSegment` and the lock section behind it. */
    method RecordOffer(sourceId: SourceId, frame: nat, status: Status)
      requires Valid() && Enabled(After(history), Offer(status))
      requires round.sourceId == sourceId && round.first + round.accepted == frame
      modifies this
      ensures Valid() && history == old(history) + [Offer(status)]
      ensures round == if status == Ok then old(round).(accepted := old(round).accepted + 1) else old(round).(stopped := true)
      ensures trace == old(trace) + [AddSegment(sourceId, old(round.requestId), frame, old(round.batch)[old(round.accepted)], status)]
    {
      hide From;
      hide LegalFrom;
      hide Fields;
      hide Accept;
      hide Reject;
      hide OnOffer;
      ExtendBy(Offer(status));
      OfferOutcome(System(Fields(), round, trace), status);
      if status != Ok {
        NoteRejected(sourceId, frame, status);
      } else {
        NoteAccepted(sourceId, frame);
      }
      trace := trace + [AddSegment(sourceId, round.requestId, frame, round.batch[round.accepted], status)];
      round := if status == Ok then round.(accepted := round.accepted + 1) else round.(stopped := true);
      history := history + [Offer(status)];
    }

    /** The body of the last lock section. */
    method MoveCursor(sourceId: SourceId, accepted: nat) returns (atEndOfStream: bool)
      modifies this`feeds, this`pendingNeedData
      ensures Fields() == old(Fields()).(pendingNeedData := old(pendingNeedData) - {sourceId}, feeds := feeds)
      ensures feeds == if sourceId in old(feeds)
                       then old(feeds)[sourceId := old(feeds)[sourceId].(nextFrame := old(feeds)[sourceId].nextFrame + accepted)]
                       else old(feeds)
      ensures atEndOfStream <==> sourceId in feeds && feeds[sourceId].nextFrame >= |feeds[sourceId].stream.frames|
    {
      atEndOfStream := false;
      if sourceId in feeds {
        feeds := feeds[sourceId := feeds[sourceId].(nextFrame := feeds[sourceId].nextFrame + accepted)];
        atEndOfStream := feeds[sourceId].nextFrame >= |feeds[sourceId].stream.frames|;
      }
      pendingNeedData := pendingNeedData - {sourceId};
    }

    /** The last lock section: the cursor moves past what was accepted. */
    method AdvanceCursor(sourceId: SourceId, ghost requestId: nat, accepted: nat) returns (atEndOfStream: bool)
      requires Valid() && Enabled(After(history), Advance)
      requires round.sourceId == sourceId && round.requestId == requestId && round.accepted == accepted
      modifies this`feeds, this`pendingNeedData, this`round, this`history
      ensures Valid() && history == old(history) + [Advance]
      ensures round == Answering(sourceId, requestId, if atEndOfStream then SourceEos else SourceOk)
      ensures atEndOfStream <==> sourceId in feeds && feeds[sourceId].nextFrame >= |feeds[sourceId].stream.frames|
      ensures sourceId in old(feeds) ==>
                feeds == old(feeds)[sourceId := old(feeds)[sourceId].(nextFrame := old(feeds)[sourceId].nextFrame + accepted)]
    {
      hide From;
      hide LegalFrom;
      hide Fields;
      FieldsView();
      ExtendBy(Advance);
      atEndOfStream := MoveCursor(sourceId, accepted);
      history := history + [Advance];
      round := Answering(sourceId, requestId, if atEndOfStream then SourceEos else SourceOk);
    }

    method EndStarvedRound(sourceId: SourceId)
      requires Valid() && round.Starving? && round.sourceId == sourceId
      modifies this`pendingNeedData, this`round, this`history
      ensures Valid() && history == old(history) + [EndStarved]
      ensures round == Answering(sourceId, old(round.requestId), SourceOk)
    {
      hide From;
      hide LegalFrom;
      Extend(history, EndStarved);
      pendingNeedData := pendingNeedData - {sourceId};
      history := history + [EndStarved];
      round := After(history).round;
    }

    /** `haveData` */
    method SendHaveData(sourceId: SourceId, requestId: nat, answer: SourceStatus)
      requires Valid() && round == Answering(sourceId, requestId, answer)
      modifies this`round, this`trace, this`history
      ensures Valid() && round.Idle? && history == old(history) + [Answer]
      ensures trace == old(trace) + [HaveData(sourceId, requestId, answer)]
    {
      hide From;
      hide LegalFrom;
      Extend(history, Answer);
      history := history + [Answer];
      round := Idle;
      trace := trace + [HaveData(sourceId, requestId, answer)];
    }

    /** The answer at the end of a callback. */
    method AnswerRound(sourceId: SourceId, requestId: nat, answer: SourceStatus, ghost start: nat, ghost sent: nat,
                       ghost request: Step, ghost server: nat -> Status)
      requires Valid() && round == Answering(sourceId, requestId, answer)
      requires CallbackSince(history, start, request) && sent <= |trace| && FollowsServer(trace, sent, server)
      modifies this`round, this`trace, this`history
      ensures Valid() && round.Idle? && old(history) <= history && old(trace) <= trace
      ensures CallbackSince(history, start, request) && FollowsServer(trace, sent, server)
    {
      hide Valid;
      hide Fields;
      hide CallbackSince;
      hide FollowsServer;
      CallbackMore(history, start, request, [Answer]);
      FollowsMore(trace, sent, server, HaveData(sourceId, requestId, answer));
      SendHaveData(sourceId, requestId, answer);
    }

    /** The offering loop: up to the first status that is not OK. */
    method OfferBatch(sourceId: SourceId, requestId: nat, firstFrame: nat, batch: seq<Segment>, ghost start: nat, ghost sent: nat,
                      ghost request: Step, server: nat -> Status, world: nat -> seq<Step>)
      returns (accepted: nat)
      requires Valid() && round == Offering(sourceId, requestId, firstFrame, batch, 0, false)
      requires forall g: nat, i :: 0 <= i < |world(g)| ==> MainStep(world(g)[i])
      requires |trace| == sent && CallbackSince(history, start, request)
      modifies this
      ensures Valid() && accepted <= |batch| && old(history) <= history && old(trace) <= trace
      ensures exists stopped :: round == Offering(sourceId, requestId, firstFrame, batch, accepted, stopped) && (stopped || accepted == |batch|)
      ensures CallbackSince(history, start, request) && FollowsServer(trace, sent, server)
    {
      hide Valid;
      hide Fields;
      hide FollowsServer;
      hide CallbackSince;
      FollowsNothing(trace, server);
      accepted := 0;
      var stopped := false;
      while accepted < |batch| && !stopped
        invariant Valid() && accepted <= |batch| && round == Offering(sourceId, requestId, firstFrame, batch, accepted, stopped)
        invariant old(history) <= history && CallbackSince(history, start, request)
        invariant old(trace) <= trace && |trace| == sent + accepted + (if stopped then 1 else 0)
        invariant FollowsServer(trace, sent, server)
        decreases |batch| - accepted, !stopped
      {
        var status := server(accepted);
        ValidRound();
        CallbackMore(history, start, request, [Offer(status)]);
        FollowsMore(trace, sent, server, AddSegment(sourceId, requestId, firstFrame + accepted, batch[accepted], status));
        RecordOffer(sourceId, firstFrame + accepted, status);
        if status != Ok {
          stopped := true;
        } else {
          accepted := accepted + 1;
        }
        Gap(start, request, world(if stopped then 2 + |batch| else 1 + accepted));
      }
    }

    /**
     The need-data callback. `server(k)` is the answer to its `k`-th `addSegment`; `world(g)` is what
     the main thread does in the `g`-th gap between its lock sections.
     */
    method NotifyNeedMediaData(sourceId: SourceId, frameCount: Size, requestId: nat, hasShmInfo: bool,
                               server: nat -> Status, world: nat -> seq<Step>)
      requires Valid() && round.Idle?
      requires forall g: nat, i :: 0 <= i < |world(g)| ==> MainStep(world(g)[i])
      modifies this
      ensures Valid() && round.Idle? && old(history) <= history && old(trace) <= trace
      ensures CallbackSince(history, |old(history)|, NeedData(sourceId, frameCount, requestId, hasShmInfo))
      ensures FollowsServer(trace, |old(trace)|, server)
      ensures RoundShape(old(System(Fields(), round, trace)), NeedData(sourceId, frameCount, requestId, hasShmInfo),
                         Idle, trace[|old(trace)|..])
    {
      hide Valid;
      hide Fields;
      hide RoundShape;
      hide FollowsServer;
      hide CallbackSince;
      ghost var start, sent := |history|, |trace|;
      ghost var found := System(Fields(), round, trace);
      ValidMeans();
      ghost var request := NeedData(sourceId, frameCount, requestId, hasShmInfo);
      var offering, starving, firstFrame, batch := BeginRound(sourceId, frameCount, requestId, hasShmInfo);
      CallbackBegins(old(history), request);
      FollowsNothing(trace, server);
      Gap(start, request, world(0));
      if starving {
        CallbackMore(history, start, request, [EndStarved]);
        EndStarvedRound(sourceId);
        Gap(start, request, world(1));
        AnswerRound(sourceId, requestId, SourceOk, start, sent, request, server);
        RoundDone(start, sent, old(history), found, request);
        return;
      }
      if !offering {
        RoundDone(start, sent, old(history), found, request);
        return;
      }
      var accepted := OfferBatch(sourceId, requestId, firstFrame, batch, start, sent, request, server, world);
      ValidRound();
      CallbackMore(history, start, request, [Advance]);
      var atEndOfStream := AdvanceCursor(sourceId, requestId, accepted);
      Gap(start, request, world(3 + |batch|));
      AnswerRound(sourceId, requestId, if atEndOfStream then SourceEos else SourceOk, start, sent, request, server);
      RoundDone(start, sent, old(history), found, request);
    }

    lemma ValidMeans()
      requires Valid()
      ensures Legal(history) && After(history) == System(Fields(), round, trace)
    {
    }

    /** The finished round has the shape every round has. */
    lemma RoundDone(start: nat, sent: nat, before: seq<Step>, found: System, request: Step)
      requires Valid() && Legal(before) && After(before) == found && |found.trace| == sent
      requires before <= history && start == |before| && request.NeedData? && CallbackSince(history, start, request)
      ensures sent <= |trace| && RoundShape(found, request, round, trace[sent..])
    {
      hide RoundShape;
      assert history[..start] == before;
      assert LastRequest(history) == Some(start);
      var n := RoundsAreShaped(history, start);
    }

    /** A gap of the callback, filled by main-thread steps. */
    method Gap(ghost start: nat, ghost request: Step, steps: seq<Step>)
      requires Valid() && forall i :: 0 <= i < |steps| ==> MainStep(steps[i])
      requires CallbackSince(history, start, request)
      modifies this
      ensures Valid() && round == old(round) && trace == old(trace) && old(history) <= history
      ensures CallbackSince(history, start, request)
    {
      hide Valid;
      CallbackMore(history, start, request, steps);
      Interfere(steps);
    }

    lemma ValidRound()
      requires Valid()
      ensures Legal(history) && After(history).round == round
    {
    }

    // ---- What the observations mean ----

    /** RC-CORE-DATA-004: a rejected frame was retained and accepted later. */
    method SawNoSpaceSegmentAccepted() returns (saw: bool)
      requires Valid() && RegisteredOnce(history)
      ensures saw <==> exists i: nat, j: nat, s: SourceId, frame: nat :: Resent(trace, i, j, s, frame)
    {
      hide Sent;
      ResendFlagIff(history);
      return noSpaceSegmentAccepted;
    }

    /** RC-CORE-DATA-002: a request met an outstanding one of its source. */
    method SawOverlappingNeedData() returns (saw: bool)
      requires Valid()
      ensures saw <==> exists i: nat, k: nat :: Overlap(history, i, k)
    {
      OverlapsAreDetected(history);
      return overlappingNeedData;
    }

    /** RC-CORE-DATA-003: no `addSegment` failed. */
    method AllSegmentsAccepted() returns (all: bool)
      requires Valid()
      ensures all <==> forall k :: 0 <= k < |trace| && trace[k].AddSegment? ==> trace[k].status == Ok
    {
      AllAcceptedMeaning(history);
      return allSegmentsAccepted;
    }
  }

  lemma {:induction false} AllAcceptedMeaning(steps: seq<Step>)
    requires Legal(steps)
    ensures After(steps).client.allSegmentsAccepted <==>
              forall k :: 0 <= k < |After(steps).trace| && After(steps).trace[k].AddSegment? ==> After(steps).trace[k].status == Ok
  {
    if steps != [] {
      hide Apply;
      AllAcceptedMeaning(steps[..|steps| - 1]);
      AllAcceptedStep(After(steps[..|steps| - 1]), steps[|steps| - 1]);
    }
  }

  lemma AllAcceptedStep(sys: System, step: Step)
    requires Enabled(sys, step)
    requires sys.client.allSegmentsAccepted <==>
               forall k :: 0 <= k < |sys.trace| && sys.trace[k].AddSegment? ==> sys.trace[k].status == Ok
    ensures Apply(sys, step).client.allSegmentsAccepted <==>
              forall k :: 0 <= k < |Apply(sys, step).trace| && Apply(sys, step).trace[k].AddSegment? ==> Apply(sys, step).trace[k].status == Ok
  {
    hide Apply;
    SentIsTraced(sys, step);
    FlagOfStep(sys, step);
    var next := Apply(sys, step);
    assert forall k :: 0 <= k < |sys.trace| ==> next.trace[k] == sys.trace[k];
    if step.Offer? {
      assert next.trace[|sys.trace|].status == step.status;
    }
  }

  lemma FlagOfStep(sys: System, step: Step)
    requires Enabled(sys, step)
    ensures Apply(sys, step).client.allSegmentsAccepted == (sys.client.allSegmentsAccepted && (step.Offer? ==> step.status == Ok))
  {
    hide BuildBatch;
    hide OnOffer;
    match step
    case Offer(status) => OfferOutcome(sys, status);
    case NeedData(_, _, _, _) =>
    case Advance =>
    case _ =>
  }
}
