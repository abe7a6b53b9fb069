/**
 The endless replay of the two MSE sink feeds (audio and video run the same code): the frame list
 is pushed over and over, with a presentation time offset that grows by the stream's duration.
 */
module Replay {
  import opened Basics
  import opened MediaStream

  datatype Pushed = Pushed(data: seq<Byte>, pts: int, duration: int)

  function Pts(frames: seq<EncodedFrame>, k: nat): int
    requires frames != []
  {
    frames[k % |frames|].timeStamp + k / |frames| * Duration(frames)
  }

  /** The `k`-th buffer of the replay, counted from 0. */
  function Replayed(frames: seq<EncodedFrame>, k: nat): Pushed
    requires frames != []
  {
    Pushed(frames[k % |frames|].data, Pts(frames, k), frames[k % |frames|].duration)
  }

  lemma DivModUnique(k: nat, q: nat, r: nat, n: nat)
    requires r < n && k == q * n + r
    ensures k / n == q && k % n == r
  {
    var d := k / n - q;
    assert k == n * (k / n) + k % n;
    assert n * d == r - k % n;
    assert d >= 1 ==> n * d >= n;
    assert d <= -1 ==> n * d <= -1 * n;
  }

  class SinkFeed {
    const frames: seq<EncodedFrame>
    var nextFrame: nat
    var loopCount: nat
    const streamDurationNs: int
    var eosSignalled: bool
    /** What went into the appsrc: the buffers, and how often end-of-stream was signalled. */
    var pushed: seq<Pushed>
    var eosCount: nat
    const hasAppsrc: bool

    /** Everything pushed so far is the start of the replay, and the cursor says how far it got. */
    ghost predicate Valid()
      reads this
    {
      && streamDurationNs == Duration(frames)
      && nextFrame <= |frames|
      && |pushed| == loopCount * |frames| + nextFrame
      && (frames != [] ==> forall k :: 0 <= k < |pushed| ==> pushed[k] == Replayed(frames, k))
      && eosCount == if eosSignalled then 1 else 0
    }

    constructor (stream: seq<EncodedFrame>, hasAppsrc: bool)
      ensures Valid() && frames == stream && pushed == [] && !eosSignalled && this.hasAppsrc == hasAppsrc
    {
      var total := TotalDurationNs(stream);
      frames := stream;
      streamDurationNs := total;
      nextFrame, loopCount, eosSignalled, pushed, eosCount := 0, 0, false, [], 0;
      this.hasAppsrc := hasAppsrc;
    }

    method PushNextFrame()
      requires Valid()
      modifies this
      ensures Valid() && eosSignalled == old(eosSignalled)
      ensures pushed == old(pushed)
                        + if old(eosSignalled) || frames == [] then [] else [Replayed(frames, |old(pushed)|)]
      ensures !old(eosSignalled) && frames != [] ==>
                var k := |old(pushed)|;
                && |pushed| == k + 1
                && pushed[k].data == frames[k % |frames|].data
                && pushed[k].duration == frames[k % |frames|].duration
                && pushed[k].pts == frames[k % |frames|].timeStamp + k / |frames| * Duration(frames)
    {
      if eosSignalled || frames == [] {
        return;
      }
      if nextFrame >= |frames| {
        nextFrame := 0;
        loopCount := loopCount + 1;
      }
      DivModUnique(|pushed|, loopCount, nextFrame, |frames|);
      var frame := frames[nextFrame];
      nextFrame := nextFrame + 1;
      var pts := frame.timeStamp + loopCount * streamDurationNs;
      pushed := pushed + [Pushed(frame.data, pts, frame.duration)];
    }

    method SignalEos()
      requires Valid()
      modifies this
      ensures Valid() && pushed == old(pushed)
      ensures eosSignalled == (old(eosSignalled) || hasAppsrc)
    {
      if !eosSignalled && hasAppsrc {
        eosSignalled := true;
        eosCount := eosCount + 1;
      }
    }
  }

  // ---- When the replay is monotonic ----

  ghost predicate NonDecreasing(frames: seq<EncodedFrame>) {
    forall i :: 0 <= i < |frames| - 1 ==> frames[i].timeStamp <= frames[i + 1].timeStamp
  }

  /** The list spans no more time than the offset added per loop. */
  predicate SpanWithinDuration(frames: seq<EncodedFrame>)
    requires frames != []
  {
    frames[|frames| - 1].timeStamp <= frames[0].timeStamp + Duration(frames)
  }

  lemma PtsStep(frames: seq<EncodedFrame>, k: nat)
    requires frames != [] && NonDecreasing(frames) && SpanWithinDuration(frames)
    ensures Pts(frames, k) <= Pts(frames, k + 1)
  {
    var n := |frames|;
    var q, r := k / n, k % n;
    assert k == q * n + r;
    if r + 1 < n {
      DivModUnique(k + 1, q, r + 1, n);
    } else {
      DivModUnique(k + 1, q + 1, 0, n);
      assert (q + 1) * Duration(frames) == q * Duration(frames) + Duration(frames);
    }
  }

  lemma {:induction false} PtsMonotonic(frames: seq<EncodedFrame>, j: nat, k: nat)
    requires frames != [] && NonDecreasing(frames) && SpanWithinDuration(frames) && j <= k
    ensures Pts(frames, j) <= Pts(frames, k)
    decreases k
  {
    if j < k {
      PtsMonotonic(frames, j, k - 1);
      PtsStep(frames, k - 1);
    }
  }

  /** The replay's time stamps never go back, however long it runs. */
  ghost predicate Monotonic(frames: seq<EncodedFrame>)
    requires frames != []
  {
    forall j: nat, k: nat :: j <= k ==> Pts(frames, j) <= Pts(frames, k)
  }

  /** In the first two rounds. */
  lemma FirstRounds(frames: seq<EncodedFrame>, i: nat)
    requires i < |frames|
    ensures Pts(frames, i) == frames[i].timeStamp
    ensures Pts(frames, |frames|) == frames[0].timeStamp + Duration(frames)
  {
    DivModUnique(i, 0, i, |frames|);
    DivModUnique(|frames|, 1, 0, |frames|);
  }

  lemma MonotonicNeeds(frames: seq<EncodedFrame>)
    requires frames != [] && Monotonic(frames)
    ensures NonDecreasing(frames) && SpanWithinDuration(frames)
  {
    hide Pts;
    var n := |frames|;
    forall i | 0 <= i < n - 1 ensures frames[i].timeStamp <= frames[i + 1].timeStamp {
      FirstRounds(frames, i);
      FirstRounds(frames, i + 1);
      assert Pts(frames, i) <= Pts(frames, i + 1);
    }
    FirstRounds(frames, n - 1);
    assert Pts(frames, n - 1) <= Pts(frames, n);
  }

  /** The replay is monotonic forever exactly when the list is, and spans no more than its duration. */
  lemma ReplayMonotonicIff(frames: seq<EncodedFrame>)
    requires frames != []
    ensures Monotonic(frames) <==> NonDecreasing(frames) && SpanWithinDuration(frames)
  {
    hide Pts;
    if Monotonic(frames) {
      MonotonicNeeds(frames);
    } else if NonDecreasing(frames) && SpanWithinDuration(frames) {
      var j: nat, k: nat :| j <= k && Pts(frames, j) > Pts(frames, k);
      PtsMonotonic(frames, j, k);
    }
  }

  /** Streams without gaps, whose frames start no later than their predecessor ends, are monotonic. */
  lemma {:induction false} GapFreeSpan(frames: seq<EncodedFrame>, i: nat)
    requires i < |frames|
    requires forall j :: 0 <= j < |frames| - 1 ==> frames[j + 1].timeStamp <= frames[j].timeStamp + CountedDuration(frames[j])
    ensures frames[i].timeStamp <= frames[0].timeStamp + Duration(frames[..i])
    ensures i == |frames| - 1 ==> SpanWithinDuration(frames)
  {
    if i > 0 {
      GapFreeSpan(frames, i - 1);
      DurationSplit(frames, i - 1);
    }
    DurationSplit(frames, i);
  }

  lemma GapFreeReplayMonotonic(frames: seq<EncodedFrame>)
    requires frames != [] && NonDecreasing(frames)
    requires forall j :: 0 <= j < |frames| - 1 ==> frames[j + 1].timeStamp <= frames[j].timeStamp + CountedDuration(frames[j])
    ensures Monotonic(frames)
  {
    GapFreeSpan(frames, |frames| - 1);
    ReplayMonotonicIff(frames);
  }

  /** A reordered H.264 list (decode order I P B) replays with a time stamp going back. */
  lemma ReorderedReplayGoesBack()
    ensures var f := [EncodedFrame([], 0, 40), EncodedFrame([], 80, 40), EncodedFrame([], 40, 40)];
            Pts(f, 1) > Pts(f, 2)
  {
  }

  lemma Regroup(q: int, r: int, n: int, f: int)
    ensures r * f + q * (n * f) == (q * n + r) * f
  {
  }

  /** Frames stamped by the generator's fallback replay on one uniform time line. */
  lemma FallbackReplayUniform(frames: seq<EncodedFrame>, frameNs: int, k: nat)
    requires frames != [] && frameNs >= 0 && FallbackStamped(frames, frameNs)
    ensures Pts(frames, k) == k * frameNs
  {
    hide Duration;
    var n := |frames|;
    var q, r := k / n, k % n;
    FallbackDuration(frames, frameNs);
    assert frames[r].timeStamp == r * frameNs;
    Regroup(q, r, n, frameNs);
    assert q * n + r == k;
  }

  /** The truncated AAC frame duration loses a third of a nanosecond per frame; video loses nothing. */
  lemma NominalTimeLines(frames: seq<EncodedFrame>, k: nat)
    requires frames != []
    ensures FallbackStamped(frames, AAC_FRAME_NS) ==> 3 * Pts(frames, k) == 64_000_000 * k - k
    ensures FallbackStamped(frames, VIDEO_FRAME_NS) ==> Pts(frames, k) == 40_000_000 * k
  {
    hide Pts;
    if FallbackStamped(frames, AAC_FRAME_NS) {
      FallbackReplayUniform(frames, AAC_FRAME_NS, k);
    }
    if FallbackStamped(frames, VIDEO_FRAME_NS) {
      FallbackReplayUniform(frames, VIDEO_FRAME_NS, k);
    }
  }
}
