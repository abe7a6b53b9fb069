/** Elementary streams: encoded frames, and the time stamps the generators give them. */
module MediaStream {
  import opened Basics

  datatype EncodedFrame = EncodedFrame(data: seq<Byte>, timeStamp: int, duration: int)

  datatype Stream = Stream(frames: seq<EncodedFrame>, sampleRate: nat, channels: nat)

  const SECOND: int := 1_000_000_000

  /** 1024 samples at 48 kHz, truncated to nanoseconds. */
  const AAC_FRAME_NS: int := 1024 * SECOND / 48000

  /** One frame at 25 frames per second. */
  const VIDEO_FRAME_NS: int := SECOND / 25

  function CountedDuration(frame: EncodedFrame): nat {
    if frame.duration > 0 then frame.duration else 0
  }

  function Duration(frames: seq<EncodedFrame>): nat {
    if frames == [] then 0 else Duration(frames[..|frames| - 1]) + CountedDuration(frames[|frames| - 1])
  }

  method TotalDurationNs(frames: seq<EncodedFrame>) returns (total: int)
    ensures total == Duration(frames)
  {
    total := 0;
    for i := 0 to |frames|
      invariant total == Duration(frames[..i])
    {
      if frames[i].duration > 0 {
        total := total + frames[i].duration;
      }
      assert frames[..i + 1][..i] == frames[..i];
    }
    assert frames[..|frames|] == frames;
  }

  lemma {:induction false} DurationSplit(frames: seq<EncodedFrame>, i: nat)
    requires i <= |frames|
    ensures Duration(frames[..i]) <= Duration(frames)
    ensures i < |frames| ==> Duration(frames[..i + 1]) == Duration(frames[..i]) + CountedDuration(frames[i])
    decreases |frames| - i
  {
    if i < |frames| {
      assert frames[..i + 1][..i] == frames[..i];
      DurationSplit(frames, i + 1);
    } else {
      assert frames[..i] == frames;
    }
  }

  /** The duration of a list is the sum over its parts; a frame counts with its duration if that is positive. */
  lemma {:induction false} DurationIsSum(a: seq<EncodedFrame>, b: seq<EncodedFrame>, frame: EncodedFrame)
    ensures Duration(a + b) == Duration(a) + Duration(b)
    ensures Duration([frame]) == (if frame.duration >= 0 then frame.duration else 0) && Duration([]) == 0
  {
    assert [frame][..0] == [];
    if b == [] {
      assert a + b == a;
    } else {
      DurationIsSum(a, b[..|b| - 1], frame);
      assert (a + b)[..|a + b| - 1] == a + b[..|b| - 1];
    }
  }

  // ---- Stamping ----

  /** A pulled sample; `data` is absent when its buffer is missing or cannot be mapped. */
  datatype Sample = Sample(data: Option<seq<Byte>>, pts: Option<int>, duration: Option<int>)

  function Mapped(samples: seq<Sample>): (mapped: seq<Sample>)
    ensures forall i :: 0 <= i < |mapped| ==> mapped[i] in samples && mapped[i].data.Some?
  {
    if samples == [] then []
    else Mapped(samples[..|samples| - 1]) + if samples[|samples| - 1].data.Some? then [samples[|samples| - 1]] else []
  }

  /** Positions in increasing order below `n`. */
  ghost predicate Increasing(idx: seq<nat>, n: nat) {
    (forall j :: 0 <= j < |idx| ==> idx[j] < n) && forall i, j :: 0 <= i < j < |idx| ==> idx[i] < idx[j]
  }

  lemma MappedGrows(samples: seq<Sample>, sample: Sample)
    ensures Mapped(samples + [sample]) == Mapped(samples) + if sample.data.Some? then [sample] else []
  {
    assert (samples + [sample])[..|samples|] == samples;
  }

  /** The mapped buffers are exactly the samples with data, in order. */
  lemma {:induction false} MappedAre(samples: seq<Sample>) returns (idx: seq<nat>)
    ensures Increasing(idx, |samples|) && |idx| == |Mapped(samples)|
    ensures forall j :: 0 <= j < |idx| ==> samples[idx[j]] == Mapped(samples)[j] && samples[idx[j]].data.Some?
    ensures forall i :: 0 <= i < |samples| && samples[i].data.Some? ==> i in idx
  {
    if samples == [] {
      idx := [];
    } else {
      var n := |samples| - 1;
      var front, last := samples[..n], samples[n];
      idx := MappedAre(front);
      MappedGrows(front, last);
      assert samples == front + [last];
      hide Mapped;
      if last.data.Some? {
        idx := idx + [n];
        assert idx[|idx| - 1] == n;
      }
    }
  }

  /** Frame `i`: the buffer's own time stamp and duration, or the nominal ones. */
  function Stamped(sample: Sample, i: nat, frameNs: int): EncodedFrame
    requires sample.data.Some?
  {
    EncodedFrame(sample.data.value,
                 if sample.pts.Some? then sample.pts.value else i * frameNs,
                 if sample.duration.Some? then sample.duration.value else frameNs)
  }

  /** The pull loop of both generators. */
  method StampFrames(samples: seq<Sample>, frameNs: int) returns (frames: seq<EncodedFrame>)
    ensures |frames| == |Mapped(samples)|
    ensures forall i :: 0 <= i < |frames| ==>
              var sample := Mapped(samples)[i];
              && Some(frames[i].data) == sample.data
              && (sample.pts == None ==> frames[i].timeStamp == i * frameNs)
              && (sample.pts != None ==> Some(frames[i].timeStamp) == sample.pts)
              && (sample.duration == None ==> frames[i].duration == frameNs)
              && (sample.duration != None ==> Some(frames[i].duration) == sample.duration)
    ensures (forall sample :: sample in samples ==> sample.pts == None && sample.duration == None) ==> FallbackStamped(frames, frameNs)
  {
    frames := [];
    var frameIndex := 0;
    for k := 0 to |samples|
      invariant frameIndex == |frames| == |Mapped(samples[..k])|
      invariant forall i :: 0 <= i < |frames| ==> frames[i] == Stamped(Mapped(samples[..k])[i], i, frameNs)
    {
      var sample := samples[k];
      assert samples[..k + 1][..k] == samples[..k];
      if sample.data.Some? {
        var timeStamp := if sample.pts.Some? then sample.pts.value else frameIndex * frameNs;
        var duration := if sample.duration.Some? then sample.duration.value else frameNs;
        frames := frames + [EncodedFrame(sample.data.value, timeStamp, duration)];
        frameIndex := frameIndex + 1;
      }
    }
    assert samples[..|samples|] == samples;
  }

  /** Every frame stamped with its index times the nominal duration. */
  ghost predicate FallbackStamped(frames: seq<EncodedFrame>, frameNs: int) {
    forall i :: 0 <= i < |frames| ==> frames[i].timeStamp == i * frameNs && frames[i].duration == frameNs
  }

  lemma {:induction false} FallbackDuration(frames: seq<EncodedFrame>, frameNs: int)
    requires FallbackStamped(frames, frameNs) && frameNs >= 0
    ensures Duration(frames) == |frames| * frameNs
  {
    if frames != [] {
      FallbackDuration(frames[..|frames| - 1], frameNs);
    }
  }
}
