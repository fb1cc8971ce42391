/**
  The frame-classification trip counter of bicycle-trip-counter/app.py: every
  FrameSkip-th frame is classified as showing a cyclist or not, and a trip is
  counted on each sampled positive that follows a sampled negative (or is the
  first sample). The classifier's answer for each frame is an input here.
 */
module TripCounter {

  /** `frame_skip`: only every 15th frame is classified. */
  const FrameSkip: nat := 15

  /** The loop's three variables. */
  datatype TripState = TripState(cyclistCount: nat, frameCount: nat, detectedInPreviousFrame: bool)

  /** The variables before the first frame is read. */
  const Initial := TripState(0, 0, false)

  /** frame_count names a frame that is classified. */
  predicate IsSampled(frameCount: nat)
  {
    frameCount % FrameSkip == 0
  }

  /** Lines 69-77: one frame read, with isCyclist the classifier's answer for it. */
  function Step(s: TripState, isCyclist: bool): (r: TripState)
    ensures r.frameCount == s.frameCount + 1
    ensures !IsSampled(s.frameCount) ==>
      r.cyclistCount == s.cyclistCount && r.detectedInPreviousFrame == s.detectedInPreviousFrame
    ensures IsSampled(s.frameCount) ==> r.detectedInPreviousFrame == isCyclist
    ensures r.cyclistCount == s.cyclistCount + 1 <==>
      IsSampled(s.frameCount) && isCyclist && !s.detectedInPreviousFrame
    ensures r.cyclistCount == s.cyclistCount || r.cyclistCount == s.cyclistCount + 1
  {
    var s1 :=
      if IsSampled(s.frameCount) then
        if isCyclist && !s.detectedInPreviousFrame then
          s.(cyclistCount := s.cyclistCount + 1, detectedInPreviousFrame := true)
        else if !isCyclist then
          s.(detectedInPreviousFrame := false)
        else s
      else s;
    s1.(frameCount := s1.frameCount + 1)
  }

  /** The loop run from s over the answers for the remaining frames, in order. */
  function RunFrom(s: TripState, preds: seq<bool>): TripState
    decreases |preds|
  {
    if |preds| == 0 then s else Step(RunFrom(s, preds[..|preds| - 1]), preds[|preds| - 1])
  }

  /** The loop over a whole video. */
  function Run(preds: seq<bool>): TripState
  {
    RunFrom(Initial, preds)
  }

  // ---------------------------------------------------------------------------
  // an independent description: rising edges of the sampled answers

  /** The answers of the classified frames 0, 15, 30, ..., in order. */
  function Sampled(preds: seq<bool>): (r: seq<bool>)
    ensures |r| <= |preds|
    decreases |preds|
  {
    if |preds| == 0 then []
    else Sampled(preds[..|preds| - 1]) + if IsSampled(|preds| - 1) then [preds[|preds| - 1]] else []
  }

  /** The classified frames at position k of Sampled. */
  lemma SampledAt(preds: seq<bool>, k: nat)
    requires k < |Sampled(preds)|
    ensures FrameSkip * k < |preds| && Sampled(preds)[k] == preds[FrameSkip * k]
    decreases |preds|
  {
    var p := preds[..|preds| - 1];
    SampledCount(p);
    SampledCount(preds);
    if k < |Sampled(p)| {
      SampledAt(p, k);
    } else {
      assert IsSampled(|preds| - 1) && k == |Sampled(p)|;
      assert |preds| - 1 == FrameSkip * ((|preds| - 1) / FrameSkip);
    }
  }

  /** There is one classified frame per started block of FrameSkip frames. */
  lemma {:induction false} SampledCount(preds: seq<bool>)
    ensures |Sampled(preds)| == (|preds| + FrameSkip - 1) / FrameSkip
    decreases |preds|
  {
    if |preds| > 0 {
      SampledCount(preds[..|preds| - 1]);
    }
  }

  /** The number of values in b that are true. */
  function Positives(b: seq<bool>): (n: nat)
    ensures n <= |b|
  {
    if |b| == 0 then 0 else Positives(b[..|b| - 1]) + if b[|b| - 1] then 1 else 0
  }

  /** Position k of b starts a run of true values. */
  predicate RisesAt(b: seq<bool>, k: nat)
    requires k < |b|
  {
    b[k] && (k == 0 || !b[k - 1])
  }

  /** The number of positions at which b rises from false (or the start) to true. */
  function RisingEdges(b: seq<bool>): nat
  {
    if |b| == 0 then 0 else RisingEdges(b[..|b| - 1]) + if RisesAt(b, |b| - 1) then 1 else 0
  }

  lemma {:induction false} RisingEdgesAtMostPositives(b: seq<bool>)
    ensures RisingEdges(b) <= Positives(b)
  {
    if |b| > 0 {
      RisingEdgesAtMostPositives(b[..|b| - 1]);
    }
  }

  /**
    The loop's outcome in terms of the sampled answers alone: frame_count is
    the number of frames, the flag is the last sampled answer, and the count is
    the number of rising edges among the sampled answers.
   */
  lemma {:induction false} RunIsRisingEdges(preds: seq<bool>)
    ensures Run(preds).frameCount == |preds|
    ensures Run(preds).detectedInPreviousFrame == (|Sampled(preds)| > 0 && Sampled(preds)[|Sampled(preds)| - 1])
    ensures Run(preds).cyclistCount == RisingEdges(Sampled(preds))
    decreases |preds|
  {
    if |preds| > 0 {
      var p := preds[..|preds| - 1];
      RunIsRisingEdges(p);
      var b := Sampled(p);
      if IsSampled(|preds| - 1) {
        var b' := b + [preds[|preds| - 1]];
        assert Sampled(preds) == b';
        assert b'[..|b'| - 1] == b;
      } else {
        assert Sampled(preds) == b;
      }
    }
  }

  /** The count never exceeds the number of classified frames that were positive. */
  lemma CountAtMostSampledPositives(preds: seq<bool>)
    ensures Run(preds).cyclistCount <= Positives(Sampled(preds))
  {
    RunIsRisingEdges(preds);
    RisingEdgesAtMostPositives(Sampled(preds));
  }

  /** Answers for frames that are never classified do not affect the outcome. */
  lemma OnlySampledFramesMatter(preds: seq<bool>, other: seq<bool>)
    requires |preds| == |other|
    requires forall i :: 0 <= i < |preds| && IsSampled(i) ==> preds[i] == other[i]
    ensures Run(preds) == Run(other)
  {
    SampledCount(preds);
    SampledCount(other);
    forall k | 0 <= k < |Sampled(preds)|
      ensures Sampled(preds)[k] == Sampled(other)[k]
    {
      SampledAt(preds, k);
      SampledAt(other, k);
      assert IsSampled(FrameSkip * k);
    }
    assert Sampled(preds) == Sampled(other);
    RunIsRisingEdges(preds);
    RunIsRisingEdges(other);
  }

  // ---------------------------------------------------------------------------
  // properties over runs

  lemma {:induction false} RunFromFrameCount(s: TripState, preds: seq<bool>)
    ensures RunFrom(s, preds).frameCount == s.frameCount + |preds|
    decreases |preds|
  {
    if |preds| > 0 {
      RunFromFrameCount(s, preds[..|preds| - 1]);
    }
  }

  /** Running over more frames continues from where the shorter run stopped. */
  lemma {:induction false} RunFromAppend(s: TripState, preds: seq<bool>, more: seq<bool>)
    ensures RunFrom(s, preds + more) == RunFrom(RunFrom(s, preds), more)
    decreases |more|
  {
    if |more| > 0 {
      var n := |more| - 1;
      assert more == more[..n] + [more[n]];
      assert (preds + more)[..|preds + more| - 1] == preds + more[..n];
      assert (preds + more)[|preds + more| - 1] == more[n];
      RunFromAppend(s, preds, more[..n]);
    } else {
      assert preds + more == preds;
    }
  }

  /** The count never goes down as more frames are read. */
  lemma {:induction false} RunFromMonotone(s: TripState, preds: seq<bool>)
    ensures s.cyclistCount <= RunFrom(s, preds).cyclistCount
    decreases |preds|
  {
    if |preds| > 0 {
      RunFromMonotone(s, preds[..|preds| - 1]);
    }
  }

  lemma CountMonotone(preds: seq<bool>, more: seq<bool>)
    ensures Run(preds).cyclistCount <= Run(preds + more).cyclistCount
  {
    RunFromAppend(Initial, preds, more);
    RunFromMonotone(Run(preds), more);
  }

  /**
    A stretch of frames all classified as positive adds at most one trip, and
    none when a cyclist was already seen on the previous classified frame.
   */
  lemma {:induction false} PositiveRunCountsOnce(s: TripState, preds: seq<bool>)
    requires forall i :: 0 <= i < |preds| ==> preds[i]
    ensures RunFrom(s, preds).cyclistCount <= s.cyclistCount + 1
    ensures s.detectedInPreviousFrame ==> RunFrom(s, preds).cyclistCount == s.cyclistCount
    ensures s.detectedInPreviousFrame ==> RunFrom(s, preds).detectedInPreviousFrame
    ensures RunFrom(s, preds).cyclistCount == s.cyclistCount + 1 ==> RunFrom(s, preds).detectedInPreviousFrame
    decreases |preds|
  {
    if |preds| > 0 {
      var p := preds[..|preds| - 1];
      assert forall i :: 0 <= i < |p| ==> p[i] == preds[i];
      PositiveRunCountsOnce(s, p);
      var u := RunFrom(s, p);
      assert preds[|preds| - 1];
      assert RunFrom(s, preds) == Step(u, true);
    }
  }

  /** Two positive sampled frames with a negative one between them count two trips. */
  lemma TwoPassesCountTwice()
    ensures Run([true] + seq(14, _ => true) + [false] + seq(14, _ => false) + [true]).cyclistCount == 2
  {
    var preds := [true] + seq(14, _ => true) + [false] + seq(14, _ => false) + [true];
    RunIsRisingEdges(preds);
    SampledCount(preds);
    SampledAt(preds, 0);
    SampledAt(preds, 1);
    SampledAt(preds, 2);
    assert preds[0] && !preds[15] && preds[30];
    var b := Sampled(preds);
    assert b == [true, false, true];
    assert b[..2] == [true, false] && b[..2][..1] == [true] && b[..2][..1][..0] == [];
    assert RisingEdges([true]) == 1;
    assert RisingEdges([true, false]) == 1;
    assert RisingEdges(b) == 2;
  }

  // ---------------------------------------------------------------------------
  // the loop

  /**
    Lines 55-77: read the frames in order; classify every FrameSkip-th one and
    count a trip on each positive that follows a negative. preds[i] is the
    classifier's answer for frame i; the capture runs out after |preds| frames.
   */
  method CountTrips(preds: seq<bool>) returns (cyclistCount: nat, frameCount: nat, detectedInPreviousFrame: bool)
    ensures TripState(cyclistCount, frameCount, detectedInPreviousFrame) == Run(preds)
    ensures frameCount == |preds|
    ensures cyclistCount == RisingEdges(Sampled(preds))
    ensures cyclistCount <= Positives(Sampled(preds))
  {
    cyclistCount := 0;
    var frameSkip := FrameSkip;
    frameCount := 0;
    detectedInPreviousFrame := false;
    while frameCount < |preds|
      invariant frameCount <= |preds|
      invariant TripState(cyclistCount, frameCount, detectedInPreviousFrame) == Run(preds[..frameCount])
    {
      assert preds[..frameCount + 1][..frameCount] == preds[..frameCount];
      var isCyclist := preds[frameCount];
      if frameCount % frameSkip == 0 {
        if isCyclist && !detectedInPreviousFrame {
          cyclistCount := cyclistCount + 1;
          detectedInPreviousFrame := true;
        } else if !isCyclist {
          detectedInPreviousFrame := false;
        }
      }
      frameCount := frameCount + 1;
    }
    assert preds[..frameCount] == preds;
    RunIsRisingEdges(preds);
    CountAtMostSampledPositives(preds);
  }
}
