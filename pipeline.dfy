/** The whole detector: sudden-change labels, the accumulation mask, gap
    closing and block extraction (`detect_pupil_events`), the two block
    filters, one onset per block and the whisker-ratio filter (`detect_events`
    as written inline, with the whisker velocity and its times of equal
    length). */
module Pipeline {
  import opened Numeric
  import opened SuddenChange
  import opened EventMask
  import opened Runs
  import opened BlockFilter
  import opened Refiner
  import opened Whisker

  /** The constants the detector is called with. */
  const Padding: nat := 5
  const Threshold: real := 3.0
  const Step: Pos := 1

  /** A window length in samples: a length in seconds times a sampling rate. */
  function Window(seconds: Pos, rate: Pos): Pos
  {
    MulPositive(seconds, rate);
    seconds * rate
  }

  lemma MulPositive(a: Pos, b: Pos)
    ensures a * b > 0
  {
    assert a * b >= 1 * b;
  }

  /** The boolean mask of the pupil trace: the accumulation mask of the
      detector's labels over the unpadded length, compared with 0.5. */
  function PupilMask(signal: seq<real>, rate: Pos, baselineLength: Pos, eventLength: Pos,
                     std: seq<real> -> real): (m: seq<bool>)
    requires |signal| > 0
    ensures |m| == |signal|
  {
    var pre := Window(baselineLength, rate);
    var ev := Window(eventLength, rate);
    AboveHalf(Mask(Labels(signal, Some(Padding), pre, ev, Threshold, Step, std), |signal|, ev + pre))
  }

  /** The blocks `detect_pupil_events` returns. */
  function PupilBlocks(signal: seq<real>, rate: Pos, baselineLength: Pos, eventLength: Pos,
                       std: seq<real> -> real): seq<Block>
    requires |signal| > 0
  {
    ConsecutiveBlocks(FillGaps(PupilMask(signal, rate, baselineLength, eventLength, std), 10 * rate), rate)
  }

  /** `detect_pupil_events`: detector with padding 5, threshold 3 and step 1,
      the accumulation mask, `mask > 0.5`, gaps of up to `10 * rate` samples
      closed, and the blocks of the filled mask. */
  method DetectPupilEvents(signal: seq<real>, rate: Pos, baselineLength: Pos, eventLength: Pos,
                           std: seq<real> -> real) returns (blocks: seq<Block>)
    requires |signal| > 0
    ensures blocks == PupilBlocks(signal, rate, baselineLength, eventLength, std)
  {
    var pre := Window(baselineLength, rate);
    var ev := Window(eventLength, rate);
    var events, labels := DetectSuddenChangeEvents(signal, Some(Padding), pre, ev, Threshold, Step, std);
    var mask := CreateEventMask(labels, |signal|, ev, pre);
    PupilMaskOf(signal, rate, baselineLength, eventLength, std, labels, mask[..]);
    var halves := AboveHalf(mask[..]);
    var above := new bool[|halves|](j requires 0 <= j < |halves| => halves[j]);
    assert above[..] == halves;
    var filled := FillFalseBetweenTrues(above, 10 * rate);
    blocks := FindConsecutiveTrueBlocks(filled, rate);
  }

  /** The accumulation mask of the detector's labels, compared with 0.5, is
      the boolean mask of the pupil trace. */
  lemma PupilMaskOf(signal: seq<real>, rate: Pos, baselineLength: Pos, eventLength: Pos,
                    std: seq<real> -> real, labels: seq<int>, mask: seq<int>)
    requires |signal| > 0
    requires labels == Labels(signal, Some(Padding), Window(baselineLength, rate), Window(eventLength, rate),
                              Threshold, Step, std)
    requires |mask| == |signal|
    requires forall j :: 0 <= j < |signal| ==>
               mask[j] == Net(labels, Window(eventLength, rate) + Window(baselineLength, rate), j)
    ensures AboveHalf(mask) == PupilMask(signal, rate, baselineLength, eventLength, std)
  {
    assert mask == Mask(labels, |signal|, Window(eventLength, rate) + Window(baselineLength, rate));
  }

  /** The blocks that pass both filters, in order. */
  function FinalBlocks(signal: seq<real>, rate: Pos, baselineLength: Pos, eventLength: Pos,
                       std: seq<real> -> real): seq<Block>
    requires |signal| > 0
  {
    var cross := FilterCrossMidlineBlocks(PupilBlocks(signal, rate, baselineLength, eventLength, std), signal);
    CrossMidlineBlocksNonEmpty(PupilBlocks(signal, rate, baselineLength, eventLength, std), signal);
    FilterFinalBlocks(cross, signal)
  }

  /** The onsets of the final blocks. */
  function FinalEvents(signal: seq<real>, rate: Pos, baselineLength: Pos, eventLength: Pos,
                       sizesOf: Block -> ScanSizes, std: seq<real> -> real): seq<nat>
    requires |signal| > 0
  {
    BestEvents(FinalBlocks(signal, rate, baselineLength, eventLength, std), signal, sizesOf, std)
  }

  /** The onsets `detect_events` returns. */
  function DetectedEvents(signal: seq<real>, times: seq<real>, velocity: seq<real>, whiskerTimes: seq<real>,
                          rate: Pos, whiskerRate: int, baselineLength: Pos, eventLength: Pos,
                          sizesOf: Block -> ScanSizes, std: seq<real> -> real): seq<nat>
    requires |signal| > 0 && |times| == |signal| && |velocity| == |whiskerTimes|
  {
    var events := FinalEvents(signal, rate, baselineLength, eventLength, sizesOf, std);
    BestEventsInBlocks(FinalBlocks(signal, rate, baselineLength, eventLength, std), signal, sizesOf, std);
    WakingUpEvents(events, velocity, times, whiskerTimes, whiskerRate, baselineLength, eventLength)
  }

  /** `detect_events`: the pupil blocks, the midline and range filters, one
      onset per remaining block, then the onsets whose whisker ratio is above 1.5. */
  method DetectEvents(signal: seq<real>, times: seq<real>, velocity: seq<real>, whiskerTimes: seq<real>,
                      rate: Pos, whiskerRate: int, baselineLength: Pos, eventLength: Pos,
                      sizesOf: Block -> ScanSizes, std: seq<real> -> real) returns (waking: seq<nat>)
    requires |signal| > 0 && |times| == |signal| && |velocity| == |whiskerTimes|
    ensures waking == DetectedEvents(signal, times, velocity, whiskerTimes, rate, whiskerRate,
                                     baselineLength, eventLength, sizesOf, std)
  {
    var blocks := DetectPupilEvents(signal, rate, baselineLength, eventLength, std);
    var cross := FilterCrossMidlineBlocks(blocks, signal);
    CrossMidlineBlocksNonEmpty(blocks, signal);
    var final := FilterFinalBlocks(cross, signal);
    var events := FindBestEventsForBlocks(final, signal, sizesOf, std);
    BestEventsInBlocks(final, signal, sizesOf, std);
    waking := FilterWakingUpEvents(events, velocity, times, whiskerTimes, whiskerRate, baselineLength, eventLength);
  }

  /** Each stage keeps a sub-list of the one before: final blocks of crossing
      blocks of extracted blocks; at most one onset per final block, in block
      order and inside it; waking-up onsets among the onsets. The extracted
      blocks, and so the final ones, are ordered and do not overlap, so the
      onsets increase strictly and none is reported twice. */
  lemma DetectEventsStages(signal: seq<real>, times: seq<real>, velocity: seq<real>, whiskerTimes: seq<real>,
                           rate: Pos, whiskerRate: int, baselineLength: Pos, eventLength: Pos,
                           sizesOf: Block -> ScanSizes, std: seq<real> -> real)
    requires |signal| > 0 && |times| == |signal| && |velocity| == |whiskerTimes|
    ensures IsSubseq(FilterCrossMidlineBlocks(PupilBlocks(signal, rate, baselineLength, eventLength, std), signal),
                     PupilBlocks(signal, rate, baselineLength, eventLength, std))
    ensures IsSubseq(FinalBlocks(signal, rate, baselineLength, eventLength, std),
                     FilterCrossMidlineBlocks(PupilBlocks(signal, rate, baselineLength, eventLength, std), signal))
    ensures IsSubseq(FinalBlocks(signal, rate, baselineLength, eventLength, std),
                     PupilBlocks(signal, rate, baselineLength, eventLength, std))
    ensures InBlocks(FinalEvents(signal, rate, baselineLength, eventLength, sizesOf, std),
                     FinalBlocks(signal, rate, baselineLength, eventLength, std))
    ensures IsSubseq(DetectedEvents(signal, times, velocity, whiskerTimes, rate, whiskerRate,
                                    baselineLength, eventLength, sizesOf, std),
                     FinalEvents(signal, rate, baselineLength, eventLength, sizesOf, std))
    ensures |DetectedEvents(signal, times, velocity, whiskerTimes, rate, whiskerRate,
                            baselineLength, eventLength, sizesOf, std)|
            <= |FinalEvents(signal, rate, baselineLength, eventLength, sizesOf, std)|
            <= |FinalBlocks(signal, rate, baselineLength, eventLength, std)|
    ensures Separated(PupilBlocks(signal, rate, baselineLength, eventLength, std))
    ensures Separated(FinalBlocks(signal, rate, baselineLength, eventLength, std))
    ensures StrictlyIncreasing(FinalEvents(signal, rate, baselineLength, eventLength, sizesOf, std))
    ensures StrictlyIncreasing(DetectedEvents(signal, times, velocity, whiskerTimes, rate, whiskerRate,
                                              baselineLength, eventLength, sizesOf, std))
  {
    var blocks := PupilBlocks(signal, rate, baselineLength, eventLength, std);
    var cross := FilterCrossMidlineBlocks(blocks, signal);
    var final := FinalBlocks(signal, rate, baselineLength, eventLength, std);
    SubseqTransitive(final, cross, blocks);
    BestEventsInBlocks(final, signal, sizesOf, std);
    var events := FinalEvents(signal, rate, baselineLength, eventLength, sizesOf, std);
    WakingUpEventsSpec(events, velocity, times, whiskerTimes, whiskerRate, baselineLength, eventLength);
    FilledBlocksSeparated(PupilMask(signal, rate, baselineLength, eventLength, std), rate);
    SubseqSeparated(final, blocks);
    InBlocksIncreasing(events, final);
    SubseqIncreasing(DetectedEvents(signal, times, velocity, whiskerTimes, rate, whiskerRate,
                                    baselineLength, eventLength, sizesOf, std), events);
  }

  /** A label list with no flagged step leaves the accumulation mask at zero. */
  lemma {:induction false} NetNoFlags(labels: seq<int>, width: int, j: int)
    requires forall k :: 0 <= k < |labels| ==> labels[k] == 0
    ensures Net(labels, width, j) == 0
  {
    if labels != [] {
      NetNoFlags(labels[..|labels| - 1], width, j);
    }
  }

  /** A constant pupil trace gives an all-False boolean mask. */
  lemma ConstantTraceMask(signal: seq<real>, c: real, rate: Pos, baselineLength: Pos, eventLength: Pos,
                          std: seq<real> -> real)
    requires |signal| > 0
    requires forall k :: 0 <= k < |signal| ==> signal[k] == c
    requires NonNegative(std)
    ensures forall j :: 0 <= j < |signal| ==> !PupilMask(signal, rate, baselineLength, eventLength, std)[j]
  {
    var pre := Window(baselineLength, rate);
    var ev := Window(eventLength, rate);
    var labels := Labels(signal, Some(Padding), pre, ev, Threshold, Step, std);
    ConstantSignalNoEvents(signal, c, Some(Padding), pre, ev, Threshold, Step, std);
    forall j | 0 <= j < |signal| ensures !PupilMask(signal, rate, baselineLength, eventLength, std)[j] {
      NetNoFlags(labels, ev + pre, j);
    }
  }

  /** An all-False mask longer than the gap tolerance stays all False when
      its gaps are closed, and so has no blocks. */
  lemma AllFalseNoBlocks(m: seq<bool>, threshold: int, rate: int)
    requires |m| > threshold
    requires forall j :: 0 <= j < |m| ==> !m[j]
    ensures ConsecutiveBlocks(FillGaps(m, threshold), rate) == []
  {
    if |m| > 0 {
      assert MaximalRun(m, 0, |m|, false);
      var filled := FillGaps(m, threshold);
      forall j | 0 <= j < |m| ensures !filled[j] {
        RunBounds(m, 0, |m|, false, j);
      }
      ConsecutiveBlocksCover(filled, rate);
    } else {
      ConsecutiveBlocksCover(FillGaps(m, threshold), rate);
    }
  }

  /** A constant pupil trace longer than the gap tolerance yields no block.
      (A shorter one is a single run of False, which the gap filling turns
      into one block across the whole trace.) */
  lemma ConstantTraceNoBlocks(signal: seq<real>, c: real, rate: Pos, baselineLength: Pos, eventLength: Pos,
                              std: seq<real> -> real)
    requires |signal| > 10 * rate
    requires forall k :: 0 <= k < |signal| ==> signal[k] == c
    requires NonNegative(std)
    ensures PupilBlocks(signal, rate, baselineLength, eventLength, std) == []
  {
    ConstantTraceMask(signal, c, rate, baselineLength, eventLength, std);
    AllFalseNoBlocks(PupilMask(signal, rate, baselineLength, eventLength, std), 10 * rate, rate);
  }

  /** `detect_events` reports nothing for a constant pupil trace, of any
      length and whatever the whisker data: no stretch of it crosses the
      midline, so every later stage starts from no block. */
  lemma ConstantTraceNoEvents(signal: seq<real>, c: real, times: seq<real>, velocity: seq<real>,
                              whiskerTimes: seq<real>, rate: Pos, whiskerRate: int, baselineLength: Pos,
                              eventLength: Pos, sizesOf: Block -> ScanSizes, std: seq<real> -> real)
    requires |signal| > 0 && |times| == |signal| && |velocity| == |whiskerTimes|
    requires forall k :: 0 <= k < |signal| ==> signal[k] == c
    ensures FinalBlocks(signal, rate, baselineLength, eventLength, std) == []
    ensures DetectedEvents(signal, times, velocity, whiskerTimes, rate, whiskerRate,
                           baselineLength, eventLength, sizesOf, std) == []
  {
    ConstantSignalNoCrossing(PupilBlocks(signal, rate, baselineLength, eventLength, std), signal, c);
    DetectEventsStages(signal, times, velocity, whiskerTimes, rate, whiskerRate, baselineLength, eventLength,
                       sizesOf, std);
    SubseqFacts(FinalBlocks(signal, rate, baselineLength, eventLength, std),
                FilterCrossMidlineBlocks(PupilBlocks(signal, rate, baselineLength, eventLength, std), signal));
  }

  /** `detect_events` does not depend on the unit of the whisker velocity:
      rescaling it by a positive factor gives the same waking-up onsets. */
  lemma DetectedEventsVelocityScale(signal: seq<real>, times: seq<real>, velocity: seq<real>,
                                    whiskerTimes: seq<real>, rate: Pos, whiskerRate: int, baselineLength: Pos,
                                    eventLength: Pos, sizesOf: Block -> ScanSizes, std: seq<real> -> real, c: real)
    requires |signal| > 0 && |times| == |signal| && |velocity| == |whiskerTimes| && c > 0.0
    ensures DetectedEvents(signal, times, Scale(velocity, c), whiskerTimes, rate, whiskerRate,
                           baselineLength, eventLength, sizesOf, std) ==
            DetectedEvents(signal, times, velocity, whiskerTimes, rate, whiskerRate,
                           baselineLength, eventLength, sizesOf, std)
  {
    BestEventsInBlocks(FinalBlocks(signal, rate, baselineLength, eventLength, std), signal, sizesOf, std);
    WakingUpEventsScale(FinalEvents(signal, rate, baselineLength, eventLength, sizesOf, std), velocity, times,
                        whiskerTimes, whiskerRate, baselineLength, eventLength, c);
  }
}
