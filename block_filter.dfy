/** The two block filters: a block is kept when the trace over `[start, end)`
    crosses the midline 0.5 (`check_cross_midline`, `filter_cross_midline_blocks`)
    and then when that stretch spans more than 0.5 (`filter_final_blocks`). */
module BlockFilter {
  import opened Numeric
  import opened Runs

  /** The flags are not constant from one sample to the next somewhere:
      `np.any(np.diff(flags.astype(int)) != 0)`. */
  predicate AnyChange(flags: seq<bool>)
  {
    exists k :: 0 <= k < |flags| - 1 && flags[k] != flags[k + 1]
  }

  function Above(segment: seq<real>, midline: real): (f: seq<bool>)
    ensures |f| == |segment|
  {
    seq(|segment|, k requires 0 <= k < |segment| => segment[k] > midline)
  }

  function Below(segment: seq<real>, midline: real): (f: seq<bool>)
    ensures |f| == |segment|
  {
    seq(|segment|, k requires 0 <= k < |segment| => segment[k] < midline)
  }

  /** `check_cross_midline`: the above-midline flags or the below-midline flags
      change between two neighbouring samples. */
  predicate CrossesMidline(segment: seq<real>, midline: real)
  {
    AnyChange(Above(segment, midline)) || AnyChange(Below(segment, midline))
  }

  /** Some flag differs from the first, so two neighbours differ. */
  lemma {:induction false} ChangeBefore(flags: seq<bool>, j: nat)
    requires 0 < j < |flags| && flags[j] != flags[0]
    ensures AnyChange(flags)
  {
    if flags[j - 1] != flags[j] {
      assert 0 <= j - 1 < |flags| - 1 && flags[j - 1] != flags[(j - 1) + 1];
    } else {
      ChangeBefore(flags, j - 1);
    }
  }

  /** The flags change somewhere exactly when they are not all equal. */
  lemma AnyChangeMeansNotConstant(flags: seq<bool>)
    ensures AnyChange(flags) <==> exists j :: 0 <= j < |flags| && flags[j] != flags[0]
  {
    if AnyChange(flags) {
      var k :| 0 <= k < |flags| - 1 && flags[k] != flags[k + 1];
      if flags[k] == flags[0] {
        assert flags[k + 1] != flags[0];
      }
    }
    if j :| 0 <= j < |flags| && flags[j] != flags[0] {
      ChangeBefore(flags, j);
    }
  }

  /** A segment crosses the midline exactly when its samples are not all on the
      same side of it (above, or below, or on it); so a segment of fewer than
      two samples never crosses. */
  lemma CrossesMidlineMeaning(segment: seq<real>, midline: real)
    ensures CrossesMidline(segment, midline) <==>
            exists j :: 0 <= j < |segment| &&
              ((segment[j] > midline) != (segment[0] > midline) ||
               (segment[j] < midline) != (segment[0] < midline))
    ensures |segment| < 2 ==> !CrossesMidline(segment, midline)
  {
    AnyChangeMeansNotConstant(Above(segment, midline));
    AnyChangeMeansNotConstant(Below(segment, midline));
    if exists j :: 0 <= j < |segment| &&
         ((segment[j] > midline) != (segment[0] > midline) ||
          (segment[j] < midline) != (segment[0] < midline)) {
      var j :| 0 <= j < |segment| &&
         ((segment[j] > midline) != (segment[0] > midline) ||
          (segment[j] < midline) != (segment[0] < midline));
      assert Above(segment, midline)[j] != Above(segment, midline)[0] ||
             Below(segment, midline)[j] != Below(segment, midline)[0];
    }
  }

  /** The stretch of the trace a block covers: `signal[start:end]`. */
  function Segment(signal: seq<real>, b: Block): seq<real>
  {
    Slice(signal, b.start, b.end)
  }

  /** `filter_cross_midline_blocks`: the blocks whose stretch crosses 0.5, in order. */
  function FilterCrossMidlineBlocks(blocks: seq<Block>, signal: seq<real>): (r: seq<Block>)
    ensures IsSubseq(r, blocks)
    ensures forall k :: 0 <= k < |r| ==> CrossesMidline(Segment(signal, r[k]), 0.5)
    ensures forall k :: 0 <= k < |blocks| && CrossesMidline(Segment(signal, blocks[k]), 0.5) ==> blocks[k] in r
  {
    Filter(blocks, b => CrossesMidline(Segment(signal, b), 0.5))
  }

  /** `max - min` of a non-empty stretch. */
  function Range(segment: seq<real>): (d: real)
    requires |segment| > 0
    ensures d >= 0.0
    ensures forall j, k :: 0 <= j < |segment| && 0 <= k < |segment| ==> segment[j] - segment[k] <= d
  {
    Max(segment) - Min(segment)
  }

  /** A block whose stretch spans more than 0.5. */
  predicate WideEnough(signal: seq<real>, b: Block)
  {
    var seg := Segment(signal, b);
    |seg| > 0 && Range(seg) > 0.5
  }

  /** `filter_final_blocks`: the blocks whose stretch spans more than 0.5, in
      order. `np.max` of an empty stretch raises, so every stretch must be
      non-empty. */
  function FilterFinalBlocks(blocks: seq<Block>, signal: seq<real>): (r: seq<Block>)
    requires forall k :: 0 <= k < |blocks| ==> |Segment(signal, blocks[k])| > 0
    ensures IsSubseq(r, blocks)
    ensures forall k :: 0 <= k < |r| ==> WideEnough(signal, r[k])
    ensures forall k :: 0 <= k < |blocks| && Range(Segment(signal, blocks[k])) > 0.5 ==> blocks[k] in r
  {
    Filter(blocks, b => WideEnough(signal, b))
  }

  /** Every block kept by the midline filter covers at least two samples, so
      the range filter can always be applied to its output. */
  lemma CrossMidlineBlocksNonEmpty(blocks: seq<Block>, signal: seq<real>)
    ensures var r := FilterCrossMidlineBlocks(blocks, signal);
            forall k :: 0 <= k < |r| ==> |Segment(signal, r[k])| >= 2
  {
    var r := FilterCrossMidlineBlocks(blocks, signal);
    forall k | 0 <= k < |r| ensures |Segment(signal, r[k])| >= 2 {
      CrossesMidlineMeaning(Segment(signal, r[k]), 0.5);
    }
  }

  /** A stretch of a constant trace never crosses the midline. */
  lemma ConstantSegmentNoCrossing(signal: seq<real>, c: real, b: Block)
    requires forall k :: 0 <= k < |signal| ==> signal[k] == c
    ensures !CrossesMidline(Segment(signal, b), 0.5)
  {
    var seg := Segment(signal, b);
    assert forall j :: 0 <= j < |seg| ==> seg[j] == c;
    CrossesMidlineMeaning(seg, 0.5);
  }

  /** On a constant trace the midline filter keeps no block at all, whichever
      blocks it is given. */
  lemma ConstantSignalNoCrossing(blocks: seq<Block>, signal: seq<real>, c: real)
    requires forall k :: 0 <= k < |signal| ==> signal[k] == c
    ensures FilterCrossMidlineBlocks(blocks, signal) == []
  {
    var r := FilterCrossMidlineBlocks(blocks, signal);
    if r != [] {
      ConstantSegmentNoCrossing(signal, c, r[0]);
    }
  }
}
