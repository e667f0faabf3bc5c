/** Onset selection inside a block: candidate offsets are scanned every
    `step` samples of the block (`calculate_properties_possible_events`), the
    candidates are filtered and the one with the largest total downward
    magnitude, the first such in scan order, gives the onset (`find_best_events`);
    `find_best_events_for_blocks` collects the onsets of a list of blocks. */
module Refiner {
  import opened Numeric
  import opened Runs
  import opened BlockFilter

  /** The window sizes in samples. The source derives them from the block's
      mean time step as `int(window / time_step)`; here they are given. */
  datatype ScanSizes = ScanSizes(baseline: Pos, event: Pos, step: Pos)

  /** One row of `calculate_properties_possible_events`: the offset inside the
      block, the statistics of the baseline window before it (NaN when that
      window is empty), of the event window after it, and the downward
      movements over the first third of the event window. */
  datatype Candidate = Candidate(offset: nat, baselineMean: Stat, baselineStd: Stat,
                                 eventMean: real, eventStd: real,
                                 downwardCount: nat, downwardMagnitude: real)

  // ---------------------------------------------------------------------------
  // Downward movements

  /** `np.sum(np.diff(w) < 0)`: the number of negative first differences. */
  function DownwardCount(w: seq<real>): (c: nat)
    ensures |w| > 0 ==> c < |w|
  {
    if |w| < 2 then 0
    else DownwardCount(w[..|w| - 1]) + (if w[|w| - 1] - w[|w| - 2] < 0.0 then 1 else 0)
  }

  /** `np.sum(diffs[diffs < 0])`: the sum of the negative first differences, never positive. */
  function DownwardMagnitude(w: seq<real>): (t: real)
    ensures t <= 0.0
  {
    if |w| < 2 then 0.0
    else
      var d := w[|w| - 1] - w[|w| - 2];
      DownwardMagnitude(w[..|w| - 1]) + (if d < 0.0 then d else 0.0)
  }

  /** The magnitude is zero exactly when there is no downward movement. */
  lemma {:induction false} DownwardMagnitudeZero(w: seq<real>)
    ensures DownwardMagnitude(w) == 0.0 <==> DownwardCount(w) == 0
  {
    if |w| >= 2 {
      DownwardMagnitudeZero(w[..|w| - 1]);
    }
  }

  // ---------------------------------------------------------------------------
  // calculate_properties_possible_events

  /** The candidate at absolute index `at` (offset `offset` in the block). The
      baseline is `signal[at - baseline:at]` with numpy's slicing, so it is
      empty when `at - baseline` is negative and `at - baseline + |signal|` is
      not below `at`; the event window lies inside the signal. */
  function CandidateAt(signal: seq<real>, at: nat, offset: nat, sz: ScanSizes, std: seq<real> -> real): (c: Candidate)
    requires at + sz.event <= |signal|
    ensures c.offset == offset
  {
    var baseline := BaselineWindow(signal, at, sz.baseline);
    var event := signal[at..at + sz.event];
    var downward := signal[at..at + sz.event / 3];
    Candidate(offset, MeanStat(baseline), StdStat(baseline, std), Mean(event), std(event),
              DownwardCount(downward), DownwardMagnitude(downward))
  }

  /** `signal[at - width:at]` for `at` inside the signal, spelled out case by
      case: when `at - width` is negative numpy counts it from the end, which
      gives an empty window when the wrapped start is not before `at`, and a
      start of 0 when even the wrapped start is negative. */
  function BaselineWindow(signal: seq<real>, at: nat, width: nat): seq<real>
    requires at <= |signal|
  {
    if width <= at then signal[at - width..at]
    else if |signal| < width <= at + |signal| then signal[at + |signal| - width..at]
    else if at + |signal| < width then signal[..at]
    else []
  }

  /** The case split agrees with numpy's slicing rules. */
  lemma BaselineWindowIsSlice(signal: seq<real>, at: nat, width: nat)
    requires at <= |signal|
    ensures BaselineWindow(signal, at, width) == Slice(signal, at - width, at)
  {
  }

  /** A baseline window is empty exactly when its start, counted from the end
      when negative, is not before `at`; in particular at offsets `1 .. width`
      into a signal longer than `width` it is always empty. */
  lemma BaselineWindowEmpty(signal: seq<real>, at: nat, width: Pos)
    requires at <= |signal|
    ensures BaselineWindow(signal, at, width) == [] <==> (at == 0 || (at < width <= |signal|))
  {
  }

  /** The baseline statistics are NaN together, exactly at the start of the
      signal and where the baseline start wraps round to `at` or later; there
      are fewer downward movements than event samples and their total is
      never positive. */
  lemma CandidateAtSpec(signal: seq<real>, at: nat, offset: nat, sz: ScanSizes, std: seq<real> -> real)
    requires at + sz.event <= |signal|
    ensures CandidateAt(signal, at, offset, sz, std).baselineMean.Undefined? <==>
            (at == 0 || at < sz.baseline <= |signal|)
    ensures CandidateAt(signal, at, offset, sz, std).baselineMean.Undefined? <==>
            CandidateAt(signal, at, offset, sz, std).baselineStd.Undefined?
    ensures CandidateAt(signal, at, offset, sz, std).downwardCount < sz.event
    ensures CandidateAt(signal, at, offset, sz, std).downwardMagnitude <= 0.0
  {
    BaselineWindowEmpty(signal, at, sz.baseline);
  }

  /** The offsets `idx, idx + step, ...` below `count` that `keep` accepts, in order. */
  function KeptOffsets(count: nat, idx: nat, step: Pos, keep: nat -> bool): (os: seq<nat>)
    ensures forall k :: 0 <= k < |os| ==> keep(os[k])
    decreases count - idx
  {
    if idx >= count then []
    else
      var rest := KeptOffsets(count, idx + step, step, keep);
      if keep(idx) then [idx] + rest else rest
  }

  /** The kept offsets increase and are `idx` plus multiples of `step` below `count`. */
  lemma {:induction false} KeptOffsetsSound(count: nat, idx: nat, step: Pos, keep: nat -> bool)
    ensures forall k :: 0 <= k < |KeptOffsets(count, idx, step, keep)| ==>
              idx <= KeptOffsets(count, idx, step, keep)[k] < count &&
              KeptOffsets(count, idx, step, keep)[k] % step == idx % step
    ensures StrictlyIncreasing(KeptOffsets(count, idx, step, keep))
    decreases count - idx
  {
    if idx < count {
      var os := KeptOffsets(count, idx, step, keep);
      var rest := KeptOffsets(count, idx + step, step, keep);
      KeptOffsetsSound(count, idx + step, step, keep);
      ModAddStep(idx, step);
      if keep(idx) {
        assert os == [idx] + rest;
        forall k | 0 < k < |os| ensures os[k] == rest[k - 1] {
        }
      } else {
        assert os == rest;
      }
    }
  }

  /** Every accepted offset `idx` plus a multiple of `step` below `count` is kept. */
  lemma {:induction false} KeptOffsetsComplete(count: nat, idx: nat, step: Pos, keep: nat -> bool, o: nat)
    requires idx <= o < count && o % step == idx % step && keep(o)
    ensures o in KeptOffsets(count, idx, step, keep)
    decreases count - idx
  {
    if o > idx {
      ModGap(idx, o, step);
      ModAddStep(idx, step);
      KeptOffsetsComplete(count, idx + step, step, keep, o);
    }
  }

  /** A row can be computed at every offset. */
  ghost predicate Defined(offsets: seq<nat>, rowOf: nat --> Candidate)
  {
    forall k :: 0 <= k < |offsets| ==> rowOf.requires(offsets[k])
  }

  /** The rows computed at the given offsets, in order. */
  function Rows(offsets: seq<nat>, rowOf: nat --> Candidate): (cs: seq<Candidate>)
    requires Defined(offsets, rowOf)
    ensures |cs| == |offsets|
  {
    if offsets == [] then []
    else
      var n := |offsets| - 1;
      Rows(offsets[..n], rowOf) + [rowOf(offsets[n])]
  }

  /** Row k is the one computed at offset k. */
  lemma {:induction false} RowsAt(offsets: seq<nat>, rowOf: nat --> Candidate)
    requires Defined(offsets, rowOf)
    ensures forall k :: 0 <= k < |offsets| ==> Rows(offsets, rowOf)[k] == rowOf(offsets[k])
    decreases |offsets|
  {
    if offsets != [] {
      var n := |offsets| - 1;
      RowsAt(offsets[..n], rowOf);
      forall k | 0 <= k < n ensures Rows(offsets, rowOf)[k] == rowOf(offsets[k]) {
        assert offsets[..n][k] == offsets[k];
      }
    }
  }

  /** One step of the scan at a kept offset: the offset joins the kept ones
      and its row joins the rows. */
  lemma KeptStep(count: nat, step: Pos, keep: nat -> bool, rowOf: nat --> Candidate, done: seq<nat>, idx: nat)
    requires idx < count && keep(idx) && rowOf.requires(idx)
    requires KeptOffsets(count, 0, step, keep) == done + KeptOffsets(count, idx, step, keep)
    requires Defined(done, rowOf)
    ensures KeptOffsets(count, 0, step, keep) == (done + [idx]) + KeptOffsets(count, idx + step, step, keep)
    ensures Defined(done + [idx], rowOf)
    ensures Rows(done + [idx], rowOf) == Rows(done, rowOf) + [rowOf(idx)]
  {
    var rest := KeptOffsets(count, idx + step, step, keep);
    assert done + ([idx] + rest) == (done + [idx]) + rest;
    assert (done + [idx])[..|done|] == done;
  }

  /** The loop of `calculate_properties_possible_events`: every `step`-th
      offset below `count` that `keep` accepts gets its row. */
  method CollectRows(count: nat, step: Pos, keep: nat -> bool, rowOf: nat --> Candidate)
    returns (rows: seq<Candidate>)
    requires forall o: nat :: keep(o) ==> rowOf.requires(o)
    ensures rows == Rows(KeptOffsets(count, 0, step, keep), rowOf)
  {
    rows := [];
    ghost var done: seq<nat> := [];
    var idx := 0;
    while idx < count
      invariant KeptOffsets(count, 0, step, keep) == done + KeptOffsets(count, idx, step, keep)
      invariant Defined(done, rowOf)
      invariant rows == Rows(done, rowOf)
      decreases count - idx
    {
      if keep(idx) {
        KeptStep(count, step, keep, rowOf, done, idx);
        rows := rows + [rowOf(idx)];
        done := done + [idx];
      } else {
        assert KeptOffsets(count, idx, step, keep) == KeptOffsets(count, idx + step, step, keep);
      }
      idx := idx + step;
    }
    assert done == KeptOffsets(count, 0, step, keep);
  }

  /** Whether the scan keeps offset `o` of the block trace `seg` that starts at
      `start` in a signal of length `n`: the trace is below 0.5 there and the
      event window after it fits in the signal. */
  function Keep(seg: seq<real>, start: nat, n: nat, ev: nat): nat -> bool
  {
    (o: nat) => o < |seg| && seg[o] < 0.5 && start + o + ev <= n
  }

  /** The row at offset `o` of the block starting at `start`. */
  function RowOf(signal: seq<real>, start: nat, sz: ScanSizes, std: seq<real> -> real): nat --> Candidate
  {
    (o: nat) requires start + o + sz.event <= |signal| => CandidateAt(signal, start + o, o, sz, std)
  }

  /** The scanned offsets of block `b`. */
  function BlockOffsets(b: Block, signal: seq<real>, sz: ScanSizes): seq<nat>
  {
    var seg := Segment(signal, b);
    KeptOffsets(|seg|, 0, sz.step, Keep(seg, b.start, |signal|, sz.event))
  }

  /** `o` is a valid onset offset of block `b`: a multiple of `step` inside
      `[0, end - start)`, with the event window after it inside the signal and
      the trace below 0.5 at it. */
  predicate Onset(b: Block, signal: seq<real>, sz: ScanSizes, o: int)
  {
    0 <= o && o % sz.step == 0 && o < b.end - b.start && b.start + o + sz.event <= |signal| &&
    signal[b.start + o] < 0.5
  }

  /** The scanned offsets of a block are increasing valid onset offsets. */
  lemma BlockOffsetsSound(b: Block, signal: seq<real>, sz: ScanSizes)
    ensures forall k :: 0 <= k < |BlockOffsets(b, signal, sz)| ==> Onset(b, signal, sz, BlockOffsets(b, signal, sz)[k])
    ensures StrictlyIncreasing(BlockOffsets(b, signal, sz))
  {
    var seg := Segment(signal, b);
    var keep := Keep(seg, b.start, |signal|, sz.event);
    KeptOffsetsSound(|seg|, 0, sz.step, keep);
    var os := BlockOffsets(b, signal, sz);
    if |seg| > 0 {
      assert seg == signal[b.start..b.start + |seg|];
      assert |seg| <= b.end - b.start;
    }
    forall k | 0 <= k < |os| ensures Onset(b, signal, sz, os[k]) {
      assert keep(os[k]);
      assert seg[os[k]] == signal[b.start + os[k]];
    }
  }

  lemma BlockOffsetOnset(b: Block, signal: seq<real>, sz: ScanSizes, k: nat)
    requires k < |BlockOffsets(b, signal, sz)|
    ensures Onset(b, signal, sz, BlockOffsets(b, signal, sz)[k])
  {
    BlockOffsetsSound(b, signal, sz);
  }

  /** Every valid onset offset is scanned. */
  lemma BlockOffsetsComplete(b: Block, signal: seq<real>, sz: ScanSizes, o: nat)
    requires Onset(b, signal, sz, o)
    ensures o in BlockOffsets(b, signal, sz)
  {
    var seg := Segment(signal, b);
    assert o < |seg|;
    assert seg == signal[b.start..b.start + |seg|];
    assert seg[o] == signal[b.start + o];
    KeptOffsetsComplete(|seg|, 0, sz.step, Keep(seg, b.start, |signal|, sz.event), o);
  }

  /** All rows of block `b`, one per scanned offset. */
  function PossibleEvents(b: Block, signal: seq<real>, sz: ScanSizes, std: seq<real> -> real): (cs: seq<Candidate>)
    ensures |cs| == |BlockOffsets(b, signal, sz)|
    ensures forall k :: 0 <= k < |cs| ==> cs[k].offset == BlockOffsets(b, signal, sz)[k]
  {
    RowsAt(BlockOffsets(b, signal, sz), RowOf(signal, b.start, sz, std));
    Rows(BlockOffsets(b, signal, sz), RowOf(signal, b.start, sz, std))
  }

  /** `calculate_properties_possible_events`: one row per scanned offset where
      the block's trace is below 0.5, skipping offsets whose event window would
      run past the end of the signal. */
  method CalculatePropertiesPossibleEvents(b: Block, signal: seq<real>, sz: ScanSizes, std: seq<real> -> real)
    returns (props: seq<Candidate>)
    ensures props == PossibleEvents(b, signal, sz, std)
  {
    var seg := Segment(signal, b);
    props := CollectRows(|seg|, sz.step, Keep(seg, b.start, |signal|, sz.event), RowOf(signal, b.start, sz, std));
  }

  // ---------------------------------------------------------------------------
  // find_best_events

  /** The filter of `find_best_events`. A NaN baseline fails every comparison,
      so only candidates with a non-empty baseline pass. */
  predicate Passes(c: Candidate)
  {
    c.baselineStd.Value? && c.baselineMean.Value? &&
    c.eventStd > c.baselineStd.v * 3.0 && c.baselineMean.v < 0.5 &&
    c.eventMean - c.baselineMean.v > 0.2
  }

  /** The candidates that pass, in scan order. */
  function FilterCandidates(cs: seq<Candidate>): (r: seq<Candidate>)
    ensures IsSubseq(r, cs)
    ensures forall k :: 0 <= k < |r| ==> Passes(r[k])
    ensures forall k :: 0 <= k < |cs| && Passes(cs[k]) ==> cs[k] in r
  {
    Filter(cs, Passes)
  }

  /** `max(cs, key=downward magnitude)`: Python scans left to right and only
      a strictly larger key replaces the current maximum, so the result is the
      first index holding the largest magnitude, and the only such index. */
  function FirstMaxIndex(cs: seq<Candidate>): (i: nat)
    requires |cs| > 0
    ensures i < |cs|
    ensures forall k :: 0 <= k < |cs| ==> cs[k].downwardMagnitude <= cs[i].downwardMagnitude
    ensures forall k :: 0 <= k < i ==> cs[k].downwardMagnitude < cs[i].downwardMagnitude
  {
    if |cs| == 1 then 0
    else
      var init := cs[..|cs| - 1];
      var i := FirstMaxIndex(init);
      assert init[i] == cs[i];
      if cs[|cs| - 1].downwardMagnitude > cs[i].downwardMagnitude then |cs| - 1 else i
  }

  /** The offset of the first passing candidate with the largest downward
      magnitude, or None when no candidate passes. */
  function BestOffset(cs: seq<Candidate>): Option<nat>
  {
    var filtered := FilterCandidates(cs);
    if filtered == [] then None else Some(filtered[FirstMaxIndex(filtered)].offset)
  }

  /** A chosen offset is the offset of one of the candidates. */
  lemma BestOffsetIn(cs: seq<Candidate>)
    requires BestOffset(cs).Some?
    ensures exists k :: 0 <= k < |cs| && cs[k].offset == BestOffset(cs).value
  {
    var filtered := FilterCandidates(cs);
    SubseqFacts(filtered, cs);
    assert filtered[FirstMaxIndex(filtered)] in cs;
  }

  /** `find_best_events`: the block start plus the offset of the first passing
      candidate with the largest downward magnitude, or None when no candidate
      passes. */
  function FindBestEvent(b: Block, signal: seq<real>, sz: ScanSizes, std: seq<real> -> real): Option<nat>
  {
    match BestOffset(PossibleEvents(b, signal, sz, std))
    case None => None
    case Some(o) => Some(b.start + o)
  }

  /** None exactly when no candidate of the block passes the filter. */
  lemma FindBestEventNone(b: Block, signal: seq<real>, sz: ScanSizes, std: seq<real> -> real)
    ensures FindBestEvent(b, signal, sz, std).None? <==>
            forall k :: 0 <= k < |PossibleEvents(b, signal, sz, std)| ==> !Passes(PossibleEvents(b, signal, sz, std)[k])
  {
    var cs := PossibleEvents(b, signal, sz, std);
    var filtered := FilterCandidates(cs);
    if filtered != [] {
      SubseqFacts(filtered, cs);
      assert filtered[0] in cs;
    }
  }

  /** A chosen index is the block start plus a scanned offset. */
  lemma FindBestEventScanned(b: Block, signal: seq<real>, sz: ScanSizes, std: seq<real> -> real)
    requires FindBestEvent(b, signal, sz, std).Some?
    ensures exists k :: 0 <= k < |BlockOffsets(b, signal, sz)| &&
              FindBestEvent(b, signal, sz, std).value == b.start + BlockOffsets(b, signal, sz)[k]
  {
    var cs := PossibleEvents(b, signal, sz, std);
    BestOffsetIn(cs);
    var k :| 0 <= k < |cs| && cs[k].offset == BestOffset(cs).value;
    assert cs[k].offset == BlockOffsets(b, signal, sz)[k];
  }

  /** A chosen index lies in `[start, end)`, the trace is below 0.5 there and
      the event window after it fits in the signal; with the scanned-offset
      lemmas it is also `start` plus a multiple of `step`. */
  lemma FindBestEventBounds(b: Block, signal: seq<real>, sz: ScanSizes, std: seq<real> -> real, e: nat)
    requires FindBestEvent(b, signal, sz, std) == Some(e)
    ensures b.start <= e < b.end && e + sz.event <= |signal| && signal[e] < 0.5
  {
    var os := BlockOffsets(b, signal, sz);
    FindBestEventScanned(b, signal, sz, std);
    var k :| 0 <= k < |os| && e == b.start + os[k];
    BlockOffsetOnset(b, signal, sz, k);
  }

  /** The chosen offset is that of a passing candidate whose magnitude is the
      largest among the passing ones and strictly larger than that of every
      passing candidate before it in scan order. */
  lemma BestOffsetSelects(cs: seq<Candidate>)
    requires BestOffset(cs).Some?
    ensures exists i :: 0 <= i < |FilterCandidates(cs)| && BestOffset(cs).value == FilterCandidates(cs)[i].offset &&
              (forall k :: 0 <= k < |FilterCandidates(cs)| ==>
                 FilterCandidates(cs)[k].downwardMagnitude <= FilterCandidates(cs)[i].downwardMagnitude) &&
              (forall k :: 0 <= k < i ==>
                 FilterCandidates(cs)[k].downwardMagnitude < FilterCandidates(cs)[i].downwardMagnitude)
  {
    var i := FirstMaxIndex(FilterCandidates(cs));
    assert BestOffset(cs).value == FilterCandidates(cs)[i].offset;
  }

  // ---------------------------------------------------------------------------
  // find_best_events_for_blocks

  /** The onsets of the blocks, in block order, blocks without one skipped.
      The scan sizes of each block are `sizesOf(block)`. */
  function BestEvents(blocks: seq<Block>, signal: seq<real>, sizesOf: Block -> ScanSizes,
                      std: seq<real> -> real): seq<nat>
  {
    if blocks == [] then []
    else
      var rest := BestEvents(blocks[1..], signal, sizesOf, std);
      match FindBestEvent(blocks[0], signal, sizesOf(blocks[0]), std)
      case None => rest
      case Some(e) => [e] + rest
  }

  /** `find_best_events_for_blocks`. */
  method FindBestEventsForBlocks(blocks: seq<Block>, signal: seq<real>, sizesOf: Block -> ScanSizes,
                                 std: seq<real> -> real) returns (events: seq<nat>)
    ensures events == BestEvents(blocks, signal, sizesOf, std)
  {
    events := [];
    for i := 0 to |blocks|
      invariant BestEvents(blocks, signal, sizesOf, std) == events + BestEvents(blocks[i..], signal, sizesOf, std)
    {
      assert blocks[i..][1..] == blocks[i + 1..];
      var best := FindBestEvent(blocks[i], signal, sizesOf(blocks[i]), std);
      if best.Some? {
        assert events + ([best.value] + BestEvents(blocks[i + 1..], signal, sizesOf, std)) ==
               (events + [best.value]) + BestEvents(blocks[i + 1..], signal, sizesOf, std);
        events := events + [best.value];
      }
    }
  }

  /** `events` takes at most one index from each block, in block order, each
      inside its block's `[start, end)`. */
  predicate InBlocks(events: seq<nat>, blocks: seq<Block>)
    decreases |blocks|
  {
    events == [] ||
    (blocks != [] &&
     ((blocks[0].start <= events[0] < blocks[0].end && InBlocks(events[1..], blocks[1..])) ||
      InBlocks(events, blocks[1..])))
  }

  lemma {:induction false} InBlocksLength(events: seq<nat>, blocks: seq<Block>)
    requires InBlocks(events, blocks)
    ensures |events| <= |blocks|
    decreases |blocks|
  {
    if events != [] {
      if blocks[0].start <= events[0] < blocks[0].end && InBlocks(events[1..], blocks[1..]) {
        InBlocksLength(events[1..], blocks[1..]);
      } else {
        InBlocksLength(events, blocks[1..]);
      }
    }
  }

  /** Onsets taken from blocks that all start after `x` are after `x`. */
  lemma {:induction false} InBlocksAbove(events: seq<nat>, blocks: seq<Block>, x: int)
    requires InBlocks(events, blocks)
    requires forall k :: 0 <= k < |blocks| ==> blocks[k].start > x
    ensures forall i :: 0 <= i < |events| ==> events[i] > x
    decreases |blocks|
  {
    if events != [] {
      if blocks[0].start <= events[0] < blocks[0].end && InBlocks(events[1..], blocks[1..]) {
        InBlocksAbove(events[1..], blocks[1..], x);
        forall i | 0 < i < |events| ensures events[i] > x {
          assert events[i] == events[1..][i - 1];
        }
      } else {
        InBlocksAbove(events, blocks[1..], x);
      }
    }
  }

  /** One onset at most per block, from separated blocks in order: the onsets
      increase strictly, so no onset is reported twice. */
  lemma {:induction false} InBlocksIncreasing(events: seq<nat>, blocks: seq<Block>)
    requires InBlocks(events, blocks) && Separated(blocks)
    ensures StrictlyIncreasing(events)
    decreases |blocks|
  {
    if events != [] {
      assert Separated(blocks[1..]) by {
        forall i, j | 0 <= i < j < |blocks[1..]| ensures blocks[1..][i].end + 1 < blocks[1..][j].start {
          assert blocks[1..][i] == blocks[i + 1] && blocks[1..][j] == blocks[j + 1];
        }
      }
      if blocks[0].start <= events[0] < blocks[0].end && InBlocks(events[1..], blocks[1..]) {
        InBlocksIncreasing(events[1..], blocks[1..]);
        InBlocksAbove(events[1..], blocks[1..], blocks[0].end);
        forall i, j | 0 <= i < j < |events| ensures events[i] < events[j] {
          assert events[j] == events[1..][j - 1];
          if i > 0 {
            assert events[i] == events[1..][i - 1];
          }
        }
      } else {
        InBlocksIncreasing(events, blocks[1..]);
      }
    }
  }

  /** At most one onset per block, in block order, each inside its block, and
      each followed by a full event window inside the signal. */
  lemma {:induction false} BestEventsInBlocks(blocks: seq<Block>, signal: seq<real>, sizesOf: Block -> ScanSizes,
                                              std: seq<real> -> real)
    ensures InBlocks(BestEvents(blocks, signal, sizesOf, std), blocks)
    ensures |BestEvents(blocks, signal, sizesOf, std)| <= |blocks|
    ensures forall k :: 0 <= k < |BestEvents(blocks, signal, sizesOf, std)| ==>
              BestEvents(blocks, signal, sizesOf, std)[k] < |signal|
    decreases |blocks|
  {
    if blocks != [] {
      var rest := BestEvents(blocks[1..], signal, sizesOf, std);
      BestEventsInBlocks(blocks[1..], signal, sizesOf, std);
      if FindBestEvent(blocks[0], signal, sizesOf(blocks[0]), std).Some? {
        FindBestEventBounds(blocks[0], signal, sizesOf(blocks[0]), std, FindBestEvent(blocks[0], signal, sizesOf(blocks[0]), std).value);
      }
      var es := BestEvents(blocks, signal, sizesOf, std);
      if es != rest {
        assert es == [es[0]] + rest;
        assert es[1..] == rest;
      }
      InBlocksLength(es, blocks);
    }
  }
}
