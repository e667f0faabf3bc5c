/** Run-length logic over the boolean mask: closing short runs of False
    (`fill_false_between_trues`) and cutting the mask into its maximal runs of
    True (`find_consecutive_true_blocks`). */
module Runs {
  import opened Numeric

  /** A candidate region of the trace. `find_consecutive_true_blocks` makes
      `end` the last index of the run (inclusive); the later stages read the
      block as the slice `[start:end]`. */
  datatype Block = Block(start: nat, end: nat)

  // ---------------------------------------------------------------------------
  // Maximal runs

  /** The end (exclusive) of the run of value `v` that starts at `i`. */
  function RunEnd(m: seq<bool>, i: nat, v: bool): (e: nat)
    requires i <= |m|
    ensures i <= e <= |m|
    ensures forall k :: i <= k < e ==> m[k] == v
    ensures e < |m| ==> m[e] != v
    decreases |m| - i
  {
    if i < |m| && m[i] == v then RunEnd(m, i + 1, v) else i
  }

  /** The start of the run of value `v` that ends (exclusive) at `j`. */
  function RunStart(m: seq<bool>, j: nat, v: bool): (s: nat)
    requires j <= |m|
    ensures s <= j
    ensures forall k :: s <= k < j ==> m[k] == v
    ensures s > 0 ==> m[s - 1] != v
  {
    if j > 0 && m[j - 1] == v then RunStart(m, j - 1, v) else j
  }

  /** `[s, e)` is a maximal run of value `v`: non-empty, all `v`, and bounded by
      the other value or by the ends of the mask. */
  ghost predicate MaximalRun(m: seq<bool>, s: nat, e: nat, v: bool)
  {
    s < e <= |m| && (forall k :: s <= k < e ==> m[k] == v) &&
    (s == 0 || m[s - 1] != v) && (e == |m| || m[e] != v)
  }

  /** Every position of a maximal run sees that run's bounds. */
  lemma RunBounds(m: seq<bool>, s: nat, e: nat, v: bool, t: nat)
    requires MaximalRun(m, s, e, v) && s <= t < e
    ensures RunEnd(m, t, v) == e && RunStart(m, t + 1, v) == s
  {
  }

  /** The maximal run of value `v` through position `j`. */
  lemma RunThrough(m: seq<bool>, j: nat, v: bool)
    requires j < |m| && m[j] == v
    ensures MaximalRun(m, RunStart(m, j + 1, v), RunEnd(m, j, v), v)
  {
  }

  // ---------------------------------------------------------------------------
  // fill_false_between_trues

  /** The length of the run of False through `j`. */
  function FalseRunLength(m: seq<bool>, j: nat): int
    requires j < |m|
  {
    RunEnd(m, j, false) - RunStart(m, j + 1, false)
  }

  /** Entry `j` of the filled mask: True, or inside a run of False of at most
      `threshold` entries. */
  predicate Filled(m: seq<bool>, threshold: int, j: nat)
    requires j < |m|
  {
    m[j] || FalseRunLength(m, j) <= threshold
  }

  /** The mask with every maximal run of False of length at most `threshold`
      turned into True. */
  function FillGaps(m: seq<bool>, threshold: int): (r: seq<bool>)
    ensures |r| == |m|
    ensures forall j :: 0 <= j < |m| ==> r[j] == Filled(m, threshold, j)
    ensures forall j :: 0 <= j < |m| && m[j] ==> r[j]
  {
    seq(|m|, j requires 0 <= j < |m| => Filled(m, threshold, j))
  }

  /** `fill_false_between_trues`: a copy of the mask in which each run of False
      that is closed by a True, or by the end of the mask, is set to True when
      it has at most `threshold` entries. */
  method FillFalseBetweenTrues(mask: array<bool>, threshold: int) returns (r: array<bool>)
    ensures fresh(r)
    ensures r.Length == mask.Length
    ensures r[..] == FillGaps(mask[..], threshold)
  {
    ghost var m := mask[..];
    var n := mask.Length;
    r := new bool[n](k requires 0 <= k < n reads mask => mask[k]);
    var falseCount := 0;
    var startFalse := -1;
    for i := 0 to n
      invariant 0 <= falseCount <= i
      invariant falseCount > 0 ==> startFalse == i - falseCount
      invariant forall k :: i - falseCount <= k < i ==> !m[k]
      invariant i - falseCount > 0 ==> m[i - falseCount - 1]
      invariant forall k :: 0 <= k < i - falseCount ==> r[k] == Filled(m, threshold, k)
      invariant forall k :: i - falseCount <= k < n ==> r[k] == m[k]
    {
      if !mask[i] {
        if falseCount == 0 {
          startFalse := i;
        }
        falseCount := falseCount + 1;
      } else {
        if falseCount > 0 {
          FillGapsRuns(m, threshold, startFalse, i);
          if falseCount <= threshold {
            forall k | startFalse <= k < i {
              r[k] := true;
            }
          }
        }
        falseCount := 0;
      }
    }
    if falseCount > 0 {
      FillGapsRuns(m, threshold, startFalse, n);
      if falseCount <= threshold {
        forall k | startFalse <= k < n {
          r[k] := true;
        }
      }
    }
    assert forall k :: 0 <= k < n ==> r[k] == Filled(m, threshold, k);
    assert mask[..] == m;
    assert r[..] == FillGaps(m, threshold);
  }

  /** A maximal run of False (leading and trailing ones included) becomes all
      True when it has at most `threshold` entries and is left as it is otherwise. */
  lemma FillGapsRuns(m: seq<bool>, threshold: int, s: nat, e: nat)
    requires MaximalRun(m, s, e, false)
    ensures forall k :: s <= k < e ==> Filled(m, threshold, k) == (e - s <= threshold)
  {
    forall k | s <= k < e ensures Filled(m, threshold, k) == (e - s <= threshold) {
      RunBounds(m, s, e, false, k);
    }
  }

  /** Filling twice is filling once: the runs of False that survive are longer
      than the threshold and still bounded by True. */
  lemma FillGapsIdempotent(m: seq<bool>, threshold: int)
    ensures FillGaps(FillGaps(m, threshold), threshold) == FillGaps(m, threshold)
  {
    var r := FillGaps(m, threshold);
    forall j | 0 <= j < |m| ensures FillGaps(r, threshold)[j] == r[j] {
      if !r[j] {
        var s, e := RunStart(m, j + 1, false), RunEnd(m, j, false);
        RunThrough(m, j, false);
        FillGapsRuns(m, threshold, s, e);
        assert MaximalRun(r, s, e, false);
        RunBounds(r, s, e, false, j);
      }
    }
  }

  // ---------------------------------------------------------------------------
  // find_consecutive_true_blocks

  /** The maximal runs of True in `m[from..]`, each as an inclusive block, in order. */
  function TrueRuns(m: seq<bool>, from: nat): seq<Block>
    requires from <= |m|
    decreases |m| - from
  {
    var s := RunEnd(m, from, false);
    if s == |m| then []
    else
      var e := RunEnd(m, s, true);
      [Block(s, e - 1)] + TrueRuns(m, e)
  }

  /** `b` is a run of True inside the mask that a False, or the end of the
      mask, closes on the right. */
  ghost predicate ClosedTrueRun(m: seq<bool>, b: Block)
  {
    b.start <= b.end < |m| && (forall t :: b.start <= t <= b.end ==> m[t]) &&
    (b.end + 1 == |m| || !m[b.end + 1])
  }

  /** The blocks are increasing, with at least one index between consecutive ones. */
  ghost predicate Separated(bs: seq<Block>)
  {
    forall a, b :: 0 <= a < b < |bs| ==> bs[a].end + 1 < bs[b].start
  }

  /** `b` is a closed run of True that starts at or after `from`, right after a
      False unless it starts at `from` itself. */
  ghost predicate RunAfter(m: seq<bool>, from: nat, b: Block)
  {
    ClosedTrueRun(m, b) && from <= b.start && (from < b.start ==> !m[b.start - 1])
  }

  /** Each run found is all True and bounded by False, except that the first
      one may start right at `from`; the runs are increasing and separated by
      at least one False. */
  lemma {:induction false} TrueRunsMaximal(m: seq<bool>, from: nat)
    requires from <= |m|
    ensures forall k :: 0 <= k < |TrueRuns(m, from)| ==> RunAfter(m, from, TrueRuns(m, from)[k])
    ensures Separated(TrueRuns(m, from))
    decreases |m| - from
  {
    var s := RunEnd(m, from, false);
    if s < |m| {
      var e := RunEnd(m, s, true);
      var bs := TrueRuns(m, from);
      var rest := TrueRuns(m, e);
      assert bs == [Block(s, e - 1)] + rest;
      TrueRunsMaximal(m, e);
      assert RunAfter(m, from, bs[0]);
      forall k | 0 < k < |bs| ensures bs[k] == rest[k - 1] && e < bs[k].start && RunAfter(m, from, bs[k]) {
        assert RunAfter(m, e, rest[k - 1]);
      }
    }
  }

  /** Every index holding True lies in one of the runs. */
  lemma {:induction false} TrueRunsCover(m: seq<bool>, from: nat, j: nat)
    requires from <= j < |m| && m[j]
    ensures exists k :: 0 <= k < |TrueRuns(m, from)| && TrueRuns(m, from)[k].start <= j <= TrueRuns(m, from)[k].end
    decreases |m| - from
  {
    var s := RunEnd(m, from, false);
    assert s <= j;
    var e := RunEnd(m, s, true);
    var bs := TrueRuns(m, from);
    assert bs == [Block(s, e - 1)] + TrueRuns(m, e);
    if j < e {
      assert bs[0].start <= j <= bs[0].end;
    } else {
      TrueRunsCover(m, e, j);
      var k :| 0 <= k < |TrueRuns(m, e)| && TrueRuns(m, e)[k].start <= j <= TrueRuns(m, e)[k].end;
      assert bs[k + 1] == TrueRuns(m, e)[k];
    }
  }

  /** The block list as returned: a last run that reaches the end of the mask
      gets the start `min(s, |s - 5 * rate|)`. */
  function AdjustLast(runs: seq<Block>, n: nat, rate: int): (bs: seq<Block>)
    ensures |bs| == |runs|
    ensures forall k :: 0 <= k < |runs| - 1 ==> bs[k] == runs[k]
    ensures runs != [] ==> bs[|bs| - 1].end == runs[|runs| - 1].end
    ensures runs != [] ==> bs[|bs| - 1].start <= runs[|runs| - 1].start
  {
    if runs != [] && runs[|runs| - 1].end == n - 1 then
      var s := runs[|runs| - 1].start;
      var d := if s - 5 * rate < 0 then 5 * rate - s else s - 5 * rate;
      runs[..|runs| - 1] + [Block(if s <= d then s else d, n - 1)]
    else runs
  }

  /** Without a run reaching the end of the mask, the list is left as it is. */
  lemma AdjustLastNoop(runs: seq<Block>, n: nat, rate: int)
    requires runs == [] || runs[|runs| - 1].end != n - 1
    ensures AdjustLast(runs, n, rate) == runs
  {
  }

  /** A last run `[s, n - 1]` gets the start `min(s, |s - 5 * rate|)` and the
      runs before it are kept. */
  lemma AdjustLastAppend(init: seq<Block>, s: nat, n: nat, rate: int)
    requires s < n
    ensures var d := if s - 5 * rate < 0 then 5 * rate - s else s - 5 * rate;
            AdjustLast(init + [Block(s, n - 1)], n, rate) == init + [Block(if s <= d then s else d, n - 1)]
  {
    assert (init + [Block(s, n - 1)])[..|init|] == init;
  }

  /** The blocks `find_consecutive_true_blocks` returns for mask `m`. */
  function ConsecutiveBlocks(m: seq<bool>, rate: int): seq<Block>
  {
    AdjustLast(TrueRuns(m, 0), |m|, rate)
  }

  /** The runs of `m` are `blocks` followed by the runs of `m[pending..]`. */
  ghost predicate Found(m: seq<bool>, blocks: seq<Block>, pending: nat)
  {
    pending <= |m| && TrueRuns(m, 0) == blocks + TrueRuns(m, pending)
  }

  /** Scanning past a False that closes no run. */
  lemma TrueRunsSkip(m: seq<bool>, prefix: seq<Block>, i: nat)
    requires i < |m| && !m[i]
    requires Found(m, prefix, i)
    ensures Found(m, prefix, i + 1)
  {
    assert RunEnd(m, i, false) == RunEnd(m, i + 1, false);
  }

  /** A run of True `[s, i)` closed by a False at `i`, or by the end of the mask,
      is the next run found. */
  lemma TrueRunsAt(m: seq<bool>, prefix: seq<Block>, s: nat, i: nat)
    requires s < i <= |m|
    requires forall t :: s <= t < i ==> m[t]
    requires i == |m| || !m[i]
    requires Found(m, prefix, s)
    ensures Found(m, prefix + [Block(s, i - 1)], i)
  {
    assert RunEnd(m, s, false) == s;
    assert RunEnd(m, s, true) == i;
  }

  /** `find_consecutive_true_blocks`: one scan that opens a block at the first
      True of a run and closes it at the next False. */
  method FindConsecutiveTrueBlocks(mask: array<bool>, rate: int) returns (blocks: seq<Block>)
    ensures blocks == ConsecutiveBlocks(mask[..], rate)
  {
    ghost var m := mask[..];
    var n := mask.Length;
    blocks := [];
    var inBlock := false;
    var startIdx := 0;
    // The runs still to be found are those of m[pending..].
    ghost var pending := 0;
    for i := 0 to n
      invariant pending <= i
      invariant Found(m, blocks, pending)
      invariant !inBlock ==> pending == i && (i > 0 ==> !m[i - 1])
      invariant inBlock ==> pending == startIdx < i && forall t :: startIdx <= t < i ==> m[t]
    {
      if mask[i] {
        if !inBlock {
          startIdx := i;
          inBlock := true;
        }
      } else {
        if inBlock {
          TrueRunsAt(m, blocks, startIdx, i);
          blocks := blocks + [Block(startIdx, i - 1)];
          inBlock := false;
        }
        TrueRunsSkip(m, blocks, i);
        pending := i + 1;
      }
    }
    if inBlock {
      TrueRunsAt(m, blocks, startIdx, n);
      var d := if startIdx - 5 * rate < 0 then 5 * rate - startIdx else startIdx - 5 * rate;
      assert TrueRuns(m, 0) == blocks + [Block(startIdx, n - 1)];
      AdjustLastAppend(blocks, startIdx, n, rate);
      blocks := blocks + [Block(if startIdx <= d then startIdx else d, n - 1)];
    } else {
      assert TrueRuns(m, n) == [];
      assert TrueRuns(m, 0) == blocks;
      TrueRunsMaximal(m, 0);
      assert blocks != [] ==> ClosedTrueRun(m, blocks[|blocks| - 1]);
      AdjustLastNoop(blocks, n, rate);
    }
    assert mask[..] == m;
  }

  /** The returned blocks lie in the mask with start <= end, are increasing and
      separated (the last one too, unless it reaches the end of the mask and
      has its start moved back), and each one except a last block reaching the
      end of the mask is a maximal run of True. */
  lemma ConsecutiveBlocksShape(m: seq<bool>, rate: int)
    ensures var bs := ConsecutiveBlocks(m, rate);
            (forall k :: 0 <= k < |bs| ==> bs[k].start <= bs[k].end < |m|) &&
            (forall a, b :: 0 <= a < b < |bs| - 1 ==> bs[a].end + 1 < bs[b].start) &&
            (forall a :: 0 <= a < |bs| - 1 ==> bs[a].end + 1 < bs[|bs| - 1].end) &&
            (bs != [] && bs[|bs| - 1].end < |m| - 1 ==> Separated(bs)) &&
            (forall k :: 0 <= k < |bs| && bs[k].end < |m| - 1 ==>
               MaximalRun(m, bs[k].start, bs[k].end + 1, true))
  {
    TrueRunsMaximal(m, 0);
    UnmovedLastSeparated(m, rate);
  }

  /** A last block that stops short of the end of the mask keeps its start, so
      it is separated from the ones before it like all the others. */
  lemma UnmovedLastSeparated(m: seq<bool>, rate: int)
    ensures var bs := ConsecutiveBlocks(m, rate);
            bs != [] && bs[|bs| - 1].end < |m| - 1 ==> Separated(bs)
  {
    TrueRunsMaximal(m, 0);
    var runs := TrueRuns(m, 0);
    if runs != [] && runs[|runs| - 1].end != |m| - 1 {
      AdjustLastNoop(runs, |m|, rate);
    }
  }

  /** In a filled mask, a False right before a True at `s` belongs to a run
      of False longer than the threshold, so any earlier True is more than
      `threshold + 1` indices back. */
  lemma FilledGap(m: seq<bool>, threshold: int, e: nat, s: nat)
    requires e < s < |m|
    requires FillGaps(m, threshold)[e] && FillGaps(m, threshold)[s] && !FillGaps(m, threshold)[s - 1]
    ensures s - e > threshold + 1
  {
    var f := FillGaps(m, threshold);
    var lo, hi := RunStart(m, s, false), RunEnd(m, s - 1, false);
    RunThrough(m, s - 1, false);
    FillGapsRuns(m, threshold, lo, hi);
    assert forall k :: lo <= k < hi ==> !f[k];
  }

  /** Between a run and the last run of a filled mask lies a run of False
      longer than the threshold. */
  lemma {:induction false} FilledRunsGap(m: seq<bool>, threshold: int, a: nat)
    requires a < |TrueRuns(FillGaps(m, threshold), 0)| - 1
    ensures var runs := TrueRuns(FillGaps(m, threshold), 0);
            runs[|runs| - 1].start - runs[a].end > threshold + 1
  {
    var f := FillGaps(m, threshold);
    var runs := TrueRuns(f, 0);
    TrueRunsMaximal(f, 0);
    var b := runs[|runs| - 1];
    assert RunAfter(f, 0, runs[a]) && RunAfter(f, 0, b);
    assert runs[a].end + 1 < b.start;
    FilledGap(m, threshold, runs[a].end, b.start);
  }

  /** The last of `runs` starts more than `gap` indices after every other
      run ends. */
  ghost predicate LastApart(runs: seq<Block>, gap: int)
  {
    forall a :: 0 <= a < |runs| - 1 ==> runs[|runs| - 1].start - runs[a].end > gap
  }

  /** Moving the start of a last run back by `5 * rate` keeps separated runs
      separated when the last run is more than `10 * rate + 1` after every
      other one. */
  lemma AdjustLastSeparated(runs: seq<Block>, n: nat, rate: Pos)
    requires Separated(runs) && LastApart(runs, 10 * rate + 1)
    ensures Separated(AdjustLast(runs, n, rate))
  {
    var bs := AdjustLast(runs, n, rate);
    if runs != [] && runs[|runs| - 1].end == n - 1 {
      var last := |runs| - 1;
      forall a | 0 <= a < last ensures bs[a].end + 1 < bs[last].start {
        MovedStartClear(runs[a].end, runs[last].start, rate);
      }
    }
  }

  /** A start more than `10 * rate + 1` after `e` stays more than one index
      after `e` when it is replaced by `min(s, |s - 5 * rate|)`. */
  lemma MovedStartClear(e: nat, s: nat, rate: Pos)
    requires s - e > 10 * rate + 1
    ensures var d := if s - 5 * rate < 0 then 5 * rate - s else s - 5 * rate;
            e + 1 < (if s <= d then s else d)
  {
  }

  /** In a filled mask, the last run lies more than `threshold + 1` indices
      after every earlier run. */
  lemma FilledLastApart(m: seq<bool>, threshold: int)
    ensures LastApart(TrueRuns(FillGaps(m, threshold), 0), threshold + 1)
  {
    var runs := TrueRuns(FillGaps(m, threshold), 0);
    forall a | 0 <= a < |runs| - 1 ensures runs[|runs| - 1].start - runs[a].end > threshold + 1 {
      FilledRunsGap(m, threshold, a);
    }
  }

  /** The blocks of a mask whose last run is far from the others are
      separated, the moved last one included. */
  lemma ApartBlocksSeparated(f: seq<bool>, rate: Pos)
    requires LastApart(TrueRuns(f, 0), 10 * rate + 1)
    ensures Separated(ConsecutiveBlocks(f, rate))
  {
    TrueRunsMaximal(f, 0);
    AdjustLastSeparated(TrueRuns(f, 0), |f|, rate);
  }

  /** Once the gaps of at most `10 * rate` samples are closed, the returned
      blocks are increasing and separated, the last one included: moving its
      start back by `5 * rate` cannot reach the block before it. */
  lemma FilledBlocksSeparated(m: seq<bool>, rate: Pos)
    ensures Separated(ConsecutiveBlocks(FillGaps(m, 10 * rate), rate))
  {
    FilledLastApart(m, 10 * rate);
    ApartBlocksSeparated(FillGaps(m, 10 * rate), rate);
  }

  /** A sub-list of separated blocks is separated. */
  lemma {:induction false} SubseqSeparated(a: seq<Block>, b: seq<Block>)
    requires IsSubseq(a, b) && Separated(b)
    ensures Separated(a)
    decreases |b|
  {
    if a != [] {
      assert Separated(b[1..]) by {
        forall i, j | 0 <= i < j < |b[1..]| ensures b[1..][i].end + 1 < b[1..][j].start {
          assert b[1..][i] == b[i + 1] && b[1..][j] == b[j + 1];
        }
      }
      if a[0] == b[0] && IsSubseq(a[1..], b[1..]) {
        SubseqSeparated(a[1..], b[1..]);
        SubseqFacts(a[1..], b[1..]);
        forall j | 0 < j < |a| ensures a[0].end + 1 < a[j].start {
          assert a[j] == a[1..][j - 1] && a[1..][j - 1] in a[1..];
          assert a[j] in b[1..];
          var k :| 0 <= k < |b[1..]| && b[1..][k] == a[j];
          assert b[k + 1] == a[j];
        }
        forall i, j | 0 <= i < j < |a| ensures a[i].end + 1 < a[j].start {
          if i > 0 {
            assert a[i] == a[1..][i - 1] && a[j] == a[1..][j - 1];
          }
        }
      } else {
        SubseqSeparated(a, b[1..]);
      }
    }
  }

  /** Every True index lies in a returned block, and there are no blocks
      exactly when the mask holds no True. */
  lemma ConsecutiveBlocksCover(m: seq<bool>, rate: int)
    ensures var bs := ConsecutiveBlocks(m, rate);
            (forall j :: 0 <= j < |m| && m[j] ==> exists k :: 0 <= k < |bs| && bs[k].start <= j <= bs[k].end) &&
            (bs == [] <==> forall j :: 0 <= j < |m| ==> !m[j])
  {
    var runs := TrueRuns(m, 0);
    var bs := ConsecutiveBlocks(m, rate);
    forall j | 0 <= j < |m| && m[j] ensures exists k :: 0 <= k < |bs| && bs[k].start <= j <= bs[k].end {
      TrueRunsCover(m, 0, j);
      var k :| 0 <= k < |runs| && runs[k].start <= j <= runs[k].end;
      assert bs[k].start <= runs[k].start && bs[k].end == runs[k].end;
    }
    if bs != [] {
      TrueRunsMaximal(m, 0);
      assert m[runs[0].start];
    }
  }

  /** A mask ending in True yields a last block that ends at n - 1 and starts at
      `min(s, |s - 5 * rate|)`, where `[s, n)` is the maximal run of True at the
      end of the mask. */
  lemma LastBlockSpec(m: seq<bool>, rate: int)
    requires |m| > 0 && m[|m| - 1]
    ensures var bs := ConsecutiveBlocks(m, rate);
            var s := RunStart(m, |m|, true);
            var d := if s - 5 * rate < 0 then 5 * rate - s else s - 5 * rate;
            MaximalRun(m, s, |m|, true) &&
            bs != [] && bs[|bs| - 1] == Block(if s <= d then s else d, |m| - 1)
  {
    TrueRunsLast(m, 0);
    RunThrough(m, |m| - 1, true);
  }

  /** When the mask ends in True, the last run found is the maximal run of
      True at the end of the mask. */
  lemma {:induction false} TrueRunsLast(m: seq<bool>, from: nat)
    requires from < |m| && m[|m| - 1] && (from == 0 || !m[from - 1] || !m[from])
    ensures TrueRuns(m, from) != []
    ensures TrueRuns(m, from)[|TrueRuns(m, from)| - 1] == Block(RunStart(m, |m|, true), |m| - 1)
    decreases |m| - from
  {
    var s := RunEnd(m, from, false);
    var e := RunEnd(m, s, true);
    FirstTrueRun(m, from);
    if e == |m| {
      assert MaximalRun(m, s, |m|, true);
      RunBounds(m, s, |m|, true, |m| - 1);
    } else {
      TrueRunsLast(m, e);
      LastOfCons(Block(s, e - 1), TrueRuns(m, e));
    }
  }

  /** The first run found from `from` when the mask ends in True: it starts
      after a False (or at 0), and the rest of the scan resumes at its end. */
  lemma FirstTrueRun(m: seq<bool>, from: nat)
    requires from < |m| && m[|m| - 1] && (from == 0 || !m[from - 1] || !m[from])
    ensures var s := RunEnd(m, from, false);
            s < |m| && (s == 0 || !m[s - 1]) && RunEnd(m, s, true) <= |m| &&
            TrueRuns(m, from) == [Block(s, RunEnd(m, s, true) - 1)] + TrueRuns(m, RunEnd(m, s, true))
  {
    var s := RunEnd(m, from, false);
    assert s < |m|;
    if s > from {
      assert !m[s - 1];
    }
  }

  lemma LastOfCons(b: Block, rest: seq<Block>)
    requires rest != []
    ensures ([b] + rest)[|[b] + rest| - 1] == rest[|rest| - 1]
  {
  }

  /** The start rule for the last block can move it back over earlier blocks:
      with rate 1 and True only at indices 1 and 6 of a mask of length 7, the
      last run [6, 6] becomes the block (1, 6), which overlaps the block (1, 1). */
  lemma LastBlockMayOverlap()
    ensures ConsecutiveBlocks([false, true, false, false, false, false, true], 1) == [Block(1, 1), Block(1, 6)]
  {
    var m := [false, true, false, false, false, false, true];
    assert RunEnd(m, 0, false) == 1;
    assert RunEnd(m, 1, true) == 2;
    assert RunEnd(m, 2, false) == 6;
    assert RunEnd(m, 6, true) == 7;
    assert TrueRuns(m, 7) == [];
    assert TrueRuns(m, 2) == [Block(6, 6)];
    assert TrueRuns(m, 0) == [Block(1, 1), Block(6, 6)];
  }
}
