/** The integer accumulation mask: every step labelled 1 adds +1 and every step
    labelled 2 adds -1 over the `pre + ev` samples starting at the step's index
    in the label list; contributions past the end of the trace are dropped.
    The boolean mask is the integer mask compared with 0.5. */
module EventMask {
  import opened Numeric

  /** What the label at list index `idx` adds to mask entry `j`. */
  function Contribution(idx: int, tag: int, width: int, j: int): int
  {
    if idx <= j < idx + width then (if tag == 1 then 1 else if tag == 2 then -1 else 0) else 0
  }

  /** Mask entry `j` after the labels `labels` have been accumulated in list order. */
  function Net(labels: seq<int>, width: int, j: int): int
  {
    if labels == [] then 0
    else Net(labels[..|labels| - 1], width, j) + Contribution(|labels| - 1, labels[|labels| - 1], width, j)
  }

  /** The integer mask of length `n` built from `labels`. */
  function Mask(labels: seq<int>, n: nat, width: int): (m: seq<int>)
    ensures |m| == n
  {
    seq(n, j => Net(labels, width, j))
  }

  /** The boolean mask `mask > 0.5`. */
  function AboveHalf(mask: seq<int>): (b: seq<bool>)
    ensures |b| == |mask|
  {
    seq(|mask|, j requires 0 <= j < |mask| => (mask[j] as real) > 0.5)
  }

  /** `create_event_mask` (and the same loop inside `detect_events`): for the
      label at list index `idx`, add its +1/-1 to the slice `[idx, idx + width)`
      of the mask, clipped to `n`. */
  method CreateEventMask(labels: seq<int>, n: nat, eventWindow: Pos, preEventWindow: Pos)
    returns (mask: array<int>)
    ensures fresh(mask)
    ensures mask.Length == n
    ensures forall j :: 0 <= j < n ==> mask[j] == Net(labels, eventWindow + preEventWindow, j)
  {
    var width := eventWindow + preEventWindow;
    mask := new int[n](_ => 0);
    for idx := 0 to |labels|
      invariant mask.Length == n
      invariant forall j :: 0 <= j < n ==> mask[j] == Net(labels[..idx], width, j)
    {
      assert labels[..idx + 1][..idx] == labels[..idx];
      var delta := if labels[idx] == 1 then 1 else if labels[idx] == 2 then -1 else 0;
      var lo := if idx < n then idx else n;
      var hi := if idx + width < n then idx + width else n;
      for j := lo to hi
        invariant forall t :: 0 <= t < n ==>
          mask[t] == Net(labels[..idx], width, t) + (if lo <= t < j then delta else 0)
      {
        mask[j] := mask[j] + delta;
      }
      forall t | 0 <= t < n
        ensures mask[t] == Net(labels[..idx + 1], width, t)
      {
        assert Contribution(idx, labels[idx], width, t) == if lo <= t < hi then delta else 0;
      }
    }
    assert labels[..|labels|] == labels;
  }

  /** The number of entries of `s` equal to `v`. */
  function Count(s: seq<int>, v: int): nat
  {
    if s == [] then 0 else Count(s[..|s| - 1], v) + (if s[|s| - 1] == v then 1 else 0)
  }

  /** The labels whose range `[idx, idx + width)` covers `j`: those at list
      indices `j - width + 1 .. j`. */
  function Covering(labels: seq<int>, width: Pos, j: nat): seq<int>
  {
    var lo := if j + 1 >= width then j + 1 - width else 0;
    var hi := if j + 1 <= |labels| then j + 1 else |labels|;
    if lo < hi then labels[lo..hi] else []
  }

  /** Mask entry j is the number of increases covering j minus the number of
      decreases covering j. */
  lemma {:induction false} NetCounts(labels: seq<int>, width: Pos, j: nat)
    ensures Net(labels, width, j) == Count(Covering(labels, width, j), 1) - Count(Covering(labels, width, j), 2)
  {
    if labels != [] {
      var n := |labels| - 1;
      var init := labels[..n];
      NetCounts(init, width, j);
      var lo := if j + 1 >= width then j + 1 - width else 0;
      if lo <= n <= j {
        if lo < n {
          assert Covering(labels, width, j) == Covering(init, width, j) + [labels[n]];
          assert Covering(labels, width, j)[..n - lo] == Covering(init, width, j);
        } else {
          assert Covering(init, width, j) == [];
          assert Covering(labels, width, j) == [labels[n]];
          assert Covering(labels, width, j)[..0] == [];
        }
      } else {
        assert Covering(labels, width, j) == Covering(init, width, j);
      }
    }
  }

  /** `mask > 0.5` holds at j exactly when the increases covering j outnumber
      the decreases covering j. */
  lemma AboveHalfMeansMoreIncreases(labels: seq<int>, n: nat, width: Pos, j: nat)
    requires j < n
    ensures AboveHalf(Mask(labels, n, width))[j] <==>
            Count(Covering(labels, width, j), 1) > Count(Covering(labels, width, j), 2)
  {
    NetCounts(labels, width, j);
  }
}
