/** The sudden-change detector: a baseline window and the event window right
    after it slide over the (edge-padded) pupil trace, and each step is
    labelled 0 (no change), 1 (increase) or 2 (decrease) by comparing the
    difference of the window means with a multiple of the baseline's
    standard deviation. */
module SuddenChange {
  import opened Numeric

  datatype Direction = Increase | Decrease

  /** An entry of the detector's `events` list: a step position and its tag. */
  datatype Event = Event(position: nat, direction: Direction)

  /** The signal with `padding` copies of its first value in front and of its
      last value behind; no padding leaves it as it is. */
  function Padded(signal: seq<real>, padding: Option<nat>): seq<real>
    requires padding.Some? ==> |signal| > 0
  {
    match padding
    case None => signal
    case Some(w) => seq(w, _ => signal[0]) + signal + seq(w, _ => signal[|signal| - 1])
  }

  /** Padding by `w` adds `w` copies of the first value in front and `w` of the
      last value behind, the signal sitting unchanged in the middle. */
  lemma PaddedSpec(signal: seq<real>, padding: Option<nat>)
    requires padding.Some? ==> |signal| > 0
    ensures padding.None? ==> Padded(signal, padding) == signal
    ensures padding.Some? ==> |Padded(signal, padding)| == |signal| + 2 * padding.value
    ensures padding.Some? ==> Padded(signal, padding)[padding.value..padding.value + |signal|] == signal
    ensures padding.Some? ==> forall k :: 0 <= k < padding.value ==> Padded(signal, padding)[k] == signal[0]
    ensures padding.Some? ==> forall k :: padding.value + |signal| <= k < |Padded(signal, padding)| ==>
              Padded(signal, padding)[k] == signal[|signal| - 1]
  {
  }

  /** The number of values `range(0, m, step)` enumerates. */
  function NumSteps(m: int, step: Pos): nat
    decreases m
  {
    if m <= 0 then 0 else 1 + NumSteps(m - step, step)
  }

  /** The mean shift from the baseline window `[i, i + pre)` to the event window
      `[i + pre, i + pre + ev)`. */
  function Shift(p: seq<real>, i: nat, pre: Pos, ev: Pos): real
    requires i + pre + ev <= |p|
  {
    Mean(p[i + pre..i + pre + ev]) - Mean(p[i..i + pre])
  }

  /** The label of the step at `i`. */
  function Classify(p: seq<real>, i: nat, pre: Pos, ev: Pos, threshold: real, std: seq<real> -> real): int
    requires i + pre + ev <= |p|
  {
    var delta := Shift(p, i, pre, ev);
    var sd := std(p[i..i + pre]);
    if delta > sd * threshold then 1
    else if delta < -sd * threshold then 2
    else 0
  }

  /** The label of every step position: `Classify` where both windows fit in
      `p`, 0 elsewhere (the detector never looks there). */
  function StepLabels(p: seq<real>, pre: Pos, ev: Pos, threshold: real, std: seq<real> -> real): nat -> int
  {
    (i: nat) => if i + pre + ev <= |p| then Classify(p, i, pre, ev, threshold, std) else 0
  }

  /** The labels of the steps `i, i + step, ...` below `n`. */
  function LabelsFrom(n: int, i: nat, step: Pos, labelOf: nat -> int): seq<int>
    decreases n - i
  {
    if i >= n then [] else [labelOf(i)] + LabelsFrom(n, i + step, step, labelOf)
  }

  /** The tagged non-zero steps among `i, i + step, ...` below `n`, in step order. */
  function EventsFrom(n: int, i: nat, step: Pos, labelOf: nat -> int): seq<Event>
    decreases n - i
  {
    if i >= n then [] else Tagged(i, labelOf(i)) + EventsFrom(n, i + step, step, labelOf)
  }

  /** The `events` entry of a step at `i` with label `tag`: none for label 0. */
  function Tagged(i: nat, tag: int): seq<Event>
  {
    if tag == 1 then [Event(i, Increase)] else if tag == 2 then [Event(i, Decrease)] else []
  }

  /** `events_indices` of `detect_sudden_change_events`: the steps are
      `range(0, len(p) - pre - ev, step)` of the padded signal `p`. */
  function Labels(signal: seq<real>, padding: Option<nat>, pre: Pos, ev: Pos, threshold: real, step: Pos,
                  std: seq<real> -> real): seq<int>
    requires padding.Some? ==> |signal| > 0
  {
    var p := Padded(signal, padding);
    LabelsFrom(|p| - pre - ev, 0, step, StepLabels(p, pre, ev, threshold, std))
  }

  /** `events` of `detect_sudden_change_events`. */
  function Events(signal: seq<real>, padding: Option<nat>, pre: Pos, ev: Pos, threshold: real, step: Pos,
                  std: seq<real> -> real): seq<Event>
    requires padding.Some? ==> |signal| > 0
  {
    var p := Padded(signal, padding);
    EventsFrom(|p| - pre - ev, 0, step, StepLabels(p, pre, ev, threshold, std))
  }

  /** The code a direction gets in the label list. */
  function Code(d: Direction): int
  {
    match d
    case Increase => 1
    case Decrease => 2
  }

  /** `detect_sudden_change_events`: pad the trace, then label every step
      position of the padded trace. */
  method DetectSuddenChangeEvents(signal: seq<real>, padding: Option<nat>, pre: Pos, ev: Pos,
                                  threshold: real, step: Pos, std: seq<real> -> real)
    returns (events: seq<Event>, labels: seq<int>)
    requires padding.Some? ==> |signal| > 0
    ensures labels == Labels(signal, padding, pre, ev, threshold, step, std)
    ensures events == Events(signal, padding, pre, ev, threshold, step, std)
  {
    var p := Padded(signal, padding);
    events, labels := ScanSteps(|p| - pre - ev, step, StepLabels(p, pre, ev, threshold, std));
  }

  /** The loop of `detect_sudden_change_events` over `range(0, n, step)`: it
      appends a label for every step and an event for every non-zero one. */
  method ScanSteps(n: int, step: Pos, labelOf: nat -> int) returns (events: seq<Event>, labels: seq<int>)
    ensures labels == LabelsFrom(n, 0, step, labelOf)
    ensures events == EventsFrom(n, 0, step, labelOf)
  {
    events, labels := [], [];
    var i: nat := 0;
    while i < n
      invariant Scanned(n, i, step, labelOf, events, labels)
      decreases n - i
    {
      var tag := labelOf(i);
      StepOnce(n, i, step, labelOf, events, labels);
      events := events + Tagged(i, tag);
      labels := labels + [tag];
      i := i + step;
    }
  }

  /** The detector's loop has produced `labels` and `events` for the steps before `i`. */
  predicate Scanned(n: int, i: nat, step: Pos, labelOf: nat -> int, events: seq<Event>, labels: seq<int>)
  {
    LabelsFrom(n, 0, step, labelOf) == labels + LabelsFrom(n, i, step, labelOf) &&
    EventsFrom(n, 0, step, labelOf) == events + EventsFrom(n, i, step, labelOf)
  }

  /** One step of the detector's loop extends both lists by the step's entries. */
  lemma StepOnce(n: int, i: nat, step: Pos, labelOf: nat -> int, events: seq<Event>, labels: seq<int>)
    requires i < n && Scanned(n, i, step, labelOf, events, labels)
    ensures Scanned(n, i + step, step, labelOf, events + Tagged(i, labelOf(i)), labels + [labelOf(i)])
  {
    assert events + (Tagged(i, labelOf(i)) + EventsFrom(n, i + step, step, labelOf)) ==
           (events + Tagged(i, labelOf(i))) + EventsFrom(n, i + step, step, labelOf);
    assert labels + ([labelOf(i)] + LabelsFrom(n, i + step, step, labelOf)) ==
           (labels + [labelOf(i)]) + LabelsFrom(n, i + step, step, labelOf);
  }

  // ---------------------------------------------------------------------------
  // Properties

  /** `range(0, m, step)` has max(0, ceil(m / step)) elements. */
  lemma {:induction false} NumStepsCeil(m: int, step: Pos)
    ensures m > 0 ==> NumSteps(m, step) == (m + step - 1) / step
    ensures m <= 0 ==> NumSteps(m, step) == 0
    decreases m
  {
    if m > 0 {
      if m - step > 0 {
        NumStepsCeil(m - step, step);
        var q := (m - 1) / step;
        var r := (m - 1) % step;
        assert m - 1 == q * step + r;
        assert m + step - 1 == (q + 1) * step + r;
        DivUnique(m + step - 1, step, q + 1, r);
      } else {
        assert m + step - 1 == 1 * step + (m - 1);
        DivUnique(m + step - 1, step, 1, m - 1);
      }
    }
  }

  /** The k-th value of `range(0, m, step)` is k * step: k is below the count
      exactly when k * step < m. */
  lemma {:induction false} NumStepsExact(m: int, step: Pos, k: nat)
    ensures k < NumSteps(m, step) <==> k * step < m
    decreases k
  {
    if m > 0 && k > 0 {
      NumStepsExact(m - step, step, k - 1);
      StepPosition(0, k, step);
    }
  }

  lemma StepPosition(i: int, k: int, step: int)
    ensures i + step + (k - 1) * step == i + k * step
  {
  }

  /** The position `k` steps after `i`, counted one step at a time. */
  function StepAt(i: nat, k: nat, step: Pos): nat
    decreases k
  {
    if k == 0 then i else StepAt(i + step, k - 1, step)
  }

  lemma {:induction false} StepAtValue(i: nat, k: nat, step: Pos)
    ensures StepAt(i, k, step) == i + k * step
    decreases k
  {
    if k > 0 {
      StepAtValue(i + step, k - 1, step);
      StepPosition(i, k, step);
    }
  }

  lemma {:induction false} LabelsFromLength(n: int, i: nat, step: Pos, labelOf: nat -> int)
    ensures |LabelsFrom(n, i, step, labelOf)| == NumSteps(n - i, step)
    decreases n - i
  {
    if i < n {
      LabelsFromLength(n, i + step, step, labelOf);
      assert n - (i + step) == n - i - step;
    }
  }

  lemma {:induction false} LabelsFromAt(n: int, i: nat, step: Pos, labelOf: nat -> int, k: nat)
    requires k < |LabelsFrom(n, i, step, labelOf)|
    ensures StepAt(i, k, step) < n
    ensures LabelsFrom(n, i, step, labelOf)[k] == labelOf(StepAt(i, k, step))
    decreases k
  {
    if k > 0 {
      LabelsFromAt(n, i + step, step, labelOf, k - 1);
    }
  }

  /** Property of `events_indices`: one label per step position of
      `range(0, L - pre - ev, step)`, L the padded length, i.e.
      max(0, ceil((L - pre - ev) / step)) labels, the k-th for position k * step. */
  lemma LabelsCount(signal: seq<real>, padding: Option<nat>, pre: Pos, ev: Pos, threshold: real, step: Pos,
                    std: seq<real> -> real)
    requires padding.Some? ==> |signal| > 0
    ensures padding.Some? ==> |Padded(signal, padding)| == |signal| + 2 * padding.value
    ensures |Labels(signal, padding, pre, ev, threshold, step, std)| == NumSteps(|Padded(signal, padding)| - pre - ev, step)
    ensures |Padded(signal, padding)| - pre - ev > 0 ==>
              |Labels(signal, padding, pre, ev, threshold, step, std)| == (|Padded(signal, padding)| - pre - ev + step - 1) / step
    ensures |Padded(signal, padding)| - pre - ev <= 0 ==> Labels(signal, padding, pre, ev, threshold, step, std) == []
    ensures forall k: nat :: k < |Labels(signal, padding, pre, ev, threshold, step, std)| <==>
              k * step < |Padded(signal, padding)| - pre - ev
  {
    var p := Padded(signal, padding);
    var m := |p| - pre - ev;
    var ls := Labels(signal, padding, pre, ev, threshold, step, std);
    PaddedSpec(signal, padding);
    LabelsFromLength(m, 0, step, StepLabels(p, pre, ev, threshold, std));
    NumStepsCeil(m, step);
    forall k: nat ensures k < |ls| <==> k * step < m {
      NumStepsExact(m, step, k);
    }
  }

  /** Property of `events_indices`: both windows of step k lie inside the
      padded signal and its label classifies the step at position k * step. */
  lemma LabelsClassify(signal: seq<real>, padding: Option<nat>, pre: Pos, ev: Pos, threshold: real, step: Pos,
                       std: seq<real> -> real, k: nat)
    requires padding.Some? ==> |signal| > 0
    requires k < |Labels(signal, padding, pre, ev, threshold, step, std)|
    ensures k * step + pre + ev < |Padded(signal, padding)|
    ensures Labels(signal, padding, pre, ev, threshold, step, std)[k] ==
            Classify(Padded(signal, padding), k * step, pre, ev, threshold, std)
  {
    var p := Padded(signal, padding);
    LabelsFromAt(|p| - pre - ev, 0, step, StepLabels(p, pre, ev, threshold, std), k);
    StepAtValue(0, k, step);
  }

  /** The label of the same step with increase and decrease exchanged. */
  function Swapped(tag: int): int
  {
    if tag == 1 then 2 else if tag == 2 then 1 else tag
  }

  /** Negating the trace exchanges the labels 1 and 2 of a step and keeps 0,
      for a deviation that ignores the sign and is never negative and a
      non-negative threshold. */
  lemma {:induction false} ClassifyNegated(p: seq<real>, i: nat, pre: Pos, ev: Pos, threshold: real, std: seq<real> -> real)
    requires i + pre + ev <= |p|
    requires SignSymmetric(std) && NonNegative(std) && threshold >= 0.0
    ensures Classify(Negated(p), i, pre, ev, threshold, std) == Swapped(Classify(p, i, pre, ev, threshold, std))
  {
    ShiftNegated(p, i, pre, ev);
    NegatedSlice(p, i, i + pre);
    assert std(Negated(p)[i..i + pre]) == std(p[i..i + pre]);
    SwapCases(Shift(p, i, pre, ev), std(p[i..i + pre]), threshold);
  }

  /** Negating the trace negates the mean shift of every step. */
  lemma {:induction false} ShiftNegated(p: seq<real>, i: nat, pre: Pos, ev: Pos)
    requires i + pre + ev <= |p|
    ensures Shift(Negated(p), i, pre, ev) == -Shift(p, i, pre, ev)
  {
    MeanNegatedSlice(p, i, i + pre);
    MeanNegatedSlice(p, i + pre, i + pre + ev);
    ShiftOfMeans(p, Negated(p), i, pre, ev);
  }

  /** A trace whose two window means are the negated means of another has the
      negated shift. */
  lemma ShiftOfMeans(p: seq<real>, q: seq<real>, i: nat, pre: Pos, ev: Pos)
    requires i + pre + ev <= |p| == |q|
    requires Mean(q[i..i + pre]) == -Mean(p[i..i + pre])
    requires Mean(q[i + pre..i + pre + ev]) == -Mean(p[i + pre..i + pre + ev])
    ensures Shift(q, i, pre, ev) == -Shift(p, i, pre, ev)
  {
  }

  lemma {:induction false} MeanNegatedSlice(p: seq<real>, lo: nat, hi: nat)
    requires lo < hi <= |p|
    ensures Mean(Negated(p)[lo..hi]) == -Mean(p[lo..hi])
  {
    NegatedSlice(p, lo, hi);
    MeanNegated(p[lo..hi]);
  }

  /** The case split of `Classify` on a negated shift, over plain reals. */
  lemma SwapCases(delta: real, sd: real, threshold: real)
    requires sd >= 0.0 && threshold >= 0.0
    ensures (if -delta > sd * threshold then 1 else if -delta < -sd * threshold then 2 else 0) ==
            Swapped(if delta > sd * threshold then 1 else if delta < -sd * threshold then 2 else 0)
  {
    assert sd * threshold >= 0.0;
    assert -sd * threshold == -(sd * threshold);
  }

  /** Padding commutes with negation. */
  lemma {:induction false} PaddedNegated(signal: seq<real>, padding: Option<nat>)
    requires padding.Some? ==> |signal| > 0
    ensures Padded(Negated(signal), padding) == Negated(Padded(signal, padding))
  {
    if padding.Some? {
      var a, b := Padded(Negated(signal), padding), Negated(Padded(signal, padding));
      PaddedSpec(signal, padding);
      PaddedSpec(Negated(signal), padding);
      forall k | 0 <= k < |a| ensures a[k] == b[k] {
        PaddedNegatedAt(signal, padding.value, k);
      }
    }
  }

  lemma PaddedNegatedAt(signal: seq<real>, w: nat, k: nat)
    requires |signal| > 0 && k < |signal| + 2 * w
    ensures |Padded(Negated(signal), Some(w))| == |Padded(signal, Some(w))| == |signal| + 2 * w
    ensures Padded(Negated(signal), Some(w))[k] == -Padded(signal, Some(w))[k]
  {
    if w <= k < w + |signal| {
      assert Padded(signal, Some(w))[k] == signal[k - w];
      assert Padded(Negated(signal), Some(w))[k] == Negated(signal)[k - w];
    }
  }

  /** Negating the trace exchanges the increase and decrease labels of the
      detector and keeps the number of steps. */
  lemma {:induction false} LabelsNegated(signal: seq<real>, padding: Option<nat>, pre: Pos, ev: Pos, threshold: real, step: Pos,
                      std: seq<real> -> real)
    requires padding.Some? ==> |signal| > 0
    requires SignSymmetric(std) && NonNegative(std) && threshold >= 0.0
    ensures |Labels(Negated(signal), padding, pre, ev, threshold, step, std)| ==
            |Labels(signal, padding, pre, ev, threshold, step, std)|
    ensures forall k :: 0 <= k < |Labels(signal, padding, pre, ev, threshold, step, std)| ==>
              Labels(Negated(signal), padding, pre, ev, threshold, step, std)[k] ==
              Swapped(Labels(signal, padding, pre, ev, threshold, step, std)[k])
  {
    LabelsNegatedLength(signal, padding, pre, ev, threshold, step, std);
    forall k | 0 <= k < |Labels(signal, padding, pre, ev, threshold, step, std)|
      ensures Labels(Negated(signal), padding, pre, ev, threshold, step, std)[k] ==
              Swapped(Labels(signal, padding, pre, ev, threshold, step, std)[k])
    {
      LabelNegatedAt(signal, padding, pre, ev, threshold, step, std, k);
    }
  }

  lemma {:induction false} LabelsNegatedLength(signal: seq<real>, padding: Option<nat>, pre: Pos, ev: Pos, threshold: real, step: Pos,
                            std: seq<real> -> real)
    requires padding.Some? ==> |signal| > 0
    ensures |Labels(Negated(signal), padding, pre, ev, threshold, step, std)| ==
            |Labels(signal, padding, pre, ev, threshold, step, std)|
  {
    PaddedNegated(signal, padding);
    LabelsCount(signal, padding, pre, ev, threshold, step, std);
    LabelsCount(Negated(signal), padding, pre, ev, threshold, step, std);
  }

  lemma {:induction false} LabelNegatedAt(signal: seq<real>, padding: Option<nat>, pre: Pos, ev: Pos, threshold: real, step: Pos,
                       std: seq<real> -> real, k: nat)
    requires padding.Some? ==> |signal| > 0
    requires SignSymmetric(std) && NonNegative(std) && threshold >= 0.0
    requires k < |Labels(signal, padding, pre, ev, threshold, step, std)|
    requires k < |Labels(Negated(signal), padding, pre, ev, threshold, step, std)|
    ensures Labels(Negated(signal), padding, pre, ev, threshold, step, std)[k] ==
            Swapped(Labels(signal, padding, pre, ev, threshold, step, std)[k])
  {
    PaddedNegated(signal, padding);
    LabelsClassify(signal, padding, pre, ev, threshold, step, std, k);
    LabelsClassify(Negated(signal), padding, pre, ev, threshold, step, std, k);
    StepAtValue(0, k, step);
    ClassifyNegated(Padded(signal, padding), StepAt(0, k, step), pre, ev, threshold, std);
  }

  lemma {:induction false} EventsFromAfter(n: int, i: nat, step: Pos, labelOf: nat -> int)
    ensures forall e :: e in EventsFrom(n, i, step, labelOf) ==> e.position >= i
    ensures PositionsIncrease(EventsFrom(n, i, step, labelOf))
    decreases n - i
  {
    if i < n {
      EventsFromAfter(n, i + step, step, labelOf);
      var rest := EventsFrom(n, i + step, step, labelOf);
      assert EventsFrom(n, i, step, labelOf) == Tagged(i, labelOf(i)) + rest;
      assert forall b :: 0 <= b < |rest| ==> rest[b] in rest;
    }
  }

  lemma {:induction false} EventsFromSound(n: int, i: nat, step: Pos, labelOf: nat -> int, e: Event)
    requires e in EventsFrom(n, i, step, labelOf)
    ensures exists k :: 0 <= k < |LabelsFrom(n, i, step, labelOf)| &&
              e.position == StepAt(i, k, step) && LabelsFrom(n, i, step, labelOf)[k] == Code(e.direction)
    decreases n - i
  {
    var ls := LabelsFrom(n, i, step, labelOf);
    var lrest := LabelsFrom(n, i + step, step, labelOf);
    assert ls == [labelOf(i)] + lrest;
    assert EventsFrom(n, i, step, labelOf) == Tagged(i, labelOf(i)) + EventsFrom(n, i + step, step, labelOf);
    if e in Tagged(i, labelOf(i)) {
      assert 0 < |ls| && e.position == StepAt(i, 0, step) && ls[0] == Code(e.direction);
    } else {
      EventsFromSound(n, i + step, step, labelOf, e);
      var k :| 0 <= k < |lrest| && e.position == StepAt(i + step, k, step) && lrest[k] == Code(e.direction);
      assert ls[k + 1] == lrest[k];
      assert k + 1 < |ls| && e.position == StepAt(i, k + 1, step) && ls[k + 1] == Code(e.direction);
    }
  }

  lemma {:induction false} EventsFromComplete(n: int, i: nat, step: Pos, labelOf: nat -> int, k: nat, d: Direction)
    requires k < |LabelsFrom(n, i, step, labelOf)|
    requires LabelsFrom(n, i, step, labelOf)[k] == Code(d)
    ensures Event(StepAt(i, k, step), d) in EventsFrom(n, i, step, labelOf)
    decreases k
  {
    assert i < n;
    var rest := EventsFrom(n, i + step, step, labelOf);
    assert EventsFrom(n, i, step, labelOf) == Tagged(i, labelOf(i)) + rest;
    assert LabelsFrom(n, i, step, labelOf) == [labelOf(i)] + LabelsFrom(n, i + step, step, labelOf);
    if k == 0 {
      assert Tagged(i, labelOf(i)) == [Event(i, d)];
    } else {
      assert LabelsFrom(n, i + step, step, labelOf)[k - 1] == Code(d);
      EventsFromComplete(n, i + step, step, labelOf, k - 1, d);
      assert StepAt(i, k, step) == StepAt(i + step, k - 1, step);
    }
  }

  /** The event positions strictly increase. */
  predicate PositionsIncrease(es: seq<Event>)
  {
    forall a, b :: 0 <= a < b < |es| ==> es[a].position < es[b].position
  }

  /** Every event is a step `k` of the label list, at position `k * step`, with
      the label of its direction. */
  predicate EventsLabelled(es: seq<Event>, ls: seq<int>, step: Pos)
  {
    forall e :: e in es ==> exists k :: 0 <= k < |ls| && e.position == k * step && ls[k] == Code(e.direction)
  }

  /** Every step labelled 1 or 2 has its event. */
  predicate LabelsReported(es: seq<Event>, ls: seq<int>, step: Pos)
  {
    (forall k :: 0 <= k < |ls| && ls[k] == 1 ==> Event(k * step, Increase) in es) &&
    (forall k :: 0 <= k < |ls| && ls[k] == 2 ==> Event(k * step, Decrease) in es)
  }

  /** The events of the steps below `n` are exactly their non-zero labels, in
      increasing step order. */
  lemma EventsFromSpec(n: int, step: Pos, labelOf: nat -> int)
    ensures PositionsIncrease(EventsFrom(n, 0, step, labelOf))
    ensures EventsLabelled(EventsFrom(n, 0, step, labelOf), LabelsFrom(n, 0, step, labelOf), step)
    ensures LabelsReported(EventsFrom(n, 0, step, labelOf), LabelsFrom(n, 0, step, labelOf), step)
  {
    var es := EventsFrom(n, 0, step, labelOf);
    var ls := LabelsFrom(n, 0, step, labelOf);
    EventsFromAfter(n, 0, step, labelOf);
    forall e | e in es ensures exists k :: 0 <= k < |ls| && e.position == k * step && ls[k] == Code(e.direction) {
      EventsFromSound(n, 0, step, labelOf, e);
      var k :| 0 <= k < |ls| && e.position == StepAt(0, k, step) && ls[k] == Code(e.direction);
      StepAtValue(0, k, step);
    }
    forall k | 0 <= k < |ls| && ls[k] == 1 ensures Event(k * step, Increase) in es {
      EventsFromComplete(n, 0, step, labelOf, k, Increase);
      StepAtValue(0, k, step);
    }
    forall k | 0 <= k < |ls| && ls[k] == 2 ensures Event(k * step, Decrease) in es {
      EventsFromComplete(n, 0, step, labelOf, k, Decrease);
      StepAtValue(0, k, step);
    }
  }

  /** Property of `events`: its entries are exactly the non-zero labelled steps,
      in increasing step order, tagged 'increase' for label 1 and 'decrease' for label 2. */
  lemma EventsSpec(signal: seq<real>, padding: Option<nat>, pre: Pos, ev: Pos, threshold: real, step: Pos,
                   std: seq<real> -> real)
    requires padding.Some? ==> |signal| > 0
    ensures PositionsIncrease(Events(signal, padding, pre, ev, threshold, step, std))
    ensures EventsLabelled(Events(signal, padding, pre, ev, threshold, step, std),
                           Labels(signal, padding, pre, ev, threshold, step, std), step)
    ensures LabelsReported(Events(signal, padding, pre, ev, threshold, step, std),
                           Labels(signal, padding, pre, ev, threshold, step, std), step)
  {
    var p := Padded(signal, padding);
    EventsFromSpec(|p| - pre - ev, step, StepLabels(p, pre, ev, threshold, std));
  }

  /** A window of a constant trace has zero mean shift, so with a deviation that
      is never negative and a non-negative threshold it is labelled 0. */
  lemma ClassifyConstant(p: seq<real>, i: nat, c: real, pre: Pos, ev: Pos, threshold: real, std: seq<real> -> real)
    requires i + pre + ev <= |p|
    requires forall k :: 0 <= k < |p| ==> p[k] == c
    requires NonNegative(std) && threshold >= 0.0
    ensures Classify(p, i, pre, ev, threshold, std) == 0
  {
    MeanConstant(p[i + pre..i + pre + ev], c);
    MeanConstant(p[i..i + pre], c);
    var sd := std(p[i..i + pre]);
    assert sd >= 0.0;
    assert sd * threshold >= 0.0;
  }

  /** Steps all labelled 0 give only 0 labels and no events. */
  lemma {:induction false} ZeroLabelsFrom(n: int, i: nat, step: Pos, labelOf: nat -> int)
    requires forall j: nat :: j < n ==> labelOf(j) == 0
    ensures forall k :: 0 <= k < |LabelsFrom(n, i, step, labelOf)| ==> LabelsFrom(n, i, step, labelOf)[k] == 0
    ensures EventsFrom(n, i, step, labelOf) == []
    decreases n - i
  {
    if i < n {
      ZeroLabelsFrom(n, i + step, step, labelOf);
    }
  }

  /** A constant trace gives only 0 labels and no events (for a deviation that
      is never negative and a non-negative threshold). */
  lemma ConstantSignalNoEvents(signal: seq<real>, c: real, padding: Option<nat>, pre: Pos, ev: Pos,
                               threshold: real, step: Pos, std: seq<real> -> real)
    requires padding.Some? ==> |signal| > 0
    requires forall k :: 0 <= k < |signal| ==> signal[k] == c
    requires NonNegative(std) && threshold >= 0.0
    ensures forall k :: 0 <= k < |Labels(signal, padding, pre, ev, threshold, step, std)| ==>
              Labels(signal, padding, pre, ev, threshold, step, std)[k] == 0
    ensures Events(signal, padding, pre, ev, threshold, step, std) == []
  {
    var p := Padded(signal, padding);
    var labelOf := StepLabels(p, pre, ev, threshold, std);
    PaddedSpec(signal, padding);
    assert forall k :: 0 <= k < |p| ==> p[k] == c;
    forall j: nat | j < |p| - pre - ev ensures labelOf(j) == 0 {
      ClassifyConstant(p, j, c, pre, ev, threshold, std);
    }
    ZeroLabelsFrom(|p| - pre - ev, 0, step, labelOf);
  }
}
