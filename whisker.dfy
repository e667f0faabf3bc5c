/** The whisker-ratio filter: for each onset, the whisker trace just after the
    onset is integrated (trapezoidal rule), divided by the integral over the
    stretch just before it, and the onset is kept when the ratio exceeds 1.5.
    This is the ratio loop of the inline `detect_events`, whose velocity and
    whisker times have equal length; the helper version splits it into
    `calculate_integral_data` and `filter_waking_up_events`. */
module Whisker {
  import opened Numeric

  // ---------------------------------------------------------------------------
  // Locating an onset on the whisker clock

  /** `(times < t).sum()`: how many whisker samples were taken strictly before `t`. */
  function CountBelow(times: seq<real>, t: real): (c: nat)
    ensures c <= |times|
  {
    if times == [] then 0
    else CountBelow(times[..|times| - 1], t) + (if times[|times| - 1] < t then 1 else 0)
  }

  ghost predicate Sorted(s: seq<real>)
  {
    forall i, j :: 0 <= i <= j < |s| ==> s[i] <= s[j]
  }

  /** A later query time never counts fewer samples. */
  lemma {:induction false} CountBelowMonotone(times: seq<real>, t: real, u: real)
    requires t <= u
    ensures CountBelow(times, t) <= CountBelow(times, u)
  {
    if times != [] {
      CountBelowMonotone(times[..|times| - 1], t, u);
    }
  }

  /** On a sorted clock the count is the split point: every sample before it
      was taken before `t`, every sample from it on at `t` or later. */
  lemma {:induction false} CountBelowSplits(times: seq<real>, t: real)
    requires Sorted(times)
    ensures forall k :: 0 <= k < CountBelow(times, t) ==> times[k] < t
    ensures forall k :: CountBelow(times, t) <= k < |times| ==> t <= times[k]
  {
    if times != [] {
      var init := times[..|times| - 1];
      assert Sorted(init);
      CountBelowSplits(init, t);
      var c := CountBelow(init, t);
      if times[|times| - 1] < t {
        forall k | 0 <= k < c ensures times[k] < t {
          assert times[k] == init[k];
        }
      } else {
        forall k | c <= k < |times| ensures t <= times[k] {
          if k < |init| {
            assert times[k] == init[k];
          }
        }
        if c > 0 {
          assert init[c - 1] < t;
          assert times[c - 1] <= times[|times| - 1];
        }
      }
    }
  }

  // ---------------------------------------------------------------------------
  // Trapezoidal integration

  /** `np.trapz(y, x)`: the sum over neighbouring samples of
      `(x[i+1] - x[i]) * (y[i] + y[i+1]) / 2`; zero for fewer than two samples. */
  function Trapz(y: seq<real>, x: seq<real>): real
    requires |y| == |x|
  {
    if |y| < 2 then 0.0
    else
      var n := |y| - 1;
      Trapz(y[..n], x[..n]) + (x[n] - x[n - 1]) * (y[n - 1] + y[n]) / 2.0
  }

  /** A non-negative trace over a sorted clock has a non-negative integral. */
  lemma {:induction false} TrapzNonNegative(y: seq<real>, x: seq<real>)
    requires |y| == |x|
    requires Sorted(x)
    requires forall k :: 0 <= k < |y| ==> y[k] >= 0.0
    ensures Trapz(y, x) >= 0.0
  {
    if |y| >= 2 {
      var n := |y| - 1;
      assert Sorted(x[..n]);
      TrapzNonNegative(y[..n], x[..n]);
      ProductNonNegative(x[n] - x[n - 1], y[n - 1] + y[n]);
    }
  }

  lemma ProductNonNegative(a: real, b: real)
    requires a >= 0.0 && b >= 0.0
    ensures a * b >= 0.0
  {
  }

  /** A constant trace integrates to the constant times the time covered. */
  lemma {:induction false} TrapzConstant(y: seq<real>, x: seq<real>, c: real)
    requires |y| == |x| > 0
    requires forall k :: 0 <= k < |y| ==> y[k] == c
    ensures Trapz(y, x) == c * (x[|x| - 1] - x[0])
  {
    if |y| >= 2 {
      var n := |y| - 1;
      TrapzConstant(y[..n], x[..n], c);
      assert (x[n] - x[n - 1]) * (y[n - 1] + y[n]) / 2.0 == c * (x[n] - x[n - 1]);
    }
  }

  // ---------------------------------------------------------------------------
  // Floating-point division

  /** The outcome of a float division: a number, or the infinities and NaN that
      a zero divisor gives. */
  datatype Quotient = Finite(q: real) | PosInf | NegInf | NaN

  /** `a / b` on floats: a zero divisor gives +inf, -inf or NaN by the sign of `a`. */
  function Divide(a: real, b: real): (r: Quotient)
    ensures r.Finite? <==> b != 0.0
    ensures r == PosInf <==> b == 0.0 && a > 0.0
    ensures r == NegInf <==> b == 0.0 && a < 0.0
  {
    if b != 0.0 then Finite(a / b)
    else if a > 0.0 then PosInf
    else if a < 0.0 then NegInf
    else NaN
  }

  /** `r > bound` on floats: +inf exceeds every bound; -inf and NaN exceed none. */
  predicate Exceeds(r: Quotient, bound: real)
  {
    match r
    case Finite(q) => q > bound
    case PosInf => true
    case _ => false
  }

  /** For a positive divisor the ratio test is a cross-multiplied comparison,
      and for a zero divisor it keeps exactly the positive numerators. */
  lemma ExceedsMeaning(a: real, b: real, bound: real)
    ensures b > 0.0 ==> (Exceeds(Divide(a, b), bound) <==> a > bound * b)
    ensures b < 0.0 ==> (Exceeds(Divide(a, b), bound) <==> a < bound * b)
    ensures b == 0.0 ==> (Exceeds(Divide(a, b), bound) <==> a > 0.0)
  {
    if b != 0.0 {
      var q := a / b;
      assert q * b == a;
      if b > 0.0 {
        if q > bound {
          assert q * b > bound * b;
        } else {
          assert q * b <= bound * b;
        }
      } else if b < 0.0 {
        if q > bound {
          assert q * b < bound * b;
        } else {
          assert q * b >= bound * b;
        }
      }
    }
  }

  // ---------------------------------------------------------------------------
  // calculate_integral_data

  /** The whisker index of an onset: the number of whisker samples taken
      before the onset's time on the pupil clock. */
  function WhiskerIndex(event: nat, times: seq<real>, whiskerTimes: seq<real>): (w: nat)
    requires event < |times|
    ensures w <= |whiskerTimes|
  {
    CountBelow(whiskerTimes, times[event])
  }

  /** The integral of the velocity over the `after` samples from `w` on
      divided by its integral over the `before` samples ending at `w`, both
      windows read with numpy slicing. */
  function WindowRatio(velocity: seq<real>, whiskerTimes: seq<real>, w: int, before: int, after: int): Quotient
    requires |velocity| == |whiskerTimes|
  {
    Ratio(Slice(velocity, w, w + after), Slice(whiskerTimes, w, w + after),
          Slice(velocity, w - before, w), Slice(whiskerTimes, w - before, w))
  }

  /** The float quotient of two trapezoid integrals. */
  function Ratio(num: seq<real>, numTimes: seq<real>, den: seq<real>, denTimes: seq<real>): Quotient
    requires |num| == |numTimes| && |den| == |denTimes|
  {
    Divide(Trapz(num, numTimes), Trapz(den, denTimes))
  }

  /** The ratio for one onset: the integral of the `rate * eventLength`
      whisker samples from the whisker index on, divided by the integral of
      the `rate * baselineLength` samples before it (so a baseline window
      starting before 0 counts from the end of the trace, as numpy does). */
  function IntegralRatio(event: nat, velocity: seq<real>, times: seq<real>, whiskerTimes: seq<real>,
                         rate: int, baselineLength: int, eventLength: int): Quotient
    requires event < |times| && |velocity| == |whiskerTimes|
  {
    var w := WhiskerIndex(event, times, whiskerTimes);
    WindowRatio(velocity, whiskerTimes, w, rate * baselineLength, rate * eventLength)
  }

  /** Multiplying both operands by the same positive number leaves a float
      division unchanged, infinities and NaN included. */
  lemma DivideScale(a: real, b: real, c: real)
    requires c > 0.0
    ensures Divide(c * a, c * b) == Divide(a, b)
  {
    if b != 0.0 {
      assert c * b != 0.0;
      assert (c * a) / (c * b) == a / b;
    } else {
      assert c * b == 0.0;
      if a > 0.0 {
        assert c * a > 0.0;
      } else if a < 0.0 {
        assert c * a < 0.0;
      } else {
        assert c * a == 0.0;
      }
    }
  }

  // ---------------------------------------------------------------------------
  // Rescaling the velocity

  /** The trace multiplied sample by sample by `c`. */
  function Scale(s: seq<real>, c: real): (r: seq<real>)
    ensures |r| == |s| && forall k :: 0 <= k < |s| ==> r[k] == c * s[k]
  {
    seq(|s|, k requires 0 <= k < |s| => c * s[k])
  }

  /** `ys` is `y` multiplied sample by sample by `c`. */
  ghost predicate ScaledBy(ys: seq<real>, y: seq<real>, c: real)
  {
    |ys| == |y| && forall k :: 0 <= k < |y| ==> ys[k] == c * y[k]
  }

  lemma ScaledPrefix(y: seq<real>, ys: seq<real>, c: real, n: nat)
    requires ScaledBy(ys, y, c) && n <= |y|
    ensures ScaledBy(ys[..n], y[..n], c)
  {
  }

  /** Slicing, with numpy's rules, commutes with rescaling. */
  lemma {:induction false} SliceScale(s: seq<real>, c: real, lo: int, hi: int)
    ensures Slice(Scale(s, c), lo, hi) == Scale(Slice(s, lo, hi), c)
  {
    var a, b := Bound(lo, |s|), Bound(hi, |s|);
    if a < b {
      assert forall k :: 0 <= k < b - a ==> Scale(s, c)[a..b][k] == Scale(s[a..b], c)[k];
      assert Scale(s, c)[a..b] == Scale(s[a..b], c);
    }
  }

  /** The trapezoid integral is linear in the trace: rescaling the trace
      rescales the integral by the same factor. */
  lemma TrapzScale(y: seq<real>, x: seq<real>, c: real)
    requires |y| == |x|
    ensures Trapz(Scale(y, c), x) == c * Trapz(y, x)
  {
    TrapzScaled(y, Scale(y, c), x, c);
  }

  lemma {:induction false} TrapzScaled(y: seq<real>, ys: seq<real>, x: seq<real>, c: real)
    requires |y| == |x| && ScaledBy(ys, y, c)
    ensures Trapz(ys, x) == c * Trapz(y, x)
  {
    if |y| >= 2 {
      ScaledPrefix(y, ys, c, |y| - 1);
      TrapzScaled(y[..|y| - 1], ys[..|y| - 1], x[..|y| - 1], c);
      TrapzStep(y, x);
      TrapzStep(ys, x);
      PanelScale(Trapz(y[..|y| - 1], x[..|y| - 1]), Trapz(ys[..|y| - 1], x[..|y| - 1]), x[|y| - 1] - x[|y| - 2],
                 y[|y| - 2], y[|y| - 1], ys[|y| - 2], ys[|y| - 1], c, Trapz(y, x), Trapz(ys, x));
    }
  }

  /** The last panel of a trapezoid integral. */
  lemma TrapzStep(y: seq<real>, x: seq<real>)
    requires |y| == |x| >= 2
    ensures Trapz(y, x) == Trapz(y[..|y| - 1], x[..|y| - 1]) + (x[|y| - 1] - x[|y| - 2]) * (y[|y| - 2] + y[|y| - 1]) / 2.0
  {
  }

  /** One step of `TrapzScaled` over plain reals. */
  lemma PanelScale(head: real, scaledHead: real, dx: real, a: real, b: real, sa: real, sb: real, c: real,
                   whole: real, scaledWhole: real)
    requires scaledHead == c * head && sa == c * a && sb == c * b
    requires whole == head + dx * (a + b) / 2.0
    requires scaledWhole == scaledHead + dx * (sa + sb) / 2.0
    ensures scaledWhole == c * whole
  {
    assert dx * (sa + sb) == c * (dx * (a + b));
  }

  /** The quotient of two integrals does not change when both traces are
      rescaled by the same positive factor. */
  lemma {:induction false} RatioScale(num: seq<real>, numTimes: seq<real>, den: seq<real>, denTimes: seq<real>, c: real)
    requires |num| == |numTimes| && |den| == |denTimes| && c > 0.0
    ensures Ratio(Scale(num, c), numTimes, Scale(den, c), denTimes) == Ratio(num, numTimes, den, denTimes)
  {
    TrapzScale(num, numTimes, c);
    TrapzScale(den, denTimes, c);
    DivideScaled(Trapz(num, numTimes), Trapz(den, denTimes),
                 Trapz(Scale(num, c), numTimes), Trapz(Scale(den, c), denTimes), c);
  }

  lemma DivideScaled(a: real, b: real, sa: real, sb: real, c: real)
    requires c > 0.0 && sa == c * a && sb == c * b
    ensures Divide(sa, sb) == Divide(a, b)
  {
    DivideScale(a, b, c);
  }

  lemma {:induction false} RatioScaled(num: seq<real>, numTimes: seq<real>, den: seq<real>, denTimes: seq<real>,
                                       scaledNum: seq<real>, scaledDen: seq<real>, c: real)
    requires |num| == |numTimes| && |den| == |denTimes| && c > 0.0
    requires scaledNum == Scale(num, c) && scaledDen == Scale(den, c)
    ensures Ratio(scaledNum, numTimes, scaledDen, denTimes) == Ratio(num, numTimes, den, denTimes)
  {
    RatioScale(num, numTimes, den, denTimes, c);
  }

  /** Rescaling the velocity by a positive factor leaves every window ratio
      unchanged, wrapped and clipped windows included. */
  lemma {:induction false} WindowRatioScale(velocity: seq<real>, whiskerTimes: seq<real>, w: int, before: int, after: int,
                                            c: real)
    requires |velocity| == |whiskerTimes| && c > 0.0
    ensures WindowRatio(Scale(velocity, c), whiskerTimes, w, before, after) ==
            WindowRatio(velocity, whiskerTimes, w, before, after)
  {
    SliceScale(velocity, c, w, w + after);
    SliceScale(velocity, c, w - before, w);
    RatioScaled(Slice(velocity, w, w + after), Slice(whiskerTimes, w, w + after),
                Slice(velocity, w - before, w), Slice(whiskerTimes, w - before, w),
                Slice(Scale(velocity, c), w, w + after), Slice(Scale(velocity, c), w - before, w), c);
  }

  /** The ratio of an onset does not depend on the unit of the velocity. */
  lemma {:induction false} IntegralRatioScale(event: nat, velocity: seq<real>, times: seq<real>, whiskerTimes: seq<real>,
                                              rate: int, baselineLength: int, eventLength: int, c: real)
    requires event < |times| && |velocity| == |whiskerTimes| && c > 0.0
    ensures IntegralRatio(event, Scale(velocity, c), times, whiskerTimes, rate, baselineLength, eventLength) ==
            IntegralRatio(event, velocity, times, whiskerTimes, rate, baselineLength, eventLength)
  {
    WindowRatioScale(velocity, whiskerTimes, WhiskerIndex(event, times, whiskerTimes),
                     rate * baselineLength, rate * eventLength, c);
  }

  // ---------------------------------------------------------------------------
  // calculate_integral_data

  /** Every onset is a sample index of the pupil clock. */
  ghost predicate OnClock(events: seq<nat>, times: seq<real>)
  {
    forall k :: 0 <= k < |events| ==> events[k] < |times|
  }

  /** The ratios of the onsets, in onset order. */
  function Ratios(events: seq<nat>, velocity: seq<real>, times: seq<real>, whiskerTimes: seq<real>,
                  rate: int, baselineLength: int, eventLength: int): (data: seq<Quotient>)
    requires OnClock(events, times) && |velocity| == |whiskerTimes|
    ensures |data| == |events|
  {
    seq(|events|, k requires 0 <= k < |events| =>
      IntegralRatio(events[k], velocity, times, whiskerTimes, rate, baselineLength, eventLength))
  }

  /** `calculate_integral_data`: one ratio per onset, in onset order. */
  method CalculateIntegralData(events: seq<nat>, velocity: seq<real>, times: seq<real>, whiskerTimes: seq<real>,
                               rate: int, baselineLength: int, eventLength: int) returns (data: seq<Quotient>)
    requires OnClock(events, times) && |velocity| == |whiskerTimes|
    ensures |data| == |events|
    ensures forall k :: 0 <= k < |events| ==>
              data[k] == IntegralRatio(events[k], velocity, times, whiskerTimes, rate, baselineLength, eventLength)
  {
    data := [];
    for i := 0 to |events|
      invariant |data| == i
      invariant forall k :: 0 <= k < i ==>
                  data[k] == IntegralRatio(events[k], velocity, times, whiskerTimes, rate, baselineLength, eventLength)
    {
      var ratio := IntegralRatio(events[i], velocity, times, whiskerTimes, rate, baselineLength, eventLength);
      data := data + [ratio];
    }
  }

  // ---------------------------------------------------------------------------
  // filter_waking_up_events

  /** Whether each ratio exceeds `bound`, in order. */
  function Outcomes(data: seq<Quotient>, bound: real): (f: seq<bool>)
    ensures |f| == |data|
  {
    seq(|data|, k requires 0 <= k < |data| => Exceeds(data[k], bound))
  }

  /** How many of the ratios exceed `bound`. */
  function NumExceeding(data: seq<Quotient>, bound: real): nat
  {
    multiset(Outcomes(data, bound))[true]
  }

  lemma OutcomesSplit(data: seq<Quotient>, bound: real)
    requires data != []
    ensures Outcomes(data, bound) == [Exceeds(data[0], bound)] + Outcomes(data[1..], bound)
  {
  }

  /** The onsets whose ratio exceeds `bound`, in order (the comprehension over
      `enumerate(events)`): as many as there are exceeding ratios. */
  function KeepExceeding(events: seq<nat>, data: seq<Quotient>, bound: real): (r: seq<nat>)
    requires |data| == |events|
    ensures IsSubseq(r, events)
    ensures forall k :: 0 <= k < |events| && Exceeds(data[k], bound) ==> events[k] in r
    ensures forall x :: x in r ==> exists k :: 0 <= k < |events| && events[k] == x && Exceeds(data[k], bound)
    ensures |r| == NumExceeding(data, bound)
    decreases |events|
  {
    if events == [] then
      assert Outcomes(data, bound) == [];
      []
    else
      var rest := KeepExceeding(events[1..], data[1..], bound);
      assert forall k :: 1 <= k < |events| ==> events[k] == events[1..][k - 1] && data[k] == data[1..][k - 1];
      OutcomesSplit(data, bound);
      if Exceeds(data[0], bound) then
        assert ([events[0]] + rest)[1..] == rest;
        [events[0]] + rest
      else
        rest
  }

  /** Filtering two stretches of onsets back to back gives the kept onsets of
      the first followed by those of the second (with the one-onset case this
      fixes every result). */
  lemma {:induction false} KeepExceedingAppend(e1: seq<nat>, d1: seq<Quotient>, e2: seq<nat>, d2: seq<Quotient>,
                                               bound: real)
    requires |d1| == |e1| && |d2| == |e2|
    ensures KeepExceeding(e1 + e2, d1 + d2, bound) == KeepExceeding(e1, d1, bound) + KeepExceeding(e2, d2, bound)
    decreases |e1|
  {
    if e1 == [] {
      assert e1 + e2 == e2 && d1 + d2 == d2;
    } else {
      assert (e1 + e2)[1..] == e1[1..] + e2;
      assert (d1 + d2)[1..] == d1[1..] + d2;
      KeepExceedingAppend(e1[1..], d1[1..], e2, d2, bound);
    }
  }

  /** All onsets survive when every ratio exceeds the bound, none when no ratio does. */
  lemma {:induction false} KeepExceedingExtremes(events: seq<nat>, data: seq<Quotient>, bound: real)
    requires |data| == |events|
    ensures (forall k :: 0 <= k < |data| ==> Exceeds(data[k], bound)) ==> KeepExceeding(events, data, bound) == events
    ensures (forall k :: 0 <= k < |data| ==> !Exceeds(data[k], bound)) ==> KeepExceeding(events, data, bound) == []
    decreases |events|
  {
    if events != [] {
      KeepExceedingExtremes(events[1..], data[1..], bound);
      assert forall k :: 1 <= k < |data| ==> data[k] == data[1..][k - 1];
      assert events == [events[0]] + events[1..];
    }
  }

  /** The ratio bound of `filter_waking_up_events`. */
  const WakingRatio: real := 1.5

  /** The waking-up onsets for a list of onsets. */
  function WakingUpEvents(events: seq<nat>, velocity: seq<real>, times: seq<real>, whiskerTimes: seq<real>,
                          rate: int, baselineLength: int, eventLength: int): seq<nat>
    requires OnClock(events, times) && |velocity| == |whiskerTimes|
  {
    KeepExceeding(events, Ratios(events, velocity, times, whiskerTimes, rate, baselineLength, eventLength), WakingRatio)
  }

  /** `filter_waking_up_events`: the ratios, then the onsets whose ratio is above 1.5. */
  method FilterWakingUpEvents(events: seq<nat>, velocity: seq<real>, times: seq<real>, whiskerTimes: seq<real>,
                              rate: int, baselineLength: int, eventLength: int) returns (waking: seq<nat>)
    requires OnClock(events, times) && |velocity| == |whiskerTimes|
    ensures waking == WakingUpEvents(events, velocity, times, whiskerTimes, rate, baselineLength, eventLength)
  {
    var data := CalculateIntegralData(events, velocity, times, whiskerTimes, rate, baselineLength, eventLength);
    assert data == Ratios(events, velocity, times, whiskerTimes, rate, baselineLength, eventLength);
    waking := KeepExceeding(events, data, WakingRatio);
  }

  /** The waking-up onsets are a subsequence of the onsets: each one is an
      onset whose ratio exceeds 1.5, every such onset is among them, and there
      are exactly as many of them as there are ratios above 1.5. */
  lemma WakingUpEventsSpec(events: seq<nat>, velocity: seq<real>, times: seq<real>, whiskerTimes: seq<real>,
                           rate: int, baselineLength: int, eventLength: int)
    requires OnClock(events, times) && |velocity| == |whiskerTimes|
    ensures var r := WakingUpEvents(events, velocity, times, whiskerTimes, rate, baselineLength, eventLength);
            var data := Ratios(events, velocity, times, whiskerTimes, rate, baselineLength, eventLength);
            IsSubseq(r, events) && |r| <= |events| &&
            (forall k :: 0 <= k < |events| &&
               Exceeds(IntegralRatio(events[k], velocity, times, whiskerTimes, rate, baselineLength, eventLength), 1.5)
               ==> events[k] in r) &&
            (forall x :: x in r ==>
               (exists k :: 0 <= k < |events| && events[k] == x &&
                  Exceeds(IntegralRatio(events[k], velocity, times, whiskerTimes, rate, baselineLength, eventLength), 1.5))) &&
            |r| == NumExceeding(data, 1.5)
  {
    var r := WakingUpEvents(events, velocity, times, whiskerTimes, rate, baselineLength, eventLength);
    SubseqFacts(r, events);
  }

  /** The waking-up onsets do not depend on the unit of the whisker velocity:
      rescaling it by any positive factor keeps every one of them. */
  lemma WakingUpEventsScale(events: seq<nat>, velocity: seq<real>, times: seq<real>, whiskerTimes: seq<real>,
                            rate: int, baselineLength: int, eventLength: int, c: real)
    requires OnClock(events, times) && |velocity| == |whiskerTimes| && c > 0.0
    ensures WakingUpEvents(events, Scale(velocity, c), times, whiskerTimes, rate, baselineLength, eventLength) ==
            WakingUpEvents(events, velocity, times, whiskerTimes, rate, baselineLength, eventLength)
  {
    forall k | 0 <= k < |events|
      ensures IntegralRatio(events[k], Scale(velocity, c), times, whiskerTimes, rate, baselineLength, eventLength) ==
              IntegralRatio(events[k], velocity, times, whiskerTimes, rate, baselineLength, eventLength)
    {
      IntegralRatioScale(events[k], velocity, times, whiskerTimes, rate, baselineLength, eventLength, c);
    }
    assert Ratios(events, Scale(velocity, c), times, whiskerTimes, rate, baselineLength, eventLength) ==
           Ratios(events, velocity, times, whiskerTimes, rate, baselineLength, eventLength);
  }
}
