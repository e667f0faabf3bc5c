/** Values and numpy operations shared by every stage of the pipeline: options,
    statistics that numpy reports as NaN on empty input, index slicing with
    numpy's rules, sums and means, and list filters. */
module Numeric {

  datatype Option<T> = None | Some(value: T)

  /** Window sizes, sampling rates and durations are positive counts. */
  type Pos = x: int | x > 0 witness 1

  /** A statistic of a window; `Undefined` stands for the NaN numpy returns
      for the mean or the standard deviation of an empty window. */
  datatype Stat = Value(v: real) | Undefined

  // ---------------------------------------------------------------------------
  // Slicing

  /** numpy's normalisation of one bound of a step-1 slice of a length-`n`
      array: a negative bound counts from the end, then it is clipped into [0, n]. */
  function Bound(x: int, n: nat): (b: nat)
    ensures b <= n
    ensures 0 <= x <= n ==> b == x
    ensures x < 0 && 0 <= x + n ==> b == x + n
    ensures x + n < 0 ==> b == 0
    ensures x > n ==> b == n
  {
    if x < 0 then (if x + n < 0 then 0 else x + n)
    else if x > n then n
    else x
  }

  /** The length of `s[lo:hi]` for an array of length `n`. */
  function SliceLength(n: nat, lo: int, hi: int): nat
  {
    var a, b := Bound(lo, n), Bound(hi, n);
    if a < b then b - a else 0
  }

  /** `s[lo:hi]` with numpy's rules: total, never an index error. */
  function Slice<T>(s: seq<T>, lo: int, hi: int): (r: seq<T>)
    ensures |r| == SliceLength(|s|, lo, hi) <= |s|
    ensures 0 <= lo <= hi <= |s| ==> r == s[lo..hi]
    ensures 0 <= lo && |r| > 0 ==> lo + |r| <= |s| && r == s[lo..lo + |r|]
    ensures 0 <= hi && |r| > 0 ==> |r| <= hi - lo
  {
    var a, b := Bound(lo, |s|), Bound(hi, |s|);
    if a < b then s[a..b] else []
  }

  // ---------------------------------------------------------------------------
  // Sums, means, extremes

  function Sum(s: seq<real>): real
  {
    if s == [] then 0.0 else Sum(s[..|s| - 1]) + s[|s| - 1]
  }

  /** `np.mean` of a non-empty window: its sum divided by its length. */
  function Mean(s: seq<real>): real
    requires |s| > 0
  {
    Sum(s) / (|s| as real)
  }

  /** `np.mean`, NaN on an empty window. */
  function MeanStat(s: seq<real>): (m: Stat)
    ensures m.Undefined? <==> |s| == 0
  {
    if |s| == 0 then Undefined else Value(Mean(s))
  }

  /** `np.std` through the abstract standard deviation `std`, NaN on an empty window. */
  function StdStat(s: seq<real>, std: seq<real> -> real): (d: Stat)
    ensures d.Undefined? <==> |s| == 0
  {
    if |s| == 0 then Undefined else Value(std(s))
  }

  /** The standard deviation never is negative (it is a square root). */
  ghost predicate NonNegative(std: seq<real> -> real)
  {
    forall w :: std(w) >= 0.0
  }

  /** The trace with every sample negated. */
  function Negated(s: seq<real>): (r: seq<real>)
    ensures |r| == |s| && forall k :: 0 <= k < |s| ==> r[k] == -s[k]
  {
    seq(|s|, k requires 0 <= k < |s| => -s[k])
  }

  /** A deviation that does not change when a window is negated, as `np.std`
      does not. */
  ghost predicate SignSymmetric(std: seq<real> -> real)
  {
    forall w :: std(Negated(w)) == std(w)
  }

  /** Negating commutes with taking a slice. */
  lemma NegatedSlice(s: seq<real>, lo: nat, hi: nat)
    requires lo <= hi <= |s|
    ensures Negated(s)[lo..hi] == Negated(s[lo..hi])
  {
    assert forall k :: 0 <= k < hi - lo ==> Negated(s)[lo..hi][k] == Negated(s[lo..hi])[k];
  }

  lemma {:induction false} SumNegated(s: seq<real>)
    ensures Sum(Negated(s)) == -Sum(s)
  {
    if s != [] {
      NegatedSlice(s, 0, |s| - 1);
      assert Negated(s)[..|s| - 1] == Negated(s)[0..|s| - 1];
      assert s[..|s| - 1] == s[0..|s| - 1];
      SumNegated(s[..|s| - 1]);
    }
  }

  /** Negating a window negates its mean. */
  lemma MeanNegated(s: seq<real>)
    requires |s| > 0
    ensures Mean(Negated(s)) == -Mean(s)
  {
    SumNegated(s);
  }

  lemma {:induction false} SumConstant(s: seq<real>, c: real)
    requires forall k :: 0 <= k < |s| ==> s[k] == c
    ensures Sum(s) == (|s| as real) * c
  {
    if s != [] {
      SumConstant(s[..|s| - 1], c);
    }
  }

  /** The mean of a constant window is that constant. */
  lemma MeanConstant(s: seq<real>, c: real)
    requires |s| > 0
    requires forall k :: 0 <= k < |s| ==> s[k] == c
    ensures Mean(s) == c
  {
    SumConstant(s, c);
  }

  function Max(s: seq<real>): (m: real)
    requires |s| > 0
    ensures m in s
    ensures forall k :: 0 <= k < |s| ==> s[k] <= m
  {
    if |s| == 1 then s[0]
    else
      var m := Max(s[..|s| - 1]);
      assert s[..|s| - 1][|s| - 2] == s[|s| - 2];
      if s[|s| - 1] > m then s[|s| - 1] else m
  }

  function Min(s: seq<real>): (m: real)
    requires |s| > 0
    ensures m in s
    ensures forall k :: 0 <= k < |s| ==> m <= s[k]
  {
    if |s| == 1 then s[0]
    else
      var m := Min(s[..|s| - 1]);
      assert s[..|s| - 1][|s| - 2] == s[|s| - 2];
      if s[|s| - 1] < m then s[|s| - 1] else m
  }

  // ---------------------------------------------------------------------------
  // Integer division

  /** Quotient and remainder are unique. */
  lemma DivUnique(n: int, d: Pos, q: int, r: int)
    requires n == q * d + r && 0 <= r < d
    ensures n / d == q
  {
    var q', r' := n / d, n % d;
    assert n == q' * d + r' && 0 <= r' < d;
    assert (q' - q) * d == r - r';
    if q' - q >= 1 {
      MulMonotone(1, q' - q, d);
    } else if q' - q <= -1 {
      MulMonotone(q' - q, -1, d);
    }
  }

  lemma MulMonotone(a: int, b: int, c: nat)
    requires a <= b
    ensures a * c <= b * c
  {
  }

  /** Adding the divisor keeps the remainder. */
  lemma ModAddStep(x: int, d: Pos)
    ensures (x + d) % d == x % d
  {
    var q, r := x / d, x % d;
    assert x + d == (q + 1) * d + r;
    DivUnique(x + d, d, q + 1, r);
  }

  /** Two different numbers with equal remainders are at least one divisor apart. */
  lemma ModGap(a: int, b: int, d: Pos)
    requires a < b && a % d == b % d
    ensures a + d <= b
  {
    var qa, qb := a / d, b / d;
    assert b - a == (qb - qa) * d;
    if qb - qa <= 0 {
      MulMonotone(qb - qa, 0, d);
    } else {
      MulMonotone(1, qb - qa, d);
    }
  }

  // ---------------------------------------------------------------------------
  // Subsequences and filters

  /** `a` is `b` with some elements left out, order kept. */
  predicate IsSubseq<T(==)>(a: seq<T>, b: seq<T>)
    decreases |b|
  {
    a == [] || (b != [] && ((a[0] == b[0] && IsSubseq(a[1..], b[1..])) || IsSubseq(a, b[1..])))
  }

  lemma {:induction false} SubseqFacts<T>(a: seq<T>, b: seq<T>)
    requires IsSubseq(a, b)
    ensures |a| <= |b|
    ensures forall x :: x in a ==> x in b
    decreases |b|
  {
    if a != [] {
      if a[0] == b[0] && IsSubseq(a[1..], b[1..]) {
        SubseqFacts(a[1..], b[1..]);
        forall x | x in a ensures x in b {
          if x != a[0] {
            assert x in a[1..];
          }
        }
      } else {
        SubseqFacts(a, b[1..]);
      }
    }
  }

  lemma {:induction false} SubseqTransitive<T>(a: seq<T>, b: seq<T>, c: seq<T>)
    requires IsSubseq(a, b) && IsSubseq(b, c)
    ensures IsSubseq(a, c)
    decreases |c|
  {
    if a != [] {
      assert b != [] && c != [];
      if IsSubseq(b, c[1..]) {
        SubseqTransitive(a, b, c[1..]);
      } else if IsSubseq(a, b[1..]) {
        SubseqTransitive(a, b[1..], c[1..]);
      } else {
        SubseqTransitive(a[1..], b[1..], c[1..]);
      }
    }
  }

  /** The elements of `s` that satisfy `p`, in order (a list comprehension with a
      condition). */
  function Filter<T>(s: seq<T>, p: T -> bool): (r: seq<T>)
    ensures IsSubseq(r, s)
    ensures forall k :: 0 <= k < |r| ==> p(r[k])
    ensures forall k :: 0 <= k < |s| && p(s[k]) ==> s[k] in r
  {
    if s == [] then []
    else
      var rest := Filter(s[1..], p);
      if p(s[0]) then
        assert ([s[0]] + rest)[1..] == rest;
        [s[0]] + rest
      else
        rest
  }

  /** Each element satisfying `p` is kept as often as it occurs in `s`, every
      other element is dropped. */
  lemma {:induction false} FilterMultiset<T(!new)>(s: seq<T>, p: T -> bool)
    ensures forall x :: multiset(Filter(s, p))[x] == if p(x) then multiset(s)[x] else 0
  {
    if s != [] {
      FilterMultiset(s[1..], p);
      assert s == [s[0]] + s[1..];
    }
  }

  /** The indices increase strictly, so none repeats. */
  predicate StrictlyIncreasing(s: seq<nat>)
  {
    forall i, j :: 0 <= i < j < |s| ==> s[i] < s[j]
  }

  /** A sub-list of a strictly increasing list is strictly increasing. */
  lemma {:induction false} SubseqIncreasing(a: seq<nat>, b: seq<nat>)
    requires IsSubseq(a, b) && StrictlyIncreasing(b)
    ensures StrictlyIncreasing(a)
    decreases |b|
  {
    if a != [] {
      if a[0] == b[0] && IsSubseq(a[1..], b[1..]) {
        SubseqIncreasing(a[1..], b[1..]);
        SubseqFacts(a[1..], b[1..]);
        forall j | 0 < j < |a| ensures a[0] < a[j] {
          assert a[j] == a[1..][j - 1] && a[1..][j - 1] in a[1..];
          assert a[j] in b[1..];
          var k :| 0 <= k < |b[1..]| && b[1..][k] == a[j];
          assert b[k + 1] == a[j];
        }
        forall i, j | 0 <= i < j < |a| ensures a[i] < a[j] {
          if i > 0 {
            assert a[i] == a[1..][i - 1] && a[j] == a[1..][j - 1];
          }
        }
      } else {
        SubseqIncreasing(a, b[1..]);
      }
    }
  }
}
