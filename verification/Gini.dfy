/** `_gini`: the sorted-index formula, proved equal to the mean absolute difference. */
module Gini {
  import opened Products
  import opened Sorting
  import opened Sums

  /** `(index * ordered).sum()` with `index` counting up from `first`. */
  function WeightedFrom(s: seq<real>, first: nat): real {
    if s == [] then 0.0 else first as real * s[0] + WeightedFrom(s[1..], first + 1)
  }

  function Gini(values: seq<real>): real {
    if values == [] then 0.0
    else
      var ordered, n := Sort(values, RealLeq), |values| as real;
      var total := Total(ordered);
      if total <= 0.0 then 0.0
      else RankFormula(n, total, WeightedFrom(ordered, 1))
  }

  function RankFormula(n: real, total: real, weighted: real): real
    requires n > 0.0 && total > 0.0
  {
    assert n * total > 0.0;
    (2.0 * weighted) / (n * total) - (n + 1.0) / n
  }

  /** Half the mean absolute difference over all ordered pairs, relative to the mean. */
  ghost function HalfRelativeMeanDifference(distance: real, n: real, total: real): real
    requires n > 0.0 && total > 0.0
  {
    assert n * total > 0.0;
    distance / (2.0 * (n * total))
  }

  // ----- the definition it stands for -----

  function Abs(x: real): real { if x < 0.0 then -x else x }

  function DistanceTo(x: real): real -> real { y => Abs(x - y) }

  /** The sum of |x - y| over every x of `a` and every y of `b`. */
  ghost function PairwiseDistance(a: seq<real>, b: seq<real>): real {
    if a == [] then 0.0 else SumBy(b, DistanceTo(a[0])) + PairwiseDistance(a[1..], b)
  }

  ghost predicate NonNegative(s: seq<real>) {
    forall i :: 0 <= i < |s| ==> s[i] >= 0.0
  }

  ghost predicate AllEqual(s: seq<real>) {
    forall i, j :: 0 <= i < |s| && 0 <= j < |s| ==> s[i] == s[j]
  }

  // ----- order does not matter to the pairwise distance -----

  lemma {:induction false} DistanceSymmetric(a: seq<real>, b: seq<real>, y: real)
    ensures PairwiseDistance(a, b + [y]) == PairwiseDistance(a, b) + SumBy(a, DistanceTo(y))
  {
    if a != [] {
      DistanceSymmetric(a[1..], b, y);
      SumByAppend(b, [y], DistanceTo(a[0]));
      assert SumBy([y], DistanceTo(a[0])) == Abs(a[0] - y) == Abs(y - a[0]);
    }
  }

  lemma {:induction false} DistanceRightOrder(a: seq<real>, b: seq<real>, c: seq<real>)
    requires multiset(b) == multiset(c)
    ensures PairwiseDistance(a, b) == PairwiseDistance(a, c)
  {
    if a != [] {
      SumByPermutation(b, c, DistanceTo(a[0]));
      DistanceRightOrder(a[1..], b, c);
    }
  }

  lemma {:induction false} DistanceTransposed(a: seq<real>, b: seq<real>)
    ensures PairwiseDistance(a, b) == PairwiseDistance(b, a)
  {
    if a == [] {
      EmptyDistance(b);
    } else {
      var rest := a[1..];
      DistanceTransposed(rest, b);
      DistanceSymmetric(b, rest, a[0]);
      assert multiset(rest + [a[0]]) == multiset(a) by {
        assert a == [a[0]] + rest;
      }
      DistanceRightOrder(b, rest + [a[0]], a);
    }
  }

  lemma {:induction false} EmptyDistance(b: seq<real>)
    ensures PairwiseDistance(b, []) == 0.0
  {
    if b != [] {
      EmptyDistance(b[1..]);
    }
  }

  lemma PairwiseIgnoresOrder(a: seq<real>, b: seq<real>)
    requires multiset(a) == multiset(b)
    ensures PairwiseDistance(a, a) == PairwiseDistance(b, b)
  {
    DistanceRightOrder(a, a, b);
    DistanceTransposed(a, b);
    DistanceRightOrder(b, a, b);
  }

  // ----- on a sorted list the pairs collapse to rank weights -----

  lemma {:induction false} WeightedSnoc(s: seq<real>, x: real, first: nat)
    ensures WeightedFrom(s + [x], first) == WeightedFrom(s, first) + Times((first + |s|) as real, x)
  {
    if s != [] {
      WeightedSnoc(s[1..], x, first + 1);
      assert (s + [x])[1..] == s[1..] + [x];
    }
  }

  lemma {:induction false} DistanceBelow(s: seq<real>, x: real)
    requires forall i :: 0 <= i < |s| ==> s[i] <= x
    ensures SumBy(s, DistanceTo(x)) == Times(|s| as real, x) - Total(s)
  {
    if s != [] {
      DistanceBelow(s[1..], x);
      assert DistanceTo(x)(s[0]) == Abs(x - s[0]) == x - s[0];
      assert Times(|s| as real, x) == x + Times((|s| - 1) as real, x);
    }
  }

  lemma PairwiseSnoc(s: seq<real>, x: real)
    ensures PairwiseDistance(s + [x], s + [x]) == PairwiseDistance(s, s) + 2.0 * SumBy(s, DistanceTo(x))
  {
    DistanceSymmetric(s + [x], s, x);
    SumByAppend(s, [x], DistanceTo(x));
    assert SumBy([x], DistanceTo(x)) == Abs(x - x);
    DistanceTransposed(s + [x], s);
    DistanceSymmetric(s, s, x);
  }

  ghost function RankWeights(n: real, total: real, weighted: real): real {
    2.0 * (2.0 * weighted - Times(n + 1.0, total))
  }

  lemma {:induction false} SortedPairs(s: seq<real>)
    requires Sorted(s, RealLeq)
    ensures PairwiseDistance(s, s) == RankWeights(|s| as real, Total(s), WeightedFrom(s, 1))
  {
    if s != [] {
      var m := |s| - 1;
      var init, x := s[..m], s[m];
      assert s == init + [x];
      assert forall i, j :: 0 <= i < j < m ==> init[i] == s[i] && RealLeq(s[i], s[j]);
      SortedPairs(init);
      assert forall i :: 0 <= i < m ==> RealLeq(s[i], s[m]);
      AppendLargest(init, x);
    }
  }

  lemma AppendLargest(s: seq<real>, x: real)
    requires forall i :: 0 <= i < |s| ==> s[i] <= x
    requires PairwiseDistance(s, s) == RankWeights(|s| as real, Total(s), WeightedFrom(s, 1))
    ensures PairwiseDistance(s + [x], s + [x])
      == RankWeights(|s + [x]| as real, Total(s + [x]), WeightedFrom(s + [x], 1))
  {
    PairwiseSnoc(s, x);
    DistanceBelow(s, x);
    WeightedSnoc(s, x, 1);
    SumByLast(s, x, Id);
    LargestJoins(|s| as real, Total(s), WeightedFrom(s, 1), x, SumBy(s, DistanceTo(x)), |s + [x]| as real,
      WeightedFrom(s + [x], 1));
  }

  lemma LargestJoins(k: real, t: real, w: real, x: real, below: real, n: real, weighted: real)
    requires n == k + 1.0 && below == Times(k, x) - t && weighted == w + Times(n, x)
    ensures RankWeights(n, t + x, weighted) == RankWeights(k, t, w) + 2.0 * below
  {
    Distribute(k, t, x);
    assert Times(n, x) == Times(k, x) + x;
    assert Times(n + 1.0, t + x) == Times(k + 1.0, t) + t + Times(k, x) + 2.0 * x;
  }

  // ----- main results -----

  lemma PairsAsRankWeights(values: seq<real>)
    ensures PairwiseDistance(values, values)
      == RankWeights(|values| as real, Total(values), WeightedFrom(Sort(values, RealLeq), 1))
    ensures Total(Sort(values, RealLeq)) == Total(values)
  {
    var ordered := Sort(values, RealLeq);
    SortSorted(values, RealLeq);
    SortElements(values, RealLeq);
    SortedPairs(ordered);
    PairwiseIgnoresOrder(ordered, values);
    SumByPermutation(ordered, values, Id);
  }

  /** The sorted-index formula is half the relative mean absolute difference. */
  lemma GiniIsMeanDifference(values: seq<real>)
    requires Total(values) > 0.0
    ensures values != []
    ensures Gini(values) ==
      HalfRelativeMeanDifference(PairwiseDistance(values, values), |values| as real, Total(values))
  {
    PairsAsRankWeights(values);
    RatioForm(|values| as real, Total(values), WeightedFrom(Sort(values, RealLeq), 1),
      PairwiseDistance(values, values));
  }

  lemma RatioForm(n: real, t: real, w: real, distance: real)
    requires n > 0.0 && t > 0.0 && distance == RankWeights(n, t, w)
    ensures RankFormula(n, t, w) == HalfRelativeMeanDifference(distance, n, t)
  {
    var p := n * t;
    assert p > 0.0;
    var q, r := (2.0 * w) / p, (n + 1.0) / n;
    assert q * p == 2.0 * w;
    assert r * n == n + 1.0;
    assert r * p == (r * n) * t;
    assert (q - r) * (2.0 * p) == distance;
  }

  lemma GiniIgnoresOrder(a: seq<real>, b: seq<real>)
    requires multiset(a) == multiset(b)
    ensures Gini(a) == Gini(b)
  {
    assert |multiset(a)| == |a| && |multiset(b)| == |b|;
    SortIgnoresOrder(a, b, RealLeq);
  }

  ghost predicate AtMostTimes(w: real, n: real, t: real) { w <= n * t }

  lemma {:induction false} RankWeightsBounded(s: seq<real>, first: nat, n: nat)
    requires NonNegative(s) && first + |s| <= n + 1
    ensures AtMostTimes(WeightedFrom(s, first), n as real, Total(s))
    ensures Total(s) >= 0.0
  {
    if s != [] {
      RankWeightsBounded(s[1..], first + 1, n);
      assert first as real * s[0] <= n as real * s[0];
      assert n as real * Total(s) == n as real * s[0] + n as real * Total(s[1..]);
    }
  }

  lemma {:induction false} DistanceNonNegative(a: seq<real>, b: seq<real>)
    ensures PairwiseDistance(a, b) >= 0.0
    ensures PairwiseDistance(a, b) == 0.0 <==> forall i, j :: 0 <= i < |a| && 0 <= j < |b| ==> a[i] == b[j]
  {
    if a != [] {
      DistanceNonNegative(a[1..], b);
      DistancesFromOne(a[0], b);
      assert a == [a[0]] + a[1..];
      assert forall i :: 0 < i < |a| ==> a[i] == a[1..][i - 1];
      assert forall i :: 0 <= i < |a[1..]| ==> a[1..][i] == a[i + 1];
    }
  }

  lemma {:induction false} DistancesFromOne(x: real, b: seq<real>)
    ensures SumBy(b, DistanceTo(x)) >= 0.0
    ensures SumBy(b, DistanceTo(x)) == 0.0 <==> forall j :: 0 <= j < |b| ==> x == b[j]
  {
    if b != [] {
      DistancesFromOne(x, b[1..]);
      assert DistanceTo(x)(b[0]) == Abs(x - b[0]);
      assert forall j :: 0 < j < |b| ==> b[j] == b[1..][j - 1];
      assert forall j :: 0 <= j < |b[1..]| ==> b[1..][j] == b[j + 1];
    }
  }

  lemma {:induction false} NoTotalMeansZeros(s: seq<real>)
    requires NonNegative(s) && Total(s) <= 0.0
    ensures forall i :: 0 <= i < |s| ==> s[i] == 0.0
  {
    if s != [] {
      assert NonNegative(s[1..]);
      RankWeightsBounded(s[1..], 0, |s|);
      NoTotalMeansZeros(s[1..]);
      assert forall j :: 0 < j < |s| ==> s[j] == s[1..][j - 1];
    }
  }

  lemma SortedTotals(values: seq<real>)
    requires NonNegative(values)
    ensures Total(Sort(values, RealLeq)) == Total(values)
    ensures AtMostTimes(WeightedFrom(Sort(values, RealLeq), 1), |values| as real, Total(values))
  {
    var ordered := Sort(values, RealLeq);
    SortElements(values, RealLeq);
    SumByPermutation(ordered, values, Id);
    forall i | 0 <= i < |ordered| ensures ordered[i] >= 0.0 {
      assert ordered[i] in multiset(values);
    }
    RankWeightsBounded(ordered, 1, |values|);
  }

  lemma GiniAtMost(values: seq<real>)
    requires NonNegative(values) && Total(values) > 0.0
    ensures values != [] && Gini(values) <= Ceiling(|values| as real)
  {
    SortedTotals(values);
    UpperBound(|values| as real, Total(values), WeightedFrom(Sort(values, RealLeq), 1));
  }

  lemma GiniAtLeast(values: seq<real>)
    requires NonNegative(values) && Total(values) > 0.0
    ensures 0.0 <= Gini(values) && (Gini(values) == 0.0 <==> AllEqual(values))
  {
    GiniIsMeanDifference(values);
    DistanceNonNegative(values, values);
    QuotientSign(PairwiseDistance(values, values), |values| as real, Total(values));
  }

  function Ceiling(n: real): real
    requires n > 0.0
  {
    (n - 1.0) / n
  }

  /** On non-negative data the coefficient runs from 0, reached exactly on equal entries, to
      (n - 1)/n. */
  lemma GiniRange(values: seq<real>)
    requires NonNegative(values) && values != []
    ensures 0.0 <= Gini(values) <= (|values| - 1) as real / |values| as real
    ensures Gini(values) == 0.0 <==> AllEqual(values)
  {
    if Total(values) <= 0.0 {
      NoTotalMeansZeros(values);
      SortElements(values, RealLeq);
      SumByPermutation(Sort(values, RealLeq), values, Id);
      CeilingNonNegative(|values| as real);
    } else {
      GiniAtLeast(values);
      GiniAtMost(values);
    }
  }

  /** The upper end is reached when one entry holds everything. */
  lemma CeilingIsReached(zeros: seq<real>, x: real)
    requires x > 0.0 && forall i :: 0 <= i < |zeros| ==> zeros[i] == 0.0
    ensures Gini(zeros + [x]) == |zeros| as real / (|zeros| + 1) as real
  {
    var values, k := zeros + [x], |zeros| as real;
    ZerosTotal(zeros);
    SumByLast(zeros, x, Id);
    DistanceNonNegative(zeros, zeros);
    PairwiseSnoc(zeros, x);
    DistanceBelow(zeros, x);
    GiniIsMeanDifference(values);
    OneHoldsAll(PairwiseDistance(values, values), k, k + 1.0, x);
  }

  lemma {:induction false} ZerosTotal(zeros: seq<real>)
    requires forall i :: 0 <= i < |zeros| ==> zeros[i] == 0.0
    ensures Total(zeros) == 0.0
  {
    if zeros != [] {
      ZerosTotal(zeros[1..]);
    }
  }

  lemma OneHoldsAll(distance: real, k: real, n: real, x: real)
    requires n > 0.0 && x > 0.0 && distance == 2.0 * Times(k, x)
    ensures HalfRelativeMeanDifference(distance, n, x) == k / n
  {
    var q := k / n;
    assert q * n == k;
    assert q * (2.0 * (n * x)) == 2.0 * ((q * n) * x);
    assert n * x > 0.0;
  }

  lemma CeilingNonNegative(n: real)
    requires n >= 1.0
    ensures Ceiling(n) >= 0.0
  {
  }

  lemma QuotientSign(d: real, n: real, t: real)
    requires d >= 0.0 && n > 0.0 && t > 0.0
    ensures HalfRelativeMeanDifference(d, n, t) >= 0.0
    ensures HalfRelativeMeanDifference(d, n, t) == 0.0 <==> d == 0.0
  {
    var p := 2.0 * (n * t);
    assert n * t > 0.0;
    var q := d / p;
    assert q * p == d;
    assert q < 0.0 ==> q * p < 0.0;
  }

  lemma UpperBound(n: real, t: real, w: real)
    requires n > 0.0 && t > 0.0 && AtMostTimes(w, n, t)
    ensures RankFormula(n, t, w) <= Ceiling(n)
  {
    var p := n * t;
    assert p > 0.0;
    var q := (2.0 * w) / p;
    assert q * p == 2.0 * w <= 2.0 * p;
    assert (q - 2.0) * p <= 0.0;
    assert q <= 2.0;
    var r, u := (n + 1.0) / n, (n - 1.0) / n;
    assert (r + u) * n == 2.0 * n;
    assert r + u == 2.0;
  }
}
