/** Concentration of deadline failures: the worst-decile share of analyse_pilot_dynamics.py, in
    exact arithmetic. */
module FailureDeciles {
  import opened Options
  import opened Products
  import opened Sorting
  import opened Sums

  predicate Descending(a: real, b: real) { a >= b }

  /** `max(1, n // 10)` */
  function DecileSize(n: nat): nat { if n / 10 < 1 then 1 else n / 10 }

  /** The largest whole number of tenths that fits, or the single worst slot below ten. */
  lemma DecileSizeMeans(n: nat)
    ensures n < 10 ==> DecileSize(n) == 1
    ensures n >= 10 ==> 10 * DecileSize(n) <= n < 10 * (DecileSize(n) + 1)
  {
  }

  /** The failures of the first `k` slots in descending order. */
  function WorstTotal(failures: seq<real>, k: nat): real
    requires k <= |failures|
  {
    SortElements(failures, Descending);
    Total(Sort(failures, Descending)[..k])
  }

  function WorstDecileShare(failures: seq<real>): Option<real> {
    if Total(failures) <= 0.0 || failures == [] then None
    else Some(WorstTotal(failures, DecileSize(|failures|)) / Total(failures))
  }

  // ----- any selection of slots -----

  function CountChosen(chosen: seq<bool>): nat {
    if chosen == [] then 0 else (if chosen[0] then 1 else 0) + CountChosen(chosen[1..])
  }

  function ChosenTotal(values: seq<real>, chosen: seq<bool>): real
    requires |values| == |chosen|
  {
    if values == [] then 0.0 else (if chosen[0] then values[0] else 0.0) + ChosenTotal(values[1..], chosen[1..])
  }

  function Above(level: real): real -> real { x => if x > level then x - level else 0.0 }

  /** A selection cannot exceed its size times a level by more than everything above the level. */
  lemma {:induction false} ChosenAboveLevel(values: seq<real>, chosen: seq<bool>, level: real)
    requires |values| == |chosen|
    ensures ChosenTotal(values, chosen) <= Scaled(CountChosen(chosen), level) + SumBy(values, Above(level))
  {
    if values != [] {
      ChosenAboveLevel(values[1..], chosen[1..], level);
      ScaledNext(CountChosen(chosen[1..]), level);
    }
  }

  function Scaled(k: nat, level: real): real { Times(k as real, level) }

  lemma ScaledNext(k: nat, level: real)
    ensures Scaled(k + 1, level) == Scaled(k, level) + level
  {
    assert (k + 1) as real == k as real + 1.0;
    assert Times(k as real + 1.0, level) == Times(k as real, level) + level;
  }

  lemma {:induction false} HeadAboveLevel(s: seq<real>, level: real)
    requires forall i :: 0 <= i < |s| ==> s[i] >= level
    ensures SumBy(s, Above(level)) == Total(s) - Scaled(|s|, level)
    ensures Total(s) >= Scaled(|s|, level)
  {
    if s != [] {
      HeadAboveLevel(s[1..], level);
      ScaledNext(|s| - 1, level);
      assert Above(level)(s[0]) == s[0] - level;
    }
  }

  lemma {:induction false} TailBelowLevel(s: seq<real>, level: real)
    requires forall i :: 0 <= i < |s| ==> s[i] <= level
    ensures SumBy(s, Above(level)) == 0.0
    ensures Total(s) <= Scaled(|s|, level)
  {
    if s != [] {
      TailBelowLevel(s[1..], level);
      ScaledNext(|s| - 1, level);
      assert Above(level)(s[0]) == 0.0;
    }
  }

  lemma SplitSorted(d: seq<real>, k: nat)
    requires Sorted(d, Descending) && 1 <= k <= |d|
    ensures SumBy(d, Above(d[k - 1])) == Total(d[..k]) - Scaled(k, d[k - 1])
    ensures Total(d[..k]) >= Scaled(k, d[k - 1])
    ensures Total(d) - Total(d[..k]) <= Scaled(|d| - k, d[k - 1])
  {
    var head, tail, level := d[..k], d[k..], d[k - 1];
    forall i | 0 <= i < k ensures head[i] >= level {
      assert i == k - 1 || Descending(d[i], d[k - 1]);
    }
    forall i | 0 <= i < |tail| ensures tail[i] <= level {
      assert Descending(d[k - 1], d[k + i]);
    }
    assert d == head + tail;
    HeadAboveLevel(head, level);
    TailBelowLevel(tail, level);
    SumByAppend(head, tail, Above(level));
    SumByAppend(head, tail, Id);
  }

  lemma SplitAtLevel(failures: seq<real>, k: nat, d: seq<real>)
    requires 1 <= k <= |failures| && d == Sort(failures, Descending)
    ensures |d| == |failures|
    ensures SumBy(failures, Above(d[k - 1])) == WorstTotal(failures, k) - Scaled(k, d[k - 1])
    ensures WorstTotal(failures, k) >= Scaled(k, d[k - 1])
    ensures Total(failures) - WorstTotal(failures, k) <= Scaled(|failures| - k, d[k - 1])
  {
    SortElements(failures, Descending);
    assert Sorted(d, Descending) by { SortSorted(failures, Descending); }
    SplitPermuted(failures, d, k);
    assert WorstTotal(failures, k) == Total(d[..k]);
  }

  lemma SplitPermuted(failures: seq<real>, d: seq<real>, k: nat)
    requires Sorted(d, Descending) && multiset(d) == multiset(failures) && 1 <= k <= |d|
    ensures SumBy(failures, Above(d[k - 1])) == Total(d[..k]) - Scaled(k, d[k - 1])
    ensures Total(d[..k]) >= Scaled(k, d[k - 1])
    ensures Total(failures) - Total(d[..k]) <= Scaled(|d| - k, d[k - 1])
  {
    SplitSorted(d, k);
    SumByPermutation(failures, d, Above(d[k - 1]));
    SumByPermutation(failures, d, Id);
  }

  /** No other choice of as many slots collects more failures. */
  lemma WorstIsLargest(failures: seq<real>, chosen: seq<bool>)
    requires |chosen| == |failures|
    ensures CountChosen(chosen) <= |failures|
    ensures ChosenTotal(failures, chosen) <= WorstTotal(failures, CountChosen(chosen))
  {
    ChosenBounds(failures, chosen);
    var k := CountChosen(chosen);
    if k > 0 {
      var d := Sort(failures, Descending);
      SplitAtLevel(failures, k, d);
      ChosenAboveLevel(failures, chosen, d[k - 1]);
    }
  }

  /** And some choice of `k` slots does collect that many. */
  lemma WorstIsAttained(failures: seq<real>, k: nat)
    requires k <= |failures|
    ensures exists chosen :: |chosen| == |failures| && CountChosen(chosen) == k
                             && ChosenTotal(failures, chosen) == WorstTotal(failures, k)
  {
    var d := Sort(failures, Descending);
    SortElements(failures, Descending);
    assert d == d[..k] + d[k..];
    assert multiset(d) == multiset(d[..k]) + multiset(d[k..]);
    var chosen := Choose(failures, d[..k]);
  }

  lemma {:induction false} Choose(values: seq<real>, part: seq<real>) returns (chosen: seq<bool>)
    requires multiset(part) <= multiset(values)
    ensures |chosen| == |values| && CountChosen(chosen) == |part| && ChosenTotal(values, chosen) == Total(part)
  {
    if values == [] {
      assert |multiset(part)| == 0;
      chosen := [];
    } else if values[0] in part {
      var i :| 0 <= i < |part| && part[i] == values[0];
      var rest := part[..i] + part[i + 1..];
      RemoveElement(part, i);
      RemoveFirst(values);
      SumByRemove(part, i, Id);
      var tail := Choose(values[1..], rest);
      chosen := [true] + tail;
      assert chosen[1..] == tail;
    } else {
      RemoveFirst(values);
      assert values[0] !in multiset(part);
      var tail := Choose(values[1..], part);
      chosen := [false] + tail;
      assert chosen[1..] == tail;
    }
  }

  /** The share is the worst decile's part of all failures, and missing iff there are none. */
  lemma WorstDecileShareMeans(failures: seq<real>)
    ensures WorstDecileShare(failures).None? <==> Total(failures) <= 0.0
    ensures Total(failures) > 0.0 ==> failures != [] && DecileSize(|failures|) <= |failures|
    ensures Total(failures) > 0.0 ==>
      Times(WorstDecileShare(failures).value, Total(failures)) == WorstTotal(failures, DecileSize(|failures|))
  {
    if Total(failures) > 0.0 {
      QuotientTimes(WorstTotal(failures, DecileSize(|failures|)), Total(failures));
    }
  }

  lemma {:induction false} ChosenBounds(values: seq<real>, chosen: seq<bool>)
    requires |values| == |chosen|
    ensures CountChosen(chosen) <= |values|
    ensures CountChosen(chosen) == 0 ==> ChosenTotal(values, chosen) == 0.0
  {
    if values != [] {
      ChosenBounds(values[1..], chosen[1..]);
    }
  }

  /** The worst decile of `n` slots, or their single worst, holds at least its even share and at
      most everything. */
  lemma WorstDecileShareRange(failures: seq<real>)
    requires (forall i :: 0 <= i < |failures| ==> failures[i] >= 0.0) && Total(failures) > 0.0
    ensures failures != [] && WorstDecileShare(failures).Some?
    ensures DecileSize(|failures|) as real / |failures| as real <= WorstDecileShare(failures).value <= 1.0
  {
    var n, k := |failures|, DecileSize(|failures|);
    var d := Sort(failures, Descending);
    SplitAtLevel(failures, k, d);
    RestIsNonNegative(failures, k);
    EvenShare(n, k, WorstTotal(failures, k), Total(failures), d[k - 1]);
    CrossProducts(k as real, n as real, WorstTotal(failures, k), Total(failures));
    QuotientAtMostOne(WorstTotal(failures, k), Total(failures));
  }

  lemma RestIsNonNegative(failures: seq<real>, k: nat)
    requires (forall i :: 0 <= i < |failures| ==> failures[i] >= 0.0) && k <= |failures|
    ensures WorstTotal(failures, k) <= Total(failures)
  {
    var d := Sort(failures, Descending);
    SortElements(failures, Descending);
    assert d == d[..k] + d[k..];
    SumByAppend(d[..k], d[k..], Id);
    SumByPermutation(failures, d, Id);
    forall i | 0 <= i < |d| ensures d[i] >= 0.0 {
      assert d[i] in multiset(failures);
    }
    HeadAboveLevel(d[k..], 0.0);
    TimesZero(|d[k..]| as real);
  }

  lemma EvenShare(n: nat, k: nat, top: real, total: real, level: real)
    requires 0 < k <= n && top >= Scaled(k, level) && total - top <= Scaled(n - k, level)
    ensures Times(k as real, total) <= Times(top, n as real)
  {
    var rest, m, j := total - top, k as real, (n - k) as real;
    TimesWeak(top, Scaled(k, level), j);
    TimesWeak(Scaled(n - k, level), rest, m);
    assert Times(Times(m, level), j) == Times(Times(j, level), m);
    assert Times(top, m + j) == Times(top, m) + Times(top, j);
    assert Times(m, top + rest) == Times(top, m) + Times(rest, m);
  }

  lemma TimesWeak(a: real, b: real, c: real)
    requires a >= b && c >= 0.0
    ensures Times(a, c) >= Times(b, c)
  {
    if a > b && c > 0.0 { TimesStrict(a, b, c); }
  }
}
