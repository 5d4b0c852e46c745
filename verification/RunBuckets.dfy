/** The within-run time series of analyse_pilot_dynamics.py: 60 buckets cut at
    floor(i * steps / 60), with the completions, means and shares of each bucket. */
module RunBuckets {
  import Gini
  import opened Lists
  import opened Options
  import opened Products
  import opened Sums

  const BUCKETS := 60

  /** `i * steps`, as a sum so that proofs stay linear. */
  function Multiple(i: nat, steps: nat): nat { if i == 0 then 0 else Multiple(i - 1, steps) + steps }

  lemma {:induction false} MultipleIsProduct(i: nat, steps: nat)
    ensures Multiple(i, steps) == i * steps
  {
    if i > 0 {
      MultipleIsProduct(i - 1, steps);
      assert i * steps == (i - 1) * steps + steps;
    }
  }

  function Edge(i: nat, steps: nat): nat { Multiple(i, steps) / BUCKETS }

  /** The edge is the whole part of i * steps / 60. */
  lemma EdgeMeans(i: nat, steps: nat)
    ensures BUCKETS == 60 && 60 * Edge(i, steps) <= i * steps < 60 * (Edge(i, steps) + 1)
  {
    MultipleIsProduct(i, steps);
  }

  lemma EdgeGrows(i: nat, steps: nat)
    ensures Edge(i, steps) <= Edge(i + 1, steps)
    ensures steps >= BUCKETS ==> Edge(i, steps) < Edge(i + 1, steps)
  {
  }

  lemma {:induction false} EdgesGrow(i: nat, j: nat, steps: nat)
    requires i <= j
    ensures Edge(i, steps) <= Edge(j, steps)
  {
    if i < j {
      EdgesGrow(i, j - 1, steps);
      EdgeGrows(j - 1, steps);
    }
  }

  lemma LastEdge(steps: nat)
    ensures Edge(0, steps) == 0 && Edge(BUCKETS, steps) == steps
  {
    MultipleIsProduct(BUCKETS, steps);
  }

  /** The per-step arrays of one run, all of the run's length; `load` has a column per RSU. */
  datatype Steps = Steps(done: seq<real>, latency: seq<real>, local: seq<real>, v2i: seq<real>, v2v: seq<real>,
    active: seq<real>, load: seq<seq<real>>, rsus: nat)
  {
    predicate Aligned() {
      && |latency| == |local| == |v2i| == |v2v| == |active| == |load| == |done|
      && forall k :: 0 <= k < |load| ==> |load[k]| == rsus
    }
  }

  /** `None` stands for a mean that does not exist: JSON null, or numpy's nan on an empty slice. */
  datatype Entry = Entry(from: nat, upTo: nat, completions: real, meanLatency: Option<real>, meanActive: Option<real>,
    offloadShare: Option<real>, meanTotalLoad: Option<real>, meanBusiestLoad: Option<real>, meanLoadGini: Option<real>)

  /** The largest entry of a row that is not empty. */
  function Largest(row: seq<real>): real {
    if row == [] then 0.0
    else if |row| == 1 || row[0] >= Largest(row[1..]) then row[0]
    else Largest(row[1..])
  }

  /** One figure per step: `load.sum(axis=1)`, `load.max(axis=1)` and the list of row Ginis. */
  function Column(load: seq<seq<real>>, f: seq<real> -> real): seq<real> {
    seq(|load|, k requires 0 <= k < |load| => f(load[k]))
  }

  lemma ColumnSlice(load: seq<seq<real>>, f: seq<real> -> real, start: nat, stop: nat)
    requires start <= stop <= |load|
    ensures Column(load, f)[start..stop] == Column(load[start..stop], f)
  {
  }

  /** `data[start:stop].sum()` */
  function BucketTotal(data: seq<real>, i: nat): real
    requires i < BUCKETS
  {
    EdgesInRange(i, |data|);
    Total(data[Edge(i, |data|)..Edge(i + 1, |data|)])
  }

  lemma EdgesInRange(i: nat, steps: nat)
    requires i < BUCKETS
    ensures Edge(i, steps) <= Edge(i + 1, steps) <= steps
  {
    EdgeGrows(i, steps);
    EdgesGrow(i + 1, BUCKETS, steps);
    LastEdge(steps);
  }

  /** `part / whole` where the script divides only by something positive. */
  function Ratio(part: real, whole: real): Option<real> { if whole > 0.0 then Some(part / whole) else None }

  lemma RatioMeans(part: real, whole: real)
    ensures Ratio(part, whole).Some? <==> whole > 0.0
    ensures whole > 0.0 ==> Times(Ratio(part, whole).value, whole) == part
  {
    if whole > 0.0 { QuotientTimes(part, whole); }
  }

  /** What an entry must say of the steps from `start` up to `stop`. */
  ghost predicate EntryFor(e: Entry, run: Steps, start: nat, stop: nat)
    requires run.Aligned() && start <= stop <= |run.done|
  {
    var offloads := Total(run.v2i[start..stop]) + Total(run.v2v[start..stop]);
    && e.from == start && e.upTo == stop
    && e.completions == Total(run.done[start..stop])
    && e.meanLatency == Ratio(Total(run.latency[start..stop]), e.completions)
    && e.meanActive == Ratio(Total(run.active[start..stop]), (stop - start) as real)
    && e.offloadShare == Ratio(offloads, Total(run.local[start..stop]) + offloads)
  }

  ghost predicate LoadFor(e: Entry, run: Steps, start: nat, stop: nat)
    requires run.Aligned() && start <= stop <= |run.done|
  {
    && e.meanTotalLoad == Ratio(Total(Column(run.load, Total)[start..stop]), (stop - start) as real)
    && e.meanBusiestLoad == Ratio(Total(Column(run.load, Largest)[start..stop]), (stop - start) as real)
    && e.meanLoadGini == Ratio(Total(Column(run.load, Gini.Gini)[start..stop]), (stop - start) as real)
  }

  ghost predicate EntryOk(e: Entry, run: Steps, i: nat)
    requires run.Aligned() && i < BUCKETS
  {
    EdgesInRange(i, |run.done|);
    EntryFor(e, run, Edge(i, |run.done|), Edge(i + 1, |run.done|))
  }

  ghost predicate LoadOk(e: Entry, run: Steps, i: nat)
    requires run.Aligned() && i < BUCKETS
  {
    EdgesInRange(i, |run.done|);
    LoadFor(e, run, Edge(i, |run.done|), Edge(i + 1, |run.done|))
  }

  /** `column[start:stop].mean()` */
  function MeanOf(column: seq<real>): Option<real> {
    if column == [] then None else Some(Total(column) / |column| as real)
  }

  lemma MeanOfColumn(load: seq<seq<real>>, f: seq<real> -> real, start: nat, stop: nat)
    requires start <= stop <= |load|
    ensures MeanOf(Column(load[start..stop], f)) == Ratio(Total(Column(load, f)[start..stop]), (stop - start) as real)
  {
    ColumnSlice(load, f, start, stop);
  }

  /** The body of the loop. `ok` is false when numpy refuses the maximum of rows without RSUs. */
  method BucketEntry(run: Steps, start: nat, stop: nat) returns (ok: bool, entry: Entry)
    requires run.Aligned() && start <= stop <= |run.done|
    ensures ok <==> run.rsus > 0 || start == stop
    ensures ok ==> EntryFor(entry, run, start, stop) && LoadFor(entry, run, start, stop)
  {
    ok, entry := run.rsus > 0 || start == stop, Entry(start, stop, 0.0, None, None, None, None, None, None);
    if !ok {
      return;
    }
    var done, latency := Total(run.done[start..stop]), Total(run.latency[start..stop]);
    var local := Total(run.local[start..stop]);
    var offloads := Total(run.v2i[start..stop]) + Total(run.v2v[start..stop]);
    var total, busiest, gini := LoadMeans(run.load, start, stop);
    entry := Entry(start, stop, done, Ratio(latency, done), MeanOf(run.active[start..stop]),
      Ratio(offloads, local + offloads), total, busiest, gini);
  }

  method LoadMeans(load: seq<seq<real>>, start: nat, stop: nat)
      returns (total: Option<real>, busiest: Option<real>, gini: Option<real>)
    requires start <= stop <= |load|
    ensures total == Ratio(Total(Column(load, Total)[start..stop]), (stop - start) as real)
    ensures busiest == Ratio(Total(Column(load, Largest)[start..stop]), (stop - start) as real)
    ensures gini == Ratio(Total(Column(load, Gini.Gini)[start..stop]), (stop - start) as real)
  {
    total := MeanOf(Column(load[start..stop], Total));
    MeanOfColumn(load, Total, start, stop);
    busiest := MeanOf(Column(load[start..stop], Largest));
    MeanOfColumn(load, Largest, start, stop);
    gini := MeanOf(Column(load[start..stop], Gini.Gini));
    MeanOfColumn(load, Gini.Gini, start, stop);
  }

  /** The loop over consecutive edges. */
  method Series(run: Steps) returns (ok: bool, series: seq<Entry>)
    requires run.Aligned()
    ensures ok <==> run.rsus > 0 || run.done == []
    ensures ok ==> SeriesOk(series, run)
  {
    ok, series := true, [];
    for i := 0 to BUCKETS
      invariant run.rsus > 0 || Edge(i, |run.done|) == 0
      invariant |series| == i && PrefixOk(series, run, i)
    {
      EdgesInRange(i, |run.done|);
      var entry;
      ok, entry := BucketEntry(run, Edge(i, |run.done|), Edge(i + 1, |run.done|));
      if !ok {
        return;
      }
      PrefixSnoc(series, entry, run, i);
      series := series + [entry];
    }
    LastEdge(|run.done|);
  }

  lemma PrefixSnoc(series: seq<Entry>, e: Entry, run: Steps, i: nat)
    requires run.Aligned() && i < BUCKETS && |series| == i && PrefixOk(series, run, i)
    requires EntryOk(e, run, i) && LoadOk(e, run, i)
    ensures PrefixOk(series + [e], run, i + 1)
  {
    forall j | 0 <= j < i + 1 ensures EntryOk((series + [e])[j], run, j) && LoadOk((series + [e])[j], run, j) {
      assert (series + [e])[j] == if j < i then series[j] else e;
    }
  }

  ghost predicate PrefixOk(series: seq<Entry>, run: Steps, n: nat)
    requires run.Aligned() && n <= BUCKETS && n <= |series|
  {
    forall i :: 0 <= i < n ==> EntryOk(series[i], run, i) && LoadOk(series[i], run, i)
  }

  ghost predicate SeriesOk(series: seq<Entry>, run: Steps)
    requires run.Aligned()
  {
    |series| == BUCKETS && PrefixOk(series, run, BUCKETS)
  }

  lemma {:induction false} LargestOfRow(row: seq<real>)
    requires row != []
    ensures Largest(row) in row && forall k :: 0 <= k < |row| ==> row[k] <= Largest(row)
  {
    if |row| > 1 {
      LargestOfRow(row[1..]);
    }
  }

  lemma SingleEntry(row: seq<real>)
    requires |row| == 1
    ensures Total(row) == Largest(row) == Times(1.0, Largest(row))
  {
    assert Total(row[1..]) == 0.0;
  }

  lemma {:induction false} LargestAndTotal(row: seq<real>)
    requires row != [] && NonNegative(row)
    ensures 0.0 <= Largest(row) && BetweenTimes(Largest(row), Total(row), |row| as real)
  {
    if |row| == 1 {
      SingleEntry(row);
    } else {
      LargestAndTotal(row[1..]);
      PortionOfLargest(|row| as real, row[0], Total(row[1..]), Largest(row[1..]), Largest(row));
    }
  }

  lemma PortionOfLargest(n: real, first: real, rest: real, most: real, largest: real)
    requires n >= 1.0 && 0.0 <= first <= largest && 0.0 <= most <= largest && largest in {first, most}
    requires BetweenTimes(most, rest, n - 1.0)
    ensures BetweenTimes(largest, first + rest, n)
  {
    assert (n - 1.0) * (largest - most) >= 0.0;
  }

  ghost predicate BetweenTimes(low: real, x: real, n: real) { low <= x <= Times(n, low) }

  lemma AddBetween(low: real, x: real, more: real, y: real, n: real, lows: real, total: real)
    requires BetweenTimes(low, x, n) && BetweenTimes(more, y, n) && lows == low + more && total == x + y
    ensures BetweenTimes(lows, total, n)
  {
    Distribute(n, low, more);
  }

  ghost predicate RowsOk(load: seq<seq<real>>, rsus: nat) {
    rsus > 0 && forall k :: 0 <= k < |load| ==> |load[k]| == rsus && NonNegative(load[k])
  }

  lemma {:induction false} ColumnsCompare(load: seq<seq<real>>, rsus: nat)
    requires RowsOk(load, rsus)
    ensures BetweenTimes(Total(Column(load, Largest)), Total(Column(load, Total)), rsus as real)
  {
    if load == [] {
      TimesZero(rsus as real);
    } else {
      var rest := load[1..];
      ColumnsCompare(rest, rsus);
      LargestAndTotal(load[0]);
      ColumnFirst(load, Largest);
      ColumnFirst(load, Total);
      AddBetween(Largest(load[0]), Total(load[0]), Total(Column(rest, Largest)), Total(Column(rest, Total)),
        rsus as real, Total(Column(load, Largest)), Total(Column(load, Total)));
    }
  }

  lemma ColumnFirst(load: seq<seq<real>>, f: seq<real> -> real)
    requires load != []
    ensures Total(Column(load, f)) == f(load[0]) + Total(Column(load[1..], f))
  {
    assert Column(load, f)[1..] == Column(load[1..], f);
  }

  /** Loads that are not negative put the mean busiest load between the mean total load's share
      of one RSU and the mean total load itself. */
  lemma BusiestWithinTotal(e: Entry, run: Steps, start: nat, stop: nat)
    requires run.Aligned() && start <= stop <= |run.done| && LoadFor(e, run, start, stop) && run.rsus > 0
    requires forall k :: 0 <= k < |run.load| ==> NonNegative(run.load[k])
    ensures e.meanTotalLoad.Some? <==> e.meanBusiestLoad.Some?
    ensures e.meanTotalLoad.Some? ==> BetweenTimes(e.meanBusiestLoad.value, e.meanTotalLoad.value, run.rsus as real)
  {
    var load := run.load[start..stop];
    ColumnSlice(run.load, Total, start, stop);
    ColumnSlice(run.load, Largest, start, stop);
    ColumnsCompare(load, run.rsus);
    if start < stop {
      var width := (stop - start) as real;
      DivideBetween(Total(Column(load, Largest)), Total(Column(load, Total)), run.rsus as real, width);
    }
  }

  lemma DivideBetween(low: real, x: real, n: real, width: real)
    requires BetweenTimes(low, x, n) && width > 0.0
    ensures BetweenTimes(low / width, x / width, n)
  {
    assert x / width - low / width == (x - low) / width;
    assert Times(n, low / width) == Times(n, low) / width;
    assert Times(n, low / width) - x / width == (Times(n, low) - x) / width;
  }

  // ----- what the series says of the run -----

  function BucketTotals(data: seq<real>, k: nat): seq<real>
    requires k <= BUCKETS
  {
    if k == 0 then [] else BucketTotals(data, k - 1) + [BucketTotal(data, k - 1)]
  }

  lemma {:induction false} BucketsCoverAPrefix(data: seq<real>, k: nat)
    requires k <= BUCKETS
    ensures Edge(k, |data|) <= |data| && Total(BucketTotals(data, k)) == Total(data[..Edge(k, |data|)])
  {
    LastEdge(|data|);
    if k > 0 {
      BucketsCoverAPrefix(data, k - 1);
      EdgesInRange(k - 1, |data|);
      var start, stop := Edge(k - 1, |data|), Edge(k, |data|);
      assert data[..stop] == data[..start] + data[start..stop];
      SumByAppend(data[..start], data[start..stop], Id);
      SumByLast(BucketTotals(data, k - 1), BucketTotal(data, k - 1), Id);
    }
  }

  /** The bucket totals of any column add up to the total of the run. */
  lemma BucketsAddUp(data: seq<real>)
    ensures Total(BucketTotals(data, BUCKETS)) == Total(data)
  {
    BucketsCoverAPrefix(data, BUCKETS);
    LastEdge(|data|);
    TakeAll(data);
  }

  /** Latency that a reader gets back from an entry: its mean weighted by its completions. */
  function Weighted(e: Entry): real {
    if e.meanLatency.Some? then Times(e.meanLatency.value, e.completions) else 0.0
  }

  lemma WeightedIsBucketLatency(e: Entry, run: Steps, i: nat)
    requires run.Aligned() && i < BUCKETS && EntryOk(e, run, i)
    ensures Weighted(e) == if BucketTotal(run.done, i) > 0.0 then BucketTotal(run.latency, i) else 0.0
  {
    if e.completions > 0.0 {
      QuotientTimes(BucketTotal(run.latency, i), e.completions);
    }
  }

  function Completions(e: Entry): real { e.completions }

  /** The latency of buckets without completions, which the series does not show. */
  function Hidden(run: Steps, k: nat): real
    requires run.Aligned() && k <= BUCKETS
  {
    if k == 0 then 0.0
    else Hidden(run, k - 1) + (if BucketTotal(run.done, k - 1) > 0.0 then 0.0 else BucketTotal(run.latency, k - 1))
  }

  /** The series keeps every completion, and its weighted means give back the run's latency up
      to what lies in buckets without completions. */
  lemma SeriesIsConserved(series: seq<Entry>, run: Steps)
    requires run.Aligned() && SeriesOk(series, run)
    ensures SumBy(series, Completions) == Total(run.done)
    ensures SumBy(series, Weighted) + Hidden(run, BUCKETS) == Total(run.latency)
  {
    PrefixIsConserved(series, run, BUCKETS);
    BucketsAddUp(run.done);
    BucketsAddUp(run.latency);
    TakeAll(series);
  }

  lemma {:induction false} PrefixIsConserved(series: seq<Entry>, run: Steps, k: nat)
    requires run.Aligned() && k <= |series| == BUCKETS
    requires forall i :: 0 <= i < BUCKETS ==> EntryOk(series[i], run, i)
    ensures SumBy(series[..k], Completions) == Total(BucketTotals(run.done, k))
    ensures SumBy(series[..k], Weighted) + Hidden(run, k) == Total(BucketTotals(run.latency, k))
  {
    if k > 0 {
      var i := k - 1;
      PrefixIsConserved(series, run, i);
      TakeNext(series, i);
      SumByLast(series[..i], series[i], Completions);
      SumByLast(series[..i], series[i], Weighted);
      WeightedIsBucketLatency(series[i], run, i);
      SumByLast(BucketTotals(run.done, i), BucketTotal(run.done, i), Id);
      SumByLast(BucketTotals(run.latency, i), BucketTotal(run.latency, i), Id);
    }
  }

  ghost predicate NonNegative(data: seq<real>) { forall i :: 0 <= i < |data| ==> data[i] >= 0.0 }

  lemma {:induction false} TotalNonNegative(data: seq<real>)
    requires NonNegative(data)
    ensures Total(data) >= 0.0
  {
    if data != [] {
      TotalNonNegative(data[1..]);
    }
  }

  /** With counts that are not negative a share is one of [0, 1], and missing iff nothing was decided. */
  lemma OffloadShareRange(e: Entry, run: Steps, start: nat, stop: nat)
    requires run.Aligned() && start <= stop <= |run.done| && EntryFor(e, run, start, stop)
    requires NonNegative(run.local) && NonNegative(run.v2i) && NonNegative(run.v2v)
    ensures e.offloadShare.Some? ==> 0.0 <= e.offloadShare.value <= 1.0
    ensures e.offloadShare.None? <==>
      Total(run.local[start..stop]) == Total(run.v2i[start..stop]) == Total(run.v2v[start..stop]) == 0.0
  {
    TotalNonNegative(run.local[start..stop]);
    TotalNonNegative(run.v2i[start..stop]);
    TotalNonNegative(run.v2v[start..stop]);
    var offloads := Total(run.v2i[start..stop]) + Total(run.v2v[start..stop]);
    var decisions := Total(run.local[start..stop]) + offloads;
    if decisions > 0.0 { QuotientRange(offloads, decisions); }
  }

  lemma QuotientRange(x: real, y: real)
    requires 0.0 <= x <= y && y > 0.0
    ensures 0.0 <= x / y <= 1.0
  {
  }

  predicate InBucket(k: nat, i: nat, steps: nat) { Edge(i, steps) <= k < Edge(i + 1, steps) }

  /** Every step falls into exactly one bucket. */
  lemma StepHasOneBucket(k: nat, steps: nat)
    requires k < steps
    ensures exists i: nat :: i < BUCKETS && InBucket(k, i, steps)
    ensures forall i: nat, j: nat ::
      i < BUCKETS && j < BUCKETS && InBucket(k, i, steps) && InBucket(k, j, steps) ==> i == j
  {
    LastEdge(steps);
    var i := FindBucket(k, steps, BUCKETS);
    forall i: nat, j: nat | i < BUCKETS && j < BUCKETS && InBucket(k, i, steps) && InBucket(k, j, steps)
      ensures i == j
    {
      BucketsApart(k, steps, i, j);
      BucketsApart(k, steps, j, i);
    }
  }

  lemma BucketsApart(k: nat, steps: nat, i: nat, j: nat)
    requires InBucket(k, i, steps) && InBucket(k, j, steps)
    ensures i >= j
  {
    if i < j { EdgesGrow(i + 1, j, steps); }
  }

  lemma {:induction false} FindBucket(k: nat, steps: nat, top: nat) returns (i: nat)
    requires k < Edge(top, steps)
    ensures i < top && InBucket(k, i, steps)
  {
    LastEdge(steps);
    if Edge(top - 1, steps) <= k {
      i := top - 1;
    } else {
      i := FindBucket(k, steps, top - 1);
    }
  }

  /** A bucket is empty, and its means undefined, exactly in runs of fewer than 60 steps. */
  lemma EmptyBucketIffShortRun(steps: nat)
    ensures (exists i: nat :: i < BUCKETS && Edge(i, steps) == Edge(i + 1, steps)) <==> steps < BUCKETS
  {
    if steps >= BUCKETS {
      forall i: nat ensures Edge(i, steps) < Edge(i + 1, steps) {
        EdgeGrows(i, steps);
      }
    } else if forall i: nat :: i < BUCKETS ==> Edge(i, steps) != Edge(i + 1, steps) {
      ClimbsAtLeast(BUCKETS, steps);
      LastEdge(steps);
    }
  }

  lemma {:induction false} ClimbsAtLeast(n: nat, steps: nat)
    requires n <= BUCKETS && forall i: nat :: i < BUCKETS ==> Edge(i, steps) != Edge(i + 1, steps)
    ensures Edge(n, steps) >= n
  {
    if n > 0 {
      ClimbsAtLeast(n - 1, steps);
      EdgeGrows(n - 1, steps);
    }
  }
}
