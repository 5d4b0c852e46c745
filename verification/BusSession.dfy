/** The loops of `_match_session`, proved against `BusMatching`. */
module BusSession {
  import opened Counting
  import opened Lists
  import opened Products
  import opened Options
  import opened Sorting
  import opened BusMatching
  import Percentile

  lemma RowsNext(rows: seq<Observation>, n: nat)
    requires n < |rows|
    ensures var init, next, row := rows[..n], rows[..n + 1], rows[n];
      && next == init + [row]
      && ByTime(next) == ByTime(init)[row.time := row.position]
      && TimesOf(next) == (if row.time in ByTime(init) then TimesOf(init) else TimesOf(init) + [row.time])
      && RepeatedIn(next) == RepeatedIn(init) + (if row.time in ByTime(init) then 1 else 0)
  {
    assert rows[..n + 1][..n] == rows[..n];
    TimesAreTheRowTimes(rows[..n]);
  }

  lemma ConflictNext(rows: seq<Observation>, n: nat)
    requires n < |rows| && !Conflicting(rows[..n])
    ensures var m, row := ByTime(rows[..n]), rows[n];
      && (row.time in m && m[row.time] != row.position ==> Conflicting(rows))
      && ((row.time in m && m[row.time] != row.position) || !Conflicting(rows[..n + 1]))
  {
    var init, row := rows[..n], rows[n];
    TimesAreTheRowTimes(init);
    ByTimeAgrees(init);
    if row.time in ByTime(init) && ByTime(init)[row.time] != row.position {
      assert row.time in TimesOf(init);
      var earlier :| earlier in init && earlier.time == row.time;
      assert earlier in rows && row in rows;
    } else {
      forall r | r in init && r.time == row.time ensures r.position == row.position {
        assert r.time in ByTime(init);
      }
      StillAgreeing(init, row);
      TakeNext(rows, n);
    }
  }

  lemma StillAgreeing(rows: seq<Observation>, row: Observation)
    requires !Conflicting(rows)
    requires forall r :: r in rows && r.time == row.time ==> r.position == row.position
    ensures !Conflicting(rows + [row])
  {
    var longer := rows + [row];
    forall a, b | a in longer && b in longer && a.time == b.time ensures a.position == b.position {
      assert (a in rows || a == row) && (b in rows || b == row);
    }
  }

  /** The first inner loop: `by_time` and the repeated-row counter. */
  method ReadRows(rows: seq<Observation>)
      returns (conflict: bool, byTime: map<int, Position>, order: seq<int>, repeated: nat)
    ensures conflict <==> Conflicting(rows)
    ensures !conflict ==> byTime == ByTime(rows) && order == TimesOf(rows) && repeated == RepeatedIn(rows)
  {
    conflict, byTime, order, repeated := false, map[], [], 0;
    for n := 0 to |rows|
      invariant !Conflicting(rows[..n])
      invariant byTime == ByTime(rows[..n]) && order == TimesOf(rows[..n]) && repeated == RepeatedIn(rows[..n])
    {
      var row := rows[n];
      RowsNext(rows, n);
      ConflictNext(rows, n);
      if row.time in byTime {
        if byTime[row.time] != row.position {
          conflict := true;
          return;
        }
        repeated := repeated + 1;
      } else {
        order := order + [row.time];
      }
      byTime := byTime[row.time := row.position];
    }
    TakeAll(rows);
  }

  ghost function OutsideCount(rows: seq<Observation>, s: Session): nat { CountTimes(SortedTimes(rows), Outside(s)) }

  ghost function TiedCount(rows: seq<Observation>, s: Session): nat {
    CountTimes(SortedTimes(rows), Tied(ByTime(rows), s))
  }

  lemma CountNext(times: seq<int>, n: nat, p: int -> bool)
    requires n < |times|
    ensures CountTimes(times[..n + 1], p) == CountTimes(times[..n], p) + (if p(times[n]) then 1 else 0)
  {
    assert times[..n + 1][..n] == times[..n];
  }

  lemma TimesNext(times: seq<int>, n: nat, byTime: map<int, Position>, s: Session)
    requires n < |times| && (forall t :: t in times ==> t in byTime) && times[n] in byTime
    ensures FixesAt(times[..n + 1], byTime, s) == FixesAt(times[..n], byTime, s)
      + (if InWindow(times[n], s) then [FixOf(times[n], byTime[times[n]], s)] else [])
    ensures WholeSeconds(times[..n], s) && (InWindow(times[n], s) ==> times[n] % MICROS == 0) ==>
      WholeSeconds(times[..n + 1], s)
  {
    TakeNext(times, n);
    assert times[..n + 1][..n] == times[..n];
  }

  /** The second inner loop, over `sorted(by_time.items())`. */
  method ReadTimes(times: seq<int>, byTime: map<int, Position>, s: Session)
      returns (fractional: bool, fixes: seq<Fix>, outOfWindow: nat, matched: nat, tied: nat, distances: seq<real>,
        sources: multiset<string>)
    requires forall t :: t in times ==> t in byTime
    ensures fractional <==> !WholeSeconds(times, s)
    ensures !fractional ==> fixes == FixesAt(times, byTime, s) && matched == CountMatched(fixes)
    ensures !fractional ==> distances == DistancesOf(fixes) && sources == SourcesOf(fixes)
    ensures !fractional ==> outOfWindow == CountTimes(times, Outside(s)) && tied == CountTimes(times, Tied(byTime, s))
  {
    fractional, fixes, outOfWindow, matched, tied, distances, sources := false, [], 0, 0, 0, [], multiset{};
    for n := 0 to |times|
      invariant WholeSeconds(times[..n], s)
      invariant fixes == FixesAt(times[..n], byTime, s) && matched == CountMatched(fixes)
      invariant distances == DistancesOf(fixes) && sources == SourcesOf(fixes)
      invariant outOfWindow == CountTimes(times[..n], Outside(s))
      invariant tied == CountTimes(times[..n], Tied(byTime, s))
    {
      var t := times[n];
      assert t in times;
      TimesNext(times, n, byTime, s);
      CountNext(times, n, Outside(s));
      CountNext(times, n, Tied(byTime, s));
      if t < s.start || t > s.end {
        outOfWindow := outOfWindow + 1;
        continue;
      }
      if t % MICROS != 0 {
        fractional := true;
        return;
      }
      var point := s.project(byTime[t]);
      var selection := s.select(point);
      if selection.candidate.Some? {
        matched := matched + 1;
        distances := distances + [selection.candidate.value.distance];
        sources := sources + multiset{selection.candidate.value.source};
      }
      if selection.exactTie {
        tied := tied + 1;
      }
      FixesNext(fixes, Fix(t / MICROS, point, selection.candidate));
      fixes := fixes + [Fix(t / MICROS, point, selection.candidate)];
    }
    TakeAll(times);
  }

  // ----- the whole session -----

  /** Conflicts are found before times that are no whole second. */
  ghost function RefusalOf(g: Group, s: Session): Option<Refusal> {
    if Conflicting(g.rows) then Some(ConflictingPositions)
    else if Fractional(g.rows, s) then Some(NotOnAWholeSecond)
    else None
  }

  /** Said of the rows: two positions at one time, or else an in-window time between seconds. */
  lemma RefusalMeans(g: Group, s: Session)
    ensures RefusalOf(g, s) == Some(ConflictingPositions) <==>
      exists a, b :: a in g.rows && b in g.rows && a.time == b.time && a.position != b.position
    ensures RefusalOf(g, s) == Some(NotOnAWholeSecond) <==>
      !Conflicting(g.rows) && exists a :: a in g.rows && s.start <= a.time <= s.end && a.time % 1_000_000 != 0
  {
    assert Conflicting(g.rows) <==>
      exists a, b :: a in g.rows && b in g.rows && a.time == b.time && a.position != b.position;
    assert Fractional(g.rows, s) <==>
      exists a :: a in g.rows && s.start <= a.time <= s.end && a.time % 1_000_000 != 0;
  }

  ghost function VehicleStats(g: Group, s: Session): Stats {
    var fixes := VehicleFixes(g.rows, s);
    Stats(|g.rows|, RepeatedIn(g.rows), OutsideCount(g.rows, s), CountMatched(fixes), TiedCount(g.rows, s),
      DistancesOf(fixes), SourcesOf(fixes))
  }

  const NO_STATS := Stats(0, 0, 0, 0, 0, [], multiset{})

  function Plus(a: Stats, b: Stats): Stats {
    Stats(a.rows + b.rows, a.repeated + b.repeated, a.outOfWindow + b.outOfWindow, a.matched + b.matched,
      a.tied + b.tied, a.distances + b.distances, a.sources + b.sources)
  }

  ghost function SessionStats(groups: seq<Group>, s: Session): Stats {
    if groups == [] then NO_STATS
    else Plus(SessionStats(groups[..|groups| - 1], s), VehicleStats(groups[|groups| - 1], s))
  }

  /** Fixes of the vehicles whose key is among `keys`. */
  ghost function FixesIn(groups: seq<Group>, s: Session, keys: set<string>): nat {
    if groups == [] then 0
    else
      var g := groups[|groups| - 1];
      FixesIn(groups[..|groups| - 1], s, keys) + (if g.key in keys then |VehicleFixes(g.rows, s)| else 0)
  }

  ghost function SessionFixes(groups: seq<Group>, s: Session): nat {
    if groups == [] then 0
    else SessionFixes(groups[..|groups| - 1], s) + |VehicleFixes(groups[|groups| - 1].rows, s)|
  }

  ghost predicate HoldsVehicles(vehicles: map<string, seq<Fix>>, groups: seq<Group>, s: Session) {
    && (forall g :: g in groups && VehicleFixes(g.rows, s) != [] ==>
          g.key in vehicles && vehicles[g.key] == VehicleFixes(g.rows, s))
    && (forall k :: k in vehicles ==> exists g :: g in groups && g.key == k && VehicleFixes(g.rows, s) != [])
  }

  ghost predicate DistinctKeys(groups: seq<Group>) {
    forall i, j :: 0 <= i < j < |groups| ==> groups[i].key != groups[j].key
  }

  /** The body of the loop over vehicles: a refusal, or the fixes and the counts to add. */
  method MatchVehicle(g: Group, s: Session) returns (refusal: Option<Refusal>, fixes: seq<Fix>, counts: Stats)
    ensures refusal == RefusalOf(g, s)
    ensures refusal.None? ==> fixes == VehicleFixes(g.rows, s) && counts == VehicleStats(g, s)
  {
    refusal, fixes, counts := None, [], NO_STATS;
    var conflict, byTime, order, repeated := ReadRows(g.rows);
    if conflict {
      refusal := Some(ConflictingPositions);
      return;
    }
    SortedTimesFacts(g.rows);
    WholeUnlessFractional(g.rows, s);
    var fractional, outside, matched, tied, distances, sources;
    fractional, fixes, outside, matched, tied, distances, sources := ReadTimes(Sort(order, IntLeq), byTime, s);
    if fractional {
      refusal := Some(NotOnAWholeSecond);
      return;
    }
    counts := Stats(|g.rows|, repeated, outside, matched, tied, distances, sources);
  }

  ghost predicate NoneRefused(groups: seq<Group>, s: Session, n: nat)
    requires n <= |groups|
  {
    n == 0 || (NoneRefused(groups, s, n - 1) && RefusalOf(groups[n - 1], s) == None)
  }

  lemma {:induction false} NoneRefusedMeans(groups: seq<Group>, s: Session, n: nat)
    requires n <= |groups|
    ensures NoneRefused(groups, s, n) <==> forall i :: 0 <= i < n ==> RefusalOf(groups[i], s) == None
  {
    if n > 0 {
      NoneRefusedMeans(groups, s, n - 1);
    }
  }

  /** The first refused vehicle decides the reason. */
  ghost predicate FirstRefusal(groups: seq<Group>, s: Session, k: nat, reason: Refusal) {
    k < |groups| && RefusalOf(groups[k], s) == Some(reason) && NoneRefused(groups, s, k)
  }

  // ----- what the session reports -----

  datatype Report = Report(rows: nat, repeated: nat, outOfWindow: nat, inWindow: nat, vehicles: nat, matched: nat,
    matchedShare: Option<real>, wellMatched: nat, tied: nat, sources: multiset<string>, median: Percentile.Result,
    ninetieth: Percentile.Result, largest: Option<real>)

  datatype Result = Matched(vehicles: map<string, seq<Fix>>, report: Report) | Refused(reason: Refusal)

  predicate WellMatched(fixes: seq<Fix>) {
    fixes != [] && CountMatched(fixes) as real / |fixes| as real >= 0.8
  }

  /** At least four in five of the vehicle's fixes have a candidate. */
  lemma WellMatchedMeans(fixes: seq<Fix>)
    ensures WellMatched(fixes) <==> fixes != [] && 5 * |Positions(fixes, HasCandidate())| >= 4 * |fixes|
  {
    FixCounts(fixes, 0.0, "");
    if fixes != [] { ShareAtLeast(CountMatched(fixes) as real, |fixes| as real); }
  }

  lemma ShareAtLeast(part: real, whole: real)
    requires whole > 0.0
    ensures part / whole >= 0.8 <==> part >= 0.8 * whole
  {
    var q := part / whole;
    QuotientTimes(part, whole);
    assert Times(0.8, whole) == 0.8 * whole;
    if q > 0.8 { TimesStrict(q, 0.8, whole); }
    if q < 0.8 { TimesStrict(0.8, q, whole); }
  }

  ghost predicate IsLargest(x: Option<real>, values: seq<real>) {
    if x.None? then values == [] else x.value in values && forall v :: v in values ==> v <= x.value
  }

  ghost predicate Reports(r: Report, stats: Stats, fixes: nat, vehicles: map<string, seq<Fix>>) {
    && r.rows == stats.rows && r.repeated == stats.repeated && r.outOfWindow == stats.outOfWindow
    && r.inWindow == fixes && r.vehicles == |vehicles| && r.matched == stats.matched && r.tied == stats.tied
    && r.matchedShare == (if fixes > 0 then Some(stats.matched as real / fixes as real) else None)
    && r.wellMatched == |set k | k in vehicles && WellMatched(vehicles[k])|
    && r.sources == stats.sources
    && r.median == Percentile.Percentile(Sort(stats.distances, RealLeq), 0.5)
    && r.ninetieth == Percentile.Percentile(Sort(stats.distances, RealLeq), 0.9)
    && IsLargest(r.largest, stats.distances)
  }

  ghost predicate MatchedPrefix(groups: seq<Group>, s: Session, n: nat, vehicles: map<string, seq<Fix>>, stats: Stats)
    requires n <= |groups|
  {
    NoneRefused(groups, s, n) && stats == SessionStats(groups[..n], s) && HoldsVehicles(vehicles, groups[..n], s)
  }

  lemma PrefixNext(groups: seq<Group>, s: Session, n: nat, vehicles: map<string, seq<Fix>>, stats: Stats)
    requires n < |groups| && DistinctKeys(groups) && MatchedPrefix(groups, s, n, vehicles, stats)
    requires RefusalOf(groups[n], s) == None
    ensures var g, fixes := groups[n], VehicleFixes(groups[n].rows, s);
      MatchedPrefix(groups, s, n + 1, if fixes != [] then vehicles[g.key := fixes] else vehicles,
        Plus(stats, VehicleStats(g, s)))
  {
    TakeNext(groups, n);
    NextVehicle(vehicles, groups[..n], groups[n], s);
    NextStats(groups[..n], groups[n], s);
  }

  lemma WholePrefix(groups: seq<Group>, s: Session, vehicles: map<string, seq<Fix>>, stats: Stats)
    requires MatchedPrefix(groups, s, |groups|, vehicles, stats)
    ensures stats == SessionStats(groups, s) && HoldsVehicles(vehicles, groups, s)
    ensures forall g :: g in groups ==> RefusalOf(g, s) == None
  {
    NoneRefusedMeans(groups, s, |groups|);
    TakeAll(groups);
  }

  /** The loop over all vehicles, up to the first refusal. */
  method MatchVehicles(groups: seq<Group>, s: Session)
      returns (refusal: Option<Refusal>, vehicles: map<string, seq<Fix>>, stats: Stats)
    requires DistinctKeys(groups)
    ensures refusal.Some? <==> exists g :: g in groups && RefusalOf(g, s).Some?
    ensures refusal.Some? ==> exists k :: FirstRefusal(groups, s, k, refusal.value)
    ensures refusal.None? ==> stats == SessionStats(groups, s) && HoldsVehicles(vehicles, groups, s)
  {
    refusal, vehicles, stats := None, map[], NO_STATS;
    for n := 0 to |groups|
      invariant refusal.None? && MatchedPrefix(groups, s, n, vehicles, stats)
    {
      var g := groups[n];
      var fixes, counts;
      refusal, fixes, counts := MatchVehicle(g, s);
      if refusal.Some? {
        assert g in groups && FirstRefusal(groups, s, n, refusal.value);
        return;
      }
      PrefixNext(groups, s, n, vehicles, stats);
      stats := Plus(stats, counts);
      if fixes != [] {
        vehicles := vehicles[g.key := fixes];
      }
    }
    WholePrefix(groups, s, vehicles, stats);
  }

  /** `sum(len(fixes) for fixes in vehicles.values())` */
  method CountFixes(vehicles: map<string, seq<Fix>>, ghost groups: seq<Group>, ghost s: Session) returns (count: nat)
    requires DistinctKeys(groups) && HoldsVehicles(vehicles, groups, s)
    ensures count == SessionFixes(groups, s)
  {
    count := 0;
    var left := vehicles.Keys;
    while left != {}
      invariant left <= vehicles.Keys
      invariant count + FixesIn(groups, s, left) == FixesIn(groups, s, vehicles.Keys)
      decreases left
    {
      var k :| k in left;
      count := count + |vehicles[k]|;
      FixesInTake(groups, s, left, k, vehicles);
      left := left - {k};
    }
    FixesInNone(groups, s);
    FixesInAll(groups, s, vehicles.Keys);
  }

  method MatchSession(groups: seq<Group>, s: Session) returns (result: Result)
    requires DistinctKeys(groups)
    ensures result.Refused? <==> exists g :: g in groups && RefusalOf(g, s).Some?
    ensures result.Refused? ==> exists k :: FirstRefusal(groups, s, k, result.reason)
    ensures result.Matched? ==> HoldsVehicles(result.vehicles, groups, s)
    ensures result.Matched? ==>
      Reports(result.report, SessionStats(groups, s), SessionFixes(groups, s), result.vehicles)
  {
    var refusal, vehicles, stats := MatchVehicles(groups, s);
    if refusal.Some? {
      return Refused(refusal.value);
    }
    var fixes := CountFixes(vehicles, groups, s);
    ReportIsRight(stats, fixes, vehicles);
    return Matched(vehicles, ReportOf(stats, fixes, vehicles));
  }

  /** The dictionary that `_match_session` returns beside the vehicles. */
  function ReportOf(stats: Stats, fixes: nat, vehicles: map<string, seq<Fix>>): Report {
    var ordered := Sort(stats.distances, RealLeq);
    Report(stats.rows, stats.repeated, stats.outOfWindow, fixes, |vehicles|, stats.matched,
      if fixes > 0 then Some(stats.matched as real / fixes as real) else None,
      |set k | k in vehicles && WellMatched(vehicles[k])|, stats.tied, stats.sources,
      Percentile.Percentile(ordered, 0.5), Percentile.Percentile(ordered, 0.9),
      if ordered == [] then None else Some(ordered[|ordered| - 1]))
  }

  lemma ReportIsRight(stats: Stats, fixes: nat, vehicles: map<string, seq<Fix>>)
    ensures Reports(ReportOf(stats, fixes, vehicles), stats, fixes, vehicles)
  {
    LastIsLargest(stats.distances);
  }

  lemma LastIsLargest(values: seq<real>)
    ensures var ordered := Sort(values, RealLeq);
      IsLargest(if ordered == [] then None else Some(ordered[|ordered| - 1]), values)
  {
    var ordered := Sort(values, RealLeq);
    SortElements(values, RealLeq);
    SortSorted(values, RealLeq);
    forall v | v in values ensures v in ordered && v <= ordered[|ordered| - 1] {
      assert v in multiset(ordered);
      BelowTheLast(ordered, v);
    }
    if ordered != [] {
      assert ordered[|ordered| - 1] in multiset(values);
    }
  }

  lemma BelowTheLast(ordered: seq<real>, v: real)
    requires Sorted(ordered, RealLeq) && v in ordered
    ensures v <= ordered[|ordered| - 1]
  {
    var i :| 0 <= i < |ordered| && ordered[i] == v;
    assert i < |ordered| - 1 ==> RealLeq(v, ordered[|ordered| - 1]);
  }

  lemma {:induction false} FixesInNone(groups: seq<Group>, s: Session)
    ensures FixesIn(groups, s, {}) == 0
  {
    if groups != [] {
      FixesInNone(groups[..|groups| - 1], s);
    }
  }

  lemma {:induction false} FixesInAll(groups: seq<Group>, s: Session, keys: set<string>)
    requires forall g :: g in groups && VehicleFixes(g.rows, s) != [] ==> g.key in keys
    ensures FixesIn(groups, s, keys) == SessionFixes(groups, s)
  {
    if groups != [] {
      assert groups[|groups| - 1] in groups;
      assert forall g :: g in groups[..|groups| - 1] ==> g in groups;
      FixesInAll(groups[..|groups| - 1], s, keys);
    }
  }

  lemma {:induction false} FixesInWithout(groups: seq<Group>, s: Session, keys: set<string>, k: string)
    requires forall i :: 0 <= i < |groups| ==> groups[i].key != k
    ensures FixesIn(groups, s, keys - {k}) == FixesIn(groups, s, keys)
  {
    if groups != [] {
      FixesInWithout(groups[..|groups| - 1], s, keys, k);
    }
  }

  /** Keys are distinct, so one key stands for one vehicle's fixes. */
  lemma FixesInTake(groups: seq<Group>, s: Session, keys: set<string>, k: string, vehicles: map<string, seq<Fix>>)
    requires DistinctKeys(groups) && HoldsVehicles(vehicles, groups, s) && k in keys && k in vehicles
    ensures FixesIn(groups, s, keys) == FixesIn(groups, s, keys - {k}) + |vehicles[k]|
  {
    var g :| g in groups && g.key == k && VehicleFixes(g.rows, s) != [];
    var i :| 0 <= i < |groups| && groups[i] == g;
    FixesInSplit(groups, s, keys, i);
  }

  lemma {:induction false} FixesInSplit(groups: seq<Group>, s: Session, keys: set<string>, i: nat)
    requires DistinctKeys(groups) && i < |groups| && groups[i].key in keys
    ensures FixesIn(groups, s, keys) == FixesIn(groups, s, keys - {groups[i].key}) + |VehicleFixes(groups[i].rows, s)|
    decreases |groups|
  {
    var init := groups[..|groups| - 1];
    if i < |init| {
      FixesInSplit(init, s, keys, i);
    } else {
      FixesInWithout(init, s, keys, groups[i].key);
    }
  }

  lemma WholeUnlessFractional(rows: seq<Observation>, s: Session)
    ensures WholeSeconds(SortedTimes(rows), s) <==> !Fractional(rows, s)
  {
    SortedTimesFacts(rows);
    TimesAreTheRowTimes(rows);
    forall r | r in rows ensures r.time in SortedTimes(rows) {
      assert HasTime(rows, r.time);
    }
    forall t | t in SortedTimes(rows) ensures HasTime(rows, t) {
      assert t in TimesOf(rows);
    }
  }

  lemma NextStats(groups: seq<Group>, g: Group, s: Session)
    ensures SessionStats(groups + [g], s) == Plus(SessionStats(groups, s), VehicleStats(g, s))
  {
    assert (groups + [g])[..|groups|] == groups;
  }

  lemma NextVehicle(vehicles: map<string, seq<Fix>>, groups: seq<Group>, g: Group, s: Session)
    requires HoldsVehicles(vehicles, groups, s)
    requires forall i :: 0 <= i < |groups| ==> groups[i].key != g.key
    ensures var fixes := VehicleFixes(g.rows, s);
      HoldsVehicles(if fixes != [] then vehicles[g.key := fixes] else vehicles, groups + [g], s)
  {
    var fixes, longer := VehicleFixes(g.rows, s), groups + [g];
    var after := if fixes != [] then vehicles[g.key := fixes] else vehicles;
    forall h | h in longer && VehicleFixes(h.rows, s) != []
      ensures h.key in after && after[h.key] == VehicleFixes(h.rows, s)
    {
      if h in groups { KeyDiffers(groups, h, g.key); }
    }
    forall k | k in after ensures exists h :: h in longer && h.key == k && VehicleFixes(h.rows, s) != [] {
      if k in vehicles {
        var h :| h in groups && h.key == k && VehicleFixes(h.rows, s) != [];
        assert h in longer;
      } else {
        assert g in longer;
      }
    }
  }

  lemma KeyDiffers(groups: seq<Group>, h: Group, key: string)
    requires h in groups && forall i :: 0 <= i < |groups| ==> groups[i].key != key
    ensures h.key != key
  {
  }

  /** Over an accepted session, extracted rows are repeated rows plus distinct fixes outside the
      window plus distinct fixes inside it, and every match has one distance and one source. */
  lemma {:induction false} RowsAreConserved(groups: seq<Group>, s: Session)
    requires forall g :: g in groups ==> RefusalOf(g, s) == None
    ensures var stats := SessionStats(groups, s);
      && stats.rows == stats.repeated + stats.outOfWindow + SessionFixes(groups, s)
      && |stats.distances| == |stats.sources| == stats.matched <= SessionFixes(groups, s)
    decreases |groups|
  {
    if groups != [] {
      var init, g := groups[..|groups| - 1], groups[|groups| - 1];
      assert g in groups;
      VehicleAccounting(g.rows, s);
      OneOfEachPerMatch(VehicleFixes(g.rows, s));
      RowsAreConserved(init, s);
    }
  }

  lemma {:induction false} SomeVehicleIffSomeFix(groups: seq<Group>, s: Session)
    ensures SessionFixes(groups, s) > 0 <==> exists g :: g in groups && VehicleFixes(g.rows, s) != []
  {
    if groups != [] {
      var init, last := groups[..|groups| - 1], groups[|groups| - 1];
      assert groups == init + [last];
      SomeVehicleIffSomeFix(init, s);
    }
  }

  /** The report of a matched session is coherent: rows add up, the share is one of [0, 1] and is
      missing iff no vehicle has a fix, and a distance summary is missing iff nothing matched. */
  lemma ReportIsCoherent(r: Report, groups: seq<Group>, s: Session, vehicles: map<string, seq<Fix>>)
    requires forall g :: g in groups ==> RefusalOf(g, s) == None
    requires HoldsVehicles(vehicles, groups, s)
    requires Reports(r, SessionStats(groups, s), SessionFixes(groups, s), vehicles)
    ensures r.rows == r.repeated + r.outOfWindow + r.inWindow
    ensures |r.sources| == r.matched <= r.inWindow
    ensures r.matchedShare.Some? ==> 0.0 <= r.matchedShare.value <= 1.0
    ensures r.matchedShare.None? <==> r.vehicles == 0
    ensures r.median.NoValue? <==> r.matched == 0
    ensures r.matched > 0 ==> r.median.Value? && r.ninetieth.Value? && r.largest.Some?
    ensures r.matched > 0 ==> r.median.value <= r.ninetieth.value <= r.largest.value
  {
    RowsAreConserved(groups, s);
    SomeVehicleIffSomeFix(groups, s);
    if r.inWindow > 0 { ShareInRange(r.matched, r.inWindow); }
    assert r.vehicles == 0 <==> vehicles == map[];
    OrderedSummary(SessionStats(groups, s).distances, r);
  }

  lemma ShareInRange(part: nat, whole: nat)
    requires part <= whole && whole > 0
    ensures 0.0 <= part as real / whole as real <= 1.0
  {
  }

  lemma OrderedSummary(distances: seq<real>, r: Report)
    requires r.median == Percentile.Percentile(Sort(distances, RealLeq), 0.5)
    requires r.ninetieth == Percentile.Percentile(Sort(distances, RealLeq), 0.9)
    requires IsLargest(r.largest, distances)
    ensures r.median.NoValue? <==> distances == []
    ensures distances != [] ==> r.median.Value? && r.ninetieth.Value? && r.largest.Some?
    ensures distances != [] ==> r.median.value <= r.ninetieth.value <= r.largest.value
  {
    var ordered := Sort(distances, RealLeq);
    SortElements(distances, RealLeq);
    SortSorted(distances, RealLeq);
    assert |ordered| == |multiset(ordered)| == |multiset(distances)| == |distances|;
    if distances != [] {
      Percentile.PercentileIsMonotone(ordered, 0.5, 0.9);
      Percentile.PercentileWithinData(ordered, 0.9);
      assert ordered[|ordered| - 1] in multiset(ordered);
      assert ordered[|ordered| - 1] in distances;
    }
  }

  // ----- what the session's figures add up -----

  ghost function SumOver(groups: seq<Group>, f: Group -> int): int {
    if groups == [] then 0 else SumOver(groups[..|groups| - 1], f) + f(groups[|groups| - 1])
  }

  ghost function RowsOf(): Group -> int { (g: Group) => |g.rows| }
  ghost function RepeatsOf(): Group -> int { (g: Group) => RepeatedIn(g.rows) }
  ghost function OutsideOf(s: Session): Group -> int { (g: Group) => OutsideCount(g.rows, s) }
  ghost function FixesOf(s: Session): Group -> int { (g: Group) => |VehicleFixes(g.rows, s)| }
  ghost function MatchesOf(s: Session): Group -> int { (g: Group) => CountMatched(VehicleFixes(g.rows, s)) }
  ghost function TiesOf(s: Session): Group -> int { (g: Group) => TiedCount(g.rows, s) }

  /** Every reported count is the sum of the vehicles' counts. */
  lemma {:induction false} SessionCounts(groups: seq<Group>, s: Session)
    ensures var stats := SessionStats(groups, s);
      && stats.rows == SumOver(groups, RowsOf()) && stats.repeated == SumOver(groups, RepeatsOf())
      && stats.outOfWindow == SumOver(groups, OutsideOf(s)) && stats.matched == SumOver(groups, MatchesOf(s))
      && stats.tied == SumOver(groups, TiesOf(s)) && SessionFixes(groups, s) == SumOver(groups, FixesOf(s))
  {
    if groups != [] {
      SessionCounts(groups[..|groups| - 1], s);
    }
  }

  ghost function DistanceCount(s: Session, d: real): Group -> int {
    (g: Group) => |Positions(VehicleFixes(g.rows, s), AtDistance(d))|
  }

  ghost function SourceCount(s: Session, source: string): Group -> int {
    (g: Group) => |Positions(VehicleFixes(g.rows, s), FromSource(source))|
  }

  /** And every distance and source occurs as often as some fix of some vehicle selected it. */
  lemma {:induction false} SessionSelections(groups: seq<Group>, s: Session, d: real, source: string)
    ensures multiset(SessionStats(groups, s).distances)[d] == SumOver(groups, DistanceCount(s, d))
    ensures SessionStats(groups, s).sources[source] == SumOver(groups, SourceCount(s, source))
  {
    if groups != [] {
      var init, g := groups[..|groups| - 1], groups[|groups| - 1];
      SessionSelections(init, s, d, source);
      FixCounts(VehicleFixes(g.rows, s), d, source);
    }
  }
}
