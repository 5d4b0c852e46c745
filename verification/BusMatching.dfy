/** Deduplication and window accounting of bus fixes (`_match_session`).

    A time is a whole number of microseconds since the epoch, the resolution of the original
    timestamps; projection and candidate selection are unknown functions of the session. */
module BusMatching {
  import opened Counting
  import opened Options
  import opened Sorting

  const MICROS := 1_000_000

  datatype Position = Position(longitude: real, latitude: real)
  datatype Point = Point(x: real, y: real)
  datatype Candidate = Candidate(edgeId: string, snapped: Point, distance: real, source: string)
  datatype Selection = Selection(candidate: Option<Candidate>, exactTie: bool)
  datatype Observation = Observation(time: int, position: Position)
  datatype Fix = Fix(timestampS: int, projected: Point, candidate: Option<Candidate>)
  datatype Session = Session(start: int, end: int, project: Position -> Point, select: Point -> Selection)
  datatype Group = Group(key: string, rows: seq<Observation>)

  datatype Refusal = ConflictingPositions | NotOnAWholeSecond
  /** The running totals of the session; the dictionary of source counts is a multiset. */
  datatype Stats = Stats(rows: nat, repeated: nat, outOfWindow: nat, matched: nat, tied: nat, distances: seq<real>,
    sources: multiset<string>)

  // ----- one vehicle, said of its rows -----

  ghost predicate Conflicting(rows: seq<Observation>) {
    exists a, b :: a in rows && b in rows && a.time == b.time && a.position != b.position
  }

  predicate InWindow(t: int, s: Session) { s.start <= t <= s.end }

  ghost predicate Fractional(rows: seq<Observation>, s: Session) {
    exists a :: a in rows && InWindow(a.time, s) && a.time % MICROS != 0
  }

  /** The keys of `by_time` in the order of their first row. */
  function TimesOf(rows: seq<Observation>): seq<int> {
    if rows == [] then []
    else if rows[|rows| - 1].time in TimesOf(rows[..|rows| - 1]) then TimesOf(rows[..|rows| - 1])
    else TimesOf(rows[..|rows| - 1]) + [rows[|rows| - 1].time]
  }

  function ByTime(rows: seq<Observation>): map<int, Position> {
    if rows == [] then map[]
    else ByTime(rows[..|rows| - 1])[rows[|rows| - 1].time := rows[|rows| - 1].position]
  }

  function RepeatedIn(rows: seq<Observation>): nat {
    if rows == [] then 0
    else RepeatedIn(rows[..|rows| - 1]) + (if HasTime(rows[..|rows| - 1], rows[|rows| - 1].time) then 1 else 0)
  }

  predicate HasTime(rows: seq<Observation>, t: int) {
    exists r :: r in rows && r.time == t
  }

  function FixOf(t: int, position: Position, s: Session): Fix {
    var point := s.project(position);
    Fix(t / MICROS, point, s.select(point).candidate)
  }

  function FixesAt(times: seq<int>, m: map<int, Position>, s: Session): seq<Fix>
    requires forall t :: t in times ==> t in m
  {
    if times == [] then []
    else
      FixesAt(times[..|times| - 1], m, s) +
      (if InWindow(times[|times| - 1], s) then [FixOf(times[|times| - 1], m[times[|times| - 1]], s)] else [])
  }

  function CountTimes(times: seq<int>, p: int -> bool): nat {
    if times == [] then 0
    else CountTimes(times[..|times| - 1], p) + (if p(times[|times| - 1]) then 1 else 0)
  }

  function Outside(s: Session): int -> bool { t => !InWindow(t, s) }

  function Tied(m: map<int, Position>, s: Session): int -> bool {
    t => InWindow(t, s) && t in m && s.select(s.project(m[t])).exactTie
  }

  function CountMatched(fixes: seq<Fix>): nat {
    if fixes == [] then 0
    else CountMatched(fixes[..|fixes| - 1]) + (if fixes[|fixes| - 1].candidate.Some? then 1 else 0)
  }

  /** The distances of the matched fixes, in order. */
  function DistancesOf(fixes: seq<Fix>): seq<real> {
    if fixes == [] then []
    else
      var c := fixes[|fixes| - 1].candidate;
      DistancesOf(fixes[..|fixes| - 1]) + (if c.Some? then [c.value.distance] else [])
  }

  /** How often each kind of geometry was selected. */
  function SourcesOf(fixes: seq<Fix>): multiset<string> {
    if fixes == [] then multiset{}
    else
      var c := fixes[|fixes| - 1].candidate;
      SourcesOf(fixes[..|fixes| - 1]) + (if c.Some? then multiset{c.value.source} else multiset{})
  }

  lemma FixesNext(fixes: seq<Fix>, x: Fix)
    ensures CountMatched(fixes + [x]) == CountMatched(fixes) + (if x.candidate.Some? then 1 else 0)
    ensures DistancesOf(fixes + [x]) == DistancesOf(fixes) +
      (if x.candidate.Some? then [x.candidate.value.distance] else [])
    ensures SourcesOf(fixes + [x])
      == SourcesOf(fixes) + (if x.candidate.Some? then multiset{x.candidate.value.source} else multiset{})
  {
    assert (fixes + [x])[..|fixes|] == fixes;
  }

  lemma {:induction false} OneOfEachPerMatch(fixes: seq<Fix>)
    ensures |DistancesOf(fixes)| == |SourcesOf(fixes)| == CountMatched(fixes) <= |fixes|
  {
    if fixes != [] {
      OneOfEachPerMatch(fixes[..|fixes| - 1]);
    }
  }

  function SortedTimes(rows: seq<Observation>): seq<int> { Sort(TimesOf(rows), IntLeq) }

  lemma {:induction false} TimesAreTheRowTimes(rows: seq<Observation>)
    ensures forall t :: t in TimesOf(rows) <==> t in ByTime(rows)
    ensures forall t :: t in TimesOf(rows) <==> HasTime(rows, t)
    ensures Distinct(TimesOf(rows))
    ensures |rows| == RepeatedIn(rows) + |TimesOf(rows)|
  {
    if rows != [] {
      var init, last := rows[..|rows| - 1], rows[|rows| - 1];
      TimesAreTheRowTimes(init);
      assert rows == init + [last];
      forall t ensures HasTime(rows, t) <==> t == last.time || HasTime(init, t) {
        if t == last.time { assert last in rows; }
        if r :| r in init && r.time == t { assert r in rows; }
      }
    }
  }

  lemma SortedTimesFacts(rows: seq<Observation>)
    ensures forall t :: t in SortedTimes(rows) <==> t in ByTime(rows)
    ensures forall i, j :: 0 <= i < j < |SortedTimes(rows)| ==> SortedTimes(rows)[i] < SortedTimes(rows)[j]
    ensures |SortedTimes(rows)| == |TimesOf(rows)|
  {
    TimesAreTheRowTimes(rows);
    var a, b := TimesOf(rows), SortedTimes(rows);
    SortElements(a, IntLeq);
    SortSorted(a, IntLeq);
    assert forall t :: t in b <==> t in multiset(b);
    SortDistinct(a, IntLeq);
    forall i, j | 0 <= i < j < |b| ensures b[i] < b[j] {
      assert IntLeq(b[i], b[j]) && b[i] != b[j];
    }
  }

  lemma {:induction false} ByTimeAgrees(rows: seq<Observation>)
    requires !Conflicting(rows)
    ensures forall r :: r in rows ==> r.time in ByTime(rows) && ByTime(rows)[r.time] == r.position
  {
    if rows != [] {
      var init, last := rows[..|rows| - 1], rows[|rows| - 1];
      assert rows == init + [last];
      assert forall r :: r in init ==> r in rows;
      assert last in rows;
      ByTimeAgrees(init);
    }
  }

  ghost function VehicleFixes(rows: seq<Observation>, s: Session): seq<Fix> {
    SortedTimesFacts(rows);
    FixesAt(SortedTimes(rows), ByTime(rows), s)
  }

  lemma SameTimes(a: seq<Observation>, b: seq<Observation>)
    requires forall r :: r in a <==> r in b
    ensures SortedTimes(a) == SortedTimes(b)
  {
    TimesAreTheRowTimes(a);
    TimesAreTheRowTimes(b);
    var ta, tb := TimesOf(a), TimesOf(b);
    forall x ensures multiset(ta)[x] == multiset(tb)[x] {
      OnceEach(ta, x);
      OnceEach(tb, x);
      assert HasTime(a, x) <==> HasTime(b, x);
      assert x in multiset(ta) <==> x in ta;
      assert x in multiset(tb) <==> x in tb;
    }
    assert multiset(ta) == multiset(tb);
    SortIgnoresOrder(ta, tb, IntLeq);
  }

  lemma SameMap(a: seq<Observation>, b: seq<Observation>)
    requires (forall r :: r in a <==> r in b) && !Conflicting(a) && !Conflicting(b)
    ensures ByTime(a) == ByTime(b)
  {
    ByTimeAgrees(a);
    ByTimeAgrees(b);
    TimesAreTheRowTimes(a);
    TimesAreTheRowTimes(b);
    forall t ensures t in ByTime(a) <==> t in ByTime(b) {
      assert t in TimesOf(a) <==> HasTime(a, t);
      assert t in TimesOf(b) <==> HasTime(b, t);
    }
    forall t | t in ByTime(a) && t in ByTime(b) ensures ByTime(a)[t] == ByTime(b)[t] {
      assert t in TimesOf(a);
      var r :| r in a && r.time == t;
      assert r in b;
    }
  }

  /** Rows in any order give the same fixes, and the same refusals. */
  lemma RowOrderDoesNotMatter(a: seq<Observation>, b: seq<Observation>, s: Session)
    requires multiset(a) == multiset(b)
    ensures Conflicting(a) <==> Conflicting(b)
    ensures Fractional(a, s) <==> Fractional(b, s)
    ensures !Conflicting(a) ==> VehicleFixes(a, s) == VehicleFixes(b, s)
  {
    forall r ensures r in a <==> r in b {
      assert r in multiset(a) <==> r in multiset(b);
    }
    if !Conflicting(a) {
      SameTimes(a, b);
      SameMap(a, b);
    }
  }

  ghost predicate FixAmong(x: Fix, times: seq<int>, m: map<int, Position>, s: Session)
    requires forall t :: t in times ==> t in m
  {
    exists t :: t in times && InWindow(t, s) && x == FixOf(t, m[t], s)
  }

  lemma {:induction false} FixesAtMembers(times: seq<int>, m: map<int, Position>, s: Session)
    requires forall t :: t in times ==> t in m
    ensures forall x :: x in FixesAt(times, m, s) <==> FixAmong(x, times, m, s)
    ensures |FixesAt(times, m, s)| + CountTimes(times, Outside(s)) == |times|
  {
    if times != [] {
      var init, t := times[..|times| - 1], times[|times| - 1];
      assert times == init + [t];
      FixesAtMembers(init, m, s);
      forall x
        ensures FixAmong(x, times, m, s) <==> FixAmong(x, init, m, s) || (InWindow(t, s) && x == FixOf(t, m[t], s))
      {
        if FixAmong(x, init, m, s) {
          var u :| u in init && InWindow(u, s) && x == FixOf(u, m[u], s);
          assert u in times;
        }
        assert t in times;
      }
    }
  }

  ghost predicate Increasing(f: seq<Fix>) {
    forall i, j :: 0 <= i < j < |f| ==> f[i].timestampS < f[j].timestampS
  }

  ghost predicate AllBefore(f: seq<Fix>, t: int) {
    forall i :: 0 <= i < |f| ==> f[i].timestampS * MICROS < t
  }

  ghost predicate StrictlySorted(times: seq<int>) {
    forall i, j :: 0 <= i < j < |times| ==> times[i] < times[j]
  }

  ghost predicate WholeSeconds(times: seq<int>, s: Session) {
    forall t :: t in times && InWindow(t, s) ==> t % MICROS == 0
  }

  lemma {:induction false} FixesAtIncrease(times: seq<int>, m: map<int, Position>, s: Session, bound: int)
    requires forall t :: t in times ==> t in m
    requires StrictlySorted(times) && (times != [] ==> times[|times| - 1] < bound) && WholeSeconds(times, s)
    ensures Increasing(FixesAt(times, m, s)) && AllBefore(FixesAt(times, m, s), bound)
  {
    if times != [] {
      PrefixOfTimes(times, s);
      var init, t := times[..|times| - 1], times[|times| - 1];
      FixesAtIncrease(init, m, s, t);
      OneMoreTime(FixesAt(init, m, s), t, m[t], s, bound);
    }
  }

  lemma PrefixOfTimes(times: seq<int>, s: Session)
    requires times != [] && StrictlySorted(times) && WholeSeconds(times, s)
    ensures var init, t := times[..|times| - 1], times[|times| - 1];
      && StrictlySorted(init) && WholeSeconds(init, s) && (init != [] ==> init[|init| - 1] < t)
      && (InWindow(t, s) ==> t % MICROS == 0)
  {
  }

  lemma OneMoreTime(f: seq<Fix>, t: int, position: Position, s: Session, bound: int)
    requires Increasing(f) && AllBefore(f, t) && t < bound && (InWindow(t, s) ==> t % MICROS == 0)
    ensures var g := f + (if InWindow(t, s) then [FixOf(t, position, s)] else []); Increasing(g) && AllBefore(g, bound)
  {
    if InWindow(t, s) {
      LaterFix(f, FixOf(t, position, s), t, bound);
    } else {
      assert f + [] == f;
    }
  }

  lemma LaterFix(f: seq<Fix>, x: Fix, t: int, bound: int)
    requires Increasing(f) && AllBefore(f, t) && t < bound && t % MICROS == 0 && x.timestampS == t / MICROS
    ensures Increasing(f + [x]) && AllBefore(f + [x], bound)
  {
    assert x.timestampS * MICROS == t;
  }

  /** The fix stands for this row: its whole second, its projected position, its candidate. */
  ghost predicate IsFixOf(x: Fix, r: Observation, s: Session) {
    && s.start <= r.time <= s.end && x.timestampS * 1_000_000 == r.time
    && x.projected == s.project(r.position) && x.candidate == s.select(x.projected).candidate
  }

  ghost predicate FixOfSomeRow(x: Fix, rows: seq<Observation>, s: Session) {
    exists r :: r in rows && IsFixOf(x, r, s)
  }

  lemma FixOfIsFixOf(x: Fix, r: Observation, s: Session)
    requires InWindow(r.time, s) ==> r.time % MICROS == 0
    ensures InWindow(r.time, s) && x == FixOf(r.time, r.position, s) <==> IsFixOf(x, r, s)
  {
    if InWindow(r.time, s) { assert r.time == (r.time / MICROS) * MICROS; }
  }

  lemma FixesAreOfRows(rows: seq<Observation>, s: Session, times: seq<int>, m: map<int, Position>, x: Fix)
    requires !Conflicting(rows) && !Fractional(rows, s)
    requires forall t :: t in times ==> t in m && HasTime(rows, t)
    requires forall r :: r in rows ==> r.time in times && m[r.time] == r.position
    ensures FixAmong(x, times, m, s) <==> FixOfSomeRow(x, rows, s)
  {
    if FixAmong(x, times, m, s) {
      var t :| t in times && InWindow(t, s) && x == FixOf(t, m[t], s);
      var r :| r in rows && r.time == t;
      FixOfIsFixOf(x, r, s);
    }
    if FixOfSomeRow(x, rows, s) {
      var r :| r in rows && IsFixOf(x, r, s);
      FixOfIsFixOf(x, r, s);
      assert r.time in times;
    }
  }

  /** A vehicle that is not refused yields exactly one fix per distinct in-window time, in
      strictly increasing seconds, and its rows are all accounted for. */
  lemma VehicleAccounting(rows: seq<Observation>, s: Session)
    requires !Conflicting(rows) && !Fractional(rows, s)
    ensures var f := VehicleFixes(rows, s);
      && Increasing(f)
      && (forall x :: x in f <==> FixOfSomeRow(x, rows, s))
      && |rows| == RepeatedIn(rows) + CountTimes(SortedTimes(rows), Outside(s)) + |f|
  {
    SortedTimesFacts(rows);
    TimesAreTheRowTimes(rows);
    ByTimeAgrees(rows);
    var times, m := SortedTimes(rows), ByTime(rows);
    forall t | t in times ensures HasTime(rows, t) {
      assert t in ByTime(rows) && t in TimesOf(rows);
    }
    FixesAtMembers(times, m, s);
    FixesAtIncrease(times, m, s, if times == [] then 0 else times[|times| - 1] + 1);
    forall x ensures FixAmong(x, times, m, s) <==> FixOfSomeRow(x, rows, s) {
      FixesAreOfRows(rows, s, times, m, x);
    }
  }

  // ----- what the counters count -----

  ghost function DistinctTimes(rows: seq<Observation>): set<int> { set r | r in rows :: r.time }

  ghost function Those<T>(all: set<T>, p: T -> bool): set<T> { set t | t in all && p(t) }

  ghost predicate SameMembers<T(!new)>(times: seq<T>, all: set<T>) { forall t :: t in times <==> t in all }

  lemma {:induction false} DistinctSize<T(!new)>(times: seq<T>, all: set<T>)
    requires Distinct(times) && SameMembers(times, all)
    ensures |times| == |all|
  {
    if times == [] {
      assert all == {};
    } else {
      var init, t := times[..|times| - 1], times[|times| - 1];
      assert times == init + [t] && t !in init;
      DistinctSize(init, all - {t});
    }
  }

  lemma ThoseNext<T>(all: set<T>, t: T, p: T -> bool)
    requires t in all
    ensures |Those(all, p)| == |Those(all - {t}, p)| + (if p(t) then 1 else 0)
  {
    assert Those(all, p) == Those(all - {t}, p) + (if p(t) then {t} else {});
  }

  lemma {:induction false} CountTimesIsSubset(times: seq<int>, all: set<int>, p: int -> bool)
    requires Distinct(times) && SameMembers(times, all)
    ensures CountTimes(times, p) == |Those(all, p)|
  {
    DistinctSize(times, all);
    if times == [] {
      assert Those(all, p) == {};
    } else {
      var init, t := times[..|times| - 1], times[|times| - 1];
      assert times == init + [t] && t !in init;
      CountTimesIsSubset(init, all - {t}, p);
      ThoseNext(all, t, p);
    }
  }

  lemma TimesOnce(rows: seq<Observation>)
    ensures Distinct(SortedTimes(rows)) && SameMembers(SortedTimes(rows), DistinctTimes(rows))
    ensures Distinct(TimesOf(rows)) && SameMembers(TimesOf(rows), DistinctTimes(rows))
  {
    TimesAreTheRowTimes(rows);
    SortedTimesFacts(rows);
    forall t ensures t in TimesOf(rows) <==> t in DistinctTimes(rows) {
      assert t in TimesOf(rows) <==> HasTime(rows, t);
    }
  }

  /** Repeated rows are those beyond one per distinct time; out-of-window and tied counts are
      numbers of distinct times. */
  lemma VehicleCounts(rows: seq<Observation>, s: Session)
    ensures RepeatedIn(rows) + |DistinctTimes(rows)| == |rows|
    ensures CountTimes(SortedTimes(rows), Outside(s)) == |Those(DistinctTimes(rows), Outside(s))|
    ensures CountTimes(SortedTimes(rows), Tied(ByTime(rows), s)) == |Those(DistinctTimes(rows), Tied(ByTime(rows), s))|
    ensures forall t :: Outside(s)(t) <==> t < s.start || t > s.end
  {
    TimesAreTheRowTimes(rows);
    TimesOnce(rows);
    DistinctSize(TimesOf(rows), DistinctTimes(rows));
    CountTimesIsSubset(SortedTimes(rows), DistinctTimes(rows), Outside(s));
    CountTimesIsSubset(SortedTimes(rows), DistinctTimes(rows), Tied(ByTime(rows), s));
  }

  /** A time is tied iff it lies in the window and the selection at its position is an exact tie. */
  lemma TiedMeans(rows: seq<Observation>, s: Session, r: Observation)
    requires !Conflicting(rows) && r in rows
    ensures Tied(ByTime(rows), s)(r.time) <==> s.start <= r.time <= s.end && s.select(s.project(r.position)).exactTie
  {
    ByTimeAgrees(rows);
  }

  function HasCandidate(): Fix -> bool { (x: Fix) => x.candidate.Some? }

  function AtDistance(d: real): Fix -> bool { (x: Fix) => x.candidate.Some? && x.candidate.value.distance == d }

  function FromSource(source: string): Fix -> bool {
    (x: Fix) => x.candidate.Some? && x.candidate.value.source == source
  }

  /** Matches, distances and sources are counted fix by fix. */
  lemma {:induction false} FixCounts(fixes: seq<Fix>, d: real, source: string)
    ensures CountMatched(fixes) == |Positions(fixes, HasCandidate())|
    ensures multiset(DistancesOf(fixes))[d] == |Positions(fixes, AtDistance(d))|
    ensures SourcesOf(fixes)[source] == |Positions(fixes, FromSource(source))|
  {
    if fixes == [] {
      assert Positions(fixes, HasCandidate()) == Positions(fixes, AtDistance(d)) == {};
      assert Positions(fixes, FromSource(source)) == {};
    } else {
      var init, x := fixes[..|fixes| - 1], fixes[|fixes| - 1];
      assert init + [x] == fixes;
      FixCounts(init, d, source);
      PositionsSnoc(init, x, HasCandidate());
      PositionsSnoc(init, x, AtDistance(d));
      PositionsSnoc(init, x, FromSource(source));
    }
  }
}
