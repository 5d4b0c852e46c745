/** The counters of the occupancy audit without their recursions: what each number counts, which
    rows are accepted and rejected, and in which order the spans of one key are compared. */
module OccupancyCounts {
  import opened Counting
  import opened Sorting
  import opened Occupancy

  // ----- which rows -----

  /** Rejections in their order: no second at all, a slot outside the window, a second outside it. */
  lemma FateMeans(r: Row, w: Window)
    ensures FateOf(r, w).InvalidSpan? <==> forall t :: !Covers(r, t, r.slot)
    ensures FateOf(r, w).SlotOutOfRange? <==> !FateOf(r, w).InvalidSpan? && !(0 <= r.slot < w.slots)
    ensures FateOf(r, w).Accepted? <==>
      (exists t :: Covers(r, t, r.slot)) && forall t, s :: Covers(r, t, s) ==> 0 <= t < w.seconds && 0 <= s < w.slots
  {
    if r.enter <= r.exit {
      assert Covers(r, r.enter, r.slot) && Covers(r, r.exit, r.slot);
    }
  }

  function HasFate(w: Window, fate: Fate): Row -> bool { r => FateOf(r, w) == fate }

  lemma {:induction false} CountFateCountsRows(rows: seq<Row>, w: Window, fate: Fate)
    ensures CountFate(rows, w, fate) == |Positions(rows, HasFate(w, fate))|
  {
    if rows != [] {
      var init, r := rows[..|rows| - 1], rows[|rows| - 1];
      CountFateCountsRows(init, w, fate);
      PositionsSnoc(init, r, HasFate(w, fate));
      assert init + [r] == rows;
    }
  }

  /** Accepted rows keep their multiplicities. */
  lemma {:induction false} AcceptedMultiplicity(rows: seq<Row>, w: Window, x: Row)
    ensures multiset(AcceptedRows(rows, w))[x] == if FateOf(x, w).Accepted? then multiset(rows)[x] else 0
  {
    if rows != [] {
      var init, r := rows[..|rows| - 1], rows[|rows| - 1];
      AcceptedMultiplicity(init, w, x);
      assert init + [r] == rows;
    }
  }

  // ----- which spans are compared, in which order -----

  lemma {:induction false} GroupMultiplicity<K>(acc: seq<Row>, key: Row -> K, k: K, x: Row)
    ensures multiset(Group(acc, key, k))[x] == if key(x) == k then multiset(acc)[x] else 0
  {
    if acc != [] {
      var init, r := acc[..|acc| - 1], acc[|acc| - 1];
      GroupMultiplicity(init, key, k, x);
      assert init + [r] == acc;
    }
  }

  /** The spans of one key as `list.sort` leaves them. */
  function SortedGroup<K(==)>(acc: seq<Row>, key: Row -> K, k: K, leq: (Row, Row) -> bool): seq<Row> {
    Sort(Group(acc, key, k), leq)
  }

  /** It holds every span of the key, as often as the table does, each before those above it. */
  lemma SortedGroupMeans<K>(acc: seq<Row>, key: Row -> K, k: K, leq: (Row, Row) -> bool)
    requires TotalPreorder(leq)
    ensures forall x :: multiset(SortedGroup(acc, key, k, leq))[x] == if key(x) == k then multiset(acc)[x] else 0
    ensures Sorted(SortedGroup(acc, key, k, leq), leq)
  {
    SortElements(Group(acc, key, k), leq);
    SortSorted(Group(acc, key, k), leq);
    forall x ensures multiset(SortedGroup(acc, key, k, leq))[x] == if key(x) == k then multiset(acc)[x] else 0 {
      GroupMultiplicity(acc, key, k, x);
    }
  }

  /** Python compares tuples at their first difference. */
  ghost predicate FirstDifferenceBelow(a: seq<int>, b: seq<int>) {
    exists k :: 0 <= k < |a| && k < |b| && a[k] < b[k] && forall j :: 0 <= j < k ==> a[j] == b[j]
  }

  lemma TwoFields(a: seq<int>, b: seq<int>)
    requires |a| == |b| >= 2
    ensures a[0] < b[0] ==> FirstDifferenceBelow(a, b)
    ensures a[0] == b[0] && a[1] < b[1] ==> FirstDifferenceBelow(a, b)
    ensures |a| == 2 && FirstDifferenceBelow(a, b) ==> a[0] < b[0] || (a[0] == b[0] && a[1] < b[1])
  {
  }

  /** Spans of a slot are ordered as tuples (enter, exit, vehicle). */
  lemma SlotOrderIsTupleOrder(a: Row, b: Row)
    ensures SlotOrder(a, b) <==>
      FirstDifferenceBelow([a.enter, a.exit], [b.enter, b.exit])
      || ([a.enter, a.exit] == [b.enter, b.exit] && StringLeq(a.vehicle, b.vehicle))
  {
    var x, y := [a.enter, a.exit], [b.enter, b.exit];
    TwoFields(x, y);
    assert x == y <==> x[0] == y[0] && x[1] == y[1];
  }

  /** Spans of a vehicle are ordered as tuples (enter, exit, slot). */
  lemma VehicleOrderIsTupleOrder(a: Row, b: Row)
    ensures VehicleOrder(a, b) <==>
      FirstDifferenceBelow([a.enter, a.exit, a.slot], [b.enter, b.exit, b.slot])
      || [a.enter, a.exit, a.slot] == [b.enter, b.exit, b.slot]
  {
    var x, y := [a.enter, a.exit, a.slot], [b.enter, b.exit, b.slot];
    TwoFields(x, y);
    assert x == y <==> x[0] == y[0] && x[1] == y[1] && x[2] == y[2];
    if x[0] == y[0] && x[1] == y[1] && x[2] < y[2] {
      assert FirstDifferenceBelow(x, y) by {
        assert forall j :: 0 <= j < 2 ==> x[j] == y[j];
      }
    }
  }

  // ----- how many overlaps -----

  ghost predicate OverlapAt(s: seq<Row>, i: int) { 1 <= i < |s| && s[i].enter <= s[i - 1].exit }

  /** The spans that start no later than the one before them ends. */
  ghost function OverlapsAt(s: seq<Row>): set<int> { set i | 0 <= i < |s| && OverlapAt(s, i) }

  lemma {:induction false} AdjacentSnoc(s: seq<Row>, x: Row)
    ensures AdjacentOverlaps(s + [x])
      == AdjacentOverlaps(s) + (if s != [] && x.enter <= s[|s| - 1].exit then 1 else 0)
  {
    if |s| >= 2 {
      assert (s + [x])[1..] == s[1..] + [x];
      AdjacentSnoc(s[1..], x);
    }
  }

  lemma OverlapAtSnoc(s: seq<Row>, x: Row, i: int)
    ensures OverlapAt(s + [x], i) <==>
      OverlapAt(s, i) || (i == |s| && s != [] && x.enter <= s[|s| - 1].exit)
  {
    var r := s + [x];
    if 1 <= i < |s| { assert r[i] == s[i] && r[i - 1] == s[i - 1]; }
    if 1 <= i == |s| { assert r[i] == x && r[i - 1] == s[i - 1]; }
  }

  lemma OverlapsAtSnoc(s: seq<Row>, x: Row)
    ensures |OverlapsAt(s + [x])| == |OverlapsAt(s)| + (if s != [] && x.enter <= s[|s| - 1].exit then 1 else 0)
  {
    var more := if s != [] && x.enter <= s[|s| - 1].exit then {|s|} else {};
    forall i ensures i in OverlapsAt(s + [x]) <==> i in OverlapsAt(s) + more {
      OverlapAtSnoc(s, x, i);
    }
    assert OverlapsAt(s + [x]) == OverlapsAt(s) + more;
  }

  /** Each overlap between neighbours is counted, and once. */
  lemma {:induction false} AdjacentOverlapsCountPositions(s: seq<Row>)
    ensures AdjacentOverlaps(s) == |OverlapsAt(s)|
  {
    if s != [] {
      var init, x := s[..|s| - 1], s[|s| - 1];
      AdjacentOverlapsCountPositions(init);
      AdjacentSnoc(init, x);
      OverlapsAtSnoc(init, x);
      assert init + [x] == s;
    }
  }

  ghost function OverlapsOf<K>(acc: seq<Row>, key: Row -> K, leq: (Row, Row) -> bool): K -> set<int> {
    k => OverlapsAt(SortedGroup(acc, key, k, leq))
  }

  lemma {:induction false} TotalOverlapsArePairs<K(!new)>(keys: set<K>, acc: seq<Row>, key: Row -> K,
    leq: (Row, Row) -> bool)
    ensures TotalOverlaps(keys, acc, key, leq) == |Pairs(keys, OverlapsOf(acc, key, leq))|
    decreases keys
  {
    if keys == {} {
      assert Pairs(keys, OverlapsOf(acc, key, leq)) == {};
    } else {
      var k :| k in keys;
      TotalOverlapsArePairs(keys - {k}, acc, key, leq);
      TotalOverlapsTake(keys, k, acc, key, leq);
      PairsTake(keys, k, OverlapsOf(acc, key, leq));
      AdjacentOverlapsCountPositions(SortedGroup(acc, key, k, leq));
    }
  }

  /** Over all keys of the accepted spans: the key with each position of its sorted spans at
      which the span starts no later than the previous one ends. */
  ghost function OverlapPairs<K(!new)>(acc: seq<Row>, key: Row -> K, leq: (Row, Row) -> bool): set<(K, int)> {
    Pairs(KeysOf(acc, key), OverlapsOf(acc, key, leq))
  }

  lemma OverlapPairMeans<K(!new)>(acc: seq<Row>, key: Row -> K, leq: (Row, Row) -> bool, k: K, i: int)
    ensures (k, i) in OverlapPairs(acc, key, leq) <==>
      var s := SortedGroup(acc, key, k, leq);
      (exists r :: r in acc && key(r) == k) && 1 <= i < |s| && s[i].enter <= s[i - 1].exit
  {
    assert i in OverlapsAt(SortedGroup(acc, key, k, leq)) <==> OverlapAt(SortedGroup(acc, key, k, leq), i);
    assert OverlapsOf(acc, key, leq)(k) == OverlapsAt(SortedGroup(acc, key, k, leq));
    assert (k, i) in OverlapPairs(acc, key, leq) <==> k in KeysOf(acc, key) && i in OverlapsOf(acc, key, leq)(k);
  }

  /** The reported number is the number of these pairs. */
  lemma OverlapCountIsPairs<K(!new)>(acc: seq<Row>, key: Row -> K, leq: (Row, Row) -> bool)
    ensures OverlapCount(acc, key, leq) == |OverlapPairs(acc, key, leq)|
  {
    TotalOverlapsArePairs(KeysOf(acc, key), acc, key, leq);
  }

  // ----- how many visit seconds -----

  ghost predicate During(first: int, last: int, t: int) { first <= t <= last }

  ghost function Span(first: int, last: int): set<int> { set t | first <= t <= last && During(first, last, t) }

  lemma SpanNext(first: int, last: int)
    requires first <= last
    ensures Span(first, last) == Span(first, last - 1) + {last} && last !in Span(first, last - 1)
  {
    forall t ensures t in Span(first, last) <==> t in Span(first, last - 1) + {last} {
      assert During(first, last, t) <==> During(first, last - 1, t) || t == last;
    }
  }

  lemma {:induction false} SpanSize(first: int, last: int)
    requires first <= last + 1
    ensures |Span(first, last)| == last - first + 1
    decreases last - first + 1
  {
    if first <= last {
      SpanSize(first, last - 1);
      SpanNext(first, last);
    } else {
      assert Span(first, last) == {};
    }
  }

  /** Every accepted span with every second of it, seconds claimed twice included. */
  ghost function Visits(acc: seq<Row>): set<(int, int)> {
    set i, t | 0 <= i < |acc| && t in Span(acc[i].enter, acc[i].exit) :: (i, t)
  }

  lemma VisitsSnoc(acc: seq<Row>, x: Row)
    ensures |Visits(acc + [x])| == |Visits(acc)| + |Span(x.enter, x.exit)|
  {
    var longer, more := acc + [x], Tagged(|acc|, Span(x.enter, x.exit));
    TaggedCount(|acc|, Span(x.enter, x.exit));
    forall v: (int, int) ensures v in Visits(longer) <==> v in Visits(acc) + more {
      assert v == (v.0, v.1);
      assert 0 <= v.0 < |acc| ==> longer[v.0] == acc[v.0];
    }
    assert Visits(longer) == Visits(acc) + more && Visits(acc) !! more;
  }

  lemma {:induction false} VisitSecondsCountVisits(acc: seq<Row>)
    requires WellFormed(acc)
    ensures VisitSeconds(acc) == |Visits(acc)|
  {
    if acc == [] {
      assert Visits(acc) == {};
    } else {
      var init, x := acc[..|acc| - 1], acc[|acc| - 1];
      VisitSecondsCountVisits(init);
      VisitsSnoc(init, x);
      SpanSize(x.enter, x.exit);
      assert init + [x] == acc;
    }
  }
}
