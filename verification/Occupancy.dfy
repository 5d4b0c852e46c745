/** Reconciliation of an occupancy table with a presence mask
    (`_trace_and_occupancy` and the occupancy verdict of `build_audit`).

    The mask is a seconds-by-slots grid whose shape is its own; the window lengths `T` and
    `maxN` are separate scalars of the trace file and nothing makes them agree with it. */
module Occupancy {
  import opened Sorting

  datatype Row = Row(vehicle: string, slot: int, enter: int, exit: int)
  datatype Window = Window(seconds: int, slots: int)
  datatype Fate = InvalidSpan | SlotOutOfRange | TimeOutOfRange | Accepted
  type Cell = (int, int)

  datatype Summary = Summary(
    headerMatches: bool,
    rowCount: nat,
    ids: set<string>,
    slotCount: nat,
    visitSeconds: int,
    invalidSpans: nat,
    slotOutOfRange: nat,
    timeOutOfRange: nat,
    slotOverlaps: nat,
    vehicleOverlaps: nat,
    exactMaskMatch: bool,
    visitSecondsMatchMask: bool,
    boundaryIds: set<string>)

  datatype Result = Audited(summary: Summary) | IndexError

  // ----- what the table says -----

  function FateOf(r: Row, w: Window): Fate {
    if r.exit < r.enter then InvalidSpan
    else if !(0 <= r.slot < w.slots) then SlotOutOfRange
    else if !(0 <= r.enter <= r.exit < w.seconds) then TimeOutOfRange
    else Accepted
  }

  function AcceptedRows(rows: seq<Row>, w: Window): seq<Row> {
    if rows == [] then []
    else
      AcceptedRows(rows[..|rows| - 1], w) +
      (if FateOf(rows[|rows| - 1], w).Accepted? then [rows[|rows| - 1]] else [])
  }

  function CountFate(rows: seq<Row>, w: Window, fate: Fate): nat {
    if rows == [] then 0
    else CountFate(rows[..|rows| - 1], w, fate) + (if FateOf(rows[|rows| - 1], w) == fate then 1 else 0)
  }

  ghost predicate WellFormed(acc: seq<Row>) {
    forall i :: 0 <= i < |acc| ==> 0 <= acc[i].enter <= acc[i].exit
  }

  function VisitSeconds(acc: seq<Row>): int {
    if acc == [] then 0
    else VisitSeconds(acc[..|acc| - 1]) + acc[|acc| - 1].exit - acc[|acc| - 1].enter + 1
  }

  /** The cells one span sets: a numpy slice stops at the mask's last second. */
  ghost function RowCells(r: Row, height: nat): set<Cell> {
    set t | r.enter <= t <= r.exit && t < height :: (t, r.slot)
  }

  ghost function Painted(acc: seq<Row>, height: nat): set<Cell> {
    if acc == [] then {} else Painted(acc[..|acc| - 1], height) + RowCells(acc[|acc| - 1], height)
  }

  function MaskCells(mask: array2<bool>): set<Cell>
    reads mask
  {
    set t, s | 0 <= t < mask.Length0 && 0 <= s < mask.Length1 && mask[t, s] :: (t, s)
  }

  ghost predicate Covers(r: Row, t: int, s: int) { r.slot == s && r.enter <= t <= r.exit }

  ghost predicate Apart(a: Row, b: Row) { a.exit < b.enter || b.exit < a.enter }

  ghost predicate ApartFrom(x: Row, s: seq<Row>) {
    forall y :: y in s ==> Apart(x, y)
  }

  ghost predicate PairwiseApart(s: seq<Row>) {
    s == [] || (ApartFrom(s[0], s[1..]) && PairwiseApart(s[1..]))
  }

  function SlotOf(r: Row): int { r.slot }
  function VehicleOf(r: Row): string { r.vehicle }

  ghost predicate SeparatedBy<K>(acc: seq<Row>, key: Row -> K) {
    forall i, j :: 0 <= i < j < |acc| && key(acc[i]) == key(acc[j]) ==> Apart(acc[i], acc[j])
  }

  // ----- the grouped, sorted, adjacent comparison the script makes -----

  predicate SlotOrder(a: Row, b: Row) {
    a.enter < b.enter
    || (a.enter == b.enter && (a.exit < b.exit || (a.exit == b.exit && StringLeq(a.vehicle, b.vehicle))))
  }

  predicate VehicleOrder(a: Row, b: Row) {
    a.enter < b.enter || (a.enter == b.enter && (a.exit < b.exit || (a.exit == b.exit && a.slot <= b.slot)))
  }

  lemma SpanOrders()
    ensures TotalPreorder(SlotOrder) && TotalPreorder(VehicleOrder)
  {
    StringOrder();
    forall x: Row, y: Row, z: Row | SlotOrder(x, y) && SlotOrder(y, z) ensures SlotOrder(x, z) {
      if StringLeq(x.vehicle, y.vehicle) && StringLeq(y.vehicle, z.vehicle) {
        StringLeqTransitive(x.vehicle, y.vehicle, z.vehicle);
      }
    }
    forall x: Row, y: Row ensures SlotOrder(x, y) || SlotOrder(y, x) {
      StringLeqTotal(x.vehicle, y.vehicle);
    }
  }

  ghost predicate EnterOrder(leq: (Row, Row) -> bool) {
    TotalPreorder(leq) && forall a, b :: leq(a, b) ==> a.enter <= b.enter
  }

  function Group<K(==)>(acc: seq<Row>, key: Row -> K, k: K): seq<Row> {
    if acc == [] then []
    else Group(acc[..|acc| - 1], key, k) + (if key(acc[|acc| - 1]) == k then [acc[|acc| - 1]] else [])
  }

  ghost function KeysOf<K>(acc: seq<Row>, key: Row -> K): set<K> {
    set r | r in acc :: key(r)
  }

  function AdjacentOverlaps(s: seq<Row>): nat {
    if |s| < 2 then 0 else (if s[1].enter <= s[0].exit then 1 else 0) + AdjacentOverlaps(s[1..])
  }

  function OverlapsIn(s: seq<Row>, leq: (Row, Row) -> bool): nat { AdjacentOverlaps(Sort(s, leq)) }

  ghost function TotalOverlaps<K>(keys: set<K>, acc: seq<Row>, key: Row -> K, leq: (Row, Row) -> bool): nat {
    if keys == {} then 0
    else var k :| k in keys; OverlapsIn(Group(acc, key, k), leq) + TotalOverlaps(keys - {k}, acc, key, leq)
  }

  ghost function OverlapCount<K>(acc: seq<Row>, key: Row -> K, leq: (Row, Row) -> bool): nat {
    TotalOverlaps(KeysOf(acc, key), acc, key, leq)
  }

  lemma {:induction false} TotalOverlapsTake<K>(keys: set<K>, k: K, acc: seq<Row>, key: Row -> K,
    leq: (Row, Row) -> bool)
    requires k in keys
    ensures TotalOverlaps(keys, acc, key, leq)
      == OverlapsIn(Group(acc, key, k), leq) + TotalOverlaps(keys - {k}, acc, key, leq)
    decreases keys
  {
    var c :| c in keys && TotalOverlaps(keys, acc, key, leq)
      == OverlapsIn(Group(acc, key, c), leq) + TotalOverlaps(keys - {c}, acc, key, leq);
    if c != k {
      TotalOverlapsTake(keys - {c}, k, acc, key, leq);
      TotalOverlapsTake(keys - {k}, c, acc, key, leq);
      assert keys - {c} - {k} == keys - {k} - {c};
    }
  }

  lemma {:induction false} TotalOverlapsZero<K>(keys: set<K>, acc: seq<Row>, key: Row -> K, leq: (Row, Row) -> bool)
    ensures TotalOverlaps(keys, acc, key, leq) == 0 <==>
      forall k :: k in keys ==> OverlapsIn(Group(acc, key, k), leq) == 0
    decreases keys
  {
    if keys != {} {
      var k :| k in keys;
      TotalOverlapsTake(keys, k, acc, key, leq);
      TotalOverlapsZero(keys - {k}, acc, key, leq);
    }
  }

  // ----- adjacent pairs of a sorted list are enough -----

  lemma InsertMembers(x: Row, s: seq<Row>, leq: (Row, Row) -> bool)
    ensures forall y :: y in Insert(x, s, leq) <==> y == x || y in s
  {
    InsertElements(x, s, leq);
    assert forall y :: y in Insert(x, s, leq) <==> y in multiset(Insert(x, s, leq));
  }

  lemma {:induction false} InsertKeepsApart(x: Row, s: seq<Row>, leq: (Row, Row) -> bool)
    ensures PairwiseApart(Insert(x, s, leq)) <==> PairwiseApart(s) && ApartFrom(x, s)
  {
    if s == [] || leq(x, s[0]) {
      assert ([x] + s)[1..] == s;
    } else {
      InsertKeepsApart(x, s[1..], leq);
      InsertMembers(x, s[1..], leq);
      var r := Insert(x, s[1..], leq);
      assert ([s[0]] + r)[1..] == r;
      assert s == [s[0]] + s[1..];
      assert x in r && s[0] in s;
      assert forall y :: y in s[1..] ==> y in r && y in s;
    }
  }

  lemma {:induction false} SortKeepsApart(s: seq<Row>, leq: (Row, Row) -> bool)
    ensures PairwiseApart(Sort(s, leq)) <==> PairwiseApart(s)
  {
    if s != [] {
      SortKeepsApart(s[1..], leq);
      SortElements(s[1..], leq);
      var r := Sort(s[1..], leq);
      InsertKeepsApart(s[0], r, leq);
      assert forall y :: y in r <==> y in multiset(r);
    }
  }

  lemma {:induction false} AdjacentPairsSuffice(s: seq<Row>, leq: (Row, Row) -> bool)
    requires EnterOrder(leq) && Sorted(s, leq) && WellFormed(s)
    ensures AdjacentOverlaps(s) == 0 <==> PairwiseApart(s)
  {
    if |s| >= 2 {
      AdjacentPairsSuffice(s[1..], leq);
      assert leq(s[0], s[1]);
      forall y | y in s[1..] ensures s[1].enter <= y.enter {
        var j :| 1 <= j < |s| && s[j] == y;
        assert j == 1 || leq(s[1], s[j]);
      }
      assert s[1] in s[1..];
    }
  }

  lemma {:induction false} GroupMembers<K>(acc: seq<Row>, key: Row -> K, k: K)
    ensures forall r :: r in Group(acc, key, k) <==> r in acc && key(r) == k
  {
    if acc != [] {
      GroupMembers(acc[..|acc| - 1], key, k);
      assert acc == acc[..|acc| - 1] + [acc[|acc| - 1]];
    }
  }

  ghost predicate KeyedApart<K>(acc: seq<Row>, key: Row -> K, k: K) {
    forall i, j :: 0 <= i < j < |acc| && key(acc[i]) == k && key(acc[j]) == k ==> Apart(acc[i], acc[j])
  }

  lemma {:induction false} ApartSnoc(s: seq<Row>, x: Row)
    ensures PairwiseApart(s + [x]) <==> PairwiseApart(s) && ApartFrom(x, s)
  {
    if s != [] {
      ApartSnoc(s[1..], x);
      assert (s + [x])[1..] == s[1..] + [x];
      assert x in s[1..] + [x] && s[0] in s;
      assert forall y :: y in s[1..] ==> y in s[1..] + [x] && y in s;
    }
  }

  lemma KeyedSnoc<K>(acc: seq<Row>, x: Row, key: Row -> K, k: K)
    ensures KeyedApart(acc + [x], key, k)
      <==> KeyedApart(acc, key, k) && (key(x) == k ==> forall y :: y in acc && key(y) == k ==> Apart(x, y))
  {
    var r := acc + [x];
    if KeyedApart(r, key, k) {
      forall i, j | 0 <= i < j < |acc| && key(acc[i]) == k && key(acc[j]) == k ensures Apart(acc[i], acc[j]) {
        assert Apart(r[i], r[j]);
      }
      forall y | y in acc && key(y) == k && key(x) == k ensures Apart(x, y) {
        var i :| 0 <= i < |acc| && acc[i] == y;
        assert Apart(r[i], r[|acc|]);
      }
    }
  }

  lemma {:induction false} GroupApart<K>(acc: seq<Row>, key: Row -> K, k: K)
    ensures PairwiseApart(Group(acc, key, k)) <==> KeyedApart(acc, key, k)
  {
    if acc != [] {
      var init, x := acc[..|acc| - 1], acc[|acc| - 1];
      assert acc == init + [x];
      GroupApart(init, key, k);
      GroupMembers(init, key, k);
      KeyedSnoc(init, x, key, k);
      ApartSnoc(Group(init, key, k), x);
      assert key(x) != k ==> Group(acc, key, k) == Group(init, key, k);
      if key(x) == k && ApartFrom(x, Group(init, key, k)) {
        forall y | y in init && key(y) == k ensures Apart(x, y) {
          assert y in Group(init, key, k);
        }
      }
    }
  }

  /** The count of overlaps between neighbours of sorted groups is zero exactly when no two
      spans with the same key share a second, in whatever order the table lists them. */
  lemma OverlapCountZero<K>(acc: seq<Row>, key: Row -> K, leq: (Row, Row) -> bool)
    requires EnterOrder(leq) && WellFormed(acc)
    ensures OverlapCount(acc, key, leq) == 0 <==> SeparatedBy(acc, key)
  {
    TotalOverlapsZero(KeysOf(acc, key), acc, key, leq);
    forall k | k in KeysOf(acc, key)
      ensures OverlapsIn(Group(acc, key, k), leq) == 0 <==> PairwiseApart(Group(acc, key, k))
    {
      var g := Group(acc, key, k);
      GroupMembers(acc, key, k);
      SortElements(g, leq);
      SortSorted(g, leq);
      SortKeepsApart(g, leq);
      forall i | 0 <= i < |Sort(g, leq)| ensures 0 <= Sort(g, leq)[i].enter <= Sort(g, leq)[i].exit {
        assert Sort(g, leq)[i] in multiset(g);
        assert Sort(g, leq)[i] in acc;
      }
      AdjacentPairsSuffice(Sort(g, leq), leq);
    }
    forall k | k in KeysOf(acc, key) ensures PairwiseApart(Group(acc, key, k)) <==> KeyedApart(acc, key, k) {
      GroupApart(acc, key, k);
    }
    forall i | 0 <= i < |acc| ensures key(acc[i]) in KeysOf(acc, key) {
      assert acc[i] in acc;
    }
    if OverlapCount(acc, key, leq) == 0 {
      forall i, j | 0 <= i < j < |acc| && key(acc[i]) == key(acc[j]) ensures Apart(acc[i], acc[j]) {
        var k := key(acc[i]);
        assert k in KeysOf(acc, key) && KeyedApart(acc, key, k);
      }
    }
  }

  // ----- visit seconds against painted cells -----

  lemma {:induction false} RowCellsFrom(r: Row, height: nat, stop: int)
    requires 0 <= r.enter <= stop <= height && stop <= r.exit + 1
    ensures |set t | r.enter <= t < stop :: (t, r.slot)| == stop - r.enter
  {
    if r.enter < stop {
      RowCellsFrom(r, height, stop - 1);
      assert (set t | r.enter <= t < stop :: (t, r.slot))
          == (set t | r.enter <= t < stop - 1 :: (t, r.slot)) + {(stop - 1, r.slot)};
    }
  }

  lemma RowCellCount(r: Row, height: nat)
    requires 0 <= r.enter <= r.exit
    ensures |RowCells(r, height)| <= r.exit - r.enter + 1
    ensures |RowCells(r, height)| == r.exit - r.enter + 1 <==> r.exit < height
  {
    var stop := if r.exit < height then r.exit + 1 else height;
    if r.enter <= stop {
      RowCellsFrom(r, height, stop);
      assert RowCells(r, height) == set t | r.enter <= t < stop :: (t, r.slot);
    } else {
      assert RowCells(r, height) == {};
    }
  }

  ghost predicate InsideMask(acc: seq<Row>, height: nat) {
    forall i :: 0 <= i < |acc| ==> acc[i].exit < height
  }

  lemma {:induction false} PaintedCells(acc: seq<Row>, height: nat, t: int, s: int)
    ensures (t, s) in Painted(acc, height) <==> t < height && exists i :: 0 <= i < |acc| && Covers(acc[i], t, s)
  {
    if acc != [] {
      var m := |acc| - 1;
      PaintedCells(acc[..m], height, t, s);
      assert (t, s) in RowCells(acc[m], height) <==> t < height && Covers(acc[m], t, s);
      if i :| 0 <= i < |acc| && Covers(acc[i], t, s) {
        assert i < m ==> Covers(acc[..m][i], t, s);
      }
      if i :| 0 <= i < m && Covers(acc[..m][i], t, s) {
        assert Covers(acc[i], t, s);
      }
    }
  }

  lemma SeparatedSnoc(acc: seq<Row>, x: Row, height: nat)
    requires WellFormed(acc + [x]) && InsideMask(acc + [x], height)
    ensures SeparatedBy(acc + [x], SlotOf)
      <==> SeparatedBy(acc, SlotOf) && RowCells(x, height) * Painted(acc, height) == {}
  {
    var r := acc + [x];
    var common := RowCells(x, height) * Painted(acc, height);
    if SeparatedBy(r, SlotOf) {
      forall i, j | 0 <= i < j < |acc| && SlotOf(acc[i]) == SlotOf(acc[j]) ensures Apart(acc[i], acc[j]) {
        assert Apart(r[i], r[j]);
      }
      forall c | c in RowCells(x, height) ensures c !in Painted(acc, height) {
        PaintedCells(acc, height, c.0, c.1);
        forall i | 0 <= i < |acc| ensures !Covers(acc[i], c.0, c.1) {
          assert r[i] == acc[i] && r[|acc|] == x;
        }
      }
    }
    if SeparatedBy(acc, SlotOf) && common == {} {
      forall i | 0 <= i < |acc| && SlotOf(acc[i]) == SlotOf(x) ensures Apart(acc[i], x) {
        var t := if acc[i].enter <= x.enter then x.enter else acc[i].enter;
        assert r[i] == acc[i] && r[|acc|] == x;
        PaintedCells(acc, height, t, x.slot);
        assert (t, x.slot) !in common;
        assert Covers(acc[i], t, x.slot) ==> (t, x.slot) in Painted(acc, height);
      }
      forall i, j | 0 <= i < j < |r| && SlotOf(r[i]) == SlotOf(r[j]) ensures Apart(r[i], r[j]) {
      }
    }
  }

  /** Counting visits never undercounts cells, and is exact precisely when no second of a slot
      is claimed twice and no span runs past the last second of the mask. */
  lemma {:induction false} VisitSecondsCountCells(acc: seq<Row>, height: nat)
    requires WellFormed(acc)
    ensures VisitSeconds(acc) >= |Painted(acc, height)|
    ensures VisitSeconds(acc) == |Painted(acc, height)| <==> SeparatedBy(acc, SlotOf) && InsideMask(acc, height)
  {
    if acc != [] {
      var init, x := acc[..|acc| - 1], acc[|acc| - 1];
      assert acc == init + [x];
      VisitSecondsCountCells(init, height);
      RowCellCount(x, height);
      var p, q := Painted(init, height), RowCells(x, height);
      assert |p + q| == |p| + |q| - |p * q|;
      assert InsideMask(acc, height) ==> InsideMask(init, height);
      assert InsideMask(acc, height) <==> InsideMask(init, height) && x.exit < height;
      if InsideMask(acc, height) {
        SeparatedSnoc(init, x, height);
        assert q * p == p * q;
        assert |p * q| == 0 <==> p * q == {};
      }
    }
  }

  // ----- the audit's verdict -----

  lemma {:induction false} AcceptedAreAccepted(rows: seq<Row>, w: Window)
    ensures forall r :: r in AcceptedRows(rows, w) <==> r in rows && FateOf(r, w).Accepted?
    ensures WellFormed(AcceptedRows(rows, w))
    ensures InsideMask(AcceptedRows(rows, w), if w.seconds < 0 then 0 else w.seconds)
  {
    if rows != [] {
      AcceptedAreAccepted(rows[..|rows| - 1], w);
      assert rows == rows[..|rows| - 1] + [rows[|rows| - 1]];
    }
  }

  ghost function SlotOverlapCount(rows: seq<Row>, w: Window): nat {
    OverlapCount(AcceptedRows(rows, w), SlotOf, SlotOrder)
  }

  ghost function VehicleOverlapCount(rows: seq<Row>, w: Window): nat {
    OverlapCount(AcceptedRows(rows, w), VehicleOf, VehicleOrder)
  }

  /** `visit_seconds` against the painted grid, for every table, window and mask height. */
  lemma VisitSecondsVerdict(rows: seq<Row>, w: Window, height: nat)
    ensures var acc := AcceptedRows(rows, w);
      && VisitSeconds(acc) >= |Painted(acc, height)|
      && (VisitSeconds(acc) == |Painted(acc, height)| <==> SlotOverlapCount(rows, w) == 0 && InsideMask(acc, height))
      && (w.seconds <= height ==> InsideMask(acc, height))
  {
    AcceptedAreAccepted(rows, w);
    SpanOrders();
    OverlapCountZero(AcceptedRows(rows, w), SlotOf, SlotOrder);
    VisitSecondsCountCells(AcceptedRows(rows, w), height);
  }

  /** Without `T <= mask height` the count can be wrong although no two spans overlap: for any
      shorter mask a single span over the whole window is counted past the last painted cell. */
  lemma ShortMaskBreaksTheCount(w: Window, height: nat, vehicle: string)
    requires height < w.seconds && 0 < w.slots
    ensures var rows := [Row(vehicle, 0, 0, w.seconds - 1)];
      SlotOverlapCount(rows, w) == 0 && VisitSeconds(AcceptedRows(rows, w)) > |Painted(AcceptedRows(rows, w), height)|
  {
    var row := Row(vehicle, 0, 0, w.seconds - 1);
    var rows := [row];
    assert rows[..0] == [] && AcceptedRows([], w) == [];
    assert AcceptedRows(rows, w) == [row];
    VisitSecondsVerdict(rows, w, height);
    SpanOrders();
    AcceptedAreAccepted(rows, w);
    OverlapCountZero([row], SlotOf, SlotOrder);
    assert [row][0].exit >= height;
  }

  ghost predicate AllOccupancyExact(rows: seq<Row>, w: Window, height: nat, mask: set<Cell>) {
    && Painted(AcceptedRows(rows, w), height) == mask
    && SlotOverlapCount(rows, w) == 0
    && VehicleOverlapCount(rows, w) == 0
  }

  /** What "the table exactly identifies the visits" means, cell by cell: the mask is active
      where some accepted span covers it, and at one second two different spans differ both in
      slot and in vehicle. */
  ghost predicate IdentifiesEveryVisit(acc: seq<Row>, height: nat, mask: set<Cell>) {
    CoversMask(acc, height, mask) && NeverTogether(acc)
  }

  lemma ApartAtEverySecond(acc: seq<Row>, i: nat, j: nat)
    requires WellFormed(acc) && i < |acc| && j < |acc|
    ensures Apart(acc[i], acc[j]) <==> forall t :: !(Covers(acc[i], t, acc[i].slot) && Covers(acc[j], t, acc[j].slot))
  {
    var t := if acc[i].enter <= acc[j].enter then acc[j].enter else acc[i].enter;
    if !Apart(acc[i], acc[j]) {
      assert Covers(acc[i], t, acc[i].slot) && Covers(acc[j], t, acc[j].slot);
    }
  }

  ghost predicate CoversMask(acc: seq<Row>, height: nat, mask: set<Cell>) {
    forall t, s :: (t, s) in mask <==> t < height && exists i :: 0 <= i < |acc| && Covers(acc[i], t, s)
  }

  ghost predicate NeverTogether(acc: seq<Row>) {
    forall i, j, t :: 0 <= i < j < |acc| && Covers(acc[i], t, acc[i].slot) && Covers(acc[j], t, acc[j].slot)
      ==> acc[i].slot != acc[j].slot && acc[i].vehicle != acc[j].vehicle
  }

  lemma CoversMaskIffPainted(acc: seq<Row>, height: nat, mask: set<Cell>)
    ensures CoversMask(acc, height, mask) <==> Painted(acc, height) == mask
  {
    forall t, s
      ensures (t, s) in Painted(acc, height) <==> t < height && exists i :: 0 <= i < |acc| && Covers(acc[i], t, s)
    {
      PaintedCells(acc, height, t, s);
    }
    if CoversMask(acc, height, mask) {
      forall c: Cell ensures c in mask <==> c in Painted(acc, height) {
        var (t, s) := c;
        assert (t, s) in mask <==> (t, s) in Painted(acc, height);
      }
    }
  }

  lemma NeverTogetherIffSeparated(acc: seq<Row>)
    requires WellFormed(acc)
    ensures NeverTogether(acc) <==> SeparatedBy(acc, SlotOf) && SeparatedBy(acc, VehicleOf)
  {
    if NeverTogether(acc) {
      forall i, j | 0 <= i < j < |acc| && !Apart(acc[i], acc[j])
        ensures SlotOf(acc[i]) != SlotOf(acc[j]) && VehicleOf(acc[i]) != VehicleOf(acc[j])
      {
        ApartAtEverySecond(acc, i, j);
      }
    }
    if SeparatedBy(acc, SlotOf) && SeparatedBy(acc, VehicleOf) {
      forall i, j | 0 <= i < j < |acc| && (acc[i].slot == acc[j].slot || acc[i].vehicle == acc[j].vehicle)
        ensures forall t :: !(Covers(acc[i], t, acc[i].slot) && Covers(acc[j], t, acc[j].slot))
      {
        assert SlotOf(acc[i]) == SlotOf(acc[j]) || VehicleOf(acc[i]) == VehicleOf(acc[j]);
        ApartAtEverySecond(acc, i, j);
      }
    }
  }

  /** The three cheap aggregates hold exactly when the table identifies every visit. */
  lemma ExactIdentification(rows: seq<Row>, w: Window, height: nat, mask: set<Cell>)
    ensures AllOccupancyExact(rows, w, height, mask) <==> IdentifiesEveryVisit(AcceptedRows(rows, w), height, mask)
  {
    var acc := AcceptedRows(rows, w);
    AcceptedAreAccepted(rows, w);
    SpanOrders();
    OverlapCountZero(acc, SlotOf, SlotOrder);
    OverlapCountZero(acc, VehicleOf, VehicleOrder);
    CoversMaskIffPainted(acc, height, mask);
    NeverTogetherIffSeparated(acc);
  }

  lemma OneSpanAtATime(acc: seq<Row>, height: nat, mask: set<Cell>, i: nat, j: nat, t: int)
    requires IdentifiesEveryVisit(acc, height, mask) && i < |acc| && j < |acc|
    requires Covers(acc[i], t, acc[i].slot) && Covers(acc[j], t, acc[j].slot)
    requires acc[i].slot == acc[j].slot || acc[i].vehicle == acc[j].vehicle
    ensures i == j
  {
  }

  /** The reading the audit draws: an active cell has one owning span, an inactive cell of the
      mask has none, and within one second no vehicle owns two cells. */
  lemma OwnershipFromTheVerdict(rows: seq<Row>, w: Window, height: nat, mask: set<Cell>)
    requires AllOccupancyExact(rows, w, height, mask)
    ensures var acc := AcceptedRows(rows, w);
      && (forall t, s :: (t, s) in mask ==>
            (exists i :: 0 <= i < |acc| && Covers(acc[i], t, s)
                         && (forall j :: 0 <= j < |acc| && Covers(acc[j], t, s) ==> j == i)))
      && (forall t, s, i :: t < height && (t, s) !in mask && 0 <= i < |acc| ==> !Covers(acc[i], t, s))
      && (forall t, s, u, i, j :: 0 <= i < |acc| && 0 <= j < |acc| && acc[i].vehicle == acc[j].vehicle ==>
            Covers(acc[i], t, s) && Covers(acc[j], t, u) ==> s == u && i == j)
  {
    ExactIdentification(rows, w, height, mask);
    var acc := AcceptedRows(rows, w);
    forall t, s | (t, s) in mask
      ensures exists i ::
        0 <= i < |acc| && Covers(acc[i], t, s) && forall j :: 0 <= j < |acc| && Covers(acc[j], t, s) ==> j == i
    {
      var i :| 0 <= i < |acc| && Covers(acc[i], t, s);
      forall j | 0 <= j < |acc| && Covers(acc[j], t, s) ensures j == i {
        OneSpanAtATime(acc, height, mask, i, j, t);
      }
    }
    forall t, s, u, i, j | 0 <= i < |acc| && 0 <= j < |acc| && Covers(acc[i], t, s) && Covers(acc[j], t, u)
        && acc[i].vehicle == acc[j].vehicle
      ensures s == u && i == j
    {
      OneSpanAtATime(acc, height, mask, i, j, t);
    }
  }

  /** The verdict reads accepted rows only: any rejected row, wherever it stands and whatever
      vehicle it names, leaves the verdict as it was. */
  lemma {:induction false} RejectedRowsEscapeTheVerdict(before: seq<Row>, bad: Row, after: seq<Row>, w: Window,
    height: nat, mask: set<Cell>)
    requires !FateOf(bad, w).Accepted?
    ensures AcceptedRows(before + [bad] + after, w) == AcceptedRows(before + after, w)
    ensures AllOccupancyExact(before + [bad] + after, w, height, mask) <==>
      AllOccupancyExact(before + after, w, height, mask)
    decreases |after|
  {
    var long, short := before + [bad] + after, before + after;
    if after == [] {
      assert long[..|long| - 1] == before && short == before;
    } else {
      RejectedRowsEscapeTheVerdict(before, bad, after[..|after| - 1], w, height, mask);
      assert long[..|long| - 1] == before + [bad] + after[..|after| - 1];
      assert short[..|short| - 1] == before + after[..|after| - 1];
      assert long[|long| - 1] == after[|after| - 1] == short[|short| - 1];
    }
  }
}
