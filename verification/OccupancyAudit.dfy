/** The in-place reconciliation loop of `_trace_and_occupancy`, proved against `Occupancy`. */
module OccupancyAudit {
  import opened Lists
  import opened Options
  import opened Sorting
  import opened Occupancy
  import opened Counting
  import opened OccupancyCounts

  /** `reconstructed[enter : exit + 1, slot] = True`: the slice is clipped to the grid. */
  method PaintSpan(grid: array2<bool>, r: Row)
    requires 0 <= r.slot < grid.Length1 && 0 <= r.enter
    modifies grid
    ensures MaskCells(grid) == old(MaskCells(grid)) + RowCells(r, grid.Length0)
  {
    var t := r.enter;
    while t <= r.exit && t < grid.Length0
      invariant r.enter <= t
      invariant t > r.enter ==> t <= r.exit + 1 && t <= grid.Length0
      invariant forall i, j :: 0 <= i < grid.Length0 && 0 <= j < grid.Length1 ==>
        grid[i, j] == (old(grid[i, j]) || (j == r.slot && r.enter <= i < t))
      decreases grid.Length0 - t
    {
      grid[t, r.slot] := true;
      t := t + 1;
    }
  }

  /** `defaultdict(list)` and `append`. */
  function AppendTo<K>(spans: map<K, seq<Row>>, k: K, r: Row): map<K, seq<Row>> {
    spans[k := (if k in spans then spans[k] else []) + [r]]
  }

  ghost predicate HoldsGroups<K>(spans: map<K, seq<Row>>, acc: seq<Row>, key: Row -> K) {
    spans.Keys == KeysOf(acc, key) && forall k :: k in spans ==> spans[k] == Group(acc, key, k)
  }

  lemma AppendKeepsGroups<K>(spans: map<K, seq<Row>>, acc: seq<Row>, key: Row -> K, r: Row)
    requires HoldsGroups(spans, acc, key)
    ensures HoldsGroups(AppendTo(spans, key(r), r), acc + [r], key)
  {
    var after := acc + [r];
    assert after[..|after| - 1] == acc;
    forall k ensures k in KeysOf(after, key) <==> k in KeysOf(acc, key) || k == key(r) {
      if k in KeysOf(acc, key) {
        var x :| x in acc && key(x) == k;
        assert x in after;
      }
      if k == key(r) {
        assert r in after;
      }
      if k in KeysOf(after, key) {
        var x :| x in after && key(x) == k;
        assert x == r || x in acc;
      }
    }
    if key(r) !in spans {
      EmptyGroup(acc, key, key(r));
    }
  }

  lemma {:induction false} EmptyGroup<K>(acc: seq<Row>, key: Row -> K, k: K)
    requires k !in KeysOf(acc, key)
    ensures Group(acc, key, k) == []
  {
    if acc != [] {
      assert acc[|acc| - 1] in acc;
      assert forall r :: r in acc[..|acc| - 1] ==> r in acc;
      EmptyGroup(acc[..|acc| - 1], key, k);
    }
  }

  method CountAdjacent(sorted: seq<Row>) returns (count: nat)
    ensures count == AdjacentOverlaps(sorted)
  {
    count := 0;
    if sorted == [] {
      return;
    }
    for i := 1 to |sorted|
      invariant count + AdjacentOverlaps(sorted[i - 1..]) == AdjacentOverlaps(sorted)
    {
      assert sorted[i - 1..][1..] == sorted[i..];
      if sorted[i].enter <= sorted[i - 1].exit {
        count := count + 1;
      }
    }
  }

  /** Sort every list of the dictionary and count the neighbours that overlap. */
  method CountOverlaps<K(!new)>(spans: map<K, seq<Row>>, ghost acc: seq<Row>, ghost key: Row -> K,
    leq: (Row, Row) -> bool)
      returns (count: nat)
    requires HoldsGroups(spans, acc, key)
    ensures count == OverlapCount(acc, key, leq) == |OverlapPairs(acc, key, leq)|
  {
    OverlapCountIsPairs(acc, key, leq);
    count := 0;
    var left := spans.Keys;
    while left != {}
      invariant left <= spans.Keys
      invariant count + TotalOverlaps(left, acc, key, leq) == OverlapCount(acc, key, leq)
      decreases left
    {
      var k :| k in left;
      var overlaps := CountAdjacent(Sort(spans[k], leq));
      count := count + overlaps;
      TotalOverlapsTake(left, k, acc, key, leq);
      left := left - {k};
    }
  }

  /** What one audited trace reports, said of the table, the window and the mask alone. */
  ghost predicate Reports(s: Summary, rows: seq<Row>, w: Window, height: nat, mask: set<Cell>) {
    var acc := AcceptedRows(rows, w);
    && s.rowCount == |rows|
    && s.slotCount == |set r | r in acc :: r.slot|
    && s.ids == (set r | r in rows :: r.vehicle)
    && s.visitSeconds == |Visits(acc)|
    && s.invalidSpans == |Positions(rows, HasFate(w, InvalidSpan))|
    && s.slotOutOfRange == |Positions(rows, HasFate(w, SlotOutOfRange))|
    && s.timeOutOfRange == |Positions(rows, HasFate(w, TimeOutOfRange))|
    && s.slotOverlaps == |OverlapPairs(acc, SlotOf, SlotOrder)|
    && s.vehicleOverlaps == |OverlapPairs(acc, VehicleOf, VehicleOrder)|
    && s.exactMaskMatch == (Painted(acc, height) == mask)
    && s.visitSecondsMatchMask == (|Visits(acc)| == |mask|)
    && s.boundaryIds == set r | r in acc && r.exit == w.seconds - 1 :: r.vehicle
  }

  ghost predicate Counted(rows: seq<Row>, w: Window, ids: set<string>, visitSeconds: int, invalid: nat, badSlot: nat,
    badTime: nat)
  {
    && ids == (set r | r in rows :: r.vehicle)
    && visitSeconds == VisitSeconds(AcceptedRows(rows, w))
    && invalid == CountFate(rows, w, InvalidSpan)
    && badSlot == CountFate(rows, w, SlotOutOfRange)
    && badTime == CountFate(rows, w, TimeOutOfRange)
  }

  /** The loop's counters and dictionaries after the rows read so far. */
  ghost predicate Tallied(rows: seq<Row>, w: Window, ids: set<string>, visitSeconds: int, invalid: nat, badSlot: nat,
    badTime: nat, bySlot: map<int, seq<Row>>, byVehicle: map<string, seq<Row>>)
  {
    && Counted(rows, w, ids, visitSeconds, invalid, badSlot, badTime)
    && HoldsGroups(bySlot, AcceptedRows(rows, w), SlotOf)
    && HoldsGroups(byVehicle, AcceptedRows(rows, w), VehicleOf)
  }

  lemma RowsNext(rows: seq<Row>, r: Row, w: Window)
    ensures AcceptedRows(rows + [r], w)
      == if FateOf(r, w).Accepted? then AcceptedRows(rows, w) + [r] else AcceptedRows(rows, w)
    ensures forall fate ::
      CountFate(rows + [r], w, fate) == CountFate(rows, w, fate) + (if FateOf(r, w) == fate then 1 else 0)
    ensures (set x | x in rows + [r] :: x.vehicle) == (set x | x in rows :: x.vehicle) + {r.vehicle}
  {
    var longer := rows + [r];
    assert longer[..|rows|] == rows && longer[|rows|] == r;
    assert AcceptedRows(rows, w) + [] == AcceptedRows(rows, w);
  }

  lemma VisitsNext(acc: seq<Row>, r: Row, height: nat)
    ensures VisitSeconds(acc + [r]) == VisitSeconds(acc) + r.exit - r.enter + 1
    ensures Painted(acc + [r], height) == Painted(acc, height) + RowCells(r, height)
  {
    assert (acc + [r])[..|acc|] == acc;
  }

  lemma CountedNext(rows: seq<Row>, r: Row, w: Window, ids: set<string>, visitSeconds: int, invalid: nat, badSlot: nat,
    badTime: nat)
    requires Counted(rows, w, ids, visitSeconds, invalid, badSlot, badTime)
    ensures var fate := FateOf(r, w);
      Counted(rows + [r], w, ids + {r.vehicle},
        if fate.Accepted? then visitSeconds + r.exit - r.enter + 1 else visitSeconds,
        if fate.InvalidSpan? then invalid + 1 else invalid,
        if fate.SlotOutOfRange? then badSlot + 1 else badSlot,
        if fate.TimeOutOfRange? then badTime + 1 else badTime)
  {
    RowsNext(rows, r, w);
    VisitsNext(AcceptedRows(rows, w), r, 0);
  }

  lemma AcceptedGroups(acc: seq<Row>, r: Row, bySlot: map<int, seq<Row>>, byVehicle: map<string, seq<Row>>)
    requires HoldsGroups(bySlot, acc, SlotOf) && HoldsGroups(byVehicle, acc, VehicleOf)
    ensures HoldsGroups(AppendTo(bySlot, r.slot, r), acc + [r], SlotOf)
    ensures HoldsGroups(AppendTo(byVehicle, r.vehicle, r), acc + [r], VehicleOf)
  {
    AppendKeepsGroups(bySlot, acc, SlotOf, r);
    AppendKeepsGroups(byVehicle, acc, VehicleOf, r);
  }

  /** The row loop. `ok` is false when numpy raises on a slot the mask does not have. */
  method ReadRows(rows: seq<Row>, w: Window, grid: array2<bool>)
      returns (ok: bool, ids: set<string>, visitSeconds: int, invalid: nat, badSlot: nat, badTime: nat,
        bySlot: map<int, seq<Row>>, byVehicle: map<string, seq<Row>>)
    requires MaskCells(grid) == {}
    modifies grid
    ensures ok <==> forall r :: r in rows && FateOf(r, w).Accepted? ==> r.slot < grid.Length1
    ensures ok ==> Tallied(rows, w, ids, visitSeconds, invalid, badSlot, badTime, bySlot, byVehicle)
    ensures ok ==> MaskCells(grid) == Painted(AcceptedRows(rows, w), grid.Length0)
  {
    ok, ids, visitSeconds, invalid, badSlot, badTime, bySlot, byVehicle := true, {}, 0, 0, 0, 0, map[], map[];
    for n := 0 to |rows|
      invariant Tallied(rows[..n], w, ids, visitSeconds, invalid, badSlot, badTime, bySlot, byVehicle)
      invariant MaskCells(grid) == Painted(AcceptedRows(rows[..n], w), grid.Length0)
      invariant forall r :: r in rows[..n] && FateOf(r, w).Accepted? ==> r.slot < grid.Length1
    {
      var r := rows[n];
      TakeNext(rows, n);
      RowsNext(rows[..n], r, w);
      CountedNext(rows[..n], r, w, ids, visitSeconds, invalid, badSlot, badTime);
      if FateOf(r, w).Accepted? {
        VisitsNext(AcceptedRows(rows[..n], w), r, grid.Length0);
        AcceptedGroups(AcceptedRows(rows[..n], w), r, bySlot, byVehicle);
      }
      ids := ids + {r.vehicle};
      match FateOf(r, w)
      case InvalidSpan => invalid := invalid + 1;
      case SlotOutOfRange => badSlot := badSlot + 1;
      case TimeOutOfRange => badTime := badTime + 1;
      case Accepted =>
        visitSeconds := visitSeconds + r.exit - r.enter + 1;
        bySlot := AppendTo(bySlot, r.slot, r);
        byVehicle := AppendTo(byVehicle, r.vehicle, r);
        if r.slot >= grid.Length1 {
          assert r in rows;
          ok := false;
          return;
        }
        PaintSpan(grid, r);
    }
    TakeAll(rows);
  }

  /** The counters of the loop count rows and visits. */
  lemma ReportedCounts(rows: seq<Row>, w: Window)
    ensures CountFate(rows, w, InvalidSpan) == |Positions(rows, HasFate(w, InvalidSpan))|
    ensures CountFate(rows, w, SlotOutOfRange) == |Positions(rows, HasFate(w, SlotOutOfRange))|
    ensures CountFate(rows, w, TimeOutOfRange) == |Positions(rows, HasFate(w, TimeOutOfRange))|
    ensures VisitSeconds(AcceptedRows(rows, w)) == |Visits(AcceptedRows(rows, w))|
  {
    CountFateCountsRows(rows, w, InvalidSpan);
    CountFateCountsRows(rows, w, SlotOutOfRange);
    CountFateCountsRows(rows, w, TimeOutOfRange);
    AcceptedAreAccepted(rows, w);
    VisitSecondsCountVisits(AcceptedRows(rows, w));
  }

  const HEADER := ["sumo_vehicle_id", "slot", "t_enter", "t_exit"]

  /** `header` is `reader.fieldnames`, missing for an empty file. */
  method Reconcile(header: Option<seq<string>>, rows: seq<Row>, w: Window, mask: array2<bool>) returns (result: Result)
    ensures result.IndexError? <==> exists r :: r in rows && FateOf(r, w).Accepted? && r.slot >= mask.Length1
    ensures result.Audited? ==> Reports(result.summary, rows, w, mask.Length0, MaskCells(mask))
    ensures result.Audited? ==> (result.summary.headerMatches <==> header == Some(HEADER))
  {
    var grid := new bool[mask.Length0, mask.Length1]((i, j) => false);
    assert MaskCells(grid) == {};
    var ok, ids, visitSeconds, invalid, badSlot, badTime, bySlot, byVehicle := ReadRows(rows, w, grid);
    if !ok {
      return IndexError;
    }
    ghost var acc := AcceptedRows(rows, w);
    var slotOverlaps := CountOverlaps(bySlot, acc, SlotOf, SlotOrder);
    var vehicleOverlaps := CountOverlaps(byVehicle, acc, VehicleOf, VehicleOrder);
    var boundary := set v | v in byVehicle && exists r: Row :: r in byVehicle[v] && r.exit == w.seconds - 1;
    BoundaryOwners(byVehicle, acc, w.seconds - 1, boundary);
    var cells := MaskCells(mask);
    SlotCount(bySlot, acc);
    ReportedCounts(rows, w);
    result := Audited(Summary(header == Some(HEADER), |rows|, ids, |bySlot|, visitSeconds, invalid, badSlot, badTime,
      slotOverlaps, vehicleOverlaps, MaskCells(grid) == cells, visitSeconds == |cells|, boundary));
  }

  lemma SlotCount(bySlot: map<int, seq<Row>>, acc: seq<Row>)
    requires HoldsGroups(bySlot, acc, SlotOf)
    ensures |bySlot| == |set r | r in acc :: r.slot|
  {
    assert bySlot.Keys == (set r | r in acc :: r.slot);
    assert |bySlot| == |bySlot.Keys|;
  }

  lemma BoundaryOwners(spans: map<string, seq<Row>>, acc: seq<Row>, last: int, boundary: set<string>)
    requires HoldsGroups(spans, acc, VehicleOf)
    requires forall v :: v in boundary <==> v in spans && exists r :: r in spans[v] && r.exit == last
    ensures boundary == set r | r in acc && r.exit == last :: r.vehicle
  {
    forall v ensures v in boundary <==> exists r :: r in acc && r.exit == last && r.vehicle == v {
      GroupMembers(acc, VehicleOf, v);
      if r :| r in acc && r.exit == last && r.vehicle == v {
        assert VehicleOf(r) in KeysOf(acc, VehicleOf);
      }
    }
  }

  /** What a reader may conclude from a report. The cheap equality of visit seconds and mask
      cells tells overlap from no overlap as soon as the grid matches and the window fits the
      mask; the full verdict is cell-by-cell identification. */
  lemma ReportedVerdict(s: Summary, rows: seq<Row>, w: Window, height: nat, mask: set<Cell>)
    requires Reports(s, rows, w, height, mask)
    ensures s.exactMaskMatch && w.seconds <= height ==> (s.visitSecondsMatchMask <==> s.slotOverlaps == 0)
    ensures s.exactMaskMatch && s.slotOverlaps == 0 && s.vehicleOverlaps == 0
      <==> IdentifiesEveryVisit(AcceptedRows(rows, w), height, mask)
  {
    ReportedCounts(rows, w);
    OverlapCountIsPairs(AcceptedRows(rows, w), SlotOf, SlotOrder);
    OverlapCountIsPairs(AcceptedRows(rows, w), VehicleOf, VehicleOrder);
    VisitSecondsVerdict(rows, w, height);
    ExactIdentification(rows, w, height, mask);
  }

  lemma {:induction false} EveryRowHasOneFate(rows: seq<Row>, w: Window)
    ensures |rows| == CountFate(rows, w, InvalidSpan) + CountFate(rows, w, SlotOutOfRange)
      + CountFate(rows, w, TimeOutOfRange) + |AcceptedRows(rows, w)|
  {
    if rows != [] {
      EveryRowHasOneFate(rows[..|rows| - 1], w);
    }
  }

  /** The rejections a report lists are exactly what its verdict leaves out. */
  lemma ReportedRowsAreConserved(s: Summary, rows: seq<Row>, w: Window, height: nat, mask: set<Cell>)
    requires Reports(s, rows, w, height, mask)
    ensures s.rowCount == s.invalidSpans + s.slotOutOfRange + s.timeOutOfRange + |AcceptedRows(rows, w)|
    ensures s.invalidSpans + s.slotOutOfRange + s.timeOutOfRange == 0 <==> AcceptedRows(rows, w) == rows
  {
    ReportedCounts(rows, w);
    EveryRowHasOneFate(rows, w);
    AllAcceptedIff(rows, w);
  }

  lemma {:induction false} AllAcceptedIff(rows: seq<Row>, w: Window)
    ensures |AcceptedRows(rows, w)| <= |rows|
    ensures |AcceptedRows(rows, w)| == |rows| <==> AcceptedRows(rows, w) == rows
  {
    if rows != [] {
      AllAcceptedIff(rows[..|rows| - 1], w);
      assert rows == rows[..|rows| - 1] + [rows[|rows| - 1]];
    }
  }
}
