/** One-pass collection of edge attributes (`read_edge_attributes_streaming`).

    A line is given parsed: an edge tag (with its head, unless the pattern did not match), a lane
    tag, or anything else. Numbers are exact reals. */
module EdgeAttributes {
  import opened Counting
  import opened Options

  datatype Head = Head(id: string, source: Option<string>, target: Option<string>)

  datatype Line =
    | EdgeTag(head: Option<Head>)
    | LaneTag(length: Option<real>, speed: Option<real>)
    | OtherLine

  datatype Attributes = Attributes(length: real, speed: real, isBoundary: bool)
  datatype Stats = Stats(seen: nat, withoutLaneGeometry: nat, withoutJunctions: nat, nonPositiveSpeed: nat,
    entryFringe: nat, measured: nat)

  predicate InternalId(id: string) { id != [] && id[0] == ':' }

  predicate RealEdge(line: Line) { line.EdgeTag? && line.head.Some? && !InternalId(line.head.value.id) }

  /** A real edge line that names both its junctions. */
  predicate Junctioned(line: Line) {
    RealEdge(line) && line.head.value.source.Some? && line.head.value.target.Some?
  }

  // ----- what the registers and dictionaries hold after a prefix -----

  /** `current`: the id of the last edge tag, if that was a matched, real edge. */
  function Register(lines: seq<Line>): Option<string> {
    if lines == [] then None
    else
      var line := lines[|lines| - 1];
      if !line.EdgeTag? then Register(lines[..|lines| - 1])
      else if RealEdge(line) then Some(line.head.value.id)
      else None
  }

  datatype Field = Length | Speed

  function Reading(line: Line, field: Field): Option<real> {
    if !line.LaneTag? then None else if field.Length? then line.length else line.speed
  }

  function Max(a: real, b: real): real { if a < b then b else a }

  function Raise(m: map<string, real>, id: string, x: real): map<string, real> {
    m[id := Max(if id in m then m[id] else 0.0, x)]
  }

  function Readings(lines: seq<Line>, field: Field): map<string, real> {
    if lines == [] then map[]
    else
      var init, line := lines[..|lines| - 1], lines[|lines| - 1];
      var x := Reading(line, field);
      if Register(init).Some? && x.Some? then Raise(Readings(init, field), Register(init).value, x.value)
      else Readings(init, field)
  }

  function FromJunctions(lines: seq<Line>): map<string, string> {
    if lines == [] then map[]
    else
      var init, line := lines[..|lines| - 1], lines[|lines| - 1];
      if Junctioned(line) then FromJunctions(init)[line.head.value.id := line.head.value.source.value]
      else FromJunctions(init)
  }

  function Inflow(lines: seq<Line>): set<string> {
    set k | 0 <= k < |lines| && Junctioned(lines[k]) :: lines[k].head.value.target.value
  }

  function Count(lines: seq<Line>, p: Line -> bool): nat {
    if lines == [] then 0
    else Count(lines[..|lines| - 1], p) + (if p(lines[|lines| - 1]) then 1 else 0)
  }

  predicate NoJunctions(line: Line) { RealEdge(line) && !Junctioned(line) }

  // ----- the same, said of the whole file -----

  /** Lane line `k` belongs to edge `id`: the nearest edge tag above it opens `id`. */
  ghost predicate LaneOf(lines: seq<Line>, k: nat, id: string) {
    k < |lines| && lines[k].LaneTag? && Register(lines[..k]) == Some(id)
  }

  ghost predicate Reads(lines: seq<Line>, k: nat, id: string, field: Field, x: real) {
    LaneOf(lines, k, id) && Reading(lines[k], field) == Some(x)
  }

  ghost predicate HasReading(lines: seq<Line>, id: string, field: Field) {
    exists k: nat, x :: Reads(lines, k, id, field, x)
  }

  /** `v` is the largest of an edge's readings, or 0 if none is larger. */
  ghost predicate LargestReading(lines: seq<Line>, id: string, field: Field, v: real) {
    && v >= 0.0
    && (forall k: nat, x :: Reads(lines, k, id, field, x) ==> x <= v)
    && (v > 0.0 ==> exists k: nat :: Reads(lines, k, id, field, v))
  }

  lemma ReadsSnoc(lines: seq<Line>, line: Line, id: string, field: Field)
    ensures forall k: nat, x :: (Reads(lines + [line], k, id, field, x) <==>
      Reads(lines, k, id, field, x) || (k == |lines| && Register(lines) == Some(id) && Reading(line, field) == Some(x)))
  {
    var longer := lines + [line];
    forall k: nat | k <= |lines| ensures longer[..k] == lines[..k] {
    }
    assert lines[..|lines|] == lines;
  }

  lemma {:induction false} ReadingsAreLargest(lines: seq<Line>, id: string, field: Field)
    ensures id in Readings(lines, field) <==> HasReading(lines, id, field)
    ensures id in Readings(lines, field) ==> LargestReading(lines, id, field, Readings(lines, field)[id])
  {
    if lines != [] {
      var init, line := lines[..|lines| - 1], lines[|lines| - 1];
      assert lines == init + [line];
      ReadingsAreLargest(init, id, field);
      ReadsSnoc(init, line, id, field);
      var x := Reading(line, field);
      if Register(init) == Some(id) && x.Some? {
        assert Reads(lines, |init|, id, field, x.value);
        if id in Readings(init, field) {
          RaisedIsLargest(init, lines, id, field, Readings(init, field)[id], x.value);
        } else {
          assert forall k: nat, y :: !Reads(init, k, id, field, y);
        }
      } else {
        assert forall k: nat, y :: Reads(lines, k, id, field, y) <==> Reads(init, k, id, field, y);
      }
    }
  }

  lemma RaisedIsLargest(init: seq<Line>, lines: seq<Line>, id: string, field: Field, v: real, x: real)
    requires LargestReading(init, id, field, v)
    requires forall k: nat, y :: Reads(init, k, id, field, y) ==> Reads(lines, k, id, field, y)
    requires forall k: nat, y :: Reads(lines, k, id, field, y) ==> Reads(init, k, id, field, y) || y == x
    requires exists k: nat :: Reads(lines, k, id, field, x)
    ensures LargestReading(lines, id, field, Max(v, x))
  {
    if v >= x && v > 0.0 {
      var k: nat :| Reads(init, k, id, field, v);
      assert Reads(lines, k, id, field, v);
    }
  }

  predicate Names(line: Line, id: string) { Junctioned(line) && line.head.value.id == id }

  ghost predicate NamedIn(lines: seq<Line>, id: string) {
    exists k :: 0 <= k < |lines| && Names(lines[k], id)
  }

  ghost predicate LastNames(lines: seq<Line>, k: int, id: string) {
    && 0 <= k < |lines| && Names(lines[k], id)
    && forall j :: k < j < |lines| ==> !Names(lines[j], id)
  }

  /** The junction an edge starts from is that of its last junctioned line. */
  ghost predicate StartsAt(lines: seq<Line>, id: string, source: string) {
    exists k :: LastNames(lines, k, id) && lines[k].head.value.source.value == source
  }

  ghost predicate EndsAt(lines: seq<Line>, junction: string) {
    exists k :: 0 <= k < |lines| && Junctioned(lines[k]) && lines[k].head.value.target.value == junction
  }

  lemma {:induction false} FromJunctionsNamed(lines: seq<Line>, id: string)
    ensures id in FromJunctions(lines) <==> NamedIn(lines, id)
  {
    if lines != [] {
      var m := |lines| - 1;
      FromJunctionsNamed(lines[..m], id);
      assert forall k :: 0 <= k < m ==> lines[..m][k] == lines[k];
    }
  }

  lemma {:induction false} FromJunctionsAreStarts(lines: seq<Line>, id: string)
    requires id in FromJunctions(lines)
    ensures StartsAt(lines, id, FromJunctions(lines)[id])
  {
    var m := |lines| - 1;
    if Names(lines[m], id) {
      assert LastNames(lines, m, id);
    } else {
      FromJunctionsAreStarts(lines[..m], id);
      var k :| LastNames(lines[..m], k, id) && lines[..m][k].head.value.source.value == FromJunctions(lines)[id];
      assert forall j :: 0 <= j < m ==> lines[..m][j] == lines[j];
      assert LastNames(lines, k, id);
    }
  }

  ghost predicate DistinctJunctioned(lines: seq<Line>) {
    forall i, j :: 0 <= i < j < |lines| && Junctioned(lines[i]) && Junctioned(lines[j]) ==>
      lines[i].head.value.id != lines[j].head.value.id
  }

  lemma {:induction false} JunctionedCount(lines: seq<Line>)
    ensures Count(lines, RealEdge) == Count(lines, NoJunctions) + Count(lines, Junctioned)
    ensures |FromJunctions(lines)| <= Count(lines, Junctioned)
    ensures |FromJunctions(lines)| == Count(lines, Junctioned) <==> DistinctJunctioned(lines)
  {
    if lines != [] {
      var init, line := lines[..|lines| - 1], lines[|lines| - 1];
      assert lines == init + [line];
      JunctionedCount(init);
      if Junctioned(line) {
        var id := line.head.value.id;
        FromJunctionsNamed(init, id);
        var a, b := FromJunctions(init), FromJunctions(lines);
        assert b.Keys == a.Keys + {id};
        assert |b| == |b.Keys| && |a| == |a.Keys|;
        DistinctSnoc(init, line);
      } else {
        assert DistinctJunctioned(lines) <==> DistinctJunctioned(init) by {
          assert forall i :: 0 <= i < |init| ==> init[i] == lines[i];
        }
      }
    }
  }

  lemma DistinctSnoc(init: seq<Line>, line: Line)
    requires Junctioned(line)
    ensures DistinctJunctioned(init + [line]) <==>
      (DistinctJunctioned(init) && !NamedIn(init, line.head.value.id))
  {
    var lines := init + [line];
    assert forall i :: 0 <= i < |init| ==> init[i] == lines[i];
    assert lines[|init|] == line;
    if DistinctJunctioned(lines) {
      assert forall k :: 0 <= k < |init| ==> !Names(init[k], line.head.value.id);
    }
  }

  /** The register speaks of the last edge tag, if that tag opens a real edge. */
  lemma {:induction false} RegisterMeans(lines: seq<Line>, id: string)
    ensures Register(lines) == Some(id) <==> exists k :: OpenAtEnd(lines, k, id)
  {
    if lines != [] {
      var init, m := lines[..|lines| - 1], |lines| - 1;
      RegisterMeans(init, id);
      assert forall k :: 0 <= k < m ==> init[k] == lines[k];
      if lines[m].EdgeTag? {
        assert Register(lines) == Some(id) ==> OpenAtEnd(lines, m, id);
      } else {
        if k :| OpenAtEnd(init, k, id) { assert OpenAtEnd(lines, k, id); }
        if k :| OpenAtEnd(lines, k, id) { assert k < m && OpenAtEnd(init, k, id); }
      }
    }
  }

  /** Line `k` is the last edge tag, matched, not internal, and names `id`. */
  ghost predicate OpenAtEnd(lines: seq<Line>, k: int, id: string) {
    && 0 <= k < |lines| && lines[k].EdgeTag? && lines[k].head.Some?
    && lines[k].head.value.id == id && !(id != [] && id[0] == ':')
    && forall j :: k < j < |lines| ==> !lines[j].EdgeTag?
  }

  /** Lane `k` of the edge gives this length, or this speed. */
  lemma ReadsMeans(lines: seq<Line>, k: nat, id: string, x: real)
    ensures Reads(lines, k, id, Length, x) <==> LaneOf(lines, k, id) && lines[k].length == Some(x)
    ensures Reads(lines, k, id, Speed, x) <==> LaneOf(lines, k, id) && lines[k].speed == Some(x)
  {
  }

  lemma {:induction false} CountIsPositions(lines: seq<Line>, p: Line -> bool)
    ensures Count(lines, p) == |Positions(lines, p)|
  {
    if lines == [] {
      assert Positions(lines, p) == {};
    } else {
      CountIsPositions(lines[..|lines| - 1], p);
      PositionsSnoc(lines[..|lines| - 1], lines[|lines| - 1], p);
      assert lines[..|lines| - 1] + [lines[|lines| - 1]] == lines;
    }
  }

  // ----- the program -----

  /** The dictionaries of the scan. */
  datatype Tables = Tables(lengths: map<string, real>, speeds: map<string, real>, from: map<string, string>,
    inflow: set<string>)

  ghost function TablesOf(lines: seq<Line>): Tables {
    Tables(Readings(lines, Length), Readings(lines, Speed), FromJunctions(lines), Inflow(lines))
  }

  predicate NoGeometry(t: Tables, id: string) {
    id !in t.lengths || id !in t.speeds || t.lengths[id] <= 0.0
  }

  predicate StandsStill(t: Tables, id: string) { !NoGeometry(t, id) && t.speeds[id] <= 0.0 }

  predicate Measured(t: Tables, id: string) { !NoGeometry(t, id) && !StandsStill(t, id) }

  method Scan(lines: seq<Line>)
      returns (lengths: map<string, real>, speeds: map<string, real>, from: map<string, string>, inflow: set<string>,
        seen: nat, noJunctions: nat)
    ensures lengths == Readings(lines, Length) && speeds == Readings(lines, Speed)
    ensures from == FromJunctions(lines) && inflow == Inflow(lines)
    ensures seen == Count(lines, RealEdge) && noJunctions == Count(lines, NoJunctions)
  {
    lengths, speeds, from, inflow, seen, noJunctions := map[], map[], map[], {}, 0, 0;
    var current: Option<string> := None;
    for n := 0 to |lines|
      invariant current == Register(lines[..n])
      invariant lengths == Readings(lines[..n], Length) && speeds == Readings(lines[..n], Speed)
      invariant from == FromJunctions(lines[..n]) && inflow == Inflow(lines[..n])
      invariant seen == Count(lines[..n], RealEdge) && noJunctions == Count(lines[..n], NoJunctions)
    {
      var line := lines[n];
      assert lines[..n + 1][..n] == lines[..n];
      InflowSnoc(lines[..n], line);
      assert lines[..n + 1] == lines[..n] + [line];
      match line
      case EdgeTag(None) => current := None;
      case EdgeTag(Some(head)) =>
        if InternalId(head.id) {
          current := None;
        } else {
          current := Some(head.id);
          seen := seen + 1;
          if head.source.None? || head.target.None? {
            noJunctions := noJunctions + 1;
          } else {
            from := from[head.id := head.source.value];
            inflow := inflow + {head.target.value};
          }
        }
      case LaneTag(length, speed) =>
        if current.Some? {
          if length.Some? {
            lengths := Raise(lengths, current.value, length.value);
          }
          if speed.Some? {
            speeds := Raise(speeds, current.value, speed.value);
          }
        }
      case OtherLine =>
    }
    assert lines[..|lines|] == lines;
  }

  lemma InflowSnoc(lines: seq<Line>, line: Line)
    ensures Inflow(lines + [line]) == Inflow(lines) + (if Junctioned(line) then {line.head.value.target.value} else {})
  {
    var longer := lines + [line];
    assert forall k :: 0 <= k < |lines| ==> longer[k] == lines[k];
    assert longer[|lines|] == line;
    forall j
      ensures j in Inflow(longer) <==> j in Inflow(lines) || (Junctioned(line) && j == line.head.value.target.value)
    {
      if j in Inflow(lines) {
        var k :| 0 <= k < |lines| && Junctioned(lines[k]) && lines[k].head.value.target.value == j;
        assert Junctioned(longer[k]);
      }
      if Junctioned(line) && j == line.head.value.target.value {
        assert Junctioned(longer[|lines|]);
      }
    }
  }

  function NoGeometryCount(ids: set<string>, t: Tables): nat { |set id | id in ids && NoGeometry(t, id)| }

  function StandingCount(ids: set<string>, t: Tables): nat { |set id | id in ids && StandsStill(t, id)| }

  function FringeCount(edges: map<string, Attributes>): nat { |set id | id in edges && edges[id].isBoundary| }

  ghost predicate Describes(edges: map<string, Attributes>, ids: set<string>, t: Tables)
    requires ids <= t.from.Keys
  {
    && (forall id :: id in edges <==> id in ids && Measured(t, id))
    && (forall id :: id in edges ==> edges[id] == AttributesOf(t, id))
  }

  function AttributesOf(t: Tables, id: string): Attributes
    requires id in t.from && Measured(t, id)
  {
    Attributes(t.lengths[id], t.speeds[id], t.from[id] !in t.inflow)
  }

  method ReadEdgeAttributes(lines: seq<Line>) returns (edges: map<string, Attributes>, stats: Stats)
    ensures Describes(edges, FromJunctions(lines).Keys, TablesOf(lines))
    ensures stats.seen == Count(lines, RealEdge) && stats.withoutJunctions == Count(lines, NoJunctions)
    ensures stats.withoutLaneGeometry == NoGeometryCount(FromJunctions(lines).Keys, TablesOf(lines))
    ensures stats.nonPositiveSpeed == StandingCount(FromJunctions(lines).Keys, TablesOf(lines))
    ensures stats.measured == |edges| && stats.entryFringe == FringeCount(edges)
  {
    var lengths, speeds, from, inflow, seen, noJunctions := Scan(lines);
    var noGeometry, standing, fringe;
    edges, noGeometry, standing, fringe := Classify(Tables(lengths, speeds, from, inflow));
    stats := Stats(seen, noGeometry, noJunctions, standing, fringe, |edges|);
  }

  /** The loop over the junctioned edges. */
  method Classify(t: Tables) returns (edges: map<string, Attributes>, noGeometry: nat, standing: nat, fringe: nat)
    ensures Describes(edges, t.from.Keys, t)
    ensures noGeometry == NoGeometryCount(t.from.Keys, t) && standing == StandingCount(t.from.Keys, t)
    ensures fringe == FringeCount(edges)
  {
    edges, noGeometry, standing, fringe := map[], 0, 0, 0;
    var left := t.from.Keys;
    ghost var done: set<string> := {};
    while left != {}
      invariant Divided(t.from.Keys, done, left)
      invariant Classified(edges, done, t, noGeometry, standing, fringe)
      decreases left
    {
      var id :| id in left;
      TakeOne(t.from.Keys, done, left, id);
      ClassifyOne(edges, done, t, noGeometry, standing, fringe, id);
      left, done := left - {id}, done + {id};
      if id !in t.lengths || id !in t.speeds || t.lengths[id] <= 0.0 {
        noGeometry := noGeometry + 1;
      } else if t.speeds[id] <= 0.0 {
        standing := standing + 1;
      } else {
        var attributes := Attributes(t.lengths[id], t.speeds[id], t.from[id] !in t.inflow);
        edges := edges[id := attributes];
        if attributes.isBoundary {
          fringe := fringe + 1;
        }
      }
    }
    assert done == t.from.Keys;
  }

  ghost predicate Divided(all: set<string>, done: set<string>, left: set<string>) { done + left == all && done !! left }

  lemma TakeOne(all: set<string>, done: set<string>, left: set<string>, id: string)
    requires Divided(all, done, left) && id in left
    ensures id in all && id !in done && Divided(all, done + {id}, left - {id})
  {
  }

  /** The classification loop after the edges in `done`. */
  ghost predicate Classified(edges: map<string, Attributes>, done: set<string>, t: Tables, noGeometry: nat,
    standing: nat, fringe: nat)
  {
    && done <= t.from.Keys && Describes(edges, done, t)
    && noGeometry == NoGeometryCount(done, t) && standing == StandingCount(done, t) && fringe == FringeCount(edges)
  }

  lemma ClassifyOne(edges: map<string, Attributes>, done: set<string>, t: Tables, noGeometry: nat, standing: nat,
    fringe: nat, id: string)
    requires Classified(edges, done, t, noGeometry, standing, fringe) && id in t.from && id !in done
    ensures NoGeometry(t, id) ==> Classified(edges, done + {id}, t, noGeometry + 1, standing, fringe)
    ensures StandsStill(t, id) ==> Classified(edges, done + {id}, t, noGeometry, standing + 1, fringe)
    ensures Measured(t, id) ==>
      var a := AttributesOf(t, id);
      Classified(edges[id := a], done + {id}, t, noGeometry, standing, if a.isBoundary then fringe + 1 else fringe)
  {
    CountNoGeometry(done, id, t);
    CountStanding(done, id, t);
    DescribeOne(edges, done, id, t);
    if Measured(t, id) { FringeOne(edges, id, AttributesOf(t, id)); }
  }

  lemma DescribeOne(edges: map<string, Attributes>, done: set<string>, id: string, t: Tables)
    requires done <= t.from.Keys && id in t.from && id !in done && Describes(edges, done, t)
    ensures id !in edges
    ensures !Measured(t, id) ==> Describes(edges, done + {id}, t)
    ensures Measured(t, id) ==> Describes(edges[id := AttributesOf(t, id)], done + {id}, t)
  {
  }

  lemma CountNoGeometry(done: set<string>, id: string, t: Tables)
    requires id !in done
    ensures NoGeometryCount(done + {id}, t) == NoGeometryCount(done, t) + (if NoGeometry(t, id) then 1 else 0)
  {
    var before, after := set e | e in done && NoGeometry(t, e), set e | e in done + {id} && NoGeometry(t, e);
    assert after == before + (if NoGeometry(t, id) then {id} else {});
  }

  lemma CountStanding(done: set<string>, id: string, t: Tables)
    requires id !in done
    ensures StandingCount(done + {id}, t) == StandingCount(done, t) + (if StandsStill(t, id) then 1 else 0)
  {
    var before, after := set e | e in done && StandsStill(t, e), set e | e in done + {id} && StandsStill(t, e);
    assert after == before + (if StandsStill(t, id) then {id} else {});
  }

  lemma FringeOne(edges: map<string, Attributes>, id: string, a: Attributes)
    requires id !in edges
    ensures FringeCount(edges[id := a]) == FringeCount(edges) + (if a.isBoundary then 1 else 0)
  {
    var more := edges[id := a];
    assert (set e | e in more && more[e].isBoundary)
      == (set e | e in edges && edges[e].isBoundary) + (if a.isBoundary then {id} else {});
  }

  // ----- main results -----

  /** Every edge line is accounted for exactly when no two junctioned edge lines share an id;
      otherwise each repetition is missing from the sum. */
  lemma EdgesAreConserved(lines: seq<Line>, edges: map<string, Attributes>)
    requires Describes(edges, FromJunctions(lines).Keys, TablesOf(lines))
    ensures var keys, t := FromJunctions(lines).Keys, TablesOf(lines);
      var accounted := Count(lines, NoJunctions) + NoGeometryCount(keys, t) + StandingCount(keys, t) + |edges|;
      && Count(lines, RealEdge) >= accounted
      && (Count(lines, RealEdge) == accounted <==> DistinctJunctioned(lines))
  {
    JunctionedCount(lines);
    EveryKeyIsClassified(TablesOf(lines), FromJunctions(lines).Keys, edges);
    assert |FromJunctions(lines)| == |FromJunctions(lines).Keys|;
  }

  lemma EveryKeyIsClassified(t: Tables, keys: set<string>, edges: map<string, Attributes>)
    requires forall id :: id in edges <==> id in keys && Measured(t, id)
    ensures |keys| == NoGeometryCount(keys, t) + StandingCount(keys, t) + |edges|
  {
    var a := set id | id in keys && NoGeometry(t, id);
    var b := set id | id in keys && StandsStill(t, id);
    forall id ensures id in keys <==> id in a || id in b || id in edges.Keys {
    }
    ThreeParts(keys, a, b, edges.Keys);
    assert |edges| == |edges.Keys|;
  }

  lemma ThreeParts<T>(keys: set<T>, a: set<T>, b: set<T>, c: set<T>)
    requires keys == a + b + c && a !! b !! c
    ensures |keys| == |a| + |b| + |c|
  {
  }

  ghost predicate NoneAbove(lines: seq<Line>, id: string, field: Field) {
    forall k: nat, x :: Reads(lines, k, id, field, x) ==> x <= 0.0
  }

  /** Why an edge is not measured, in terms of its own lanes: none gives a speed, or none a
      length above 0; else it stands still iff none gives a speed above 0. */
  lemma ReasonsMean(lines: seq<Line>, id: string)
    ensures NoGeometry(TablesOf(lines), id) <==> !HasReading(lines, id, Speed) || NoneAbove(lines, id, Length)
    ensures StandsStill(TablesOf(lines), id) <==>
      HasReading(lines, id, Speed) && !NoneAbove(lines, id, Length) && NoneAbove(lines, id, Speed)
  {
    PositiveReading(lines, id, Length);
    PositiveReading(lines, id, Speed);
    ReadingsAreLargest(lines, id, Speed);
  }

  lemma PositiveReading(lines: seq<Line>, id: string, field: Field)
    ensures NoneAbove(lines, id, field) <==> id !in Readings(lines, field) || Readings(lines, field)[id] <= 0.0
  {
    ReadingsAreLargest(lines, id, field);
    if id in Readings(lines, field) {
      var v := Readings(lines, field)[id];
      if v > 0.0 {
        var k: nat :| Reads(lines, k, id, field, v);
      }
    }
  }

  /** What a measured edge reports, in terms of the file alone: the largest length and speed of
      its own lanes, both positive, and a boundary flag that depends on whether any junctioned
      real edge anywhere in the file ends where this one starts. */
  lemma MeasuredEdge(lines: seq<Line>, edges: map<string, Attributes>, id: string)
    requires Describes(edges, FromJunctions(lines).Keys, TablesOf(lines)) && id in edges
    ensures var a := edges[id];
      && a.length > 0.0 && LargestReading(lines, id, Length, a.length)
      && a.speed > 0.0 && LargestReading(lines, id, Speed, a.speed)
      && (exists source :: StartsAt(lines, id, source) && (a.isBoundary <==> !EndsAt(lines, source)))
  {
    ReadingsAreLargest(lines, id, Length);
    ReadingsAreLargest(lines, id, Speed);
    FromJunctionsAreStarts(lines, id);
    var source := FromJunctions(lines)[id];
    assert StartsAt(lines, id, source);
    assert source in Inflow(lines) <==> EndsAt(lines, source);
  }
}
