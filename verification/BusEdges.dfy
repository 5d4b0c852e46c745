/** The one-pass scan for bus-eligible edges (`bus_eligible_edge_ids` and `_lane_allows_bus`).

    A line is an edge line if it contains an edge tag, otherwise a lane line if it contains a
    lane tag; attributes are given already parsed, `allow` and `disallow` already split. */
module BusEdges {
  import opened Options
  import opened Lists

  datatype Line =
    | EdgeLine(id: Option<string>, role: Option<string>, selfClosed: bool)
    | LaneLine(allow: Option<seq<string>>, disallow: Option<seq<string>>)
    | OtherLine

  const BUS := "bus"

  function LaneAllowsBus(allow: Option<seq<string>>, disallow: Option<seq<string>>): bool {
    if allow.Some? && disallow.Some? then false
    else if allow.Some? then BUS in allow.value
    else if disallow.Some? then BUS !in disallow.value
    else true
  }

  /** A bus may use a lane unless both lists are given, an allow list leaves it out, or a disallow
      list names it. */
  lemma LaneAllowsBusMeans(allow: Option<seq<string>>, disallow: Option<seq<string>>)
    ensures !LaneAllowsBus(allow, disallow) <==>
      || (allow.Some? && disallow.Some?)
      || (allow.Some? && "bus" !in allow.value)
      || (disallow.Some? && "bus" in disallow.value)
  {
  }

  predicate Internal(id: Option<string>, role: Option<string>) {
    id.None? || (id.value != [] && id.value[0] == ':') || role == Some("internal")
  }

  // ----- said of the whole file -----

  /** A lane line that permits a bus belongs to the nearest edge line above it. */
  ghost predicate PermitsBus(lines: seq<Line>, i: int, k: int) {
    && 0 <= i < k < |lines| && lines[k].LaneLine? && LaneAllowsBus(lines[k].allow, lines[k].disallow)
    && forall j :: i < j < k ==> !lines[j].EdgeLine?
  }

  ghost predicate OpensRealEdge(line: Line, id: string) {
    line.EdgeLine? && line.id == Some(id) && !Internal(line.id, line.role) && !line.selfClosed
  }

  ghost predicate Eligible(lines: seq<Line>, id: string) {
    exists i, k :: 0 <= i < |lines| && OpensRealEdge(lines[i], id) && PermitsBus(lines, i, k)
  }

  /** Line `i` is the edge line the register speaks of after the lines read so far. */
  ghost predicate Open(lines: seq<Line>, i: int) {
    0 <= i < |lines| && lines[i].EdgeLine? && forall j :: i < j < |lines| ==> !lines[j].EdgeLine?
  }

  ghost predicate Settled(lines: seq<Line>, id: string) {
    exists i, k, e :: 0 <= i < |lines| && OpensRealEdge(lines[i], id) && PermitsBus(lines, i, k)
      && i < e < |lines| && lines[e].EdgeLine?
  }

  /** An edge is eligible iff some line opens it with a plain id, no internal role and no
      self-closing end, and below it, before any other edge line, some lane lets a bus in. */
  lemma EligibleMeans(lines: seq<Line>, id: string)
    ensures Eligible(lines, id) <==> exists i, k :: PlainEdgeAt(lines, i, id) && BusLaneOf(lines, i, k)
  {
    if Eligible(lines, id) {
      var i, k :| 0 <= i < |lines| && OpensRealEdge(lines[i], id) && PermitsBus(lines, i, k);
      LaneAllowsBusMeans(lines[k].allow, lines[k].disallow);
      assert PlainEdgeAt(lines, i, id) && BusLaneOf(lines, i, k);
    }
    if i, k :| PlainEdgeAt(lines, i, id) && BusLaneOf(lines, i, k) {
      LaneAllowsBusMeans(lines[k].allow, lines[k].disallow);
      assert OpensRealEdge(lines[i], id) && PermitsBus(lines, i, k);
    }
  }

  ghost predicate PlainEdgeAt(lines: seq<Line>, i: int, id: string) {
    && 0 <= i < |lines| && lines[i].EdgeLine? && lines[i].id == Some(id) && !lines[i].selfClosed
    && (id != [] ==> id[0] != ':') && lines[i].role != Some("internal")
  }

  ghost predicate BusLaneOf(lines: seq<Line>, i: int, k: int) {
    && 0 <= i < k < |lines| && (forall j :: i < j <= k ==> !lines[j].EdgeLine?)
    && lines[k].LaneLine? && (lines[k].allow.None? || lines[k].disallow.None?)
    && (lines[k].allow.Some? ==> "bus" in lines[k].allow.value)
    && (lines[k].disallow.Some? ==> "bus" !in lines[k].disallow.value)
  }

  /** What the two registers and the set mean after a prefix of the file. */
  ghost predicate Tracks(lines: seq<Line>, allowed: set<string>, pendingId: Option<string>, pendingAllows: bool) {
    && (forall id :: id in allowed <==> Settled(lines, id))
    && (pendingId.Some? ==>
          exists i :: Open(lines, i) && OpensRealEdge(lines[i], pendingId.value)
                      && (pendingAllows <==> exists k :: PermitsBus(lines, i, k)))
    && (pendingId.None? ==> forall i, id :: Open(lines, i) ==> !OpensRealEdge(lines[i], id))
  }

  lemma PermitsStays(lines: seq<Line>, line: Line, i: int, k: int)
    requires k < |lines|
    ensures PermitsBus(lines + [line], i, k) <==> PermitsBus(lines, i, k)
  {
    var longer := lines + [line];
    assert forall j :: 0 <= j < |lines| ==> longer[j] == lines[j];
  }

  lemma SettledAfterEdge(lines: seq<Line>, line: Line, id: string)
    requires line.EdgeLine?
    ensures Settled(lines + [line], id) <==> Eligible(lines, id)
  {
    var longer := lines + [line];
    assert forall j :: 0 <= j < |lines| ==> longer[j] == lines[j];
    if Settled(longer, id) {
      var i, k, e :| 0 <= i < |longer| && OpensRealEdge(longer[i], id) && PermitsBus(longer, i, k) && i < e < |longer|
        && longer[e].EdgeLine?;
      PermitsStays(lines, line, i, k);
    }
    if Eligible(lines, id) {
      var i, k :| 0 <= i < |lines| && OpensRealEdge(lines[i], id) && PermitsBus(lines, i, k);
      PermitsStays(lines, line, i, k);
      assert longer[|lines|].EdgeLine? && OpensRealEdge(longer[i], id);
    }
  }

  lemma SettledAfterOther(lines: seq<Line>, line: Line, id: string)
    requires !line.EdgeLine?
    ensures Settled(lines + [line], id) <==> Settled(lines, id)
  {
    var longer := lines + [line];
    assert forall j :: 0 <= j < |lines| ==> longer[j] == lines[j];
    if Settled(longer, id) {
      var i, k, e :| 0 <= i < |longer| && OpensRealEdge(longer[i], id) && PermitsBus(longer, i, k) && i < e < |longer|
        && longer[e].EdgeLine?;
      assert k < e;
      PermitsStays(lines, line, i, k);
      assert lines[e].EdgeLine? && OpensRealEdge(lines[i], id);
    }
    if Settled(lines, id) {
      var i, k, e :| 0 <= i < |lines| && OpensRealEdge(lines[i], id) && PermitsBus(lines, i, k) && i < e < |lines|
        && lines[e].EdgeLine?;
      PermitsStays(lines, line, i, k);
      assert longer[e].EdgeLine? && OpensRealEdge(longer[i], id);
    }
  }

  /** An eligible edge that no later edge line has settled is the one in the register. */
  lemma UnsettledIsPending(lines: seq<Line>, allowed: set<string>, pendingId: Option<string>, pendingAllows: bool,
    id: string)
    requires Tracks(lines, allowed, pendingId, pendingAllows) && Eligible(lines, id) && !Settled(lines, id)
    ensures pendingId == Some(id) && pendingAllows
  {
    var i, k :| 0 <= i < |lines| && OpensRealEdge(lines[i], id) && PermitsBus(lines, i, k);
    assert Open(lines, i);
  }

  lemma PendingIsEligible(lines: seq<Line>, allowed: set<string>, pendingId: Option<string>, pendingAllows: bool)
    requires Tracks(lines, allowed, pendingId, pendingAllows) && pendingId.Some? && pendingAllows
    ensures Eligible(lines, pendingId.value)
  {
  }

  /** Settled edges and the pending one are together exactly the eligible ones. */
  lemma Flush(lines: seq<Line>, allowed: set<string>, pendingId: Option<string>, pendingAllows: bool)
    requires Tracks(lines, allowed, pendingId, pendingAllows)
    ensures var all := if pendingId.Some? && pendingAllows then allowed + {pendingId.value} else allowed;
      forall id :: id in all <==> Eligible(lines, id)
  {
    forall id | Eligible(lines, id) && !Settled(lines, id) ensures pendingId == Some(id) && pendingAllows {
      UnsettledIsPending(lines, allowed, pendingId, pendingAllows, id);
    }
    if pendingId.Some? && pendingAllows { PendingIsEligible(lines, allowed, pendingId, pendingAllows); }
    assert forall id :: Settled(lines, id) ==> Eligible(lines, id);
  }

  lemma ReadOther(lines: seq<Line>, line: Line, allowed: set<string>, pendingId: Option<string>, pendingAllows: bool)
    requires Tracks(lines, allowed, pendingId, pendingAllows) && !line.EdgeLine?
    ensures var now := pendingAllows || (line.LaneLine? && LaneAllowsBus(line.allow, line.disallow));
      Tracks(lines + [line], allowed, pendingId, if pendingId.Some? then now else pendingAllows)
  {
    var longer := lines + [line];
    assert forall j :: 0 <= j < |lines| ==> longer[j] == lines[j];
    forall id ensures id in allowed <==> Settled(longer, id) {
      SettledAfterOther(lines, line, id);
    }
    forall i ensures Open(longer, i) <==> Open(lines, i) {
      if Open(lines, i) {
        forall j | i < j < |longer| ensures !longer[j].EdgeLine? {
        }
      }
    }
    if pendingId.Some? {
      var i :| Open(lines, i) && OpensRealEdge(lines[i], pendingId.value)
        && (pendingAllows <==> exists k :: PermitsBus(lines, i, k));
      forall k ensures PermitsBus(longer, i, k)
        <==> PermitsBus(lines, i, k) || (k == |lines| && line.LaneLine? && LaneAllowsBus(line.allow, line.disallow))
      {
        if k < |lines| { PermitsStays(lines, line, i, k); }
      }
      assert line.LaneLine? && LaneAllowsBus(line.allow, line.disallow) ==> PermitsBus(longer, i, |lines|);
      assert Open(longer, i) && OpensRealEdge(longer[i], pendingId.value);
    }
  }

  lemma ReadEdge(lines: seq<Line>, line: Line, all: set<string>, pendingId: Option<string>)
    requires line.EdgeLine? && forall id :: id in all <==> Eligible(lines, id)
    requires pendingId == if Internal(line.id, line.role) || line.selfClosed then None else line.id
    ensures Tracks(lines + [line], all, pendingId, false)
  {
    var longer := lines + [line];
    forall id ensures id in all <==> Settled(longer, id) {
      SettledAfterEdge(lines, line, id);
    }
    forall i ensures Open(longer, i) <==> i == |lines| {
      assert longer[|lines|].EdgeLine?;
    }
    assert longer[|lines|] == line;
  }

  /** The scan returns the eligible edges and no others. */
  method BusEligibleEdgeIds(lines: seq<Line>) returns (allowed: set<string>)
    ensures forall id :: id in allowed <==> Eligible(lines, id)
  {
    allowed := {};
    var pendingId: Option<string> := None;
    var pendingAllowsBus := false;
    for n := 0 to |lines|
      invariant Tracks(lines[..n], allowed, pendingId, pendingAllowsBus)
    {
      var line := lines[n];
      TakeNext(lines, n);
      if line.EdgeLine? {
        Flush(lines[..n], allowed, pendingId, pendingAllowsBus);
        if pendingId.Some? && pendingAllowsBus {
          allowed := allowed + {pendingId.value};
        }
        assert forall id :: id in allowed <==> Eligible(lines[..n], id);
        pendingId := if Internal(line.id, line.role) then None else line.id;
        pendingAllowsBus := false;
        if line.selfClosed {
          pendingId := None;
        }
        ReadEdge(lines[..n], line, allowed, pendingId);
      } else {
        ReadOther(lines[..n], line, allowed, pendingId, pendingAllowsBus);
        if pendingId.Some? && line.LaneLine? {
          if LaneAllowsBus(line.allow, line.disallow) {
            pendingAllowsBus := true;
          }
        }
      }
    }
    TakeAll(lines);
    Flush(lines, allowed, pendingId, pendingAllowsBus);
    if pendingId.Some? && pendingAllowsBus {
      allowed := allowed + {pendingId.value};
    }
  }
}
