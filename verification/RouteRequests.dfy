/** Routing requests for consecutive bus fixes (`_route_requests`) and the binding of the routed
    paths back to their segments (the loop of `_prepare_session`). */
module RouteRequests {
  import opened Lists
  import opened Options
  import opened Sorting
  import opened BusMatching
  import BusSession
  import Numerals

  const GAP_CEILING_S := 120
  const DWELL_RADIUS_M := 15.0

  datatype Request = Request(routeId: string, vehicleKey: string, segment: nat, start: Candidate, end: Candidate)
  datatype Outcome = Requests(requests: seq<Request>) | NotIncreasing

  type Fleet = map<string, seq<Fix>>

  function SquaredDistance(a: Point, b: Point): real {
    (b.x - a.x) * (b.x - a.x) + (b.y - a.y) * (b.y - a.y)
  }

  /** `math.hypot(dx, dy) > DWELL_RADIUS_M` without the square root. */
  predicate Routable(a: Fix, b: Fix) {
    && b.timestampS - a.timestampS <= GAP_CEILING_S
    && a.candidate.Some? && b.candidate.Some?
    && SquaredDistance(a.candidate.value.snapped, b.candidate.value.snapped) > DWELL_RADIUS_M * DWELL_RADIUS_M
  }

  /** What `math.hypot` stands for. */
  ghost predicate IsDistance(d: real, p: Point, q: Point) {
    d >= 0.0 && d * d == (p.x - q.x) * (p.x - q.x) + (p.y - q.y) * (p.y - q.y)
  }

  lemma DistanceSquared(d: real, p: Point, q: Point)
    requires IsDistance(d, p, q)
    ensures SquaredDistance(p, q) == d * d
  {
    var x, y := p.x - q.x, p.y - q.y;
    assert (q.x - p.x) * (q.x - p.x) == x * x;
    assert (q.y - p.y) * (q.y - p.y) == y * y;
  }

  lemma SquaresKeepOrder(d: real)
    requires d >= 0.0
    ensures d * d > 225.0 <==> d > 15.0
  {
    if d > 15.0 {
      assert d * d > 15.0 * d;
    } else {
      assert d * d <= 15.0 * d;
    }
  }

  /** A pair of fixes is routed iff it is at most 120 s and, snapped, more than 15 m apart. */
  lemma RoutableMeans(a: Fix, b: Fix, d: real)
    requires a.candidate.Some? && b.candidate.Some? ==>
      IsDistance(d, a.candidate.value.snapped, b.candidate.value.snapped)
    ensures Routable(a, b) <==>
      b.timestampS - a.timestampS <= 120 && a.candidate.Some? && b.candidate.Some? && d > 15.0
  {
    if a.candidate.Some? && b.candidate.Some? {
      DistanceSquared(d, a.candidate.value.snapped, b.candidate.value.snapped);
      SquaresKeepOrder(d);
    }
  }

  function RouteId(n: nat): string { "segment-" + Numerals.Padded(n, 7) }

  // ----- what the list of requests must be -----

  ghost predicate RoutableSegment(vehicles: Fleet, k: string, n: nat) {
    k in vehicles && n + 1 < |vehicles[k]| && Routable(vehicles[k][n], vehicles[k][n + 1])
  }

  /** One request stands for one routable segment and carries its number as its id. */
  ghost predicate Sound(r: Request, i: nat, vehicles: Fleet) {
    && RoutableSegment(vehicles, r.vehicleKey, r.segment)
    && r.routeId == RouteId(i)
    && r.start == vehicles[r.vehicleKey][r.segment].candidate.value
    && r.end == vehicles[r.vehicleKey][r.segment + 1].candidate.value
  }

  ghost predicate Before(a: Request, b: Request) {
    if a.vehicleKey == b.vehicleKey then a.segment < b.segment else StringLeq(a.vehicleKey, b.vehicleKey)
  }

  ghost predicate InOrder(requests: seq<Request>) {
    forall i, j :: 0 <= i < j < |requests| ==> Before(requests[i], requests[j])
  }

  ghost predicate AllSound(requests: seq<Request>, vehicles: Fleet) {
    forall i :: 0 <= i < |requests| ==> Sound(requests[i], i, vehicles)
  }

  ghost predicate Requested(requests: seq<Request>, k: string, n: nat) {
    exists i :: 0 <= i < |requests| && requests[i].vehicleKey == k && requests[i].segment == n
  }

  ghost predicate Increases(fixes: seq<Fix>) {
    forall n :: 0 <= n < |fixes| - 1 ==> fixes[n].timestampS < fixes[n + 1].timestampS
  }

  /** The list said by distance: a segment is requested iff it takes at most 120 s, both ends have
      a candidate and these lie more than 15 m apart. */
  ghost predicate ByDistance(requests: seq<Request>, vehicles: Fleet, k: string, n: nat) {
    && (Requested(requests, k, n) ==> Segment(vehicles, k, n))
    && (Segment(vehicles, k, n) ==>
          IffFarApart(Requested(requests, k, n), vehicles[k][n].candidate.value.snapped,
            vehicles[k][n + 1].candidate.value.snapped))
  }

  /** `answer` says whether the distance exceeds 15 m, in whatever way the distance is computed. */
  ghost predicate IffFarApart(answer: bool, p: Point, q: Point) {
    forall d :: IsDistance(d, p, q) ==> (answer <==> d > 15.0)
  }

  /** Two consecutive fixes with candidates, at most 120 s apart. */
  ghost predicate Segment(vehicles: Fleet, k: string, n: nat) {
    && k in vehicles && n + 1 < |vehicles[k]|
    && vehicles[k][n + 1].timestampS - vehicles[k][n].timestampS <= 120
    && vehicles[k][n].candidate.Some? && vehicles[k][n + 1].candidate.Some?
  }

  lemma RequestsByDistance(requests: seq<Request>, vehicles: Fleet, k: string, n: nat)
    requires Requested(requests, k, n) <==> RoutableSegment(vehicles, k, n)
    ensures ByDistance(requests, vehicles, k, n)
  {
    if Segment(vehicles, k, n) {
      var a, b := vehicles[k][n], vehicles[k][n + 1];
      forall d | IsDistance(d, a.candidate.value.snapped, b.candidate.value.snapped)
        ensures Requested(requests, k, n) <==> d > 15.0
      {
        RoutableMeans(a, b, d);
      }
    }
  }

  lemma AllByDistance(requests: seq<Request>, vehicles: Fleet)
    requires AllSound(requests, vehicles)
    requires forall k: string, n: nat :: RoutableSegment(vehicles, k, n) ==> Requested(requests, k, n)
    ensures forall k: string, n: nat :: ByDistance(requests, vehicles, k, n)
  {
    forall k: string, n: nat ensures ByDistance(requests, vehicles, k, n) {
      if Requested(requests, k, n) {
        var i :| 0 <= i < |requests| && requests[i].vehicleKey == k && requests[i].segment == n;
        assert Sound(requests[i], i, vehicles);
      }
      RequestsByDistance(requests, vehicles, k, n);
    }
  }

  // ----- the loops -----

  /** `sorted` over the keys of a dictionary. */
  method SortKeys(keys: set<string>) returns (s: seq<string>)
    ensures forall k :: k in s <==> k in keys
    ensures Sorted(s, StringLeq) && Distinct(s)
  {
    var list: seq<string> := [];
    var left := keys;
    while left != {}
      invariant left <= keys && Distinct(list)
      invariant forall k :: k in list <==> k in keys && k !in left
      decreases left
    {
      var k :| k in left;
      list := list + [k];
      left := left - {k};
    }
    StringOrder();
    SortElements(list, StringLeq);
    SortSorted(list, StringLeq);
    SortDistinct(list, StringLeq);
    s := Sort(list, StringLeq);
    assert forall k :: k in s <==> k in multiset(s);
    assert forall k :: k in list <==> k in multiset(list);
  }

  ghost predicate EarlierKeys(requests: seq<Request>, key: string) {
    forall i :: 0 <= i < |requests| ==> requests[i].vehicleKey != key && StringLeq(requests[i].vehicleKey, key)
  }

  /** The requests after the first `n` segments of one vehicle. */
  ghost predicate VehiclePrefix(vehicles: Fleet, key: string, earlier: seq<Request>, requests: seq<Request>, n: nat) {
    && earlier <= requests && AllSound(requests, vehicles) && InOrder(requests)
    && (forall i :: |earlier| <= i < |requests| ==> requests[i].vehicleKey == key && requests[i].segment < n)
    && (forall m: nat :: m < n && RoutableSegment(vehicles, key, m) ==> Requested(requests, key, m))
  }

  lemma NextSegment(vehicles: Fleet, key: string, earlier: seq<Request>, requests: seq<Request>, n: nat)
    requires VehiclePrefix(vehicles, key, earlier, requests, n) && EarlierKeys(earlier, key)
    requires key in vehicles && n + 1 < |vehicles[key]|
    ensures !RoutableSegment(vehicles, key, n) ==> VehiclePrefix(vehicles, key, earlier, requests, n + 1)
    ensures RoutableSegment(vehicles, key, n) ==>
      var start, end := vehicles[key][n].candidate.value, vehicles[key][n + 1].candidate.value;
      VehiclePrefix(vehicles, key, earlier, requests + [Request(RouteId(|requests|), key, n, start, end)], n + 1)
  {
    if RoutableSegment(vehicles, key, n) {
      var start, end := vehicles[key][n].candidate.value, vehicles[key][n + 1].candidate.value;
      AddOne(requests, earlier, Request(RouteId(|requests|), key, n, start, end), vehicles);
    }
  }

  /** The inner loop over one vehicle's consecutive fixes. */
  method AddVehicle(vehicles: Fleet, key: string, earlier: seq<Request>) returns (ok: bool, requests: seq<Request>)
    requires key in vehicles && AllSound(earlier, vehicles) && InOrder(earlier) && EarlierKeys(earlier, key)
    ensures ok <==> Increases(vehicles[key])
    ensures ok ==> earlier <= requests && AllSound(requests, vehicles) && InOrder(requests)
    ensures ok ==> forall i :: |earlier| <= i < |requests| ==> requests[i].vehicleKey == key
    ensures ok ==> forall n: nat :: RoutableSegment(vehicles, key, n) ==> Requested(requests, key, n)
  {
    var fixes := vehicles[key];
    ok, requests := true, earlier;
    var n := 0;
    while n < |fixes| - 1
      invariant 0 <= n && (n < |fixes| || n == 0)
      invariant forall m :: 0 <= m < n ==> fixes[m].timestampS < fixes[m + 1].timestampS
      invariant VehiclePrefix(vehicles, key, earlier, requests, n)
    {
      var start, end := fixes[n], fixes[n + 1];
      var elapsed := end.timestampS - start.timestampS;
      if elapsed <= 0 {
        ok := false;
        return;
      }
      NextSegment(vehicles, key, earlier, requests, n);
      if elapsed <= GAP_CEILING_S && start.candidate.Some? && end.candidate.Some? &&
        SquaredDistance(start.candidate.value.snapped, end.candidate.value.snapped) > DWELL_RADIUS_M * DWELL_RADIUS_M
      {
        requests := requests + [Request(RouteId(|requests|), key, n, start.candidate.value, end.candidate.value)];
      }
      n := n + 1;
    }
  }

  lemma AddOne(requests: seq<Request>, earlier: seq<Request>, r: Request, vehicles: Fleet)
    requires earlier <= requests && AllSound(requests, vehicles) && InOrder(requests)
    requires EarlierKeys(earlier, r.vehicleKey)
    requires forall i :: |earlier| <= i < |requests| ==>
      requests[i].vehicleKey == r.vehicleKey && requests[i].segment < r.segment
    requires Sound(r, |requests|, vehicles)
    ensures AllSound(requests + [r], vehicles) && InOrder(requests + [r])
    ensures forall k: string, n: nat :: Requested(requests, k, n) ==> Requested(requests + [r], k, n)
    ensures Requested(requests + [r], r.vehicleKey, r.segment)
  {
    var longer := requests + [r];
    forall i | 0 <= i < |requests| ensures Before(longer[i], r) {
      if i < |earlier| { assert requests[i] == earlier[i]; }
    }
    KeepsRequested(requests, longer);
    assert longer[|requests|] == r;
  }

  method Collect(vehicles: Fleet) returns (result: Outcome)
    ensures result.NotIncreasing? <==> exists k :: k in vehicles && !Increases(vehicles[k])
    ensures result.Requests? ==> AllSound(result.requests, vehicles) && InOrder(result.requests)
    ensures result.Requests? ==>
      forall k: string, n: nat :: RoutableSegment(vehicles, k, n) ==> Requested(result.requests, k, n)
    ensures result.Requests? ==> forall k: string, n: nat :: ByDistance(result.requests, vehicles, k, n)
  {
    var keys := SortKeys(vehicles.Keys);
    var requests: seq<Request> := [];
    for i := 0 to |keys|
      invariant AllSound(requests, vehicles) && InOrder(requests)
      invariant forall j :: 0 <= j < |requests| ==> requests[j].vehicleKey in keys[..i]
      invariant forall j :: 0 <= j < i ==> Increases(vehicles[keys[j]])
      invariant forall j, n: nat :: 0 <= j < i && RoutableSegment(vehicles, keys[j], n) ==>
        Requested(requests, keys[j], n)
    {
      forall j | 0 <= j < |requests|
        ensures requests[j].vehicleKey != keys[i] && StringLeq(requests[j].vehicleKey, keys[i])
      {
        var m :| 0 <= m < i && keys[m] == requests[j].vehicleKey;
      }
      assert keys[i] in keys;
      TakeNext(keys, i);
      var ok, more := AddVehicle(vehicles, keys[i], requests);
      if !ok {
        return NotIncreasing;
      }
      KeepsRequested(requests, more);
      forall j | 0 <= j < |more| ensures more[j].vehicleKey in keys[..i + 1] {
        if j < |requests| { assert more[j] == requests[j]; }
      }
      requests := more;
    }
    result := Requests(requests);
    forall k | k in vehicles ensures exists j :: 0 <= j < |keys| && keys[j] == k {
      assert k in keys;
    }
    AllByDistance(requests, vehicles);
  }

  lemma KeepsRequested(requests: seq<Request>, more: seq<Request>)
    requires requests <= more
    ensures forall k: string, n: nat :: Requested(requests, k, n) ==> Requested(more, k, n)
  {
    forall k: string, n: nat | Requested(requests, k, n) ensures Requested(more, k, n) {
      var i :| 0 <= i < |requests| && requests[i].vehicleKey == k && requests[i].segment == n;
      assert more[i] == requests[i];
    }
  }

  // ----- main results -----

  /** Requests and routable segments are in one-to-one correspondence, and no id is used twice. */
  lemma OneRequestPerSegment(requests: seq<Request>, vehicles: Fleet)
    requires AllSound(requests, vehicles) && InOrder(requests)
    requires forall k: string, n: nat :: RoutableSegment(vehicles, k, n) ==> Requested(requests, k, n)
    ensures forall k: string, n: nat :: RoutableSegment(vehicles, k, n) <==> Requested(requests, k, n)
    ensures forall i, j :: 0 <= i < |requests| && 0 <= j < |requests| ==>
      ((requests[i].vehicleKey == requests[j].vehicleKey && requests[i].segment == requests[j].segment) ==> i == j)
    ensures forall i, j :: 0 <= i < |requests| && 0 <= j < |requests| ==>
      (requests[i].routeId == requests[j].routeId ==> i == j)
  {
    forall k: string, n: nat | Requested(requests, k, n) ensures RoutableSegment(vehicles, k, n) {
      var i :| 0 <= i < |requests| && requests[i].vehicleKey == k && requests[i].segment == n;
      assert Sound(requests[i], i, vehicles);
    }
    forall i, j | 0 <= i < j < |requests|
      ensures !(requests[i].vehicleKey == requests[j].vehicleKey && requests[i].segment == requests[j].segment)
    {
      assert Before(requests[i], requests[j]);
    }
    forall i, j | 0 <= i < |requests| && 0 <= j < |requests| && requests[i].routeId == requests[j].routeId
      ensures i == j
    {
      assert Sound(requests[i], i, vehicles) && Sound(requests[j], j, vehicles);
      assert RouteId(i)[8..] == Numerals.Padded(i, 7) && RouteId(j)[8..] == Numerals.Padded(j, 7);
      Numerals.PaddedInjective(i, j, 7);
    }
  }

  /** The refusal for fixes that do not increase can never fire on a matched session. */
  lemma MatchedFixesAlwaysIncrease(vehicles: Fleet, groups: seq<Group>, s: Session)
    requires forall g :: g in groups ==> BusSession.RefusalOf(g, s) == None
    requires BusSession.HoldsVehicles(vehicles, groups, s)
    ensures forall k :: k in vehicles ==> Increases(vehicles[k])
  {
    forall k | k in vehicles ensures Increases(vehicles[k]) {
      var g :| g in groups && g.key == k && VehicleFixes(g.rows, s) != [];
      VehicleAccounting(g.rows, s);
    }
  }

  // ----- binding routed paths to segments -----

  type Paths<P> = map<string, map<nat, Option<P>>>

  /** `routed_path` on the router's answer for this request; no answer gives no path. */
  function PathFor<R, P>(r: Request, routes: map<string, R>, path: (R, Candidate, Candidate) -> Option<P>): Option<P> {
    if r.routeId in routes then path(routes[r.routeId], r.start, r.end) else None
  }

  ghost function Entries<P>(paths: Paths<P>): set<(string, nat)> {
    set k, n | k in paths && n in paths[k] :: (k, n)
  }

  ghost function ConstructedEntries<P>(paths: Paths<P>): set<(string, nat)> {
    set k, n | k in paths && n in paths[k] && paths[k][n].Some? :: (k, n)
  }

  function Bind<P>(paths: Paths<P>, k: string, n: nat, p: Option<P>): Paths<P> {
    paths[k := (if k in paths then paths[k] else map[])[n := p]]
  }

  lemma BindNewEntry<P>(paths: Paths<P>, k: string, n: nat, p: Option<P>)
    requires (k, n) !in Entries(paths)
    ensures Entries(Bind(paths, k, n, p)) == Entries(paths) + {(k, n)}
    ensures ConstructedEntries(Bind(paths, k, n, p)) == ConstructedEntries(paths) + (if p.Some? then {(k, n)} else {})
  {
    var after := Bind(paths, k, n, p);
    forall j: string, m: nat | (j, m) != (k, n)
      ensures (j in after && m in after[j]) <==> (j in paths && m in paths[j])
      ensures j in paths && m in paths[j] ==> after[j][m] == paths[j][m]
    {
    }
  }

  ghost predicate HasPath<R, P>(paths: Paths<P>, r: Request, routes: map<string, R>,
    path: (R, Candidate, Candidate) -> Option<P>)
  {
    r.vehicleKey in paths && r.segment in paths[r.vehicleKey]
    && paths[r.vehicleKey][r.segment]
       == if r.routeId in routes then path(routes[r.routeId], r.start, r.end) else None
  }

  ghost predicate DistinctSegments(requests: seq<Request>) {
    forall i, j :: 0 <= i < j < |requests| ==>
      !(requests[i].vehicleKey == requests[j].vehicleKey && requests[i].segment == requests[j].segment)
  }

  /** Every request keeps its own entry, so constructed and refused paths add up to the requests. */
  method BindPaths<R, P>(requests: seq<Request>, routes: map<string, R>, path: (R, Candidate, Candidate) -> Option<P>)
      returns (paths: Paths<P>, constructed: nat, refused: nat)
    requires DistinctSegments(requests)
    ensures forall i :: 0 <= i < |requests| ==> HasPath(paths, requests[i], routes, path)
    ensures forall k: string, n: nat :: (k, n) in Entries(paths) <==> Requested(requests, k, n)
    ensures |Entries(paths)| == |requests| == constructed + refused
    ensures constructed == |ConstructedEntries(paths)|
  {
    paths, constructed := map[], 0;
    for i := 0 to |requests|
      invariant BoundPrefix(paths, requests, i, routes, path)
      invariant constructed == |ConstructedEntries(paths)|
    {
      var r := requests[i];
      var p := PathFor(r, routes, path);
      ghost var before := paths;
      paths := Bind(paths, r.vehicleKey, r.segment, p);
      BindNext(before, paths, requests, i, routes, path);
      if p.Some? {
        constructed := constructed + 1;
      }
    }
    TakeAll(requests);
    SubsetSize(ConstructedEntries(paths), Entries(paths));
    refused := |requests| - constructed;
  }

  ghost predicate BoundPrefix<R, P>(paths: Paths<P>, requests: seq<Request>, i: nat, routes: map<string, R>,
    path: (R, Candidate, Candidate) -> Option<P>)
  {
    && i <= |requests| && |Entries(paths)| == i
    && (forall j :: 0 <= j < i ==> HasPath(paths, requests[j], routes, path))
    && (forall k: string, n: nat :: (k, n) in Entries(paths) <==> Requested(requests[..i], k, n))
  }

  lemma BindNext<R, P>(paths: Paths<P>, after: Paths<P>, requests: seq<Request>, i: nat, routes: map<string, R>,
    path: (R, Candidate, Candidate) -> Option<P>)
    requires DistinctSegments(requests) && i < |requests| && BoundPrefix(paths, requests, i, routes, path)
    requires after == Bind(paths, requests[i].vehicleKey, requests[i].segment, PathFor(requests[i], routes, path))
    ensures BoundPrefix(after, requests, i + 1, routes, path)
    ensures |ConstructedEntries(after)| == |ConstructedEntries(paths)| +
      (if PathFor(requests[i], routes, path).Some? then 1 else 0)
  {
    var r := requests[i];
    EntriesNext(Entries(paths), requests, i);
    BindCounts(paths, r.vehicleKey, r.segment, PathFor(r, routes, path));
    PathsNext(paths, requests, i, routes, path);
    PrefixNext(after, Entries(paths) + {(r.vehicleKey, r.segment)}, requests, i, routes, path);
  }

  lemma PathsNext<R, P>(paths: Paths<P>, requests: seq<Request>, i: nat, routes: map<string, R>,
    path: (R, Candidate, Candidate) -> Option<P>)
    requires DistinctSegments(requests) && i < |requests|
    requires forall j :: 0 <= j < i ==> HasPath(paths, requests[j], routes, path)
    ensures var after := Bind(paths, requests[i].vehicleKey, requests[i].segment, PathFor(requests[i], routes, path));
      forall j :: 0 <= j < i + 1 ==> HasPath(after, requests[j], routes, path)
  {
    var r := requests[i];
    var after := Bind(paths, r.vehicleKey, r.segment, PathFor(r, routes, path));
    forall j | 0 <= j < i + 1 ensures HasPath(after, requests[j], routes, path) {
      BoundNext(paths, requests[j], r, routes, path);
    }
  }

  lemma PrefixNext<R, P>(after: Paths<P>, entries: set<(string, nat)>, requests: seq<Request>, i: nat,
    routes: map<string, R>, path: (R, Candidate, Candidate) -> Option<P>)
    requires i < |requests| && Entries(after) == entries && |entries| == i + 1
    requires forall j :: 0 <= j < i + 1 ==> HasPath(after, requests[j], routes, path)
    requires forall k: string, n: nat :: (k, n) in entries <==> Requested(requests[..i + 1], k, n)
    ensures BoundPrefix(after, requests, i + 1, routes, path)
  {
  }

  lemma BindCounts<P>(paths: Paths<P>, k: string, n: nat, p: Option<P>)
    requires (k, n) !in Entries(paths)
    ensures Entries(Bind(paths, k, n, p)) == Entries(paths) + {(k, n)}
    ensures |Entries(Bind(paths, k, n, p))| == |Entries(paths)| + 1
    ensures |ConstructedEntries(Bind(paths, k, n, p))| == |ConstructedEntries(paths)| + (if p.Some? then 1 else 0)
  {
    BindNewEntry(paths, k, n, p);
    assert (k, n) !in ConstructedEntries(paths);
  }

  lemma EntriesNext(entries: set<(string, nat)>, requests: seq<Request>, i: nat)
    requires DistinctSegments(requests) && i < |requests|
    requires forall k: string, n: nat :: (k, n) in entries <==> Requested(requests[..i], k, n)
    ensures var entry := (requests[i].vehicleKey, requests[i].segment);
      && entry !in entries
      && (forall k: string, n: nat :: (k, n) in entries + {entry} <==> Requested(requests[..i + 1], k, n))
  {
    NotRequestedYet(requests, i);
    RequestedNext(requests, i);
    var entry := (requests[i].vehicleKey, requests[i].segment);
    assert entry !in entries;
  }

  lemma BoundNext<R, P>(paths: Paths<P>, q: Request, r: Request, routes: map<string, R>,
    path: (R, Candidate, Candidate) -> Option<P>)
    requires q == r || (HasPath(paths, q, routes, path) && !(q.vehicleKey == r.vehicleKey && q.segment == r.segment))
    ensures HasPath(Bind(paths, r.vehicleKey, r.segment, PathFor(r, routes, path)), q, routes, path)
  {
  }

  lemma NotRequestedYet(requests: seq<Request>, i: nat)
    requires DistinctSegments(requests) && i < |requests|
    ensures !Requested(requests[..i], requests[i].vehicleKey, requests[i].segment)
  {
  }

  lemma RequestedNext(requests: seq<Request>, i: nat)
    requires i < |requests|
    ensures forall k: string, n: nat ::
      (Requested(requests[..i + 1], k, n) <==>
        Requested(requests[..i], k, n) || (k == requests[i].vehicleKey && n == requests[i].segment))
  {
    assert requests[..i + 1] == requests[..i] + [requests[i]];
    KeepsRequested(requests[..i], requests[..i + 1]);
    assert requests[..i + 1][i] == requests[i];
    forall k: string, n: nat | Requested(requests[..i + 1], k, n)
      ensures Requested(requests[..i], k, n) || (k == requests[i].vehicleKey && n == requests[i].segment)
    {
      var j :| 0 <= j < i + 1 && requests[..i + 1][j].vehicleKey == k && requests[..i + 1][j].segment == n;
      if j < i { assert requests[..i][j] == requests[..i + 1][j]; }
    }
  }

  lemma SubsetSize<T>(a: set<T>, b: set<T>)
    requires a <= b
    ensures |a| <= |b|
  {
    assert b == a + (b - a);
  }

  // ----- the session from its rows to its paths -----

  datatype SessionResult<P> =
    | Refused(reason: Refusal)
    | Bound(vehicles: Fleet, requests: seq<Request>, paths: Paths<P>, constructed: nat, refused: nat)

  /** Every routable segment of the matched vehicles, and nothing else, has its own request and
      its own entry, and the entry is what the router's answer to that request gives. */
  ghost predicate SegmentsAreBound<R, P>(vehicles: Fleet, requests: seq<Request>, paths: Paths<P>,
    routes: map<string, R>, path: (R, Candidate, Candidate) -> Option<P>)
  {
    && AllSound(requests, vehicles)
    && DistinctSegments(requests)
    && (forall k: string, n: nat :: Requested(requests, k, n) <==> RoutableSegment(vehicles, k, n))
    && (forall k: string, n: nat :: ByDistance(requests, vehicles, k, n))
    && (forall k: string, n: nat :: (k, n) in Entries(paths) <==> RoutableSegment(vehicles, k, n))
    && (forall i :: 0 <= i < |requests| ==> HasPath(paths, requests[i], routes, path))
  }

  /** Matching, requests, routing and binding in one go (`_prepare_session`). The router is an
      unknown function of the request list. The second refusal of the script, for fixes that do
      not increase, cannot fire here. */
  method SessionPaths<R, P>(groups: seq<Group>, s: Session, router: seq<Request> -> map<string, R>,
    path: (R, Candidate, Candidate) -> Option<P>) returns (result: SessionResult<P>)
    requires BusSession.DistinctKeys(groups)
    ensures result.Refused? <==> exists g :: g in groups && BusSession.RefusalOf(g, s).Some?
    ensures result.Refused? ==> exists k :: BusSession.FirstRefusal(groups, s, k, result.reason)
    ensures result.Bound? ==> BusSession.HoldsVehicles(result.vehicles, groups, s)
    ensures result.Bound? ==>
      SegmentsAreBound(result.vehicles, result.requests, result.paths, router(result.requests), path)
    ensures result.Bound? ==> result.constructed == |ConstructedEntries(result.paths)|
    ensures result.Bound? ==> result.constructed + result.refused == |Entries(result.paths)|
  {
    var matched := BusSession.MatchSession(groups, s);
    if matched.Refused? {
      return Refused(matched.reason);
    }
    var vehicles := matched.vehicles;
    assert forall g :: g in groups ==> BusSession.RefusalOf(g, s) == None;
    MatchedFixesAlwaysIncrease(vehicles, groups, s);
    var outcome := Collect(vehicles);
    if outcome.NotIncreasing? {
      assert false;
    }
    var requests := outcome.requests;
    OneRequestPerSegment(requests, vehicles);
    var paths, constructed, refused := BindPaths(requests, router(requests), path);
    return Bound(vehicles, requests, paths, constructed, refused);
  }
}
