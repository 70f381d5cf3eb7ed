/** The waypoint router: the `Airport` that loads segment records and builds
    its adjacency map, checks a movement against the router configuration,
    and finds a route through a list of waypoint names leg by leg, each leg a
    shortest search restricted to the segments of the two waypoints and to
    segments not used before; and the `TaxiPath` that accumulates the route. */
module Pathfinder {
  import opened Wrappers
  import opened TaxiGraph
  import opened Search

  datatype MovementType = Arrival | Departure

  /** An entry of a configuration's `exits` or `entrances`: `(name, node)`. */
  datatype RunwayPoint = RunwayPoint(name: string, node: string)

  /** One entry of `runway_configurations`. */
  datatype RunwayConfiguration = RunwayConfiguration(exits: seq<RunwayPoint>, entrances: seq<RunwayPoint>)

  /** A gate of a terminal: `gate_id` and `node_id`. */
  datatype Gate = Gate(gateId: string, nodeId: string)

  datatype Terminal = Terminal(gates: seq<Gate>)

  /** The router configuration: runway configurations by name, and the
      terminals in the order `terminals.values()` lists them. */
  datatype RouterConfig = RouterConfig(
    runwayConfigurations: map<string, RunwayConfiguration>,
    terminals: seq<Terminal>)

  // ---------------------------------------------------------------------
  // Lookups in the configuration

  /** The node of the first runway point called `name`. */
  function RunwayNode(pts: seq<RunwayPoint>, name: string): (r: Option<string>)
    ensures r.None? <==> forall i :: 0 <= i < |pts| ==> pts[i].name != name
    ensures r.Some? ==> exists i :: 0 <= i < |pts| && pts[i] == RunwayPoint(name, r.value) &&
                                   forall j :: 0 <= j < i ==> pts[j].name != name
    decreases |pts|
  {
    if pts == [] then None
    else if pts[0].name == name then Some(pts[0].node)
    else
      var r := RunwayNode(pts[1..], name);
      if r.Some? then
        var i :| 0 <= i < |pts[1..]| && pts[1..][i] == RunwayPoint(name, r.value) &&
                 forall j :: 0 <= j < i ==> pts[1..][j].name != name;
        assert pts[i + 1] == RunwayPoint(name, r.value);
        r
      else r
  }

  /** The first matching runway point decides: a match at `i` with none
      before it gives that point's node. */
  lemma RunwayNodeAt(pts: seq<RunwayPoint>, name: string, i: int)
    requires 0 <= i < |pts| && pts[i].name == name
    requires forall j :: 0 <= j < i ==> pts[j].name != name
    ensures RunwayNode(pts, name) == Some(pts[i].node)
  {
    var k :| 0 <= k < |pts| && pts[k] == RunwayPoint(name, RunwayNode(pts, name).value) &&
             forall j :: 0 <= j < k ==> pts[j].name != name;
    assert k == i;
  }

  /** The loop over `exits` or `entrances` that stops at the first point with
      the given name. */
  method FindRunwayNode(pts: seq<RunwayPoint>, name: string) returns (r: Option<string>)
    ensures r == RunwayNode(pts, name)
  {
    for i := 0 to |pts|
      invariant forall j :: 0 <= j < i ==> pts[j].name != name
    {
      if pts[i].name == name {
        RunwayNodeAt(pts, name, i);
        return Some(pts[i].node);
      }
    }
    return None;
  }

  /** The node of the first gate with id `id` in one terminal. */
  function GateIn(gates: seq<Gate>, id: string): (r: Option<string>)
    ensures r.None? <==> forall j :: 0 <= j < |gates| ==> gates[j].gateId != id
    ensures r.Some? ==> exists j :: 0 <= j < |gates| && gates[j] == Gate(id, r.value) &&
                                   forall k :: 0 <= k < j ==> gates[k].gateId != id
    decreases |gates|
  {
    if gates == [] then None
    else if gates[0].gateId == id then Some(gates[0].nodeId)
    else
      var r := GateIn(gates[1..], id);
      if r.Some? then
        var j :| 0 <= j < |gates[1..]| && gates[1..][j] == Gate(id, r.value) &&
                 forall k :: 0 <= k < j ==> gates[1..][k].gateId != id;
        assert gates[j + 1] == Gate(id, r.value);
        r
      else r
  }

  /** `gate_node` after the search over the terminals: each terminal's first
      gate with the id overwrites it, and the search stops at the first
      terminal that yields a truthy node. */
  function GateNode(ts: seq<Terminal>, id: string): Option<string>
    decreases |ts|
  {
    if ts == [] then None
    else
      var pre := GateNode(ts[..|ts| - 1], id);
      if Truthy(pre) then pre
      else
        var here := GateIn(ts[|ts| - 1].gates, id);
        if here.Some? then here else pre
  }

  /** Some terminal lists a gate with id `id`. */
  predicate KnownGate(ts: seq<Terminal>, id: string)
  {
    exists i, j :: 0 <= i < |ts| && 0 <= j < |ts[i].gates| && ts[i].gates[j].gateId == id
  }

  /** The gate search finds a node exactly when the gate is known, and the
      node it finds is that of a gate with the id. */
  lemma {:induction false} GateNodeSound(ts: seq<Terminal>, id: string)
    ensures GateNode(ts, id).Some? <==> KnownGate(ts, id)
    ensures GateNode(ts, id).Some? ==>
              exists i, j :: 0 <= i < |ts| && 0 <= j < |ts[i].gates| && ts[i].gates[j] == Gate(id, GateNode(ts, id).value)
    decreases |ts|
  {
    if ts != [] {
      var pre := ts[..|ts| - 1];
      var n := |ts| - 1;
      GateNodeSound(pre, id);
      if KnownGate(pre, id) {
        var i, j :| 0 <= i < |pre| && 0 <= j < |pre[i].gates| && pre[i].gates[j].gateId == id;
        assert ts[i] == pre[i];
      }
      if GateNode(pre, id).Some? {
        var i, j :| 0 <= i < |pre| && 0 <= j < |pre[i].gates| && pre[i].gates[j] == Gate(id, GateNode(pre, id).value);
        assert ts[i] == pre[i];
      }
      var here := GateIn(ts[n].gates, id);
      if here.Some? {
        var j :| 0 <= j < |ts[n].gates| && ts[n].gates[j] == Gate(id, here.value) &&
                 forall k :: 0 <= k < j ==> ts[n].gates[k].gateId != id;
      }
    }
  }

  /** Once a prefix of the terminals yields a truthy node, later terminals
      do not change it. */
  lemma {:induction false} GateNodeSticks(ts: seq<Terminal>, id: string, k: nat)
    requires k <= |ts| && Truthy(GateNode(ts[..k], id))
    ensures GateNode(ts, id) == GateNode(ts[..k], id)
    decreases |ts|
  {
    if k < |ts| {
      var pre := ts[..|ts| - 1];
      assert pre[..k] == ts[..k];
      GateNodeSticks(pre, id, k);
    } else {
      assert ts[..k] == ts;
    }
  }

  /** The gate check of `validate_movement`: two nested loops that stop at
      the first gate with the id. */
  method IsKnownGate(ts: seq<Terminal>, id: string) returns (found: bool)
    ensures found <==> KnownGate(ts, id)
  {
    found := false;
    var i := 0;
    while i < |ts|
      invariant 0 <= i <= |ts|
      invariant !found
      invariant forall a, b :: 0 <= a < i && 0 <= b < |ts[a].gates| ==> ts[a].gates[b].gateId != id
    {
      var j := 0;
      while j < |ts[i].gates|
        invariant 0 <= j <= |ts[i].gates|
        invariant !found
        invariant forall b :: 0 <= b < j ==> ts[i].gates[b].gateId != id
      {
        if ts[i].gates[j].gateId == id {
          found := true;
          break;
        }
        j := j + 1;
      }
      if found {
        break;
      }
      i := i + 1;
    }
  }

  /** The gate-node search of `find_path`: each terminal's inner loop stops
      at its first gate with the id, and the outer loop stops once the node
      found is truthy. */
  method FindGateNode(ts: seq<Terminal>, id: string) returns (gateNode: Option<string>)
    ensures gateNode == GateNode(ts, id)
  {
    gateNode := None;
    var i := 0;
    while i < |ts|
      invariant 0 <= i <= |ts|
      invariant gateNode == GateNode(ts[..i], id) && !Truthy(gateNode)
    {
      var gates := ts[i].gates;
      var j := 0;
      var matched := false;
      while j < |gates|
        invariant 0 <= j <= |gates|
        invariant !matched && gateNode == GateNode(ts[..i], id)
        invariant forall k :: 0 <= k < j ==> gates[k].gateId != id
      {
        if gates[j].gateId == id {
          gateNode := Some(gates[j].nodeId);
          matched := true;
          break;
        }
        j := j + 1;
      }
      assert ts[..i + 1][..i] == ts[..i];
      if matched {
        var k :| 0 <= k < |gates| && gates[k] == Gate(id, GateIn(gates, id).value) &&
                 forall m :: 0 <= m < k ==> gates[m].gateId != id;
        assert k == j;
      }
      assert gateNode == GateNode(ts[..i + 1], id);
      if Truthy(gateNode) {
        GateNodeSticks(ts, id, i + 1);
        break;
      }
      i := i + 1;
    }
    if i == |ts| {
      assert ts[..i] == ts;
    }
  }

  // ---------------------------------------------------------------------
  // Lookups among the segments

  /** `n in [s.start_node, s.end_node]`. */
  predicate Touches(s: TaxiSegment, n: string)
  {
    n == s.startNode || n == s.endNode
  }

  /** The first segment that touches both `a` and `b`. */
  function FirstTouching(segs: seq<TaxiSegment>, a: string, b: string): (r: Option<TaxiSegment>)
    ensures r.None? <==> forall i :: 0 <= i < |segs| ==> !(Touches(segs[i], a) && Touches(segs[i], b))
    ensures r.Some? ==> exists i :: 0 <= i < |segs| && segs[i] == r.value &&
                                   Touches(r.value, a) && Touches(r.value, b) &&
                                   forall j :: 0 <= j < i ==> !(Touches(segs[j], a) && Touches(segs[j], b))
    decreases |segs|
  {
    if segs == [] then None
    else if Touches(segs[0], a) && Touches(segs[0], b) then Some(segs[0])
    else
      var r := FirstTouching(segs[1..], a, b);
      if r.Some? then
        var i :| 0 <= i < |segs[1..]| && segs[1..][i] == r.value &&
                 Touches(r.value, a) && Touches(r.value, b) &&
                 forall j :: 0 <= j < i ==> !(Touches(segs[1..][j], a) && Touches(segs[1..][j], b));
        assert segs[i + 1] == r.value;
        r
      else r
  }

  lemma FirstTouchingAt(segs: seq<TaxiSegment>, a: string, b: string, i: int)
    requires 0 <= i < |segs| && Touches(segs[i], a) && Touches(segs[i], b)
    requires forall j :: 0 <= j < i ==> !(Touches(segs[j], a) && Touches(segs[j], b))
    ensures FirstTouching(segs, a, b) == Some(segs[i])
  {
    var k :| 0 <= k < |segs| && segs[k] == FirstTouching(segs, a, b).value &&
             Touches(segs[k], a) && Touches(segs[k], b) &&
             forall j :: 0 <= j < k ==> !(Touches(segs[j], a) && Touches(segs[j], b));
    assert k == i;
  }

  /** The loop that stops at the first segment touching both nodes. */
  method FindTouching(segs: seq<TaxiSegment>, a: string, b: string) returns (r: Option<TaxiSegment>)
    ensures r == FirstTouching(segs, a, b)
  {
    for i := 0 to |segs|
      invariant forall j :: 0 <= j < i ==> !(Touches(segs[j], a) && Touches(segs[j], b))
    {
      if a in [segs[i].startNode, segs[i].endNode] && b in [segs[i].startNode, segs[i].endNode] {
        FirstTouchingAt(segs, a, b, i);
        return Some(segs[i]);
      }
    }
    return None;
  }

  /** A segment of type `runway`. */
  predicate IsRunway(s: TaxiSegment)
  {
    s.segmentType == "runway"
  }

  /** The first segment of type `runway`. */
  function FirstRunway(segs: seq<TaxiSegment>): (r: Option<TaxiSegment>)
    ensures r.None? <==> forall i :: 0 <= i < |segs| ==> !IsRunway(segs[i])
    ensures r.Some? ==> exists i :: 0 <= i < |segs| && segs[i] == r.value && IsRunway(r.value) &&
                                   forall j :: 0 <= j < i ==> !IsRunway(segs[j])
    decreases |segs|
  {
    if segs == [] then None
    else if IsRunway(segs[0]) then Some(segs[0])
    else
      var r := FirstRunway(segs[1..]);
      if r.Some? then
        var i :| 0 <= i < |segs[1..]| && segs[1..][i] == r.value && IsRunway(r.value) &&
                 forall j :: 0 <= j < i ==> !IsRunway(segs[1..][j]);
        assert segs[i + 1] == r.value;
        r
      else r
  }

  lemma FirstRunwayAt(segs: seq<TaxiSegment>, i: int)
    requires 0 <= i < |segs| && IsRunway(segs[i])
    requires forall j :: 0 <= j < i ==> !IsRunway(segs[j])
    ensures FirstRunway(segs) == Some(segs[i])
  {
    var r := FirstRunway(segs);
    assert r.Some?;
    var k :| 0 <= k < |segs| && segs[k] == r.value && IsRunway(r.value) &&
             forall j :: 0 <= j < k ==> !IsRunway(segs[j]);
    assert k == i;
  }

  /** The arrival's loop that stops at the first runway segment. */
  method FindRunwaySegment(segs: seq<TaxiSegment>) returns (r: Option<TaxiSegment>)
    ensures r == FirstRunway(segs)
  {
    for i := 0 to |segs|
      invariant forall j :: 0 <= j < i ==> !IsRunway(segs[j])
    {
      if IsRunway(segs[i]) {
        FirstRunwayAt(segs, i);
        return Some(segs[i]);
      }
    }
    return None;
  }

  /** `next(s for s in all_segments if s.segment_id == id)`, which raises
      when no segment has the id; callers only ask for loaded ids. */
  method FindSegment(segs: seq<TaxiSegment>, id: string) returns (s: TaxiSegment)
    requires SegmentById(segs, id).Some?
    ensures s == SegmentById(segs, id).value
  {
    var i := 0;
    while i < |segs|
      invariant 0 <= i <= |segs|
      invariant SegmentById(segs[i..], id) == SegmentById(segs, id)
    {
      if segs[i].segmentId == id {
        return segs[i];
      }
      assert segs[i..][1..] == segs[i + 1..];
      i := i + 1;
    }
  }

  /** The nodes at either end of the segments in `segs`. */
  function Endpoints(segs: seq<TaxiSegment>): set<string>
    decreases |segs|
  {
    if segs == [] then {}
    else Endpoints(segs[..|segs| - 1]) + {segs[|segs| - 1].startNode, segs[|segs| - 1].endNode}
  }

  lemma {:induction false} EndpointsContents(segs: seq<TaxiSegment>)
    ensures forall x :: x in Endpoints(segs) <==> exists i :: 0 <= i < |segs| && Touches(segs[i], x)
    decreases |segs|
  {
    if segs != [] {
      var pre := segs[..|segs| - 1];
      EndpointsContents(pre);
      forall x
        ensures x in Endpoints(segs) <==> exists i :: 0 <= i < |segs| && Touches(segs[i], x)
      {
        if exists i :: 0 <= i < |segs| && Touches(segs[i], x) {
          var i :| 0 <= i < |segs| && Touches(segs[i], x);
          if i < |segs| - 1 {
            assert Touches(pre[i], x);
          }
        }
        if x in Endpoints(pre) {
          var i :| 0 <= i < |pre| && Touches(pre[i], x);
          assert Touches(segs[i], x);
        }
      }
    }
  }

  // ---------------------------------------------------------------------
  // Candidate nodes of a waypoint (`get_segment_nodes`)

  /** The nodes a waypoint resolves to: the enforced node when there is one;
      the configured exit node for an arrival's first waypoint or the
      configured entrance node for a departure's last waypoint; otherwise
      the ends of every segment carrying the waypoint's name. */
  function SegmentNodes(mt: MovementType, points: seq<string>, rc: RunwayConfiguration,
                        byName: map<string, seq<TaxiSegment>>, waypoint: string,
                        enforce: Option<string>): set<string>
    requires |points| > 0
  {
    if enforce.Some? then {enforce.value}
    else if mt == Arrival && waypoint == points[0] && RunwayNode(rc.exits, waypoint).Some? then
      {RunwayNode(rc.exits, waypoint).value}
    else if mt == Departure && waypoint == points[|points| - 1] && RunwayNode(rc.entrances, waypoint).Some? then
      {RunwayNode(rc.entrances, waypoint).value}
    else Endpoints(SegmentsNamed(byName, waypoint))
  }

  /** The three ways a waypoint resolves, stated over the loaded segments. */
  lemma SegmentNodesCases(mt: MovementType, points: seq<string>, rc: RunwayConfiguration,
                          segs: seq<TaxiSegment>, waypoint: string, enforce: Option<string>)
    requires |points| > 0
    ensures enforce.Some? ==> SegmentNodes(mt, points, rc, ByName(segs), waypoint, enforce) == {enforce.value}
    ensures enforce.None? && mt == Arrival && waypoint == points[0] &&
            (exists i :: 0 <= i < |rc.exits| && rc.exits[i].name == waypoint) ==>
              exists i :: 0 <= i < |rc.exits| && rc.exits[i].name == waypoint &&
                          SegmentNodes(mt, points, rc, ByName(segs), waypoint, enforce) == {rc.exits[i].node}
    ensures enforce.None? && mt == Departure && waypoint == points[|points| - 1] &&
            (exists i :: 0 <= i < |rc.entrances| && rc.entrances[i].name == waypoint) ==>
              exists i :: 0 <= i < |rc.entrances| && rc.entrances[i].name == waypoint &&
                          SegmentNodes(mt, points, rc, ByName(segs), waypoint, enforce) == {rc.entrances[i].node}
    ensures enforce.None? &&
            !(mt == Arrival && waypoint == points[0] &&
              exists i :: 0 <= i < |rc.exits| && rc.exits[i].name == waypoint) &&
            !(mt == Departure && waypoint == points[|points| - 1] &&
              exists i :: 0 <= i < |rc.entrances| && rc.entrances[i].name == waypoint) ==>
              forall x :: x in SegmentNodes(mt, points, rc, ByName(segs), waypoint, enforce) <==>
                exists i :: 0 <= i < |segs| && segs[i].name == waypoint && Touches(segs[i], x)
  {
    NamedEndpoints(segs, waypoint);
  }

  /** The ends of the segments filed under a name are exactly the nodes
      touched by a loaded segment of that name. */
  lemma NamedEndpoints(segs: seq<TaxiSegment>, n: string)
    ensures forall x :: x in Endpoints(SegmentsNamed(ByName(segs), n)) <==>
              exists i :: 0 <= i < |segs| && segs[i].name == n && Touches(segs[i], x)
  {
    var named := SegmentsNamed(ByName(segs), n);
    EndpointsContents(named);
    NamedLoaded(segs, n);
    forall x | x in Endpoints(named)
      ensures exists i :: 0 <= i < |segs| && segs[i].name == n && Touches(segs[i], x)
    {
      var k :| 0 <= k < |named| && Touches(named[k], x);
      assert named[k] in named;
      var i :| 0 <= i < |segs| && segs[i] == named[k];
    }
    forall x | exists i :: 0 <= i < |segs| && segs[i].name == n && Touches(segs[i], x)
      ensures x in Endpoints(named)
    {
      var i :| 0 <= i < |segs| && segs[i].name == n && Touches(segs[i], x);
      assert segs[i] in segs;
      var k :| 0 <= k < |named| && named[k] == segs[i];
    }
  }

  /** `get_segment_nodes`, with the loop that collects the segment ends. */
  method GetSegmentNodes(mt: MovementType, points: seq<string>, rc: RunwayConfiguration,
                         byName: map<string, seq<TaxiSegment>>, waypoint: string,
                         enforce: Option<string>) returns (nodes: set<string>)
    requires |points| > 0
    ensures nodes == SegmentNodes(mt, points, rc, byName, waypoint, enforce)
  {
    if enforce.Some? {
      return {enforce.value};
    }
    if mt == Arrival && waypoint == points[0] {
      var exitNode := FindRunwayNode(rc.exits, waypoint);
      if exitNode.Some? {
        return {exitNode.value};
      }
    } else if mt == Departure && waypoint == points[|points| - 1] {
      var entranceNode := FindRunwayNode(rc.entrances, waypoint);
      if entranceNode.Some? {
        return {entranceNode.value};
      }
    }
    nodes := {};
    var segs := SegmentsNamed(byName, waypoint);
    for i := 0 to |segs|
      invariant nodes == Endpoints(segs[..i])
    {
      nodes := nodes + {segs[i].startNode};
      nodes := nodes + {segs[i].endNode};
      assert segs[..i + 1][..i] == segs[..i];
    }
    assert segs[..|segs|] == segs;
  }

  // ---------------------------------------------------------------------
  // The route being built

  /** `TaxiPath`: the segment ids of the route in order, the distance
      accumulated over them, and the waypoint nodes recorded. */
  class TaxiPath {
    var segments: seq<string>
    var totalDistance: nat
    var waypoints: seq<string>

    constructor()
      ensures segments == [] && totalDistance == 0 && waypoints == []
    {
      segments := [];
      totalDistance := 0;
      waypoints := [];
    }

    /** `add_segment`: appends the id and adds its distance. */
    method AddSegment(segmentId: string, distance: nat)
      modifies this
      ensures segments == old(segments) + [segmentId]
      ensures totalDistance == old(totalDistance) + distance
      ensures waypoints == old(waypoints)
    {
      segments := segments + [segmentId];
      totalDistance := totalDistance + distance;
    }

    /** `add_waypoint`: appends a node to the recorded waypoints. */
    method AddWaypoint(nodeId: string)
      modifies this
      ensures waypoints == old(waypoints) + [nodeId]
      ensures segments == old(segments) && totalDistance == old(totalDistance)
    {
      waypoints := waypoints + [nodeId];
    }
  }

  /** Charging each appended id its looked-up length keeps the total equal to
      the sum of the lengths of the ids. */
  lemma PathLengthAppend(segs: seq<TaxiSegment>, ids: seq<string>, id: string)
    ensures PathLength(segs, ids + [id]) == PathLength(segs, ids) + LengthOf(segs, id)
  {
    assert (ids + [id])[..|ids|] == ids;
  }

  /** With unique ids, a loaded segment is charged its own length. */
  lemma LoadedLengthCharged(segs: seq<TaxiSegment>, s: TaxiSegment)
    requires UniqueIds(segs) && s in segs
    ensures LengthOf(segs, s.segmentId) == s.length
  {
    var r := SegmentById(segs, s.segmentId).value;
    var i :| 0 <= i < |segs| && segs[i] == s;
    var j :| 0 <= j < |segs| && segs[j] == r;
    assert i == j;
  }

  // ---------------------------------------------------------------------
  // Building the name index

  /** No segment is filed under a name none of them carries. */
  lemma {:induction false} NamedAbsent(segs: seq<TaxiSegment>, n: string)
    requires n !in Names(segs)
    ensures Named(segs, n) == []
    decreases |segs|
  {
    if segs != [] {
      var pre := segs[..|segs| - 1];
      assert segs[|segs| - 1] in segs;
      NamedAbsent(pre, n);
    }
  }

  /** One iteration of the loader: filing a new segment under its name. */
  lemma ByNameAppend(segs: seq<TaxiSegment>, s: TaxiSegment)
    ensures ByName(segs + [s]) == ByName(segs)[s.name := SegmentsNamed(ByName(segs), s.name) + [s]]
  {
    var segs' := segs + [s];
    assert segs'[..|segs|] == segs;
    assert Names(segs') == Names(segs) + {s.name};
    if s.name !in Names(segs) {
      NamedAbsent(segs, s.name);
    }
  }

  /** One iteration of the loader's loop over the features. */
  lemma LoadedSegmentsStep(fs: seq<NetworkFeature>, i: nat)
    requires i < |fs|
    ensures LoadedSegments(fs[..i + 1]) ==
            if fs[i].geometryType == "LineString" && fs[i].name != "" then
              LoadedSegments(fs[..i]) + [SegmentOf(fs[i])]
            else LoadedSegments(fs[..i])
  {
    assert fs[..i + 1][..i] == fs[..i];
  }

  /** Filing a segment as the loader writes it: make sure its name is a key,
      then append it to that key's list. */
  lemma FileSegment(byName: map<string, seq<TaxiSegment>>, segs: seq<TaxiSegment>, s: TaxiSegment)
    requires byName == ByName(segs)
    ensures var m := if s.name in byName then byName else byName[s.name := []];
            m[s.name := m[s.name] + [s]] == ByName(segs + [s])
  {
    ByNameAppend(segs, s);
  }

  /** One iteration of the graph-building loop, as the loader writes it:
      make sure both ends are keys, then append the two entries. */
  lemma AddBothWaysSteps(g: map<string, seq<Edge>>, s: TaxiSegment)
    ensures var g1 := if s.startNode in g then g else g[s.startNode := []];
            var g2 := if s.endNode in g1 then g1 else g1[s.endNode := []];
            var g3 := g2[s.startNode := g2[s.startNode] + [Edge(s.endNode, s.segmentId, s.length)]];
            g3[s.endNode := g3[s.endNode] + [Edge(s.startNode, s.segmentId, s.length)]] == AddBothWays(g, s)
  {
  }

  lemma GraphOfStep(segs: seq<TaxiSegment>, j: nat)
    requires j < |segs|
    ensures GraphOf(segs[..j + 1]) == AddBothWays(GraphOf(segs[..j]), segs[j])
  {
    assert segs[..j + 1][..j] == segs[..j];
  }

  // ---------------------------------------------------------------------
  // Movement validation

  /** `validate_movement` looks the active configuration up: there are at
      least two points and, for a departure, the first one is a known gate. */
  predicate ConfigConsulted(ts: seq<Terminal>, mt: MovementType, points: seq<string>)
  {
    |points| >= 2 && (mt == Arrival || KnownGate(ts, points[0]))
  }

  /** What `validate_movement` accepts: at least two points; an arrival from
      an exit of the active configuration to a known gate; a departure from
      a known gate to an entrance of the active configuration. */
  predicate ValidMovement(ts: seq<Terminal>, rc: RunwayConfiguration, mt: MovementType, points: seq<string>)
  {
    |points| >= 2 &&
    if mt == Arrival then
      (exists i :: 0 <= i < |rc.exits| && rc.exits[i].name == points[0]) &&
      KnownGate(ts, points[|points| - 1])
    else
      KnownGate(ts, points[0]) &&
      (exists i :: 0 <= i < |rc.entrances| && rc.entrances[i].name == points[|points| - 1])
  }

  // ---------------------------------------------------------------------
  // Choosing among the targets of a leg

  /** The segment ids of a path, as a set. */
  function IdSet(ids: seq<string>): set<string>
  {
    set i | 0 <= i < |ids| :: ids[i]
  }

  /** Every id of the path names a loaded segment. */
  predicate IdsLoaded(segs: seq<TaxiSegment>, ids: seq<string>)
  {
    forall i :: 0 <= i < |ids| ==> SegmentById(segs, ids[i]).Some?
  }

  /** Every id of the path names a loaded segment whose name is allowed. */
  predicate NamesAllowed(segs: seq<TaxiSegment>, ids: seq<string>, allowed: set<string>)
  {
    forall i :: 0 <= i < |ids| ==>
      SegmentById(segs, ids[i]).Some? && SegmentById(segs, ids[i]).value.name in allowed
  }

  /** The re-check of a recorded path: the loop that looks up each id and
      rejects the path at the first segment whose name is not allowed. */
  method CheckNames(segs: seq<TaxiSegment>, ids: seq<string>, allowed: set<string>) returns (valid: bool)
    requires IdsLoaded(segs, ids)
    ensures valid <==> NamesAllowed(segs, ids, allowed)
  {
    var i := 0;
    while i < |ids|
      invariant 0 <= i <= |ids|
      invariant NamesAllowed(segs, ids[..i], allowed)
    {
      var segment := FindSegment(segs, ids[i]);
      if segment.name !in allowed {
        return false;
      }
      i := i + 1;
    }
    assert ids[..i] == ids;
    return true;
  }

  /** A target the selection may pick: reached, along a path whose segments
      all carry allowed names. */
  predicate Eligible(distances: map<string, Reach>, segs: seq<TaxiSegment>, allowed: set<string>, t: string)
  {
    t in distances && distances[t].Reached? && NamesAllowed(segs, distances[t].path, allowed)
  }

  /** The selection loop of `find_path` over the target set, visited in an
      unspecified order: it keeps the first eligible target of strictly
      smallest distance. */
  method SelectTarget(targets: set<string>, distances: map<string, Reach>,
                      segs: seq<TaxiSegment>, allowed: set<string>) returns (best: Option<string>)
    requires targets <= distances.Keys
    requires forall t :: t in targets && distances[t].Reached? ==> IdsLoaded(segs, distances[t].path)
    ensures best.Some? ==> best.value in targets && Eligible(distances, segs, allowed, best.value)
    ensures best.Some? ==> forall t :: t in targets && Eligible(distances, segs, allowed, t) ==>
                             distances[best.value].dist <= distances[t].dist
    ensures best.None? <==> forall t :: t in targets ==> !Eligible(distances, segs, allowed, t)
  {
    best := None;
    var bestDist: nat := 0;
    var remaining := targets;
    while remaining != {}
      invariant remaining <= targets
      invariant best.Some? ==> best.value in targets && Eligible(distances, segs, allowed, best.value) &&
                               bestDist == distances[best.value].dist
      invariant best.Some? ==> forall t :: t in targets - remaining && Eligible(distances, segs, allowed, t) ==>
                                 bestDist <= distances[t].dist
      invariant best.None? ==> forall t :: t in targets - remaining ==> !Eligible(distances, segs, allowed, t)
      decreases |remaining|
    {
      var t :| t in remaining;
      var record := distances[t];
      if record.Reached? && (best.None? || record.dist < bestDist) {
        var valid := CheckNames(segs, record.path, allowed);
        if valid {
          best := Some(t);
          bestDist := record.dist;
        }
      }
      remaining := remaining - {t};
    }
  }

  // ---------------------------------------------------------------------
  // Legs of a route

  /** What a successful leg chose: the target reached, the segment ids of
      its path and the distance of that path. */
  datatype LegRoute = LegRoute(to: string, ids: seq<string>, dist: nat)

  /** One leg of `find_path`: the search it ran (from the last node, towards
      the next waypoint's nodes, avoiding the used segments, over segments
      named after the two waypoints) and what it chose, if anything. */
  datatype Leg = Leg(from: string, targets: set<string>, forbidden: set<string>,
                     allowed: set<string>, route: Option<LegRoute>)

  /** The leg's answer is right: with no route, no target can be reached by
      a usable walk; with a route, the path is that of a usable walk to a
      target, of the recorded length, and no usable walk to any target is
      shorter. */
  ghost predicate LegAnswered(g: map<string, seq<Edge>>, segs: seq<TaxiSegment>, leg: Leg)
  {
    match leg.route
    case None =>
      forall t, w :: t in leg.targets ==> !Leads(g, segs, leg.forbidden, leg.allowed, [leg.from], w, t)
    case Some(r) =>
      r.to in leg.targets &&
      (exists w :: Realises(g, segs, leg.forbidden, leg.allowed, [leg.from], w, r.to, r.dist, r.ids)) &&
      forall t, w :: t in leg.targets && Leads(g, segs, leg.forbidden, leg.allowed, [leg.from], w, t) ==>
        r.dist <= Len(w.steps)
  }

  /** A recorded path keeps to the search's rules: no forbidden segment and,
      under a non-empty set of names, only segments carrying one of them. */
  lemma RealisedRespectsRules(g: map<string, seq<Edge>>, segs: seq<TaxiSegment>,
                              forbidden: set<string>, allowed: set<string>, starts: seq<string>,
                              w: Walk, v: string, d: nat, path: seq<string>)
    requires Realises(g, segs, forbidden, allowed, starts, w, v, d, path)
    requires allowed != {}
    ensures NamesAllowed(segs, path, allowed)
    ensures IdSet(path) !! forbidden
  {
    WalkRespectsRules(g, segs, forbidden, allowed, w.origin, w.steps);
    forall i | 0 <= i < |path|
      ensures SegmentById(segs, path[i]).Some? && SegmentById(segs, path[i]).value.name in allowed
    {
      assert path[i] in Ids(w.steps);
    }
  }

  /** A successful leg never reuses a forbidden segment and only takes
      segments named after one of its two waypoints. */
  lemma LegRespectsRules(g: map<string, seq<Edge>>, segs: seq<TaxiSegment>, leg: Leg)
    requires LegAnswered(g, segs, leg) && leg.route.Some? && leg.allowed != {}
    ensures NamesAllowed(segs, leg.route.value.ids, leg.allowed)
    ensures IdSet(leg.route.value.ids) !! leg.forbidden
  {
    var r := leg.route.value;
    var w :| Realises(g, segs, leg.forbidden, leg.allowed, [leg.from], w, r.to, r.dist, r.ids);
    RealisedRespectsRules(g, segs, leg.forbidden, leg.allowed, [leg.from], w, r.to, r.dist, r.ids);
  }

  /** The selection picks right: what the search and the selection promise
      make the leg's answer correct. */
  lemma SelectionAnswers(g: map<string, seq<Edge>>, segs: seq<TaxiSegment>,
                         from: string, targets: set<string>, forbidden: set<string>, allowed: set<string>,
                         distances: map<string, Reach>, best: Option<string>)
    requires allowed != {} && targets <= distances.Keys
    requires forall v :: v in distances && distances[v].Reached? ==>
               exists w :: Realises(g, segs, forbidden, allowed, [from], w, v, distances[v].dist, distances[v].path)
    requires forall t, w :: t in targets && Leads(g, segs, forbidden, allowed, [from], w, t) ==>
               t in distances && distances[t].Reached? && distances[t].dist <= Len(w.steps)
    requires best.Some? ==> best.value in targets && Eligible(distances, segs, allowed, best.value)
    requires best.Some? ==> forall t :: t in targets && Eligible(distances, segs, allowed, t) ==>
                              distances[best.value].dist <= distances[t].dist
    requires best.None? <==> forall t :: t in targets ==> !Eligible(distances, segs, allowed, t)
    ensures LegAnswered(g, segs, Leg(from, targets, forbidden, allowed,
                                     if best.None? then None
                                     else Some(LegRoute(best.value, distances[best.value].path,
                                                        distances[best.value].dist))))
  {
    forall t, w | t in targets && Leads(g, segs, forbidden, allowed, [from], w, t)
      ensures Eligible(distances, segs, allowed, t)
    {
      var w' :| Realises(g, segs, forbidden, allowed, [from], w', t, distances[t].dist, distances[t].path);
      RealisedRespectsRules(g, segs, forbidden, allowed, [from], w', t, distances[t].dist, distances[t].path);
    }
  }

  /** The paths the search records name loaded segments. */
  lemma RecordedIdsLoaded(g: map<string, seq<Edge>>, segs: seq<TaxiSegment>,
                          from: string, targets: set<string>, forbidden: set<string>, allowed: set<string>,
                          distances: map<string, Reach>)
    requires allowed != {}
    requires forall v :: v in distances && distances[v].Reached? ==>
               exists w :: Realises(g, segs, forbidden, allowed, [from], w, v, distances[v].dist, distances[v].path)
    ensures forall t :: t in distances && distances[t].Reached? ==> IdsLoaded(segs, distances[t].path)
  {
    forall t | t in distances && distances[t].Reached?
      ensures IdsLoaded(segs, distances[t].path)
    {
      var w :| Realises(g, segs, forbidden, allowed, [from], w, t, distances[t].dist, distances[t].path);
      RealisedRespectsRules(g, segs, forbidden, allowed, [from], w, t, distances[t].dist, distances[t].path);
    }
  }

  /** The loop that appends a leg's segments to the route, each charged the
      length of its record, and marks them used. */
  method AddLegSegments(path: TaxiPath, segs: seq<TaxiSegment>, ids: seq<string>, used: set<string>)
    returns (usedAfter: set<string>)
    requires IdsLoaded(segs, ids)
    modifies path
    ensures path.segments == old(path.segments) + ids
    ensures path.totalDistance == old(path.totalDistance) + PathLength(segs, ids)
    ensures path.waypoints == old(path.waypoints)
    ensures usedAfter == used + IdSet(ids)
  {
    usedAfter := used;
    for i := 0 to |ids|
      invariant path.segments == old(path.segments) + ids[..i]
      invariant path.totalDistance == old(path.totalDistance) + PathLength(segs, ids[..i])
      invariant path.waypoints == old(path.waypoints)
      invariant usedAfter == used + IdSet(ids[..i])
    {
      var segment := FindSegment(segs, ids[i]);
      path.AddSegment(ids[i], segment.length);
      usedAfter := usedAfter + {ids[i]};
      assert ids[..i + 1] == ids[..i] + [ids[i]];
      PathLengthAppend(segs, ids[..i], ids[i]);
      assert IdSet(ids[..i + 1]) == IdSet(ids[..i]) + {ids[i]};
    }
    assert ids[..|ids|] == ids;
  }

  // ---------------------------------------------------------------------
  // The start and the end of a route

  /** The node enforced for the leg towards `points[k]`: the configured
      entrance node when a departure heads for its last waypoint. */
  function EnforcedNode(mt: MovementType, points: seq<string>, rc: RunwayConfiguration, k: nat): Option<string>
    requires k < |points|
  {
    if mt == Departure && points[k] == points[|points| - 1] then RunwayNode(rc.entrances, points[k]) else None
  }

  /** The target nodes of the leg towards `points[k]`. */
  function LegTargets(mt: MovementType, points: seq<string>, rc: RunwayConfiguration,
                      byName: map<string, seq<TaxiSegment>>, k: nat): set<string>
    requires k < |points|
  {
    SegmentNodes(mt, points, rc, byName, points[k], EnforcedNode(mt, points, rc, k))
  }

  /** How a route starts: its first segment, the node the first leg leaves
      from, and the gate node looked up for a departure (`None` otherwise). */
  datatype Start = Start(segment: TaxiSegment, node: string, gateNode: Option<string>)

  /** The start `find_path` chooses among the segments named after the first
      waypoint: for a departure, the first one touching the gate's node,
      left from that node; for an arrival, the first runway segment, left
      from its end node; failing that, the first segment, left from its end
      node. */
  function StartOf(mt: MovementType, ts: seq<Terminal>, gateId: string, firstSegs: seq<TaxiSegment>): Start
    requires firstSegs != []
  {
    if mt == Departure then
      var gateNode := GateNode(ts, gateId);
      var touching := if Truthy(gateNode) then FirstTouching(firstSegs, gateNode.value, gateNode.value) else None;
      if touching.Some? then Start(touching.value, gateNode.value, gateNode)
      else Start(firstSegs[0], firstSegs[0].endNode, gateNode)
    else
      var runway := FirstRunway(firstSegs);
      if runway.Some? then Start(runway.value, runway.value.endNode, None)
      else Start(firstSegs[0], firstSegs[0].endNode, None)
  }

  /** Whether the first segment is marked used: always, except for a
      departure that leaves from the gate's own node. */
  predicate StartMarked(mt: MovementType, start: Start)
  {
    !(mt == Departure && start.gateNode == Some(start.node))
  }

  /** The segments used before the first leg. */
  function StartUsed(mt: MovementType, start: Start): set<string>
  {
    if StartMarked(mt, start) then {start.segment.segmentId} else {}
  }

  /** The start is one of the first waypoint's segments and touches the node
      left from; an arrival starts on a runway segment when there is one;
      the first segment is left unmarked only when a departure leaves from
      the node of its gate, and it is whenever a segment of the first
      waypoint touches that gate node. */
  lemma StartSound(mt: MovementType, ts: seq<Terminal>, gateId: string, firstSegs: seq<TaxiSegment>)
    requires firstSegs != []
    ensures StartOf(mt, ts, gateId, firstSegs).segment in firstSegs
    ensures Touches(StartOf(mt, ts, gateId, firstSegs).segment, StartOf(mt, ts, gateId, firstSegs).node)
    ensures mt == Arrival && (exists i :: 0 <= i < |firstSegs| && IsRunway(firstSegs[i])) ==>
              IsRunway(StartOf(mt, ts, gateId, firstSegs).segment)
    ensures !StartMarked(mt, StartOf(mt, ts, gateId, firstSegs)) ==>
              mt == Departure && GateNode(ts, gateId) == Some(StartOf(mt, ts, gateId, firstSegs).node)
    ensures mt == Departure && Truthy(GateNode(ts, gateId)) &&
            (exists i :: 0 <= i < |firstSegs| && Touches(firstSegs[i], GateNode(ts, gateId).value)) ==>
              !StartMarked(mt, StartOf(mt, ts, gateId, firstSegs)) &&
              StartOf(mt, ts, gateId, firstSegs).node == GateNode(ts, gateId).value
  {
    var gateNode := GateNode(ts, gateId);
    if mt == Departure && Truthy(gateNode) {
      var touching := FirstTouching(firstSegs, gateNode.value, gateNode.value);
      if touching.Some? {
        var i :| 0 <= i < |firstSegs| && firstSegs[i] == touching.value &&
                 Touches(touching.value, gateNode.value) && Touches(touching.value, gateNode.value) &&
                 forall j :: 0 <= j < i ==> !(Touches(firstSegs[j], gateNode.value) && Touches(firstSegs[j], gateNode.value));
      }
    }
    if mt == Arrival && FirstRunway(firstSegs).Some? {
      var runway := FirstRunway(firstSegs);
      var i :| 0 <= i < |firstSegs| && firstSegs[i] == runway.value && IsRunway(runway.value) &&
               forall j :: 0 <= j < i ==> !IsRunway(firstSegs[j]);
    }
  }

  /** The choice of the first segment and node in `find_path`. */
  method ChooseStart(mt: MovementType, ts: seq<Terminal>, gateId: string, firstSegs: seq<TaxiSegment>)
    returns (start: Start)
    requires firstSegs != []
    ensures start == StartOf(mt, ts, gateId, firstSegs)
  {
    var firstSegment: Option<TaxiSegment> := None;
    var firstNode := "";
    var gateNode: Option<string> := None;
    if mt == Departure {
      gateNode := FindGateNode(ts, gateId);
      if Truthy(gateNode) {
        var seg := FindTouching(firstSegs, gateNode.value, gateNode.value);
        if seg.Some? {
          firstSegment := seg;
          firstNode := gateNode.value;
        }
      }
    } else {
      var seg := FindRunwaySegment(firstSegs);
      if seg.Some? {
        firstSegment := seg;
        firstNode := seg.value.endNode;
      }
    }
    if firstSegment.None? {
      firstSegment := Some(firstSegs[0]);
      firstNode := firstSegs[0].endNode;
    }
    return Start(firstSegment.value, firstNode, gateNode);
  }

  /** The node the final segment must reach: the configured entrance node of
      a departure, or the node of an arrival's gate. */
  function FinalNode(mt: MovementType, ts: seq<Terminal>, rc: RunwayConfiguration, points: seq<string>): Option<string>
    requires points != []
  {
    if mt == Departure then RunwayNode(rc.entrances, points[|points| - 1])
    else GateNode(ts, points[|points| - 1])
  }

  /** The final segment `find_path` appends, if any: the first segment named
      after the last waypoint that touches both that node and the node the
      last leg reached. */
  function FinalSegment(mt: MovementType, ts: seq<Terminal>, rc: RunwayConfiguration,
                        byName: map<string, seq<TaxiSegment>>, points: seq<string>, lastNode: string): Option<TaxiSegment>
    requires points != []
  {
    var special := FinalNode(mt, ts, rc, points);
    if Truthy(special) then FirstTouching(SegmentsNamed(byName, points[|points| - 1]), special.value, lastNode)
    else None
  }

  /** The final segment is a loaded segment named after the last waypoint,
      touching the node the last leg reached and the configured entrance node
      (departure) or the node of a gate with the last waypoint's id (arrival). */
  lemma FinalSegmentSound(mt: MovementType, ts: seq<Terminal>, rc: RunwayConfiguration,
                          segs: seq<TaxiSegment>, points: seq<string>, lastNode: string)
    requires points != []
    ensures var f := FinalSegment(mt, ts, rc, ByName(segs), points, lastNode);
            f.Some? ==>
              f.value in segs && f.value.name == points[|points| - 1] && Touches(f.value, lastNode) &&
              (mt == Departure ==>
                 exists i :: 0 <= i < |rc.entrances| && rc.entrances[i].name == points[|points| - 1] &&
                             Touches(f.value, rc.entrances[i].node)) &&
              (mt == Arrival ==>
                 exists i, j :: 0 <= i < |ts| && 0 <= j < |ts[i].gates| &&
                                ts[i].gates[j].gateId == points[|points| - 1] &&
                                Touches(f.value, ts[i].gates[j].nodeId))
  {
    var special := FinalNode(mt, ts, rc, points);
    var name := points[|points| - 1];
    var f := FinalSegment(mt, ts, rc, ByName(segs), points, lastNode);
    if f.Some? {
      var named := SegmentsNamed(ByName(segs), name);
      var k :| 0 <= k < |named| && named[k] == f.value &&
               Touches(f.value, special.value) && Touches(f.value, lastNode) &&
               forall j :: 0 <= j < k ==> !(Touches(named[j], special.value) && Touches(named[j], lastNode));
      ByNameSound(segs);
      assert named[k] in named;
      if mt == Arrival {
        GateNodeSound(ts, name);
      }
    }
  }

  // ---------------------------------------------------------------------
  // How legs chain into a route

  /** The segment ids of the legs' routes, in order. */
  function LegIds(legs: seq<Leg>): seq<string>
    decreases |legs|
  {
    if legs == [] then []
    else
      var last := legs[|legs| - 1];
      LegIds(legs[..|legs| - 1]) + (if last.route.Some? then last.route.value.ids else [])
  }

  /** The node the route stands at after the legs. */
  function EndNode(legs: seq<Leg>, node0: string): string
  {
    if legs == [] then node0
    else
      var last := legs[|legs| - 1];
      if last.route.Some? then last.route.value.to else last.from
  }

  /** Each leg leaves from where the previous one arrived (the start node
      for the first) and forbids the segments used before it: the marked
      start segment and everything earlier legs took. */
  ghost predicate Chained(legs: seq<Leg>, node0: string, used0: set<string>)
  {
    forall i {:trigger LegChained(legs, i, node0, used0)} :: 0 <= i < |legs| ==> LegChained(legs, i, node0, used0)
  }

  /** Leg `i` leaves from where the legs before it ended, forbidding what
      was used before it. */
  ghost predicate LegChained(legs: seq<Leg>, i: nat, node0: string, used0: set<string>)
    requires i < |legs|
  {
    legs[i].from == EndNode(legs[..i], node0) &&
    legs[i].forbidden == used0 + IdSet(LegIds(legs[..i]))
  }

  /** Leg `i` runs from waypoint `i` to waypoint `i + 1`, over segments named
      after those two, towards the next waypoint's nodes, and its answer is
      right. */
  ghost predicate LegsFit(g: map<string, seq<Edge>>, segs: seq<TaxiSegment>, mt: MovementType,
                          points: seq<string>, rc: RunwayConfiguration,
                          byName: map<string, seq<TaxiSegment>>, legs: seq<Leg>)
  {
    forall i {:trigger LegFits(g, segs, mt, points, rc, byName, legs, i)} :: 0 <= i < |legs| ==>
      LegFits(g, segs, mt, points, rc, byName, legs, i)
  }

  ghost predicate LegFits(g: map<string, seq<Edge>>, segs: seq<TaxiSegment>, mt: MovementType,
                          points: seq<string>, rc: RunwayConfiguration,
                          byName: map<string, seq<TaxiSegment>>, legs: seq<Leg>, i: nat)
    requires i < |legs|
  {
    i + 1 < |points| &&
    legs[i].allowed == {points[i], points[i + 1]} &&
    legs[i].targets == LegTargets(mt, points, rc, byName, i + 1) &&
    LegAnswered(g, segs, legs[i])
  }

  lemma ChainedAppend(legs: seq<Leg>, leg: Leg, node0: string, used0: set<string>)
    requires Chained(legs, node0, used0)
    requires leg.from == EndNode(legs, node0) && leg.forbidden == used0 + IdSet(LegIds(legs))
    ensures Chained(legs + [leg], node0, used0)
  {
    var legs' := legs + [leg];
    forall i | 0 <= i < |legs'|
      ensures LegChained(legs', i, node0, used0)
    {
      if i < |legs| {
        assert LegChained(legs, i, node0, used0);
        assert legs'[..i] == legs[..i];
      } else {
        assert legs'[..i] == legs;
      }
    }
  }

  lemma IdSetAppend(a: seq<string>, b: seq<string>)
    ensures IdSet(a + b) == IdSet(a) + IdSet(b)
  {
    forall x | x in IdSet(a + b)
      ensures x in IdSet(a) + IdSet(b)
    {
      var i :| 0 <= i < |a + b| && (a + b)[i] == x;
      if i >= |a| {
        assert b[i - |a|] == x;
      } else {
        assert a[i] == x;
      }
    }
    forall x | x in IdSet(a)
      ensures x in IdSet(a + b)
    {
      var i :| 0 <= i < |a| && a[i] == x;
      assert (a + b)[i] == x;
    }
    forall x | x in IdSet(b)
      ensures x in IdSet(a + b)
    {
      var i :| 0 <= i < |b| && b[i] == x;
      assert (a + b)[|a| + i] == x;
    }
  }

  /** The ids of an earlier leg are among the ids of every longer prefix. */
  lemma {:induction false} LegIdsPrefix(legs: seq<Leg>, i: nat, j: nat)
    requires i < j <= |legs| && legs[i].route.Some?
    ensures IdSet(legs[i].route.value.ids) <= IdSet(LegIds(legs[..j]))
    decreases j
  {
    var pre := legs[..j][..j - 1];
    assert pre == legs[..j - 1];
    IdSetAppend(LegIds(pre), if legs[j - 1].route.Some? then legs[j - 1].route.value.ids else []);
    if i < j - 1 {
      LegIdsPrefix(legs, i, j - 1);
    }
  }

  /** No segment is used twice across legs, and no leg takes the marked
      start segment. */
  lemma NoReuse(g: map<string, seq<Edge>>, segs: seq<TaxiSegment>, legs: seq<Leg>,
                node0: string, used0: set<string>)
    requires Chained(legs, node0, used0)
    requires forall i :: 0 <= i < |legs| ==> LegAnswered(g, segs, legs[i]) && legs[i].route.Some? && legs[i].allowed != {}
    ensures forall i :: 0 <= i < |legs| ==> IdSet(legs[i].route.value.ids) !! used0
    ensures forall i, j :: 0 <= i < j < |legs| ==> IdSet(legs[i].route.value.ids) !! IdSet(legs[j].route.value.ids)
  {
    forall i | 0 <= i < |legs|
      ensures IdSet(legs[i].route.value.ids) !! used0
    {
      LegRespectsRules(g, segs, legs[i]);
      assert LegChained(legs, i, node0, used0);
    }
    forall i, j | 0 <= i < j < |legs|
      ensures IdSet(legs[i].route.value.ids) !! IdSet(legs[j].route.value.ids)
    {
      LegRespectsRules(g, segs, legs[j]);
      assert LegChained(legs, j, node0, used0);
      LegIdsPrefix(legs, i, j);
    }
  }

  /** The runway nodes the legs head for are nodes of the graph (the router
      looks their distances up): for a departure, the entrance node of its
      last waypoint; for an arrival, the exit node of its first waypoint
      when a later leg heads back to that waypoint. */
  predicate RunwayTargetsInGraph(mt: MovementType, points: seq<string>, rc: RunwayConfiguration,
                                 g: map<string, seq<Edge>>)
  {
    points != [] ==>
      if mt == Departure then
        var n := RunwayNode(rc.entrances, points[|points| - 1]);
        n.Some? ==> n.value in g
      else
        var n := RunwayNode(rc.exits, points[0]);
        n.Some? && points[0] in points[1..] ==> n.value in g
  }

  /** The targets of a leg are nodes of the graph. */
  lemma TargetsInGraph(mt: MovementType, points: seq<string>, rc: RunwayConfiguration,
                       segs: seq<TaxiSegment>, k: nat)
    requires 0 < k < |points| && RunwayTargetsInGraph(mt, points, rc, GraphOf(segs))
    ensures LegTargets(mt, points, rc, ByName(segs), k) <= GraphOf(segs).Keys
  {
    NamedEndpoints(segs, points[k]);
    GraphOfKeys(segs);
  }

  /** The id of the final segment, if any, as a list. */
  function FinalIds(mt: MovementType, ts: seq<Terminal>, rc: RunwayConfiguration,
                    byName: map<string, seq<TaxiSegment>>, points: seq<string>, lastNode: string): seq<string>
    requires points != []
  {
    var f := FinalSegment(mt, ts, rc, byName, points, lastNode);
    if f.Some? then [f.value.segmentId] else []
  }

  lemma LegsFitAppend(g: map<string, seq<Edge>>, segs: seq<TaxiSegment>, mt: MovementType,
                      points: seq<string>, rc: RunwayConfiguration,
                      byName: map<string, seq<TaxiSegment>>, legs: seq<Leg>, leg: Leg)
    requires LegsFit(g, segs, mt, points, rc, byName, legs)
    requires |legs| + 1 < |points|
    requires leg.allowed == {points[|legs|], points[|legs| + 1]}
    requires leg.targets == LegTargets(mt, points, rc, byName, |legs| + 1)
    requires LegAnswered(g, segs, leg)
    ensures LegsFit(g, segs, mt, points, rc, byName, legs + [leg])
  {
    var legs' := legs + [leg];
    forall i | 0 <= i < |legs'|
      ensures LegFits(g, segs, mt, points, rc, byName, legs', i)
    {
      if i < |legs| {
        assert LegFits(g, segs, mt, points, rc, byName, legs, i);
      }
    }
  }

  lemma LegIdsAppend(legs: seq<Leg>, leg: Leg)
    requires leg.route.Some?
    ensures LegIds(legs + [leg]) == LegIds(legs) + leg.route.value.ids
  {
    assert (legs + [leg])[..|legs|] == legs;
  }

  /** The sum of lengths over two lists of ids added together. */
  lemma {:induction false} PathLengthConcat(segs: seq<TaxiSegment>, a: seq<string>, b: seq<string>)
    ensures PathLength(segs, a + b) == PathLength(segs, a) + PathLength(segs, b)
    decreases |b|
  {
    if b == [] {
      assert a + b == a;
    } else {
      var pre := b[..|b| - 1];
      PathLengthConcat(segs, a, pre);
      assert a + b == (a + pre) + [b[|b| - 1]];
      PathLengthAppend(segs, a + pre, b[|b| - 1]);
    }
  }

  /** The segments filed under a name are exactly the loaded segments of
      that name. */
  lemma NamedLoaded(segs: seq<TaxiSegment>, n: string)
    ensures forall s :: s in SegmentsNamed(ByName(segs), n) <==> s in segs && s.name == n
  {
    if n in Names(segs) {
      NamedContents(segs, n);
    } else {
      forall s | s in segs
        ensures s.name != n
      {
        assert s.name in Names(segs);
      }
    }
  }

  /** With unique ids, charging the start segment, the legs' segments and
      the final segment their lengths sums to the lengths of the route's ids. */
  lemma ChargedLengths(segs: seq<TaxiSegment>, first: TaxiSegment, legIds: seq<string>,
                       f: Option<TaxiSegment>, total: nat)
    requires first in segs && (f.Some? ==> f.value in segs)
    requires total == first.length + PathLength(segs, legIds) + (if f.Some? then f.value.length else 0)
    ensures UniqueIds(segs) ==>
              total == PathLength(segs, [first.segmentId] + legIds + (if f.Some? then [f.value.segmentId] else []))
  {
    if UniqueIds(segs) {
      LoadedLengthCharged(segs, first);
      PathLengthAppend(segs, [], first.segmentId);
      assert [] + [first.segmentId] == [first.segmentId];
      PathLengthConcat(segs, [first.segmentId], legIds);
      if f.Some? {
        LoadedLengthCharged(segs, f.value);
        PathLengthAppend(segs, [first.segmentId] + legIds, f.value.segmentId);
      } else {
        assert [first.segmentId] + legIds + [] == [first.segmentId] + legIds;
      }
    }
  }

  /** The ids recorded on a fresh path: the start segment, the legs' ids,
      then the final segment's. */
  lemma RecordedOnFresh(first: string, legIds: seq<string>, finalIds: seq<string>)
    ensures ([] + [first]) + legIds + finalIds == [first] + legIds + finalIds
  {
    assert [] + [first] == [first];
  }

  /** The first `n` legs all found a route. */
  ghost predicate RoutedUpTo(legs: seq<Leg>, n: int)
  {
    forall i {:trigger LegRouted(legs, i)} :: 0 <= i < n && i < |legs| ==> LegRouted(legs, i)
  }

  ghost predicate LegRouted(legs: seq<Leg>, i: nat)
    requires i < |legs|
  {
    legs[i].route.Some?
  }

  /** The state of the waypoint loop: every leg so far found a route, the
      legs chain from the start and fit their waypoints, and the loop stands
      at the last leg's target having used the start's and the legs' segments. */
  ghost predicate RouteSoFar(g: map<string, seq<Edge>>, segs: seq<TaxiSegment>, mt: MovementType,
                             points: seq<string>, rc: RunwayConfiguration,
                             byName: map<string, seq<TaxiSegment>>, legs: seq<Leg>,
                             node0: string, used0: set<string>, lastNode: string, used: set<string>)
  {
    RoutedUpTo(legs, |legs|) &&
    Chained(legs, node0, used0) &&
    LegsFit(g, segs, mt, points, rc, byName, legs) &&
    lastNode == EndNode(legs, node0) &&
    used == used0 + IdSet(LegIds(legs))
  }

  /** A leg that finds a route extends the loop state. */
  lemma LegSucceeds(g: map<string, seq<Edge>>, segs: seq<TaxiSegment>, mt: MovementType,
                    points: seq<string>, rc: RunwayConfiguration,
                    byName: map<string, seq<TaxiSegment>>, legs: seq<Leg>, leg: Leg,
                    node0: string, used0: set<string>, lastNode: string, used: set<string>,
                    recorded: seq<string>)
    requires RouteSoFar(g, segs, mt, points, rc, byName, legs, node0, used0, lastNode, used)
    requires |legs| + 1 < |points|
    requires leg.from == lastNode && leg.forbidden == used && leg.allowed == {points[|legs|], points[|legs| + 1]}
    requires leg.targets == LegTargets(mt, points, rc, byName, |legs| + 1)
    requires LegAnswered(g, segs, leg) && leg.route.Some?
    ensures recorded + LegIds(legs + [leg]) == (recorded + LegIds(legs)) + leg.route.value.ids
    ensures RouteSoFar(g, segs, mt, points, rc, byName, legs + [leg], node0, used0,
                       leg.route.value.to, used + IdSet(leg.route.value.ids))
    ensures LegIds(legs + [leg]) == LegIds(legs) + leg.route.value.ids
    ensures PathLength(segs, LegIds(legs + [leg])) == PathLength(segs, LegIds(legs)) + PathLength(segs, leg.route.value.ids)
  {
    ChainedAppend(legs, leg, node0, used0);
    LegsFitAppend(g, segs, mt, points, rc, byName, legs, leg);
    RoutedAppend(legs, leg);
    LegIdsAppend(legs, leg);
    IdSetAppend(LegIds(legs), leg.route.value.ids);
    PathLengthConcat(segs, LegIds(legs), leg.route.value.ids);
  }

  /** A leg that finds nothing still chains and fits. */
  lemma LegFails(g: map<string, seq<Edge>>, segs: seq<TaxiSegment>, mt: MovementType,
                 points: seq<string>, rc: RunwayConfiguration,
                 byName: map<string, seq<TaxiSegment>>, legs: seq<Leg>, leg: Leg,
                 node0: string, used0: set<string>, lastNode: string, used: set<string>)
    requires RouteSoFar(g, segs, mt, points, rc, byName, legs, node0, used0, lastNode, used)
    requires |legs| + 1 < |points|
    requires leg.from == lastNode && leg.forbidden == used && leg.allowed == {points[|legs|], points[|legs| + 1]}
    requires leg.targets == LegTargets(mt, points, rc, byName, |legs| + 1)
    requires LegAnswered(g, segs, leg)
    ensures Chained(legs + [leg], node0, used0)
    ensures LegsFit(g, segs, mt, points, rc, byName, legs + [leg])
    ensures RoutedUpTo(legs + [leg], |legs|)
  {
    ChainedAppend(legs, leg, node0, used0);
    LegsFitAppend(g, segs, mt, points, rc, byName, legs, leg);
    RoutedAppend(legs, leg);
  }

  lemma RoutedAppend(legs: seq<Leg>, leg: Leg)
    requires RoutedUpTo(legs, |legs|)
    ensures RoutedUpTo(legs + [leg], |legs|)
    ensures leg.route.Some? ==> RoutedUpTo(legs + [leg], |legs| + 1)
  {
    forall i | 0 <= i < |legs| + 1 && (i < |legs| || leg.route.Some?)
      ensures LegRouted(legs + [leg], i)
    {
      if i < |legs| {
        assert LegRouted(legs, i);
      }
    }
  }

  // ---------------------------------------------------------------------
  // The airport

  /** `Airport`: the router configuration, the name of the active runway
      configuration, and the segment records with their name index and
      adjacency map. */
  class Airport {
    var config: RouterConfig
    var airportConfig: string
    var segmentsByName: map<string, seq<TaxiSegment>>
    var allSegments: seq<TaxiSegment>
    var graph: map<string, seq<Edge>>

    /** The name index and the adjacency map are those of the loaded records. */
    predicate Valid()
      reads this
    {
      segmentsByName == ByName(allSegments) && graph == GraphOf(allSegments)
    }

    /** The active runway configuration; the router fails on a name the
        configuration does not define. */
    function Runways(): RunwayConfiguration
      reads this
      requires airportConfig in config.runwayConfigurations
    {
      config.runwayConfigurations[airportConfig]
    }

    constructor(features: seq<NetworkFeature>, config: RouterConfig, airportConfig: string)
      ensures this.config == config && this.airportConfig == airportConfig
      ensures allSegments == LoadedSegments(features)
      ensures Valid()
    {
      this.config := config;
      this.airportConfig := airportConfig;
      segmentsByName := map[];
      allSegments := [];
      graph := map[];
      new;
      LoadData(features);
    }

    /** The segment and graph part of `_load_data`. */
    method LoadData(features: seq<NetworkFeature>)
      requires segmentsByName == map[] && allSegments == [] && graph == map[]
      modifies this
      ensures config == old(config) && airportConfig == old(airportConfig)
      ensures allSegments == LoadedSegments(features)
      ensures Valid()
    {
      var i := 0;
      while i < |features|
        invariant 0 <= i <= |features|
        invariant allSegments == LoadedSegments(features[..i])
        invariant segmentsByName == ByName(allSegments)
        invariant graph == map[]
        invariant config == old(config) && airportConfig == old(airportConfig)
      {
        var feature := features[i];
        if feature.geometryType == "LineString" {
          if feature.name != "" {
            var segment := TaxiSegment(feature.segmentId, feature.name, feature.startNode, feature.endNode,
                                       feature.length,
                                       if feature.segmentType.Some? then feature.segmentType.value else "taxiway");
            FileSegment(segmentsByName, allSegments, segment);
            if feature.name !in segmentsByName {
              segmentsByName := segmentsByName[feature.name := []];
            }
            segmentsByName := segmentsByName[feature.name := segmentsByName[feature.name] + [segment]];
            allSegments := allSegments + [segment];
          }
        }
        LoadedSegmentsStep(features, i);
        i := i + 1;
      }
      assert features[..i] == features;
      BuildGraph();
    }

    /** The graph-building loop of `_load_data`: both directions of every
        loaded segment. */
    method BuildGraph()
      requires graph == map[]
      modifies this
      ensures graph == GraphOf(allSegments)
      ensures allSegments == old(allSegments) && segmentsByName == old(segmentsByName)
      ensures config == old(config) && airportConfig == old(airportConfig)
    {
      var j := 0;
      while j < |allSegments|
        invariant 0 <= j <= |allSegments|
        invariant graph == GraphOf(allSegments[..j])
        invariant allSegments == old(allSegments) && segmentsByName == old(segmentsByName)
        invariant config == old(config) && airportConfig == old(airportConfig)
      {
        var segment := allSegments[j];
        AddBothWaysSteps(graph, segment);
        GraphOfStep(allSegments, j);
        if segment.startNode !in graph {
          graph := graph[segment.startNode := []];
        }
        if segment.endNode !in graph {
          graph := graph[segment.endNode := []];
        }
        graph := graph[segment.startNode := graph[segment.startNode] +
                                            [Edge(segment.endNode, segment.segmentId, segment.length)]];
        graph := graph[segment.endNode := graph[segment.endNode] +
                                          [Edge(segment.startNode, segment.segmentId, segment.length)]];
        j := j + 1;
      }
      assert allSegments[..j] == allSegments;
    }

    /** The movement passes validation against the active configuration. */
    predicate Accepts(mt: MovementType, points: seq<string>)
      reads this
      requires ConfigConsulted(config.terminals, mt, points) ==> airportConfig in config.runwayConfigurations
    {
      ConfigConsulted(config.terminals, mt, points) && ValidMovement(config.terminals, Runways(), mt, points)
    }

    /** `validate_movement`. The active configuration is looked up only once
        the movement has two points and, for a departure, a known gate. */
    method ValidateMovement(mt: MovementType, points: seq<string>) returns (ok: bool)
      requires ConfigConsulted(config.terminals, mt, points) ==> airportConfig in config.runwayConfigurations
      ensures ok <==> Accepts(mt, points)
    {
      if |points| < 2 {
        return false;
      }
      if mt == Arrival {
        var runwayConfig := config.runwayConfigurations[airportConfig];
        var exitNode := FindRunwayNode(runwayConfig.exits, points[0]);
        if exitNode.None? {
          return false;
        }
        var gateFound := IsKnownGate(config.terminals, points[|points| - 1]);
        if !gateFound {
          return false;
        }
      } else {
        var gateFound := IsKnownGate(config.terminals, points[0]);
        if !gateFound {
          return false;
        }
        var runwayConfig := config.runwayConfigurations[airportConfig];
        var entranceNode := FindRunwayNode(runwayConfig.entrances, points[|points| - 1]);
        if entranceNode.None? {
          return false;
        }
      }
      return true;
    }

    /** The leg towards `points[idx + 1]`: resolve its target nodes, search
        from the last node over the two waypoints' segments avoiding the used
        ones, pick the nearest target whose path checks out, and append that
        path's segments, marking them used. */
    method RouteLeg(mt: MovementType, points: seq<string>, idx: nat, lastNode: string,
                    used: set<string>, path: TaxiPath)
      returns (ok: bool, nextNode: string, usedAfter: set<string>, ghost leg: Leg)
      requires Valid() && airportConfig in config.runwayConfigurations &&
               RunwayTargetsInGraph(mt, points, Runways(), graph)
      requires idx + 1 < |points|
      modifies path
      ensures leg.from == lastNode && leg.forbidden == used && leg.allowed == {points[idx], points[idx + 1]}
      ensures leg.targets == LegTargets(mt, points, Runways(), segmentsByName, idx + 1)
      ensures LegAnswered(graph, allSegments, leg)
      ensures ok <==> leg.route.Some?
      ensures ok ==> nextNode == leg.route.value.to && usedAfter == used + IdSet(leg.route.value.ids) &&
                     path.segments == old(path.segments) + leg.route.value.ids &&
                     path.totalDistance == old(path.totalDistance) + PathLength(allSegments, leg.route.value.ids)
      ensures path.waypoints == old(path.waypoints)
    {
      var currentWaypoint := points[idx];
      var nextWaypoint := points[idx + 1];
      var runwayConfig := config.runwayConfigurations[airportConfig];
      var enforceNode: Option<string> := None;
      if mt == Departure && nextWaypoint == points[|points| - 1] {
        enforceNode := FindRunwayNode(runwayConfig.entrances, nextWaypoint);
      }
      var targetNodes := GetSegmentNodes(mt, points, runwayConfig, segmentsByName, nextWaypoint, enforceNode);
      var allowedSegments := {currentWaypoint, nextWaypoint};
      TargetsInGraph(mt, points, runwayConfig, allSegments, idx + 1);
      var route := SearchLeg(lastNode, targetNodes, used, allowedSegments);
      leg := Leg(lastNode, targetNodes, used, allowedSegments, route);
      if route.None? {
        return false, lastNode, used, leg;
      }
      usedAfter := AddLegSegments(path, allSegments, route.value.ids, used);
      return true, route.value.to, usedAfter, leg;
    }

    /** The search of one leg and the choice of its target: run the search,
        then keep the nearest target whose recorded path checks out. */
    method SearchLeg(from: string, targetNodes: set<string>, forbidden: set<string>, allowed: set<string>)
      returns (route: Option<LegRoute>)
      requires Valid() && targetNodes <= graph.Keys && allowed != {}
      ensures LegAnswered(graph, allSegments, Leg(from, targetNodes, forbidden, allowed, route))
      ensures route.Some? ==> IdsLoaded(allSegments, route.value.ids)
    {
      GraphClosed(allSegments);
      var distances := DijkstraMultiTarget(graph, allSegments, [from], targetNodes, forbidden, allowed);
      RecordedIdsLoaded(graph, allSegments, from, targetNodes, forbidden, allowed, distances);
      var best := SelectTarget(targetNodes, distances, allSegments, allowed);
      SelectionAnswers(graph, allSegments, from, targetNodes, forbidden, allowed, distances, best);
      if best.None? {
        return None;
      }
      var bestTarget := best.value;
      return Some(LegRoute(bestTarget, distances[bestTarget].path, distances[bestTarget].dist));
    }

    /** The final segment towards the configured entrance node (departure)
        or the gate's node (arrival), when one touches the last node. */
    method AddFinalSegment(mt: MovementType, points: seq<string>, lastNode: string, path: TaxiPath)
      requires airportConfig in config.runwayConfigurations && points != []
      modifies path
      ensures var f := FinalSegment(mt, config.terminals, Runways(), segmentsByName, points, lastNode);
              path.segments == old(path.segments) + (if f.Some? then [f.value.segmentId] else []) &&
              path.totalDistance == old(path.totalDistance) + (if f.Some? then f.value.length else 0) &&
              path.waypoints == old(path.waypoints)
    {
      var special: Option<string>;
      if mt == Departure {
        special := FindRunwayNode(config.runwayConfigurations[airportConfig].entrances, points[|points| - 1]);
      } else {
        special := FindGateNode(config.terminals, points[|points| - 1]);
      }
      if Truthy(special) {
        var lastSegments := SegmentsNamed(segmentsByName, points[|points| - 1]);
        var seg := FindTouching(lastSegments, special.value, lastNode);
        if seg.Some? {
          path.AddSegment(seg.value.segmentId, seg.value.length);
        }
      }
    }

    /** The loop of `find_path` over consecutive waypoints: one leg each,
        stopping at the first leg that finds nothing. */
    method FollowWaypoints(mt: MovementType, points: seq<string>, node0: string, used0: set<string>,
                           path: TaxiPath)
      returns (ok: bool, lastNode: string, ghost legs: seq<Leg>)
      requires Valid() && airportConfig in config.runwayConfigurations &&
               RunwayTargetsInGraph(mt, points, Runways(), graph)
      requires |points| >= 2
      modifies path
      ensures Chained(legs, node0, used0)
      ensures LegsFit(graph, allSegments, mt, points, Runways(), segmentsByName, legs)
      ensures RoutedUpTo(legs, |legs| - 1)
      ensures ok <==> |legs| == |points| - 1 && legs[|legs| - 1].route.Some?
      ensures !ok ==> legs != [] && legs[|legs| - 1].route.None?
      ensures ok ==> lastNode == EndNode(legs, node0) &&
                     path.segments == old(path.segments) + LegIds(legs) &&
                     path.totalDistance == old(path.totalDistance) + PathLength(allSegments, LegIds(legs))
      ensures path.waypoints == old(path.waypoints)
    {
      legs := [];
      lastNode := node0;
      var usedSegments := used0;
      var currentWaypointIdx := 0;
      while currentWaypointIdx < |points| - 1
        invariant 0 <= currentWaypointIdx <= |points| - 1 && |legs| == currentWaypointIdx
        invariant RouteSoFar(graph, allSegments, mt, points, Runways(), segmentsByName,
                             legs, node0, used0, lastNode, usedSegments)
        invariant path.segments == old(path.segments) + LegIds(legs)
        invariant path.totalDistance == old(path.totalDistance) + PathLength(allSegments, LegIds(legs))
        invariant path.waypoints == old(path.waypoints)
      {
        var found, nextNode, usedAfter, leg := RouteLeg(mt, points, currentWaypointIdx, lastNode, usedSegments, path);
        if !found {
          LegFails(graph, allSegments, mt, points, Runways(), segmentsByName, legs, leg, node0, used0, lastNode, usedSegments);
          legs := legs + [leg];
          return false, lastNode, legs;
        }
        LegSucceeds(graph, allSegments, mt, points, Runways(), segmentsByName, legs, leg, node0, used0, lastNode, usedSegments,
                    old(path.segments));
        legs := legs + [leg];
        lastNode := nextNode;
        usedSegments := usedAfter;
        currentWaypointIdx := currentWaypointIdx + 1;
      }
      assert LegRouted(legs, |legs| - 1);
      return true, lastNode, legs;
    }

    /** `find_path`. On a valid movement whose first waypoint names some
        segment, `legs` records every leg searched, chained from the start;
        the route is `None` exactly when the last of them found nothing, and
        otherwise holds the start segment, every leg's segments and the
        final segment if there is one, charged their lengths. */
    method FindPath(points: seq<string>, mt: MovementType) returns (path: TaxiPath?, ghost legs: seq<Leg>)
      requires Valid()
      requires ConfigConsulted(config.terminals, mt, points) ==> airportConfig in config.runwayConfigurations
      requires Accepts(mt, points) ==> RunwayTargetsInGraph(mt, points, Runways(), graph)
      ensures !Accepts(mt, points) ==> path == null
      ensures Accepts(mt, points) && SegmentsNamed(segmentsByName, points[0]) == [] ==> path == null
      ensures (Accepts(mt, points) &&
               SegmentsNamed(segmentsByName, points[0]) != []) ==>
                var start := StartOf(mt, config.terminals, points[0], SegmentsNamed(segmentsByName, points[0]));
                Chained(legs, start.node, StartUsed(mt, start)) &&
                LegsFit(graph, allSegments, mt, points, Runways(), segmentsByName, legs) &&
                RoutedUpTo(legs, |legs| - 1) &&
                (path == null <==> legs != [] && legs[|legs| - 1].route.None?) &&
                (path != null ==>
                   fresh(path) && |legs| == |points| - 1 &&
                   path.segments == [start.segment.segmentId] + LegIds(legs) +
                                    FinalIds(mt, config.terminals, Runways(), segmentsByName, points,
                                             EndNode(legs, start.node)) &&
                   (UniqueIds(allSegments) ==> path.totalDistance == PathLength(allSegments, path.segments)) &&
                   path.waypoints == [])
    {
      legs := [];
      var valid := ValidateMovement(mt, points);
      if !valid {
        return null, legs;
      }
      path := new TaxiPath();
      var usedSegments: set<string> := {};
      var firstSegments := SegmentsNamed(segmentsByName, points[0]);
      if firstSegments == [] {
        return null, legs;
      }
      var start := ChooseStart(mt, config.terminals, points[0], firstSegments);
      path.AddSegment(start.segment.segmentId, start.segment.length);
      if !(mt == Departure && start.gateNode == Some(start.node)) {
        usedSegments := usedSegments + {start.segment.segmentId};
      }
      assert usedSegments == StartUsed(mt, start);
      var ok, lastNode;
      ok, lastNode, legs := FollowWaypoints(mt, points, start.node, usedSegments, path);
      if !ok {
        return null, legs;
      }
      AddFinalSegment(mt, points, lastNode, path);
      RecordedOnFresh(start.segment.segmentId, LegIds(legs),
                      FinalIds(mt, config.terminals, Runways(), segmentsByName, points, lastNode));
      StartSound(mt, config.terminals, points[0], firstSegments);
      NamedLoaded(allSegments, points[0]);
      FinalSegmentSound(mt, config.terminals, Runways(), allSegments, points, lastNode);
      ChargedLengths(allSegments, start.segment, LegIds(legs),
                     FinalSegment(mt, config.terminals, Runways(), segmentsByName, points, lastNode),
                     path.totalDistance);
      return path, legs;
    }
  }
}
