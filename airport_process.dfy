/** The layout processor: it turns the OpenStreetMap features of an airport
    into a network of nodes and segments, classifies the nodes (runway
    exits, parking exits, gates) and groups the gates by terminal for the
    exported configuration. The geometry library is an oracle (`Geometry`);
    what is modelled is the bookkeeping around it. */
module AirportProcess {
  import opened Wrappers
  import opened StringOrder
  import opened Ids
  import opened Sorting

  // ---------------------------------------------------------------------
  // Input and geometry

  /** A point rounded to seven decimals (`_round_point`), as integers in
      units of 1e-7 degree: `lon` is `x`, `lat` is `y`. */
  datatype Key = Key(lon: int, lat: int)

  /** A GeoJSON feature: its `aeroway` and `ref` properties, its geometry
      type and its coordinates. */
  datatype RawFeature = RawFeature(aeroway: Option<string>, ref: Option<string>,
                                   geometryType: string, coords: seq<Key>)

  /** The answers of the geometry libraries:
      - `crossing(l1, l2)`: the rounded intersection point of two lines when
        they intersect in a single point, `None` otherwise;
      - `onLine(p, l)`: the point lies within 1e-8 of the line;
      - `gap(p, q)`: the planar distance between two points;
      - `metres(p, q)`: the geodesic distance in metres;
      - `degrees(dy, dx)`: `degrees(atan2(dy, dx))`. */
  datatype Geometry = Geometry(crossing: (seq<Key>, seq<Key>) -> Option<Key>,
                               onLine: (Key, seq<Key>) -> bool,
                               gap: (Key, Key) -> nat,
                               metres: (Key, Key) -> nat,
                               degrees: (int, int) -> int)

  // ---------------------------------------------------------------------
  // `process_layout`: the feature filter

  /** A feature the processor keeps: not an apron, a taxiway, runway or
      parking position, drawn as a LineString. */
  predicate Relevant(f: RawFeature)
  {
    f.aeroway != Some("apron") &&
    f.aeroway.Some? && f.aeroway.value in {"taxiway", "runway", "parking_position"} &&
    f.geometryType == "LineString"
  }

  /** The kept features, in input order. */
  function KeptFeatures(fs: seq<RawFeature>): seq<RawFeature>
    decreases |fs|
  {
    if fs == [] then []
    else
      var pre := KeptFeatures(fs[..|fs| - 1]);
      if Relevant(fs[|fs| - 1]) then pre + [fs[|fs| - 1]] else pre
  }

  /** Exactly the taxiway, runway and parking-position LineStrings are kept;
      aprons and every other kind of feature are dropped. */
  lemma {:induction false} KeptFeaturesContents(fs: seq<RawFeature>)
    ensures forall f :: f in KeptFeatures(fs) <==>
              f in fs && f.geometryType == "LineString" &&
              (f.aeroway == Some("taxiway") || f.aeroway == Some("runway") || f.aeroway == Some("parking_position"))
    decreases |fs|
  {
    if fs != [] {
      var pre := fs[..|fs| - 1];
      KeptFeaturesContents(pre);
      assert fs == pre + [fs[|fs| - 1]];
    }
  }

  /** Kept features keep their input order: any two of them occur in the
      input in the same order, and every one is relevant. */
  lemma {:induction false} KeptFeaturesOrder(fs: seq<RawFeature>)
    ensures |KeptFeatures(fs)| <= |fs|
    ensures forall i :: 0 <= i < |KeptFeatures(fs)| ==> Relevant(KeptFeatures(fs)[i])
    ensures forall i, j :: 0 <= i < j < |KeptFeatures(fs)| ==>
              exists a, b :: 0 <= a < b < |fs| && fs[a] == KeptFeatures(fs)[i] && fs[b] == KeptFeatures(fs)[j]
    decreases |fs|
  {
    if fs != [] {
      var pre := fs[..|fs| - 1];
      KeptFeaturesOrder(pre);
      KeptFeaturesContents(pre);
      var kp, k := KeptFeatures(pre), KeptFeatures(fs);
      forall i, j | 0 <= i < j < |k|
        ensures exists a, b :: 0 <= a < b < |fs| && fs[a] == k[i] && fs[b] == k[j]
      {
        if j < |kp| {
          var a, b :| 0 <= a < b < |pre| && pre[a] == kp[i] && pre[b] == kp[j];
          assert fs[a] == k[i] && fs[b] == k[j];
        } else {
          assert k[i] == kp[i] && kp[i] in kp;
          var a :| 0 <= a < |pre| && pre[a] == kp[i];
          assert fs[a] == k[i] && fs[|fs| - 1] == k[j];
        }
      }
    }
  }

  /** The filtering loop of `process_layout`. */
  method FilterFeatures(fs: seq<RawFeature>) returns (features: seq<RawFeature>)
    ensures features == KeptFeatures(fs)
  {
    features := [];
    for i := 0 to |fs|
      invariant features == KeptFeatures(fs[..i])
    {
      assert fs[..i + 1][..i] == fs[..i];
      if fs[i].aeroway == Some("apron") {
        continue;
      }
      if fs[i].aeroway.Some? && fs[i].aeroway.value in ["taxiway", "runway", "parking_position"] {
        if fs[i].geometryType == "LineString" {
          features := features + [fs[i]];
        }
      }
    }
    assert fs[..|fs|] == fs;
  }

  // ---------------------------------------------------------------------
  // `_create_network`: the points that become nodes

  /** Every line has at least one vertex (the processor reads the first and
      last of each). */
  predicate HasVertices(lines: seq<RawFeature>)
  {
    forall i :: 0 <= i < |lines| ==> lines[i].coords != []
  }

  /** The first and last vertex of each line, line by line. */
  function LineEnds(lines: seq<RawFeature>): seq<Key>
    requires HasVertices(lines)
    decreases |lines|
  {
    if lines == [] then []
    else
      var c := lines[|lines| - 1].coords;
      LineEnds(lines[..|lines| - 1]) + [c[0], c[|c| - 1]]
  }

  /** The single-point crossings of line `i` with lines `i + 1 .. j - 1`. */
  function RowCrossings(geo: Geometry, lines: seq<RawFeature>, i: nat, j: nat): seq<Key>
    requires i < |lines| && j <= |lines|
    decreases j
  {
    if j <= i + 1 then []
    else
      var c := geo.crossing(lines[i].coords, lines[j - 1].coords);
      RowCrossings(geo, lines, i, j - 1) + (if c.Some? then [c.value] else [])
  }

  /** The crossings found for the first `n` lines against the lines after them. */
  function Crossings(geo: Geometry, lines: seq<RawFeature>, n: nat): seq<Key>
    requires n <= |lines|
    decreases n
  {
    if n == 0 then [] else Crossings(geo, lines, n - 1) + RowCrossings(geo, lines, n - 1, |lines|)
  }

  /** `points` in `_create_network`: the line ends, then the crossings. */
  function NetworkPoints(geo: Geometry, lines: seq<RawFeature>): seq<Key>
    requires HasVertices(lines)
  {
    LineEnds(lines) + Crossings(geo, lines, |lines|)
  }

  lemma {:induction false} LineEndsContents(lines: seq<RawFeature>)
    requires HasVertices(lines)
    ensures forall p :: p in LineEnds(lines) <==>
              exists i :: 0 <= i < |lines| && (p == lines[i].coords[0] || p == lines[i].coords[|lines[i].coords| - 1])
    decreases |lines|
  {
    if lines != [] {
      var pre := lines[..|lines| - 1];
      LineEndsContents(pre);
      forall p | p in LineEnds(lines)
        ensures exists i :: 0 <= i < |lines| && (p == lines[i].coords[0] || p == lines[i].coords[|lines[i].coords| - 1])
      {
        if p in LineEnds(pre) {
          var i :| 0 <= i < |pre| && (p == pre[i].coords[0] || p == pre[i].coords[|pre[i].coords| - 1]);
          assert pre[i] == lines[i];
        }
      }
      forall p | exists i :: 0 <= i < |lines| && (p == lines[i].coords[0] || p == lines[i].coords[|lines[i].coords| - 1])
        ensures p in LineEnds(lines)
      {
        var i :| 0 <= i < |lines| && (p == lines[i].coords[0] || p == lines[i].coords[|lines[i].coords| - 1]);
        if i < |pre| {
          assert pre[i] == lines[i];
        }
      }
    }
  }

  lemma {:induction false} RowCrossingsContents(geo: Geometry, lines: seq<RawFeature>, i: nat, j: nat)
    requires i < |lines| && j <= |lines|
    ensures forall p :: p in RowCrossings(geo, lines, i, j) <==>
              exists b :: i < b < j && geo.crossing(lines[i].coords, lines[b].coords) == Some(p)
    decreases j
  {
    if j > i + 1 {
      RowCrossingsContents(geo, lines, i, j - 1);
    }
  }

  lemma {:induction false} CrossingsContents(geo: Geometry, lines: seq<RawFeature>, n: nat)
    requires n <= |lines|
    ensures forall p :: p in Crossings(geo, lines, n) <==> CrossingOf(geo, lines, n, p)
    decreases n
  {
    if n > 0 {
      var pre := Crossings(geo, lines, n - 1);
      var row := RowCrossings(geo, lines, n - 1, |lines|);
      CrossingsContents(geo, lines, n - 1);
      RowCrossingsContents(geo, lines, n - 1, |lines|);
      forall p | p in pre + row
        ensures CrossingOf(geo, lines, n, p)
      {
        if p in row {
          var b :| n - 1 < b < |lines| && geo.crossing(lines[n - 1].coords, lines[b].coords) == Some(p);
        }
      }
      forall p | CrossingOf(geo, lines, n, p)
        ensures p in pre + row
      {
        var a, b :| 0 <= a < n && a < b < |lines| && geo.crossing(lines[a].coords, lines[b].coords) == Some(p);
        if a == n - 1 {
          assert p in row;
        } else {
          assert CrossingOf(geo, lines, n - 1, p);
        }
      }
    }
  }

  /** `p` is the crossing of one of the first `n` lines with a later line. */
  ghost predicate CrossingOf(geo: Geometry, lines: seq<RawFeature>, n: nat, p: Key)
  {
    exists a, b :: 0 <= a < n && a < b < |lines| && geo.crossing(lines[a].coords, lines[b].coords) == Some(p)
  }

  /** A point becomes a node exactly when it is the first or last vertex of
      some line, or the single crossing point of two distinct lines. */
  lemma NetworkPointsContents(geo: Geometry, lines: seq<RawFeature>)
    requires HasVertices(lines)
    ensures forall p :: p in NetworkPoints(geo, lines) <==>
              (exists i :: 0 <= i < |lines| && (p == lines[i].coords[0] || p == lines[i].coords[|lines[i].coords| - 1])) ||
              (exists a, b :: 0 <= a < b < |lines| && geo.crossing(lines[a].coords, lines[b].coords) == Some(p))
  {
    LineEndsContents(lines);
    CrossingsContents(geo, lines, |lines|);
  }

  /** The loops of `_create_network` that collect the points. */
  method CollectPoints(geo: Geometry, lines: seq<RawFeature>) returns (points: seq<Key>)
    requires HasVertices(lines)
    ensures points == NetworkPoints(geo, lines)
  {
    points := [];
    for k := 0 to |lines|
      invariant points == LineEnds(lines[..k])
    {
      assert lines[..k + 1][..k] == lines[..k];
      var c := lines[k].coords;
      points := points + [c[0], c[|c| - 1]];
    }
    assert lines[..|lines|] == lines;
    var ends := points;
    for i := 0 to |lines|
      invariant points == ends + Crossings(geo, lines, i)
    {
      for j := i + 1 to |lines|
        invariant points == ends + Crossings(geo, lines, i) + RowCrossings(geo, lines, i, j)
      {
        var c := geo.crossing(lines[i].coords, lines[j].coords);
        if c.Some? {
          points := points + [c.value];
        }
      }
    }
  }

  // ---------------------------------------------------------------------
  // Deduplication of points into nodes

  /** The distinct keys of `points`, in order of first discovery. */
  function DistinctKeys(points: seq<Key>): seq<Key>
    decreases |points|
  {
    if points == [] then []
    else
      var pre := DistinctKeys(points[..|points| - 1]);
      var p := points[|points| - 1];
      if p in pre then pre else pre + [p]
  }

  /** `x` occurs in `points` before the first occurrence of `y`. */
  ghost predicate SeenBefore(points: seq<Key>, x: Key, y: Key)
  {
    exists a :: 0 <= a < |points| && points[a] == x && forall b :: 0 <= b <= a ==> points[b] != y
  }

  /** One entry per distinct key: the keys are pairwise different, they are
      exactly the points, and they are listed in order of first discovery. */
  lemma {:induction false} DistinctKeysSound(points: seq<Key>)
    ensures forall i, j :: 0 <= i < j < |DistinctKeys(points)| ==> DistinctKeys(points)[i] != DistinctKeys(points)[j]
    ensures forall p :: p in DistinctKeys(points) <==> p in points
    ensures forall i, j :: 0 <= i < j < |DistinctKeys(points)| ==>
              SeenBefore(points, DistinctKeys(points)[i], DistinctKeys(points)[j])
    decreases |points|
  {
    if points != [] {
      var pre := points[..|points| - 1];
      var p := points[|points| - 1];
      DistinctKeysSound(pre);
      assert points == pre + [p];
      var d := DistinctKeys(points);
      forall i, j | 0 <= i < j < |d| ensures SeenBefore(points, d[i], d[j]) {
        var dp := DistinctKeys(pre);
        if j < |dp| {
          var a :| 0 <= a < |pre| && pre[a] == dp[i] && forall b :: 0 <= b <= a ==> pre[b] != dp[j];
          assert points[a] == d[i];
          assert forall b :: 0 <= b <= a ==> points[b] != d[j] by {
            forall b | 0 <= b <= a ensures points[b] != d[j] { assert points[b] == pre[b]; }
          }
        } else {
          assert d[j] == p && p !in pre;
          assert d[i] == dp[i] && dp[i] in dp;
          var a :| 0 <= a < |pre| && pre[a] == d[i];
          assert points[a] == d[i];
          assert forall b :: 0 <= b <= a ==> points[b] != d[j] by {
            forall b | 0 <= b <= a ensures points[b] != d[j] { assert points[b] == pre[b]; }
          }
        }
      }
    }
  }

  // ---------------------------------------------------------------------
  // `_extract_segment_geometry`, `_calculate_length`, `_calculate_heading`

  /** `min(range(len(coords)), key=distance to p)`: the first vertex nearest
      to `p`. */
  function Nearest(geo: Geometry, coords: seq<Key>, p: Key): (i: nat)
    requires coords != []
    ensures i < |coords|
    decreases |coords|
  {
    if |coords| == 1 then 0
    else
      var best := Nearest(geo, coords[..|coords| - 1], p);
      if geo.gap(coords[|coords| - 1], p) < geo.gap(coords[best], p) then |coords| - 1 else best
  }

  /** The vertex chosen is at least as near as every vertex, and strictly
      nearer than every vertex before it. */
  lemma {:induction false} NearestIsFirstMinimum(geo: Geometry, coords: seq<Key>, p: Key)
    requires coords != []
    ensures forall j :: 0 <= j < |coords| ==> geo.gap(coords[Nearest(geo, coords, p)], p) <= geo.gap(coords[j], p)
    ensures forall j :: 0 <= j < Nearest(geo, coords, p) ==> geo.gap(coords[j], p) > geo.gap(coords[Nearest(geo, coords, p)], p)
    decreases |coords|
  {
    if |coords| > 1 {
      var pre := coords[..|coords| - 1];
      NearestIsFirstMinimum(geo, pre, p);
      var best := Nearest(geo, pre, p);
      assert pre[best] == coords[best];
      assert forall j :: 0 <= j < |pre| ==> pre[j] == coords[j];
    }
  }

  /** `_extract_segment_geometry`: the vertices from the one nearest to one
      end to the one nearest to the other, in the line's order. */
  function ExtractGeometry(geo: Geometry, coords: seq<Key>, start: Key, end: Key): (r: seq<Key>)
    requires coords != []
    ensures r != []
  {
    var startIdx := Nearest(geo, coords, start);
    var endIdx := Nearest(geo, coords, end);
    var lo := if startIdx > endIdx then endIdx else startIdx;
    var hi := if startIdx > endIdx then startIdx else endIdx;
    coords[lo..hi + 1]
  }

  /** Vertex `i` is the first vertex nearest to `p`: no vertex is nearer,
      and every vertex before it is farther. */
  ghost predicate FirstNearest(geo: Geometry, coords: seq<Key>, p: Key, i: int)
  {
    0 <= i < |coords| &&
    (forall j :: 0 <= j < |coords| ==> geo.gap(coords[i], p) <= geo.gap(coords[j], p)) &&
    (forall j :: 0 <= j < i ==> geo.gap(coords[j], p) > geo.gap(coords[i], p))
  }

  /** The extracted vertices are the contiguous run of the line between the
      first vertex nearest to `start` and the first vertex nearest to `end`,
      both included, in the line's own order, whichever comes first. */
  lemma ExtractGeometrySlice(geo: Geometry, coords: seq<Key>, start: Key, end: Key)
    requires coords != []
    ensures forall a, b :: FirstNearest(geo, coords, start, a) && FirstNearest(geo, coords, end, b) ==>
              var r := ExtractGeometry(geo, coords, start, end);
              var lo := if a <= b then a else b;
              |r| == (if a <= b then b - a else a - b) + 1 &&
              r[0] == coords[lo] && r[|r| - 1] == coords[if a <= b then b else a] &&
              forall k :: 0 <= k < |r| ==> r[k] == coords[lo + k]
  {
    NearestIsFirstMinimum(geo, coords, start);
    NearestIsFirstMinimum(geo, coords, end);
    forall a, b | FirstNearest(geo, coords, start, a) && FirstNearest(geo, coords, end, b)
      ensures a == Nearest(geo, coords, start) && b == Nearest(geo, coords, end)
    {
      FirstNearestUnique(geo, coords, start, a, Nearest(geo, coords, start));
      FirstNearestUnique(geo, coords, end, b, Nearest(geo, coords, end));
    }
  }

  /** At most one vertex is the first nearest. */
  lemma FirstNearestUnique(geo: Geometry, coords: seq<Key>, p: Key, i: int, j: int)
    requires FirstNearest(geo, coords, p, i) && FirstNearest(geo, coords, p, j)
    ensures i == j
  {
  }

  /** The geodesic length of a polyline: the sum over its consecutive pairs. */
  function Metres(geo: Geometry, coords: seq<Key>): nat
    decreases |coords|
  {
    if |coords| < 2 then 0
    else Metres(geo, coords[..|coords| - 1]) + geo.metres(coords[|coords| - 2], coords[|coords| - 1])
  }

  /** The length of a polyline is the length up to any vertex plus the
      length from it. */
  lemma {:induction false} MetresSplit(geo: Geometry, coords: seq<Key>, k: nat)
    requires k < |coords|
    ensures Metres(geo, coords) == Metres(geo, coords[..k + 1]) + Metres(geo, coords[k..])
    decreases |coords|
  {
    if k < |coords| - 1 {
      var pre := coords[..|coords| - 1];
      MetresSplit(geo, pre, k);
      assert pre[..k + 1] == coords[..k + 1];
      var tail := coords[k..];
      assert tail[..|tail| - 1] == pre[k..];
      assert |tail| >= 2;
    } else {
      assert coords[..k + 1] == coords;
    }
  }

  /** `_calculate_length`. */
  method CalculateLength(geo: Geometry, coords: seq<Key>) returns (total: nat)
    ensures total == Metres(geo, coords)
  {
    total := 0;
    if |coords| < 2 {
      return;
    }
    for i := 0 to |coords| - 1
      invariant total == Metres(geo, coords[..i + 1])
    {
      assert coords[..i + 2][..i + 1] == coords[..i + 1];
      total := total + geo.metres(coords[i], coords[i + 1]);
    }
    assert coords[..|coords|] == coords;
  }

  /** `_calculate_heading`: the direction from the first to the last
      vertex in degrees, reduced to `[0, 360)`; zero below two vertices. */
  function Heading(geo: Geometry, coords: seq<Key>): (h: int)
    ensures 0 <= h < 360
    ensures |coords| < 2 ==> h == 0
  {
    if |coords| < 2 then 0
    else
      var s := coords[0];
      var e := coords[|coords| - 1];
      geo.degrees(e.lat - s.lat, e.lon - s.lon) % 360
  }

  // ---------------------------------------------------------------------
  // Nodes and segments
  //
  // A node id `N%05d` and a segment id `S%05d` are held as the counter they
  // are made from; `NodeId` and `SegId` render them, and `IdInjective`
  // shows that comparing counters is comparing ids.

  /** The role `_identify_special_nodes` gives a node. */
  datatype NodeType = Intersection | RunwayExit | ParkingExit | Gate

  /** `gate_info` of a gate node. */
  datatype GateInfo = GateInfo(gateId: string, heading: int, segmentId: nat)

  /** A network node; `connectedSegments` lists the segments registered on
      it, in creation order. */
  datatype Node = Node(nodeId: nat, coordinates: Key, connectedSegments: seq<nat>,
                       nodeType: NodeType, gateInfo: Option<GateInfo>)

  /** A network segment between two nodes. */
  datatype Segment = Segment(segmentId: nat, startNode: nat, endNode: nat,
                             geometry: seq<Key>, segmentType: string, name: string,
                             length: nat, heading: int)

  /** An entry of `gates`, keyed by the gate's name. */
  datatype GateRecord = GateRecord(nodeId: nat, coordinates: Key, heading: int, segmentId: nat)

  /** An entry of the configuration's `parking_positions`. */
  datatype ParkingPosition = ParkingPosition(exitTaxiway: Option<string>)

  /** A node found on a line, with its distance from the line's first vertex. */
  datatype Stop = Stop(dist: nat, node: nat)

  /** The segments registered on node `id`: once for each end of each
      segment that is `id`, in creation order. */
  function Touching(segs: seq<Segment>, id: nat): seq<nat>
    decreases |segs|
  {
    if segs == [] then []
    else
      var s := segs[|segs| - 1];
      Touching(segs[..|segs| - 1], id) +
      (if s.startNode == id then [s.segmentId] else []) + (if s.endNode == id then [s.segmentId] else [])
  }

  /** The `k`-th node has id `k`. */
  ghost predicate NodeIds(nodes: seq<Node>)
  {
    forall k :: 0 <= k < |nodes| ==> nodes[k].nodeId == k
  }

  /** The `m`-th segment has id `m` and joins two of the first `n` nodes. */
  ghost predicate SegmentIds(segs: seq<Segment>, n: nat)
  {
    forall m :: 0 <= m < |segs| ==> segs[m].segmentId == m && segs[m].startNode < n && segs[m].endNode < n
  }

  /** Every node lists exactly the segments ending at it. */
  ghost predicate Wired(nodes: seq<Node>, segs: seq<Segment>)
  {
    forall k :: 0 <= k < |nodes| ==> nodes[k].connectedSegments == Touching(segs, k)
  }

  /** The invariant of the node and segment tables. */
  ghost predicate NetworkValid(nodes: seq<Node>, segs: seq<Segment>)
  {
    NodeIds(nodes) && SegmentIds(segs, |nodes|) && Wired(nodes, segs)
  }

  /** A node without its segment list. */
  function Unwired(nodes: seq<Node>): (r: seq<Node>)
    ensures |r| == |nodes|
  {
    seq(|nodes|, k requires 0 <= k < |nodes| => nodes[k].(connectedSegments := []))
  }

  /** The nodes agree on everything but their segment lists. */
  predicate SameNodes(a: seq<Node>, b: seq<Node>)
  {
    Unwired(a) == Unwired(b)
  }

  /** Appending segment `id` to the segment list of node `k`. */
  function Attach(nodes: seq<Node>, k: nat, id: nat): (r: seq<Node>)
    requires k < |nodes|
    ensures |r| == |nodes|
    ensures SameNodes(r, nodes)
  {
    var r := nodes[k := nodes[k].(connectedSegments := nodes[k].connectedSegments + [id])];
    assert forall j :: 0 <= j < |r| ==> Unwired(r)[j] == Unwired(nodes)[j];
    r
  }

  /** A new segment adds its id to the list of each end it has at `id`. */
  lemma TouchingAppend(segs: seq<Segment>, seg: Segment, id: nat)
    ensures Touching(segs + [seg], id) ==
            Touching(segs, id) + (if seg.startNode == id then [seg.segmentId] else []) +
            (if seg.endNode == id then [seg.segmentId] else [])
  {
    assert (segs + [seg])[..|segs|] == segs;
  }

  /** Registering a new segment on both its ends keeps every list exact:
      the segment is added to the lists of its two ends and to no other. */
  lemma WiredStep(nodes: seq<Node>, segs: seq<Segment>, seg: Segment, a: nat, b: nat)
    requires Wired(nodes, segs) && a < |nodes| && b < |nodes|
    requires seg.startNode == a && seg.endNode == b
    ensures Wired(Attach(Attach(nodes, a, seg.segmentId), b, seg.segmentId), segs + [seg])
  {
    var nodes' := Attach(Attach(nodes, a, seg.segmentId), b, seg.segmentId);
    forall k | 0 <= k < |nodes'|
      ensures nodes'[k].connectedSegments == Touching(segs + [seg], k)
    {
      TouchingAppend(segs, seg, k);
    }
  }

  /** Registering a new segment, numbered on, on both its ends keeps the
      table invariant. */
  lemma WireStep(nodes: seq<Node>, segs: seq<Segment>, seg: Segment, a: nat, b: nat)
    requires NetworkValid(nodes, segs) && a < |nodes| && b < |nodes|
    requires seg.segmentId == |segs| && seg.startNode == a && seg.endNode == b
    ensures NetworkValid(Attach(Attach(nodes, a, seg.segmentId), b, seg.segmentId), segs + [seg])
  {
    var nodes' := Attach(Attach(nodes, a, seg.segmentId), b, seg.segmentId);
    WiredStep(nodes, segs, seg, a, b);
    assert SameNodes(nodes', nodes);
    assert SegmentIds(segs + [seg], |nodes'|) by {
      forall m | 0 <= m < |segs| + 1
        ensures (segs + [seg])[m].segmentId == m && (segs + [seg])[m].startNode < |nodes| && (segs + [seg])[m].endNode < |nodes|
      {
        if m < |segs| {
          assert (segs + [seg])[m] == segs[m];
        }
      }
    }
  }

  /** The coordinates of the nodes, in node order (the keys of
      `unique_points`). */
  function Coords(nodes: seq<Node>): (r: seq<Key>)
    ensures |r| == |nodes|
  {
    seq(|nodes|, k requires 0 <= k < |nodes| => nodes[k].coordinates)
  }

  /** Segment lists do not move nodes. */
  lemma CoordsSame(a: seq<Node>, b: seq<Node>)
    requires SameNodes(a, b)
    ensures Coords(a) == Coords(b)
  {
    forall k | 0 <= k < |a|
      ensures Coords(a)[k] == Coords(b)[k]
    {
      assert Unwired(a)[k] == Unwired(b)[k];
    }
  }

  /** The nodes on a line, in node order, with their distances from the
      line's first vertex. */
  function StopsOn(geo: Geometry, keys: seq<Key>, coords: seq<Key>): (r: seq<Stop>)
    requires coords != []
    ensures StopsIn(r, |keys|)
    decreases |keys|
  {
    if keys == [] then []
    else
      var k := |keys| - 1;
      var pre := StopsOn(geo, keys[..k], coords);
      if geo.onLine(keys[k], coords) then pre + [Stop(geo.gap(keys[k], coords[0]), k)]
      else pre
  }

  /** Every stop refers to one of the first `n` nodes. */
  predicate StopsIn(stops: seq<Stop>, n: nat)
  {
    forall i :: 0 <= i < |stops| ==> stops[i].node < n
  }

  /** The stops are exactly the nodes on the line, each once, with their
      distances from the first vertex. */
  lemma {:induction false} StopsOnContents(geo: Geometry, keys: seq<Key>, coords: seq<Key>)
    requires coords != []
    ensures forall i :: 0 <= i < |StopsOn(geo, keys, coords)| ==>
              var st := StopsOn(geo, keys, coords)[i];
              geo.onLine(keys[st.node], coords) && st.dist == geo.gap(keys[st.node], coords[0])
    ensures forall i, j :: 0 <= i < j < |StopsOn(geo, keys, coords)| ==>
              StopsOn(geo, keys, coords)[i].node < StopsOn(geo, keys, coords)[j].node
    ensures forall k :: 0 <= k < |keys| && geo.onLine(keys[k], coords) ==>
              exists i :: 0 <= i < |StopsOn(geo, keys, coords)| && StopsOn(geo, keys, coords)[i].node == k
    decreases |keys|
  {
    if keys != [] {
      var k := |keys| - 1;
      var pre := keys[..k];
      StopsOnContents(geo, pre, coords);
      var ps := StopsOn(geo, pre, coords);
      var stops := StopsOn(geo, keys, coords);
      assert forall i :: 0 <= i < |ps| ==> stops[i] == ps[i];
      forall j | 0 <= j < |keys| && geo.onLine(keys[j], coords)
        ensures exists i :: 0 <= i < |stops| && stops[i].node == j
      {
        if j < k {
          assert pre[j] == keys[j];
          var i :| 0 <= i < |ps| && ps[i].node == j;
          assert stops[i].node == j;
        } else {
          assert stops[|stops| - 1].node == j;
        }
      }
    }
  }

  /** The loop of `_create_segments` over `points.items()`: the nodes in
      order, each checked against the line. */
  method StopsOnLine(geo: Geometry, nodes: seq<Node>, coords: seq<Key>) returns (stops: seq<Stop>)
    requires coords != []
    ensures stops == StopsOn(geo, Coords(nodes), coords)
  {
    ghost var keys := Coords(nodes);
    stops := [];
    for k := 0 to |nodes|
      invariant stops == StopsOn(geo, keys[..k], coords)
    {
      assert keys[..k + 1][..k] == keys[..k];
      var point := nodes[k].coordinates;
      if geo.onLine(point, coords) {
        stops := stops + [Stop(geo.gap(point, coords[0]), k)];
      }
    }
    assert keys[..|nodes|] == keys;
  }

  /** The order of `points_on_line.sort()`: by distance. */
  function StopBefore(a: Stop, b: Stop): bool
  {
    a.dist < b.dist
  }

  lemma StopOrder()
    ensures StrictWeakOrder(StopBefore)
  {
  }

  /** Sorting keeps the nodes the stops refer to. */
  lemma SortedStopsIn(stops: seq<Stop>, n: nat)
    requires StopsIn(stops, n)
    ensures StopsIn(Sort(stops, StopBefore), n)
  {
    var r := Sort(stops, StopBefore);
    forall i | 0 <= i < |r|
      ensures r[i].node < n
    {
      assert r[i] in multiset(r);
      var j :| 0 <= j < |stops| && stops[j] == r[i];
    }
  }

  /** The stops of a line, nearest to its first vertex first. */
  function SortedStops(geo: Geometry, keys: seq<Key>, coords: seq<Key>): (r: seq<Stop>)
    requires coords != []
    ensures StopsIn(r, |keys|)
  {
    SortedStopsIn(StopsOn(geo, keys, coords), |keys|);
    Sort(StopsOn(geo, keys, coords), StopBefore)
  }

  /** The segment `_create_segments` makes between stops `i` and `i + 1`:
      node number `k` (named `NodeId(k)`) lies at `keys[k]`, and the segment
      gets number `base + i`. */
  function SegmentFor(geo: Geometry, f: RawFeature, stops: seq<Stop>, keys: seq<Key>, base: nat, i: nat): Segment
    requires f.coords != [] && i + 1 < |stops| && StopsIn(stops, |keys|)
  {
    var a, b := stops[i].node, stops[i + 1].node;
    var geometry := ExtractGeometry(geo, f.coords, keys[a], keys[b]);
    Segment(base + i, a, b, geometry,
            if f.aeroway.Some? then f.aeroway.value else "unknown",
            if f.ref.Some? then f.ref.value else "",
            Metres(geo, geometry), Heading(geo, geometry))
  }

  /** The first `n` segments made along a line. */
  function LinePairs(geo: Geometry, f: RawFeature, stops: seq<Stop>, keys: seq<Key>, base: nat, n: nat): (r: seq<Segment>)
    requires f.coords != [] && n < |stops| && StopsIn(stops, |keys|)
    ensures |r| == n
    decreases n
  {
    if n == 0 then [] else LinePairs(geo, f, stops, keys, base, n - 1) + [SegmentFor(geo, f, stops, keys, base, n - 1)]
  }

  /** The `i`-th of the segments is the one between stops `i` and `i + 1`. */
  lemma {:induction false} LinePairsAt(geo: Geometry, f: RawFeature, stops: seq<Stop>, keys: seq<Key>, base: nat, n: nat, i: nat)
    requires f.coords != [] && n < |stops| && StopsIn(stops, |keys|) && i < n
    ensures LinePairs(geo, f, stops, keys, base, n)[i] == SegmentFor(geo, f, stops, keys, base, i)
    decreases n
  {
    if i < n - 1 {
      LinePairsAt(geo, f, stops, keys, base, n - 1, i);
    }
  }

  /** The segments of one line: one between each two consecutive nodes
      on it, in order of distance from the first vertex. */
  function LineSegments(geo: Geometry, f: RawFeature, keys: seq<Key>, base: nat): seq<Segment>
    requires f.coords != []
  {
    var stops := SortedStops(geo, keys, f.coords);
    if |stops| == 0 then [] else LinePairs(geo, f, stops, keys, base, |stops| - 1)
  }

  /** The segment between stops `i` and `i + 1` is numbered `base + i`,
      joins the two stops' nodes, runs over at least one vertex and carries
      the line's kind and name. */
  lemma SegmentForShape(geo: Geometry, f: RawFeature, stops: seq<Stop>, keys: seq<Key>, base: nat, i: nat)
    requires f.coords != [] && i + 1 < |stops| && StopsIn(stops, |keys|)
    ensures var seg := SegmentFor(geo, f, stops, keys, base, i);
            seg.segmentId == base + i &&
            seg.startNode == stops[i].node && seg.endNode == stops[i + 1].node &&
            seg.geometry != [] &&
            seg.segmentType == (if f.aeroway.Some? then f.aeroway.value else "unknown") &&
            seg.name == (if f.ref.Some? then f.ref.value else "")
  {
  }

  /** A line with `k` nodes on it yields `k - 1` segments (none for `k` = 0),
      numbered on from `base`; the `i`-th joins the `i`-th and `i + 1`-th
      nodes by distance from the first vertex, so that each segment starts
      where the one before it ends. */
  lemma LineSegmentsShape(geo: Geometry, f: RawFeature, keys: seq<Key>, base: nat)
    requires f.coords != []
    ensures var stops := SortedStops(geo, keys, f.coords);
            var segs := LineSegments(geo, f, keys, base);
            |segs| == (if |stops| == 0 then 0 else |stops| - 1) &&
            Sorted(stops, StopBefore) &&
            (forall i :: 0 <= i < |segs| ==>
              segs[i].segmentId == base + i &&
              segs[i].startNode == stops[i].node && segs[i].endNode == stops[i + 1].node &&
              segs[i].geometry != []) &&
            (forall i :: 0 <= i < |segs| - 1 ==> segs[i].endNode == segs[i + 1].startNode)
  {
    var stops := SortedStops(geo, keys, f.coords);
    var segs := LineSegments(geo, f, keys, base);
    StopOrder();
    SortSorted(StopsOn(geo, keys, f.coords), StopBefore);
    forall i | 0 <= i < |segs|
      ensures segs[i].segmentId == base + i &&
              segs[i].startNode == stops[i].node && segs[i].endNode == stops[i + 1].node &&
              segs[i].geometry != []
    {
      LinePairsAt(geo, f, stops, keys, base, |stops| - 1, i);
      SegmentForShape(geo, f, stops, keys, base, i);
    }
    forall i | 0 <= i < |segs| - 1
      ensures segs[i].endNode == segs[i + 1].startNode
    {
      LinePairsAt(geo, f, stops, keys, base, |stops| - 1, i);
      LinePairsAt(geo, f, stops, keys, base, |stops| - 1, i + 1);
      SegmentForShape(geo, f, stops, keys, base, i);
      SegmentForShape(geo, f, stops, keys, base, i + 1);
    }
  }

  /** The segments of all lines, line by line, numbered on from zero. */
  function NetworkSegments(geo: Geometry, lines: seq<RawFeature>, keys: seq<Key>): seq<Segment>
    requires HasVertices(lines)
    decreases |lines|
  {
    if lines == [] then []
    else
      var pre := NetworkSegments(geo, lines[..|lines| - 1], keys);
      pre + LineSegments(geo, lines[|lines| - 1], keys, |pre|)
  }

  /** The node table `_create_network` builds for the distinct keys. */
  function NodeTable(keys: seq<Key>): seq<Node>
  {
    seq(|keys|, k requires 0 <= k < |keys| => Node(k, keys[k], [], Intersection, None))
  }

  /** A segment registered on node `id` ends at it, and every segment
      ending at it is registered. */
  lemma {:induction false} TouchingContents(segs: seq<Segment>, id: nat)
    ensures forall s :: s in Touching(segs, id) <==> EndsAt(segs, id, s)
    decreases |segs|
  {
    if segs != [] {
      var pre := segs[..|segs| - 1];
      TouchingContents(pre, id);
      forall s | s in Touching(segs, id)
        ensures EndsAt(segs, id, s)
      {
        if s in Touching(pre, id) {
          var m :| 0 <= m < |pre| && pre[m].segmentId == s && (pre[m].startNode == id || pre[m].endNode == id);
          assert segs[m] == pre[m];
        } else {
          assert segs[|segs| - 1].segmentId == s;
        }
      }
      forall s | EndsAt(segs, id, s)
        ensures s in Touching(segs, id)
      {
        var m :| 0 <= m < |segs| && segs[m].segmentId == s && (segs[m].startNode == id || segs[m].endNode == id);
        if m < |pre| {
          assert pre[m] == segs[m];
          assert EndsAt(pre, id, s);
        }
      }
    }
  }

  /** Segment `s` ends at node `id`. */
  ghost predicate EndsAt(segs: seq<Segment>, id: nat, s: nat)
  {
    exists m :: 0 <= m < |segs| && segs[m].segmentId == s && (segs[m].startNode == id || segs[m].endNode == id)
  }

  /** Looking up a registered segment never misses (`self.segments[...]`),
      and what it finds ends at the node. */
  lemma SegmentLookup(nodes: seq<Node>, segs: seq<Segment>, k: nat, s: nat)
    requires NetworkValid(nodes, segs) && k < |nodes| && s in nodes[k].connectedSegments
    ensures s < |segs| && segs[s].segmentId == s
    ensures segs[s].startNode == k || segs[s].endNode == k
  {
    TouchingContents(segs, k);
  }

  /** The rendered node and segment ids are unique, and no node id is a
      segment id. */
  lemma IdsUnique(nodes: seq<Node>, segs: seq<Segment>)
    requires NetworkValid(nodes, segs)
    ensures forall i, j :: 0 <= i < j < |nodes| ==> NodeId(nodes[i].nodeId) != NodeId(nodes[j].nodeId)
    ensures forall i, j :: 0 <= i < j < |segs| ==> SegId(segs[i].segmentId) != SegId(segs[j].segmentId)
    ensures forall i, j :: 0 <= i < |nodes| && 0 <= j < |segs| ==> NodeId(nodes[i].nodeId) != SegId(segs[j].segmentId)
  {
    forall i, j | 0 <= i < j < |nodes|
      ensures NodeId(nodes[i].nodeId) != NodeId(nodes[j].nodeId)
    {
      NodeIdInjective(i, j);
    }
    forall i, j | 0 <= i < j < |segs|
      ensures SegId(segs[i].segmentId) != SegId(segs[j].segmentId)
    {
      SegIdInjective(i, j);
    }
    forall i, j | 0 <= i < |nodes| && 0 <= j < |segs|
      ensures NodeId(nodes[i].nodeId) != SegId(segs[j].segmentId)
    {
      IdInjective('N', i, 'S', j);
    }
  }

  /** The state of `_create_segments` after the first `i` segments of the
      line: the tables are valid, the nodes unchanged but for their lists,
      and the segments are those of the first `i` pairs of stops. */
  ghost predicate SegmentsSoFar(geo: Geometry, f: RawFeature, stops: seq<Stop>, keys: seq<Key>, segs0: seq<Segment>,
                                nodes: seq<Node>, segs: seq<Segment>, i: nat)
  {
    f.coords != [] && i < |stops| && StopsIn(stops, |keys|) &&
    NetworkValid(nodes, segs) && Coords(nodes) == keys &&
    segs == segs0 + LinePairs(geo, f, stops, keys, |segs0|, i)
  }

  /** One more segment keeps the state of `_create_segments`. */
  lemma SegmentsStep(geo: Geometry, f: RawFeature, stops: seq<Stop>, keys: seq<Key>, segs0: seq<Segment>,
                     nodes: seq<Node>, segs: seq<Segment>, i: nat)
    requires SegmentsSoFar(geo, f, stops, keys, segs0, nodes, segs, i) && i + 1 < |stops|
    ensures var seg := SegmentFor(geo, f, stops, keys, |segs0|, i);
            SegmentsSoFar(geo, f, stops, keys, segs0,
                          Attach(Attach(nodes, stops[i].node, seg.segmentId), stops[i + 1].node, seg.segmentId),
                          segs + [seg], i + 1)
  {
    var seg := SegmentFor(geo, f, stops, keys, |segs0|, i);
    var a, b := stops[i].node, stops[i + 1].node;
    var nodes' := Attach(Attach(nodes, a, seg.segmentId), b, seg.segmentId);
    assert |nodes| == |keys| && a < |keys| && b < |keys|;
    assert |segs| == |segs0| + i;
    SegmentForShape(geo, f, stops, keys, |segs0|, i);
    WireStep(nodes, segs, seg, a, b);
    CoordsSame(nodes', nodes);
    SnocAssoc(segs0, LinePairs(geo, f, stops, keys, |segs0|, i), seg);
  }

  /** A segment with the fields of the one between stops `i` and `i + 1`
      is that segment. */
  lemma SegmentForIs(geo: Geometry, f: RawFeature, stops: seq<Stop>, keys: seq<Key>, base: nat, i: nat, seg: Segment)
    requires f.coords != [] && i + 1 < |stops| && StopsIn(stops, |keys|)
    requires seg.segmentId == base + i && seg.startNode == stops[i].node && seg.endNode == stops[i + 1].node
    requires seg.geometry == ExtractGeometry(geo, f.coords, keys[stops[i].node], keys[stops[i + 1].node])
    requires seg.segmentType == (if f.aeroway.Some? then f.aeroway.value else "unknown")
    requires seg.name == (if f.ref.Some? then f.ref.value else "")
    requires seg.length == Metres(geo, seg.geometry) && seg.heading == Heading(geo, seg.geometry)
    ensures seg == SegmentFor(geo, f, stops, keys, base, i)
  {
  }

  /** The loop of `_create_segments` over the sorted stops: a segment
      between each two consecutive stops, numbered on from the table's size
      and appended to both ends' lists. */
  method LinkStops(geo: Geometry, f: RawFeature, stops: seq<Stop>, ghost keys: seq<Key>,
                   nodes0: seq<Node>, segs0: seq<Segment>) returns (nodes: seq<Node>, segs: seq<Segment>)
    requires f.coords != [] && stops != [] && StopsIn(stops, |keys|)
    requires NetworkValid(nodes0, segs0) && Coords(nodes0) == keys
    ensures SegmentsSoFar(geo, f, stops, keys, segs0, nodes, segs, |stops| - 1)
    ensures SameNodes(nodes, nodes0)
  {
    nodes, segs := nodes0, segs0;
    assert segs == segs0 + [];
    for i := 0 to |stops| - 1
      invariant SegmentsSoFar(geo, f, stops, keys, segs0, nodes, segs, i)
      invariant SameNodes(nodes, nodes0)
    {
      var a, b := stops[i].node, stops[i + 1].node;
      StopNode(nodes, segs, keys, a);
      StopNode(nodes, segs, keys, b);
      var startNode, endNode := nodes[a], nodes[b];
      var segmentId: nat := |segs|;
      var geometry := ExtractGeometry(geo, f.coords, startNode.coordinates, endNode.coordinates);
      var length := CalculateLength(geo, geometry);
      var segment := Segment(segmentId, startNode.nodeId, endNode.nodeId, geometry,
                             if f.aeroway.Some? then f.aeroway.value else "unknown",
                             if f.ref.Some? then f.ref.value else "",
                             length, Heading(geo, geometry));
      LinkStep(geo, f, stops, keys, segs0, nodes, segs, i, segmentId, segment);
      segs := segs + [segment];
      nodes := Attach(nodes, a, segmentId);
      nodes := Attach(nodes, b, segmentId);
    }
  }

  /** One turn of the loop of `_create_segments`: the segment built from
      the two stops' nodes is the next one of the line, and registering it
      keeps the state. */
  lemma LinkStep(geo: Geometry, f: RawFeature, stops: seq<Stop>, keys: seq<Key>, segs0: seq<Segment>,
                 nodes: seq<Node>, segs: seq<Segment>, i: nat, id: nat, seg: Segment)
    requires SegmentsSoFar(geo, f, stops, keys, segs0, nodes, segs, i) && i + 1 < |stops|
    requires id == |segs| && seg.segmentId == id && seg.startNode == stops[i].node && seg.endNode == stops[i + 1].node
    requires seg.geometry == ExtractGeometry(geo, f.coords, keys[stops[i].node], keys[stops[i + 1].node])
    requires seg.segmentType == (if f.aeroway.Some? then f.aeroway.value else "unknown")
    requires seg.name == (if f.ref.Some? then f.ref.value else "")
    requires seg.length == Metres(geo, seg.geometry) && seg.heading == Heading(geo, seg.geometry)
    ensures SegmentsSoFar(geo, f, stops, keys, segs0,
                          Attach(Attach(nodes, stops[i].node, id), stops[i + 1].node, id),
                          segs + [seg], i + 1)
    ensures SameNodes(Attach(Attach(nodes, stops[i].node, id), stops[i + 1].node, id), nodes)
  {
    assert |segs| == |segs0| + i;
    SegmentForIs(geo, f, stops, keys, |segs0|, i, seg);
    SegmentsStep(geo, f, stops, keys, segs0, nodes, segs, i);
  }

  /** Node `k` sits at the `k`-th key and carries id `k`. */
  lemma StopNode(nodes: seq<Node>, segs: seq<Segment>, keys: seq<Key>, k: nat)
    requires NetworkValid(nodes, segs) && Coords(nodes) == keys && k < |keys|
    ensures k < |nodes| && nodes[k].coordinates == keys[k] && nodes[k].nodeId == k
  {
  }

  /** The state after the last pair of stops is the whole line's. */
  lemma SegmentsDone(geo: Geometry, f: RawFeature, stops: seq<Stop>, keys: seq<Key>, segs0: seq<Segment>,
                     nodes: seq<Node>, segs: seq<Segment>)
    requires stops != [] && SegmentsSoFar(geo, f, stops, keys, segs0, nodes, segs, |stops| - 1)
    requires stops == SortedStops(geo, keys, f.coords)
    ensures segs == segs0 + LineSegments(geo, f, keys, |segs0|)
  {
  }

  /** Appending after a concatenation. */
  lemma SnocAssoc<T>(a: seq<T>, b: seq<T>, x: T)
    ensures (a + b) + [x] == a + (b + [x])
  {
  }

  // ---------------------------------------------------------------------
  // The node table after `_create_network`

  /** The node table with every node's segment list filled in from `segs`. */
  function WiredTable(keys: seq<Key>, segs: seq<Segment>): (r: seq<Node>)
    ensures |r| == |keys|
  {
    seq(|keys|, k requires 0 <= k < |keys| => Node(k, keys[k], Touching(segs, k), Intersection, None))
  }

  /** A fresh node table is valid with no segments. */
  lemma NodeTableValid(keys: seq<Key>)
    ensures NetworkValid(NodeTable(keys), []) && Coords(NodeTable(keys)) == keys
  {
  }

  /** A valid table over the fresh nodes of `keys` is the wired table. */
  lemma WiredTableIs(keys: seq<Key>, nodes: seq<Node>, segs: seq<Segment>)
    requires NetworkValid(nodes, segs) && SameNodes(nodes, NodeTable(keys))
    ensures nodes == WiredTable(keys, segs)
  {
    forall k | 0 <= k < |nodes|
      ensures nodes[k] == WiredTable(keys, segs)[k]
    {
      assert Unwired(nodes)[k] == Unwired(NodeTable(keys))[k];
    }
  }

  // ---------------------------------------------------------------------
  // `_identify_special_nodes`

  /** Every segment joins two of the first `n` nodes. */
  predicate EndsBelow(segs: seq<Segment>, n: nat)
  {
    forall m :: 0 <= m < |segs| ==> segs[m].startNode < n && segs[m].endNode < n
  }

  /** Setting the type of node `k` to `t`; when `onlyFresh`, only a node
      still typed intersection changes. */
  function Retype(nodes: seq<Node>, k: nat, t: NodeType, onlyFresh: bool): (r: seq<Node>)
    requires k < |nodes|
    ensures |r| == |nodes|
  {
    if !onlyFresh || nodes[k].nodeType == Intersection then nodes[k := nodes[k].(nodeType := t)] else nodes
  }

  /** A segment pass: both ends of each segment named in `names` are
      retyped, segment by segment in creation order. */
  function MarkEnds(nodes: seq<Node>, segs: seq<Segment>, names: set<string>, t: NodeType, onlyFresh: bool): (r: seq<Node>)
    requires EndsBelow(segs, |nodes|)
    ensures |r| == |nodes|
    decreases |segs|
  {
    if segs == [] then nodes
    else
      var seg := segs[|segs| - 1];
      var pre := MarkEnds(nodes, segs[..|segs| - 1], names, t, onlyFresh);
      if seg.name in names then Retype(Retype(pre, seg.startNode, t, onlyFresh), seg.endNode, t, onlyFresh) else pre
  }

  /** Some segment named in `names` ends at node `k`. */
  ghost predicate Marked(segs: seq<Segment>, names: set<string>, k: nat)
  {
    exists m :: 0 <= m < |segs| && segs[m].name in names && (segs[m].startNode == k || segs[m].endNode == k)
  }

  /** After a segment pass, a node at an end of a named segment has type
      `t` if the pass may retype it (always, or only from intersection);
      every other node keeps its type, and nothing but types changes. */
  lemma {:induction false} MarkEndsAt(nodes: seq<Node>, segs: seq<Segment>, names: set<string>, t: NodeType,
                                      onlyFresh: bool, k: nat)
    requires EndsBelow(segs, |nodes|) && k < |nodes|
    ensures MarkEnds(nodes, segs, names, t, onlyFresh)[k] ==
            nodes[k].(nodeType := if Marked(segs, names, k) && (!onlyFresh || nodes[k].nodeType == Intersection)
                                  then t else nodes[k].nodeType)
    decreases |segs|
  {
    if segs != [] {
      var pre := segs[..|segs| - 1];
      var seg := segs[|segs| - 1];
      MarkEndsAt(nodes, pre, names, t, onlyFresh, k);
      MarkedSnoc(pre, seg, names, k);
      assert segs == pre + [seg];
    }
  }

  /** A node is marked by a longer list exactly when it is marked by the
      shorter one or by the new segment. */
  lemma MarkedSnoc(segs: seq<Segment>, seg: Segment, names: set<string>, k: nat)
    ensures Marked(segs + [seg], names, k) <==>
            Marked(segs, names, k) || (seg.name in names && (seg.startNode == k || seg.endNode == k))
  {
    var all := segs + [seg];
    if Marked(segs, names, k) {
      var m :| 0 <= m < |segs| && segs[m].name in names && (segs[m].startNode == k || segs[m].endNode == k);
      assert all[m] == segs[m];
    }
    if seg.name in names && (seg.startNode == k || seg.endNode == k) {
      assert all[|segs|] == seg;
    }
    if Marked(all, names, k) {
      var m :| 0 <= m < |all| && all[m].name in names && (all[m].startNode == k || all[m].endNode == k);
      if m < |segs| {
        assert segs[m] == all[m];
      }
    }
  }

  /** The exit taxiways the parking positions name; a missing or empty
      name (`if exit_taxiway`) is skipped. */
  function ParkingExitNames(ps: seq<ParkingPosition>): set<string>
  {
    set i | 0 <= i < |ps| && ps[i].exitTaxiway.Some? && ps[i].exitTaxiway.value != "" :: ps[i].exitTaxiway.value
  }

  /** A node is a gate: it has exactly one segment, and that segment is a
      parking position. */
  predicate IsGate(node: Node, segs: seq<Segment>)
  {
    |node.connectedSegments| == 1 && node.connectedSegments[0] < |segs| &&
    segs[node.connectedSegments[0]].segmentType == "parking_position"
  }

  /** The name of a gate node's segment: the gate's id. */
  function GateName(node: Node, segs: seq<Segment>): string
    requires IsGate(node, segs)
  {
    segs[node.connectedSegments[0]].name
  }

  /** The gate node: typed gate, with the segment's name, heading and id
      as its `gate_info`. */
  function AsGate(node: Node, segs: seq<Segment>): Node
    requires IsGate(node, segs)
  {
    var seg := segs[node.connectedSegments[0]];
    node.(nodeType := Gate, gateInfo := Some(GateInfo(seg.name, seg.heading, seg.segmentId)))
  }

  /** The entry `gates` records for a gate node. */
  function GateRecordOf(node: Node, segs: seq<Segment>): GateRecord
    requires IsGate(node, segs)
  {
    var seg := segs[node.connectedSegments[0]];
    GateRecord(node.nodeId, node.coordinates, seg.heading, seg.segmentId)
  }

  /** The gate pass over the nodes. */
  function GateNodes(nodes: seq<Node>, segs: seq<Segment>): (r: seq<Node>)
    ensures |r| == |nodes|
  {
    seq(|nodes|, k requires 0 <= k < |nodes| => if IsGate(nodes[k], segs) then AsGate(nodes[k], segs) else nodes[k])
  }

  /** The gate table after the gate pass: `g0` with one entry per gate
      node, keyed by its name, set node by node in table order. */
  function GatesOf(g0: map<string, GateRecord>, nodes: seq<Node>, segs: seq<Segment>): map<string, GateRecord>
    decreases |nodes|
  {
    if nodes == [] then g0
    else
      var g := GatesOf(g0, nodes[..|nodes| - 1], segs);
      var node := nodes[|nodes| - 1];
      if IsGate(node, segs) then g[GateName(node, segs) := GateRecordOf(node, segs)] else g
  }

  /** The gate table holds the names it held and the name of every gate
      node, and nothing else. */
  lemma {:induction false} GatesOfKeys(g0: map<string, GateRecord>, nodes: seq<Node>, segs: seq<Segment>, name: string)
    ensures name in GatesOf(g0, nodes, segs) <==>
            name in g0 || exists k :: 0 <= k < |nodes| && IsGate(nodes[k], segs) && GateName(nodes[k], segs) == name
    decreases |nodes|
  {
    if nodes != [] {
      var pre := nodes[..|nodes| - 1];
      GatesOfKeys(g0, pre, segs, name);
      if exists k :: 0 <= k < |pre| && IsGate(pre[k], segs) && GateName(pre[k], segs) == name {
        var k :| 0 <= k < |pre| && IsGate(pre[k], segs) && GateName(pre[k], segs) == name;
        assert nodes[k] == pre[k];
      }
      if exists k :: 0 <= k < |nodes| && IsGate(nodes[k], segs) && GateName(nodes[k], segs) == name {
        var k :| 0 <= k < |nodes| && IsGate(nodes[k], segs) && GateName(nodes[k], segs) == name;
        if k < |pre| {
          assert pre[k] == nodes[k];
        }
      }
    }
  }

  /** Gates sharing a name overwrite each other: the entry for a name is
      the record of the last gate node that carries it. */
  lemma {:induction false} GatesOfLast(g0: map<string, GateRecord>, nodes: seq<Node>, segs: seq<Segment>, k: nat)
    requires k < |nodes| && IsGate(nodes[k], segs)
    requires forall j :: k < j < |nodes| && IsGate(nodes[j], segs) ==> GateName(nodes[j], segs) != GateName(nodes[k], segs)
    ensures GateName(nodes[k], segs) in GatesOf(g0, nodes, segs)
    ensures GatesOf(g0, nodes, segs)[GateName(nodes[k], segs)] == GateRecordOf(nodes[k], segs)
    decreases |nodes|
  {
    var pre := nodes[..|nodes| - 1];
    if k < |pre| {
      assert pre[k] == nodes[k];
      forall j | k < j < |pre| && IsGate(pre[j], segs)
        ensures GateName(pre[j], segs) != GateName(pre[k], segs)
      {
        assert pre[j] == nodes[j];
      }
      GatesOfLast(g0, pre, segs, k);
    }
  }

  /** The three passes of `_identify_special_nodes`: runway exits, then
      parking exits, then gates. */
  function Classified(nodes: seq<Node>, segs: seq<Segment>, runwayPoints: set<string>, parkingExits: set<string>): (r: seq<Node>)
    requires EndsBelow(segs, |nodes|)
    ensures |r| == |nodes|
  {
    var runway := MarkEnds(nodes, segs, runwayPoints, RunwayExit, false);
    GateNodes(MarkEnds(runway, segs, parkingExits, ParkingExit, true), segs)
  }

  /** The role each node ends up with: gate before runway exit before
      parking exit, a parking exit only where the node was an intersection;
      only gates get `gate_info`, and nothing else about a node changes. */
  lemma ClassifiedAt(nodes: seq<Node>, segs: seq<Segment>, runwayPoints: set<string>, parkingExits: set<string>, k: nat)
    requires EndsBelow(segs, |nodes|) && k < |nodes|
    ensures Classified(nodes, segs, runwayPoints, parkingExits)[k].nodeType ==
            if IsGate(nodes[k], segs) then Gate
            else if Marked(segs, runwayPoints, k) then RunwayExit
            else if Marked(segs, parkingExits, k) && nodes[k].nodeType == Intersection then ParkingExit
            else nodes[k].nodeType
    ensures Classified(nodes, segs, runwayPoints, parkingExits)[k].gateInfo ==
            if IsGate(nodes[k], segs) then AsGate(nodes[k], segs).gateInfo else nodes[k].gateInfo
    ensures var n := Classified(nodes, segs, runwayPoints, parkingExits)[k];
            n.nodeId == nodes[k].nodeId && n.coordinates == nodes[k].coordinates &&
            n.connectedSegments == nodes[k].connectedSegments
  {
    var runway := MarkEnds(nodes, segs, runwayPoints, RunwayExit, false);
    MarkEndsAt(nodes, segs, runwayPoints, RunwayExit, false, k);
    MarkEndsAt(runway, segs, parkingExits, ParkingExit, true, k);
  }

  /** Retyping keeps a table valid. */
  lemma MarkEndsValid(nodes: seq<Node>, segs: seq<Segment>, names: set<string>, t: NodeType, onlyFresh: bool)
    requires NetworkValid(nodes, segs)
    ensures EndsBelow(segs, |nodes|)
    ensures NetworkValid(MarkEnds(nodes, segs, names, t, onlyFresh), segs)
  {
    forall k | 0 <= k < |nodes|
      ensures MarkEnds(nodes, segs, names, t, onlyFresh)[k].nodeId == k
      ensures MarkEnds(nodes, segs, names, t, onlyFresh)[k].connectedSegments == Touching(segs, k)
    {
      MarkEndsAt(nodes, segs, names, t, onlyFresh, k);
    }
  }

  /** The gate table does not depend on node types. */
  lemma {:induction false} GatesOfRetyped(g0: map<string, GateRecord>, a: seq<Node>, b: seq<Node>, segs: seq<Segment>)
    requires |a| == |b| && forall k :: 0 <= k < |a| ==> a[k] == b[k].(nodeType := a[k].nodeType)
    ensures GatesOf(g0, a, segs) == GatesOf(g0, b, segs)
    decreases |a|
  {
    if a != [] {
      GatesOfRetyped(g0, a[..|a| - 1], b[..|b| - 1], segs);
    }
  }

  /** The gate pass keeps a table valid. */
  lemma GateNodesValid(nodes: seq<Node>, segs: seq<Segment>)
    requires NetworkValid(nodes, segs)
    ensures NetworkValid(GateNodes(nodes, segs), segs)
  {
  }

  /** The runway-exit pass. */
  method MarkRunwayExits(nodes0: seq<Node>, segs: seq<Segment>, runwayPoints: set<string>) returns (nodes: seq<Node>)
    requires EndsBelow(segs, |nodes0|)
    ensures nodes == MarkEnds(nodes0, segs, runwayPoints, RunwayExit, false)
  {
    nodes := nodes0;
    for m := 0 to |segs|
      invariant nodes == MarkEnds(nodes0, segs[..m], runwayPoints, RunwayExit, false)
    {
      assert segs[..m + 1][..m] == segs[..m];
      var segment := segs[m];
      if segment.name in runwayPoints {
        nodes := nodes[segment.startNode := nodes[segment.startNode].(nodeType := RunwayExit)];
        nodes := nodes[segment.endNode := nodes[segment.endNode].(nodeType := RunwayExit)];
      }
    }
    assert segs[..|segs|] == segs;
  }

  /** The loop of `_identify_special_nodes` that gathers the parking exit
      taxiways. */
  method CollectParkingExits(ps: seq<ParkingPosition>) returns (exits: set<string>)
    ensures exits == ParkingExitNames(ps)
  {
    exits := {};
    for i := 0 to |ps|
      invariant exits == ParkingExitNames(ps[..i])
    {
      assert ps[..i + 1][..i] == ps[..i];
      var exitTaxiway := ps[i].exitTaxiway;
      if exitTaxiway.Some? && exitTaxiway.value != "" {
        exits := exits + {exitTaxiway.value};
      }
    }
    assert ps[..|ps|] == ps;
  }

  /** The parking-exit pass: only nodes still typed intersection change. */
  method MarkParkingExits(nodes0: seq<Node>, segs: seq<Segment>, parkingExits: set<string>) returns (nodes: seq<Node>)
    requires EndsBelow(segs, |nodes0|)
    ensures nodes == MarkEnds(nodes0, segs, parkingExits, ParkingExit, true)
  {
    nodes := nodes0;
    for m := 0 to |segs|
      invariant nodes == MarkEnds(nodes0, segs[..m], parkingExits, ParkingExit, true)
    {
      assert segs[..m + 1][..m] == segs[..m];
      var segment := segs[m];
      if segment.name in parkingExits {
        if nodes[segment.startNode].nodeType == Intersection {
          nodes := nodes[segment.startNode := nodes[segment.startNode].(nodeType := ParkingExit)];
        }
        if nodes[segment.endNode].nodeType == Intersection {
          nodes := nodes[segment.endNode := nodes[segment.endNode].(nodeType := ParkingExit)];
        }
      }
    }
    assert segs[..|segs|] == segs;
  }

  /** The gate pass: every node of degree one on a parking position
      becomes a gate and is entered in the gate table under its name. */
  method MarkGates(nodes0: seq<Node>, segs: seq<Segment>, gates0: map<string, GateRecord>)
    returns (nodes: seq<Node>, gates: map<string, GateRecord>)
    requires NetworkValid(nodes0, segs)
    ensures nodes == GateNodes(nodes0, segs)
    ensures gates == GatesOf(gates0, nodes0, segs)
  {
    nodes, gates := nodes0, gates0;
    for k := 0 to |nodes0|
      invariant |nodes| == |nodes0|
      invariant forall j :: 0 <= j < k ==> nodes[j] == GateNodes(nodes0, segs)[j]
      invariant forall j :: k <= j < |nodes| ==> nodes[j] == nodes0[j]
      invariant gates == GatesOf(gates0, nodes0[..k], segs)
    {
      assert nodes0[..k + 1][..k] == nodes0[..k];
      var node := nodes[k];
      if |node.connectedSegments| == 1 {
        SegmentLookup(nodes0, segs, k, node.connectedSegments[0]);
        var segment := segs[node.connectedSegments[0]];
        if segment.segmentType == "parking_position" {
          nodes := nodes[k := node.(nodeType := Gate, gateInfo := Some(GateInfo(segment.name, segment.heading, segment.segmentId)))];
          gates := gates[segment.name := GateRecord(node.nodeId, node.coordinates, segment.heading, segment.segmentId)];
        }
      }
      assert nodes[k] == GateNodes(nodes0, segs)[k];
    }
    assert nodes0[..|nodes0|] == nodes0;
  }

  // ---------------------------------------------------------------------
  // `export_config`: the gates grouped by terminal

  /** An exported gate: its id followed by its gate-table entry. */
  datatype GateEntry = GateEntry(gateId: string, nodeId: nat, coordinates: Key, heading: int, segmentId: nat)

  /** A runway configuration: the departure and arrival runways, the
      taxiways that enter and leave the runway, and the alternates. */
  datatype RunwayConfig = RunwayConfig(departure: string, arrival: string,
                                       entrances: seq<string>, exits: seq<string>,
                                       alternateDeparture: string, alternateArrival: string)

  /** The exported configuration of the airport. */
  datatype AirportConfig = AirportConfig(airportCode: string, name: string,
                                         terminals: map<string, seq<GateEntry>>, totalCount: nat,
                                         parkingPositions: seq<ParkingPosition>,
                                         runwayConfigurations: map<string, RunwayConfig>)

  /** The two runway configurations of Paris-Orly. */
  const OrlyRunwayConfigs: map<string, RunwayConfig> := map[
    "WEST" := RunwayConfig("24", "25", ["W41", "W42"], ["W34", "W35", "W4", "W36", "W37"], "06", "07"),
    "EAST" := RunwayConfig("07", "06", ["W37", "W36"], ["W44", "W43", "W42", "W41"], "24", "25")]

  /** `{"gate_id": gate_id, **gate_info}`. */
  function EntryFor(gateId: string, g: GateRecord): GateEntry
  {
    GateEntry(gateId, g.nodeId, g.coordinates, g.heading, g.segmentId)
  }

  /** The order of `sorted(gates, key=lambda x: x["gate_id"])`. */
  predicate GateBefore(a: GateEntry, b: GateEntry)
  {
    StrLess(a.gateId, b.gateId)
  }

  lemma GateOrder()
    ensures StrictWeakOrder(GateBefore)
  {
    forall a: GateEntry
      ensures !GateBefore(a, a)
    {
      StrLessIrreflexive(a.gateId);
    }
    forall a: GateEntry, b: GateEntry, c: GateEntry | GateBefore(a, b) && GateBefore(b, c)
      ensures GateBefore(a, c)
    {
      StrLessTransitive(a.gateId, b.gateId, c.gateId);
    }
    forall a: GateEntry, b: GateEntry, c: GateEntry | !GateBefore(a, b) && !GateBefore(b, c)
      ensures !GateBefore(a, c)
    {
      StrNotLessTransitive(a.gateId, b.gateId, c.gateId);
    }
  }

  /** "Not less" is transitive on strings. */
  lemma StrNotLessTransitive(a: string, b: string, c: string)
    requires !StrLess(a, b) && !StrLess(b, c)
    ensures !StrLess(a, c)
  {
    if a != b {
      StrLessTotal(a, b);
    }
    if b != c {
      StrLessTotal(b, c);
    }
    if StrLess(a, c) {
      if a != b && b != c {
        StrLessTransitive(c, b, a);
      }
      StrLessAsymmetric(a, c);
    }
  }

  /** No element occurs twice. */
  ghost predicate Distinct(s: seq<GateEntry>)
  {
    forall x :: multiset(s)[x] <= 1
  }

  /** The gates, by strictly increasing id. */
  predicate Increasing(s: seq<GateEntry>)
  {
    forall i, j :: 0 <= i < j < |s| ==> StrLess(s[i].gateId, s[j].gateId)
  }

  /** Entries of a list without repetitions, each determined by its id,
      sort into strictly increasing ids and stay the same entries. */
  lemma SortIncreasing(s: seq<GateEntry>, gates: map<string, GateRecord>)
    requires Distinct(s)
    requires forall e :: e in s ==> e.gateId in gates && e == EntryFor(e.gateId, gates[e.gateId])
    ensures Increasing(Sort(s, GateBefore))
    ensures forall e :: e in Sort(s, GateBefore) <==> e in s
    ensures |Sort(s, GateBefore)| == |s|
  {
    var r := Sort(s, GateBefore);
    GateOrder();
    SortSorted(s, GateBefore);
    assert forall e :: e in r <==> e in multiset(r);
    forall i, j | 0 <= i < j < |r|
      ensures StrLess(r[i].gateId, r[j].gateId)
    {
      assert r[i] in multiset(s) && r[j] in multiset(s);
      if r[i].gateId == r[j].gateId {
        assert r[i] == r[j];
        TwiceInMultiset(r, i, j);
      } else {
        StrLessTotal(r[i].gateId, r[j].gateId);
      }
    }
  }

  /** An element at two positions occurs twice. */
  lemma TwiceInMultiset<T>(s: seq<T>, i: nat, j: nat)
    requires i < j < |s| && s[i] == s[j]
    ensures multiset(s)[s[i]] >= 2
  {
    assert s == s[..j] + s[j..];
    assert s[i] in s[..j];
    assert s[j] in s[j..];
  }

  /** The grouping after filing every gate but those in `rest`: each filed
      gate under its terminal, once, and nothing else. */
  ghost predicate Filed(gates: map<string, GateRecord>, rest: set<string>, grouped: map<string, seq<GateEntry>>)
  {
    rest <= gates.Keys && FiledAll(gates, rest, grouped) && FiledOnly(gates, rest, grouped) && FiledOnce(grouped)
  }

  /** Every filed gate is under its terminal. */
  ghost predicate FiledAll(gates: map<string, GateRecord>, rest: set<string>, grouped: map<string, seq<GateEntry>>)
  {
    forall gateId :: gateId in gates && gateId !in rest ==>
      StripDigits(gateId) in grouped && EntryFor(gateId, gates[gateId]) in grouped[StripDigits(gateId)]
  }

  /** Only filed gates are grouped, each under its terminal. */
  ghost predicate FiledOnly(gates: map<string, GateRecord>, rest: set<string>, grouped: map<string, seq<GateEntry>>)
  {
    forall t, e :: t in grouped && e in grouped[t] ==>
      e.gateId in gates && e.gateId !in rest && StripDigits(e.gateId) == t && e == EntryFor(e.gateId, gates[e.gateId])
  }

  /** No terminal is empty and none lists a gate twice. */
  ghost predicate FiledOnce(grouped: map<string, seq<GateEntry>>)
  {
    forall t :: t in grouped ==> grouped[t] != [] && Distinct(grouped[t])
  }

  /** The grouping after filing one more gate. */
  function FileGate(gates: map<string, GateRecord>, grouped: map<string, seq<GateEntry>>, gateId: string): map<string, seq<GateEntry>>
    requires gateId in gates
  {
    var t := StripDigits(gateId);
    grouped[t := (if t in grouped then grouped[t] else []) + [EntryFor(gateId, gates[gateId])]]
  }

  /** Filing one more gate keeps the grouping. */
  lemma FileStep(gates: map<string, GateRecord>, rest: set<string>, grouped: map<string, seq<GateEntry>>, gateId: string)
    requires Filed(gates, rest, grouped) && gateId in rest
    ensures Filed(gates, rest - {gateId}, FileGate(gates, grouped, gateId))
  {
    FileStepAll(gates, rest, grouped, gateId);
    FileStepOnly(gates, rest, grouped, gateId);
    FileStepOnce(gates, rest, grouped, gateId);
  }

  lemma FileStepAll(gates: map<string, GateRecord>, rest: set<string>, grouped: map<string, seq<GateEntry>>, gateId: string)
    requires FiledAll(gates, rest, grouped) && gateId in rest && rest <= gates.Keys
    ensures FiledAll(gates, rest - {gateId}, FileGate(gates, grouped, gateId))
  {
    var grouped' := FileGate(gates, grouped, gateId);
    forall id | id in gates && id !in rest - {gateId}
      ensures StripDigits(id) in grouped' && EntryFor(id, gates[id]) in grouped'[StripDigits(id)]
    {
      if id != gateId {
        assert StripDigits(id) in grouped && EntryFor(id, gates[id]) in grouped[StripDigits(id)];
      }
    }
  }

  lemma FileStepOnly(gates: map<string, GateRecord>, rest: set<string>, grouped: map<string, seq<GateEntry>>, gateId: string)
    requires FiledOnly(gates, rest, grouped) && gateId in rest && rest <= gates.Keys
    ensures FiledOnly(gates, rest - {gateId}, FileGate(gates, grouped, gateId))
  {
    var t := StripDigits(gateId);
    var grouped' := FileGate(gates, grouped, gateId);
    forall u, e: GateEntry | u in grouped' && e in grouped'[u]
      ensures e.gateId in gates && e.gateId !in rest - {gateId} && StripDigits(e.gateId) == u && e == EntryFor(e.gateId, gates[e.gateId])
    {
      if e != EntryFor(gateId, gates[gateId]) || u != t {
        assert e in grouped[u];
      }
    }
  }

  lemma FileStepOnce(gates: map<string, GateRecord>, rest: set<string>, grouped: map<string, seq<GateEntry>>, gateId: string)
    requires FiledOnly(gates, rest, grouped) && FiledOnce(grouped) && gateId in rest && rest <= gates.Keys
    ensures FiledOnce(FileGate(gates, grouped, gateId))
  {
    var t := StripDigits(gateId);
    var entry := EntryFor(gateId, gates[gateId]);
    var group := if t in grouped then grouped[t] else [];
    assert entry !in group;
    assert multiset(group + [entry]) == multiset(group) + multiset{entry};
    assert Distinct(group + [entry]);
  }

  /** `terminals` files the gates of `gates` as `export_config` does:
      each gate under its id with the digits removed, no terminal empty,
      each sorted by strictly increasing id, and nothing else. */
  ghost predicate GroupedByTerminal(gates: map<string, GateRecord>, terminals: map<string, seq<GateEntry>>)
  {
    (forall gateId :: gateId in gates ==>
       StripDigits(gateId) in terminals && EntryFor(gateId, gates[gateId]) in terminals[StripDigits(gateId)]) &&
    (forall t :: t in terminals ==> terminals[t] != [] && Increasing(terminals[t])) &&
    (forall t, e :: t in terminals && e in terminals[t] ==>
       e.gateId in gates && StripDigits(e.gateId) == t && e == EntryFor(e.gateId, gates[e.gateId]))
  }

  /** The terminal grouping of `export_config`: each gate is filed under
      its id with the digits removed, and each terminal's gates are sorted
      by id. The gate table is a dictionary: the loop takes its ids in any
      order, and the sorted result does not depend on it. */
  method GroupTerminals(gates: map<string, GateRecord>) returns (terminals: map<string, seq<GateEntry>>)
    ensures forall gateId :: gateId in gates ==>
              StripDigits(gateId) in terminals && EntryFor(gateId, gates[gateId]) in terminals[StripDigits(gateId)]
    ensures forall t :: t in terminals ==> terminals[t] != [] && Increasing(terminals[t])
    ensures forall t, e :: t in terminals && e in terminals[t] ==>
              e.gateId in gates && StripDigits(e.gateId) == t && e == EntryFor(e.gateId, gates[e.gateId])
  {
    var grouped: map<string, seq<GateEntry>> := map[];
    var rest := gates.Keys;
    while rest != {}
      invariant Filed(gates, rest, grouped)
      decreases rest
    {
      var gateId :| gateId in rest;
      var terminalId := StripDigits(gateId);
      var group := if terminalId in grouped then grouped[terminalId] else [];
      FileStep(gates, rest, grouped, gateId);
      grouped := grouped[terminalId := group + [EntryFor(gateId, gates[gateId])]];
      rest := rest - {gateId};
    }
    terminals := map t | t in grouped :: Sort(grouped[t], GateBefore);
    SortedGrouping(gates, grouped);
  }

  /** Sorting each terminal of a complete grouping. */
  lemma SortedGrouping(gates: map<string, GateRecord>, grouped: map<string, seq<GateEntry>>)
    requires Filed(gates, {}, grouped)
    ensures var terminals := map t | t in grouped :: Sort(grouped[t], GateBefore);
            (forall gateId :: gateId in gates ==>
               StripDigits(gateId) in terminals && EntryFor(gateId, gates[gateId]) in terminals[StripDigits(gateId)]) &&
            (forall t :: t in terminals ==> terminals[t] != [] && Increasing(terminals[t])) &&
            (forall t, e :: t in terminals && e in terminals[t] ==>
               e.gateId in gates && StripDigits(e.gateId) == t && e == EntryFor(e.gateId, gates[e.gateId]))
  {
    var terminals := map t | t in grouped :: Sort(grouped[t], GateBefore);
    forall t | t in grouped
      ensures terminals[t] != [] && Increasing(terminals[t]) && forall e :: e in terminals[t] <==> e in grouped[t]
    {
      SortIncreasing(grouped[t], gates);
    }
    forall gateId | gateId in gates
      ensures StripDigits(gateId) in terminals && EntryFor(gateId, gates[gateId]) in terminals[StripDigits(gateId)]
    {
      assert EntryFor(gateId, gates[gateId]) in grouped[StripDigits(gateId)];
    }
    forall t, e: GateEntry | t in terminals && e in terminals[t]
      ensures e.gateId in gates && StripDigits(e.gateId) == t && e == EntryFor(e.gateId, gates[e.gateId])
    {
      assert e in grouped[t];
    }
  }

  // ---------------------------------------------------------------------
  // The processor

  /** The known runway entrance and exit taxiways of Paris-Orly. */
  const OrlyRunwayPoints: set<string> := {"W34", "W35", "W36", "W37", "W4", "W41", "W42", "W43", "W44"}

  /** `AirportProcessor`: the node and segment tables (dicts keyed by the
      sequential ids, held here as sequences indexed by the counter), the
      gate table and the loaded configuration's parking positions. */
  class AirportProcessor {
    var nodes: seq<Node>
    var segments: seq<Segment>
    var gates: map<string, GateRecord>
    const runwayPoints: set<string>
    const parkingPositions: seq<ParkingPosition>

    /** A processor with empty tables over the loaded configuration. */
    constructor(parking: seq<ParkingPosition>)
      ensures nodes == [] && segments == [] && gates == map[]
      ensures runwayPoints == OrlyRunwayPoints && parkingPositions == parking
    {
      nodes := [];
      segments := [];
      gates := map[];
      runwayPoints := OrlyRunwayPoints;
      parkingPositions := parking;
    }

    /** The node-creation loop of `_create_network`: one node per distinct
        key, numbered in order of first discovery. */
    method CreateNodes(points: seq<Key>)
      modifies this
      requires nodes == []
      ensures nodes == NodeTable(DistinctKeys(points))
      ensures segments == old(segments) && gates == old(gates)
    {
      var uniquePoints: map<Key, nat> := map[];
      for i := 0 to |points|
        invariant nodes == NodeTable(DistinctKeys(points[..i]))
        invariant forall p :: p in uniquePoints <==> p in DistinctKeys(points[..i])
        invariant |uniquePoints| == |nodes|
        invariant segments == old(segments) && gates == old(gates)
      {
        assert points[..i + 1][..i] == points[..i];
        var key := points[i];
        if key !in uniquePoints {
          var nodeId := |uniquePoints|;
          uniquePoints := uniquePoints[key := |nodes|];
          nodes := nodes + [Node(nodeId, key, [], Intersection, None)];
        }
      }
      assert points[..|points|] == points;
    }

    /** `_create_segments`: the segments between consecutive nodes on the
        line, registered on both their ends. */
    method CreateSegments(geo: Geometry, f: RawFeature)
      modifies this
      requires f.coords != [] && NetworkValid(nodes, segments)
      ensures NetworkValid(nodes, segments) && SameNodes(nodes, old(nodes))
      ensures segments == old(segments) + LineSegments(geo, f, Coords(old(nodes)), |old(segments)|)
      ensures gates == old(gates)
    {
      ghost var keys := Coords(nodes);
      var stops := StopsOnLine(geo, nodes, f.coords);
      stops := Sort(stops, StopBefore);
      assert stops == SortedStops(geo, keys, f.coords);
      if |stops| == 0 {
        assert segments == old(segments) + [];
        return;
      }
      ghost var segs0 := segments;
      nodes, segments := LinkStops(geo, f, stops, keys, nodes, segments);
      CoordsSame(nodes, old(nodes));
      SegmentsDone(geo, f, stops, keys, segs0, nodes, segments);
    }

    /** `_identify_special_nodes`: the three classification passes over
        the node table, the gate pass also filling the gate table. */
    method IdentifySpecialNodes()
      modifies this
      requires NetworkValid(nodes, segments)
      ensures EndsBelow(segments, |old(nodes)|)
      ensures nodes == Classified(old(nodes), segments, runwayPoints, ParkingExitNames(parkingPositions))
      ensures gates == GatesOf(old(gates), old(nodes), segments)
      ensures segments == old(segments) && NetworkValid(nodes, segments)
    {
      MarkEndsValid(nodes, segments, runwayPoints, RunwayExit, false);
      nodes := MarkRunwayExits(nodes, segments, runwayPoints);
      var parkingExits := CollectParkingExits(parkingPositions);
      MarkEndsValid(nodes, segments, parkingExits, ParkingExit, true);
      nodes := MarkParkingExits(nodes, segments, parkingExits);
      ghost var typed := nodes;
      nodes, gates := MarkGates(nodes, segments, gates);
      GateNodesValid(typed, segments);
      forall k | 0 <= k < |typed|
        ensures typed[k] == old(nodes)[k].(nodeType := typed[k].nodeType)
      {
        var runway := MarkEnds(old(nodes), segments, runwayPoints, RunwayExit, false);
        MarkEndsAt(old(nodes), segments, runwayPoints, RunwayExit, false, k);
        MarkEndsAt(runway, segments, parkingExits, ParkingExit, true, k);
      }
      GatesOfRetyped(old(gates), typed, old(nodes), segments);
    }

    /** The state `_create_network` leaves after building the network of
        `lines` on empty tables: one node per distinct point, the segments
        of each line in turn, and the classification over the wired
        table. */
    ghost predicate BuiltFrom(geo: Geometry, lines: seq<RawFeature>, gates0: map<string, GateRecord>)
      reads this
      requires HasVertices(lines)
    {
      var keys := DistinctKeys(NetworkPoints(geo, lines));
      NetworkValid(nodes, segments) && |nodes| == |keys| && EndsBelow(segments, |keys|) &&
      segments == NetworkSegments(geo, lines, keys) &&
      nodes == Classified(WiredTable(keys, segments), segments, runwayPoints, ParkingExitNames(parkingPositions)) &&
      gates == GatesOf(gates0, WiredTable(keys, segments), segments)
    }

    /** `_create_network`. */
    method CreateNetwork(geo: Geometry, lines: seq<RawFeature>)
      modifies this
      requires HasVertices(lines) && nodes == [] && segments == []
      ensures BuiltFrom(geo, lines, old(gates))
    {
      var points := CollectPoints(geo, lines);
      CreateNodes(points);
      ghost var keys := DistinctKeys(points);
      NodeTableValid(keys);
      for j := 0 to |lines|
        invariant segments == NetworkSegments(geo, lines[..j], keys)
        invariant NetworkValid(nodes, segments) && SameNodes(nodes, NodeTable(keys))
        invariant gates == old(gates)
      {
        assert lines[..j + 1][..j] == lines[..j];
        CoordsSame(nodes, NodeTable(keys));
        NodeTableValid(keys);
        CreateSegments(geo, lines[j]);
      }
      assert lines[..|lines|] == lines;
      WiredTableIs(keys, nodes, segments);
      IdentifySpecialNodes();
    }

    /** The configuration `export_config` writes: the gates by terminal,
        their number, the parking positions and the runway configurations. */
    method ExportConfig() returns (config: AirportConfig)
      ensures config.terminals.Keys == set gateId | gateId in gates :: StripDigits(gateId)
      ensures forall gateId :: gateId in gates ==> EntryFor(gateId, gates[gateId]) in config.terminals[StripDigits(gateId)]
      ensures forall t :: t in config.terminals ==> Increasing(config.terminals[t])
      ensures forall t, e :: t in config.terminals && e in config.terminals[t] ==>
                e.gateId in gates && StripDigits(e.gateId) == t && e == EntryFor(e.gateId, gates[e.gateId])
      ensures config.totalCount == |gates|
      ensures config.parkingPositions == parkingPositions && config.runwayConfigurations == OrlyRunwayConfigs
      ensures config.airportCode == "LFPO"
      ensures GroupedByTerminal(gates, config.terminals)
    {
      var terminals := GroupTerminals(gates);
      forall t | t in terminals
        ensures t in set gateId | gateId in gates :: StripDigits(gateId)
      {
        var e := terminals[t][0];
        assert e in terminals[t];
      }
      config := AirportConfig("LFPO", "Paris-Orly Airport", terminals, |gates|, parkingPositions, OrlyRunwayConfigs);
    }

    /** `process_layout`: the kept features become the network. */
    method ProcessLayout(geo: Geometry, fs: seq<RawFeature>)
      modifies this
      requires HasVertices(KeptFeatures(fs)) && nodes == [] && segments == []
      ensures BuiltFrom(geo, KeptFeatures(fs), old(gates))
    {
      var features := FilterFeatures(fs);
      CreateNetwork(geo, features);
    }
  }
}
