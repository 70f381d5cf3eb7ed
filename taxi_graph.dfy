/** The router's view of the taxi network: the segment records read from the
    network file, the undirected adjacency map built from them
    (`Airport.graph`), and walks through that map that obey the router's two
    restrictions (segments already used are forbidden; when a set of names is
    given, only segments carrying one of those names may be used). */
module TaxiGraph {
  import opened Wrappers

  /** One entry of `graph[node]`: `(next_node, segment_id, length)`. */
  datatype Edge = Edge(next: string, segmentId: string, length: nat)

  /** `TaxiSegment`: a segment record as the router loads it. */
  datatype TaxiSegment = TaxiSegment(
    segmentId: string,
    name: string,
    startNode: string,
    endNode: string,
    length: nat,
    segmentType: string)

  /** A feature of the network file, with the properties the router reads.
      An absent, null or empty `name` property is the empty string here: the
      loader treats all three alike. */
  datatype NetworkFeature = NetworkFeature(
    geometryType: string,
    name: string,
    segmentId: string,
    startNode: string,
    endNode: string,
    length: nat,
    segmentType: Option<string>)

  /** Whether the loader turns the feature into a segment. */
  predicate IsSegmentFeature(f: NetworkFeature)
  {
    f.geometryType == "LineString" && f.name != ""
  }

  /** The segment record built from a feature (`segment_type` defaults to taxiway). */
  function SegmentOf(f: NetworkFeature): TaxiSegment
  {
    TaxiSegment(f.segmentId, f.name, f.startNode, f.endNode, f.length,
                if f.segmentType.Some? then f.segmentType.value else "taxiway")
  }

  /** `all_segments` after the loader's loop over the features. */
  function LoadedSegments(fs: seq<NetworkFeature>): seq<TaxiSegment>
    decreases |fs|
  {
    if fs == [] then []
    else
      var pre := LoadedSegments(fs[..|fs| - 1]);
      var f := fs[|fs| - 1];
      if IsSegmentFeature(f) then pre + [SegmentOf(f)] else pre
  }

  /** The segments named `n`, in load order (`segments_by_name[n]`). */
  function Named(segs: seq<TaxiSegment>, n: string): seq<TaxiSegment>
    decreases |segs|
  {
    if segs == [] then []
    else
      var pre := Named(segs[..|segs| - 1], n);
      if segs[|segs| - 1].name == n then pre + [segs[|segs| - 1]] else pre
  }

  /** The names that occur in `segs`. */
  function Names(segs: seq<TaxiSegment>): set<string>
  {
    set s | s in segs :: s.name
  }

  /** The list under `n`, or the empty list: `segments_by_name.get(n, [])`. */
  function SegmentsNamed(byName: map<string, seq<TaxiSegment>>, n: string): seq<TaxiSegment>
  {
    if n in byName then byName[n] else []
  }

  /** `segments_by_name` as a whole: one key per name, mapped to its segments. */
  function ByName(segs: seq<TaxiSegment>): map<string, seq<TaxiSegment>>
  {
    map n | n in Names(segs) :: Named(segs, n)
  }

  /** The adjacency list of `u`, or the empty list when `u` is not a key. */
  function Adj(g: map<string, seq<Edge>>, u: string): seq<Edge>
  {
    if u in g then g[u] else []
  }

  /** One iteration of the graph-building loop: both directions of `s`. */
  function AddBothWays(g: map<string, seq<Edge>>, s: TaxiSegment): map<string, seq<Edge>>
  {
    var g1 := g[s.startNode := Adj(g, s.startNode) + [Edge(s.endNode, s.segmentId, s.length)]];
    g1[s.endNode := Adj(g1, s.endNode) + [Edge(s.startNode, s.segmentId, s.length)]]
  }

  /** `graph` after the loop over `segs`. */
  function GraphOf(segs: seq<TaxiSegment>): map<string, seq<Edge>>
    decreases |segs|
  {
    if segs == [] then map[]
    else AddBothWays(GraphOf(segs[..|segs| - 1]), segs[|segs| - 1])
  }

  /** `e` is one of the two directed entries the loader adds for `s` under `u`. */
  predicate EdgeOfSegment(s: TaxiSegment, u: string, e: Edge)
  {
    (s.startNode == u && e == Edge(s.endNode, s.segmentId, s.length)) ||
    (s.endNode == u && e == Edge(s.startNode, s.segmentId, s.length))
  }

  /** The first loaded segment with the given id: what
      `next(s for s in all_segments if s.segment_id == id)` finds. */
  function SegmentById(segs: seq<TaxiSegment>, id: string): (r: Option<TaxiSegment>)
    ensures r.None? <==> forall i :: 0 <= i < |segs| ==> segs[i].segmentId != id
    ensures r.Some? ==> r.value in segs && r.value.segmentId == id
  {
    if segs == [] then None
    else if segs[0].segmentId == id then Some(segs[0])
    else SegmentById(segs[1..], id)
  }

  /** The record found is the first one with the id: no earlier record has it. */
  lemma {:induction false} SegmentByIdFirst(segs: seq<TaxiSegment>, id: string)
    ensures SegmentById(segs, id).Some? ==>
              exists i :: 0 <= i < |segs| && segs[i] == SegmentById(segs, id).value &&
                          forall j :: 0 <= j < i ==> segs[j].segmentId != id
  {
    if segs != [] && segs[0].segmentId != id && SegmentById(segs, id).Some? {
      var tail := segs[1..];
      SegmentByIdFirst(tail, id);
      var i :| 0 <= i < |tail| && tail[i] == SegmentById(tail, id).value &&
               forall j :: 0 <= j < i ==> tail[j].segmentId != id;
      forall j | 0 <= j < i + 1 ensures segs[j].segmentId != id {
        if j > 0 { assert segs[j] == tail[j - 1]; }
      }
      assert segs[i + 1] == SegmentById(segs, id).value;
    } else if segs != [] && SegmentById(segs, id).Some? {
      assert segs[0] == SegmentById(segs, id).value;
    }
  }

  /** Every segment id has exactly one record. */
  predicate UniqueIds(segs: seq<TaxiSegment>)
  {
    forall i, j :: 0 <= i < j < |segs| ==> segs[i].segmentId != segs[j].segmentId
  }

  /** The length the router charges for a segment id (that of its first record). */
  function LengthOf(segs: seq<TaxiSegment>, id: string): nat
  {
    var s := SegmentById(segs, id);
    if s.Some? then s.value.length else 0
  }

  /** The sum of the lengths charged for a list of segment ids. */
  function PathLength(segs: seq<TaxiSegment>, ids: seq<string>): nat
    decreases |ids|
  {
    if ids == [] then 0
    else PathLength(segs, ids[..|ids| - 1]) + LengthOf(segs, ids[|ids| - 1])
  }

  // ---------------------------------------------------------------------
  // Properties of the loader

  /** A feature is loaded exactly when it is a LineString with a non-empty
      name, and loaded segments keep the features' order. */
  lemma {:induction false} LoadedSegmentsFilter(fs: seq<NetworkFeature>)
    ensures forall s :: s in LoadedSegments(fs) ==> s.name != ""
    ensures forall s :: s in LoadedSegments(fs) <==>
              exists i :: 0 <= i < |fs| && IsSegmentFeature(fs[i]) && s == SegmentOf(fs[i])
    decreases |fs|
  {
    if fs != [] {
      var pre := fs[..|fs| - 1];
      LoadedSegmentsFilter(pre);
      forall s
        ensures s in LoadedSegments(fs) <==>
                exists i :: 0 <= i < |fs| && IsSegmentFeature(fs[i]) && s == SegmentOf(fs[i])
      {
        if s in LoadedSegments(fs) && s !in LoadedSegments(pre) {
          assert IsSegmentFeature(fs[|fs| - 1]) && s == SegmentOf(fs[|fs| - 1]);
        }
        if exists i :: 0 <= i < |fs| && IsSegmentFeature(fs[i]) && s == SegmentOf(fs[i]) {
          var i :| 0 <= i < |fs| && IsSegmentFeature(fs[i]) && s == SegmentOf(fs[i]);
          if i < |fs| - 1 {
            assert fs[i] == pre[i];
          }
        }
      }
    }
  }

  /** `Named(segs, n)` holds exactly the segments of `segs` named `n`. */
  lemma {:induction false} NamedContents(segs: seq<TaxiSegment>, n: string)
    ensures forall s :: s in Named(segs, n) <==> s in segs && s.name == n
    decreases |segs|
  {
    if segs != [] {
      var pre := segs[..|segs| - 1];
      NamedContents(pre, n);
      assert segs == pre + [segs[|segs| - 1]];
    }
  }

  /** Every segment filed under a name carries that name, every loaded segment
      is filed under its own name, and there are no other keys. */
  lemma ByNameSound(segs: seq<TaxiSegment>)
    ensures ByName(segs).Keys == Names(segs)
    ensures forall n, s :: n in ByName(segs) && s in ByName(segs)[n] ==> s.name == n && s in segs
    ensures forall s :: s in segs ==> s.name in ByName(segs) && s in ByName(segs)[s.name]
  {
    forall n | n in Names(segs) {
      NamedContents(segs, n);
    }
  }

  // ---------------------------------------------------------------------
  // Properties of the adjacency map

  /** The entries under `u` are exactly the directed entries of the segments
      that touch `u`. */
  lemma {:induction false} GraphOfEdges(segs: seq<TaxiSegment>, u: string, e: Edge)
    ensures e in Adj(GraphOf(segs), u) <==>
            exists i :: 0 <= i < |segs| && EdgeOfSegment(segs[i], u, e)
    decreases |segs|
  {
    if segs != [] {
      var pre := segs[..|segs| - 1];
      var s := segs[|segs| - 1];
      GraphOfEdges(pre, u, e);
      var g := GraphOf(pre);
      var g1 := g[s.startNode := Adj(g, s.startNode) + [Edge(s.endNode, s.segmentId, s.length)]];
      assert Adj(GraphOf(segs), u) ==
             Adj(g, u) + (if s.startNode == u then [Edge(s.endNode, s.segmentId, s.length)] else [])
                       + (if s.endNode == u then [Edge(s.startNode, s.segmentId, s.length)] else []);
      if exists i :: 0 <= i < |segs| && EdgeOfSegment(segs[i], u, e) {
        var i :| 0 <= i < |segs| && EdgeOfSegment(segs[i], u, e);
        if i < |segs| - 1 {
          assert segs[i] == pre[i];
        }
      }
    }
  }

  /** The keys of the graph are exactly the endpoints of the segments. */
  lemma {:induction false} GraphOfKeys(segs: seq<TaxiSegment>)
    ensures forall u :: u in GraphOf(segs) <==>
              exists i :: 0 <= i < |segs| && (segs[i].startNode == u || segs[i].endNode == u)
    decreases |segs|
  {
    if segs != [] {
      var pre := segs[..|segs| - 1];
      GraphOfKeys(pre);
      forall u
        ensures u in GraphOf(segs) <==>
                exists i :: 0 <= i < |segs| && (segs[i].startNode == u || segs[i].endNode == u)
      {
        if exists i :: 0 <= i < |segs| && (segs[i].startNode == u || segs[i].endNode == u) {
          var i :| 0 <= i < |segs| && (segs[i].startNode == u || segs[i].endNode == u);
          if i < |segs| - 1 {
            assert segs[i] == pre[i];
          }
        }
      }
    }
  }

  /** Segments are traversable either way: an entry `(v, id, len)` under `u`
      is matched by an entry `(u, id, len)` under `v`. */
  lemma GraphSymmetric(segs: seq<TaxiSegment>, u: string, v: string, id: string, len: nat)
    requires Edge(v, id, len) in Adj(GraphOf(segs), u)
    ensures v in GraphOf(segs) && Edge(u, id, len) in GraphOf(segs)[v]
  {
    GraphOfEdges(segs, u, Edge(v, id, len));
    var i :| 0 <= i < |segs| && EdgeOfSegment(segs[i], u, Edge(v, id, len));
    assert EdgeOfSegment(segs[i], v, Edge(u, id, len));
    GraphOfEdges(segs, v, Edge(u, id, len));
  }

  /** Every entry of the graph leads to a key of the graph and names a loaded
      segment, so the router's lookups cannot fail. */
  lemma GraphClosed(segs: seq<TaxiSegment>)
    ensures forall u, e :: u in GraphOf(segs) && e in GraphOf(segs)[u] ==>
              e.next in GraphOf(segs) && SegmentById(segs, e.segmentId).Some?
  {
    forall u, e | u in GraphOf(segs) && e in GraphOf(segs)[u]
      ensures e.next in GraphOf(segs) && SegmentById(segs, e.segmentId).Some?
    {
      GraphOfEdges(segs, u, e);
      var i :| 0 <= i < |segs| && EdgeOfSegment(segs[i], u, e);
      GraphOfKeys(segs);
      assert segs[i].segmentId == e.segmentId;
    }
  }

  /** With unique ids, the length stored on an entry is the length the router
      charges for its segment. */
  lemma EdgeLengthCharged(segs: seq<TaxiSegment>, u: string, e: Edge)
    requires UniqueIds(segs)
    requires e in Adj(GraphOf(segs), u)
    ensures LengthOf(segs, e.segmentId) == e.length
  {
    GraphOfEdges(segs, u, e);
    var i :| 0 <= i < |segs| && EdgeOfSegment(segs[i], u, e);
    var r := SegmentById(segs, e.segmentId).value;
    var j :| 0 <= j < |segs| && segs[j] == r;
    assert i == j;
  }

  // ---------------------------------------------------------------------
  // Walks

  /** Whether the search may take the entry `e`: its segment is not forbidden
      and, when a set of names is given (non-empty), the segment's name is in it. */
  predicate Usable(segs: seq<TaxiSegment>, forbidden: set<string>, allowed: set<string>, e: Edge)
  {
    e.segmentId !in forbidden &&
    (allowed == {} ||
     (SegmentById(segs, e.segmentId).Some? && SegmentById(segs, e.segmentId).value.name in allowed))
  }

  /** The node a walk from `origin` along `steps` ends at. */
  function EndOf(origin: string, steps: seq<Edge>): string
  {
    if steps == [] then origin else steps[|steps| - 1].next
  }

  /** The sum of the lengths along a walk. */
  function Len(steps: seq<Edge>): nat
    decreases |steps|
  {
    if steps == [] then 0 else Len(steps[..|steps| - 1]) + steps[|steps| - 1].length
  }

  /** The segment ids along a walk, as the search records them. */
  function Ids(steps: seq<Edge>): (r: seq<string>)
    ensures |r| == |steps|
    decreases |steps|
  {
    if steps == [] then [] else Ids(steps[..|steps| - 1]) + [steps[|steps| - 1].segmentId]
  }

  /** `steps` is a walk from `origin` that follows graph entries and takes
      only usable ones. */
  ghost predicate UsableWalk(g: map<string, seq<Edge>>, segs: seq<TaxiSegment>,
                             forbidden: set<string>, allowed: set<string>,
                             origin: string, steps: seq<Edge>)
    decreases |steps|
  {
    if steps == [] then true
    else
      var pre := steps[..|steps| - 1];
      var u := EndOf(origin, pre);
      UsableWalk(g, segs, forbidden, allowed, origin, pre) &&
      u in g && steps[|steps| - 1] in g[u] && Usable(segs, forbidden, allowed, steps[|steps| - 1])
  }

  /** Extending a walk by a usable entry of its last node. */
  lemma WalkAppend(g: map<string, seq<Edge>>, segs: seq<TaxiSegment>,
                   forbidden: set<string>, allowed: set<string>,
                   origin: string, steps: seq<Edge>, e: Edge)
    requires UsableWalk(g, segs, forbidden, allowed, origin, steps)
    requires EndOf(origin, steps) in g && e in g[EndOf(origin, steps)]
    requires Usable(segs, forbidden, allowed, e)
    ensures UsableWalk(g, segs, forbidden, allowed, origin, steps + [e])
    ensures EndOf(origin, steps + [e]) == e.next
    ensures Len(steps + [e]) == Len(steps) + e.length
    ensures Ids(steps + [e]) == Ids(steps) + [e.segmentId]
  {
    assert (steps + [e])[..|steps|] == steps;
  }

  /** A prefix of a walk is not longer than the walk. */
  lemma {:induction false} LenPrefix(steps: seq<Edge>, k: nat)
    requires k <= |steps|
    ensures Len(steps[..k]) <= Len(steps)
    decreases |steps|
  {
    if k < |steps| {
      var pre := steps[..|steps| - 1];
      assert steps[..k] == pre[..k];
      LenPrefix(pre, k);
    } else {
      assert steps[..k] == steps;
    }
  }

  /** A prefix of a usable walk is a usable walk. */
  lemma {:induction false} WalkPrefix(g: map<string, seq<Edge>>, segs: seq<TaxiSegment>,
                                      forbidden: set<string>, allowed: set<string>,
                                      origin: string, steps: seq<Edge>, k: nat)
    requires UsableWalk(g, segs, forbidden, allowed, origin, steps)
    requires k <= |steps|
    ensures UsableWalk(g, segs, forbidden, allowed, origin, steps[..k])
    decreases |steps|
  {
    if k < |steps| {
      var pre := steps[..|steps| - 1];
      assert steps[..k] == pre[..k];
      WalkPrefix(g, segs, forbidden, allowed, origin, pre, k);
    } else {
      assert steps[..k] == steps;
    }
  }

  /** A usable walk never takes a forbidden segment and, under a non-empty set
      of names, only segments that carry one of those names. */
  lemma {:induction false} WalkRespectsRules(g: map<string, seq<Edge>>, segs: seq<TaxiSegment>,
                                             forbidden: set<string>, allowed: set<string>,
                                             origin: string, steps: seq<Edge>)
    requires UsableWalk(g, segs, forbidden, allowed, origin, steps)
    ensures forall id :: id in Ids(steps) ==> id !in forbidden
    ensures allowed != {} ==>
              forall id :: id in Ids(steps) ==>
                SegmentById(segs, id).Some? && SegmentById(segs, id).value.name in allowed
    decreases |steps|
  {
    if steps != [] {
      var pre := steps[..|steps| - 1];
      WalkRespectsRules(g, segs, forbidden, allowed, origin, pre);
      assert Ids(steps) == Ids(pre) + [steps[|steps| - 1].segmentId];
    }
  }
}
