/** `dijkstra_multi_target`, the search that `find_path` runs for every leg:
    a Dijkstra search from a list of start nodes over the adjacency map,
    skipping forbidden segments and, when a set of names is given, segments
    whose name is not in it; it stops once every target node has been popped
    or the queue is empty. The `heapq` queue is a sequence from which the least
    `(dist, node, path)` tuple is removed, exactly as `heappop` orders them. */
module Search {
  import opened StringOrder
  import opened TaxiGraph

  /** `distances[node]`: `(inf, [])` until reached, then `(dist, path)`. */
  datatype Reach = Unreached | Reached(dist: nat, path: seq<string>)

  /** A queue entry `(dist, node, path)`. */
  datatype QEntry = QEntry(dist: nat, node: string, path: seq<string>)

  /** A walk through the graph together with the node it leaves from. */
  datatype Walk = Walk(origin: string, steps: seq<Edge>)

  /** Python's `<` on `(dist, node, path)` tuples: the order `heappop` follows. */
  predicate EntryLess(a: QEntry, b: QEntry)
  {
    a.dist < b.dist ||
    (a.dist == b.dist &&
     (StrLess(a.node, b.node) || (a.node == b.node && ListLess(a.path, b.path))))
  }

  lemma EntryLessIrreflexive(a: QEntry)
    ensures !EntryLess(a, a)
  {
    StrLessIrreflexive(a.node);
    ListLessIrreflexive(a.path);
  }

  lemma EntryLessTransitive(a: QEntry, b: QEntry, c: QEntry)
    requires EntryLess(a, b) && EntryLess(b, c)
    ensures EntryLess(a, c)
  {
    if a.dist == b.dist && b.dist == c.dist {
      if StrLess(a.node, b.node) && StrLess(b.node, c.node) {
        StrLessTransitive(a.node, b.node, c.node);
      } else if a.node == b.node && b.node == c.node {
        ListLessTransitive(a.path, b.path, c.path);
      }
    }
  }

  /** `heappop`'s choice: the index of an entry that no other entry precedes.
      Its distance is therefore the least in the queue. */
  method PopMin(pq: seq<QEntry>) returns (k: nat)
    requires pq != []
    ensures k < |pq|
    ensures forall j :: 0 <= j < |pq| ==> !EntryLess(pq[j], pq[k])
    ensures forall j :: 0 <= j < |pq| ==> pq[k].dist <= pq[j].dist
  {
    k := 0;
    var i := 1;
    EntryLessIrreflexive(pq[0]);
    while i < |pq|
      invariant 1 <= i <= |pq| && k < i
      invariant forall j :: 0 <= j < i ==> !EntryLess(pq[j], pq[k])
    {
      if EntryLess(pq[i], pq[k]) {
        forall j | 0 <= j < i
          ensures !EntryLess(pq[j], pq[i])
        {
          if EntryLess(pq[j], pq[i]) {
            EntryLessTransitive(pq[j], pq[i], pq[k]);
          }
        }
        EntryLessIrreflexive(pq[i]);
        k := i;
      }
      i := i + 1;
    }
  }

  /** The queue after removing the entry at index `k`. */
  function RemoveAt<T>(s: seq<T>, k: nat): (r: seq<T>)
    requires k < |s|
    ensures |r| == |s| - 1
    ensures forall i :: 0 <= i < |r| ==> r[i] == (if i < k then s[i] else s[i + 1])
  {
    s[..k] + s[k + 1..]
  }

  /** Removing one entry keeps every other value in the queue. */
  lemma RemoveAtKeeps<T>(s: seq<T>, k: nat, x: T)
    requires k < |s| && x in s && x != s[k]
    ensures x in RemoveAt(s, k)
  {
    var i :| 0 <= i < |s| && s[i] == x;
    if i < k {
      assert RemoveAt(s, k)[i] == x;
    } else {
      assert RemoveAt(s, k)[i - 1] == x;
    }
  }

  // ---------------------------------------------------------------------
  // What the search is about

  /** Every graph entry leads to a node of the graph and names a loaded segment. */
  predicate Closed(g: map<string, seq<Edge>>, segs: seq<TaxiSegment>)
  {
    forall u, e :: u in g && e in g[u] ==> e.next in g && SegmentById(segs, e.segmentId).Some?
  }

  /** `w` is a usable walk from one of the start nodes (one that is in the
      graph) to `v`. */
  ghost predicate Leads(g: map<string, seq<Edge>>, segs: seq<TaxiSegment>,
                        forbidden: set<string>, allowed: set<string>,
                        starts: seq<string>, w: Walk, v: string)
  {
    w.origin in starts && w.origin in g &&
    UsableWalk(g, segs, forbidden, allowed, w.origin, w.steps) &&
    EndOf(w.origin, w.steps) == v
  }

  /** `w` leads to `v`, has length `d` and the segment ids `path`. */
  ghost predicate Realises(g: map<string, seq<Edge>>, segs: seq<TaxiSegment>,
                           forbidden: set<string>, allowed: set<string>,
                           starts: seq<string>, w: Walk, v: string, d: nat, path: seq<string>)
  {
    Leads(g, segs, forbidden, allowed, starts, w, v) && Len(w.steps) == d && Ids(w.steps) == path
  }

  // ---------------------------------------------------------------------
  // Loop invariants of the search

  /** Start nodes in the graph are at distance 0 with the empty path. */
  ghost predicate StartsAtZero(g: map<string, seq<Edge>>, starts: seq<string>, distances: map<string, Reach>)
  {
    forall s :: s in starts && s in g ==> s in distances && distances[s] == Reached(0, [])
  }

  /** `v` has a record. */
  ghost predicate IsReached(distances: map<string, Reach>, v: string)
  {
    v in distances && distances[v].Reached?
  }

  /** Every reached node's record is realised by the walk kept for it. (Only
      `IsReached` triggers the quantifier: unfolding a walk yields graph entries
      whose end nodes would otherwise start the next unfolding.) */
  ghost predicate WalksRecorded(g: map<string, seq<Edge>>, segs: seq<TaxiSegment>,
                                forbidden: set<string>, allowed: set<string>, starts: seq<string>,
                                distances: map<string, Reach>, walks: map<string, Walk>)
  {
    forall v {:trigger IsReached(distances, v)} :: IsReached(distances, v) ==>
      v in walks && Realises(g, segs, forbidden, allowed, starts, walks[v], v, distances[v].dist, distances[v].path)
  }

  /** Every queue entry is realised by the walk kept beside it. (Only the walk
      `pqWalks[k]` triggers the quantifier, so that entries mentioned for
      other reasons do not unfold their walks.) */
  ghost predicate QueueWalks(g: map<string, seq<Edge>>, segs: seq<TaxiSegment>,
                             forbidden: set<string>, allowed: set<string>, starts: seq<string>,
                             pq: seq<QEntry>, pqWalks: seq<Walk>)
  {
    |pqWalks| == |pq| &&
    forall k {:trigger pqWalks[k]} :: 0 <= k < |pq| ==>
      Realises(g, segs, forbidden, allowed, starts, pqWalks[k], pq[k].node, pq[k].dist, pq[k].path)
  }

  /** A queue entry is never better than its node's record. */
  ghost predicate QueueAbove(distances: map<string, Reach>, pq: seq<QEntry>)
  {
    forall k :: 0 <= k < |pq| ==>
      pq[k].node in distances && distances[pq[k].node].Reached? &&
      distances[pq[k].node].dist <= pq[k].dist
  }

  /** `v` is reached but not settled. */
  ghost predicate Pending(distances: map<string, Reach>, settled: set<string>, v: string)
  {
    v in distances && distances[v].Reached? && v !in settled
  }

  /** A reached node that is not settled has its record waiting in the queue.
      (Only `Pending` triggers the quantifier: a trigger on `distances[v]`
      would feed on the nodes of queue entries and loop.) */
  ghost predicate PendingQueued(distances: map<string, Reach>, settled: set<string>, pq: seq<QEntry>)
  {
    forall v {:trigger Pending(distances, settled, v)} :: Pending(distances, settled, v) ==>
      QEntry(distances[v].dist, v, distances[v].path) in pq
  }

  /** Every settled node is reached within `m`. */
  ghost predicate SettledWithin(distances: map<string, Reach>, settled: set<string>, m: nat)
  {
    forall u :: u in settled ==> u in distances && distances[u].Reached? && distances[u].dist <= m
  }

  /** No settled node is farther than any queue entry. */
  ghost predicate SettledBelowQueue(distances: map<string, Reach>, settled: set<string>, pq: seq<QEntry>)
  {
    forall i :: 0 <= i < |pq| ==> SettledWithin(distances, settled, pq[i].dist)
  }

  /** The entry `e` of the reached node `u` leads to a node reached within
      `u`'s distance plus the entry's length. */
  ghost predicate Relaxed(distances: map<string, Reach>, u: string, e: Edge)
  {
    IsReached(distances, u) && IsReached(distances, e.next) &&
    distances[e.next].dist <= distances[u].dist + e.length
  }

  /** Every usable entry of the settled node `u` has been relaxed. (Only
      `Relaxed` triggers the quantifier: graph entries met while unfolding a
      walk would otherwise instantiate it.) */
  ghost predicate RelaxedFrom(g: map<string, seq<Edge>>, segs: seq<TaxiSegment>,
                              forbidden: set<string>, allowed: set<string>,
                              distances: map<string, Reach>, u: string)
  {
    u in g && IsReached(distances, u) &&
    forall e {:trigger Relaxed(distances, u, e)} :: e in g[u] && Usable(segs, forbidden, allowed, e) ==>
      Relaxed(distances, u, e)
  }

  ghost predicate SettledRelaxed(g: map<string, seq<Edge>>, segs: seq<TaxiSegment>,
                                 forbidden: set<string>, allowed: set<string>,
                                 distances: map<string, Reach>, settled: set<string>)
  {
    forall u :: u in settled ==> RelaxedFrom(g, segs, forbidden, allowed, distances, u)
  }

  // ---------------------------------------------------------------------
  // Why the records of settled nodes are shortest

  /** Following a usable walk from a start node, either every node is settled
      and the walk's end is reached within the walk's length, or the walk
      passes a reached node that is not settled, within the length of the
      prefix that leads to it. */
  lemma {:induction false} FrontierOnWalk(g: map<string, seq<Edge>>, segs: seq<TaxiSegment>,
                                          forbidden: set<string>, allowed: set<string>,
                                          starts: seq<string>, distances: map<string, Reach>,
                                          settled: set<string>, w: Walk)
    returns (k: nat)
    requires w.origin in starts && w.origin in g
    requires UsableWalk(g, segs, forbidden, allowed, w.origin, w.steps)
    requires StartsAtZero(g, starts, distances)
    requires SettledRelaxed(g, segs, forbidden, allowed, distances, settled)
    ensures k <= |w.steps|
    ensures EndOf(w.origin, w.steps[..k]) in distances
    ensures distances[EndOf(w.origin, w.steps[..k])].Reached?
    ensures distances[EndOf(w.origin, w.steps[..k])].dist <= Len(w.steps[..k])
    ensures k == |w.steps| || EndOf(w.origin, w.steps[..k]) !in settled
    decreases |w.steps|
  {
    if w.steps == [] {
      k := 0;
      assert w.steps[..0] == [];
    } else {
      var pre := w.steps[..|w.steps| - 1];
      var k' := FrontierOnWalk(g, segs, forbidden, allowed, starts, distances, settled, Walk(w.origin, pre));
      assert w.steps[..k'] == pre[..k'];
      var u := EndOf(w.origin, pre);
      if k' < |pre| || u !in settled {
        k := k';
      } else {
        assert pre[..k'] == pre;
        assert RelaxedFrom(g, segs, forbidden, allowed, distances, u);
        assert Relaxed(distances, u, w.steps[|w.steps| - 1]);
        k := |w.steps|;
        assert w.steps[..k] == w.steps;
      }
    }
  }

  /** A subset has at most as many elements as its superset. */
  lemma {:induction false} SubsetCard(a: set<string>, b: set<string>)
    requires a <= b
    ensures |a| <= |b|
    decreases |b|
  {
    if a != {} {
      var x :| x in a;
      SubsetCard(a - {x}, b - {x});
    }
  }

  /** A subset as large as its superset is the superset. */
  lemma SubsetAsLarge(a: set<string>, b: set<string>)
    requires a <= b && |a| >= |b|
    ensures a == b
  {
    if a != b {
      var x :| x in b && x !in a;
      SubsetCard(a, b - {x});
    }
  }

  /** Once every target is settled, or nothing is queued, each target's record
      is at most the length of any usable walk from a start node to it; in
      particular a target left unreached has no such walk. */
  lemma TargetsShortest(g: map<string, seq<Edge>>, segs: seq<TaxiSegment>,
                        forbidden: set<string>, allowed: set<string>,
                        starts: seq<string>, targets: set<string>,
                        distances: map<string, Reach>, settled: set<string>, pq: seq<QEntry>)
    requires StartsAtZero(g, starts, distances)
    requires SettledRelaxed(g, segs, forbidden, allowed, distances, settled)
    requires PendingQueued(distances, settled, pq)
    requires SettledBelowQueue(distances, settled, pq)
    requires pq == [] || targets <= settled
    ensures forall t, w :: t in targets && Leads(g, segs, forbidden, allowed, starts, w, t) ==>
              t in distances && distances[t].Reached? && distances[t].dist <= Len(w.steps)
  {
    forall t, w | t in targets && Leads(g, segs, forbidden, allowed, starts, w, t)
      ensures t in distances && distances[t].Reached? && distances[t].dist <= Len(w.steps)
    {
      var k := FrontierOnWalk(g, segs, forbidden, allowed, starts, distances, settled, w);
      var y := EndOf(w.origin, w.steps[..k]);
      LenPrefix(w.steps, k);
      if y !in settled {
        assert Pending(distances, settled, y);
        var x := QEntry(distances[y].dist, y, distances[y].path);
        assert x in pq;
        var i :| 0 <= i < |pq| && pq[i] == x;
        assert t in settled;
      } else {
        assert w.steps[..k] == w.steps;
      }
    }
  }

  // ---------------------------------------------------------------------
  // The search

  /** All invariants of the search loop. */
  ghost predicate SearchInv(g: map<string, seq<Edge>>, segs: seq<TaxiSegment>,
                            forbidden: set<string>, allowed: set<string>, starts: seq<string>,
                            distances: map<string, Reach>, walks: map<string, Walk>,
                            pq: seq<QEntry>, pqWalks: seq<Walk>, settled: set<string>)
  {
    && distances.Keys == g.Keys
    && StartsAtZero(g, starts, distances)
    && WalksRecorded(g, segs, forbidden, allowed, starts, distances, walks)
    && QueueWalks(g, segs, forbidden, allowed, starts, pq, pqWalks)
    && QueueAbove(distances, pq)
    && PendingQueued(distances, settled, pq)
    && SettledBelowQueue(distances, settled, pq)
    && SettledRelaxed(g, segs, forbidden, allowed, distances, settled)
    && settled <= g.Keys
  }

  /** Removing an entry keeps every other entry with the walk beside it. */
  lemma PopQueueWalks(g: map<string, seq<Edge>>, segs: seq<TaxiSegment>,
                      forbidden: set<string>, allowed: set<string>, starts: seq<string>,
                      pq: seq<QEntry>, pqWalks: seq<Walk>, k: nat)
    requires QueueWalks(g, segs, forbidden, allowed, starts, pq, pqWalks)
    requires k < |pq|
    ensures QueueWalks(g, segs, forbidden, allowed, starts, RemoveAt(pq, k), RemoveAt(pqWalks, k))
  {
    var r, rw := RemoveAt(pq, k), RemoveAt(pqWalks, k);
    forall i | 0 <= i < |r|
      ensures Realises(g, segs, forbidden, allowed, starts, rw[i], r[i].node, r[i].dist, r[i].path)
    {
      var j := if i < k then i else i + 1;
      assert r[i] == pq[j] && rw[i] == pqWalks[j];
    }
  }

  /** Removing an entry keeps the entries above their records and the settled
      records below the entries. */
  lemma PopBounds(distances: map<string, Reach>, settled: set<string>, pq: seq<QEntry>, k: nat)
    requires QueueAbove(distances, pq)
    requires SettledBelowQueue(distances, settled, pq)
    requires k < |pq|
    ensures QueueAbove(distances, RemoveAt(pq, k))
    ensures SettledBelowQueue(distances, settled, RemoveAt(pq, k))
  {
    var r := RemoveAt(pq, k);
    forall i | 0 <= i < |r|
      ensures r[i] in pq
    {
      var j := if i < k then i else i + 1;
      assert r[i] == pq[j];
    }
  }

  /** The popped entry is the least: no entry is shorter. */
  lemma PopLeast(pq: seq<QEntry>, k: nat)
    requires k < |pq|
    requires forall j :: 0 <= j < |pq| ==> !EntryLess(pq[j], pq[k])
    ensures forall j :: 0 <= j < |RemoveAt(pq, k)| ==> pq[k].dist <= RemoveAt(pq, k)[j].dist
  {
    var r := RemoveAt(pq, k);
    forall i | 0 <= i < |r|
      ensures pq[k].dist <= r[i].dist
    {
      var j := if i < k then i else i + 1;
      assert r[i] == pq[j] && !EntryLess(pq[j], pq[k]);
    }
  }

  /** After removing the entry of node `cur`, every pending record other than
      `cur`'s is still queued; and `cur`, if not settled, was popped with its
      own record, which no queue entry can undercut. */
  lemma PopPending(distances: map<string, Reach>, settled: set<string>, pq: seq<QEntry>, k: nat)
    requires PendingQueued(distances, settled, pq)
    requires QueueAbove(distances, pq)
    requires k < |pq|
    requires forall j :: 0 <= j < |pq| ==> pq[k].dist <= pq[j].dist
    ensures pq[k].node in distances && distances[pq[k].node].Reached?
    ensures pq[k].node !in settled ==> distances[pq[k].node].dist == pq[k].dist
    ensures PendingQueued(distances, settled + {pq[k].node}, RemoveAt(pq, k))
  {
    var cur := pq[k].node;
    if cur !in settled {
      assert Pending(distances, settled, cur);
      var x := QEntry(distances[cur].dist, cur, distances[cur].path);
      var j :| 0 <= j < |pq| && pq[j] == x;
    }
    forall v | Pending(distances, settled + {cur}, v)
      ensures QEntry(distances[v].dist, v, distances[v].path) in RemoveAt(pq, k)
    {
      assert Pending(distances, settled, v);
      RemoveAtKeeps(pq, k, QEntry(distances[v].dist, v, distances[v].path));
    }
  }

  /** What holds while the entries of `current`, settled at distance `d`, are
      being relaxed: the search invariants, except that `current` itself is
      not yet known to be relaxed unless it had been settled before. */
  ghost predicate RelaxInv(g: map<string, seq<Edge>>, segs: seq<TaxiSegment>,
                           forbidden: set<string>, allowed: set<string>, starts: seq<string>,
                           distances: map<string, Reach>, walks: map<string, Walk>,
                           pq: seq<QEntry>, pqWalks: seq<Walk>, settled: set<string>,
                           current: string, d: nat, wasSettled: bool)
  {
    && distances.Keys == g.Keys
    && current in settled && settled <= g.Keys
    && distances[current].Reached? && distances[current].dist == d
    && StartsAtZero(g, starts, distances)
    && WalksRecorded(g, segs, forbidden, allowed, starts, distances, walks)
    && QueueWalks(g, segs, forbidden, allowed, starts, pq, pqWalks)
    && QueueAbove(distances, pq)
    && PendingQueued(distances, settled, pq)
    && (forall u :: u in settled ==> distances[u].Reached? && distances[u].dist <= d)
    && (forall i :: 0 <= i < |pq| ==> d <= pq[i].dist)
    && (forall u :: u in settled && (u != current || wasSettled) ==>
          RelaxedFrom(g, segs, forbidden, allowed, distances, u))
  }

  /** Recording a shorter distance `nd` for `v`, reached by the walk `nw`, and
      queueing it keeps the walks and the queue in step with the records. */
  lemma RecordKeepsWalks(g: map<string, seq<Edge>>, segs: seq<TaxiSegment>,
                         forbidden: set<string>, allowed: set<string>, starts: seq<string>,
                         distances: map<string, Reach>, walks: map<string, Walk>,
                         pq: seq<QEntry>, pqWalks: seq<Walk>,
                         v: string, nd: nat, np: seq<string>, nw: Walk)
    requires WalksRecorded(g, segs, forbidden, allowed, starts, distances, walks)
    requires QueueWalks(g, segs, forbidden, allowed, starts, pq, pqWalks)
    requires Realises(g, segs, forbidden, allowed, starts, nw, v, nd, np)
    ensures WalksRecorded(g, segs, forbidden, allowed, starts, distances[v := Reached(nd, np)], walks[v := nw])
    ensures QueueWalks(g, segs, forbidden, allowed, starts, pq + [QEntry(nd, v, np)], pqWalks + [nw])
  {
    var dist', walks' := distances[v := Reached(nd, np)], walks[v := nw];
    forall u | IsReached(dist', u)
      ensures u in walks' && Realises(g, segs, forbidden, allowed, starts, walks'[u], u, dist'[u].dist, dist'[u].path)
    {
      if u != v {
        assert IsReached(distances, u);
      }
    }
    var pq', pw' := pq + [QEntry(nd, v, np)], pqWalks + [nw];
    forall i | 0 <= i < |pq'|
      ensures Realises(g, segs, forbidden, allowed, starts, pw'[i], pq'[i].node, pq'[i].dist, pq'[i].path)
    {
      if i < |pq| {
        assert pq'[i] == pq[i] && pw'[i] == pqWalks[i];
      }
    }
  }

  /** Recording a shorter distance for a node that is not settled keeps the
      records and the queue ordered as the invariants demand. */
  lemma RecordKeepsOrder(g: map<string, seq<Edge>>, segs: seq<TaxiSegment>,
                         forbidden: set<string>, allowed: set<string>, starts: seq<string>,
                         distances: map<string, Reach>, pq: seq<QEntry>, settled: set<string>,
                         current: string, d: nat, wasSettled: bool,
                         v: string, nd: nat, np: seq<string>)
    requires v in distances && v !in settled && d <= nd
    requires distances[v].Unreached? || nd < distances[v].dist
    requires StartsAtZero(g, starts, distances)
    requires QueueAbove(distances, pq)
    requires PendingQueued(distances, settled, pq)
    requires forall i :: 0 <= i < |pq| ==> d <= pq[i].dist
    requires forall u :: u in settled && (u != current || wasSettled) ==>
               RelaxedFrom(g, segs, forbidden, allowed, distances, u)
    ensures StartsAtZero(g, starts, distances[v := Reached(nd, np)])
    ensures QueueAbove(distances[v := Reached(nd, np)], pq + [QEntry(nd, v, np)])
    ensures PendingQueued(distances[v := Reached(nd, np)], settled, pq + [QEntry(nd, v, np)])
    ensures forall i :: 0 <= i < |pq + [QEntry(nd, v, np)]| ==> d <= (pq + [QEntry(nd, v, np)])[i].dist
    ensures forall u :: u in settled && (u != current || wasSettled) ==>
              RelaxedFrom(g, segs, forbidden, allowed, distances[v := Reached(nd, np)], u)
  {
    var dist' := distances[v := Reached(nd, np)];
    var pq' := pq + [QEntry(nd, v, np)];
    forall i | 0 <= i < |pq'|
      ensures pq'[i].node in dist' && dist'[pq'[i].node].Reached? && dist'[pq'[i].node].dist <= pq'[i].dist
      ensures d <= pq'[i].dist
    {
      if i < |pq| {
        assert pq'[i] == pq[i];
      }
    }
    forall u | Pending(dist', settled, u)
      ensures QEntry(dist'[u].dist, u, dist'[u].path) in pq'
    {
      if u != v {
        assert Pending(distances, settled, u);
        assert QEntry(distances[u].dist, u, distances[u].path) in pq;
      }
    }
    forall u | u in settled && (u != current || wasSettled)
      ensures RelaxedFrom(g, segs, forbidden, allowed, dist', u)
    {
      assert RelaxedFrom(g, segs, forbidden, allowed, distances, u);
      forall e | e in g[u] && Usable(segs, forbidden, allowed, e)
        ensures Relaxed(dist', u, e)
      {
        assert Relaxed(distances, u, e);
      }
    }
  }

  /** One relaxation that improves the record of `e.next`: recording it and
      queueing it keeps the invariant, and it cannot happen to a settled node
      or when `current` had already been relaxed. */
  lemma RelaxStep(g: map<string, seq<Edge>>, segs: seq<TaxiSegment>,
                  forbidden: set<string>, allowed: set<string>, starts: seq<string>,
                  distances: map<string, Reach>, walks: map<string, Walk>,
                  pq: seq<QEntry>, pqWalks: seq<Walk>, settled: set<string>,
                  current: string, d: nat, wasSettled: bool,
                  ew: Walk, path: seq<string>, e: Edge)
    requires Closed(g, segs)
    requires Realises(g, segs, forbidden, allowed, starts, ew, current, d, path)
    requires RelaxInv(g, segs, forbidden, allowed, starts, distances, walks, pq, pqWalks, settled,
                      current, d, wasSettled)
    requires e in g[current] && Usable(segs, forbidden, allowed, e)
    requires distances[e.next].Unreached? || d + e.length < distances[e.next].dist
    requires wasSettled ==> Relaxed(distances, current, e)
    ensures !wasSettled
    ensures RelaxInv(g, segs, forbidden, allowed, starts,
                     distances[e.next := Reached(d + e.length, path + [e.segmentId])],
                     walks[e.next := Walk(ew.origin, ew.steps + [e])],
                     pq + [QEntry(d + e.length, e.next, path + [e.segmentId])],
                     pqWalks + [Walk(ew.origin, ew.steps + [e])],
                     settled, current, d, wasSettled)
  {
    WalkAppend(g, segs, forbidden, allowed, ew.origin, ew.steps, e);
    var nw := Walk(ew.origin, ew.steps + [e]);
    RecordKeepsWalks(g, segs, forbidden, allowed, starts, distances, walks, pq, pqWalks,
                     e.next, d + e.length, path + [e.segmentId], nw);
    RecordKeepsOrder(g, segs, forbidden, allowed, starts, distances, pq, settled,
                     current, d, wasSettled, e.next, d + e.length, path + [e.segmentId]);
  }

  /** One pass of the loop over `graph[current]`: when the entry `e` is usable
      and improves the record of its node, record and queue the improvement.
      Records only ever improve. */
  method RelaxEntry(g: map<string, seq<Edge>>, segs: seq<TaxiSegment>,
                    forbidden: set<string>, allowed: set<string>, starts: seq<string>,
                    distances: map<string, Reach>, pq: seq<QEntry>,
                    current: string, d: nat, path: seq<string>, e: Edge,
                    ghost ew: Walk, ghost walks: map<string, Walk>, ghost pqWalks: seq<Walk>,
                    ghost settled: set<string>, ghost wasSettled: bool)
    returns (distances': map<string, Reach>, pq': seq<QEntry>,
             ghost walks': map<string, Walk>, ghost pqWalks': seq<Walk>)
    requires Closed(g, segs)
    requires Realises(g, segs, forbidden, allowed, starts, ew, current, d, path)
    requires RelaxInv(g, segs, forbidden, allowed, starts, distances, walks, pq, pqWalks, settled,
                      current, d, wasSettled)
    requires e in g[current]
    ensures RelaxInv(g, segs, forbidden, allowed, starts, distances', walks', pq', pqWalks', settled,
                     current, d, wasSettled)
    ensures Usable(segs, forbidden, allowed, e) ==> Relaxed(distances', current, e)
    ensures forall v :: IsReached(distances, v) ==>
              IsReached(distances', v) && distances'[v].dist <= distances[v].dist
    ensures wasSettled ==> pq' == pq
  {
    distances', pq', walks', pqWalks' := distances, pq, walks, pqWalks;
    assert wasSettled && Usable(segs, forbidden, allowed, e) ==> Relaxed(distances, current, e) by {
      if wasSettled && Usable(segs, forbidden, allowed, e) {
        assert RelaxedFrom(g, segs, forbidden, allowed, distances, current);
      }
    }
    if e.segmentId !in forbidden {
      var segment := SegmentById(segs, e.segmentId);
      if !(allowed != {} && segment.value.name !in allowed) {
        var newDist := d + e.length;
        var newPath := path + [e.segmentId];
        if distances[e.next].Unreached? || newDist < distances[e.next].dist {
          RelaxStep(g, segs, forbidden, allowed, starts, distances, walks, pq, pqWalks, settled,
                    current, d, wasSettled, ew, path, e);
          ghost var nw := Walk(ew.origin, ew.steps + [e]);
          distances' := distances[e.next := Reached(newDist, newPath)];
          pq' := pq + [QEntry(newDist, e.next, newPath)];
          walks' := walks[e.next := nw];
          pqWalks' := pqWalks + [nw];
        }
      }
    }
  }

  /** The loop over `graph[current]`: relax every usable entry of the node just
      settled at distance `d`, recording improved distances and queueing them. */
  method RelaxEdges(g: map<string, seq<Edge>>, segs: seq<TaxiSegment>,
                    forbidden: set<string>, allowed: set<string>, starts: seq<string>,
                    distances: map<string, Reach>, pq: seq<QEntry>,
                    current: string, d: nat, path: seq<string>,
                    ghost ew: Walk, ghost walks: map<string, Walk>, ghost pqWalks: seq<Walk>,
                    ghost settled: set<string>, ghost wasSettled: bool)
    returns (distances': map<string, Reach>, pq': seq<QEntry>,
             ghost walks': map<string, Walk>, ghost pqWalks': seq<Walk>)
    requires Closed(g, segs)
    requires Realises(g, segs, forbidden, allowed, starts, ew, current, d, path)
    requires RelaxInv(g, segs, forbidden, allowed, starts, distances, walks, pq, pqWalks, settled,
                      current, d, wasSettled)
    ensures SearchInv(g, segs, forbidden, allowed, starts, distances', walks', pq', pqWalks', settled)
    ensures wasSettled ==> pq' == pq
  {
    distances', pq', walks', pqWalks' := distances, pq, walks, pqWalks;
    var adj := g[current];
    var j := 0;
    while j < |adj|
      invariant 0 <= j <= |adj|
      invariant RelaxInv(g, segs, forbidden, allowed, starts, distances', walks', pq', pqWalks', settled,
                         current, d, wasSettled)
      invariant forall k :: 0 <= k < j && Usable(segs, forbidden, allowed, adj[k]) ==>
                  Relaxed(distances', current, adj[k])
      invariant wasSettled ==> pq' == pq
    {
      ghost var before := distances';
      distances', pq', walks', pqWalks' :=
        RelaxEntry(g, segs, forbidden, allowed, starts, distances', pq', current, d, path, adj[j],
                   ew, walks', pqWalks', settled, wasSettled);
      forall k | 0 <= k < j && Usable(segs, forbidden, allowed, adj[k])
        ensures Relaxed(distances', current, adj[k])
      {
        assert Relaxed(before, current, adj[k]);
      }
      j := j + 1;
    }
    forall e | e in adj && Usable(segs, forbidden, allowed, e)
      ensures Relaxed(distances', current, e)
    {
      var k :| 0 <= k < |adj| && adj[k] == e;
    }
    RelaxDone(g, segs, forbidden, allowed, starts, distances', walks', pq', pqWalks', settled, current, d, wasSettled);
  }

  /** Once every usable entry of the settled node has been relaxed, the
      search invariants hold again. */
  lemma RelaxDone(g: map<string, seq<Edge>>, segs: seq<TaxiSegment>,
                  forbidden: set<string>, allowed: set<string>, starts: seq<string>,
                  distances: map<string, Reach>, walks: map<string, Walk>,
                  pq: seq<QEntry>, pqWalks: seq<Walk>, settled: set<string>,
                  current: string, d: nat, wasSettled: bool)
    requires RelaxInv(g, segs, forbidden, allowed, starts, distances, walks, pq, pqWalks, settled,
                      current, d, wasSettled)
    requires forall e :: e in g[current] && Usable(segs, forbidden, allowed, e) ==> Relaxed(distances, current, e)
    ensures SearchInv(g, segs, forbidden, allowed, starts, distances, walks, pq, pqWalks, settled)
  {
    assert RelaxedFrom(g, segs, forbidden, allowed, distances, current);
  }

  /** Popping a stale entry, one whose distance is above its node's record,
      keeps the search invariants: its node is settled already. */
  lemma PopStale(g: map<string, seq<Edge>>, segs: seq<TaxiSegment>,
                 forbidden: set<string>, allowed: set<string>, starts: seq<string>,
                 distances: map<string, Reach>, walks: map<string, Walk>,
                 pq: seq<QEntry>, pqWalks: seq<Walk>, settled: set<string>, k: nat)
    requires SearchInv(g, segs, forbidden, allowed, starts, distances, walks, pq, pqWalks, settled)
    requires k < |pq| && forall j :: 0 <= j < |pq| ==> !EntryLess(pq[j], pq[k])
    requires pq[k].node in distances && distances[pq[k].node].Reached?
    requires pq[k].dist > distances[pq[k].node].dist
    ensures pq[k].node in settled
    ensures SearchInv(g, segs, forbidden, allowed, starts, distances, walks,
                      RemoveAt(pq, k), RemoveAt(pqWalks, k), settled)
  {
    PopQueueWalks(g, segs, forbidden, allowed, starts, pq, pqWalks, k);
    PopBounds(distances, settled, pq, k);
    PopLeast(pq, k);
    PopPending(distances, settled, pq, k);
    assert settled + {pq[k].node} == settled;
  }

  /** Popping an entry that carries its node's record settles the node: the
      state is then the one the relaxation of its entries starts from. */
  lemma PopSettle(g: map<string, seq<Edge>>, segs: seq<TaxiSegment>,
                  forbidden: set<string>, allowed: set<string>, starts: seq<string>,
                  distances: map<string, Reach>, walks: map<string, Walk>,
                  pq: seq<QEntry>, pqWalks: seq<Walk>, settled: set<string>, k: nat)
    requires SearchInv(g, segs, forbidden, allowed, starts, distances, walks, pq, pqWalks, settled)
    requires k < |pq| && forall j :: 0 <= j < |pq| ==> !EntryLess(pq[j], pq[k])
    requires pq[k].node in distances && distances[pq[k].node].Reached?
    requires pq[k].dist <= distances[pq[k].node].dist
    ensures |pqWalks| == |pq|
    ensures Realises(g, segs, forbidden, allowed, starts, pqWalks[k], pq[k].node, pq[k].dist, pq[k].path)
    ensures RelaxInv(g, segs, forbidden, allowed, starts, distances, walks,
                     RemoveAt(pq, k), RemoveAt(pqWalks, k), settled + {pq[k].node},
                     pq[k].node, pq[k].dist, pq[k].node in settled)
  {
    PopQueueWalks(g, segs, forbidden, allowed, starts, pq, pqWalks, k);
    PopBounds(distances, settled, pq, k);
    PopLeast(pq, k);
    PopPending(distances, settled, pq, k);
    assert SettledWithin(distances, settled, pq[k].dist);
  }

  /** The state after the start nodes are recorded and queued satisfies the
      search invariants, with nothing settled yet. */
  lemma SearchStart(g: map<string, seq<Edge>>, segs: seq<TaxiSegment>,
                    forbidden: set<string>, allowed: set<string>, starts: seq<string>,
                    distances: map<string, Reach>, walks: map<string, Walk>,
                    pq: seq<QEntry>, pqWalks: seq<Walk>)
    requires distances.Keys == g.Keys
    requires forall v :: v in distances ==>
               distances[v] == (if v in starts then Reached(0, []) else Unreached)
    requires forall v :: v in distances && v in starts ==> v in walks && walks[v] == Walk(v, [])
    requires |pqWalks| == |pq|
    requires forall k :: 0 <= k < |pq| ==>
               pq[k] == QEntry(0, pq[k].node, []) && pq[k].node in starts && pq[k].node in g &&
               pqWalks[k] == Walk(pq[k].node, [])
    requires forall s :: s in starts && s in g ==> QEntry(0, s, []) in pq
    ensures SearchInv(g, segs, forbidden, allowed, starts, distances, walks, pq, pqWalks, {})
  {
    assert Ids([]) == [];
    forall v | IsReached(distances, v)
      ensures v in walks && Realises(g, segs, forbidden, allowed, starts, walks[v], v, distances[v].dist, distances[v].path)
    {
    }
    forall v | Pending(distances, {}, v)
      ensures QEntry(distances[v].dist, v, distances[v].path) in pq
    {
    }
  }

  /** The first part of `dijkstra_multi_target`: every node starts unreached,
      then each start node in the graph is recorded at distance 0 and pushed. */
  method StartSearch(g: map<string, seq<Edge>>, segs: seq<TaxiSegment>,
                     forbidden: set<string>, allowed: set<string>, starts: seq<string>)
    returns (distances: map<string, Reach>, pq: seq<QEntry>,
             ghost walks: map<string, Walk>, ghost pqWalks: seq<Walk>)
    ensures SearchInv(g, segs, forbidden, allowed, starts, distances, walks, pq, pqWalks, {})
    ensures forall v :: v in distances ==>
              distances[v] == (if v in starts then Reached(0, []) else Unreached)
    ensures forall k :: 0 <= k < |pq| ==> pq[k] == QEntry(0, pq[k].node, []) && pq[k].node in starts
  {
    distances := map v | v in g :: Unreached;
    walks := map[];
    var i := 0;
    while i < |starts|
      invariant 0 <= i <= |starts|
      invariant distances.Keys == g.Keys
      invariant forall v :: v in distances ==>
                  distances[v] == (if v in starts[..i] then Reached(0, []) else Unreached)
      invariant forall v :: v in distances && v in starts[..i] ==> v in walks && walks[v] == Walk(v, [])
    {
      if starts[i] in g {
        distances := distances[starts[i] := Reached(0, [])];
        walks := walks[starts[i] := Walk(starts[i], [])];
      }
      assert starts[..i + 1] == starts[..i] + [starts[i]];
      i := i + 1;
    }
    assert starts[..i] == starts;

    pq := [];
    pqWalks := [];
    i := 0;
    while i < |starts|
      invariant 0 <= i <= |starts|
      invariant |pqWalks| == |pq|
      invariant forall k :: 0 <= k < |pq| ==>
                  pq[k] == QEntry(0, pq[k].node, []) && pq[k].node in starts && pq[k].node in g &&
                  pqWalks[k] == Walk(pq[k].node, [])
      invariant forall s :: s in starts[..i] && s in g ==> QEntry(0, s, []) in pq
    {
      if starts[i] in g {
        pq := pq + [QEntry(0, starts[i], [])];
        pqWalks := pqWalks + [Walk(starts[i], [])];
      }
      assert starts[..i + 1] == starts[..i] + [starts[i]];
      i := i + 1;
    }
    assert starts[..i] == starts;
    SearchStart(g, segs, forbidden, allowed, starts, distances, walks, pq, pqWalks);
  }

  /** Settling a node that was not settled brings the search closer to its end. */
  lemma SettleShrinks(keys: set<string>, settled: set<string>, x: string)
    requires x in keys && x !in settled
    ensures |keys - (settled + {x})| < |keys - settled|
  {
    assert keys - (settled + {x}) == (keys - settled) - {x};
  }

  /** One pass of the `while pq` loop of `dijkstra_multi_target`: pop the least
      entry, note it when it is a target, skip it when it is stale, and
      otherwise relax the entries of its node. */
  method SearchStep(g: map<string, seq<Edge>>, segs: seq<TaxiSegment>,
                    starts: seq<string>, targets: set<string>,
                    forbidden: set<string>, allowed: set<string>,
                    distances: map<string, Reach>, pq: seq<QEntry>, found: set<string>,
                    ghost walks: map<string, Walk>, ghost pqWalks: seq<Walk>, ghost settled: set<string>)
    returns (distances': map<string, Reach>, pq': seq<QEntry>, found': set<string>,
             ghost walks': map<string, Walk>, ghost pqWalks': seq<Walk>, ghost settled': set<string>)
    requires Closed(g, segs) && pq != []
    requires SearchInv(g, segs, forbidden, allowed, starts, distances, walks, pq, pqWalks, settled)
    requires found <= targets && found <= settled
    ensures SearchInv(g, segs, forbidden, allowed, starts, distances', walks', pq', pqWalks', settled')
    ensures found' <= targets && found' <= settled'
    ensures |g.Keys - settled'| < |g.Keys - settled| ||
            (|g.Keys - settled'| == |g.Keys - settled| && |pq'| < |pq|)
  {
    var k := PopMin(pq);
    var entry := pq[k];
    pq' := RemoveAt(pq, k);
    pqWalks' := RemoveAt(pqWalks, k);
    var current := entry.node;
    var d := entry.dist;

    found' := found;
    if current in targets {
      found' := found' + {current};
    }

    if d > distances[current].dist {
      PopStale(g, segs, forbidden, allowed, starts, distances, walks, pq, pqWalks, settled, k);
      distances', walks', settled' := distances, walks, settled;
      return;
    }

    PopSettle(g, segs, forbidden, allowed, starts, distances, walks, pq, pqWalks, settled, k);
    ghost var wasSettled := current in settled;
    if !wasSettled {
      SettleShrinks(g.Keys, settled, current);
    } else {
      assert settled + {current} == settled;
    }
    settled' := settled + {current};
    distances', pq', walks', pqWalks' :=
      RelaxEdges(g, segs, forbidden, allowed, starts, distances, pq', current, d, entry.path,
                 pqWalks[k], walks, pqWalks', settled', wasSettled);
  }

  /** `dijkstra_multi_target(start_nodes, target_nodes, forbidden_segments,
      allowed_segment_names)`; an empty `allowed` means no name restriction,
      as `None` and the empty set both do in the source. */
  method DijkstraMultiTarget(g: map<string, seq<Edge>>, segs: seq<TaxiSegment>,
                             starts: seq<string>, targets: set<string>,
                             forbidden: set<string>, allowed: set<string>)
    returns (distances: map<string, Reach>)
    requires Closed(g, segs)
    ensures distances.Keys == g.Keys
    ensures forall s :: s in starts && s in g ==> distances[s] == Reached(0, [])
    ensures forall v :: v in distances && distances[v].Reached? ==>
              exists w :: Realises(g, segs, forbidden, allowed, starts, w, v, distances[v].dist, distances[v].path)
    ensures forall t, w :: t in targets && Leads(g, segs, forbidden, allowed, starts, w, t) ==>
              t in distances && distances[t].Reached? && distances[t].dist <= Len(w.steps)
  {
    var pq;
    ghost var walks, pqWalks;
    distances, pq, walks, pqWalks := StartSearch(g, segs, forbidden, allowed, starts);
    var found: set<string> := {};
    ghost var settled: set<string> := {};

    while pq != [] && |found| < |targets|
      invariant SearchInv(g, segs, forbidden, allowed, starts, distances, walks, pq, pqWalks, settled)
      invariant found <= targets && found <= settled
      decreases |g.Keys - settled|, |pq|
    {
      distances, pq, found, walks, pqWalks, settled :=
        SearchStep(g, segs, starts, targets, forbidden, allowed, distances, pq, found, walks, pqWalks, settled);
    }
    if pq != [] {
      SubsetAsLarge(found, targets);
    }
    TargetsShortest(g, segs, forbidden, allowed, starts, targets, distances, settled, pq);
    forall v | v in distances && distances[v].Reached?
      ensures exists w :: Realises(g, segs, forbidden, allowed, starts, w, v, distances[v].dist, distances[v].path)
    {
      assert IsReached(distances, v);
      assert Realises(g, segs, forbidden, allowed, starts, walks[v], v, distances[v].dist, distances[v].path);
    }
  }
}
