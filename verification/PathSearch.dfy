/** faim_native/api/fig_graph_core.py: the bounded breadth-first path explanation. */
module PathSearch {
  import opened Options
  import opened Ordering

  type NodeId = int

  datatype Edge = Edge(tenant: string, graph: string, src: NodeId, dst: NodeId, kind: string)

  datatype Path = NoPath | Path(nodes: seq<NodeId>, edges: seq<Edge>)

  /** The edge table in the query's order, and what one search may see of it. */
  datatype Scope = Scope(table: seq<Edge>, tenant: string, graph: string, allowed: set<string>) {

    predicate Usable(e: Edge) {
      e in table && e.tenant == tenant && e.graph == graph && e.kind in allowed
    }

    /** `_incident_edges_query(..., [u], allowed).all()` */
    function Incident(u: NodeId): (r: seq<Edge>)
      ensures forall e :: e in r <==>
                && e in table && e.tenant == tenant && e.graph == graph && e.kind in allowed
                && (e.src == u || e.dst == u)
    {
      if allowed == {} then []
      else
        Filter((e: Edge) => e.tenant == tenant && e.graph == graph && e.kind in allowed && (e.src == u || e.dst == u),
               table)
    }

    ghost function Endpoints(): set<NodeId> {
      (set e | e in table :: e.src) + (set e | e in table :: e.dst)
    }
  }

  function OtherNode(e: Edge, u: NodeId): (v: Option<NodeId>)
    ensures forall w :: v == Some(w) <==> Joins(e, u, w)
  {
    if e.src == u then Some(e.dst) else if e.dst == u then Some(e.src) else None
  }

  predicate Joins(e: Edge, u: NodeId, v: NodeId) {
    (e.src == u && e.dst == v) || (e.dst == u && e.src == v)
  }

  /** A walk through usable edges, each taken in either direction. */
  ghost predicate Walk(sc: Scope, nodes: seq<NodeId>, edges: seq<Edge>) {
    && |nodes| == |edges| + 1
    && forall i | 0 <= i < |edges| ::
         && edges[i] in sc.table && edges[i].tenant == sc.tenant && edges[i].graph == sc.graph
         && edges[i].kind in sc.allowed
         && Joins(edges[i], nodes[i], nodes[i + 1])
  }

  ghost predicate Connects(sc: Scope, start: NodeId, goal: NodeId, nodes: seq<NodeId>, edges: seq<Edge>) {
    Walk(sc, nodes, edges) && nodes[0] == start && nodes[|edges|] == goal
  }

  /** The three dictionaries agree: every discovered node hangs below its predecessor. */
  ghost predicate BackPointers(sc: Scope, start: NodeId, prevNode: map<NodeId, Option<NodeId>>,
                               prevEdge: map<NodeId, Option<Edge>>, depth: map<NodeId, nat>) {
    && prevNode.Keys == prevEdge.Keys == depth.Keys
    && start in depth && depth[start] == 0 && prevNode[start] == None && prevEdge[start] == None
    && forall v | v in depth && v != start ::
         && prevNode[v].Some? && prevEdge[v].Some?
         && prevNode[v].value in depth && depth[v] == depth[prevNode[v].value] + 1
         && sc.Usable(prevEdge[v].value) && Joins(prevEdge[v].value, prevNode[v].value, v)
  }

  /** All neighbours of v are discovered, at most one level further out. */
  ghost predicate Expanded(sc: Scope, depth: map<NodeId, nat>, v: NodeId)
    requires v in depth
  {
    forall e, w :: sc.Usable(e) && Joins(e, v, w) ==> w in depth && depth[w] <= depth[v] + 1
  }

  ghost predicate ExpandedBelow(sc: Scope, depth: map<NodeId, nat>, bound: int) {
    forall v | v in depth && depth[v] < bound :: Expanded(sc, depth, v)
  }

  /** The queue holds discovered nodes by level, and nothing lies more than one level
      beyond any of them. */
  ghost predicate Levelled(depth: map<NodeId, nat>, q: seq<NodeId>) {
    && (forall x | x in q :: x in depth)
    && (forall i, j | 0 <= i < j < |q| :: depth[q[i]] <= depth[q[j]])
    && (forall x, v | x in q && v in depth :: depth[v] <= depth[x] + 1)
  }

  /** While a node of level d is expanded, the queue is at its level or the next, and
      nothing lies beyond the next. */
  ghost predicate Between(depth: map<NodeId, nat>, q: seq<NodeId>, d: nat) {
    && (forall x | x in q :: x in depth && depth[x] >= d)
    && (forall v | v in depth :: depth[v] <= d + 1)
  }

  /** Discovered nodes outside the queue have been expanded, unless they are too deep
      or the one being expanded now. */
  ghost predicate Settled(sc: Scope, depth: map<NodeId, nat>, q: seq<NodeId>, maxHops: int, except: set<NodeId>) {
    forall v | v in depth && v !in q && v !in except && depth[v] < maxHops :: Expanded(sc, depth, v)
  }

  /** A walk cannot outrun the levels while everything below the bound is expanded. */
  lemma {:induction false} WalkStaysWithin(sc: Scope, depth: map<NodeId, nat>, start: NodeId, bound: int,
                                           nodes: seq<NodeId>, edges: seq<Edge>, i: nat)
    requires ExpandedBelow(sc, depth, bound) && start in depth && depth[start] == 0
    requires Walk(sc, nodes, edges) && nodes[0] == start && i <= |edges| && i <= bound
    ensures nodes[i] in depth && depth[nodes[i]] <= i
  {
    if i > 0 {
      WalkStaysWithin(sc, depth, start, bound, nodes, edges, i - 1);
      assert Expanded(sc, depth, nodes[i - 1]);
      assert sc.Usable(edges[i - 1]) && Joins(edges[i - 1], nodes[i - 1], nodes[i]);
    }
  }

  /** While the goal is undiscovered, every walk to it is longer than the expanded levels. */
  lemma UndiscoveredIsFar(sc: Scope, depth: map<NodeId, nat>, start: NodeId, goal: NodeId, bound: int)
    requires ExpandedBelow(sc, depth, bound) && start in depth && depth[start] == 0 && goal !in depth
    ensures forall nodes, edges :: Connects(sc, start, goal, nodes, edges) ==> |edges| > bound
  {
    forall nodes, edges | Connects(sc, start, goal, nodes, edges) ensures |edges| > bound {
      if |edges| <= bound { WalkStaysWithin(sc, depth, start, bound, nodes, edges, |edges|); }
    }
  }

  function Reverse<T>(s: seq<T>): (r: seq<T>)
    ensures |r| == |s| && forall i | 0 <= i < |s| :: r[i] == s[|s| - 1 - i]
  {
    seq(|s|, i requires 0 <= i < |s| => s[|s| - 1 - i])
  }

  lemma WalkPrepend(sc: Scope, u: NodeId, e: Edge, nodes: seq<NodeId>, edges: seq<Edge>)
    requires Walk(sc, nodes, edges) && sc.Usable(e) && Joins(e, u, nodes[0])
    ensures Walk(sc, [u] + nodes, [e] + edges)
  {
    forall i | 0 <= i < |edges| + 1
      ensures sc.Usable(([e] + edges)[i]) && Joins(([e] + edges)[i], ([u] + nodes)[i], ([u] + nodes)[i + 1])
    {
      if i > 0 { assert sc.Usable(edges[i - 1]) && Joins(edges[i - 1], nodes[i - 1], nodes[i]); }
    }
  }

  /** Following the back-pointers from the goal gives a walk as long as the goal's level. */
  method Reconstruct(ghost sc: Scope, ghost start: NodeId, goal: NodeId, prevNode: map<NodeId, Option<NodeId>>,
                     prevEdge: map<NodeId, Option<Edge>>, ghost depth: map<NodeId, nat>)
    returns (nodes: seq<NodeId>, edges: seq<Edge>)
    requires BackPointers(sc, start, prevNode, prevEdge, depth) && goal in depth
    ensures Connects(sc, start, goal, nodes, edges) && |edges| == depth[goal]
  {
    var nodesRev: seq<NodeId>, edgesRev: seq<Edge> := [], [];
    var cur: Option<NodeId> := Some(goal);
    while cur.Some?
      invariant cur.Some? ==> cur.value in depth && |edgesRev| + depth[cur.value] == depth[goal]
      invariant cur.Some? && nodesRev == [] ==> cur.value == goal && edgesRev == []
      invariant nodesRev != [] ==> nodesRev[0] == goal
      invariant cur.Some? && nodesRev != [] ==> Walk(sc, [cur.value] + Reverse(nodesRev), Reverse(edgesRev))
      invariant cur.None? ==> Connects(sc, start, goal, Reverse(nodesRev), Reverse(edgesRev))
      invariant cur.None? ==> |edgesRev| == depth[goal]
      decreases if cur.Some? then depth[cur.value] + 1 else 0
    {
      var c := cur.value;
      ghost var ahead, taken := [c] + Reverse(nodesRev), Reverse(edgesRev);
      assert Walk(sc, ahead, taken);
      nodesRev := nodesRev + [c];
      assert Reverse(nodesRev) == ahead;
      var parent := prevNode[c];
      var e := prevEdge[c];
      if parent.Some? && e.Some? {
        edgesRev := edgesRev + [e.value];
        assert Reverse(edgesRev) == [e.value] + taken;
        WalkPrepend(sc, parent.value, e.value, ahead, taken);
      }
      cur := parent;
    }
    nodes, edges := Reverse(nodesRev), Reverse(edgesRev);
  }

  /** The neighbours over these edges are discovered, at most one level further out. */
  ghost predicate Covered(depth: map<NodeId, nat>, u: NodeId, edges: seq<Edge>)
    requires u in depth
  {
    forall e, w :: e in edges && Joins(e, u, w) ==> w in depth && depth[w] <= depth[u] + 1
  }

  /** What holds whenever the outer loop looks at the queue. */
  ghost predicate Searching(sc: Scope, start: NodeId, goal: NodeId, maxHops: int, q: seq<NodeId>,
                            prevNode: map<NodeId, Option<NodeId>>, prevEdge: map<NodeId, Option<Edge>>,
                            depth: map<NodeId, nat>) {
    && BackPointers(sc, start, prevNode, prevEdge, depth) && goal !in depth
    && Levelled(depth, q) && Settled(sc, depth, q, maxHops, {})
    && depth.Keys <= {start} + sc.Endpoints()
  }

  /** What holds while u is being expanded and the edges in `done` have been looked at. */
  ghost predicate Expanding(sc: Scope, start: NodeId, goal: NodeId, maxHops: int, q: seq<NodeId>,
                            prevNode: map<NodeId, Option<NodeId>>, prevEdge: map<NodeId, Option<Edge>>,
                            depth: map<NodeId, nat>, u: NodeId, done: seq<Edge>) {
    && BackPointers(sc, start, prevNode, prevEdge, depth) && goal !in depth
    && u in depth && depth[u] < maxHops
    && Levelled(depth, q) && Settled(sc, depth, q, maxHops, {u})
    && Between(depth, q, depth[u]) && Covered(depth, u, done)
    && depth.Keys <= {start} + sc.Endpoints()
  }

  lemma Passed(depth: map<NodeId, nat>, q: seq<NodeId>, u: NodeId, done: seq<Edge>, e: Edge)
    requires u in depth && Between(depth, q, depth[u]) && Covered(depth, u, done)
    requires OtherNode(e, u).Some? ==> OtherNode(e, u).value in depth
    ensures Covered(depth, u, done + [e])
  {
    forall w | Joins(e, u, w) ensures w in depth && depth[w] <= depth[u] + 1 {
      assert OtherNode(e, u) == Some(w);
    }
  }

  lemma DiscoveryCovers(depth: map<NodeId, nat>, u: NodeId, edges: seq<Edge>, e: Edge, v: NodeId)
    requires u in depth && v !in depth && Covered(depth, u, edges) && OtherNode(e, u) == Some(v)
    ensures Covered(depth[v := depth[u] + 1], u, edges + [e])
  {}

  lemma DiscoveryLinks(sc: Scope, start: NodeId, prevNode: map<NodeId, Option<NodeId>>,
                       prevEdge: map<NodeId, Option<Edge>>, depth: map<NodeId, nat>, u: NodeId, e: Edge, v: NodeId)
    requires BackPointers(sc, start, prevNode, prevEdge, depth)
    requires u in depth && v !in depth && sc.Usable(e) && Joins(e, u, v)
    ensures BackPointers(sc, start, prevNode[v := Some(u)], prevEdge[v := Some(e)], depth[v := depth[u] + 1])
    ensures v in sc.Endpoints()
  {}

  /** Discovering v below u keeps what was expanded expanded; with the queue at u's level
      or the next, everything above u's level already was. */
  lemma DiscoverySettles(sc: Scope, depth: map<NodeId, nat>, q: seq<NodeId>, maxHops: int, u: NodeId, v: NodeId)
    requires u in depth && v !in depth && depth[u] < maxHops
    requires Levelled(depth, q) && Settled(sc, depth, q, maxHops, {u})
    requires Between(depth, q, depth[u])
    ensures ExpandedBelow(sc, depth, depth[u])
    ensures Between(depth[v := depth[u] + 1], q + [v], depth[u])
    ensures var depth' := depth[v := depth[u] + 1];
            Levelled(depth', q + [v]) && Settled(sc, depth', q + [v], maxHops, {u})
  {
    var depth', q' := depth[v := depth[u] + 1], q + [v];
    assert forall i | 0 <= i < |q| :: q[i] in q && q'[i] == q[i];
    forall x | x in depth' && x !in q' && x != u && depth'[x] < maxHops ensures Expanded(sc, depth', x) {
      assert v in q' && forall y :: y in q ==> y in q';
      assert Expanded(sc, depth, x);
    }
  }

  lemma Discovery(sc: Scope, start: NodeId, goal: NodeId, maxHops: int, q: seq<NodeId>,
                  prevNode: map<NodeId, Option<NodeId>>, prevEdge: map<NodeId, Option<Edge>>,
                  depth: map<NodeId, nat>, u: NodeId, done: seq<Edge>, e: Edge, v: NodeId)
    requires Expanding(sc, start, goal, maxHops, q, prevNode, prevEdge, depth, u, done)
    requires sc.Usable(e) && OtherNode(e, u) == Some(v) && v !in depth
    ensures var pn, pe, d := prevNode[v := Some(u)], prevEdge[v := Some(e)], depth[v := depth[u] + 1];
            && BackPointers(sc, start, pn, pe, d)
            && (v == goal || Expanding(sc, start, goal, maxHops, q + [v], pn, pe, d, u, done + [e]))
    ensures v == goal ==> forall nodes, edges :: Connects(sc, start, goal, nodes, edges) ==> |edges| > depth[u]
  {
    DiscoveryLinks(sc, start, prevNode, prevEdge, depth, u, e, v);
    DiscoverySettles(sc, depth, q, maxHops, u, v);
    DiscoveryCovers(depth, u, done, e, v);
    UndiscoveredIsFar(sc, depth, start, goal, depth[u]);
  }

  lemma StartExpanding(sc: Scope, start: NodeId, goal: NodeId, maxHops: int, q: seq<NodeId>,
                       prevNode: map<NodeId, Option<NodeId>>, prevEdge: map<NodeId, Option<Edge>>,
                       depth: map<NodeId, nat>)
    requires q != [] && Searching(sc, start, goal, maxHops, q, prevNode, prevEdge, depth)
    ensures q[0] in depth
    ensures depth[q[0]] < maxHops ==>
              Expanding(sc, start, goal, maxHops, q[1..], prevNode, prevEdge, depth, q[0], [])
    ensures depth[q[0]] >= maxHops ==> Searching(sc, start, goal, maxHops, q[1..], prevNode, prevEdge, depth)
  {
    assert q == [q[0]] + q[1..];
    assert q[0] in q && forall x :: x in q <==> x == q[0] || x in q[1..];
  }

  lemma FinishExpanding(sc: Scope, start: NodeId, goal: NodeId, maxHops: int, q: seq<NodeId>,
                        prevNode: map<NodeId, Option<NodeId>>, prevEdge: map<NodeId, Option<Edge>>,
                        depth: map<NodeId, nat>, u: NodeId)
    requires Expanding(sc, start, goal, maxHops, q, prevNode, prevEdge, depth, u, sc.Incident(u))
    ensures Searching(sc, start, goal, maxHops, q, prevNode, prevEdge, depth)
  {
    assert Expanded(sc, depth, u);
  }

  /** The inner loop: discovers the new neighbours of u, stopping as soon as one is the goal. */
  method ExpandNode(sc: Scope, ghost start: NodeId, goal: NodeId, ghost maxHops: int, u: NodeId, q0: seq<NodeId>,
                    prevNode0: map<NodeId, Option<NodeId>>, prevEdge0: map<NodeId, Option<Edge>>,
                    depth0: map<NodeId, nat>)
    returns (q: seq<NodeId>, prevNode: map<NodeId, Option<NodeId>>, prevEdge: map<NodeId, Option<Edge>>,
             depth: map<NodeId, nat>, found: bool)
    requires Expanding(sc, start, goal, maxHops, q0, prevNode0, prevEdge0, depth0, u, [])
    ensures !found ==> Searching(sc, start, goal, maxHops, q, prevNode, prevEdge, depth)
    ensures !found ==> (depth == depth0 && q == q0) || depth0.Keys < depth.Keys
    ensures found ==> BackPointers(sc, start, prevNode, prevEdge, depth) && goal in depth && depth[goal] <= maxHops
    ensures found ==> forall nodes, edges :: Connects(sc, start, goal, nodes, edges) ==> |edges| >= depth[goal]
  {
    q, prevNode, prevEdge, depth := q0, prevNode0, prevEdge0, depth0;
    var incident := sc.Incident(u);
    var i := 0;
    ghost var done := [];
    while i < |incident|
      invariant i <= |incident| && done == incident[..i]
      invariant Expanding(sc, start, goal, maxHops, q, prevNode, prevEdge, depth, u, done)
      invariant (depth == depth0 && q == q0) || depth0.Keys < depth.Keys
    {
      var edge := incident[i];
      var other := OtherNode(edge, u);
      assert edge in incident;
      ghost var before := done;
      TakeMore(incident, i);
      i, done := i + 1, done + [edge];
      if other.None? || other.value in prevNode {
        Passed(depth, q, u, before, edge);
        continue;
      }
      var v := other.value;
      Discovery(sc, start, goal, maxHops, q, prevNode, prevEdge, depth, u, before, edge, v);
      prevNode := prevNode[v := Some(u)];
      prevEdge := prevEdge[v := Some(edge)];
      depth := depth[v := depth[u] + 1];
      q := q + [v];
      if v == goal { return q, prevNode, prevEdge, depth, true; }
    }
    assert done == incident;
    FinishExpanding(sc, start, goal, maxHops, q, prevNode, prevEdge, depth, u);
    found := false;
  }

  /** A shortest walk of at most maxHops usable edges, whenever one exists. */
  method ShortestPathUndirected(sc: Scope, start: NodeId, goal: NodeId, maxHops: int) returns (r: Path)
    ensures start == goal ==> r == Path([start], [])
    ensures r.Path? ==> Connects(sc, start, goal, r.nodes, r.edges) && (start != goal ==> |r.edges| <= maxHops)
    ensures r.Path? ==> forall nodes, edges :: Connects(sc, start, goal, nodes, edges) ==> |r.edges| <= |edges|
    ensures r.NoPath? <==>
              start != goal && forall nodes, edges :: Connects(sc, start, goal, nodes, edges) ==> |edges| > maxHops
  {
    if start == goal { return Path([start], []); }
    var q := [start];
    var prevNode: map<NodeId, Option<NodeId>> := map[start := None];
    var prevEdge: map<NodeId, Option<Edge>> := map[start := None];
    var depth: map<NodeId, nat> := map[start := 0];
    var found := false;
    while q != []
      invariant Searching(sc, start, goal, maxHops, q, prevNode, prevEdge, depth)
      decreases {start} + sc.Endpoints() - depth.Keys, |q|
    {
      StartExpanding(sc, start, goal, maxHops, q, prevNode, prevEdge, depth);
      var u := q[0];
      q := q[1..];
      if depth[u] >= maxHops { continue; }
      q, prevNode, prevEdge, depth, found :=
        ExpandNode(sc, start, goal, maxHops, u, q, prevNode, prevEdge, depth);
      if found {
        var nodes, edges := Reconstruct(sc, start, goal, prevNode, prevEdge, depth);
        return Path(nodes, edges);
      }
    }
    UndiscoveredIsFar(sc, depth, start, goal, maxHops);
    r := NoPath;
  }
}
