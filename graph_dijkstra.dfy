/**
 * The `dijkstra` step generator and `reconstructPath` of
 * `GraphTraversalVisualizer.tsx`. The open set is a JavaScript `Map` from
 * node to tentative distance, scanned linearly in insertion order for the
 * first entry of least distance.
 */
module GraphDijkstra {
  import opened Wrappers
  import opened GraphTypes
  import opened GraphAdjacency
  import opened GraphSearch

  /** `openSetMap`: entries in insertion order. */
  type OpenSet = seq<(NodeId, int)>

  type Predecessors = map<NodeId, Option<NodeId>>

  /** No key has two entries. */
  predicate DistinctKeys(open: OpenSet)
  {
    forall i, j :: 0 <= i < j < |open| ==> open[i].0 != open[j].0
  }

  /** `openSetMap.keys()`. */
  function OpenKeys(open: OpenSet): set<NodeId>
  {
    set e | e in open :: e.0
  }

  /** `openSetMap.set(k, d)`: replaces the entry of `k` in place, or appends one. */
  function OpenSetPut(open: OpenSet, k: NodeId, d: int): (r: OpenSet)
    ensures OpenKeys(r) == OpenKeys(open) + {k}
    decreases |open|
  {
    if open == [] then [(k, d)]
    else
      OpenKeysCons(open);
      if open[0].0 == k then OpenKeysCons([(k, d)] + open[1..]); [(k, d)] + open[1..]
      else OpenKeysCons([open[0]] + OpenSetPut(open[1..], k, d)); [open[0]] + OpenSetPut(open[1..], k, d)
  }

  lemma OpenKeysCons(open: OpenSet)
    requires open != []
    ensures OpenKeys(open) == {open[0].0} + OpenKeys(open[1..])
  {
    assert open == [open[0]] + open[1..];
    assert forall e :: e in open <==> e == open[0] || e in open[1..];
  }

  /** On a map without repeated keys, `set` keeps the keys distinct and leaves exactly the new entry for `k`. */
  lemma {:induction false} OpenSetPutSpec(open: OpenSet, k: NodeId, d: int)
    requires DistinctKeys(open)
    ensures DistinctKeys(OpenSetPut(open, k, d))
    ensures forall e :: e in OpenSetPut(open, k, d) <==> (e in open && e.0 != k) || e == (k, d)
    decreases |open|
  {
    if open != [] {
      assert open == [open[0]] + open[1..];
      if open[0].0 == k {
        forall e | e in open[1..] ensures e.0 != k {
          var i :| 0 <= i < |open[1..]| && open[1..][i] == e;
          assert open[i + 1] == e;
        }
      } else {
        OpenSetPutSpec(open[1..], k, d);
        var r := OpenSetPut(open, k, d);
        forall i, j | 0 <= i < j < |r| ensures r[i].0 != r[j].0 {
          if i == 0 {
            assert r[j] in OpenSetPut(open[1..], k, d);
            if r[j] != (k, d) {
              var m :| 0 <= m < |open[1..]| && open[1..][m] == r[j];
              assert open[m + 1] == r[j];
            }
          }
        }
      }
    }
  }

  /** `openSetMap.delete(k)`. */
  function OpenSetDelete(open: OpenSet, k: NodeId): (r: OpenSet)
    ensures DistinctKeys(open) ==> DistinctKeys(r)
    ensures forall e :: e in r <==> e in open && e.0 != k
    ensures OpenKeys(r) == OpenKeys(open) - {k}
    decreases |open|
  {
    if open == [] then []
    else if open[0].0 == k then OpenSetDelete(open[1..], k)
    else [open[0]] + OpenSetDelete(open[1..], k)
  }

  /**
   * The scan for the extracted node: starting from `Infinity`, every entry
   * strictly below the best so far becomes the best, so the result is the
   * first entry of least distance, and there is one whenever the set is not empty.
   */
  method FindMin(open: OpenSet) returns (found: Option<int>)
    ensures found.None? <==> |open| == 0
    ensures found.Some? ==> 0 <= found.value < |open|
    ensures found.Some? ==> forall j :: 0 <= j < |open| ==> open[found.value].1 <= open[j].1
    ensures found.Some? ==> forall j :: 0 <= j < found.value ==> open[found.value].1 < open[j].1
  {
    var best: Dist := Inf;
    found := None;
    var j := 0;
    while j < |open|
      invariant 0 <= j <= |open|
      invariant found.None? <==> j == 0
      invariant found.None? ==> best == Inf
      invariant found.Some? ==> 0 <= found.value < j && best == Fin(open[found.value].1)
      invariant found.Some? ==> forall i :: 0 <= i < j ==> open[found.value].1 <= open[i].1
      invariant found.Some? ==> forall i :: 0 <= i < found.value ==> open[found.value].1 < open[i].1
    {
      if DistLess(Fin(open[j].1), best) {
        best := Fin(open[j].1);
        found := Some(j);
      }
      j := j + 1;
    }
  }

  /**
   * `path` is the predecessor chain that ends at `current`: no node twice,
   * each node's predecessor is the node before it, and the chain stops at a
   * node without predecessor or at one whose predecessor is already on it.
   */
  predicate IsChainTo(pred: Predecessors, current: NodeId, path: seq<NodeId>)
  {
    && |path| > 0 && path[|path| - 1] == current && Distinct(path)
    && (forall i :: 0 < i < |path| ==> path[i] in pred && pred[path[i]] == Some(path[i - 1]))
    && (path[0] in pred && pred[path[0]].Some? ==> pred[path[0]].value in path)
  }

  /** Every node a chain can reach: `current` and every recorded predecessor. */
  function ChainUniverse(pred: Predecessors, current: NodeId): set<NodeId>
  {
    {current} + set k | k in pred && pred[k].Some? :: pred[k].value
  }

  /**
   * `reconstructPath(predecessors, current)`: follows predecessors back from
   * `current`, adding each in front, until there is none or a node comes round again.
   */
  method ReconstructPath(pred: Predecessors, current: NodeId) returns (path: seq<NodeId>)
    ensures IsChainTo(pred, current, path)
  {
    path := [current];
    var node := current;
    var visited := {current};
    ghost var universe := ChainUniverse(pred, current);
    while node in pred && pred[node] != None
      invariant |path| > 0 && path[|path| - 1] == current && path[0] == node && Distinct(path)
      invariant forall i :: 0 < i < |path| ==> path[i] in pred && pred[path[i]] == Some(path[i - 1])
      invariant forall x :: x in visited <==> x in path
      invariant visited <= universe
      decreases |universe - visited|
    {
      node := pred[node].value;
      if node in visited {
        return;
      }
      FewerLeft(universe, visited, node);
      path := [node] + path;
      visited := visited + {node};
    }
  }

  /** The chain that ends at `current` is unique. */
  lemma ChainUnique(pred: Predecessors, current: NodeId, p: seq<NodeId>, q: seq<NodeId>)
    requires IsChainTo(pred, current, p) && IsChainTo(pred, current, q) && |p| <= |q|
    ensures p == q
  {
    var d := |q| - |p|;
    forall i | 0 <= i < |p| ensures p[i] == q[i + d] {
      ChainSuffix(pred, current, p, q, i);
    }
    if d > 0 {
      // q goes on past p's first node, so that node has a predecessor, which p already holds
      var prev := q[d - 1];
      assert pred[p[0]] == Some(prev);
      var j :| 0 <= j < |p| && p[j] == prev;
      assert false;
    }
    assert p == q;
  }

  /** Two chains to `current` agree from their ends. */
  lemma {:induction false} ChainSuffix(pred: Predecessors, current: NodeId, p: seq<NodeId>, q: seq<NodeId>, i: int)
    requires IsChainTo(pred, current, p) && IsChainTo(pred, current, q) && |p| <= |q| && 0 <= i < |p|
    ensures p[i] == q[i + |q| - |p|]
    decreases |p| - i
  {
    if i < |p| - 1 {
      ChainSuffix(pred, current, p, q, i + 1);
    }
  }

  type Distances = map<NodeId, Dist>

  /** `distances.get(v) ?? Infinity`. */
  function DistOf(dist: Distances, v: NodeId): Dist
  {
    if v in dist then dist[v] else Inf
  }

  /** The Dijkstra snapshot: copies of the tables, the open set's keys and the closed set. */
  function DijkstraStep(current: Option<NodeId>, action: string, dist: Distances, pred: Predecessors,
                        open: OpenSet, closed: set<NodeId>, path: Option<seq<NodeId>>, goal: Option<NodeId>): AlgorithmStep
  {
    AlgorithmStep(GraphTypes.Dijkstra, current, action, PathfindingState(dist, pred, OpenKeys(open), closed), path, goal)
  }

  /**
   * From one state to a later one: no node closes and reopens, no distance
   * grows or disappears, and a closed node keeps its distance and predecessor.
   */
  predicate Follows(d0: Distances, p0: Predecessors, c0: set<NodeId>, d1: Distances, p1: Predecessors, c1: set<NodeId>)
  {
    && c0 <= c1
    && (forall v :: v in d0 ==> v in d1 && DistLessEq(d1[v], d0[v]))
    && (forall v :: v in c0 && v in d0 ==> d1[v] == d0[v])
    && p0.Keys <= p1.Keys
    && (forall v :: v in c0 && v in p0 ==> p1[v] == p0[v])
  }

  /** [Follows] between two snapshots. */
  predicate SnapFollows(a: AlgorithmStep, b: AlgorithmStep)
  {
    && a.state.PathfindingState? && b.state.PathfindingState?
    && Follows(a.state.distances, a.state.predecessors, a.state.closedSet,
               b.state.distances, b.state.predecessors, b.state.closedSet)
  }

  /** An EXTRACT_MIN snapshot names a closed node whose distance is at most that of every node still open. */
  predicate MinHonest(st: AlgorithmStep)
  {
    st.action == EXTRACT_MIN ==>
      && st.state.PathfindingState? && st.currentNode.Some?
      && st.currentNode.value in st.state.closedSet && st.currentNode.value in st.state.distances
      && forall v :: v in st.state.openSet ==>
           v in st.state.distances && DistLessEq(st.state.distances[st.currentNode.value], st.state.distances[v])
  }

  /**
   * What every recorded run satisfies: each step is a Dijkstra step for
   * `goal`, each extraction takes a least open node, and each snapshot follows
   * the one before it.
   */
  predicate DijRecord(steps: seq<AlgorithmStep>, goal: Option<NodeId>)
  {
    && |steps| > 0
    && (forall i :: 0 <= i < |steps| ==>
          steps[i].algorithm == GraphTypes.Dijkstra && steps[i].goalNode == goal && MinHonest(steps[i]))
    && (forall i :: 0 < i < |steps| ==> SnapFollows(steps[i - 1], steps[i]))
  }

  /** The last snapshot precedes the current state. */
  predicate Linked(steps: seq<AlgorithmStep>, dist: Distances, pred: Predecessors, closed: set<NodeId>)
  {
    && |steps| > 0 && steps[|steps| - 1].state.PathfindingState?
    && var last := steps[|steps| - 1].state;
       Follows(last.distances, last.predecessors, last.closedSet, dist, pred, closed)
  }

  lemma FollowsRefl(d: Distances, p: Predecessors, c: set<NodeId>)
    ensures Follows(d, p, c, d, p, c)
  {
  }

  lemma DijRecordSnoc(steps: seq<AlgorithmStep>, goal: Option<NodeId>, x: AlgorithmStep)
    requires DijRecord(steps, goal) && x.algorithm == GraphTypes.Dijkstra && x.goalNode == goal && MinHonest(x)
    requires SnapFollows(steps[|steps| - 1], x)
    ensures DijRecord(steps + [x], goal) && (steps + [x])[0] == steps[0]
  {
    var s := steps + [x];
    forall i | 0 <= i < |s| ensures s[i].algorithm == GraphTypes.Dijkstra && s[i].goalNode == goal && MinHonest(s[i]) {
      if i < |steps| {
        assert s[i] == steps[i];
      }
    }
    forall i | 0 < i < |s| ensures SnapFollows(s[i - 1], s[i]) {
      if i < |steps| {
        assert s[i] == steps[i] && s[i - 1] == steps[i - 1];
      }
    }
  }

  /**
   * The tables agree with the open map: one entry per key, holding the open
   * node's finite distance; a node has a finite distance exactly when it is
   * open or closed; no node is both.
   */
  predicate Tracked(dist: Distances, open: OpenSet, closed: set<NodeId>)
  {
    && DistinctKeys(open)
    && (forall e :: e in open ==> e.0 in dist && dist[e.0] == Fin(e.1) && e.0 !in closed)
    && (forall v :: v in dist && dist[v].Fin? ==> v in closed || v in OpenKeys(open))
    && (forall c :: c in closed ==> c in dist && dist[c].Fin?)
  }

  /** Every closed or open node lies in the universe and is reachable from `start`, which is one of them. */
  ghost predicate Discovered(adj: Adjacency, start: NodeId, open: OpenSet, closed: set<NodeId>)
  {
    && (forall v :: v in closed + OpenKeys(open) ==> v in Universe(adj, start) && Reachable(adj, start, v))
    && start in closed + OpenKeys(open)
  }

  /** The state invariant of the search. */
  ghost predicate DijCore(adj: Adjacency, start: NodeId, dist: Distances, open: OpenSet, closed: set<NodeId>)
  {
    Tracked(dist, open, closed) && Discovered(adj, start, open, closed)
  }

  /** Every neighbour of a closed node outside `except` is closed or open. */
  ghost predicate Explored(adj: Adjacency, closed: set<NodeId>, open: OpenSet, except: set<NodeId>)
  {
    forall u, v :: u in closed && u !in except && v in Successors(adj, u) ==> v in closed || v in OpenKeys(open)
  }

  /**
   * What holds inside the relaxation loop over the neighbours `ns` of `u`,
   * after the first `i`: every change since the loop began
   * is a [Follows] step, `updated` tells whether some distance went down, and
   * each open neighbour seen so far is at most `u`'s distance plus the edge weight.
   */
  ghost predicate RelaxInv(adj: Adjacency, start: NodeId, u: NodeId, dist0: Distances, pred0: Predecessors, open0: OpenSet,
                           closed: set<NodeId>, ns: seq<Neighbor>, dist: Distances, pred: Predecessors, open: OpenSet,
                           updated: bool, i: int)
  {
    && 0 <= i <= |ns| && ns == NeighborsOf(adj, u) && u in closed && u in dist0 && dist0[u].Fin?
    && Follows(dist0, pred0, closed, dist, pred, closed)
    && (!updated ==> dist == dist0 && pred == pred0 && open == open0)
    && (updated ==> exists v :: v in dist && DistLess(dist[v], DistOf(dist0, v)))
    && (forall j :: 0 <= j < i && ns[j].neighbor !in closed ==>
          DistLessEq(DistOf(dist, ns[j].neighbor), Fin(dist0[u].n + ns[j].weight)))
  }

  lemma DistLessEqTrans(a: Dist, b: Dist, c: Dist)
    requires DistLessEq(a, b) && DistLessEq(b, c)
    ensures DistLessEq(a, c)
  {
  }

  lemma TrackedAfterPut(dist: Distances, open: OpenSet, closed: set<NodeId>, v: NodeId, alt: int)
    requires Tracked(dist, open, closed) && v !in closed
    ensures Tracked(dist[v := Fin(alt)], OpenSetPut(open, v, alt), closed)
  {
    OpenSetPutSpec(open, v, alt);
  }

  lemma DiscoveredAfterPut(adj: Adjacency, start: NodeId, open: OpenSet, closed: set<NodeId>, u: NodeId, v: NodeId, alt: int)
    requires Discovered(adj, start, open, closed) && u in closed && v in Successors(adj, u)
    ensures Discovered(adj, start, OpenSetPut(open, v, alt), closed)
  {
    SuccessorsInUniverse(adj, start, u);
    ReachableStep(adj, start, u, v);
  }

  /** Giving the unclosed neighbour `v` of the closed node `u` a finite distance and an open entry keeps the state invariant. */
  lemma CoreAfterPut(adj: Adjacency, start: NodeId, u: NodeId, dist: Distances, open: OpenSet, closed: set<NodeId>,
                     v: NodeId, alt: int)
    requires DijCore(adj, start, dist, open, closed) && Explored(adj, closed, open, {u})
    requires u in closed && v !in closed && v in Successors(adj, u)
    ensures DijCore(adj, start, dist[v := Fin(alt)], OpenSetPut(open, v, alt), closed)
    ensures Explored(adj, closed, OpenSetPut(open, v, alt), {u})
  {
    TrackedAfterPut(dist, open, closed, v, alt);
    DiscoveredAfterPut(adj, start, open, closed, u, v, alt);
  }

  /** Lowering the distance of the open neighbour `ns[i]` to `alt` keeps the loop invariant. */
  lemma RelaxOne(adj: Adjacency, start: NodeId, u: NodeId, dist0: Distances, pred0: Predecessors, open0: OpenSet,
                 closed: set<NodeId>, ns: seq<Neighbor>, dist: Distances, pred: Predecessors, open: OpenSet,
                 updated: bool, i: int, alt: int)
    requires RelaxInv(adj, start, u, dist0, pred0, open0, closed, ns, dist, pred, open, updated, i) && i < |ns|
    requires ns[i].neighbor !in closed && alt == dist[u].n + ns[i].weight && DistLess(Fin(alt), DistOf(dist, ns[i].neighbor))
    ensures RelaxInv(adj, start, u, dist0, pred0, open0, closed, ns,
                     dist[ns[i].neighbor := Fin(alt)], pred[ns[i].neighbor := Some(u)], OpenSetPut(open, ns[i].neighbor, alt),
                     true, i + 1)
  {
    var v := ns[i].neighbor;
    var dist1, pred1, open1 := dist[v := Fin(alt)], pred[v := Some(u)], OpenSetPut(open, v, alt);
    forall x | x in dist0 ensures x in dist1 && DistLessEq(dist1[x], dist0[x]) {
      if x == v {
        DistLessEqTrans(dist1[x], dist[x], dist0[x]);
      }
    }
    assert Follows(dist0, pred0, closed, dist1, pred1, closed);
    if v in dist0 {
      DistLessEqTrans(Fin(alt), dist[v], dist0[v]);
    }
    assert v in dist1 && DistLess(dist1[v], DistOf(dist0, v));
    forall j | 0 <= j < i + 1 && ns[j].neighbor !in closed
      ensures DistLessEq(DistOf(dist1, ns[j].neighbor), Fin(dist0[u].n + ns[j].weight))
    {
      if j < i && ns[j].neighbor != v {
        assert DistOf(dist1, ns[j].neighbor) == DistOf(dist, ns[j].neighbor);
      } else if j < i {
        DistLessEqTrans(Fin(alt), DistOf(dist, v), Fin(dist0[u].n + ns[j].weight));
      }
    }
  }

  /** Skipping the neighbour `ns[i]`, closed or not improved, keeps the loop invariant. */
  lemma RelaxSkip(adj: Adjacency, start: NodeId, u: NodeId, dist0: Distances, pred0: Predecessors, open0: OpenSet,
                  closed: set<NodeId>, ns: seq<Neighbor>, dist: Distances, pred: Predecessors, open: OpenSet,
                  updated: bool, i: int)
    requires RelaxInv(adj, start, u, dist0, pred0, open0, closed, ns, dist, pred, open, updated, i) && i < |ns|
    requires ns[i].neighbor !in closed ==> !DistLess(Fin(dist[u].n + ns[i].weight), DistOf(dist, ns[i].neighbor))
    ensures RelaxInv(adj, start, u, dist0, pred0, open0, closed, ns, dist, pred, open, updated, i + 1)
  {
    if ns[i].neighbor !in closed {
      assert DistLessEq(DistOf(dist, ns[i].neighbor), Fin(dist[u].n + ns[i].weight));
    }
  }

  /** After the last neighbour, every unclosed neighbour of `u` is at most `u`'s distance plus the edge weight. */
  lemma RelaxBound(adj: Adjacency, start: NodeId, u: NodeId, dist0: Distances, pred0: Predecessors, open0: OpenSet,
                   closed: set<NodeId>, ns: seq<Neighbor>, dist: Distances, pred: Predecessors, open: OpenSet, updated: bool)
    requires RelaxInv(adj, start, u, dist0, pred0, open0, closed, ns, dist, pred, open, updated, |ns|)
    ensures forall n :: n in ns && n.neighbor !in closed ==> DistLessEq(DistOf(dist, n.neighbor), Fin(dist0[u].n + n.weight))
  {
    forall n | n in ns && n.neighbor !in closed ensures DistLessEq(DistOf(dist, n.neighbor), Fin(dist0[u].n + n.weight)) {
      var j :| 0 <= j < |ns| && ns[j] == n;
    }
  }

  /** After the last neighbour, `u` is explored too. */
  lemma RelaxDone(adj: Adjacency, start: NodeId, u: NodeId, dist0: Distances, pred0: Predecessors, open0: OpenSet,
                  closed: set<NodeId>, ns: seq<Neighbor>, dist: Distances, pred: Predecessors, open: OpenSet, updated: bool)
    requires RelaxInv(adj, start, u, dist0, pred0, open0, closed, ns, dist, pred, open, updated, |ns|)
    requires Tracked(dist, open, closed) && Explored(adj, closed, open, {u})
    ensures Explored(adj, closed, open, {})
    ensures forall n :: n in ns && n.neighbor !in closed ==> DistLessEq(DistOf(dist, n.neighbor), Fin(dist0[u].n + n.weight))
  {
    RelaxBound(adj, start, u, dist0, pred0, open0, closed, ns, dist, pred, open, updated);
    forall x, v | x in closed && v in Successors(adj, x) ensures v in closed || v in OpenKeys(open) {
      if x == u && v !in closed {
        var n :| n in ns && n.neighbor == v;
        assert DistLessEq(DistOf(dist, v), Fin(dist0[u].n + n.weight));
      }
    }
  }

  /** One turn of the neighbour loop of `dijkstra`, for the neighbour `ns[i]` of `u`. */
  method RelaxNeighbor(adj: Adjacency, start: NodeId, u: NodeId, dist0: Distances, pred0: Predecessors, open0: OpenSet,
                       closed: set<NodeId>, ns: seq<Neighbor>, dist: Distances, pred: Predecessors, open: OpenSet,
                       updated: bool, i: int)
    returns (dist': Distances, pred': Predecessors, open': OpenSet, updated': bool)
    requires DijCore(adj, start, dist, open, closed) && Explored(adj, closed, open, {u})
    requires RelaxInv(adj, start, u, dist0, pred0, open0, closed, ns, dist, pred, open, updated, i) && i < |ns|
    ensures DijCore(adj, start, dist', open', closed) && Explored(adj, closed, open', {u})
    ensures RelaxInv(adj, start, u, dist0, pred0, open0, closed, ns, dist', pred', open', updated', i + 1)
  {
    var v, w := ns[i].neighbor, ns[i].weight;
    if v !in closed && DistLess(Fin(dist[u].n + w), DistOf(dist, v)) {
      var alt := dist[u].n + w;
      CoreAfterPut(adj, start, u, dist, open, closed, v, alt);
      RelaxOne(adj, start, u, dist0, pred0, open0, closed, ns, dist, pred, open, updated, i, alt);
      dist', pred', open', updated' := dist[v := Fin(alt)], pred[v := Some(u)], OpenSetPut(open, v, alt), true;
    } else {
      RelaxSkip(adj, start, u, dist0, pred0, open0, closed, ns, dist, pred, open, updated, i);
      dist', pred', open', updated' := dist, pred, open, updated;
    }
  }

  /**
   * The neighbour loop of `dijkstra`: for each neighbour `v` of `u` not yet
   * closed, when `u`'s distance plus the weight is below `v`'s, `v` gets that
   * distance, `u` as predecessor, and that entry in the open map.
   */
  method Relax(adj: Adjacency, start: NodeId, u: NodeId, dist: Distances, pred: Predecessors, open: OpenSet, closed: set<NodeId>)
    returns (dist': Distances, pred': Predecessors, open': OpenSet, updated: bool)
    requires DijCore(adj, start, dist, open, closed) && Explored(adj, closed, open, {u}) && u in closed
    ensures DijCore(adj, start, dist', open', closed) && Explored(adj, closed, open', {})
    ensures Follows(dist, pred, closed, dist', pred', closed)
    ensures !updated ==> dist' == dist && pred' == pred && open' == open
    ensures updated ==> exists v :: v in dist' && DistLess(dist'[v], DistOf(dist, v))
    ensures forall n :: n in NeighborsOf(adj, u) && n.neighbor !in closed ==>
      DistLessEq(DistOf(dist', n.neighbor), Fin(dist[u].n + n.weight))
  {
    dist', pred', open', updated := dist, pred, open, false;
    var ns := NeighborsOf(adj, u);
    FollowsRefl(dist, pred, closed);
    var i := 0;
    while i < |ns|
      invariant DijCore(adj, start, dist', open', closed) && Explored(adj, closed, open', {u})
      invariant RelaxInv(adj, start, u, dist, pred, open, closed, ns, dist', pred', open', updated, i)
    {
      dist', pred', open', updated := RelaxNeighbor(adj, start, u, dist, pred, open, closed, ns, dist', pred', open', updated, i);
      i := i + 1;
    }
    RelaxDone(adj, start, u, dist, pred, open, closed, ns, dist', pred', open', updated);
  }

  lemma FollowsTrans(d0: Distances, p0: Predecessors, c0: set<NodeId>, d1: Distances, p1: Predecessors, c1: set<NodeId>,
                     d2: Distances, p2: Predecessors, c2: set<NodeId>)
    requires Follows(d0, p0, c0, d1, p1, c1) && Follows(d1, p1, c1, d2, p2, c2)
    ensures Follows(d0, p0, c0, d2, p2, c2)
  {
    forall v | v in d0 ensures v in d2 && DistLessEq(d2[v], d0[v]) {
      DistLessEqTrans(d2[v], d1[v], d0[v]);
    }
  }

  /** `graph.nodes.forEach(...)`: every node starts at distance `Infinity` without predecessor. */
  method InitTables(nodes: seq<NodeId>) returns (dist: Distances, pred: Predecessors)
    ensures forall n :: n in dist <==> n in nodes
    ensures forall n :: n in dist ==> dist[n] == Inf
    ensures pred.Keys == dist.Keys && forall n :: n in pred ==> pred[n] == None
  {
    dist, pred := map[], map[];
    var i := 0;
    while i < |nodes|
      invariant 0 <= i <= |nodes|
      invariant forall n :: n in dist <==> n in nodes[..i]
      invariant forall n :: n in dist ==> dist[n] == Inf
      invariant pred.Keys == dist.Keys && forall n :: n in pred ==> pred[n] == None
    {
      assert nodes[..i + 1] == nodes[..i] + [nodes[i]];
      dist := dist[nodes[i] := Inf];
      pred := pred[nodes[i] := None];
      i := i + 1;
    }
    assert nodes[..i] == nodes;
  }

  /** The state right after `INITIALIZE`: only `start` is open, at distance 0, and nothing is closed. */
  lemma DijBegin(adj: Adjacency, start: NodeId, dist: Distances)
    requires forall v :: v in dist && v != start ==> dist[v] == Inf
    ensures DijCore(adj, start, dist[start := Fin(0)], [(start, 0)], {})
    ensures Explored(adj, {}, [(start, 0)], {})
  {
    ReachableStart(adj, start);
    assert OpenKeys([(start, 0)]) == {start};
  }

  /**
   * Closing the least open entry `open[i]` keeps the state invariant; its
   * node was neither closed nor undiscovered, and every neighbour of a closed
   * node other than it is closed or open.
   */
  lemma ExtractKeeps(adj: Adjacency, start: NodeId, dist: Distances, open: OpenSet, closed: set<NodeId>, i: int)
    requires DijCore(adj, start, dist, open, closed) && Explored(adj, closed, open, {}) && 0 <= i < |open|
    ensures var u := open[i].0;
      && u !in closed && u in Universe(adj, start) && u in dist && dist[u] == Fin(open[i].1)
      && DijCore(adj, start, dist, OpenSetDelete(open, u), closed + {u})
      && Explored(adj, closed + {u}, OpenSetDelete(open, u), {u})
  {
    var u := open[i].0;
    var open', closed' := OpenSetDelete(open, u), closed + {u};
    assert open[i] in open;
    assert closed' + OpenKeys(open') == closed + OpenKeys(open);
  }

  /** The extracted entry was a least one, so the EXTRACT_MIN snapshot is honest. */
  lemma ExtractMinHonest(dist: Distances, pred: Predecessors, open: OpenSet, closed: set<NodeId>, i: int, goal: Option<NodeId>)
    requires Tracked(dist, open, closed) && 0 <= i < |open|
    requires forall j :: 0 <= j < |open| ==> open[i].1 <= open[j].1
    ensures MinHonest(DijkstraStep(Some(open[i].0), EXTRACT_MIN, dist, pred, OpenSetDelete(open, open[i].0),
                                   closed + {open[i].0}, None, goal))
  {
    var u := open[i].0;
    assert open[i] in open;
    forall v | v in OpenKeys(OpenSetDelete(open, u)) ensures v in dist && DistLessEq(dist[u], dist[v]) {
      var e :| e in OpenSetDelete(open, u) && e.0 == v;
      var j :| 0 <= j < |open| && open[j] == e;
    }
  }

  /**
   * The head of one turn of the main loop: the first least entry of the open
   * map leaves it, its node is closed, and an EXTRACT_MIN snapshot is recorded.
   */
  method Extract(adj: Adjacency, start: NodeId, goal: Option<NodeId>, dist: Distances, pred: Predecessors,
                 open: OpenSet, closed: set<NodeId>, steps: seq<AlgorithmStep>)
    returns (u: NodeId, open': OpenSet, closed': set<NodeId>, steps': seq<AlgorithmStep>)
    requires DijCore(adj, start, dist, open, closed) && Explored(adj, closed, open, {}) && |open| > 0
    requires DijRecord(steps, goal) && Linked(steps, dist, pred, closed)
    ensures u in OpenKeys(open) && u !in closed && u in Universe(adj, start) && closed' == closed + {u}
    ensures open' == OpenSetDelete(open, u)
    ensures forall v :: v in OpenKeys(open) ==> DistLessEq(dist[u], dist[v])
    ensures DijCore(adj, start, dist, open', closed') && Explored(adj, closed', open', {u})
    ensures steps' == steps + [DijkstraStep(Some(u), EXTRACT_MIN, dist, pred, open', closed', None, goal)]
    ensures DijRecord(steps', goal) && Linked(steps', dist, pred, closed')
  {
    var found := FindMin(open);
    var i := found.value;
    u := open[i].0;
    ExtractKeeps(adj, start, dist, open, closed, i);
    ExtractMinHonest(dist, pred, open, closed, i, goal);
    open', closed' := OpenSetDelete(open, u), closed + {u};
    var st := DijkstraStep(Some(u), EXTRACT_MIN, dist, pred, open', closed', None, goal);
    var last := steps[|steps| - 1].state;
    FollowsRefl(dist, pred, closed');
    FollowsTrans(last.distances, last.predecessors, last.closedSet, dist, pred, closed, dist, pred, closed');
    DijRecordSnoc(steps, goal, st);
    steps' := steps + [st];
    assert open[i] in open;
    forall v | v in OpenKeys(open) ensures DistLessEq(dist[u], dist[v]) {
      var j :| 0 <= j < |open| && open[j].0 == v;
    }
  }

  /**
   * One turn of the main loop of `dijkstra`: extract the least open node; if
   * it is the goal, record GOAL_FOUND with the reconstructed path and stop;
   * otherwise relax its neighbours and record EXPLORE_NEIGHBORS when a
   * distance went down.
   */
  method DijkstraTurn(adj: Adjacency, start: NodeId, goal: Option<NodeId>, dist: Distances, pred: Predecessors,
                      open: OpenSet, closed: set<NodeId>, steps: seq<AlgorithmStep>)
    returns (dist': Distances, pred': Predecessors, open': OpenSet, closed': set<NodeId>, steps': seq<AlgorithmStep>,
             u: NodeId, done: bool)
    requires DijCore(adj, start, dist, open, closed) && Explored(adj, closed, open, {}) && |open| > 0
    requires DijRecord(steps, goal) && Linked(steps, dist, pred, closed)
    requires goal.Some? ==> goal.value !in closed
    ensures u !in closed && u in Universe(adj, start) && closed' == closed + {u}
    ensures DijCore(adj, start, dist', open', closed')
    ensures DijRecord(steps', goal) && Linked(steps', dist', pred', closed') && steps'[0] == steps[0]
    ensures !done ==> Explored(adj, closed', open', {}) && (goal.Some? ==> goal.value !in closed')
    ensures done ==> goal == Some(u) && Outcome(steps'[|steps'| - 1], adj, start, goal)
  {
    u, open', closed', steps' := Extract(adj, start, goal, dist, pred, open, closed, steps);
    dist', pred' := dist, pred;
    if goal == Some(u) {
      var path := ReconstructPath(pred, u);
      var st := DijkstraStep(Some(u), GOAL_FOUND, dist, pred, open', closed', Some(path), goal);
      FollowsRefl(dist, pred, closed');
      DijRecordSnoc(steps', goal, st);
      steps' := steps' + [st];
      GoalOutcome(adj, start, goal, dist, pred, open', closed', st);
      done := true;
    } else {
      var updated;
      dist', pred', open', updated := Relax(adj, start, u, dist, pred, open', closed');
      if updated {
        var st := DijkstraStep(Some(u), EXPLORE_NEIGHBORS, dist', pred', open', closed', None, goal);
        FollowsRefl(dist', pred', closed');
        DijRecordSnoc(steps', goal, st);
        steps' := steps' + [st];
      }
      done := false;
    }
  }

  /** A GOAL_FOUND snapshot of the current state whose path is the predecessor chain to its node. */
  predicate GoalStep(st: AlgorithmStep, dist: Distances, pred: Predecessors, open: OpenSet, closed: set<NodeId>)
  {
    && st.action == GOAL_FOUND && st.currentNode.Some? && st.currentNode.value in closed
    && st.state == PathfindingState(dist, pred, OpenKeys(open), closed)
    && st.path.Some? && IsChainTo(pred, st.currentNode.value, st.path.value)
  }

  /**
   * With the open map empty and every closed node explored, the closed set is
   * exactly the set of nodes reachable from `start`.
   */
  lemma DijEnd(adj: Adjacency, start: NodeId, dist: Distances, closed: set<NodeId>)
    requires DijCore(adj, start, dist, [], closed) && Explored(adj, closed, [], {})
    ensures forall v :: v in closed <==> Reachable(adj, start, v)
  {
    assert OpenKeys([]) == {};
    ClosedIsReachable(adj, start, closed);
  }

  /**
   * The INITIALIZE snapshot: every node of `nodes` at `Infinity` without
   * predecessor, `start` at 0 and the only open node, nothing closed.
   */
  predicate InitialStep(st: AlgorithmStep, nodes: seq<NodeId>, start: NodeId)
  {
    && st.action == INITIALIZE && st.currentNode == Some(start) && st.path.None?
    && st.state.PathfindingState? && st.state.openSet == {start} && st.state.closedSet == {}
    && st.state.distances.Keys == (set v | v in nodes) + {start}
    && st.state.distances[start] == Fin(0)
    && (forall v :: v in st.state.distances && v != start ==> st.state.distances[v] == Inf)
    && st.state.predecessors.Keys == set v | v in nodes
    && (forall v :: v in st.state.predecessors ==> st.state.predecessors[v] == None)
  }

  /**
   * How a run ends: with GOAL_FOUND, the goal closed at a finite distance,
   * reachable, and reached along its predecessor chain; or with NO_PATH, the
   * open set empty, the closed set exactly the nodes reachable from `start`,
   * and the goal (if any) unreachable.
   */
  ghost predicate Outcome(last: AlgorithmStep, adj: Adjacency, start: NodeId, goal: Option<NodeId>)
  {
    && (last.action == GOAL_FOUND || last.action == NO_PATH)
    && (last.action == GOAL_FOUND ==>
          && goal.Some? && last.currentNode == goal && last.state.PathfindingState?
          && goal.value in last.state.closedSet && goal.value in last.state.distances
          && last.state.distances[goal.value].Fin? && Reachable(adj, start, goal.value)
          && last.path.Some? && IsChainTo(last.state.predecessors, goal.value, last.path.value))
    && (last.action == NO_PATH ==>
          && last.currentNode.None? && last.path.None? && last.state.PathfindingState? && last.state.openSet == {}
          && (forall v :: v in last.state.closedSet <==> Reachable(adj, start, v))
          && (goal.Some? ==> !Reachable(adj, start, goal.value)))
  }

  /** The set-up of `dijkstra` before its main loop. */
  method DijkstraInit(nodes: seq<NodeId>, adj: Adjacency, start: NodeId, goal: Option<NodeId>)
    returns (dist: Distances, pred: Predecessors, open: OpenSet, closed: set<NodeId>, steps: seq<AlgorithmStep>)
    ensures DijCore(adj, start, dist, open, closed) && Explored(adj, closed, open, {}) && closed == {}
    ensures DijRecord(steps, goal) && Linked(steps, dist, pred, closed)
    ensures |steps| == 1 && InitialStep(steps[0], nodes, start)
  {
    dist, pred := InitTables(nodes);
    DijBegin(adj, start, dist);
    dist := dist[start := Fin(0)];
    open, closed := [(start, 0)], {};
    assert OpenKeys(open) == {start};
    steps := [DijkstraStep(Some(start), INITIALIZE, dist, pred, open, closed, None, goal)];
    FollowsRefl(dist, pred, closed);
  }

  /** A GOAL_FOUND snapshot of the goal is a GOAL_FOUND outcome. */
  lemma GoalOutcome(adj: Adjacency, start: NodeId, goal: Option<NodeId>, dist: Distances, pred: Predecessors,
                    open: OpenSet, closed: set<NodeId>, last: AlgorithmStep)
    requires DijCore(adj, start, dist, open, closed) && GoalStep(last, dist, pred, open, closed) && last.currentNode == goal
    ensures Outcome(last, adj, start, goal)
  {
  }

  /** The tail of `dijkstra` once the open map is empty: record NO_PATH. */
  method NoPath(adj: Adjacency, start: NodeId, goal: Option<NodeId>, dist: Distances, pred: Predecessors,
                closed: set<NodeId>, steps: seq<AlgorithmStep>)
    returns (steps': seq<AlgorithmStep>)
    requires DijCore(adj, start, dist, [], closed) && Explored(adj, closed, [], {})
    requires DijRecord(steps, goal) && Linked(steps, dist, pred, closed)
    requires goal.Some? ==> goal.value !in closed
    ensures DijRecord(steps', goal) && steps'[0] == steps[0] && Outcome(steps'[|steps'| - 1], adj, start, goal)
  {
    DijEnd(adj, start, dist, closed);
    var st := DijkstraStep(None, NO_PATH, dist, pred, [], closed, None, goal);
    assert OpenKeys([]) == {};
    FollowsRefl(dist, pred, closed);
    DijRecordSnoc(steps, goal, st);
    steps' := steps + [st];
  }

  /**
   * `dijkstra(start, goal)` over the nodes `nodes` and the adjacency lists
   * `adj`: it starts with the INITIALIZE snapshot, and every run ends in one
   * of the two outcomes.
   */
  method DijkstraSteps(nodes: seq<NodeId>, adj: Adjacency, start: NodeId, goal: Option<NodeId>)
    returns (steps: seq<AlgorithmStep>)
    ensures DijRecord(steps, goal) && InitialStep(steps[0], nodes, start)
    ensures Outcome(steps[|steps| - 1], adj, start, goal)
  {
    var dist, pred, open, closed;
    dist, pred, open, closed, steps := DijkstraInit(nodes, adj, start, goal);
    ghost var first := steps[0];
    var done := false;
    while |open| > 0 && !done
      invariant DijCore(adj, start, dist, open, closed)
      invariant DijRecord(steps, goal) && Linked(steps, dist, pred, closed) && steps[0] == first
      invariant !done ==> Explored(adj, closed, open, {}) && (goal.Some? ==> goal.value !in closed)
      invariant done ==> Outcome(steps[|steps| - 1], adj, start, goal)
      invariant closed <= Universe(adj, start)
      decreases |Universe(adj, start) - closed|
    {
      var u;
      ghost var closed0 := closed;
      dist, pred, open, closed, steps, u, done := DijkstraTurn(adj, start, goal, dist, pred, open, closed, steps);
      FewerLeft(Universe(adj, start), closed0, u);
    }
    if !done {
      steps := NoPath(adj, start, goal, dist, pred, closed, steps);
    }
  }
}
