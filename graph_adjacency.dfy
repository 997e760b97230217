/**
 * The `adj` memo of `GraphTraversalVisualizer.tsx`: one neighbour list per
 * node, filled edge by edge and then sorted by neighbour id.
 */
module GraphAdjacency {
  import opened Text
  import opened GraphTypes

  /** `{ neighbor, weight }`. */
  datatype Neighbor = Neighbor(neighbor: NodeId, weight: int)

  type Adjacency = map<NodeId, seq<Neighbor>>

  /** The neighbours of `u`: its list, or `[]` when `u` has none (`adj.get(u) ?? []`). */
  function NeighborsOf(adj: Adjacency, u: NodeId): (r: seq<Neighbor>)
    // a node without a list has no neighbours
    ensures r != [] ==> u in adj && r == adj[u]
  {
    if u in adj then adj[u] else []
  }

  /**
   * What edge `e` adds to the list of `u`, given the set of known nodes: the
   * forward entry at its source and, for an undirected graph, the reverse
   * entry at a target other than the source. An edge naming an unknown node
   * adds nothing.
   */
  function Contribution(known: set<NodeId>, directed: bool, e: Edge, u: NodeId): seq<Neighbor>
  {
    if !(e.source in known && e.target in known) then []
    else if e.source == u then [Neighbor(e.target, e.weight)]
    else if !directed && e.target == u then [Neighbor(e.source, e.weight)]
    else []
  }

  /** The entries of `u`'s list, in the order the edges push them. */
  function Incidences(known: set<NodeId>, directed: bool, edges: seq<Edge>, u: NodeId): seq<Neighbor>
    decreases |edges|
  {
    if edges == [] then []
    else Incidences(known, directed, edges[..|edges| - 1], u) + Contribution(known, directed, edges[|edges| - 1], u)
  }

  /** The pushes of the first `j + 1` edges are those of the first `j`, then edge `j`'s. */
  lemma IncidencesSnoc(known: set<NodeId>, directed: bool, edges: seq<Edge>, j: int, u: NodeId)
    requires 0 <= j < |edges|
    ensures Incidences(known, directed, edges[..j + 1], u) == Incidences(known, directed, edges[..j], u) + Contribution(known, directed, edges[j], u)
  {
    assert edges[..j + 1][..j] == edges[..j];
  }

  /** An entry is in `u`'s list exactly when some edge between known nodes produces it. */
  lemma {:induction false} IncidencesMembers(known: set<NodeId>, directed: bool, edges: seq<Edge>, u: NodeId, x: Neighbor)
    ensures x in Incidences(known, directed, edges, u) <==>
      exists i :: 0 <= i < |edges| && edges[i].source in known && edges[i].target in known &&
        ((edges[i].source == u && x == Neighbor(edges[i].target, edges[i].weight)) ||
         (!directed && edges[i].source != edges[i].target && edges[i].target == u && x == Neighbor(edges[i].source, edges[i].weight)))
    decreases |edges|
  {
    if edges != [] {
      var front := edges[..|edges| - 1];
      IncidencesMembers(known, directed, front, u, x);
      forall i | 0 <= i < |front| ensures front[i] == edges[i] {
      }
    }
  }

  /** Each entry's id is at most the next one's. */
  predicate SortedByNeighbor(s: seq<Neighbor>)
  {
    forall i :: 0 < i < |s| ==> LessEq(s[i - 1].neighbor, s[i].neighbor)
  }

  /** Inserts `x` after every entry whose id is not above its own, which keeps equal ids in arrival order. */
  function InsertByNeighbor(x: Neighbor, s: seq<Neighbor>): (r: seq<Neighbor>)
    ensures |r| == |s| + 1 && (r[0] == x || (s != [] && r[0] == s[0]))
  {
    if s == [] then [x]
    else if Less(x.neighbor, s[0].neighbor) then [x] + s
    else [s[0]] + InsertByNeighbor(x, s[1..])
  }

  /** `neighbors.sort((a, b) => a.neighbor.localeCompare(b.neighbor))`: a stable sort by id. */
  function SortByNeighbor(s: seq<Neighbor>): seq<Neighbor>
    decreases |s|
  {
    if s == [] then [] else InsertByNeighbor(s[|s| - 1], SortByNeighbor(s[..|s| - 1]))
  }

  lemma {:induction false} InsertByNeighborSpec(x: Neighbor, s: seq<Neighbor>)
    requires SortedByNeighbor(s)
    ensures SortedByNeighbor(InsertByNeighbor(x, s))
    ensures multiset(InsertByNeighbor(x, s)) == multiset(s) + multiset{x}
    decreases |s|
  {
    if s != [] && !Less(x.neighbor, s[0].neighbor) {
      LessTotal(x.neighbor, s[0].neighbor);
      var rest := InsertByNeighbor(x, s[1..]);
      InsertByNeighborSpec(x, s[1..]);
      assert s == [s[0]] + s[1..];
      var r := [s[0]] + rest;
      forall i | 0 < i < |r| ensures LessEq(r[i - 1].neighbor, r[i].neighbor) {
        if i > 1 {
          assert r[i - 1] == rest[i - 2] && r[i] == rest[i - 1];
        }
      }
    }
  }

  /** The sort orders the list by id and keeps exactly its entries. */
  lemma {:induction false} SortByNeighborSpec(s: seq<Neighbor>)
    ensures SortedByNeighbor(SortByNeighbor(s))
    ensures multiset(SortByNeighbor(s)) == multiset(s)
    decreases |s|
  {
    if s != [] {
      var front := s[..|s| - 1];
      SortByNeighborSpec(front);
      InsertByNeighborSpec(s[|s| - 1], SortByNeighbor(front));
      assert s == front + [s[|s| - 1]];
    }
  }

  /** The reference adjacency: every node's entries, as the edges push them, sorted by id. */
  predicate IsAdjacencyOf(adj: Adjacency, g: Graph)
  {
    && adj.Keys == (set u | u in g.nodes)
    && forall u :: u in adj ==> adj[u] == SortByNeighbor(Incidences(adj.Keys, g.directed, g.edges, u))
  }

  /** The memo: an empty list per node, the pushes of each edge between nodes that exist, then one sort per list. */
  method BuildAdjacency(g: Graph) returns (adj: Adjacency)
    ensures IsAdjacencyOf(adj, g)
  {
    var lists := EmptyLists(g.nodes);
    lists := PushEdges(lists, g.directed, g.edges);
    adj := SortLists(lists);
  }

  /** `graph.nodes.forEach(node => map.set(node, []))`. */
  method EmptyLists(nodes: seq<NodeId>) returns (lists: Adjacency)
    ensures lists.Keys == set u | u in nodes
    ensures forall u :: u in lists ==> lists[u] == []
  {
    lists := map[];
    var i := 0;
    while i < |nodes|
      invariant 0 <= i <= |nodes|
      invariant lists.Keys == set u | u in nodes[..i]
      invariant forall u :: u in lists ==> lists[u] == []
    {
      assert nodes[..i + 1] == nodes[..i] + [nodes[i]];
      lists := lists[nodes[i] := []];
      i := i + 1;
    }
    assert nodes[..i] == nodes;
  }

  /** The lists after the pushes of edge `e`. */
  function Pushed(lists: Adjacency, directed: bool, e: Edge): Adjacency
  {
    if e.source in lists && e.target in lists then
      var l := lists[e.source := lists[e.source] + [Neighbor(e.target, e.weight)]];
      if !directed && e.source != e.target then l[e.target := l[e.target] + [Neighbor(e.source, e.weight)]] else l
    else lists
  }

  /** Pushing edge `j` onto the lists of the first `j` edges gives the lists of the first `j + 1`. */
  lemma PushStep(known: set<NodeId>, directed: bool, edges: seq<Edge>, j: int, lists: Adjacency)
    requires 0 <= j < |edges| && lists.Keys == known
    requires forall u :: u in lists ==> lists[u] == Incidences(known, directed, edges[..j], u)
    ensures Pushed(lists, directed, edges[j]).Keys == known
    ensures forall u :: u in Pushed(lists, directed, edges[j]) ==>
      Pushed(lists, directed, edges[j])[u] == Incidences(known, directed, edges[..j + 1], u)
  {
    var after := Pushed(lists, directed, edges[j]);
    forall u | u in after ensures after[u] == Incidences(known, directed, edges[..j + 1], u) {
      IncidencesSnoc(known, directed, edges, j, u);
    }
  }

  /** `graph.edges.forEach(...)`: pushes each edge whose endpoints both have a list. */
  method PushEdges(empty: Adjacency, directed: bool, edges: seq<Edge>) returns (lists: Adjacency)
    requires forall u :: u in empty ==> empty[u] == []
    ensures lists.Keys == empty.Keys
    ensures forall u :: u in lists ==> lists[u] == Incidences(empty.Keys, directed, edges, u)
  {
    lists := empty;
    var j := 0;
    while j < |edges|
      invariant 0 <= j <= |edges| && lists.Keys == empty.Keys
      invariant forall u :: u in lists ==> lists[u] == Incidences(empty.Keys, directed, edges[..j], u)
    {
      var e := edges[j];
      PushStep(empty.Keys, directed, edges, j, lists);
      if e.source in lists && e.target in lists {
        lists := lists[e.source := lists[e.source] + [Neighbor(e.target, e.weight)]];
        if !directed && e.source != e.target {
          lists := lists[e.target := lists[e.target] + [Neighbor(e.source, e.weight)]];
        }
      }
      j := j + 1;
    }
    assert edges[..j] == edges;
  }

  /** `map.forEach(neighbors => neighbors.sort(...))`. */
  method SortLists(lists: Adjacency) returns (sorted: Adjacency)
    ensures sorted.Keys == lists.Keys
    ensures forall u :: u in sorted ==> sorted[u] == SortByNeighbor(lists[u])
  {
    sorted := lists;
    var todo := lists.Keys;
    while todo != {}
      invariant todo <= lists.Keys && sorted.Keys == lists.Keys
      invariant forall u :: u in sorted ==> sorted[u] == if u in todo then lists[u] else SortByNeighbor(lists[u])
      decreases |todo|
    {
      var u :| u in todo;
      sorted := sorted[u := SortByNeighbor(sorted[u])];
      todo := todo - {u};
    }
  }

  /**
   * The adjacency's lists: sorted by id, and an entry `(v, w)` is in `u`'s list
   * exactly when an edge `u -> v` of weight `w` joins two known nodes, or the
   * graph is undirected and such an edge `v -> u` with `v != u` exists. So
   * edges naming unknown nodes are skipped.
   */
  lemma AdjacencyEntries(adj: Adjacency, g: Graph, u: NodeId, x: Neighbor)
    requires IsAdjacencyOf(adj, g) && u in adj
    ensures SortedByNeighbor(adj[u])
    ensures x in adj[u] <==>
      exists i :: 0 <= i < |g.edges| && g.edges[i].source in g.nodes && g.edges[i].target in g.nodes &&
        ((g.edges[i].source == u && x == Neighbor(g.edges[i].target, g.edges[i].weight)) ||
         (!g.directed && g.edges[i].source != g.edges[i].target && g.edges[i].target == u && x == Neighbor(g.edges[i].source, g.edges[i].weight)))
  {
    var inc := Incidences(adj.Keys, g.directed, g.edges, u);
    SortByNeighborSpec(inc);
    IncidencesMembers(adj.Keys, g.directed, g.edges, u, x);
    assert x in adj[u] <==> x in multiset(inc);
  }

  /** Every entry names a known node, and in an undirected graph every entry has its mirror. */
  lemma AdjacencySymmetric(adj: Adjacency, g: Graph, u: NodeId, x: Neighbor)
    requires IsAdjacencyOf(adj, g) && u in adj && x in adj[u]
    ensures x.neighbor in adj
    ensures !g.directed ==> Neighbor(u, x.weight) in NeighborsOf(adj, x.neighbor)
  {
    AdjacencyEntries(adj, g, u, x);
    var i :| 0 <= i < |g.edges| && g.edges[i].source in g.nodes && g.edges[i].target in g.nodes &&
      ((g.edges[i].source == u && x == Neighbor(g.edges[i].target, g.edges[i].weight)) ||
       (!g.directed && g.edges[i].source != g.edges[i].target && g.edges[i].target == u && x == Neighbor(g.edges[i].source, g.edges[i].weight)));
    if !g.directed {
      AdjacencyEntries(adj, g, x.neighbor, Neighbor(u, x.weight));
      if g.edges[i].source == u && g.edges[i].source == g.edges[i].target {
        assert x.neighbor == u;
      }
    }
  }
}
