/**
 * `Graphs/Types.ts`: graphs with weighted edges, the algorithm choice, the
 * per-step state snapshots the step generators record, and the two sample
 * graphs.
 */
module GraphTypes {
  import opened Wrappers

  type NodeId = string

  /** `WeightedEdge`: `[sourceId, targetId, weight]`. Weights are integers, as in the sample graphs. */
  datatype Edge = Edge(source: NodeId, target: NodeId, weight: int)

  datatype Graph = Graph(nodes: seq<NodeId>, edges: seq<Edge>, directed: bool)

  /** `AlgorithmType`. */
  datatype AlgorithmType = Bfs | Dfs | Dijkstra | AStar

  predicate IsPathfinding(a: AlgorithmType)
  {
    a == Dijkstra || a == AStar
  }

  /** A distance of a pathfinding state: JavaScript's `Infinity` or a finite number. */
  datatype Dist = Inf | Fin(n: int)

  /** `a < b` on distances: a finite value is below `Infinity` and below every larger finite value. */
  predicate DistLess(a: Dist, b: Dist)
  {
    a.Fin? && (b.Inf? || a.n < b.n)
  }

  predicate DistLessEq(a: Dist, b: Dist)
  {
    a == b || DistLess(a, b)
  }

  /**
   * `TraversalStepState` (visited set and the queue of BFS or the stack of DFS,
   * as `frontier`) or `PathfindingStepState` (distances, predecessors, open and
   * closed sets). The A* heuristic maps are not part of this model.
   */
  datatype StepState =
    | TraversalState(visited: set<NodeId>, frontier: seq<NodeId>)
    | PathfindingState(distances: map<NodeId, Dist>, predecessors: map<NodeId, Option<NodeId>>,
                       openSet: set<NodeId>, closedSet: set<NodeId>)

  /** `AlgorithmStep`: a snapshot of the state after `action`, with the final path when one was found. */
  datatype AlgorithmStep = AlgorithmStep(algorithm: AlgorithmType, currentNode: Option<NodeId>, action: string,
                                         state: StepState, path: Option<seq<NodeId>>, goalNode: Option<NodeId>)

  /** The action names the generators emit. */
  const INITIAL := "INITIAL"
  const DEQUEUE_VISIT := "DEQUEUE / VISIT"
  const ENQUEUE_NEIGHBORS := "ENQUEUE_NEIGHBORS"
  const POP := "POP"
  const VISIT := "VISIT"
  const PUSH_NEIGHBORS := "PUSH_NEIGHBORS"
  const ALREADY_VISITED := "ALREADY_VISITED"
  const FINISHED := "FINISHED"
  const INITIALIZE := "INITIALIZE"
  const EXTRACT_MIN := "EXTRACT_MIN"
  const GOAL_FOUND := "GOAL_FOUND"
  const EXPLORE_NEIGHBORS := "EXPLORE_NEIGHBORS"
  const NO_PATH := "NO_PATH"

  /** The nine weighted edges both sample graphs share. */
  function SampleEdges(): seq<Edge>
  {
    [Edge("A", "B", 4), Edge("A", "C", 2),
     Edge("B", "E", 3),
     Edge("C", "D", 2), Edge("C", "F", 4),
     Edge("D", "F", 1), Edge("D", "G", 5),
     Edge("E", "F", 2),
     Edge("F", "G", 3)]
  }

  function SampleNodes(): seq<NodeId>
  {
    ["A", "B", "C", "D", "E", "F", "G"]
  }

  function DirectedWeightedGraph(): Graph
  {
    Graph(SampleNodes(), SampleEdges(), true)
  }

  function NonDirectedWeightedGraph(): Graph
  {
    Graph(SampleNodes(), SampleEdges(), false)
  }

  /** `initialGraph`. */
  function InitialGraph(): Graph
  {
    NonDirectedWeightedGraph()
  }

  /** Every endpoint of every edge is a node of the graph. */
  predicate EndpointsAreNodes(g: Graph)
  {
    forall i :: 0 <= i < |g.edges| ==> g.edges[i].source in g.nodes && g.edges[i].target in g.nodes
  }

  /** The two samples share nodes and nine edges and differ only in `directed`; the initial graph is the undirected one. */
  lemma SampleGraphsShareEdges()
    ensures DirectedWeightedGraph().nodes == NonDirectedWeightedGraph().nodes
    ensures DirectedWeightedGraph().edges == NonDirectedWeightedGraph().edges && |SampleEdges()| == 9
    ensures DirectedWeightedGraph().directed && !NonDirectedWeightedGraph().directed
    ensures InitialGraph() == NonDirectedWeightedGraph() && !InitialGraph().directed
  {
  }

  /** The samples' edges join nodes of the samples and carry positive weights. */
  lemma SampleEdgesWellFormed()
    ensures EndpointsAreNodes(DirectedWeightedGraph()) && EndpointsAreNodes(NonDirectedWeightedGraph())
    ensures forall i :: 0 <= i < |SampleEdges()| ==> SampleEdges()[i].weight > 0
  {
    var ns, es := SampleNodes(), SampleEdges();
    assert ns[0] == "A" && ns[1] == "B" && ns[2] == "C" && ns[3] == "D" && ns[4] == "E" && ns[5] == "F" && ns[6] == "G";
    forall i | 0 <= i < |es| ensures es[i].source in ns && es[i].target in ns {
    }
  }
}
