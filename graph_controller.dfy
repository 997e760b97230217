/**
 * The state and handlers of `GraphTraversalVisualizer.tsx`: the chosen graph
 * and its adjacency lists, the algorithm, the recorded steps with the cursor
 * into them, the run flags, the speed, and the start and end nodes. The
 * timer effect is the explicit `Tick` call; the mount effect is `Mount`.
 */
module GraphController {
  import opened Wrappers
  import opened GraphTypes
  import opened GraphAdjacency
  import opened GraphSearch
  import opened GraphDijkstra

  const DEFAULT_SPEED_MS := 800
  const MIN_SPEED_MS := 50

  /** Every error action starts with this tag. */
  const ERROR_TAG := "ERROR"
  const ERROR_START := ERROR_TAG + ": Invalid or missing Start Node"
  const ERROR_END := ERROR_TAG + ": Invalid or missing End Node"
  const ERROR_NO_STEPS := ERROR_TAG + ": Algorithm failed to generate steps"

  /** JavaScript truthiness of a `NodeId | null`: both `null` and `""` are falsy. */
  predicate Present(n: Option<NodeId>)
  {
    n.Some? && n.value != ""
  }

  /** The empty state an error step carries for each algorithm. */
  function EmptyState(alg: AlgorithmType): StepState
  {
    if IsPathfinding(alg) then PathfindingState(map[], map[], {}, {}) else TraversalState({}, [])
  }

  /** What the checks at the top of `startAlgorithm` decide. */
  datatype Plan =
    | Reject(error: AlgorithmStep)       // a single error step, not running
    | Immediate(found: AlgorithmStep)    // start == end: a single GOAL_FOUND step, running and paused
    | Generate(start: NodeId)            // run the step generator from `start`

  /** The input validation of `startAlgorithm`, over the nodes `known` that have adjacency lists. */
  function PlanStart(alg: AlgorithmType, startNode: Option<NodeId>, endNode: Option<NodeId>, known: set<NodeId>): Plan
  {
    if !Present(startNode) || startNode.value !in known then
      Reject(AlgorithmStep(alg, None, ERROR_START, EmptyState(alg), None, endNode))
    else if IsPathfinding(alg) && (!Present(endNode) || endNode.value !in known) then
      Reject(AlgorithmStep(alg, startNode, ERROR_END, PathfindingState(map[], map[], {}, {}), None, endNode))
    else if IsPathfinding(alg) && startNode == endNode then
      var s := startNode.value;
      Immediate(AlgorithmStep(alg, startNode, GOAL_FOUND,
                              PathfindingState(map[s := Fin(0)], map[s := None], {}, {s}), Some([s]), endNode))
    else
      Generate(startNode.value)
  }

  /** A missing, empty or unknown start node is rejected with an error step that names no current node. */
  lemma StartRejected(alg: AlgorithmType, startNode: Option<NodeId>, endNode: Option<NodeId>, known: set<NodeId>)
    requires !Present(startNode) || startNode.value !in known
    ensures var p := PlanStart(alg, startNode, endNode, known);
      && p.Reject? && p.error.action == ERROR_START && p.error.currentNode.None?
      && p.error.algorithm == alg && p.error.state == EmptyState(alg) && p.error.goalNode == endNode
  {
  }

  /** A pathfinding run with a valid start but a missing, empty or unknown end is rejected at the start node. */
  lemma EndRejected(alg: AlgorithmType, startNode: Option<NodeId>, endNode: Option<NodeId>, known: set<NodeId>)
    requires Present(startNode) && startNode.value in known
    requires IsPathfinding(alg) && (!Present(endNode) || endNode.value !in known)
    ensures var p := PlanStart(alg, startNode, endNode, known);
      && p.Reject? && p.error.action == ERROR_END && p.error.currentNode == startNode
      && p.error.state == PathfindingState(map[], map[], {}, {})
  {
  }

  /**
   * A pathfinding run from a valid node to itself is a single GOAL_FOUND
   * step: the path is just the start, which is closed at distance 0.
   */
  lemma SameEndpoints(alg: AlgorithmType, s: NodeId, known: set<NodeId>)
    requires IsPathfinding(alg) && s != "" && s in known
    ensures var p := PlanStart(alg, Some(s), Some(s), known);
      && p.Immediate? && p.found.action == GOAL_FOUND && p.found.currentNode == Some(s)
      && p.found.path == Some([s]) && p.found.goalNode == Some(s)
      && p.found.state.PathfindingState? && p.found.state.closedSet == {s} && p.found.state.openSet == {}
      && p.found.state.distances == map[s := Fin(0)]
  {
  }

  /**
   * The generator runs exactly when the start is valid and, for
   * pathfinding, the end is valid and different from it; it then runs from the start.
   */
  lemma GenerateExactly(alg: AlgorithmType, startNode: Option<NodeId>, endNode: Option<NodeId>, known: set<NodeId>)
    ensures var p := PlanStart(alg, startNode, endNode, known);
      && (p.Generate? <==>
            && Present(startNode) && startNode.value in known
            && (IsPathfinding(alg) ==> Present(endNode) && endNode.value in known && startNode != endNode))
      && (p.Generate? ==> p.start == startNode.value)
  {
  }

  /**
   * While the start and end differ, as the node setters keep them, the
   * start == end shortcut never fires.
   */
  lemma ApartNeverImmediate(alg: AlgorithmType, startNode: Option<NodeId>, endNode: Option<NodeId>, known: set<NodeId>)
    requires startNode.Some? ==> startNode != endNode
    ensures !PlanStart(alg, startNode, endNode, known).Immediate?
  {
  }

  /** `nodes.find(n => n !== x)`. */
  function FindOther(nodes: seq<NodeId>, x: NodeId): (r: Option<NodeId>)
  {
    if nodes == [] then None
    else if nodes[0] != x then Some(nodes[0])
    else FindOther(nodes[1..], x)
  }

  /** `find` returns a node of the list other than `x`, the first such one, and fails only when every node is `x`. */
  lemma {:induction false} FindOtherSpec(nodes: seq<NodeId>, x: NodeId)
    ensures var r := FindOther(nodes, x);
      && (r.Some? ==> r.value in nodes && r.value != x)
      && (r.None? <==> forall i :: 0 <= i < |nodes| ==> nodes[i] == x)
      && (r.Some? ==> exists k :: 0 <= k < |nodes| && nodes[k] == r.value && forall i :: 0 <= i < k ==> nodes[i] == x)
  {
    if nodes != [] && nodes[0] == x {
      FindOtherSpec(nodes[1..], x);
      var r := FindOther(nodes, x);
      if r.Some? {
        var k :| 0 <= k < |nodes[1..]| && nodes[1..][k] == r.value && forall i :: 0 <= i < k ==> nodes[1..][i] == x;
        assert nodes[k + 1] == r.value;
        assert forall i :: 0 <= i < k + 1 ==> nodes[i] == x by {
          forall i | 0 <= i < k + 1 ensures nodes[i] == x {
            if i > 0 {
              assert nodes[i] == nodes[1..][i - 1];
            }
          }
        }
      } else {
        forall i | 0 <= i < |nodes| ensures nodes[i] == x {
          if i > 0 {
            assert nodes[i] == nodes[1..][i - 1];
          }
        }
      }
    } else if nodes != [] {
      assert nodes[0] in nodes;
    }
  }

  /** The start node after switching graphs: kept when the new graph has it, else the first node, if any. */
  function ToggledStart(nodes: seq<NodeId>, startNode: Option<NodeId>): Option<NodeId>
  {
    var kept := if (if startNode.Some? then startNode.value else "") in nodes then startNode
                else if |nodes| > 0 then Some(nodes[0]) else None;
    if !Present(kept) && |nodes| > 0 then Some(nodes[0]) else kept
  }

  /** The end node after switching graphs: kept when the new graph has it and it differs from the start, else another node. */
  function ToggledEnd(nodes: seq<NodeId>, newStart: Option<NodeId>, endNode: Option<NodeId>): Option<NodeId>
  {
    var kept := if (if endNode.Some? then endNode.value else "") in nodes then endNode else None;
    if Present(newStart) && (!Present(kept) || kept == newStart) then FindOther(nodes, newStart.value) else kept
  }

  /**
   * On a node list without `""`, switching graphs keeps start and end when
   * they are nodes and distinct, picks nodes of the list otherwise, and never
   * leaves the end equal to the start.
   */
  lemma ToggledEndpoints(nodes: seq<NodeId>, startNode: Option<NodeId>, endNode: Option<NodeId>)
    requires "" !in nodes
    ensures var s := ToggledStart(nodes, startNode);
      var e := ToggledEnd(nodes, s, endNode);
      && (|nodes| > 0 <==> s.Some?)
      && (s.Some? ==> s.value in nodes)
      && (startNode.Some? && startNode.value in nodes ==> s == startNode)
      && (e.Some? ==> e.value in nodes && e != s)
      && (endNode.Some? && endNode.value in nodes && endNode != s ==> e == endNode)
  {
    var s := ToggledStart(nodes, startNode);
    if s.Some? {
      FindOtherSpec(nodes, s.value);
    }
    if |nodes| > 0 {
      assert nodes[0] in nodes;
    }
  }

  /** The step generators' outcome from `start`, as proved of each of them. */
  ghost predicate GeneratedBy(alg: AlgorithmType, adj: Adjacency, nodes: seq<NodeId>, start: NodeId, goal: Option<NodeId>,
                              steps: seq<AlgorithmStep>)
  {
    |steps| > 0 &&
    match alg
    case Bfs =>
      && steps[0] == BfsStep(Some(start), INITIAL, {start}, [start])
      && steps[|steps| - 1].action == FINISHED && steps[|steps| - 1].state.TraversalState?
      && (forall v :: v in steps[|steps| - 1].state.visited <==> Reachable(adj, start, v))
    case Dfs =>
      && steps[0] == DfsStep(Some(start), INITIAL, {}, [start])
      && steps[|steps| - 1].action == FINISHED && steps[|steps| - 1].state.TraversalState?
      && (forall v :: v in steps[|steps| - 1].state.visited <==> Reachable(adj, start, v))
    case Dijkstra =>
      DijRecord(steps, goal) && InitialStep(steps[0], nodes, start) && Outcome(steps[|steps| - 1], adj, start, goal)
    case AStar => true
  }

  /** The graph `toggleDirected` switches to: the other sample. */
  function SwitchedGraph(g: Graph): (h: Graph)
  {
    if g.directed then NonDirectedWeightedGraph() else DirectedWeightedGraph()
  }

  /** The other sample has the opposite direction and seven nodes, none of them `""`. */
  lemma SwitchedGraphFacts(g: Graph)
    ensures SwitchedGraph(g).directed == !g.directed && "" !in SwitchedGraph(g).nodes && |SwitchedGraph(g).nodes| == 7
  {
  }

  /** JavaScript's `r ?? d` on an optional node. */
  function OrElse(r: Option<NodeId>, d: NodeId): Option<NodeId>
  {
    if r.Some? then r else Some(d)
  }

  class Visualizer {
    var graph: Graph
    var adj: Adjacency
    var algorithmType: AlgorithmType
    var currentStepIndex: int
    var steps: seq<AlgorithmStep>
    var isRunning: bool
    var isPaused: bool
    var speed: int
    var startNode: Option<NodeId>
    var endNode: Option<NodeId>

    /**
     * The component's invariant: the cursor is -1 exactly when there are no
     * steps and else indexes one; a paused run is running and a running one
     * has steps; and the speed is at least the minimum. `graph` and `adj`
     * change only together, in the constructor and `ToggleDirected`, which
     * leave `adj` the memo of `graph`.
     */
    ghost predicate Valid()
      reads this
    {
      && -1 <= currentStepIndex < |steps| && (currentStepIndex == -1 <==> |steps| == 0)
      && (isPaused ==> isRunning) && (isRunning ==> |steps| > 0)
      && speed >= MIN_SPEED_MS
    }

    /**
     * The start and end are never the same node: the node setters, the
     * graph switch and the mount effect establish it and nothing else
     * changes either node.
     */
    predicate EndpointsApart()
      reads this
    {
      startNode.Some? ==> startNode != endNode
    }

    /** The initial `useState` values: the undirected sample, BFS, no steps, idle, 800 ms, no start or end. */
    constructor()
      ensures Valid() && EndpointsApart() && IsAdjacencyOf(adj, graph)
      ensures graph == InitialGraph() && algorithmType == Bfs && steps == [] && currentStepIndex == -1
      ensures !isRunning && !isPaused && speed == DEFAULT_SPEED_MS && startNode == None && endNode == None
    {
      var a := BuildAdjacency(InitialGraph());
      graph, adj := InitialGraph(), a;
      algorithmType := Bfs;
      currentStepIndex, steps := -1, [];
      isRunning, isPaused := false, false;
      speed := DEFAULT_SPEED_MS;
      startNode, endNode := None, None;
    }

    /** `isFinished`: there are steps and the cursor is on the last one. */
    function IsFinished(): (r: bool)
      reads this
      requires Valid()
      ensures r <==> |steps| > 0 && currentStepIndex == |steps| - 1
    {
      currentStepIndex >= |steps| - 1 && |steps| > 0
    }

    /** `steps[currentStepIndex] ?? null`. */
    function CurrentStep(): (r: Option<AlgorithmStep>)
      reads this
      requires Valid()
      ensures r.None? <==> |steps| == 0
      ensures r.Some? ==> r.value == steps[currentStepIndex]
    {
      if 0 <= currentStepIndex < |steps| then Some(steps[currentStepIndex]) else None
    }

    /**
     * The mount effect: the first node of the initial graph becomes the
     * start, and the first other node (or else the second node) the end.
     */
    method Mount()
      requires Valid()
      modifies this
      ensures Valid()
      ensures EndpointsApart()
      ensures var nodes := InitialGraph().nodes;
        && startNode == Some(nodes[0])
        && endNode == OrElse(FindOther(nodes, nodes[0]), nodes[1])
      ensures startNode == Some("A") && endNode == Some("B")
      ensures graph == old(graph) && adj == old(adj) && steps == old(steps) && currentStepIndex == old(currentStepIndex)
      ensures isRunning == old(isRunning) && isPaused == old(isPaused) && speed == old(speed)
      ensures algorithmType == old(algorithmType)
    {
      var nodes := InitialGraph().nodes;
      if |nodes| > 0 {
        var defaultStart := nodes[0];
        startNode := Some(defaultStart);
        if |nodes| > 1 {
          var other := FindOther(nodes, defaultStart);
          endNode := OrElse(other, nodes[1]);
        }
      }
      assert nodes[1] == "B" && nodes[0] == "A";
    }

    /**
     * The timer effect, one firing: a running, unpaused run moves to the next
     * step, or stops once it is on the last one.
     */
    method Tick()
      requires Valid()
      modifies this
      ensures Valid()
      ensures old(isRunning && !isPaused && currentStepIndex < |steps| - 1) ==>
        currentStepIndex == old(currentStepIndex) + 1 && isRunning && !isPaused
      ensures old(isRunning && !isPaused && currentStepIndex >= |steps| - 1) ==>
        currentStepIndex == old(currentStepIndex) && !isRunning && !isPaused
      ensures old(!isRunning || isPaused) ==>
        currentStepIndex == old(currentStepIndex) && isRunning == old(isRunning) && isPaused == old(isPaused)
      ensures graph == old(graph) && adj == old(adj) && steps == old(steps) && speed == old(speed)
      ensures startNode == old(startNode) && endNode == old(endNode) && algorithmType == old(algorithmType)
    {
      var canStepForward := currentStepIndex < |steps| - 1;
      if isRunning && !isPaused && canStepForward {
        currentStepIndex := currentStepIndex + 1;
      } else if isRunning && !isPaused && !canStepForward && |steps| > 0 {
        isRunning, isPaused := false, false;
      }
    }

    /** `resetAlgorithm`: no steps, cursor before the first, idle; graph, nodes, algorithm and speed stay. */
    method ResetAlgorithm()
      requires Valid()
      modifies this
      ensures Valid()
      ensures currentStepIndex == -1 && steps == [] && !isRunning && !isPaused
      ensures graph == old(graph) && adj == old(adj) && speed == old(speed)
      ensures startNode == old(startNode) && endNode == old(endNode) && algorithmType == old(algorithmType)
    {
      currentStepIndex, steps := -1, [];
      isRunning, isPaused := false, false;
    }

    /**
     * `toggleDirected`: unless a run is active, switch to the other sample
     * graph, revalidate start and end against its nodes, and reset.
     */
    method ToggleDirected()
      requires Valid()
      modifies this
      ensures Valid()
      ensures old(!isRunning || isPaused) ==> EndpointsApart()
      ensures old(isRunning && !isPaused) ==>
        graph == old(graph) && steps == old(steps) && currentStepIndex == old(currentStepIndex)
        && isRunning && !isPaused && startNode == old(startNode) && endNode == old(endNode)
      ensures old(!isRunning || isPaused) ==>
        && graph == SwitchedGraph(old(graph)) && IsAdjacencyOf(adj, graph)
        && graph.directed == !old(graph).directed
        && startNode == ToggledStart(graph.nodes, old(startNode))
        && endNode == ToggledEnd(graph.nodes, startNode, old(endNode))
        && startNode.Some? && startNode.value in graph.nodes && (endNode.Some? ==> endNode.value in graph.nodes)
        && steps == [] && currentStepIndex == -1 && !isRunning && !isPaused
      ensures speed == old(speed) && algorithmType == old(algorithmType)
    {
      if isRunning && !isPaused {
        return;
      }
      var newGraph := SwitchedGraph(graph);
      SwitchedGraphFacts(graph);
      var newStart := ToggledStart(newGraph.nodes, startNode);
      var newEnd := ToggledEnd(newGraph.nodes, newStart, endNode);
      ToggledEndpoints(newGraph.nodes, startNode, endNode);
      var a := BuildAdjacency(newGraph);
      startNode, endNode := newStart, newEnd;
      ResetAlgorithm();
      graph, adj := newGraph, a;
    }

    /** `handleSetStartNode`: unless a run is active, set the start (clearing the end if it is that node) and reset. */
    method SetStartNode(nodeId: Option<NodeId>)
      requires Valid()
      modifies this
      ensures Valid()
      ensures old(!isRunning || isPaused) ==> EndpointsApart()
      ensures old(isRunning && !isPaused) ==>
        startNode == old(startNode) && endNode == old(endNode) && steps == old(steps)
        && currentStepIndex == old(currentStepIndex) && isRunning && !isPaused
      ensures old(!isRunning || isPaused) ==>
        && startNode == nodeId
        && endNode == (if nodeId.Some? && nodeId == old(endNode) then None else old(endNode))
        && steps == [] && currentStepIndex == -1 && !isRunning && !isPaused
      ensures graph == old(graph) && adj == old(adj) && speed == old(speed) && algorithmType == old(algorithmType)
    {
      if isRunning && !isPaused {
        return;
      }
      if nodeId == endNode && nodeId.Some? {
        endNode := None;
      }
      startNode := nodeId;
      ResetAlgorithm();
    }

    /** `handleSetEndNode`: unless a run is active or the node is the start, set the end and reset. */
    method SetEndNode(nodeId: Option<NodeId>)
      requires Valid()
      modifies this
      ensures Valid()
      ensures old(EndpointsApart()) ==> EndpointsApart()
      ensures old(isRunning && !isPaused) || (nodeId.Some? && nodeId == old(startNode)) ==>
        startNode == old(startNode) && endNode == old(endNode) && steps == old(steps)
        && currentStepIndex == old(currentStepIndex) && isRunning == old(isRunning) && isPaused == old(isPaused)
      ensures !old(isRunning && !isPaused) && !(nodeId.Some? && nodeId == old(startNode)) ==>
        startNode == old(startNode) && endNode == nodeId && steps == [] && currentStepIndex == -1 && !isRunning && !isPaused
      ensures graph == old(graph) && adj == old(adj) && speed == old(speed) && algorithmType == old(algorithmType)
    {
      if isRunning && !isPaused {
        return;
      }
      if nodeId == startNode && nodeId.Some? {
        return;
      }
      endNode := nodeId;
      ResetAlgorithm();
    }

    /** `pauseResume`: a running run flips between paused and playing; otherwise nothing happens. */
    method PauseResume()
      requires Valid()
      modifies this
      ensures Valid()
      ensures isPaused == (if old(isRunning) then !old(isPaused) else old(isPaused))
      ensures isRunning == old(isRunning) && currentStepIndex == old(currentStepIndex) && steps == old(steps)
      ensures graph == old(graph) && adj == old(adj) && speed == old(speed) && algorithmType == old(algorithmType)
      ensures startNode == old(startNode) && endNode == old(endNode)
    {
      if !isRunning {
        return;
      }
      isPaused := !isPaused;
    }

    /** `handleStepForward`: while running and before the last step, pause and move one step on. */
    method StepForward()
      requires Valid()
      modifies this
      ensures Valid()
      ensures old(isRunning && currentStepIndex < |steps| - 1) ==>
        currentStepIndex == old(currentStepIndex) + 1 && isPaused && isRunning
      ensures !old(isRunning && currentStepIndex < |steps| - 1) ==>
        currentStepIndex == old(currentStepIndex) && isPaused == old(isPaused) && isRunning == old(isRunning)
      ensures steps == old(steps) && graph == old(graph) && adj == old(adj) && speed == old(speed)
      ensures startNode == old(startNode) && endNode == old(endNode) && algorithmType == old(algorithmType)
    {
      if !isRunning {
        return;
      }
      if currentStepIndex < |steps| - 1 {
        isPaused := true;
        currentStepIndex := currentStepIndex + 1;
      }
    }

    /** `handleStepBackward`: while running and past the first step, pause and move one step back. */
    method StepBackward()
      requires Valid()
      modifies this
      ensures Valid()
      ensures old(isRunning && currentStepIndex > 0) ==>
        currentStepIndex == old(currentStepIndex) - 1 && isPaused && isRunning
      ensures !old(isRunning && currentStepIndex > 0) ==>
        currentStepIndex == old(currentStepIndex) && isPaused == old(isPaused) && isRunning == old(isRunning)
      ensures steps == old(steps) && graph == old(graph) && adj == old(adj) && speed == old(speed)
      ensures startNode == old(startNode) && endNode == old(endNode) && algorithmType == old(algorithmType)
    {
      if !isRunning {
        return;
      }
      if currentStepIndex > 0 {
        isPaused := true;
        currentStepIndex := currentStepIndex - 1;
      }
    }

    /** `handleSetSpeed`: the new delay, but never below the minimum. */
    method SetSpeed(newSpeedMs: int)
      requires Valid()
      modifies this
      ensures Valid()
      ensures speed >= MIN_SPEED_MS && speed >= newSpeedMs && (speed == newSpeedMs || speed == MIN_SPEED_MS)
      ensures steps == old(steps) && currentStepIndex == old(currentStepIndex) && isRunning == old(isRunning)
      ensures isPaused == old(isPaused) && graph == old(graph) && adj == old(adj)
      ensures startNode == old(startNode) && endNode == old(endNode) && algorithmType == old(algorithmType)
    {
      speed := if newSpeedMs > MIN_SPEED_MS then newSpeedMs else MIN_SPEED_MS;
    }

    /** The algorithm selector: unless a run is active, choose the algorithm and reset. */
    method SetAlgorithmType(t: AlgorithmType)
      requires Valid()
      modifies this
      ensures Valid()
      ensures old(!isRunning || isPaused) ==>
        algorithmType == t && steps == [] && currentStepIndex == -1 && !isRunning && !isPaused
      ensures old(isRunning && !isPaused) ==>
        algorithmType == old(algorithmType) && steps == old(steps) && currentStepIndex == old(currentStepIndex)
        && isRunning && !isPaused
      ensures graph == old(graph) && adj == old(adj) && speed == old(speed)
      ensures startNode == old(startNode) && endNode == old(endNode)
    {
      if !isRunning || isPaused {
        algorithmType := t;
        ResetAlgorithm();
      }
    }

    /**
     * `startAlgorithm`, with the A* generator's steps given as `aStarSteps`:
     * a rejected input leaves one error step and no run; start == end in
     * pathfinding leaves the one GOAL_FOUND step, running and paused;
     * otherwise the generator's steps are played from the first, or, if there
     * are none, one error step is left.
     */
    method StartAlgorithm(aStarSteps: seq<AlgorithmStep>)
      requires Valid()
      modifies this
      ensures Valid()
      ensures graph == old(graph) && adj == old(adj) && speed == old(speed) && algorithmType == old(algorithmType)
      ensures startNode == old(startNode) && endNode == old(endNode)
      ensures |steps| > 0 && currentStepIndex == 0
      ensures var plan := PlanStart(algorithmType, startNode, endNode, adj.Keys);
        && (plan.Reject? ==> steps == [plan.error] && !isRunning && !isPaused)
        && (plan.Immediate? ==> steps == [plan.found] && isRunning && isPaused)
        && (plan.Generate? && algorithmType != AStar ==>
              isRunning && !isPaused && GeneratedBy(algorithmType, adj, graph.nodes, plan.start, endNode, steps))
        && (plan.Generate? && algorithmType == AStar && |aStarSteps| > 0 ==>
              steps == aStarSteps && isRunning && !isPaused)
        && (plan.Generate? && algorithmType == AStar && |aStarSteps| == 0 ==>
              steps == [AlgorithmStep(AStar, startNode, ERROR_NO_STEPS, EmptyState(AStar), None, endNode)]
              && !isRunning && !isPaused)
    {
      var plan := PlanStart(algorithmType, startNode, endNode, adj.Keys);
      match plan
      case Reject(error) =>
        steps, currentStepIndex := [error], 0;
        isRunning, isPaused := false, false;
      case Immediate(found) =>
        ResetAlgorithm();
        steps, currentStepIndex := [found], 0;
        isRunning, isPaused := true, true;
      case Generate(s) =>
        var generated := Run(algorithmType, s, aStarSteps);
        ResetAlgorithm();
        if |generated| > 0 {
          steps := generated;
          isRunning, isPaused := true, false;
          currentStepIndex := 0;
        } else {
          steps := [AlgorithmStep(algorithmType, startNode, ERROR_NO_STEPS, EmptyState(algorithmType), None, endNode)];
          currentStepIndex := 0;
        }
    }

    /** The `switch` over the algorithm: the step generator for it, run from `s` towards the end node. */
    method Run(alg: AlgorithmType, s: NodeId, aStarSteps: seq<AlgorithmStep>) returns (generated: seq<AlgorithmStep>)
      requires Valid()
      ensures alg != AStar ==> GeneratedBy(alg, adj, graph.nodes, s, endNode, generated)
      ensures alg == AStar ==> generated == aStarSteps
    {
      match alg
      case Bfs =>
        generated := BfsSteps(adj, s);
      case Dfs =>
        generated := DfsSteps(adj, s);
      case Dijkstra =>
        generated := DijkstraSteps(graph.nodes, adj, s, endNode);
      case AStar =>
        generated := aStarSteps;
    }
  }
}
