/**
 * `Graphs/GraphVisualization.tsx`: the colour of each node and the stroke of
 * each edge for the step on screen. Stroke widths are in tenths of a pixel
 * (JavaScript's `1.5` is `15`).
 */
module GraphVisualization {
  import opened Wrappers
  import opened GraphTypes

  /** The Tailwind colours the drawing uses. */
  datatype Color =
    | Green500   // "#22c55e": the start node
    | Purple500  // "#a855f7": the end node
    | Gray500    // "#6b7280": idle or undiscovered node
    | Yellow400  // "#facc15": node or edge of the final path
    | Red500     // "#ef4444": the node being processed
    | Orange500  // "#f97316": closed or visited node
    | Blue400    // "#60a5fa": node in the open set
    | Red400     // "#f87171": the edge into the node being processed
    | Gray600    // "#4b5563": default edge

  function Hex(c: Color): string
  {
    match c
    case Green500 => "#22c55e"
    case Purple500 => "#a855f7"
    case Gray500 => "#6b7280"
    case Yellow400 => "#facc15"
    case Red500 => "#ef4444"
    case Orange500 => "#f97316"
    case Blue400 => "#60a5fa"
    case Red400 => "#f87171"
    case Gray600 => "#4b5563"
  }

  /** `currentStep?.algorithm` is dijkstra or astar. */
  predicate StepIsPathfinding(step: Option<AlgorithmStep>)
  {
    step.Some? && IsPathfinding(step.value.algorithm)
  }

  /** `getNodeColor(nodeId)`. A set missing from the state (`?.has`) holds nothing. */
  function NodeColor(n: NodeId, step: Option<AlgorithmStep>, startNode: Option<NodeId>, endNode: Option<NodeId>): (c: Color)
    // without a step only the endpoints are coloured
    ensures step.None? ==> c == Green500 || c == Purple500 || c == Gray500
    // yellow marks nodes of the step's path
    ensures c == Yellow400 ==> step.Some? && step.value.path.Some? && n in step.value.path.value
  {
    if startNode == Some(n) then Green500
    else if endNode == Some(n) then Purple500
    else if step.None? then Gray500
    else
      var st := step.value;
      if st.path.Some? && n in st.path.value then Yellow400
      else if st.currentNode == Some(n) then Red500
      else if IsPathfinding(st.algorithm) then
        if st.state.PathfindingState? && n in st.state.closedSet then Orange500
        else if st.state.PathfindingState? && n in st.state.openSet then Blue400
        else Gray500
      else if st.state.TraversalState? && n in st.state.visited then Orange500
      else Gray500
  }

  /** The start node is green and the end node purple, whatever the step. */
  lemma EndpointColors(n: NodeId, step: Option<AlgorithmStep>, startNode: Option<NodeId>, endNode: Option<NodeId>)
    ensures startNode == Some(n) ==> NodeColor(n, step, startNode, endNode) == Green500
    ensures startNode != Some(n) && endNode == Some(n) ==> NodeColor(n, step, startNode, endNode) == Purple500
    ensures NodeColor(n, step, startNode, endNode) == Green500 <==> startNode == Some(n)
    ensures NodeColor(n, step, startNode, endNode) == Purple500 <==> startNode != Some(n) && endNode == Some(n)
  {
  }

  /** Not an endpoint of the search. */
  predicate Inner(n: NodeId, startNode: Option<NodeId>, endNode: Option<NodeId>)
  {
    startNode != Some(n) && endNode != Some(n)
  }

  /** The set that colours a node orange: the closed set of a pathfinding step, the visited set of a traversal. */
  predicate SetMember(n: NodeId, st: AlgorithmStep)
  {
    if IsPathfinding(st.algorithm) then st.state.PathfindingState? && n in st.state.closedSet
    else st.state.TraversalState? && n in st.state.visited
  }

  /** Colour by colour, the node states: path over current node over set membership, gray for the rest. */
  lemma NodeColorSpec(n: NodeId, step: Option<AlgorithmStep>, startNode: Option<NodeId>, endNode: Option<NodeId>)
    requires Inner(n, startNode, endNode)
    ensures var c := NodeColor(n, step, startNode, endNode);
      && (step.None? ==> c == Gray500)
      && (c == Yellow400 <==> step.Some? && step.value.path.Some? && n in step.value.path.value)
      && (c == Red500 <==> step.Some? && c != Yellow400 && step.value.currentNode == Some(n))
      && (c == Blue400 <==> StepIsPathfinding(step) && c != Yellow400 && c != Red500
                            && step.value.state.PathfindingState? && n !in step.value.state.closedSet
                            && n in step.value.state.openSet)
      && (c == Orange500 <==> (step.Some? && c != Yellow400 && c != Red500 && SetMember(n, step.value)))
      && c != Red400 && c != Gray600
  {
  }

  /** The nodes of a shown path, its endpoints aside, are yellow whatever else holds of them. */
  lemma PathNodesYellow(step: AlgorithmStep, startNode: Option<NodeId>, endNode: Option<NodeId>, i: int)
    requires step.path.Some? && 0 <= i < |step.path.value|
    requires Inner(step.path.value[i], startNode, endNode)
    ensures NodeColor(step.path.value[i], Some(step), startNode, endNode) == Yellow400
  {
  }

  /** A closed node is orange even when it is also in the open set. */
  lemma ClosedBeforeOpen(n: NodeId, step: AlgorithmStep, startNode: Option<NodeId>, endNode: Option<NodeId>)
    requires Inner(n, startNode, endNode) && IsPathfinding(step.algorithm) && step.state.PathfindingState?
    requires (step.path.None? || n !in step.path.value) && step.currentNode != Some(n)
    requires n in step.state.closedSet
    ensures NodeColor(n, Some(step), startNode, endNode) == Orange500
  {
  }

  /** `getEdgeStyle`'s result. */
  datatype EdgeStyle = EdgeStyle(stroke: Color, strokeWidth: nat)

  const DEFAULT_EDGE := EdgeStyle(Gray600, 15)
  const PATH_EDGE := EdgeStyle(Yellow400, 30)
  const PREDECESSOR_EDGE := EdgeStyle(Red400, 25)

  /** `findIndex` finds some `i` with `path[i], path[i+1]` the edge, in either direction when undirected. */
  predicate OnPath(path: seq<NodeId>, directed: bool, source: NodeId, target: NodeId)
  {
    exists i :: 0 <= i < |path| - 1 &&
      ((path[i] == source && path[i + 1] == target) || (!directed && path[i] == target && path[i + 1] == source))
  }

  /** `getEdgeStyle(sourceId, targetId)` for a graph that is `directed` or not. */
  function EdgeStyleOf(directed: bool, step: Option<AlgorithmStep>, source: NodeId, target: NodeId): (e: EdgeStyle)
    ensures step.None? ==> e == DEFAULT_EDGE
    // the predecessor style marks only the edge into the node being expanded
    ensures e == PREDECESSOR_EDGE ==> StepIsPathfinding(step) && step.value.currentNode == Some(target)
  {
    if step.Some? && step.value.path.Some? then
      if OnPath(step.value.path.value, directed, source, target) then PATH_EDGE else DEFAULT_EDGE
    else if StepIsPathfinding(step) then
      var st := step.value;
      if st.currentNode == Some(target) && st.state.PathfindingState? && target in st.state.predecessors
         && st.state.predecessors[target] == Some(source)
      then PREDECESSOR_EDGE
      else DEFAULT_EDGE
    else DEFAULT_EDGE
  }

  /**
   * With a path on the step, an edge is yellow and 3px wide exactly when its
   * ends are consecutive on the path; every other edge keeps the default.
   */
  lemma PathEdges(directed: bool, step: AlgorithmStep, source: NodeId, target: NodeId)
    requires step.path.Some?
    ensures var e := EdgeStyleOf(directed, Some(step), source, target);
      && (e == PATH_EDGE <==> OnPath(step.path.value, directed, source, target))
      && (e != PATH_EDGE ==> e == DEFAULT_EDGE)
  {
  }

  /** Every consecutive pair of the path is drawn as a path edge, and for an undirected graph so is its reverse. */
  lemma {:induction false} PathEdgesHighlighted(directed: bool, step: AlgorithmStep, i: int)
    requires step.path.Some? && 0 <= i < |step.path.value| - 1
    ensures var p := step.path.value;
      && EdgeStyleOf(directed, Some(step), p[i], p[i + 1]) == PATH_EDGE
      && (!directed ==> EdgeStyleOf(directed, Some(step), p[i + 1], p[i]) == PATH_EDGE)
  {
    var p := step.path.value;
    assert OnPath(p, directed, p[i], p[i + 1]);
    if !directed {
      assert OnPath(p, directed, p[i + 1], p[i]);
    }
  }

  /** Undirected path edges are symmetric; directed ones count only forwards. */
  lemma {:induction false} OnPathDirection(path: seq<NodeId>, source: NodeId, target: NodeId)
    ensures OnPath(path, false, source, target) <==> OnPath(path, false, target, source)
    ensures OnPath(path, true, source, target) <==>
            exists i :: 0 <= i < |path| - 1 && path[i] == source && path[i + 1] == target
    ensures OnPath(path, true, source, target) ==> OnPath(path, false, source, target)
  {
    if OnPath(path, false, source, target) {
      var i :| 0 <= i < |path| - 1 &&
        ((path[i] == source && path[i + 1] == target) || (path[i] == target && path[i + 1] == source));
      assert OnPath(path, false, target, source);
    }
    if OnPath(path, false, target, source) {
      var i :| 0 <= i < |path| - 1 &&
        ((path[i] == target && path[i + 1] == source) || (path[i] == source && path[i + 1] == target));
      assert OnPath(path, false, source, target);
    }
    if OnPath(path, true, source, target) {
      var i :| 0 <= i < |path| - 1 && path[i] == source && path[i + 1] == target;
      assert OnPath(path, false, source, target);
    }
  }

  /**
   * Without a path, on a pathfinding step the edge from the current node's
   * predecessor into it is red and 2.5px wide, and every other edge keeps
   * the default; traversal steps draw every edge by default.
   */
  lemma PredecessorEdge(directed: bool, step: AlgorithmStep, source: NodeId, target: NodeId)
    requires step.path.None?
    ensures var e := EdgeStyleOf(directed, Some(step), source, target);
      && (e == PREDECESSOR_EDGE <==>
            IsPathfinding(step.algorithm) && step.currentNode == Some(target) && step.state.PathfindingState?
            && target in step.state.predecessors && step.state.predecessors[target] == Some(source))
      && (e != PREDECESSOR_EDGE ==> e == DEFAULT_EDGE)
  {
  }

  /** With no step every edge keeps the default stroke. */
  lemma IdleEdges(directed: bool, source: NodeId, target: NodeId)
    ensures EdgeStyleOf(directed, None, source, target) == DEFAULT_EDGE
  {
  }
}
