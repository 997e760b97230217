/**
 * `Graphs/ExplanationPanel.tsx`: the pseudo-code listing of each algorithm,
 * the line highlighted for a step's action, the compact display of a node
 * set, and the rules that choose between the message panel and the step
 * explanation.
 */
module ExplanationPanel {
  import opened Wrappers
  import opened Text
  import opened GraphTypes
  import opened GraphAdjacency
  import opened GraphSearch
  import opened GraphDijkstra
  import opened GraphController

  /** Line `i` of the listing `getPseudoCode` returns for `alg` (the last line for every later index). */
  function Line(alg: AlgorithmType, i: int): string
  {
    match alg
    case Bfs => BfsLine(i)
    case Dfs => DfsLine(i)
    case Dijkstra => DijkstraLine(i)
    case AStar => AStarLine(i)
  }

  function BfsLine(i: int): string
  {
    match i
    case 0 => "function BFS(graph, start):"
    case 1 => "  queue = new Queue()"
    case 2 => "  visited = new Set()"
    case 3 => "  queue.enqueue(start)"
    case 4 => "  visited.add(start)"
    case 5 => "  while queue is not empty:"
    case 6 => "    curr = queue.dequeue()"
    case 7 => "    // Process curr (e.g., visit)"
    case 8 => "    for neighbor in graph.neighbors(curr):"
    case 9 => "      if neighbor not visited:"
    case 10 => "        visited.add(neighbor)"
    case 11 => "        queue.enqueue(neighbor)"
    case _ => "  // Traversal complete"
  }

  function DfsLine(i: int): string
  {
    match i
    case 0 => "function DFS(graph, start):"
    case 1 => "  stack = new Stack()"
    case 2 => "  visited = new Set()"
    case 3 => "  stack.push(start)"
    case 4 => "  while stack is not empty:"
    case 5 => "    curr = stack.pop()"
    case 6 => "    if curr not visited:"
    case 7 => "      visited.add(curr)"
    case 8 => "      // Process curr (e.g., visit)"
    case 9 => "      // Add neighbors in reverse order for typical exploration"
    case 10 => "      for neighbor in reversed(graph.neighbors(curr)):"
    case 11 => "        if neighbor not visited:"
    case 12 => "          stack.push(neighbor)"
    case _ => "  // Traversal complete"
  }

  function DijkstraLine(i: int): string
  {
    match i
    case 0 => "function Dijkstra(graph, start, goal):"
    case 1 => "  dist = map(node -> infinity)"
    case 2 => "  prev = map(node -> null)"
    case 3 => "  dist[start] = 0"
    case 4 => "  pq = PriorityQueue()"
    case 5 => "  pq.add(start, 0)"
    case 6 => "  closedSet = set()"
    case 7 => "  while pq is not empty:"
    case 8 => "    curr = pq.extract_min()"
    case 9 => "    if curr == goal: return reconstruct_path(prev, goal)"
    case 10 => "    closedSet.add(curr)"
    case 11 => "    for neighbor, weight in graph.neighbors(curr):"
    case 12 => "      if neighbor not in closedSet:"
    case 13 => "        alt_dist = dist[curr] + weight"
    case 14 => "        if alt_dist < dist[neighbor]:"
    case 15 => "          dist[neighbor] = alt_dist"
    case 16 => "          prev[neighbor] = curr"
    case 17 => "          pq.update_or_add(neighbor, alt_dist)"
    case _ => "  // Goal not reachable"
  }

  function AStarLine(i: int): string
  {
    match i
    case 0 => "function A*(graph, start, goal, h):"
    case 1 => "  gScore = map(node -> infinity)"
    case 2 => "  fScore = map(node -> infinity)"
    case 3 => "  prev = map(node -> null)"
    case 4 => "  gScore[start] = 0"
    case 5 => "  fScore[start] = h(start)"
    case 6 => "  openSet = PriorityQueue()"
    case 7 => "  openSet.add(start, fScore[start])"
    case 8 => "  closedSet = set()"
    case 9 => "  while openSet is not empty:"
    case 10 => "    curr = openSet.extract_min()"
    case 11 => "    if curr == goal: return reconstruct_path(prev, goal)"
    case 12 => "    closedSet.add(curr)"
    case 13 => "    for neighbor, weight in graph.neighbors(curr):"
    case 14 => "      if neighbor in closedSet: continue"
    case 15 => "      tentative_gScore = gScore[curr] + weight"
    case 16 => "      if tentative_gScore < gScore[neighbor]:"
    case 17 => "        prev[neighbor] = curr"
    case 18 => "        gScore[neighbor] = tentative_gScore"
    case 19 => "        fScore[neighbor] = tentative_gScore + h(neighbor)"
    case 20 => "        if neighbor not in openSet:"
    case 21 => "          openSet.add(neighbor, fScore[neighbor])"
    case 22 => "        // else: openSet already has neighbor, priority updated implicitly"
    case _ => "  // Goal not reachable"
  }

  /** `getPseudoCode`: the listing shown for each algorithm, one string per line. */
  function PseudoCode(alg: AlgorithmType): (r: seq<string>)
    ensures |r| == LineCount(alg)
  {
    seq(LineCount(alg), i => Line(alg, i))
  }

  /** The number of lines of each listing. */
  function LineCount(alg: AlgorithmType): nat
  {
    match alg
    case Bfs => 13
    case Dfs => 14
    case Dijkstra => 19
    case AStar => 24
  }

  /** The line for `action` in the listing of `alg`; the last choice of each case is the while-loop line. */
  function ActiveLine(alg: AlgorithmType, action: string): (line: nat)
    ensures line < LineCount(alg)
  {
    match alg
    case Bfs =>
      if action == INITIAL then 4
      else if action == DEQUEUE_VISIT then 6
      else if action == ENQUEUE_NEIGHBORS then 11
      else if action == FINISHED then 12
      else 5
    case Dfs =>
      if action == INITIAL then 3
      else if action == POP then 5
      else if action == VISIT then 7
      else if action == PUSH_NEIGHBORS then 12
      else if action == ALREADY_VISITED then 6
      else if action == FINISHED then 13
      else 4
    case Dijkstra =>
      if action == INITIALIZE then 3
      else if action == EXTRACT_MIN then 8
      else if action == GOAL_FOUND then 9
      else if action == EXPLORE_NEIGHBORS then 11
      else if action == NO_PATH then 18
      else 7
    case AStar =>
      if action == INITIALIZE then 4
      else if action == EXTRACT_MIN then 10
      else if action == GOAL_FOUND then 11
      else if action == EXPLORE_NEIGHBORS then 13
      else if action == NO_PATH then 23
      else 9
  }

  /** `getActiveLineIndex`: -1 exactly when there is no step, and otherwise a line of the step's listing. */
  function ActiveLineIndex(step: Option<AlgorithmStep>): (r: int)
    ensures step.None? <==> r == -1
    ensures step.Some? ==> 0 <= r < |PseudoCode(step.value.algorithm)|
  {
    if step.None? then -1 else ActiveLine(step.value.algorithm, step.value.action)
  }

  /** The actions `getActiveLineIndex` gives a line of their own for `alg`. */
  predicate Recognised(alg: AlgorithmType, action: string)
  {
    match alg
    case Bfs => action == INITIAL || action == DEQUEUE_VISIT || action == ENQUEUE_NEIGHBORS || action == FINISHED
    case Dfs =>
      action == INITIAL || action == POP || action == VISIT || action == PUSH_NEIGHBORS
      || action == ALREADY_VISITED || action == FINISHED
    case _ =>
      action == INITIALIZE || action == EXTRACT_MIN || action == GOAL_FOUND
      || action == EXPLORE_NEIGHBORS || action == NO_PATH
  }

  /** A line that opens a while loop at the first level of indentation. */
  predicate IsLoopHead(line: string)
  {
    |line| >= 8 && line[..8] == "  while "
  }

  /** An action with no line of its own highlights the main-loop line: 5 for BFS, 4 for DFS, 7 for Dijkstra, 9 for A*. */
  lemma UnrecognisedShowsLoop(alg: AlgorithmType, action: string)
    requires !Recognised(alg, action)
    ensures IsLoopHead(PseudoCode(alg)[ActiveLine(alg, action)])
    ensures ActiveLine(alg, action) == match alg case Bfs => 5 case Dfs => 4 case Dijkstra => 7 case AStar => 9
  {
    match alg
    case Bfs => assert IsLoopHead(BfsLine(5));
    case Dfs => assert IsLoopHead(DfsLine(4));
    case Dijkstra => assert IsLoopHead(DijkstraLine(7));
    case AStar => assert IsLoopHead(AStarLine(9));
  }

  /** The end of a traversal, or a pathfinding run without a path, highlights the final comment line. */
  lemma EndShowsLastLine(alg: AlgorithmType)
    ensures var action := if IsPathfinding(alg) then NO_PATH else FINISHED;
            ActiveLine(alg, action) == |PseudoCode(alg)| - 1
  {
  }

  /** `isFinished` of the panel: the step ends a run. */
  predicate IsFinishedAction(action: string)
  {
    action == FINISHED || action == GOAL_FOUND || action == NO_PATH
  }

  /** Every run the BFS, DFS and Dijkstra generators produce ends on a finished step. */
  lemma GeneratedEndsFinished(alg: AlgorithmType, adj: Adjacency, nodes: seq<NodeId>, start: NodeId,
                              goal: Option<NodeId>, steps: seq<AlgorithmStep>)
    requires alg != AStar && GeneratedBy(alg, adj, nodes, start, goal, steps)
    ensures IsFinishedAction(steps[|steps| - 1].action)
  {
  }

  const PROMPT := "Select algorithm, start/end nodes (if applicable), and run."

  /**
   * The early return of the panel: the message it shows instead of an
   * explanation, or `None` when it goes on to explain the step.
   */
  function PanelMessage(step: Option<AlgorithmStep>, totalSteps: int): (r: Option<string>)
    ensures r.None? <==> step.Some? && totalSteps != 0 && !Contains(step.value.action, ERROR_TAG)
    ensures step.Some? && Contains(step.value.action, ERROR_TAG) ==> r == Some(step.value.action)
    ensures r.Some? && (step.None? || !Contains(step.value.action, ERROR_TAG)) ==> r == Some(PROMPT)
  {
    if step.None? || totalSteps == 0 || Contains(step.value.action, ERROR_TAG) then
      Some(if step.Some? && Contains(step.value.action, ERROR_TAG) then step.value.action else PROMPT)
    else
      None
  }

  /** An action that starts with the error tag contains it. */
  lemma TaggedContains(rest: string)
    ensures Contains(ERROR_TAG + rest, ERROR_TAG)
  {
    assert OccursAt(ERROR_TAG + rest, ERROR_TAG, 0);
  }

  /** Every error step `startAlgorithm` records is shown as the panel message. */
  lemma ErrorStepsShown(alg: AlgorithmType, startNode: Option<NodeId>, endNode: Option<NodeId>, known: set<NodeId>,
                        totalSteps: int)
    ensures var p := PlanStart(alg, startNode, endNode, known);
            p.Reject? ==> PanelMessage(Some(p.error), totalSteps) == Some(p.error.action)
    ensures PanelMessage(Some(AlgorithmStep(alg, startNode, ERROR_NO_STEPS, EmptyState(alg), None, endNode)), totalSteps)
            == Some(ERROR_NO_STEPS)
  {
    TaggedContains(": Invalid or missing Start Node");
    TaggedContains(": Invalid or missing End Node");
    TaggedContains(": Algorithm failed to generate steps");
  }

  // ---- formatSet ----

  /** The entries `formatSet` lists: the sorted contents cut to `limit`. */
  function ShownEntries(entries: seq<NodeId>, limit: nat): seq<NodeId>
  {
    var sorted := SortStrings(entries);
    SortStringsLength(entries);
    if |sorted| <= limit then sorted else sorted[..limit]
  }

  /**
   * `formatSet(set, limit)`: `entries` is `Array.from(set)`, the set's
   * elements in insertion order, or `None` for `undefined`.
   */
  function FormatSet(entries: Option<seq<NodeId>>, limit: nat): (r: string)
    // the display is always bracketed
    ensures |r| >= 3 && r[0] == '[' && r[1] == ' ' && r[|r| - 1] == ']'
  {
    if entries.None? || |entries.value| == 0 then "[ ]"
    else
      var tail := if |entries.value| > limit then ", ..." else "";
      "[ " + Join(ShownEntries(entries.value, limit), ", ") + tail + " ]"
  }

  /** The empty display is shown exactly for a missing or empty set. */
  lemma FormatSetEmpty(entries: Option<seq<NodeId>>, limit: nat)
    ensures FormatSet(entries, limit) == "[ ]" <==> entries.None? || |entries.value| == 0
  {
    if entries.Some? && |entries.value| > 0 {
      assert |FormatSet(entries, limit)| >= 4;
    }
  }

  /** Sorting keeps the elements distinct. */
  lemma SortedDistinct(entries: seq<NodeId>)
    requires Distinct(entries)
    ensures Distinct(SortStrings(entries))
  {
    SortStringsSpec(entries);
    forall x ensures multiset(SortStrings(entries))[x] <= 1 {
      DistinctCount(entries, x);
    }
    CountDistinct(SortStrings(entries));
  }

  /** A sequence holding each value at most once is distinct. */
  lemma {:induction false} CountDistinct(s: seq<NodeId>)
    requires forall x :: multiset(s)[x] <= 1
    ensures Distinct(s)
    decreases |s|
  {
    if s != [] {
      var front, last := s[..|s| - 1], s[|s| - 1];
      assert s == front + [last];
      forall x ensures multiset(front)[x] <= 1 {
        assert multiset(s)[x] == multiset(front)[x] + multiset([last])[x];
      }
      CountDistinct(front);
      assert multiset(s)[last] == multiset(front)[last] + 1;
      DistinctSnoc(front, last);
    }
  }

  /** A sorted distinct sequence is strictly increasing. */
  lemma StrictlySorted(s: seq<string>)
    requires SortedStrings(s) && Distinct(s)
    ensures forall i :: 0 < i < |s| ==> Less(s[i - 1], s[i])
  {
    forall i | 0 < i < |s| ensures Less(s[i - 1], s[i]) {
      assert LessEq(s[i - 1], s[i]) && s[i - 1] != s[i];
    }
  }

  /**
   * For a set, the listed entries are the `limit` least elements (all of
   * them when there are no more), strictly increasing.
   */
  lemma ShownEntriesLeast(entries: seq<NodeId>, limit: nat)
    requires Distinct(entries)
    ensures var shown := ShownEntries(entries, limit);
      && |shown| == (if |entries| <= limit then |entries| else limit)
      && (forall i :: 0 < i < |shown| ==> Less(shown[i - 1], shown[i]))
      && (forall x :: x in shown ==> x in entries)
      && (forall x, y :: x in entries && x !in shown && y in shown ==> Less(y, x))
  {
    var sorted := SortStrings(entries);
    SortStringsSpec(entries);
    SortStringsLength(entries);
    SortedDistinct(entries);
    StrictlySorted(sorted);
    var shown := ShownEntries(entries, limit);
    assert shown == sorted[..|shown|];
    forall x | x in shown ensures x in entries {
      assert x in multiset(sorted);
    }
    forall x, y | x in entries && x !in shown && y in shown ensures Less(y, x) {
      assert x in multiset(sorted);
      var j :| 0 <= j < |sorted| && sorted[j] == x;
      var i :| 0 <= i < |shown| && shown[i] == y;
      assert j >= |shown| by {
        assert forall k :: 0 <= k < |shown| ==> shown[k] == sorted[k];
      }
      SortedPairs(sorted, i, j);
    }
  }

  /** A distinct sequence holds each value at most once. */
  lemma {:induction false} DistinctCount(s: seq<NodeId>, x: NodeId)
    requires Distinct(s)
    ensures multiset(s)[x] <= 1
    decreases |s|
  {
    if s != [] {
      var front := s[..|s| - 1];
      assert s == front + [s[|s| - 1]];
      DistinctCount(front, x);
      if s[|s| - 1] == x {
        assert x !in front;
      }
    }
  }

  /** No string of `xs` holds a dot. */
  predicate Dotless(xs: seq<string>)
  {
    forall i :: 0 <= i < |xs| ==> '.' !in xs[i]
  }

  lemma {:induction false} JoinDotless(xs: seq<string>)
    requires Dotless(xs)
    ensures '.' !in Join(xs, ", ")
    decreases |xs|
  {
    if |xs| > 1 {
      JoinDotless(xs[..|xs| - 1]);
    }
  }

  /**
   * For node names without a dot, the display ends in an ellipsis exactly
   * when the set has more than `limit` elements.
   */
  lemma EllipsisWhenOverLimit(entries: seq<NodeId>, limit: nat)
    requires Dotless(entries) && |entries| > 0
    ensures '.' in FormatSet(Some(entries), limit) <==> |entries| > limit
  {
    var shown := ShownEntries(entries, limit);
    SortStringsSpec(entries);
    SortStringsLength(entries);
    forall i | 0 <= i < |shown| ensures '.' !in shown[i] {
      assert shown[i] in SortStrings(entries);
      assert shown[i] in multiset(entries);
      var j :| 0 <= j < |entries| && entries[j] == shown[i];
    }
    JoinDotless(shown);
    var tail := if |entries| > limit then ", ..." else "";
    assert FormatSet(Some(entries), limit) == "[ " + Join(shown, ", ") + tail + " ]";
    if |entries| > limit {
      assert FormatSet(Some(entries), limit)[|FormatSet(Some(entries), limit)| - 3] == '.';
    }
  }
}
