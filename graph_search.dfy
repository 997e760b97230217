/**
 * The `bfs` and `dfs` step generators of `GraphTraversalVisualizer.tsx`:
 * each runs its search over the adjacency lists and records a snapshot of
 * the visited set and the queue or stack after every action.
 */
module GraphSearch {
  import opened Wrappers
  import opened GraphTypes
  import opened GraphAdjacency

  /** No element occurs twice. */
  predicate Distinct<T(==)>(s: seq<T>)
  {
    forall i, j :: 0 <= i < j < |s| ==> s[i] != s[j]
  }

  /** The ids in `u`'s neighbour list. */
  function Successors(adj: Adjacency, u: NodeId): set<NodeId>
  {
    set x | x in NeighborsOf(adj, u) :: x.neighbor
  }

  /** Each node of `p` is a neighbour of the one before it. */
  ghost predicate IsWalk(adj: Adjacency, p: seq<NodeId>)
  {
    forall i :: 0 < i < |p| ==> p[i] in Successors(adj, p[i - 1])
  }

  /** Some walk leads from `s` to `v`. */
  ghost predicate Reachable(adj: Adjacency, s: NodeId, v: NodeId)
  {
    exists p :: IsWalk(adj, p) && |p| > 0 && p[0] == s && p[|p| - 1] == v
  }

  /** Every node a search from `s` can meet: `s` and every listed neighbour. */
  function Universe(adj: Adjacency, s: NodeId): set<NodeId>
  {
    {s} + set u, x | u in adj && x in adj[u] :: x.neighbor
  }

  /** The nodes of the steps that carry `action`, in step order. */
  function ActionNodes(steps: seq<AlgorithmStep>, action: string): seq<NodeId>
    decreases |steps|
  {
    if steps == [] then []
    else
      var last := steps[|steps| - 1];
      var front := ActionNodes(steps[..|steps| - 1], action);
      if last.action == action && last.currentNode.Some? then front + [last.currentNode.value] else front
  }

  lemma ActionNodesSnoc(steps: seq<AlgorithmStep>, x: AlgorithmStep, action: string)
    ensures ActionNodes(steps + [x], action) ==
      if x.action == action && x.currentNode.Some? then ActionNodes(steps, action) + [x.currentNode.value] else ActionNodes(steps, action)
  {
    assert (steps + [x])[..|steps|] == steps;
  }

  lemma ReachableStart(adj: Adjacency, s: NodeId)
    ensures Reachable(adj, s, s)
  {
    assert IsWalk(adj, [s]);
  }

  /** A neighbour of a reachable node is reachable. */
  lemma ReachableStep(adj: Adjacency, s: NodeId, u: NodeId, v: NodeId)
    requires Reachable(adj, s, u) && v in Successors(adj, u)
    ensures Reachable(adj, s, v)
  {
    var p :| IsWalk(adj, p) && |p| > 0 && p[0] == s && p[|p| - 1] == u;
    var q := p + [v];
    forall i | 0 < i < |q| ensures q[i] in Successors(adj, q[i - 1]) {
      if i < |p| {
        assert q[i] == p[i] && q[i - 1] == p[i - 1];
      }
    }
    assert IsWalk(adj, q) && q[0] == s && q[|q| - 1] == v;
  }

  /** Every neighbour lies in the universe. */
  lemma SuccessorsInUniverse(adj: Adjacency, s: NodeId, u: NodeId)
    ensures Successors(adj, u) <= Universe(adj, s)
  {
    forall w | w in Successors(adj, u) ensures w in Universe(adj, s) {
      var x :| x in NeighborsOf(adj, u) && x.neighbor == w;
      assert u in adj && x in adj[u];
    }
  }

  lemma {:induction false} WalkStaysInside(adj: Adjacency, p: seq<NodeId>, closed: set<NodeId>, i: nat)
    requires IsWalk(adj, p) && |p| > 0 && p[0] in closed && i < |p|
    requires forall u :: u in closed ==> Successors(adj, u) <= closed
    ensures p[i] in closed
  {
    if i > 0 {
      WalkStaysInside(adj, p, closed, i - 1);
    }
  }

  /**
   * A set that holds `s`, holds only nodes reachable from `s` and holds the
   * neighbours of each of its nodes is exactly the set of nodes reachable from `s`.
   */
  lemma ClosedIsReachable(adj: Adjacency, s: NodeId, closed: set<NodeId>)
    requires s in closed
    requires forall v :: v in closed ==> Reachable(adj, s, v)
    requires forall u :: u in closed ==> Successors(adj, u) <= closed
    ensures forall v :: v in closed <==> Reachable(adj, s, v)
  {
    forall v | Reachable(adj, s, v) ensures v in closed {
      var p :| IsWalk(adj, p) && |p| > 0 && p[0] == s && p[|p| - 1] == v;
      WalkStaysInside(adj, p, closed, |p| - 1);
    }
  }

  /** A sequence without repeats is as long as its set of elements is large. */
  lemma {:induction false} DistinctCard<T>(s: seq<T>)
    requires Distinct(s)
    ensures |set x | x in s| == |s|
    decreases |s|
  {
    if s != [] {
      var front := s[..|s| - 1];
      DistinctCard(front);
      assert (set x | x in s) == (set x | x in front) + {s[|s| - 1]};
      assert s[|s| - 1] !in (set x | x in front);
    }
  }

  lemma {:induction false} SubsetCard<T>(a: set<T>, b: set<T>)
    requires a <= b
    ensures |a| <= |b|
    decreases |a|
  {
    if a != {} {
      var x :| x in a;
      SubsetCard(a - {x}, b - {x});
    }
  }

  /** Once the node at `head - 1` has its neighbours marked, all nodes before `head` have. */
  lemma ProcessedGrow(adj: Adjacency, queue0: seq<NodeId>, queue: seq<NodeId>, head: int,
                      visited0: set<NodeId>, visited: set<NodeId>)
    requires 0 < head <= |queue0| <= |queue| && queue[..|queue0|] == queue0
    requires forall k :: 0 <= k < head - 1 ==> Successors(adj, queue0[k]) <= visited0
    requires visited0 <= visited && Successors(adj, queue0[head - 1]) <= visited
    ensures forall k :: 0 <= k < head ==> Successors(adj, queue[k]) <= visited
  {
    forall k | 0 <= k < head ensures Successors(adj, queue[k]) <= visited {
      assert queue[k] == queue0[k];
    }
  }

  lemma PrefixSnoc<T>(s: seq<T>, n: int)
    requires 0 < n <= |s|
    ensures s[..n] == s[..n - 1] + [s[n - 1]]
  {
  }

  lemma PrefixOfPrefix<T>(s0: seq<T>, s: seq<T>, n: int)
    requires 0 <= n <= |s0| <= |s| && s[..|s0|] == s0
    ensures s[..n] == s0[..n]
  {
    assert s[..n] == s[..|s0|][..n];
  }

  /** The BFS snapshot: the visited set and the part of the queue not yet dequeued. */
  function BfsStep(current: Option<NodeId>, action: string, visited: set<NodeId>, queue: seq<NodeId>): AlgorithmStep
  {
    AlgorithmStep(Bfs, current, action, TraversalState(visited, queue), None, None)
  }

  /**
   * The inner loop of `bfs`: marks and enqueues each neighbour not yet
   * visited; `added` tells whether any was.
   */
  method EnqueueUnvisited(neighbors: seq<Neighbor>, visited: set<NodeId>, queue: seq<NodeId>)
    returns (visited': set<NodeId>, queue': seq<NodeId>, added: bool)
    requires Distinct(queue) && forall v :: v in visited <==> v in queue
    ensures Distinct(queue') && forall v :: v in visited' <==> v in queue'
    ensures visited' == visited + set x | x in neighbors :: x.neighbor
    ensures |queue'| >= |queue| && queue'[..|queue|] == queue
    ensures added <==> |queue'| > |queue|
  {
    visited', queue', added := visited, queue, false;
    var i := 0;
    while i < |neighbors|
      invariant 0 <= i <= |neighbors| && |queue'| >= |queue| && queue'[..|queue|] == queue
      invariant Distinct(queue') && forall v :: v in visited' <==> v in queue'
      invariant visited' == visited + set x | x in neighbors[..i] :: x.neighbor
      invariant added <==> |queue'| > |queue|
    {
      var n := neighbors[i].neighbor;
      assert neighbors[..i + 1] == neighbors[..i] + [neighbors[i]];
      if n !in visited' {
        visited' := visited' + {n};
        queue' := queue' + [n];
        added := true;
      }
      i := i + 1;
    }
    assert neighbors[..i] == neighbors;
  }

  /**
   * What holds of the search before each dequeue: the queue has no repeats and
   * holds exactly the visited nodes, all of them reachable from `start`, and
   * the neighbours of every node already dequeued are visited.
   */
  ghost predicate BfsInv(adj: Adjacency, start: NodeId, visited: set<NodeId>, queue: seq<NodeId>, head: int)
  {
    && 0 <= head <= |queue| && |queue| > 0 && queue[0] == start
    && Distinct(queue) && (forall v :: v in visited <==> v in queue)
    && visited <= Universe(adj, start)
    && (forall v :: v in visited ==> Reachable(adj, start, v))
    && (forall k :: 0 <= k < head ==> Successors(adj, queue[k]) <= visited)
  }

  /** The queue never outgrows the universe, so the search ends. */
  lemma BfsBound(adj: Adjacency, start: NodeId, visited: set<NodeId>, queue: seq<NodeId>, head: int)
    requires BfsInv(adj, start, visited, queue, head)
    ensures |queue| <= |Universe(adj, start)|
  {
    assert (set x | x in queue) == visited;
    DistinctCard(queue);
    SubsetCard(visited, Universe(adj, start));
  }

  /** Dequeuing `queue0[head - 1]` and enqueuing its unvisited neighbours keeps the invariant. */
  lemma BfsAdvance(adj: Adjacency, start: NodeId, visited0: set<NodeId>, queue0: seq<NodeId>, head: int,
                   visited: set<NodeId>, queue: seq<NodeId>)
    requires BfsInv(adj, start, visited0, queue0, head - 1) && head - 1 < |queue0|
    requires Distinct(queue) && forall v :: v in visited <==> v in queue
    requires visited == visited0 + Successors(adj, queue0[head - 1])
    requires |queue| >= |queue0| && queue[..|queue0|] == queue0
    ensures BfsInv(adj, start, visited, queue, head)
    ensures queue[..head] == queue0[..head]
  {
    var current := queue0[head - 1];
    SuccessorsInUniverse(adj, start, current);
    forall v | v in Successors(adj, current) ensures Reachable(adj, start, v) {
      ReachableStep(adj, start, current, v);
    }
    ProcessedGrow(adj, queue0, queue, head, visited0, visited);
    PrefixOfPrefix(queue0, queue, head);
    assert queue[0] == queue0[0];
  }

  /** With the queue used up, the visited set is the reachable set. */
  lemma BfsDone(adj: Adjacency, start: NodeId, visited: set<NodeId>, queue: seq<NodeId>, head: int)
    requires BfsInv(adj, start, visited, queue, head) && head == |queue|
    ensures queue[..head] == queue
    ensures forall v :: v in visited <==> Reachable(adj, start, v)
    ensures forall v :: v in queue <==> Reachable(adj, start, v)
  {
    forall u | u in visited ensures Successors(adj, u) <= visited {
      var k :| 0 <= k < |queue| && queue[k] == u;
    }
    ClosedIsReachable(adj, start, visited);
  }

  /**
   * One turn of the `bfs` loop: dequeues the node at `head`, records it, marks
   * and enqueues its unvisited neighbours and records that when there were any.
   */
  method BfsVisit(adj: Adjacency, start: NodeId, visited: set<NodeId>, queue: seq<NodeId>, head: int,
                  steps: seq<AlgorithmStep>)
    returns (visited': set<NodeId>, queue': seq<NodeId>, head': int, steps': seq<AlgorithmStep>)
    requires BfsInv(adj, start, visited, queue, head) && head < |queue|
    requires |steps| >= 1 && ActionNodes(steps, DEQUEUE_VISIT) == queue[..head]
    ensures BfsInv(adj, start, visited', queue', head') && head' == head + 1
    ensures |steps'| >= |steps| + 1 && steps'[..|steps|] == steps
    ensures ActionNodes(steps', DEQUEUE_VISIT) == queue'[..head']
  {
    var current := queue[head];
    head' := head + 1;
    var visit := BfsStep(Some(current), DEQUEUE_VISIT, visited, queue[head'..]);
    ActionNodesSnoc(steps, visit, DEQUEUE_VISIT);
    PrefixSnoc(queue, head');
    steps' := steps + [visit];
    var added;
    visited', queue', added := EnqueueUnvisited(NeighborsOf(adj, current), visited, queue);
    BfsAdvance(adj, start, visited, queue, head', visited', queue');
    if added {
      var enqueue := BfsStep(Some(current), ENQUEUE_NEIGHBORS, visited', queue'[head'..]);
      ActionNodesSnoc(steps', enqueue, DEQUEUE_VISIT);
      steps' := steps' + [enqueue];
    }
    assert steps'[..|steps|] == steps;
  }

  /**
   * `bfs(start)`: the first step is INITIAL, the last FINISHED with every node
   * reachable from `start` visited and nothing more; the nodes are dequeued in
   * an order without repeats, and they are exactly the reachable ones.
   */
  method BfsSteps(adj: Adjacency, start: NodeId) returns (steps: seq<AlgorithmStep>)
    ensures |steps| >= 2 && steps[0] == BfsStep(Some(start), INITIAL, {start}, [start])
    ensures steps[|steps| - 1].action == FINISHED && steps[|steps| - 1].currentNode == None
    ensures steps[|steps| - 1].state.TraversalState? && steps[|steps| - 1].state.frontier == []
    ensures forall v :: v in steps[|steps| - 1].state.visited <==> Reachable(adj, start, v)
    ensures Distinct(ActionNodes(steps, DEQUEUE_VISIT))
    ensures forall v :: v in ActionNodes(steps, DEQUEUE_VISIT) <==> Reachable(adj, start, v)
  {
    var visited: set<NodeId> := {start};
    var queue := [start];
    steps := [BfsStep(Some(start), INITIAL, visited, queue)];
    ReachableStart(adj, start);
    var head := 0;
    while head < |queue|
      invariant BfsInv(adj, start, visited, queue, head)
      invariant |steps| >= 1 && steps[0] == BfsStep(Some(start), INITIAL, {start}, [start])
      invariant ActionNodes(steps, DEQUEUE_VISIT) == queue[..head]
      decreases |Universe(adj, start)| - head
    {
      BfsBound(adj, start, visited, queue, head);
      visited, queue, head, steps := BfsVisit(adj, start, visited, queue, head, steps);
    }
    BfsDone(adj, start, visited, queue, head);
    ActionNodesSnoc(steps, BfsStep(None, FINISHED, visited, []), DEQUEUE_VISIT);
    steps := steps + [BfsStep(None, FINISHED, visited, [])];
  }

  /** The DFS snapshot: the visited set and the stack. */
  function DfsStep(current: Option<NodeId>, action: string, visited: set<NodeId>, stack: seq<NodeId>): AlgorithmStep
  {
    AlgorithmStep(Dfs, current, action, TraversalState(visited, stack), None, None)
  }

  /** `s.slice().reverse()`. */
  function Reversed<T>(s: seq<T>): (r: seq<T>)
    ensures |r| == |s| && forall i :: 0 <= i < |s| ==> r[i] == s[|s| - 1 - i]
  {
    seq(|s|, i requires 0 <= i < |s| => s[|s| - 1 - i])
  }

  /** An ALREADY_VISITED step names a node its snapshot has as visited. */
  predicate HonestRepop(st: AlgorithmStep)
  {
    st.action == ALREADY_VISITED ==> st.state.TraversalState? && st.currentNode.Some? && st.currentNode.value in st.state.visited
  }

  /**
   * What holds of the search before each pop: visited and stacked nodes lie in
   * the universe and are reachable from `start`, `start` is visited or stacked,
   * and every neighbour of a visited node is visited or stacked.
   */
  ghost predicate DfsInv(adj: Adjacency, start: NodeId, visited: set<NodeId>, stack: seq<NodeId>)
  {
    && visited <= Universe(adj, start)
    && (forall v :: v in visited ==> Reachable(adj, start, v))
    && (forall k :: 0 <= k < |stack| ==> stack[k] in Universe(adj, start) && Reachable(adj, start, stack[k]))
    && (start in visited || start in stack)
    && (forall u, w :: u in visited && w in Successors(adj, u) ==> w in visited || w in stack)
  }

  /** The inner loop of `dfs`: pushes every entry's id in order; `pushed` tells whether there was one. */
  method PushAll(neighbors: seq<Neighbor>, stack: seq<NodeId>) returns (stack': seq<NodeId>, pushed: bool)
    ensures |stack'| == |stack| + |neighbors| && stack'[..|stack|] == stack
    ensures forall j :: 0 <= j < |neighbors| ==> stack'[|stack| + j] == neighbors[j].neighbor
    ensures pushed <==> |neighbors| > 0
  {
    stack', pushed := stack, false;
    var i := 0;
    while i < |neighbors|
      invariant 0 <= i <= |neighbors| && |stack'| == |stack| + i && stack'[..|stack|] == stack
      invariant forall j :: 0 <= j < i ==> stack'[|stack| + j] == neighbors[j].neighbor
      invariant pushed <==> i > 0
    {
      stack' := stack' + [neighbors[i].neighbor];
      pushed := true;
      i := i + 1;
    }
  }

  /** Popping an already visited node keeps the invariant. */
  lemma DfsAfterRepop(adj: Adjacency, start: NodeId, visited: set<NodeId>, stack: seq<NodeId>)
    requires DfsInv(adj, start, visited, stack) && |stack| > 0 && stack[|stack| - 1] in visited
    ensures DfsInv(adj, start, visited, stack[..|stack| - 1])
  {
    var rest := stack[..|stack| - 1];
    forall w | w in stack ensures w in visited || w in rest {
      var k :| 0 <= k < |stack| && stack[k] == w;
      if k < |rest| {
        assert rest[k] == w;
      }
    }
  }

  /** After the pushes, every neighbour of the popped node is on the stack. */
  lemma PushedCover(adj: Adjacency, current: NodeId, rest: seq<NodeId>, stack': seq<NodeId>)
    requires var ns := Reversed(NeighborsOf(adj, current));
      |stack'| == |rest| + |ns| && forall j :: 0 <= j < |ns| ==> stack'[|rest| + j] == ns[j].neighbor
    ensures Successors(adj, current) <= set x | x in stack'
  {
    var ns := Reversed(NeighborsOf(adj, current));
    forall w | w in Successors(adj, current) ensures w in stack' {
      var x :| x in NeighborsOf(adj, current) && x.neighbor == w;
      var i :| 0 <= i < |NeighborsOf(adj, current)| && NeighborsOf(adj, current)[i] == x;
      var j := |ns| - 1 - i;
      assert ns[j] == x;
      assert stack'[|rest| + j] == w;
    }
  }

  /** After the pushes, every stacked node lies in the universe and is reachable. */
  lemma PushedReachable(adj: Adjacency, start: NodeId, current: NodeId, rest: seq<NodeId>, stack': seq<NodeId>)
    requires Reachable(adj, start, current)
    requires forall k :: 0 <= k < |rest| ==> rest[k] in Universe(adj, start) && Reachable(adj, start, rest[k])
    requires var ns := Reversed(NeighborsOf(adj, current));
      |stack'| == |rest| + |ns| && stack'[..|rest|] == rest &&
      forall j :: 0 <= j < |ns| ==> stack'[|rest| + j] == ns[j].neighbor
    ensures forall k :: 0 <= k < |stack'| ==> stack'[k] in Universe(adj, start) && Reachable(adj, start, stack'[k])
  {
    var ns := Reversed(NeighborsOf(adj, current));
    SuccessorsInUniverse(adj, start, current);
    forall k | 0 <= k < |stack'| ensures stack'[k] in Universe(adj, start) && Reachable(adj, start, stack'[k]) {
      if k < |rest| {
        assert stack'[k] == rest[k];
      } else {
        var j := k - |rest|;
        assert ns[j] == NeighborsOf(adj, current)[|ns| - 1 - j];
        assert stack'[k] in Successors(adj, current);
        ReachableStep(adj, start, current, stack'[k]);
      }
    }
  }

  /** Popping an unvisited node, marking it and pushing its neighbours keeps the invariant. */
  lemma DfsAfterVisit(adj: Adjacency, start: NodeId, visited: set<NodeId>, stack: seq<NodeId>, stack': seq<NodeId>)
    requires DfsInv(adj, start, visited, stack) && |stack| > 0 && stack[|stack| - 1] !in visited
    requires var rest, ns := stack[..|stack| - 1], Reversed(NeighborsOf(adj, stack[|stack| - 1]));
      |stack'| == |rest| + |ns| && stack'[..|rest|] == rest &&
      forall j :: 0 <= j < |ns| ==> stack'[|rest| + j] == ns[j].neighbor
    ensures DfsInv(adj, start, visited + {stack[|stack| - 1]}, stack')
  {
    var current := stack[|stack| - 1];
    var rest := stack[..|stack| - 1];
    var visited' := visited + {current};
    SuccessorsInUniverse(adj, start, current);
    assert Reachable(adj, start, current);
    forall w | w in stack ensures w in visited' || w in stack' {
      var k :| 0 <= k < |stack| && stack[k] == w;
      if k < |rest| {
        assert stack'[k] == rest[k];
      }
    }
    PushedCover(adj, current, rest, stack');
    forall k | 0 <= k < |rest| ensures rest[k] in Universe(adj, start) && Reachable(adj, start, rest[k]) {
      assert rest[k] == stack[k];
    }
    PushedReachable(adj, start, current, rest, stack');
  }

  /** The search starts with only `start` on the stack and nothing recorded as visited. */
  lemma DfsBegin(adj: Adjacency, start: NodeId)
    ensures DfsInv(adj, start, {}, [start])
    ensures DfsRecord([DfsStep(Some(start), INITIAL, {}, [start])], {})
  {
    ReachableStart(adj, start);
    var steps := [DfsStep(Some(start), INITIAL, {}, [start])];
    assert steps[..0] == [];
  }

  /**
   * With the stack empty, the visited set is the set of nodes reachable from
   * `start`, and after the FINISHED step the record still holds.
   */
  lemma DfsEnd(adj: Adjacency, start: NodeId, visited: set<NodeId>, steps: seq<AlgorithmStep>)
    requires DfsInv(adj, start, visited, []) && DfsRecord(steps, visited)
    ensures forall v :: v in visited <==> Reachable(adj, start, v)
    ensures DfsRecord(steps + [DfsStep(None, FINISHED, visited, [])], visited)
  {
    ClosedIsReachable(adj, start, visited);
    var finished := DfsStep(None, FINISHED, visited, []);
    ActionNodesSnoc(steps, finished, VISIT);
    forall i | 0 <= i < |steps + [finished]| ensures HonestRepop((steps + [finished])[i]) {
      if i < |steps| {
        assert (steps + [finished])[i] == steps[i];
      }
    }
  }

  lemma DistinctSnoc<T>(s: seq<T>, x: T)
    requires Distinct(s) && x !in s
    ensures Distinct(s + [x])
  {
  }

  lemma FewerLeft(universe: set<NodeId>, visited: set<NodeId>, x: NodeId)
    requires x in universe && x !in visited
    ensures |universe - (visited + {x})| < |universe - visited|
  {
    assert universe - visited == (universe - (visited + {x})) + {x};
  }

  /** The step bookkeeping of `dfs`: the visited nodes in visiting order, and honest re-pops. */
  ghost predicate DfsRecord(steps: seq<AlgorithmStep>, visited: set<NodeId>)
  {
    && Distinct(ActionNodes(steps, VISIT))
    && (forall v :: v in ActionNodes(steps, VISIT) <==> v in visited)
    && (forall i :: 0 <= i < |steps| ==> HonestRepop(steps[i]))
  }

  /** Recording one more step keeps the bookkeeping; a VISIT step adds its node, which was not visited. */
  lemma RecordSnoc(steps: seq<AlgorithmStep>, visited: set<NodeId>, x: AlgorithmStep, visited': set<NodeId>)
    requires DfsRecord(steps, visited) && HonestRepop(x) && x.currentNode.Some?
    requires x.action == VISIT ==> x.currentNode.value !in visited && visited' == visited + {x.currentNode.value}
    requires x.action != VISIT ==> visited' == visited
    ensures DfsRecord(steps + [x], visited')
  {
    ActionNodesSnoc(steps, x, VISIT);
    if x.action == VISIT {
      DistinctSnoc(ActionNodes(steps, VISIT), x.currentNode.value);
    }
    forall i | 0 <= i < |steps + [x]| ensures HonestRepop((steps + [x])[i]) {
      if i < |steps| {
        assert (steps + [x])[i] == steps[i];
      }
    }
  }

  /**
   * The unvisited branch of the `dfs` loop, after the pop of `stack`'s top:
   * marks it, records the visit and pushes its neighbours in reverse order,
   * recording the push when there was one.
   */
  method DfsMark(adj: Adjacency, start: NodeId, visited: set<NodeId>, stack: seq<NodeId>, steps: seq<AlgorithmStep>)
    returns (visited': set<NodeId>, stack': seq<NodeId>, steps': seq<AlgorithmStep>)
    requires DfsInv(adj, start, visited, stack) && |stack| > 0 && stack[|stack| - 1] !in visited
    requires DfsRecord(steps, visited) && |steps| > 0
    ensures DfsInv(adj, start, visited', stack') && DfsRecord(steps', visited')
    ensures |Universe(adj, start) - visited'| < |Universe(adj, start) - visited|
    ensures |steps'| > |steps| && steps'[0] == steps[0]
  {
    var current := stack[|stack| - 1];
    var rest := stack[..|stack| - 1];
    visited' := visited + {current};
    var visit := DfsStep(Some(current), VISIT, visited', rest);
    RecordSnoc(steps, visited, visit, visited');
    steps' := steps + [visit];
    var pushed;
    stack', pushed := PushAll(Reversed(NeighborsOf(adj, current)), rest);
    DfsAfterVisit(adj, start, visited, stack, stack');
    FewerLeft(Universe(adj, start), visited, current);
    if pushed {
      var push := DfsStep(Some(current), PUSH_NEIGHBORS, visited', stack');
      RecordSnoc(steps', visited', push, visited');
      steps' := steps' + [push];
    }
  }

  /**
   * One turn of the `dfs` loop: pops a node; an unvisited one is marked and
   * recorded and its neighbours are pushed in reverse order, a visited one is
   * recorded as ALREADY_VISITED.
   */
  method DfsVisit(adj: Adjacency, start: NodeId, visited: set<NodeId>, stack: seq<NodeId>, steps: seq<AlgorithmStep>)
    returns (visited': set<NodeId>, stack': seq<NodeId>, steps': seq<AlgorithmStep>)
    requires DfsInv(adj, start, visited, stack) && |stack| > 0 && DfsRecord(steps, visited) && |steps| > 0
    ensures DfsInv(adj, start, visited', stack') && DfsRecord(steps', visited')
    ensures visited' == visited ==> |stack'| < |stack|
    ensures visited' != visited ==> |Universe(adj, start) - visited'| < |Universe(adj, start) - visited|
    ensures |steps'| > |steps| && steps'[0] == steps[0]
  {
    var current := stack[|stack| - 1];
    var rest := stack[..|stack| - 1];
    var pop := DfsStep(Some(current), POP, visited, rest);
    RecordSnoc(steps, visited, pop, visited);
    steps' := steps + [pop];
    if current !in visited {
      visited', stack', steps' := DfsMark(adj, start, visited, stack, steps');
    } else {
      visited', stack' := visited, rest;
      DfsAfterRepop(adj, start, visited, stack);
      var repop := DfsStep(Some(current), ALREADY_VISITED, visited, rest);
      RecordSnoc(steps', visited, repop, visited);
      steps' := steps' + [repop];
    }
  }

  /**
   * `dfs(start)`: the first step is INITIAL, the last FINISHED with exactly the
   * nodes reachable from `start` visited; each node is visited at most once,
   * the visited ones are exactly the reachable ones, and a node popped again
   * after its visit is recorded as ALREADY_VISITED with the node already visited.
   */
  method DfsSteps(adj: Adjacency, start: NodeId) returns (steps: seq<AlgorithmStep>)
    ensures |steps| >= 2 && steps[0] == DfsStep(Some(start), INITIAL, {}, [start])
    ensures steps[|steps| - 1].action == FINISHED && steps[|steps| - 1].currentNode == None
    ensures steps[|steps| - 1].state.TraversalState? && steps[|steps| - 1].state.frontier == []
    ensures forall v :: v in steps[|steps| - 1].state.visited <==> Reachable(adj, start, v)
    ensures Distinct(ActionNodes(steps, VISIT))
    ensures forall v :: v in ActionNodes(steps, VISIT) <==> Reachable(adj, start, v)
    ensures forall i :: 0 <= i < |steps| ==> HonestRepop(steps[i])
  {
    var visited: set<NodeId> := {};
    var stack := [start];
    steps := [DfsStep(Some(start), INITIAL, visited, stack)];
    DfsBegin(adj, start);
    while |stack| > 0
      invariant DfsInv(adj, start, visited, stack) && DfsRecord(steps, visited)
      invariant |steps| >= 1 && steps[0] == DfsStep(Some(start), INITIAL, {}, [start])
      decreases |Universe(adj, start) - visited|, |stack|
    {
      visited, stack, steps := DfsVisit(adj, start, visited, stack, steps);
    }
    DfsEnd(adj, start, visited, steps);
    steps := steps + [DfsStep(None, FINISHED, visited, [])];
  }
}
