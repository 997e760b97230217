/**
 * `FloydsAlgorithmVisualizer.tsx`: a singly linked list kept as an array of
 * nodes whose `next` is an index or `null`, and Floyd's tortoise and hare run
 * over it, either to detect a cycle or to find the middle of the list. The
 * component's state becomes the fields of one object; the interval timer is
 * an explicit `Tick`, and the effect that inspects the pointers after every
 * render is `Detect`, called by whoever drives the model after a change.
 */
module Floyd {
  import opened Wrappers

  datatype Node = Node(value: int, next: Option<int>)

  datatype Mode = CycleMode | MiddleMode

  /** The outcome of following a pointer: where it leads, or the `TypeError` raised on `nodes[p]` past the array. */
  datatype Move = Moved(at: Option<int>) | Threw

  function Min(a: int, b: int): int
  {
    if a <= b then a else b
  }

  // ----- the shape every list of the visualizer has -----

  function LastNext(nodes: seq<Node>): Option<int>
    requires |nodes| > 0
  {
    nodes[|nodes| - 1].next
  }

  /**
   * Node `k` has value `k` and links to `k + 1`; the last node links to
   * nothing or back to some node `c`, closing a cycle `c .. n - 1`.
   */
  predicate Chain(nodes: seq<Node>)
  {
    |nodes| > 0
    && (forall k :: 0 <= k < |nodes| ==> nodes[k].value == k)
    && (forall k :: 0 <= k < |nodes| - 1 ==> nodes[k].next == Some(k + 1))
    && (LastNext(nodes).Some? ==> 0 <= LastNext(nodes).value < |nodes|)
  }

  /** The five nodes `resetSimulation` builds: `4 -> 2` closes a cycle in cycle mode. */
  function InitialNodes(mode: Mode): (nodes: seq<Node>)
    ensures Chain(nodes) && |nodes| == 5
    ensures LastNext(nodes) == if mode == CycleMode then Some(2) else None
  {
    [Node(0, Some(1)), Node(1, Some(2)), Node(2, Some(3)), Node(3, Some(4)),
     Node(4, if mode == CycleMode then Some(2) else None)]
  }

  /** `addNode`: a node valued by the old length, linked from the old last node. */
  function AddedNode(nodes: seq<Node>): (r: seq<Node>)
    ensures |r| == |nodes| + 1 && r[|nodes|] == Node(|nodes|, None)
    ensures |nodes| > 0 ==> r[|nodes| - 1] == nodes[|nodes| - 1].(next := Some(|nodes|))
    ensures forall k :: 0 <= k < |nodes| - 1 ==> r[k] == nodes[k]
  {
    var updated := nodes + [Node(|nodes|, None)];
    if |nodes| > 0 then updated[|nodes| - 1 := updated[|nodes| - 1].(next := Some(|nodes|))] else updated
  }

  /** `removeNode`: drops the last node, unless only one is left, and ends the list at the new last node. */
  function RemovedNode(nodes: seq<Node>): (r: seq<Node>)
    ensures |nodes| <= 1 ==> r == nodes
    ensures |nodes| > 1 ==> |r| == |nodes| - 1 && LastNext(r) == None
    ensures |nodes| > 1 ==> forall k :: 0 <= k < |r| - 1 ==> r[k] == nodes[k]
    ensures |nodes| > 1 ==> r[|r| - 1].value == nodes[|r| - 1].value
  {
    if |nodes| <= 1 then nodes
    else
      var updated := nodes[..|nodes| - 1];
      updated[|updated| - 1 := updated[|updated| - 1].(next := None)]
  }

  /** `toggleCycle`'s update: the last node's `next` flips between `null` and the head. */
  function ToggledCycle(nodes: seq<Node>): (r: seq<Node>)
    ensures |nodes| < 2 ==> r == nodes
    ensures |nodes| >= 2 ==> |r| == |nodes| && (LastNext(r) == None <==> LastNext(nodes).Some?)
    ensures |nodes| >= 2 && LastNext(nodes).None? ==> LastNext(r) == Some(0)
    ensures |nodes| >= 2 ==> forall k :: 0 <= k < |r| - 1 ==> r[k] == nodes[k]
    ensures |nodes| >= 2 ==> r[|r| - 1].value == nodes[|r| - 1].value
  {
    if |nodes| < 2 then nodes
    else
      var last := nodes[|nodes| - 1];
      nodes[|nodes| - 1 := last.(next := if last.next.None? then Some(0) else None)]
  }

  /** Adding, removing and toggling keep the chain shape; adding and removing keep an acyclic list acyclic. */
  lemma EditsKeepChain(nodes: seq<Node>)
    requires Chain(nodes)
    ensures Chain(AddedNode(nodes)) && LastNext(AddedNode(nodes)) == None
    ensures Chain(RemovedNode(nodes)) && (LastNext(nodes) == None ==> LastNext(RemovedNode(nodes)) == None)
    ensures Chain(ToggledCycle(nodes))
  {
    var a := AddedNode(nodes);
    assert forall k :: 0 <= k < |a| ==> a[k].value == k by {
      forall k | 0 <= k < |a|
        ensures a[k].value == k
      {
        if k < |nodes| - 1 {
          assert a[k] == nodes[k];
        }
      }
    }
  }

  // ----- one step of the two pointers -----

  /** The tortoise moves to the next node, and stays put at the tail. */
  function TortoiseMove(nodes: seq<Node>, t: Option<int>): (m: Move)
    // only a pointer off the list throws
    ensures m.Threw? <==> t.Some? && !(0 <= t.value < |nodes|)
  {
    if t.None? then Moved(None)
    else if !(0 <= t.value < |nodes|) then Threw
    else if nodes[t.value].next.None? then Moved(t)
    else Moved(nodes[t.value].next)
  }

  /** In cycle mode the hare moves two nodes, or one when the second is the tail's `null`. */
  function HareCycleMove(nodes: seq<Node>, h: Option<int>): (m: Move)
    // in cycle mode the hare never becomes `null`
    ensures h.Some? && m.Moved? ==> m.at.Some?
  {
    if h.None? then Moved(None)
    else if !(0 <= h.value < |nodes|) then Threw
    else if nodes[h.value].next.None? then Moved(h)
    else
      var q := nodes[h.value].next.value;
      if !(0 <= q < |nodes|) then Threw
      else if nodes[q].next.Some? then Moved(nodes[q].next)
      else Moved(Some(q))
  }

  /** In middle mode the hare moves two nodes, and becomes `null` when it cannot. */
  function HareMiddleMove(nodes: seq<Node>, h: Option<int>): (m: Move)
    // the hare lands two links ahead, or nowhere
    ensures m.Moved? && m.at.Some? ==>
      h.Some? && 0 <= h.value < |nodes| && nodes[h.value].next.Some?
      && 0 <= nodes[h.value].next.value < |nodes| && m.at == nodes[nodes[h.value].next.value].next
  {
    if h.None? then Moved(None)
    else if !(0 <= h.value < |nodes|) then Threw
    else if nodes[h.value].next.None? then Moved(None)
    else
      var q := nodes[h.value].next.value;
      if !(0 <= q < |nodes|) then Threw
      else if nodes[q].next.Some? then Moved(nodes[q].next)
      else Moved(None)
  }

  function HareMove(mode: Mode, nodes: seq<Node>, h: Option<int>): Move
  {
    if mode == CycleMode then HareCycleMove(nodes, h) else HareMiddleMove(nodes, h)
  }

  /** Both pointers, or `None` when a step threw. */
  datatype Pointers = Pointers(tortoise: Option<int>, hare: Option<int>)

  function Advance(nodes: seq<Node>, mode: Mode, p: Pointers): (r: Option<Pointers>)
    // pointers that are `null` stay `null`, and in cycle mode the hare is never `null` after a step
    ensures p == Pointers(None, None) ==> r == Some(p)
    ensures r.Some? && mode == CycleMode && p.hare.Some? ==> r.value.hare.Some?
  {
    var tm, hm := TortoiseMove(nodes, p.tortoise), HareMove(mode, nodes, p.hare);
    if tm.Threw? || hm.Threw? then None else Some(Pointers(tm.at, hm.at))
  }

  /** The pointers after `s` steps of `stepForward` from the head, as `resetSimulation` and `runAlgorithm` leave them. */
  function Run(nodes: seq<Node>, mode: Mode, s: nat): Option<Pointers>
  {
    if s == 0 then Some(Pointers(Some(0), Some(0)))
    else
      var p := Run(nodes, mode, s - 1);
      if p.None? then None else Advance(nodes, mode, p.value)
  }

  // ----- runs over an acyclic list -----

  /** Cycle mode on an acyclic list: the tortoise is at `s` and the hare at `2s`, each stopped at the tail. */
  lemma {:induction false} AcyclicCycleRun(nodes: seq<Node>, s: nat)
    requires Chain(nodes) && LastNext(nodes) == None
    ensures Run(nodes, CycleMode, s) == Some(Pointers(Some(Min(s, |nodes| - 1)), Some(Min(2 * s, |nodes| - 1))))
  {
    if s > 0 {
      AcyclicCycleRun(nodes, s - 1);
      AcyclicAdvance(nodes, s);
    }
  }

  /** Step `s` of cycle mode on an acyclic list. */
  lemma AcyclicAdvance(nodes: seq<Node>, s: nat)
    requires Chain(nodes) && LastNext(nodes) == None && s >= 1
    ensures var n := |nodes|;
            Advance(nodes, CycleMode, Pointers(Some(Min(s - 1, n - 1)), Some(Min(2 * (s - 1), n - 1))))
            == Some(Pointers(Some(Min(s, n - 1)), Some(Min(2 * s, n - 1))))
  {
  }

  /** Middle mode on an acyclic list: `s` and `2s` while `2s` is a node, then the hare is `null`. */
  lemma {:induction false} AcyclicMiddleRun(nodes: seq<Node>, s: nat)
    requires Chain(nodes) && LastNext(nodes) == None && s <= (|nodes| - 1) / 2 + 1
    ensures Run(nodes, MiddleMode, s) ==
              if 2 * s <= |nodes| - 1 then Some(Pointers(Some(s), Some(2 * s)))
              else Some(Pointers(Some(Min(s, |nodes| - 1)), None))
  {
    if s > 0 {
      AcyclicMiddleRun(nodes, s - 1);
      AcyclicMiddleAdvance(nodes, s);
    }
  }

  /** Step `s` of middle mode on an acyclic list, from a hare still on node `2(s - 1)`. */
  lemma AcyclicMiddleAdvance(nodes: seq<Node>, s: nat)
    requires Chain(nodes) && LastNext(nodes) == None && s >= 1 && 2 * (s - 1) <= |nodes| - 1
    ensures Advance(nodes, MiddleMode, Pointers(Some(s - 1), Some(2 * (s - 1))))
            == if 2 * s <= |nodes| - 1 then Some(Pointers(Some(s), Some(2 * s)))
               else Some(Pointers(Some(Min(s, |nodes| - 1)), None))
  {
  }

  // ----- runs over a list with a cycle -----

  /** Where `k` moves from the head land on a list `0 .. n - 1` whose tail links to `c`. */
  function Pos(n: int, c: int, k: int): int
    requires 0 <= c < n
  {
    if k < c then k else c + (k - c) % (n - c)
  }

  /** One more move: the node after `Pos(k)`. */
  lemma PosSucc(n: int, c: int, k: nat)
    requires 0 <= c < n
    ensures 0 <= Pos(n, c, k) < n
    ensures Pos(n, c, k + 1) == if Pos(n, c, k) < n - 1 then Pos(n, c, k) + 1 else c
  {
    if k >= c {
      var l := n - c;
      var q, r := (k - c) / l, (k - c) % l;
      if r < l - 1 {
        DivModUnique(k + 1 - c, l, q, r + 1);
      } else {
        DivModUnique(k + 1 - c, l, q + 1, 0);
      }
    }
  }

  /** `l * d` is at least `l` for `d >= 1`. */
  lemma {:induction false} MulAtLeast(l: nat, d: int)
    requires d >= 1
    ensures l * d >= l
    decreases d
  {
    if d > 1 {
      MulAtLeast(l, d - 1);
      assert l * d == l * (d - 1) + l;
    }
  }

  /** Euclidean division is unique: `x = l * q + r` with `0 <= r < l` fixes `x / l` and `x % l`. */
  lemma DivModUnique(x: int, l: int, q: int, r: int)
    requires 0 < l && 0 <= r < l && x == l * q + r
    ensures x / l == q && x % l == r
  {
    var q0, r0 := x / l, x % l;
    var d := q - q0;
    assert l * d == r0 - r by {
      assert l * q - l * q0 == l * (q - q0);
    }
    if d >= 1 {
      MulAtLeast(l, d);
    }
  }

  /** On a cycle, the node at `Pos(k)` links to `Pos(k + 1)`. */
  lemma NextOfPos(nodes: seq<Node>, k: nat)
    requires Chain(nodes) && LastNext(nodes).Some?
    ensures var n, c := |nodes|, LastNext(nodes).value;
            0 <= Pos(n, c, k) < n && nodes[Pos(n, c, k)].next == Some(Pos(n, c, k + 1))
  {
    PosSucc(|nodes|, LastNext(nodes).value, k);
  }

  /** From `Pos(k)` the tortoise moves one node round the cycle and the hare two. */
  lemma CyclicMoves(nodes: seq<Node>, k: nat)
    requires Chain(nodes) && LastNext(nodes).Some?
    ensures var n, c := |nodes|, LastNext(nodes).value;
            TortoiseMove(nodes, Some(Pos(n, c, k))) == Moved(Some(Pos(n, c, k + 1)))
            && HareCycleMove(nodes, Some(Pos(n, c, k))) == Moved(Some(Pos(n, c, k + 2)))
  {
    NextOfPos(nodes, k);
    NextOfPos(nodes, k + 1);
  }

  /** Step `s` of cycle mode on a cycle, from `Pos(s - 1)` and `Pos(2(s - 1))`. */
  lemma CyclicAdvance(nodes: seq<Node>, s: nat)
    requires Chain(nodes) && LastNext(nodes).Some? && s >= 1
    ensures var n, c := |nodes|, LastNext(nodes).value;
            Advance(nodes, CycleMode, Pointers(Some(Pos(n, c, s - 1)), Some(Pos(n, c, 2 * (s - 1)))))
            == Some(Pointers(Some(Pos(n, c, s)), Some(Pos(n, c, 2 * s))))
  {
    CyclicMoves(nodes, s - 1);
    CyclicMoves(nodes, 2 * (s - 1));
    var n, c := |nodes|, LastNext(nodes).value;
    assert 2 * (s - 1) + 2 == 2 * s;
  }

  /** Cycle mode on a list whose tail links to `c`: the tortoise is `s` moves along, the hare `2s`. */
  lemma {:induction false} CyclicRun(nodes: seq<Node>, s: nat)
    requires Chain(nodes) && LastNext(nodes).Some?
    ensures var n, c := |nodes|, LastNext(nodes).value;
            Run(nodes, CycleMode, s) == Some(Pointers(Some(Pos(n, c, s)), Some(Pos(n, c, 2 * s))))
  {
    if s > 0 {
      CyclicRun(nodes, s - 1);
      CyclicAdvance(nodes, s);
    }
  }

  /** Adding a multiple of `l` leaves the remainder. */
  lemma ModPlusMultiple(x: int, l: int, q: int)
    requires 0 < l
    ensures (x + l * q) % l == x % l
  {
    assert x + l * q == l * (x / l + q) + x % l by {
      assert l * (x / l + q) == l * (x / l) + l * q;
    }
    DivModUnique(x + l * q, l, x / l + q, x % l);
  }

  /** Two numbers with the same remainder differ by a multiple of `l`. */
  lemma SameRemainder(x: int, s: int, l: int)
    requires 0 < l && (x + s) % l == x % l
    ensures s % l == 0
  {
    var a, b := (x + s) / l, x / l;
    assert s == l * (a - b) by {
      assert l * (a - b) == l * a - l * b;
    }
    DivModUnique(s, l, a - b, 0);
  }

  /**
   * Floyd's theorem on these lists: after `s >= 1` steps the tortoise and
   * the hare stand on the same node exactly when `s` is past the entry `c`
   * of the cycle and a multiple of its length `n - c`.
   */
  lemma MeetIff(n: int, c: int, s: nat)
    requires 0 <= c < n && s >= 1
    ensures Pos(n, c, s) == Pos(n, c, 2 * s) <==> s >= c && s % (n - c) == 0
  {
    var l := n - c;
    if s >= c {
      if s % l == 0 {
        assert s == l * (s / l);
        ModPlusMultiple(s - c, l, s / l);
        assert 2 * s - c == (s - c) + l * (s / l);
      } else if Pos(n, c, s) == Pos(n, c, 2 * s) {
        assert 2 * s - c == (s - c) + s;
        SameRemainder(s - c, s, l);
      }
    }
  }

  /** The pointers do meet: `(n - c)(c + 1)` steps are past the entry and a multiple of the cycle. */
  lemma TheyMeet(n: int, c: int)
    requires 0 <= c < n
    ensures var s := (n - c) * (c + 1); s >= 1 && Pos(n, c, s) == Pos(n, c, 2 * s)
  {
    var l := n - c;
    var s := l * (c + 1);
    assert s >= c + 1 by {
      assert l * (c + 1) >= 1 * (c + 1);
    }
    DivModUnique(s, l, c + 1, 0);
    MeetIff(n, c, s);
  }

  // ----- what the effect reports -----

  /** The effect's branch: a meeting, the end of an acyclic list, the middle found, or a progress line. */
  datatype Outcome = Found | NoCycle | MiddleFound(middle: seq<int>) | Progress | Crashed

  /** The middle of a list of `n` nodes: one node for odd `n`, two for even `n`. */
  function MiddleOf(n: int): (ms: seq<int>)
    ensures |ms| == if n % 2 == 0 then 2 else 1
    ensures ms[0] + ms[|ms| - 1] == n - 1
    ensures forall k :: 0 < k < |ms| ==> ms[k] == ms[k - 1] + 1
  {
    var m := (n - 1) / 2;
    if n % 2 == 0 then [m, m + 1] else [m]
  }

  /** The effect as written: a meeting is checked before the end of the list, at every step including the first render. */
  function DetectAsWritten(nodes: seq<Node>, mode: Mode, t: Option<int>, h: Option<int>, step: int): (r: Outcome)
    // as written, pointers on the same node are a cycle at any step, the first render included
    ensures r == Found <==> mode == CycleMode && t == h && t.Some?
  {
    if mode == CycleMode then
      if t == h && t.Some? then Found
      else if h.None? then NoCycle
      else if !(0 <= h.value < |nodes|) then Crashed
      else if nodes[h.value].next.None? then NoCycle
      else Progress
    else if h.None? then MiddleFound(MiddleOf(|nodes|))
    else Progress
  }

  /**
   * The effect with the checks in the order the algorithm needs: a hare at
   * the end of the list means no cycle, and only pointers that have moved
   * can have met.
   */
  function Detect(nodes: seq<Node>, mode: Mode, t: Option<int>, h: Option<int>, step: int): (r: Outcome)
    // a cycle is reported only after a step, on a node that is not the tail
    ensures r == Found ==> mode == CycleMode && step > 0 && t == h && h.Some?
                           && 0 <= h.value < |nodes| && nodes[h.value].next.Some?
  {
    if mode == CycleMode then
      if h.None? then NoCycle
      else if !(0 <= h.value < |nodes|) then Crashed
      else if nodes[h.value].next.None? then NoCycle
      else if t == h && step > 0 then Found
      else Progress
    else if h.None? then MiddleFound(MiddleOf(|nodes|))
    else Progress
  }

  /**
   * As written, the first render of every list in cycle mode, the acyclic
   * one included, reports a cycle; and on an acyclic list the tortoise
   * catching up with the hare at the tail is reported as one too.
   */
  lemma AsWrittenReportsFalseCycle(nodes: seq<Node>, s: nat)
    requires Chain(nodes) && LastNext(nodes) == None && s >= |nodes| - 1
    ensures DetectAsWritten(nodes, CycleMode, Some(0), Some(0), 0) == Found
    ensures Run(nodes, CycleMode, s) == Some(Pointers(Some(|nodes| - 1), Some(|nodes| - 1)))
    ensures DetectAsWritten(nodes, CycleMode, Some(|nodes| - 1), Some(|nodes| - 1), s) == Found
  {
    AcyclicCycleRun(nodes, s);
  }

  /**
   * With the checks reordered, a run in cycle mode reports a cycle at step
   * `s` exactly when the list has one and the pointers meet there, and it
   * reports the end of the list exactly when the list has none and the
   * hare has reached the tail.
   */
  lemma DetectCorrect(nodes: seq<Node>, s: nat)
    requires Chain(nodes)
    ensures Run(nodes, CycleMode, s).Some?
    ensures var p, n := Run(nodes, CycleMode, s).value, |nodes|;
            var o := Detect(nodes, CycleMode, p.tortoise, p.hare, s);
            (o == Found <==> LastNext(nodes).Some? && s >= 1 && s >= LastNext(nodes).value && s % (n - LastNext(nodes).value) == 0)
            && (o == NoCycle <==> LastNext(nodes).None? && 2 * s >= n - 1)
            && o != Crashed
  {
    if LastNext(nodes).None? {
      AcyclicCycleRun(nodes, s);
    } else {
      CyclicRun(nodes, s);
      var n, c := |nodes|, LastNext(nodes).value;
      if s >= 1 {
        MeetIff(n, c, s);
      }
      PosSucc(n, c, 2 * s);
    }
  }

  /**
   * As written, in middle mode the tortoise moves once more in the step
   * that sets the hare to `null`: on an odd list of three nodes or more it
   * ends one node past the middle the effect reports.
   */
  lemma AsWrittenMiddleOvershoots(nodes: seq<Node>)
    requires Chain(nodes) && LastNext(nodes) == None && |nodes| >= 3 && |nodes| % 2 == 1
    ensures Run(nodes, MiddleMode, (|nodes| - 1) / 2 + 1) == Some(Pointers(Some(MiddleOf(|nodes|)[0] + 1), None))
    ensures MiddleOf(|nodes|)[0] + 1 !in MiddleOf(|nodes|)
  {
    AcyclicMiddleRun(nodes, (|nodes| - 1) / 2 + 1);
  }

  /**
   * The middle-mode step as the textbook loop has it: both pointers move
   * while the hare and the node after it exist, otherwise the hare drops
   * to `null` and the tortoise stays.
   */
  function AdvanceMiddle(nodes: seq<Node>, p: Pointers): Option<Pointers>
  {
    if p.hare.None? || !(0 <= p.hare.value < |nodes|) || nodes[p.hare.value].next.None? then
      (if p.hare.Some? && !(0 <= p.hare.value < |nodes|) then None else Some(Pointers(p.tortoise, None)))
    else
      var tm, hm := TortoiseMove(nodes, p.tortoise), HareMiddleMove(nodes, p.hare);
      if tm.Threw? || hm.Threw? then None else Some(Pointers(tm.at, hm.at))
  }

  function RunMiddle(nodes: seq<Node>, s: nat): Option<Pointers>
  {
    if s == 0 then Some(Pointers(Some(0), Some(0)))
    else
      var p := RunMiddle(nodes, s - 1);
      if p.None? then None else AdvanceMiddle(nodes, p.value)
  }

  lemma {:induction false} MiddleRun(nodes: seq<Node>, s: nat)
    requires Chain(nodes) && LastNext(nodes) == None && s <= |nodes| / 2
    ensures RunMiddle(nodes, s) == Some(Pointers(Some(s), if 2 * s <= |nodes| - 1 then Some(2 * s) else None))
  {
    if s > 0 {
      MiddleRun(nodes, s - 1);
    }
  }

  /**
   * With the textbook step the hare drops to `null` after `n / 2` steps, or
   * one more on an odd list, and the tortoise then stands on node `n / 2`,
   * the middle node of an odd list and the second middle of an even one.
   */
  lemma MiddleFoundCorrect(nodes: seq<Node>)
    requires Chain(nodes) && LastNext(nodes) == None
    ensures RunMiddle(nodes, |nodes| / 2 + |nodes| % 2) == Some(Pointers(Some(|nodes| / 2), None))
    ensures |nodes| / 2 in MiddleOf(|nodes|)
  {
    var n := |nodes|;
    if n % 2 == 1 {
      MiddleLastStep(nodes);
    } else {
      MiddleRun(nodes, n / 2);
    }
  }

  /** Before that step the hare is still on a node, so the effect has not yet reported the middle. */
  lemma MiddleHareAlive(nodes: seq<Node>, k: nat)
    requires Chain(nodes) && LastNext(nodes) == None && k < |nodes| / 2 + |nodes| % 2
    ensures RunMiddle(nodes, k).Some? && RunMiddle(nodes, k).value.hare.Some?
  {
    MiddleRun(nodes, k);
  }

  /** On an odd list the step after `n / 2` finds the hare at the tail and leaves the tortoise. */
  lemma MiddleLastStep(nodes: seq<Node>)
    requires Chain(nodes) && LastNext(nodes) == None && |nodes| % 2 == 1
    ensures RunMiddle(nodes, |nodes| / 2 + 1) == Some(Pointers(Some(|nodes| / 2), None))
  {
    MiddleRun(nodes, |nodes| / 2);
  }

  // ----- the component -----

  /** What the explanation paragraph says. */
  datatype Explanation = Blank | CycleText | NoCycleText | ProgressText(step: int, tortoise: Option<int>, hare: Option<int>)
                       | MiddlePairText(first: int) | MiddleText(middle: int)

  class FloydsAlgorithmVisualizer {
    var nodes: seq<Node>
    var tortoise: Option<int>
    var hare: Option<int>
    var cycleDetected: bool
    var middleNodes: seq<int>
    var isRunning: bool
    var isPaused: bool
    var mode: Mode
    var step: int
    var explanation: Explanation

    /** Every list is a chain, and in middle mode an acyclic one. */
    predicate Valid()
      reads this
    {
      Chain(nodes) && (mode == MiddleMode ==> LastNext(nodes) == None)
    }

    /** The first render in cycle mode, after the mount effect has run `resetSimulation`. */
    constructor ()
      ensures mode == CycleMode && nodes == InitialNodes(CycleMode) && Valid()
      ensures tortoise == Some(0) && hare == Some(0) && step == 0 && !isRunning && !isPaused
      ensures !cycleDetected && middleNodes == [] && explanation == Blank
    {
      mode := CycleMode;
      nodes := InitialNodes(CycleMode);
      tortoise, hare := Some(0), Some(0);
      cycleDetected := false;
      middleNodes := [];
      isRunning, isPaused := false, false;
      step := 0;
      explanation := Blank;
    }

    /** `resetSimulation`: the five initial nodes of the mode, both pointers at the head. */
    method ResetSimulation()
      modifies this
      ensures mode == old(mode) && nodes == InitialNodes(mode) && Valid()
      ensures tortoise == Some(0) && hare == Some(0) && step == 0 && !isRunning && !isPaused
      ensures !cycleDetected && middleNodes == [] && explanation == Blank
    {
      nodes := InitialNodes(mode);
      tortoise, hare := Some(0), Some(0);
      cycleDetected := false;
      middleNodes := [];
      isRunning, isPaused := false, false;
      step := 0;
      explanation := Blank;
    }

    /** The mode selector; a new mode resets the simulation through the effect on `[mode]`. */
    method SetMode(m: Mode)
      requires Valid()
      modifies this
      ensures mode == m && Valid()
      ensures m != old(mode) ==> nodes == InitialNodes(m) && tortoise == Some(0) && hare == Some(0) && step == 0
      ensures m == old(mode) ==> nodes == old(nodes) && tortoise == old(tortoise) && hare == old(hare) && step == old(step)
    {
      if m != mode {
        mode := m;
        ResetSimulation();
      }
    }

    method AddNode()
      requires Valid()
      modifies this`nodes
      ensures nodes == AddedNode(old(nodes)) && Valid()
    {
      EditsKeepChain(nodes);
      nodes := AddedNode(nodes);
    }

    method RemoveNode()
      requires Valid()
      modifies this`nodes
      ensures nodes == RemovedNode(old(nodes)) && Valid()
    {
      EditsKeepChain(nodes);
      nodes := RemovedNode(nodes);
    }

    /** `toggleCycle`: only in cycle mode. */
    method ToggleCycle()
      requires Valid()
      modifies this`nodes
      ensures nodes == if mode == CycleMode then ToggledCycle(old(nodes)) else old(nodes)
      ensures Valid()
    {
      if mode == CycleMode {
        EditsKeepChain(nodes);
        nodes := ToggledCycle(nodes);
      }
    }

    /** `runAlgorithm`: both pointers back at the head, the step count at zero, running. */
    method RunAlgorithm()
      modifies this`isRunning, this`tortoise, this`hare, this`step
      ensures isRunning && tortoise == Some(0) && hare == Some(0) && step == 0
    {
      isRunning := true;
      tortoise, hare := Some(0), Some(0);
      step := 0;
    }

    method PauseResume()
      modifies this`isPaused
      ensures isPaused == !old(isPaused)
    {
      isPaused := !isPaused;
    }

    /**
     * `stepForward`: both pointers move as the mode says and the step count
     * goes up by one; a pointer left past the end of a shortened list makes
     * the lookup throw, and nothing changes.
     */
    method StepForward() returns (threw: bool)
      modifies this`tortoise, this`hare, this`step
      ensures var next := Advance(nodes, mode, Pointers(old(tortoise), old(hare)));
              (threw <==> next.None?)
              && (next.Some? ==> tortoise == next.value.tortoise && hare == next.value.hare && step == old(step) + 1)
              && (next.None? ==> tortoise == old(tortoise) && hare == old(hare) && step == old(step))
    {
      var tm := TortoiseMove(nodes, tortoise);
      var hm := HareMove(mode, nodes, hare);
      if tm.Threw? || hm.Threw? {
        return true;
      }
      tortoise, hare := tm.at, hm.at;
      step := step + 1;
      threw := false;
    }

    /** The interval: one `stepForward` per period while running and not paused. */
    method Tick() returns (threw: bool)
      modifies this`tortoise, this`hare, this`step
      ensures !(isRunning && !isPaused) ==> !threw && tortoise == old(tortoise) && hare == old(hare) && step == old(step)
      ensures isRunning && !isPaused ==>
                var next := Advance(nodes, mode, Pointers(old(tortoise), old(hare)));
                (threw <==> next.None?) && (next.Some? ==> Pointers(tortoise, hare) == next.value && step == old(step) + 1)
    {
      threw := false;
      if isRunning && !isPaused {
        threw := StepForward();
      }
    }

    /** The fields the effect sets for an outcome. */
    method Report(o: Outcome)
      requires o.MiddleFound? ==> |o.middle| > 0
      modifies this`cycleDetected, this`isRunning, this`explanation, this`middleNodes
      ensures o == Found ==> cycleDetected && !isRunning && explanation == CycleText && middleNodes == old(middleNodes)
      ensures o == NoCycle ==> cycleDetected == old(cycleDetected) && !isRunning && explanation == NoCycleText && middleNodes == old(middleNodes)
      ensures o.MiddleFound? ==> cycleDetected == old(cycleDetected) && !isRunning && middleNodes == o.middle
                                 && explanation == (if |o.middle| == 2 then MiddlePairText(o.middle[0]) else MiddleText(o.middle[0]))
      ensures o == Progress ==> cycleDetected == old(cycleDetected) && isRunning == old(isRunning) && middleNodes == old(middleNodes)
                                && explanation == ProgressText(step, tortoise, hare)
      ensures o == Crashed ==> cycleDetected == old(cycleDetected) && isRunning == old(isRunning)
                               && explanation == old(explanation) && middleNodes == old(middleNodes)
    {
      match o {
        case Found =>
          cycleDetected := true;
          isRunning := false;
          explanation := CycleText;
        case NoCycle =>
          isRunning := false;
          explanation := NoCycleText;
        case MiddleFound(ms) =>
          middleNodes := ms;
          explanation := if |ms| == 2 then MiddlePairText(ms[0]) else MiddleText(ms[0]);
          isRunning := false;
        case Progress =>
          explanation := ProgressText(step, tortoise, hare);
        case Crashed =>
      }
    }

    /** The effect on `[tortoise, hare, mode, nodes, step]` as written. */
    method DetectAsWrittenEffect() returns (o: Outcome)
      modifies this`cycleDetected, this`isRunning, this`explanation, this`middleNodes
      ensures o == DetectAsWritten(nodes, mode, tortoise, hare, step)
    {
      o := DetectAsWritten(nodes, mode, tortoise, hare, step);
      Report(o);
    }

    /** The effect with its checks reordered. */
    method DetectEffect() returns (o: Outcome)
      modifies this`cycleDetected, this`isRunning, this`explanation, this`middleNodes
      ensures o == Detect(nodes, mode, tortoise, hare, step)
    {
      o := Detect(nodes, mode, tortoise, hare, step);
      Report(o);
    }
  }
}
