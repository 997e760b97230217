/**
 * `Visualizer/AlgorithmVisualizer.tsx`: interprets the visualization payload
 * the chat backend returns. The payload is a JSON value; the component picks
 * a renderer from its `visualizationType`, and the tree, table and graph
 * renderers first turn the payload into the structures they draw: a
 * hierarchy of tree nodes, a row-major list of table cells, and edges whose
 * endpoints are resolved to nodes. The drawing itself is left out.
 */
module AlgorithmVisualizer {
  import opened Wrappers
  import opened Json

  // ----- choosing a renderer -----

  datatype Renderer = Sorting | Graph | Tree | Stack | Queue | HashMap | Table | Unsupported

  /** The `visualizationType` each renderer is chosen by. */
  function TypeName(r: Renderer): string
  {
    match r
    case Sorting => "sorting"
    case Graph => "graph"
    case Tree => "tree"
    case Stack => "stack"
    case Queue => "queue"
    case HashMap => "hashmap"
    case Table => "table"
    case Unsupported => ""
  }

  /** JavaScript truthiness of a prop that may be `undefined`. */
  predicate Present(v: Option<Value>)
  {
    v.Some? && JsTruthy(v.value)
  }

  /**
   * The effect: nothing is drawn without a payload; otherwise the switch on
   * `visualizationType` compares strictly with the seven names, and anything
   * else, a missing type or one that is not a string included, is unsupported.
   */
  function RendererFor(data: Option<Value>): (r: Option<Renderer>)
    ensures r.None? <==> !Present(data)
  {
    if !Present(data) then None
    else
      var t := Get(data.value, "visualizationType");
      if t == Some(Str("sorting")) then Some(Sorting)
      else if t == Some(Str("graph")) then Some(Graph)
      else if t == Some(Str("tree")) then Some(Tree)
      else if t == Some(Str("stack")) then Some(Stack)
      else if t == Some(Str("queue")) then Some(Queue)
      else if t == Some(Str("hashmap")) then Some(HashMap)
      else if t == Some(Str("table")) then Some(Table)
      else Some(Unsupported)
  }

  /**
   * A payload is drawn exactly when it is present; a supported renderer is
   * chosen exactly when the payload's type is its name, and every other
   * payload falls back to the unsupported view.
   */
  lemma DispatchByName(data: Option<Value>, r: Renderer)
    requires r != Unsupported
    ensures RendererFor(data).None? <==> !Present(data)
    ensures RendererFor(data) == Some(r) <==> Present(data) && Get(data.value, "visualizationType") == Some(Str(TypeName(r)))
    ensures RendererFor(data) == Some(Unsupported) <==>
              Present(data) && forall q :: q != Unsupported ==> Get(data.value, "visualizationType") != Some(Str(TypeName(q)))
  {
    if Present(data) && RendererFor(data) != Some(Unsupported) {
      var q := RendererFor(data).value;
      assert Get(data.value, "visualizationType") == Some(Str(TypeName(q)));
    }
  }

  // ----- tree payloads -----

  /** A payload tree node: an id, a value, and the ids of its children. */
  datatype TreeNode = TreeNode(id: string, value: Value, children: seq<string>)

  /** A node of the drawn hierarchy; its children are named by id, and each id stands for the one map entry with it. */
  datatype HNode = HNode(id: string, value: Value, children: seq<string>)

  /** The children ids that name a node, in their listed order. */
  function Resolvable(cs: seq<string>, ids: set<string>): (r: seq<string>)
    ensures |r| <= |cs|
    decreases |cs|
  {
    if cs == [] then []
    else Resolvable(cs[..|cs| - 1], ids) + (if cs[|cs| - 1] in ids then [cs[|cs| - 1]] else [])
  }

  /** An id survives exactly when it was listed and names a node. */
  lemma {:induction false} ResolvableMembers(cs: seq<string>, ids: set<string>, x: string)
    ensures x in Resolvable(cs, ids) <==> x in cs && x in ids
    decreases |cs|
  {
    if cs != [] {
      ResolvableMembers(cs[..|cs| - 1], ids, x);
      assert cs == cs[..|cs| - 1] + [cs[|cs| - 1]];
    }
  }

  /** The map after the first `forEach` has seen `i` nodes: a later node with the same id replaces an earlier one. */
  function Created(nodes: seq<TreeNode>, i: int): map<string, HNode>
    requires 0 <= i <= |nodes|
  {
    if i == 0 then map[]
    else Created(nodes, i - 1)[nodes[i - 1].id := HNode(nodes[i - 1].id, nodes[i - 1].value, [])]
  }

  function NodeIds(nodes: seq<TreeNode>): set<string>
  {
    set k | 0 <= k < |nodes| :: nodes[k].id
  }

  lemma {:induction false} CreatedEntries(nodes: seq<TreeNode>, i: int)
    requires 0 <= i <= |nodes|
    ensures forall k :: 0 <= k < i ==> nodes[k].id in Created(nodes, i)
    ensures forall id :: id in Created(nodes, i) ==> Created(nodes, i)[id].id == id && Created(nodes, i)[id].children == []
    ensures forall id :: id in Created(nodes, i) ==> exists k :: 0 <= k < i && nodes[k].id == id
  {
    if i > 0 {
      CreatedEntries(nodes, i - 1);
    }
  }

  lemma CreatedKeys(nodes: seq<TreeNode>)
    ensures Created(nodes, |nodes|).Keys == NodeIds(nodes)
  {
    CreatedEntries(nodes, |nodes|);
  }

  /** The children the second `forEach` has attached to `id` after `i` nodes. */
  function Attached(nodes: seq<TreeNode>, i: int, id: string, ids: set<string>): seq<string>
    requires 0 <= i <= |nodes|
  {
    if i == 0 then []
    else Attached(nodes, i - 1, id, ids) + (if nodes[i - 1].id == id then Resolvable(nodes[i - 1].children, ids) else [])
  }

  /** The entry for `id` once the second `forEach` has seen `i` nodes and `j` children of node `i`. */
  function EntryAt(nodes: seq<TreeNode>, i: int, j: int, id: string): HNode
    requires 0 <= i <= |nodes| && id in Created(nodes, |nodes|)
    requires i < |nodes| ==> 0 <= j <= |nodes[i].children|
  {
    var ids := Created(nodes, |nodes|).Keys;
    var partial := if i < |nodes| && nodes[i].id == id then Resolvable(nodes[i].children[..j], ids) else [];
    Created(nodes, |nodes|)[id].(children := Attached(nodes, i, id, ids) + partial)
  }

  /** The whole map `transformToHierarchy` builds. */
  function Hierarchy(nodes: seq<TreeNode>): map<string, HNode>
  {
    map id | id in Created(nodes, |nodes|) :: EntryAt(nodes, |nodes|, 0, id)
  }

  /** Every id listed as some node's child. */
  function ChildIds(nodes: seq<TreeNode>): set<string>
  {
    set k, c | 0 <= k < |nodes| && c in nodes[k].children :: c
  }

  /** The index `nodes.find` stops at: the first node whose id no node lists as a child. */
  function RootIndex(nodes: seq<TreeNode>, childIds: set<string>, from: int): (r: Option<int>)
    requires 0 <= from <= |nodes|
    ensures r.Some? ==> from <= r.value < |nodes| && nodes[r.value].id !in childIds
                        && forall k :: from <= k < r.value ==> nodes[k].id in childIds
    ensures r.None? ==> forall k :: from <= k < |nodes| ==> nodes[k].id in childIds
    decreases |nodes| - from
  {
    if from == |nodes| then None
    else if nodes[from].id !in childIds then Some(from)
    else RootIndex(nodes, childIds, from + 1)
  }

  /**
   * `transformToHierarchy`: the first loop creates one childless entry per
   * id, the second appends to each node's entry the children that name a
   * node, and the root is the entry of the first node no node lists as a
   * child, or nothing.
   */
  method TransformToHierarchy(nodes: seq<TreeNode>) returns (root: Option<HNode>, nodeMap: map<string, HNode>)
    ensures nodeMap == Hierarchy(nodes) && nodeMap.Keys == NodeIds(nodes)
    ensures var r := RootIndex(nodes, ChildIds(nodes), 0);
            (r.None? ==> root.None?) && (r.Some? ==> root == Some(nodeMap[nodes[r.value].id]))
  {
    nodeMap := CreateEntries(nodes);
    CreatedKeys(nodes);
    StartAttaching(nodes);
    var i := 0;
    while i < |nodes|
      invariant 0 <= i <= |nodes| && AttachedUpTo(nodes, nodeMap, i, 0)
    {
      nodeMap := AttachChildren(nodes, i, nodeMap);
      i := i + 1;
    }
    assert nodeMap == Hierarchy(nodes);
    var r := FindRoot(nodes);
    root := if r.Some? then Some(nodeMap[nodes[r.value].id]) else None;
  }

  /** The first `forEach`: one childless entry per id. */
  method CreateEntries(nodes: seq<TreeNode>) returns (nodeMap: map<string, HNode>)
    ensures nodeMap == Created(nodes, |nodes|)
  {
    nodeMap := map[];
    var i := 0;
    while i < |nodes|
      invariant 0 <= i <= |nodes| && nodeMap == Created(nodes, i)
    {
      nodeMap := nodeMap[nodes[i].id := HNode(nodes[i].id, nodes[i].value, [])];
      i := i + 1;
    }
  }

  /** The map holds, for every id, its entry after `i` nodes and `j` children of node `i`. */
  ghost predicate AttachedUpTo(nodes: seq<TreeNode>, m: map<string, HNode>, i: int, j: int)
    requires 0 <= i <= |nodes| && (i < |nodes| ==> 0 <= j <= |nodes[i].children|)
  {
    m.Keys == Created(nodes, |nodes|).Keys && forall id :: id in m ==> m[id] == EntryAt(nodes, i, j, id)
  }

  /** The second `forEach` for node `i`: its children that name a node are appended to its entry. */
  method AttachChildren(nodes: seq<TreeNode>, i: int, m: map<string, HNode>) returns (nodeMap: map<string, HNode>)
    requires 0 <= i < |nodes| && AttachedUpTo(nodes, m, i, 0)
    ensures AttachedUpTo(nodes, nodeMap, i + 1, 0)
  {
    nodeMap := m;
    var cs := nodes[i].children;
    var j := 0;
    while j < |cs|
      invariant 0 <= j <= |cs| && AttachedUpTo(nodes, nodeMap, i, j)
    {
      AttachOne(nodes, i, j, nodeMap);
      if cs[j] in nodeMap {
        var owner := nodeMap[nodes[i].id];
        nodeMap := nodeMap[nodes[i].id := owner.(children := owner.children + [cs[j]])];
      }
      j := j + 1;
    }
    FinishNode(nodes, i, nodeMap);
  }

  /** Once all children of node `i` are seen, the map is the one before node `i + 1`. */
  lemma FinishNode(nodes: seq<TreeNode>, i: int, m: map<string, HNode>)
    requires 0 <= i < |nodes| && AttachedUpTo(nodes, m, i, |nodes[i].children|)
    ensures AttachedUpTo(nodes, m, i + 1, 0)
  {
    NextNode(nodes, i);
  }

  /** Before the second `forEach`, every entry is its created one. */
  lemma StartAttaching(nodes: seq<TreeNode>)
    ensures AttachedUpTo(nodes, Created(nodes, |nodes|), 0, 0)
  {
    CreatedEntries(nodes, |nodes|);
  }

  /** `m` with `c` appended to the children of `owner` when `c` names an entry. */
  function Appended(m: map<string, HNode>, owner: string, c: string): map<string, HNode>
    requires owner in m
  {
    if c in m then m[owner := m[owner].(children := m[owner].children + [c])] else m
  }

  /** Appending child `j` of node `i` takes the map from `j` children seen to `j + 1`. */
  lemma AttachOne(nodes: seq<TreeNode>, i: int, j: int, m: map<string, HNode>)
    requires 0 <= i < |nodes| && 0 <= j < |nodes[i].children| && AttachedUpTo(nodes, m, i, j)
    ensures nodes[i].id in m && AttachedUpTo(nodes, Appended(m, nodes[i].id, nodes[i].children[j]), i, j + 1)
  {
    CreatedEntries(nodes, |nodes|);
    AttachStep(nodes, i, j);
    var m' := Appended(m, nodes[i].id, nodes[i].children[j]);
    forall id | id in m'
      ensures m'[id] == EntryAt(nodes, i, j + 1, id)
    {
      assert EntryAt(nodes, i, j + 1, id).children == EntryAt(nodes, i, j, id).children
        + (if id == nodes[i].id && nodes[i].children[j] in m then [nodes[i].children[j]] else []);
    }
  }

  /** One more child of node `i` is appended to its entry when it names a node. */
  lemma AttachStep(nodes: seq<TreeNode>, i: int, j: int)
    requires 0 <= i < |nodes| && 0 <= j < |nodes[i].children|
    ensures var ids := Created(nodes, |nodes|).Keys;
            forall id :: id in ids ==>
              EntryAt(nodes, i, j + 1, id).children ==
              EntryAt(nodes, i, j, id).children + (if id == nodes[i].id && nodes[i].children[j] in ids then [nodes[i].children[j]] else [])
  {
    assert nodes[i].children[..j + 1][..j] == nodes[i].children[..j];
  }

  /** With all of node `i`'s children seen, its entry is the one after `i + 1` nodes. */
  lemma NextNode(nodes: seq<TreeNode>, i: int)
    requires 0 <= i < |nodes|
    ensures forall id :: id in Created(nodes, |nodes|) ==> EntryAt(nodes, i, |nodes[i].children|, id) == EntryAt(nodes, i + 1, 0, id)
  {
    assert nodes[i].children[..|nodes[i].children|] == nodes[i].children;
  }

  /** `nodes.find((node) => !childIds.has(node.id))` with `childIds` from `flatMap`. */
  method FindRoot(nodes: seq<TreeNode>) returns (r: Option<int>)
    ensures r == RootIndex(nodes, ChildIds(nodes), 0)
  {
    var childIds: set<string> := {};
    var k := 0;
    while k < |nodes|
      invariant 0 <= k <= |nodes|
      invariant childIds == set m, c | 0 <= m < k && c in nodes[m].children :: c
    {
      childIds := childIds + set c | c in nodes[k].children;
      k := k + 1;
    }
    k := 0;
    while k < |nodes| && nodes[k].id in childIds
      invariant 0 <= k <= |nodes| && RootIndex(nodes, childIds, k) == RootIndex(nodes, childIds, 0)
    {
      k := k + 1;
    }
    r := if k < |nodes| then Some(k) else None;
  }

  /** Only node `k` has the id `nodes[k].id`. */
  predicate UniqueId(nodes: seq<TreeNode>, k: int)
    requires 0 <= k < |nodes|
  {
    forall m :: 0 <= m < |nodes| && m != k ==> nodes[m].id != nodes[k].id
  }

  lemma {:induction false} CreatedUnique(nodes: seq<TreeNode>, k: int, i: int)
    requires 0 <= k < i <= |nodes| && UniqueId(nodes, k)
    ensures nodes[k].id in Created(nodes, i) && Created(nodes, i)[nodes[k].id].value == nodes[k].value
  {
    if i > k + 1 {
      CreatedEntries(nodes, i - 1);
      CreatedUnique(nodes, k, i - 1);
    }
  }

  lemma {:induction false} AttachedUnique(nodes: seq<TreeNode>, k: int, i: int, ids: set<string>)
    requires 0 <= k < |nodes| && 0 <= i <= |nodes| && UniqueId(nodes, k)
    ensures Attached(nodes, i, nodes[k].id, ids) == if i > k then Resolvable(nodes[k].children, ids) else []
  {
    if i > 0 {
      AttachedUnique(nodes, k, i - 1, ids);
    }
  }

  /**
   * A node whose id no other node shares keeps its id and value in the
   * hierarchy, and its children are its listed children that name a node,
   * in their listed order.
   */
  lemma HierarchyKeepsNode(nodes: seq<TreeNode>, k: int)
    requires 0 <= k < |nodes| && UniqueId(nodes, k)
    ensures nodes[k].id in Hierarchy(nodes)
    ensures Hierarchy(nodes)[nodes[k].id] == HNode(nodes[k].id, nodes[k].value, Resolvable(nodes[k].children, NodeIds(nodes)))
  {
    CreatedEntries(nodes, |nodes|);
    CreatedKeys(nodes);
    CreatedUnique(nodes, k, |nodes|);
    AttachedUnique(nodes, k, |nodes|, NodeIds(nodes));
  }

  /** Every child in the hierarchy names an entry of it. */
  lemma {:induction false} ChildrenResolve(nodes: seq<TreeNode>, i: int, id: string, c: string)
    requires 0 <= i <= |nodes| && c in Attached(nodes, i, id, NodeIds(nodes))
    ensures c in NodeIds(nodes)
  {
    if i > 0 {
      var prev := Attached(nodes, i - 1, id, NodeIds(nodes));
      if c in prev {
        ChildrenResolve(nodes, i - 1, id, c);
      } else {
        ResolvableMembers(nodes[i - 1].children, NodeIds(nodes), c);
      }
    }
  }

  /** The payload's node list: `visualization_data.nodes`, else `nodes`, else the payload itself when it is an array. */
  function TreeNodesSource(data: Value): (r: Option<Value>)
    ensures r.Some? ==> JsTruthy(r.value)
  {
    var inner := Get(data, "visualization_data");
    var nested := if inner.Some? then Get(inner.value, "nodes") else None;
    if Present(nested) then nested
    else if Present(Get(data, "nodes")) then Get(data, "nodes")
    else if data.Arr? then Some(data)
    else None
  }

  /** A payload node with a string id and a list of string children, or none (a missing or `null` list means no children). */
  function TreeNodeOf(v: Value): (r: Option<TreeNode>)
    // the node keeps the payload's id, so only object payloads give nodes
    ensures r.Some? ==> v.Obj? && Get(v, "id") == Some(Str(r.value.id))
  {
    var id := Get(v, "id");
    var value := Get(v, "value");
    var children := Get(v, "children");
    if !(id.Some? && id.value.Str?) then None
    else if children.Some? && JsTruthy(children.value) then
      (if children.value.Arr? && forall c :: c in children.value.items ==> c.Str? then
         Some(TreeNode(id.value.s, if value.Some? then value.value else Null, StrItems(children.value.items)))
       else None)
    else Some(TreeNode(id.value.s, if value.Some? then value.value else Null, []))
  }

  function StrItems(items: seq<Value>): (r: seq<string>)
    requires forall c :: c in items ==> c.Str?
    ensures |r| == |items| && forall i :: 0 <= i < |items| ==> r[i] == items[i].s
  {
    seq(|items|, i requires 0 <= i < |items| => items[i].s)
  }

  /** The payload's nodes, when every one of them has that shape. */
  function TreeNodesOf(v: Value): (r: Option<seq<TreeNode>>)
    ensures r.Some? ==> v.Arr? && |r.value| == |v.items|
    ensures r.Some? ==> forall i :: 0 <= i < |v.items| ==> TreeNodeOf(v.items[i]) == Some(r.value[i])
  {
    if v.Arr? && forall i :: 0 <= i < |v.items| ==> TreeNodeOf(v.items[i]).Some? then
      Some(seq(|v.items|, i requires 0 <= i < |v.items| => TreeNodeOf(v.items[i]).value))
    else None
  }

  datatype TreeView =
    | InvalidTree          // "Invalid tree data structure"
    | ProcessingError      // "Error processing tree data"
    | UnreadNodes          // nodes of another shape, which the model does not follow
    | DrawnTree(root: HNode, nodeMap: map<string, HNode>)

  /** The payload's tree nodes, when it is an object or array and its node list has the expected shape. */
  function PayloadNodes(data: Value): Option<seq<TreeNode>>
  {
    if (data.Arr? || data.Obj?) && TreeNodesSource(data).Some? then TreeNodesOf(TreeNodesSource(data).value) else None
  }

  /** `renderTree` up to the layout: the checks on the payload and its nodes, then the hierarchy. */
  method RenderTree(data: Value) returns (view: TreeView)
    ensures view == InvalidTree <==> !(data.Arr? || data.Obj?) || TreeNodesSource(data).None?
    ensures view == UnreadNodes <==> (data.Arr? || data.Obj?) && TreeNodesSource(data).Some? && PayloadNodes(data).None?
    ensures view == ProcessingError <==>
              PayloadNodes(data).Some? && RootIndex(PayloadNodes(data).value, ChildIds(PayloadNodes(data).value), 0).None?
    ensures view.DrawnTree? ==>
              PayloadNodes(data).Some? && var nodes := PayloadNodes(data).value;
              var r := RootIndex(nodes, ChildIds(nodes), 0);
              r.Some? && view.nodeMap == Hierarchy(nodes) && nodes[r.value].id in Hierarchy(nodes)
              && view.root == Hierarchy(nodes)[nodes[r.value].id]
  {
    if !(data.Arr? || data.Obj?) {
      return InvalidTree;
    }
    var source := TreeNodesSource(data);
    if source.None? {
      return InvalidTree;
    }
    var nodes := TreeNodesOf(source.value);
    if nodes.None? {
      return UnreadNodes;
    }
    var root, nodeMap := TransformToHierarchy(nodes.value);
    if root.None? {
      return ProcessingError;
    }
    view := DrawnTree(root.value, nodeMap);
  }

  // ----- table payloads -----

  datatype Cell = Cell(rowIndex: int, colIndex: int, value: Value)

  /** The cells of row `r`, left to right. */
  function RowCells(r: int, row: seq<Value>): (cs: seq<Cell>)
    ensures |cs| == |row| && forall c :: 0 <= c < |row| ==> cs[c] == Cell(r, c, row[c])
  {
    seq(|row|, c requires 0 <= c < |row| => Cell(r, c, row[c]))
  }

  /** The cells of the first `n` rows, row by row. */
  function Flatten(rows: seq<seq<Value>>, n: int): seq<Cell>
    requires 0 <= n <= |rows|
  {
    if n == 0 then [] else Flatten(rows, n - 1) + RowCells(n - 1, rows[n - 1])
  }

  /** Where row `r` starts among the cells: the number of cells in the rows above it. */
  function Offset(rows: seq<seq<Value>>, r: int): int
    requires 0 <= r <= |rows|
  {
    if r == 0 then 0 else Offset(rows, r - 1) + |rows[r - 1]|
  }

  /** Row-major order: cell `(r, c)` holds `rows[r][c]` and sits at `Offset(r) + c`, and there are no other cells. */
  lemma {:induction false} FlattenRowMajor(rows: seq<seq<Value>>, n: int, r: int, c: int)
    requires 0 <= n <= |rows| && 0 <= r < n && 0 <= c < |rows[r]|
    ensures |Flatten(rows, n)| == Offset(rows, n)
    ensures 0 <= Offset(rows, r) + c < Offset(rows, n)
    ensures Flatten(rows, n)[Offset(rows, r) + c] == Cell(r, c, rows[r][c])
  {
    FlattenLength(rows, n);
    if r < n - 1 {
      FlattenRowMajor(rows, n - 1, r, c);
    }
    OffsetGrows(rows, r + 1, n);
  }

  lemma {:induction false} FlattenLength(rows: seq<seq<Value>>, n: int)
    requires 0 <= n <= |rows|
    ensures |Flatten(rows, n)| == Offset(rows, n)
  {
    if n > 0 {
      FlattenLength(rows, n - 1);
    }
  }

  lemma {:induction false} OffsetGrows(rows: seq<seq<Value>>, a: int, b: int)
    requires 0 <= a <= b <= |rows|
    ensures Offset(rows, a) <= Offset(rows, b)
    decreases b - a
  {
    if a < b {
      OffsetGrows(rows, a, b - 1);
    }
  }

  /** The payload's table as rows of values, when `data` and every row of it are arrays. */
  function RowsOf(v: Value): (r: Option<seq<seq<Value>>>)
    ensures r.Some? ==> v.Arr? && |r.value| == |v.items| && forall i :: 0 <= i < |v.items| ==> v.items[i] == Arr(r.value[i])
  {
    if v.Arr? && forall i :: 0 <= i < |v.items| ==> v.items[i].Arr? then
      Some(seq(|v.items|, i requires 0 <= i < |v.items| => v.items[i].items))
    else None
  }

  /** `x || fallback` on a member that may be missing. */
  function OrElse(v: Option<Value>, fallback: Value): Value
  {
    if Present(v) then v.value else fallback
  }

  /**
   * JavaScript truthiness of `tableData.length`: an array's or a string's
   * length, an object's own `length` member, and `undefined` for numbers and
   * booleans (`null` never gets here, since `data.data || []` replaces it).
   */
  predicate LengthTruthy(v: Value)
  {
    match v
    case Arr(items) => |items| != 0
    case Str(s) => |s| != 0
    case Obj(_) => Present(Get(v, "length"))
    case _ => false
  }

  /** The guard of `renderTable`: a truthy row count, a truthy column count, and a non-empty table. */
  predicate TableValid(data: Value)
    // a payload that is not an object has no truthy row count
    ensures TableValid(data) ==> data.Obj?
  {
    JsTruthy(OrElse(Get(data, "rows"), Num(0))) && JsTruthy(OrElse(Get(data, "columns"), Num(0)))
    && LengthTruthy(OrElse(Get(data, "data"), Arr([])))
  }

  datatype TableView =
    | InvalidTable               // "Invalid table data"
    | TableThrew                 // `forEach` on something that is not an array
    | Cells(cells: seq<Cell>)

  /** `renderTable` up to the drawing: the guard, then the cells of the nested `forEach` loops. */
  method RenderTable(data: Value) returns (view: TableView)
    ensures !TableValid(data) <==> view == InvalidTable
    ensures TableValid(data) && RowsOf(OrElse(Get(data, "data"), Arr([]))).None? <==> view == TableThrew
    ensures view.Cells? ==> var rows := RowsOf(OrElse(Get(data, "data"), Arr([]))).value;
                            view.cells == Flatten(rows, |rows|)
  {
    if !TableValid(data) {
      return InvalidTable;
    }
    var rows := RowsOf(OrElse(Get(data, "data"), Arr([])));
    if rows.None? {
      return TableThrew;
    }
    var cells := FlattenCells(rows.value);
    view := Cells(cells);
  }

  /**
   * An object table with a truthy `length` member passes the guard, and then
   * `tableData.forEach` is not a function: rows 1, columns 1 and
   * `data: {"length": 1}` throw instead of showing "Invalid table data".
   */
  lemma LengthObjectThrows()
    ensures var data := Obj([("visualizationType", Str("table")), ("rows", Num(1)), ("columns", Num(1)),
                             ("data", Obj([("length", Num(1))]))]);
            TableValid(data) && RowsOf(OrElse(Get(data, "data"), Arr([]))).None?
  {
    var table := Obj([("length", Num(1))]);
    assert Get(table, "length") == Some(Num(1));
    var data := Obj([("visualizationType", Str("table")), ("rows", Num(1)), ("columns", Num(1)), ("data", table)]);
    var front := [("visualizationType", Str("table")), ("rows", Num(1)), ("columns", Num(1))];
    assert data.fields[..3] == front && front[..2] == front[..1] + [("rows", Num(1))];
    assert Get(data, "data") == Some(table);
    assert Get(data, "columns") == Get(Obj(front), "columns") == Some(Num(1));
    assert Get(data, "rows") == Get(Obj(front[..2]), "rows") == Some(Num(1));
  }

  /** The nested `forEach` that pushes one cell per value. */
  method FlattenCells(rows: seq<seq<Value>>) returns (cells: seq<Cell>)
    ensures cells == Flatten(rows, |rows|)
  {
    cells := [];
    var r := 0;
    while r < |rows|
      invariant 0 <= r <= |rows| && cells == Flatten(rows, r)
    {
      var c := 0;
      while c < |rows[r]|
        invariant 0 <= c <= |rows[r]| && cells == Flatten(rows, r) + RowCells(r, rows[r][..c])
      {
        assert rows[r][..c + 1] == rows[r][..c] + [rows[r][c]];
        cells := cells + [Cell(r, c, rows[r][c])];
        c := c + 1;
      }
      assert rows[r][..|rows[r]|] == rows[r];
      r := r + 1;
    }
  }

  // ----- graph payloads -----

  /** An edge endpoint after the `map`: the node found by its id, or the endpoint as it was (`None` is a missing one). */
  datatype Endpoint = NodeAt(index: int) | AsGiven(raw: Option<Value>)

  /** `nodes.find((n) => n.id === id)`: the first node whose `id` is that string. */
  function FindNode(nodes: seq<Value>, id: string, from: int): (r: Option<int>)
    requires 0 <= from <= |nodes|
    ensures r.Some? ==> from <= r.value < |nodes| && Get(nodes[r.value], "id") == Some(Str(id))
                        && forall k :: from <= k < r.value ==> Get(nodes[k], "id") != Some(Str(id))
    ensures r.None? ==> forall k :: from <= k < |nodes| ==> Get(nodes[k], "id") != Some(Str(id))
    decreases |nodes| - from
  {
    if from == |nodes| then None
    else if Get(nodes[from], "id") == Some(Str(id)) then Some(from)
    else FindNode(nodes, id, from + 1)
  }

  /** A string endpoint becomes the node with that id when there is one; any other endpoint stays as it is. */
  function Resolve(nodes: seq<Value>, e: Option<Value>): (r: Endpoint)
    ensures r.NodeAt? <==> e.Some? && e.value.Str? && exists k :: 0 <= k < |nodes| && Get(nodes[k], "id") == Some(e.value)
    ensures r.NodeAt? ==> 0 <= r.index < |nodes| && Get(nodes[r.index], "id") == e
                          && forall k :: 0 <= k < r.index ==> Get(nodes[k], "id") != e
    ensures r.AsGiven? ==> r.raw == e
  {
    if e.Some? && e.value.Str? then
      var found := FindNode(nodes, e.value.s, 0);
      if found.Some? then NodeAt(found.value) else AsGiven(e)
    else AsGiven(e)
  }

  /**
   * Whether resolving endpoint `e` throws. Only a string endpoint is looked
   * up; `nodes.find` fails when `nodes` is not an array, and otherwise reads
   * `n.id` of every node up to the first match, which fails on a `null` node.
   */
  predicate EndThrows(nodes: Value, e: Option<Value>)
  {
    e.Some? && e.value.Str? &&
    (!nodes.Arr? ||
     var stop := FindNode(nodes.items, e.value.s, 0);
     exists k :: 0 <= k < (if stop.Some? then stop.value else |nodes.items|) && nodes.items[k].Null?)
  }

  /** Whether the `map` callback throws on `link`: reading `link.source` of `null`, or looking up either endpoint. */
  predicate EdgeThrows(nodes: Value, link: Value)
  {
    link.Null? || EndThrows(nodes, Get(link, "source")) || EndThrows(nodes, Get(link, "target"))
  }

  /** The new edge the callback returns for `link`, both endpoints resolved. */
  function ResolvedEdge(nodes: Value, link: Value): (Endpoint, Endpoint)
  {
    var list := if nodes.Arr? then nodes.items else [];
    (Resolve(list, Get(link, "source")), Resolve(list, Get(link, "target")))
  }

  /** `edges.map(...)` over `edges[from..]`: the resolved edges, or `None` once the callback throws. */
  function MapEdges(nodes: Value, edges: seq<Value>, from: int): (r: Option<seq<(Endpoint, Endpoint)>>)
    requires 0 <= from <= |edges|
    ensures r.None? <==> exists i :: from <= i < |edges| && EdgeThrows(nodes, edges[i])
    ensures r.Some? ==> |r.value| == |edges| - from
                        && forall i :: from <= i < |edges| ==> r.value[i - from] == ResolvedEdge(nodes, edges[i])
    decreases |edges| - from
  {
    if from == |edges| then Some([])
    else if EdgeThrows(nodes, edges[from]) then None
    else
      var rest := MapEdges(nodes, edges, from + 1);
      if rest.None? then None else Some([ResolvedEdge(nodes, edges[from])] + rest.value)
  }

  /**
   * The edges of a graph payload after endpoint resolution: `None` exactly
   * when the edge list is not an array or the callback throws on one of its
   * edges, and otherwise one resolved pair per edge, in order.
   */
  function ResolveEdges(data: Value): (r: Option<seq<(Endpoint, Endpoint)>>)
    ensures var nodes, edges := OrElse(Get(data, "nodes"), Arr([])), OrElse(Get(data, "edges"), Arr([]));
            (r.None? <==> !edges.Arr? || exists i :: 0 <= i < |edges.items| && EdgeThrows(nodes, edges.items[i]))
            && (r.Some? ==> |r.value| == |edges.items|
                            && forall i :: 0 <= i < |edges.items| ==> r.value[i] == ResolvedEdge(nodes, edges.items[i]))
  {
    var nodes := OrElse(Get(data, "nodes"), Arr([]));
    var edges := OrElse(Get(data, "edges"), Arr([]));
    if !edges.Arr? then None else MapEdges(nodes, edges.items, 0)
  }

  /** A `null` node ahead of the match makes the lookup throw: `nodes: [null]` with an edge from "a" to "a". */
  lemma NullNodeThrows()
    ensures var link := Obj([("source", Str("a")), ("target", Str("a"))]);
            ResolveEdges(Obj([("nodes", Arr([Null])), ("edges", Arr([link]))])) == None
  {
    var link := Obj([("source", Str("a")), ("target", Str("a"))]);
    var data := Obj([("nodes", Arr([Null])), ("edges", Arr([link]))]);
    assert Get(link, "source") == Some(Str("a"));
    assert OrElse(Get(data, "nodes"), Arr([])) == Arr([Null]);
    assert OrElse(Get(data, "edges"), Arr([])) == Arr([link]);
    assert FindNode([Null], "a", 0) == None;
    assert EndThrows(Arr([Null]), Get(link, "source"));
  }

  /** A `null` node after the match is never read: the edge from "a" resolves to node 0. */
  lemma NullNodeAfterMatch()
    ensures var node, link := Obj([("id", Str("a"))]), Obj([("source", Str("a"))]);
            ResolveEdges(Obj([("nodes", Arr([node, Null])), ("edges", Arr([link]))]))
              == Some([(NodeAt(0), AsGiven(None))])
  {
    var node, link := Obj([("id", Str("a"))]), Obj([("source", Str("a"))]);
    var data := Obj([("nodes", Arr([node, Null])), ("edges", Arr([link]))]);
    assert Get(node, "id") == Some(Str("a"));
    assert Get(link, "source") == Some(Str("a")) && Get(link, "target") == None;
    assert OrElse(Get(data, "nodes"), Arr([])) == Arr([node, Null]);
    assert OrElse(Get(data, "edges"), Arr([])) == Arr([link]);
    assert FindNode([node, Null], "a", 0) == Some(0);
    assert !EdgeThrows(Arr([node, Null]), link);
    assert ResolvedEdge(Arr([node, Null]), link) == (NodeAt(0), AsGiven(None));
    var r := ResolveEdges(data);
    assert forall i :: 0 <= i < 1 ==> !EdgeThrows(Arr([node, Null]), Arr([link]).items[i]);
    assert r.Some? && |r.value| == 1 && r.value[0] == (NodeAt(0), AsGiven(None));
    assert r.value == [(NodeAt(0), AsGiven(None))];
  }
}
