# CodeQuest101 in Dafny

CodeQuest101 teaches algorithms and data structures. It has two parts:

- a chat backend. It forwards a learner's question to a language model, and it attaches a ready-made visualization payload when the question asks to see bubble sort or a binary tree;
- a set of browser visualizers. Each one runs an algorithm step by step and colours what it draws from the current step.

This project models the logic behind both parts and proves what that logic promises. The drawing, the timers and the network calls are not modelled.

Each source file has one Dafny module:

| module | file | source |
|---|---|---|
| `ChatEndpoint` | `chat_endpoint.dfy` | the `/chat` endpoint: strip and reject, keyword routing, fallback text, error mapping, the response envelope |
| `TreeTypes`, `TreeOperations` | `tree_types.dfy`, `tree_operations.dfy` | the binary tree node; insert in its three modes, delete, search, minimum, height, balance and rotations |
| `TreeVisualizer`, `BinaryTreeTraversal` | `tree_visualizer.dfy`, `binary_tree_traversal.dfy` | the traversals and their step cursors, as classes |
| `HashMapLogic` | `hash_map.dfy` | the chained hash table, as a class over an array of buckets |
| `GraphTypes`, `GraphAdjacency`, `GraphSearch`, `GraphDijkstra`, `GraphController` | `graph_*.dfy` | graph types and sample graphs; adjacency lists; the BFS, DFS and Dijkstra step generators; path reconstruction; the play/pause/step controller |
| `ExplanationPanel`, `GraphVisualization`, `AlgorithmControls` | `explanation_panel.dfy`, `graph_visualization.dfy`, `algorithm_controls.dfy` | pseudo-code line selection and set formatting; node and edge colours; the speed slider |
| `HeapVisualization`, `Sorting`, `BinarySearch` | `heap_visualization.dfy`, `sorting.dfy`, `binary_search.dfy` | in-place heap insertion and build with the animation state machine; four in-place sorts; the binary search loop |
| `Spiral`, `RotateImage`, `Floyd`, `LongestSubarray`, `StackQueue` | `spiral.dfy`, `rotate_image.dfy`, `floyd.dfy`, `longest_subarray.dfy`, `stack_queue.dfy` | the matrix walks, the linked-list pointer races, the sliding window, the stack and the queue |
| `AlgorithmVisualizer`, `NeuralNetwork` | `algorithm_visualizer.dfy`, `neural_network.dfy` | reading a chat visualization payload; building a network's layer sizes |
| `Wrappers`, `Json`, `Numbers`, `Text`, `Sequences` | `wrappers.dfy`, `json.dfy`, `numbers.dfy`, `text.dfy`, `sequences.dfy` | shared helpers: `Option`, JSON values, JavaScript's `Number` and `parseInt`, string order and `split`/`join`, sequence splicing |

The model keeps the form of each source file:

- React components whose state changes step by step are classes. Their methods have `modifies` clauses naming what they may change, and `ensures` clauses that tie the new state to the old one.
- Algorithms that loop are methods with loop invariants, proved against specification functions.
- Code built from expressions and recursion is modelled as functions and lemmas.
- A component whose handlers only build fresh values (the stack and queue) is modelled on values.

A JavaScript `Map` iterates in insertion order, so the Dijkstra open set is kept as an ordered list. Its keys, seen as a set, are the open nodes.

## Model

| member | source | states |
|---|---|---|
| ChatEndpoint.TrimStart | backend/main.py:85 | the result is a suffix of the input, every character dropped is whitespace, and the result does not start with whitespace |
| ChatEndpoint.TrimEnd | backend/main.py:85 | the result is a prefix of the input, every character dropped is whitespace, and the result does not end with whitespace |
| ChatEndpoint.Strip | backend/main.py:85 | the stripped input is no longer than the input and does not end with whitespace |
| ChatEndpoint.StripSpec | backend/main.py:85-86 | the stripped input occurs inside the input, has no whitespace at either end, and is empty exactly when the input is all whitespace |
| ChatEndpoint.Lower | backend/main.py:93-97 | lowering keeps the length and maps each letter on its own |
| ChatEndpoint.TriggerInContext | backend/main.py:93 | words put before or after a request never take its visualization intent away |
| ChatEndpoint.BubbleSortData | backend/main.py:49-65 | the sorting payload's `visualizationType` is "sorting", the name of the sorting renderer, and the payload is truthy |
| ChatEndpoint.BinaryTreeData | backend/main.py:67-80 | the tree payload's `visualizationType` is "tree", the name of the tree renderer, and the payload is truthy |
| ChatEndpoint.Chat | backend/main.py:84-126 | an empty stripped input is a 400 and the model is not asked; otherwise the model gets exactly the stripped input; a model failure is a 500 whatever payload was chosen; an empty reply is replaced by the fallback text; a payload is attached exactly when a trigger word and a subject occur, bubble sort winning over binary tree; the response type is "visualization" exactly when a payload is attached |
| TreeTypes.SearchTreeIsOrdered | src/components/trees/treeTypes.ts:2-6 | a tree with distinct keys in search order is ordered in the weaker sense insertion keeps |
| TreeTypes.OrdersListEveryNode | src/components/trees/treeTypes.ts:2-6 | in-order, pre-order and post-order each list every node's value exactly once, so each has one entry per node |
| TreeTypes.InOrderValues | src/components/trees/treeTypes.ts:2-6 | the in-order sequence holds exactly the tree's values and has one entry per node |
| TreeTypes.PreOrderValues | src/components/trees/treeTypes.ts:2-6 | the pre-order sequence holds exactly the tree's values and has one entry per node |
| TreeTypes.PostOrderValues | src/components/trees/treeTypes.ts:2-6 | the post-order sequence holds exactly the tree's values and has one entry per node |
| TreeTypes.KeysOfValues | src/components/trees/treeTypes.ts:2-6 | the key set is the set of the values, and there is one value per node |
| TreeTypes.InOrderKeys | src/components/trees/treeTypes.ts:2-6 | every entry of the in-order sequence is a key of the tree |
| TreeTypes.SearchTreeInOrderSorted | src/components/trees/treeTypes.ts:2-6 | in a search tree the in-order sequence is strictly increasing |
| TreeTypes.Height | src/components/trees/treeOperations.ts:160-163 | the height is 0 exactly for the empty tree |
| TreeOperations.BalanceFactor | src/components/trees/treeOperations.ts:165-168 | the balance of an empty tree is 0, and the heights of a node's two sides differ by less than the node's height |
| TreeOperations.HeightBounds | src/components/trees/treeOperations.ts:160-163 | the height is at most the node count, and it is 0 exactly for the empty tree |
| TreeOperations.RotateRight | src/components/trees/treeOperations.ts:170-178 | the left child becomes the root with the old root as its right child, and the in-order sequence and keys are unchanged |
| TreeOperations.RotateLeft | src/components/trees/treeOperations.ts:180-188 | the right child becomes the root with the old root as its left child, and the in-order sequence and keys are unchanged |
| TreeOperations.RotateRightKeepsSearchTree | src/components/trees/treeOperations.ts:170-178 | a right rotation of a search tree is a search tree |
| TreeOperations.RotateLeftKeepsSearchTree | src/components/trees/treeOperations.ts:180-188 | a left rotation of a search tree is a search tree |
| TreeOperations.HeavySideExists | src/components/trees/treeOperations.ts:165-168 | a positive balance factor means there is a left child and a negative one a right child, so the rotations' non-null assertions hold |
| TreeOperations.LeftAfterPreRotation | src/components/trees/treeOperations.ts:197-202 | the left child after the optional Left-Right pre-rotation is a node with the same in-order sequence and keys |
| TreeOperations.RightAfterPreRotation | src/components/trees/treeOperations.ts:209-214 | the right child after the optional Right-Left pre-rotation is a node with the same in-order sequence and keys |
| TreeOperations.Balance | src/components/trees/treeOperations.ts:190-222 | a node whose balance factor lies in [-1, 1] comes back unchanged; every result is a node with the same in-order sequence and keys |
| TreeOperations.BalanceKeepsSearchTree | src/components/trees/treeOperations.ts:190-222 | balancing a search tree gives a search tree |
| TreeOperations.BalancedInPlace | src/components/trees/treeOperations.ts:170-188 | the node object passed to `balance` keeps its value and afterwards is the right child (left-heavy case) or left child (right-heavy case) of the returned root, or the returned root itself when balanced |
| TreeOperations.InsertedAddsOneNode | src/components/trees/treeOperations.ts:13-43 | insertion adds exactly one node holding the value, and an empty tree becomes a leaf |
| TreeOperations.Inserted | src/components/trees/treeOperations.ts:13-43 | outside "avl" mode insertion always returns a node |
| TreeOperations.InsertedHeight | src/components/trees/treeOperations.ts:13-43 | the new leaf hangs below an existing node, so insertion grows the height by at most one and never lowers it |
| TreeOperations.InsertedSize | src/components/trees/treeOperations.ts:18-43 | insertion adds one to the node count |
| TreeOperations.InsertedKeys | src/components/trees/treeOperations.ts:18-43 | the key set gains exactly the inserted value |
| TreeOperations.InsertedKeepsOrder | src/components/trees/treeOperations.ts:23-26 | outside "binary" mode an insert keeps the search order, with equal keys going right |
| TreeOperations.InsertedSearchTree | src/components/trees/treeOperations.ts:18-43 | a new key inserted in "bst" mode into a search tree leaves a search tree on whose search path the key lies |
| TreeOperations.PlugAppend | src/components/trees/treeOperations.ts:19-22 | plugging a subtree under a path extended by one frame is plugging the rebuilt frame under the shorter path |
| TreeOperations.AvlDescend | src/components/trees/treeOperations.ts:45-50 | as written, what the "avl" branch leaves behind a node object of the path is always a node |
| TreeOperations.AvlStep | src/components/trees/treeOperations.ts:45-50 | the node after the insert below it finished, before it is balanced itself, is a node |
| TreeOperations.AvlInsertAsWrittenLosesKeys | src/components/trees/treeOperations.ts:45-50 | inserting 25 in "avl" mode as written into the search tree 10, 5, 15, 20 build loses 20 and 25: the in-order sequence becomes [5, 10, 15] |
| TreeOperations.AvlInsertAsWritten | src/components/trees/treeOperations.ts:45-50 | as written, "avl" mode returns only the balanced root: the result holds exactly the keys of the root after the descent below it, with no balanced subtree linked back |
| TreeOperations.FourKeysSearchTree | src/components/trees/treeOperations.ts:13-43 | the tree that 10, 5, 15, 20 build is a search tree |
| TreeOperations.ThreeKeysInOrder | src/components/trees/treeOperations.ts:45-50 | the tree left by the faulty fifth insert lists only 5, 10, 15 |
| TreeOperations.AsWrittenFirstFour | src/components/trees/treeOperations.ts:5-53 | inserting 10, 5, 15, 20 in "avl" mode as written builds the expected search tree |
| TreeOperations.AsWrittenFifth | src/components/trees/treeOperations.ts:45-50 | the fifth insert rotates at 15 and the rotated subtree is not linked back under 10 |
| TreeOperations.AvlInsert | src/components/trees/treeOperations.ts:45-50 | the corrected "avl" insert, with each balanced subtree linked back into its parent, returns a node |
| TreeOperations.AvlInsertSpec | src/components/trees/treeOperations.ts:45-50 | the corrected "avl" insert of a new key adds exactly that key, lists the same in-order sequence as the plain insert, and keeps a search tree |
| TreeOperations.AvlBalancedLeft | src/components/trees/treeOperations.ts:190-222 | balancing a node after a smaller key went into its left subtree adds exactly that key and keeps a search tree |
| TreeOperations.AvlBalancedRight | src/components/trees/treeOperations.ts:190-222 | balancing a node after a larger key went into its right subtree adds exactly that key and keeps a search tree |
| TreeOperations.InsertNode | src/components/trees/treeOperations.ts:5-53 | an empty tree becomes a leaf; in "binary" and "bst" mode the walk-and-attach loop gives the recursive insert; in "avl" mode the climb that balances every node of the path gives the corrected AVL insert |
| TreeOperations.DescendStep | src/components/trees/treeOperations.ts:21-42 | one step of the walk moves one node of the tree onto the path and leaves both the plugged tree and the eventual insert result unchanged |
| TreeOperations.AvlPlugAppend | src/components/trees/treeOperations.ts:45-48 | balancing up a path extended by one frame balances the rebuilt frame first |
| TreeOperations.AvlPlugPrefix | src/components/trees/treeOperations.ts:45-48 | each iteration of the climb shortens the path by one frame, balancing it |
| TreeOperations.SearchPathFindsKeys | src/components/trees/treeOperations.ts:117-140 | on an ordered tree the search path meets a value exactly when it is a key of the tree |
| TreeOperations.SearchNode | src/components/trees/treeOperations.ts:117-140 | the search loop reports found exactly when the value lies on the search path |
| TreeOperations.Leftmost | src/components/trees/treeOperations.ts:142-158 | the node reached by following left children has no left child |
| TreeOperations.LeftmostIsLeast | src/components/trees/treeOperations.ts:142-158 | in an ordered tree the leftmost node holds the least key |
| TreeOperations.FindMin | src/components/trees/treeOperations.ts:142-158 | the loop stops at the leftmost node |
| TreeOperations.DeleteNode | src/components/trees/treeOperations.ts:55-115 | deleting from an empty tree gives an empty tree, and no key is ever added |
| TreeOperations.LeftmostInKeys | src/components/trees/treeOperations.ts:142-158 | the leftmost node's value is a key of the tree |
| TreeOperations.DeleteNodeSpec | src/components/trees/treeOperations.ts:55-115 | on a search tree deletion removes exactly the given key and leaves a search tree, in every mode |
| TreeOperations.DeletedLeft | src/components/trees/treeOperations.ts:67-75 | deleting a smaller key in the left subtree removes exactly it and keeps a search tree after the optional balance |
| TreeOperations.DeletedRight | src/components/trees/treeOperations.ts:76-86 | deleting a larger key in the right subtree removes exactly it and keeps a search tree after the optional balance |
| TreeOperations.DeletedSuccessor | src/components/trees/treeOperations.ts:100-111 | replacing a two-child node's value by the least key of its right subtree and deleting that key there removes exactly the node's key |
| TreeOperations.RebalancedSpec | src/components/trees/treeOperations.ts:114 | the final optional balance keeps the keys and the search order |
| TreeOperations.TwoChildrenTakeSuccessor | src/components/trees/treeOperations.ts:100-104 | a node with two children takes its in-order successor: the least key above it |
| TreeVisualizer.Traverse | src/components/TreeVisualizer.tsx:107-130 | the accumulator stays at the front of the result, and one value is pushed per node |
| TreeVisualizer.TraverseSpec | src/components/TreeVisualizer.tsx:107-130 | the accumulating traversal appends to the steps given exactly the chosen order of the tree |
| TreeVisualizer.TraversePre | src/components/TreeVisualizer.tsx:114-117 | the pre-order branch appends the pre-order sequence |
| TreeVisualizer.TraverseIn | src/components/TreeVisualizer.tsx:118-121 | the in-order branch appends the in-order sequence |
| TreeVisualizer.TraversePost | src/components/TreeVisualizer.tsx:122-126 | the post-order branch appends the post-order sequence |
| TreeVisualizer.TraversalShape | src/components/TreeVisualizer.tsx:107-130 | a traversal from empty steps visits every node once, pre-order starting at the root and post-order ending at it |
| TreeVisualizer.InitialTreeIsSearchTree | src/components/TreeVisualizer.tsx:34-38 | the initial tree is a search tree whose in-order traversal is 20, 30, ..., 80 |
| TreeVisualizer.TreeVisualizerState.constructor | src/components/TreeVisualizer.tsx:23-30 | the first state once the reset effect has run: "binary" mode, the initial tree, no highlight, in-order, no steps, step -1, not traversing |
| TreeVisualizer.TreeVisualizerState.ResetTree | src/components/TreeVisualizer.tsx:32-51 | the tree goes back to the initial tree and the traversal is cleared, the modes untouched |
| TreeVisualizer.TreeVisualizerState.SetTreeType | src/components/TreeVisualizer.tsx:53-55 | choosing a tree type sets it and resets the tree through the effect |
| TreeVisualizer.TreeVisualizerState.HandleOperation | src/components/TreeVisualizer.tsx:57-104 | insert replaces the tree by the insert for the current mode and highlights the value, and in "avl" mode this is the corrected insert `TreeOperations.AvlInsert`, not the key-losing one the source calls (see Findings); delete replaces it by the deletion and clears the highlight; search keeps the tree and highlights the value exactly when it lies on the search path |
| TreeVisualizer.TreeVisualizerState.ClearHighlight | src/components/TreeVisualizer.tsx:98-101 | when the timeout that insert and search start fires, the highlight goes and nothing else changes |
| TreeVisualizer.TreeVisualizerState.StartTraversal | src/components/TreeVisualizer.tsx:132-139 | the steps become the chosen order of the tree, step 0, traversing, the first step highlighted when there is one |
| TreeVisualizer.TreeVisualizerState.StepForward | src/components/TreeVisualizer.tsx:141-152 | a next step that exists becomes current and is highlighted; otherwise traversing stops and the highlight goes |
| TreeVisualizer.TreeVisualizerState.PauseTraversal | src/components/TreeVisualizer.tsx:154-157 | traversing stops |
| TreeVisualizer.TreeVisualizerState.ResetTraversal | src/components/TreeVisualizer.tsx:159-165 | step -1, not traversing, no highlight, no steps |
| TreeVisualizer.TreeVisualizerState.SetTraversalType | src/components/TreeVisualizer.tsx:277-280 | the new order is set and the traversal reset |
| TreeVisualizer.TreeVisualizerState.Tick | src/components/TreeVisualizer.tsx:141-173 | while traversing with steps left, a tick does what StepForward does: a next step that exists becomes current and is highlighted, and at the last step traversing stops and the highlight goes; otherwise nothing changes |
| BinaryTreeTraversal.SampleInOrder | src/components/BinaryTreeTraversalVisualizer.tsx:30-67 | the sample tree's in-order traversal is 4, 2, 5, 1, 6, 3, 7 |
| BinaryTreeTraversal.SamplePreOrder | src/components/BinaryTreeTraversalVisualizer.tsx:30-67 | the sample tree's pre-order traversal is 1, 2, 4, 5, 3, 6, 7 |
| BinaryTreeTraversal.SamplePostOrder | src/components/BinaryTreeTraversalVisualizer.tsx:30-67 | the sample tree's post-order traversal is 4, 5, 2, 6, 7, 3, 1 |
| BinaryTreeTraversal.TraversalPlayer.constructor | src/components/BinaryTreeTraversalVisualizer.tsx:25-27 | in-order, no steps, step 0 |
| BinaryTreeTraversal.TraversalPlayer.SetTraversalType | src/components/BinaryTreeTraversalVisualizer.tsx:157 | only the order changes; the steps stay |
| BinaryTreeTraversal.TraversalPlayer.StartTraversal | src/components/BinaryTreeTraversalVisualizer.tsx:69-73 | the steps become the chosen order of the sample tree, step 0 |
| BinaryTreeTraversal.TraversalPlayer.NextStep | src/components/BinaryTreeTraversalVisualizer.tsx:75-79 | the step advances only while it is before the last one, so it never passes the last step |
| BinaryTreeTraversal.TraversalPlayer.ResetTraversal | src/components/BinaryTreeTraversalVisualizer.tsx:81-83 | the step goes back to 0 |
| HashMapLogic.Hash | src/components/hashMaps/hashMapLogic.ts:12-20 | a string key's bucket is its code-unit sum modulo the capacity, always a valid bucket index |
| HashMapLogic.CodeSumAppend | src/components/hashMaps/hashMapLogic.ts:14-15 | the code-unit sum of a concatenation is the sum of the parts' sums |
| HashMapLogic.SwappedKeysShareBucket | src/components/hashMaps/hashMapLogic.ts:12-20 | swapping the two halves of a key does not change its bucket, so anagram-like keys collide |
| HashMapLogic.FindIndex | src/components/hashMaps/hashMapLogic.ts:49 | the first pair with the key, or -1 when no pair has it |
| HashMapLogic.UpdateBucketMembers | src/components/hashMaps/hashMapLogic.ts:25-32 | after replace-or-push the bucket holds the new pair and every other pair of the old bucket, and its keys stay distinct |
| HashMapLogic.UpdateBucket | src/components/hashMaps/hashMapLogic.ts:25-32 | the bucket holds the new pair afterwards, and it grows by one exactly when the key was missing |
| HashMapLogic.RemoveFromBucketMembers | src/components/hashMaps/hashMapLogic.ts:49-55 | after the splice the bucket holds exactly the old pairs with other keys, and its keys stay distinct |
| HashMapLogic.RemoveFromBucket | src/components/hashMaps/hashMapLogic.ts:49-55 | the splice takes out at most one pair and adds none |
| HashMapLogic.UpdateBucketMap | src/components/hashMaps/hashMapLogic.ts:25-32 | replace-or-push maps the key to the new value and leaves every other key of the bucket alone |
| HashMapLogic.RemoveFromBucketMap | src/components/hashMaps/hashMapLogic.ts:49-55 | the splice removes exactly the key from the bucket's mapping |
| HashMapLogic.FindMatchesContents | src/components/hashMaps/hashMapLogic.ts:39-44 | in a well-formed table the key's bucket has the key exactly when the map does, with the same value |
| HashMapLogic.PutKeepsTable | src/components/hashMaps/hashMapLogic.ts:22-32 | replacing or pushing in the key's bucket maps the key to the value, keeps the table well formed and counts a new key once |
| HashMapLogic.DeleteKeepsTable | src/components/hashMaps/hashMapLogic.ts:46-58 | splicing the key out of its bucket removes it from the map, keeps the table well formed and the size right |
| HashMapLogic.KeyCount | src/components/hashMaps/hashMapLogic.ts:2-4 | in a table whose buckets hold distinct, correctly hashed keys, the number of keys is the number of stored pairs |
| HashMapLogic.SizeCountsKeys | src/components/hashMaps/hashMapLogic.ts:3 | `size` is always the number of keys in the map |
| HashMapLogic.HashMap.constructor | src/components/hashMaps/hashMapLogic.ts:6-10 | `capacity` empty buckets, size 0, an empty map |
| HashMapLogic.HashMap.Get | src/components/hashMaps/hashMapLogic.ts:39-44 | the stored value for the key, or none when the key is absent |
| HashMapLogic.HashMap.Put | src/components/hashMaps/hashMapLogic.ts:22-32 | the map gains the key with the value, the size grows only for a new key, and only the key's bucket changes |
| HashMapLogic.HashMap.Set | src/components/hashMaps/hashMapLogic.ts:22-37 | the map gains the key with the value, the size grows only for a new key, and the capacity doubles exactly when the load factor passes 3/4 |
| HashMapLogic.HashMap.Resize | src/components/hashMaps/hashMapLogic.ts:60-71 | the capacity doubles while the map and its size stay the same, and the load factor is back under 3/4 |
| HashMapLogic.HashMap.ReinsertBucket | src/components/hashMaps/hashMapLogic.ts:67-69 | setting each pair of one old bucket adds exactly that bucket's mapping and its pair count |
| HashMapLogic.HashMap.Delete | src/components/hashMaps/hashMapLogic.ts:46-58 | reports whether the key was present, removes it, lowers the size only then, and only the key's bucket changes |
| GraphTypes.SampleGraphsShareEdges | src/components/Graphs/Types.ts:51-78 | the two sample graphs have the same seven nodes and nine edges and differ only in direction; the initial graph is the undirected one |
| GraphTypes.SampleEdgesWellFormed | src/components/Graphs/Types.ts:51-75 | every sample edge joins two listed nodes and has a positive weight |
| GraphAdjacency.NeighborsOf | src/components/GraphTraversalVisualizer.tsx:264 | a node with no list has no neighbours, and a non-empty answer is the node's own list |
| GraphAdjacency.IncidencesSnoc | src/components/GraphTraversalVisualizer.tsx:71-81 | the lists after one more edge are the lists before it plus that edge's contribution |
| GraphAdjacency.IncidencesMembers | src/components/GraphTraversalVisualizer.tsx:71-81 | a neighbour entry is in a node's unsorted list exactly when some edge between two listed nodes leaves the node for it, or, undirected and not a self-loop, enters the node from it |
| GraphAdjacency.InsertByNeighbor | src/components/GraphTraversalVisualizer.tsx:83 | inserting adds one entry and the new head is either the entry or the old head |
| GraphAdjacency.InsertByNeighborSpec | src/components/GraphTraversalVisualizer.tsx:83 | inserting into a list sorted by neighbour id keeps it sorted and adds exactly the entry |
| GraphAdjacency.SortByNeighborSpec | src/components/GraphTraversalVisualizer.tsx:83 | the sort orders a list by neighbour id and is a permutation of it |
| GraphAdjacency.BuildAdjacency | src/components/GraphTraversalVisualizer.tsx:68-85 | the `adj` memo: one list per node, each the sorted incidences of that node |
| GraphAdjacency.EmptyLists | src/components/GraphTraversalVisualizer.tsx:70 | one empty list per node of the graph |
| GraphAdjacency.PushStep | src/components/GraphTraversalVisualizer.tsx:73-77 | pushing one edge turns the lists for the first `j` edges into those for `j + 1` |
| GraphAdjacency.PushEdges | src/components/GraphTraversalVisualizer.tsx:71-81 | after the edge loop each node's list holds its incidences in edge order, and no key is added |
| GraphAdjacency.SortLists | src/components/GraphTraversalVisualizer.tsx:83 | each list is replaced by its sorted version, the keys kept |
| GraphAdjacency.AdjacencyEntries | src/components/GraphTraversalVisualizer.tsx:68-85 | each list is sorted by neighbour id and holds exactly the entries the graph's edges between listed nodes give |
| GraphAdjacency.AdjacencySymmetric | src/components/GraphTraversalVisualizer.tsx:73-77 | every neighbour is itself a node, and in an undirected graph the reverse entry is in the neighbour's list |
| GraphSearch.ActionNodesSnoc | src/components/Graphs/Types.ts:38-47 | recording one more step extends the nodes of an action by that step's node when it has that action |
| GraphSearch.ReachableStart | src/components/GraphTraversalVisualizer.tsx:249-315 | the start reaches itself |
| GraphSearch.ReachableStep | src/components/GraphTraversalVisualizer.tsx:249-315 | a neighbour of a reachable node is reachable |
| GraphSearch.ClosedIsReachable | src/components/GraphTraversalVisualizer.tsx:249-315 | a set of reachable nodes that holds the start and is closed under neighbours is exactly the reachable set |
| GraphSearch.EnqueueUnvisited | src/components/GraphTraversalVisualizer.tsx:264-272 | the neighbour loop marks every neighbour visited, appends the unvisited ones to the queue without repeats, and reports whether it appended any |
| GraphSearch.BfsAdvance | src/components/GraphTraversalVisualizer.tsx:260-276 | one dequeue-and-enqueue keeps the queue discipline: the processed prefix, no repeats, everything queued reachable, processed nodes' neighbours queued |
| GraphSearch.BfsDone | src/components/GraphTraversalVisualizer.tsx:260-277 | once the head reaches the end of the queue, the visited set and the queue are exactly the reachable nodes |
| GraphSearch.BfsVisit | src/components/GraphTraversalVisualizer.tsx:261-275 | one iteration records the dequeued node, keeps the invariant, moves the head on by one and only appends steps |
| GraphSearch.BfsSteps | src/components/GraphTraversalVisualizer.tsx:249-279 | the steps start with INITIAL at the start node and end with FINISHED and an empty queue; the final visited set is exactly the reachable nodes, and every reachable node is dequeued exactly once |
| GraphSearch.Reversed | src/components/GraphTraversalVisualizer.tsx:298 | the reversed neighbour list |
| GraphSearch.PushAll | src/components/GraphTraversalVisualizer.tsx:300-305 | every neighbour is pushed in order, visited or not, and the flag says whether any was |
| GraphSearch.DfsAfterRepop | src/components/GraphTraversalVisualizer.tsx:309-311 | popping an already visited node keeps the stack invariant |
| GraphSearch.DfsAfterVisit | src/components/GraphTraversalVisualizer.tsx:294-308 | visiting a popped node and pushing its reversed neighbours keeps the stack invariant |
| GraphSearch.DfsBegin | src/components/GraphTraversalVisualizer.tsx:287-288 | the stack holding only the start satisfies the invariant and the INITIAL step is an honest record |
| GraphSearch.DfsEnd | src/components/GraphTraversalVisualizer.tsx:313 | with the stack empty the visited set is exactly the reachable set, and the FINISHED step keeps the record honest |
| GraphSearch.DfsMark | src/components/GraphTraversalVisualizer.tsx:294-308 | visiting a new node keeps the invariant and the record and shrinks the unvisited part of the reachable set |
| GraphSearch.DfsVisit | src/components/GraphTraversalVisualizer.tsx:291-311 | one iteration keeps the invariant and the record and either shrinks the stack or visits a new node |
| GraphSearch.DfsSteps | src/components/GraphTraversalVisualizer.tsx:282-315 | the steps start with INITIAL and end with FINISHED and an empty stack; the final visited set is exactly the reachable nodes; every reachable node gets exactly one VISIT step; ALREADY_VISITED is reported only for visited nodes |
| GraphDijkstra.OpenSetPut | src/components/GraphTraversalVisualizer.tsx:359 | `openSetMap.set`: the key set gains the node |
| GraphDijkstra.OpenSetPutSpec | src/components/GraphTraversalVisualizer.tsx:359 | after `set`, keys stay distinct and the entries are the old ones for other keys plus the new pair |
| GraphDijkstra.OpenSetDelete | src/components/GraphTraversalVisualizer.tsx:340 | `openSetMap.delete`: keys stay distinct, the entries are the old ones for other keys, and the key set loses the node |
| GraphDijkstra.FindMin | src/components/GraphTraversalVisualizer.tsx:333-338 | the scan finds nothing exactly on an empty map, and otherwise the first entry of least distance |
| GraphDijkstra.ReconstructPath | src/components/GraphTraversalVisualizer.tsx:230-244 | the path ends at `current`, repeats no node, links each node to its recorded predecessor, and stops at a node without one or at a cycle |
| GraphDijkstra.ChainUnique | src/components/GraphTraversalVisualizer.tsx:230-244 | two such chains to the same node are equal, so the reconstructed path is the one chain |
| GraphDijkstra.ChainSuffix | src/components/GraphTraversalVisualizer.tsx:230-244 | two chains to the same node agree from the end backwards |
| GraphDijkstra.DijRecordSnoc | src/components/GraphTraversalVisualizer.tsx:329-372 | appending a snapshot that follows the last one keeps the record well formed |
| GraphDijkstra.TrackedAfterPut | src/components/GraphTraversalVisualizer.tsx:357-359 | lowering an unclosed node's distance and opening it keeps the tables matched to the open map |
| GraphDijkstra.CoreAfterPut | src/components/GraphTraversalVisualizer.tsx:353-365 | opening a neighbour of the node being relaxed keeps the search invariant and the exploration frontier |
| GraphDijkstra.RelaxOne | src/components/GraphTraversalVisualizer.tsx:355-362 | an improving edge lowers the neighbour's distance, sets its predecessor, opens it and marks the loop updated |
| GraphDijkstra.RelaxSkip | src/components/GraphTraversalVisualizer.tsx:354-356 | a closed neighbour or a non-improving edge changes nothing |
| GraphDijkstra.RelaxBound | src/components/GraphTraversalVisualizer.tsx:353-365 | after the loop, every unclosed neighbour's distance is at most the relaxed node's plus the edge weight |
| GraphDijkstra.RelaxDone | src/components/GraphTraversalVisualizer.tsx:353-365 | after the loop, every closed node's neighbours are closed or open |
| GraphDijkstra.RelaxNeighbor | src/components/GraphTraversalVisualizer.tsx:354-364 | one neighbour's relaxation keeps the invariants of the search and of the loop |
| GraphDijkstra.Relax | src/components/GraphTraversalVisualizer.tsx:351-365 | the neighbour loop: distances only fall, closed nodes keep theirs, `neighborUpdated` is set exactly when some distance fell, and every unclosed neighbour ends within one edge of the node |
| GraphDijkstra.InitTables | src/components/GraphTraversalVisualizer.tsx:325 | every node at `Infinity` with no predecessor |
| GraphDijkstra.DijBegin | src/components/GraphTraversalVisualizer.tsx:326-327 | the start at distance 0 as the one open node satisfies the search invariant |
| GraphDijkstra.ExtractKeeps | src/components/GraphTraversalVisualizer.tsx:340-341 | closing an open node keeps the invariant and leaves only that node unexplored |
| GraphDijkstra.ExtractMinHonest | src/components/GraphTraversalVisualizer.tsx:335-343 | the EXTRACT_MIN snapshot names a node no farther than any still open |
| GraphDijkstra.Extract | src/components/GraphTraversalVisualizer.tsx:332-343 | takes the least open node, closes it and records EXTRACT_MIN |
| GraphDijkstra.DijkstraTurn | src/components/GraphTraversalVisualizer.tsx:331-370 | one iteration closes one new reachable node; it stops at the goal with GOAL_FOUND, or records EXPLORE_NEIGHBORS when a distance fell |
| GraphDijkstra.DijEnd | src/components/GraphTraversalVisualizer.tsx:331-372 | with the open map empty, the closed set is exactly the nodes reachable from the start |
| GraphDijkstra.DijkstraInit | src/components/GraphTraversalVisualizer.tsx:319-329 | the set-up and its INITIALIZE snapshot |
| GraphDijkstra.GoalOutcome | src/components/GraphTraversalVisualizer.tsx:345-348 | the GOAL_FOUND snapshot closes the goal at a finite distance, the goal is reachable, and its path is the predecessor chain |
| GraphDijkstra.NoPath | src/components/GraphTraversalVisualizer.tsx:372 | NO_PATH comes with the closed set equal to the reachable nodes and the goal unreachable |
| GraphDijkstra.DijkstraSteps | src/components/GraphTraversalVisualizer.tsx:318-375 | the run starts with INITIALIZE and ends with either GOAL_FOUND for a reachable goal along its predecessor chain, or NO_PATH with the goal unreachable; every extraction takes a least open node and no distance ever grows |
| GraphController.StartRejected | src/components/GraphTraversalVisualizer.tsx:452-514 | a missing or unknown start node is rejected with the start error step, which carries no current node and an empty state of the algorithm's kind |
| GraphController.EndRejected | src/components/GraphTraversalVisualizer.tsx:464-497 | for Dijkstra and A*, a missing or unknown end node is rejected with the end error step at the start node and an empty pathfinding state |
| GraphController.SameEndpoints | src/components/GraphTraversalVisualizer.tsx:498-507 | for Dijkstra and A*, a start equal to the end gives only a GOAL_FOUND step: the path is just that node, which is closed at distance 0 |
| GraphController.GenerateExactly | src/components/GraphTraversalVisualizer.tsx:452-532 | the step generator runs exactly when the start is known and, for pathfinding, the end is known and differs from the start, and it runs from the start node |
| GraphController.ApartNeverImmediate | src/components/GraphTraversalVisualizer.tsx:498-507 | distinct endpoints never take the shortcut |
| GraphController.FindOtherSpec | src/components/GraphTraversalVisualizer.tsx:104-155 | `find(n => n !== x)` returns the first node other than `x`, and nothing exactly when every node is `x` |
| GraphController.ToggledEndpoints | src/components/GraphTraversalVisualizer.tsx:147-158 | after switching graphs the start is a node of the new graph, kept when it was one, and present whenever there are nodes; the end is a node other than the start, kept when it qualified |
| GraphController.SwitchedGraphFacts | src/components/GraphTraversalVisualizer.tsx:144-145 | switching flips the direction and gives seven non-empty node names |
| GraphController.Visualizer.constructor | src/components/GraphTraversalVisualizer.tsx:55-63 | the first render: the undirected sample, BFS, no steps, index -1, stopped, 800 ms and no endpoints |
| GraphController.Visualizer.IsFinished | src/components/GraphTraversalVisualizer.tsx:577-580 | finished exactly when there are steps and the index is at the last one |
| GraphController.Visualizer.CurrentStep | src/components/GraphTraversalVisualizer.tsx:581 | the step at the index, and none exactly when there are no steps |
| GraphController.Visualizer.Mount | src/components/GraphTraversalVisualizer.tsx:96-108 | on mount the start is the first sample node and the end the first other node, that is A and B |
| GraphController.Visualizer.Tick | src/components/GraphTraversalVisualizer.tsx:111-126 | the timer advances one step while running, unpaused and not at the end; at the end it stops the run; otherwise nothing changes |
| GraphController.Visualizer.ResetAlgorithm | src/components/GraphTraversalVisualizer.tsx:132-138 | clears the steps and the run and keeps the graph, endpoints, algorithm and speed |
| GraphController.Visualizer.ToggleDirected | src/components/GraphTraversalVisualizer.tsx:141-162 | ignored during an active run; otherwise switches to the other sample graph with its adjacency, re-validates the endpoints and resets the run |
| GraphController.Visualizer.SetStartNode | src/components/GraphTraversalVisualizer.tsx:165-172 | ignored during an active run; otherwise sets the start, clears an end equal to it and resets the run |
| GraphController.Visualizer.SetEndNode | src/components/GraphTraversalVisualizer.tsx:175-180 | ignored during an active run or when the node is the start; otherwise sets the end and resets the run |
| GraphController.Visualizer.PauseResume | src/components/GraphTraversalVisualizer.tsx:183-186 | flips the pause flag only while running |
| GraphController.Visualizer.StepForward | src/components/GraphTraversalVisualizer.tsx:189-195 | while running and before the last step, pauses and moves one step on; otherwise nothing changes |
| GraphController.Visualizer.StepBackward | src/components/GraphTraversalVisualizer.tsx:198-208 | while running and after the first step, pauses and moves one step back; otherwise nothing changes |
| GraphController.Visualizer.SetSpeed | src/components/GraphTraversalVisualizer.tsx:211-213 | the speed is the new value, raised to at least 50 ms |
| GraphController.Visualizer.SetAlgorithmType | src/components/GraphTraversalVisualizer.tsx:604-606 | the algorithm changes and the run resets unless a run is active |
| GraphController.Visualizer.StartAlgorithm | src/components/GraphTraversalVisualizer.tsx:446-573 | a rejected start shows its one error step, stopped; the shortcut shows its GOAL_FOUND step, running and paused; otherwise the generated steps run from index 0, unpaused, and an empty A* result becomes the no-steps error |
| GraphController.Visualizer.Run | src/components/GraphTraversalVisualizer.tsx:527-534 | BFS, DFS and Dijkstra steps are the ones their generators produce; A* steps are passed in |
| GraphVisualization.NodeColor | src/components/Graphs/GraphVisualization.tsx:41-73 | without a step only the start, end and default colours appear; yellow marks only nodes on the step's path |
| GraphVisualization.EndpointColors | src/components/Graphs/GraphVisualization.tsx:44-46 | the start is always green and the end, unless it is also the start, always purple; no other node gets either colour |
| GraphVisualization.NodeColorSpec | src/components/Graphs/GraphVisualization.tsx:41-71 | any other node is gray with no step, then yellow on the path, then red as the current node, then, for pathfinding, orange when closed and blue when open, for traversal orange when visited, and gray otherwise |
| GraphVisualization.PathNodesYellow | src/components/Graphs/GraphVisualization.tsx:52-55 | every node of a found path, other than the endpoints, is yellow |
| GraphVisualization.ClosedBeforeOpen | src/components/Graphs/GraphVisualization.tsx:61-64 | a closed node off the path and not current is orange even if it is also open |
| GraphVisualization.EdgeStyleOf | src/components/Graphs/GraphVisualization.tsx:75-105 | without a step every edge has the default style; the predecessor style marks only an edge into the node being expanded during a pathfinding step |
| GraphVisualization.PathEdges | src/components/Graphs/GraphVisualization.tsx:80-92 | with a path in the step, an edge is thick yellow exactly when it joins consecutive path nodes (either way round when undirected), and default otherwise |
| GraphVisualization.PathEdgesHighlighted | src/components/Graphs/GraphVisualization.tsx:80-92 | every edge of the path is highlighted, in both directions when undirected |
| GraphVisualization.OnPathDirection | src/components/Graphs/GraphVisualization.tsx:83-87 | in an undirected graph the edge test is symmetric; in a directed one it is the forward test only, and a forward match is also an undirected match |
| GraphVisualization.PredecessorEdge | src/components/Graphs/GraphVisualization.tsx:93-110 | without a path, an edge is red exactly when the step is pathfinding and the edge runs from the current node's predecessor to it, and default otherwise |
| GraphVisualization.IdleEdges | src/components/Graphs/GraphVisualization.tsx:75-78 | with no step every edge has the default style |
| ExplanationPanel.PseudoCode | src/components/Graphs/ExplanationPanel.tsx:14-96 | the pseudo-code listing of each algorithm, with its line count |
| ExplanationPanel.ActiveLine | src/components/Graphs/ExplanationPanel.tsx:98-139 | the highlighted line exists in the algorithm's listing |
| ExplanationPanel.ActiveLineIndex | src/components/Graphs/ExplanationPanel.tsx:98-139 | no step highlights no line; otherwise the highlighted line is one of the algorithm's listing |
| ExplanationPanel.UnrecognisedShowsLoop | src/components/Graphs/ExplanationPanel.tsx:105-137 | an action the switch does not know highlights the algorithm's loop head |
| ExplanationPanel.EndShowsLastLine | src/components/Graphs/ExplanationPanel.tsx:105-137 | FINISHED, or NO_PATH for pathfinding, highlights the last line of the listing |
| ExplanationPanel.GeneratedEndsFinished | src/components/Graphs/ExplanationPanel.tsx:190 | every generated BFS, DFS or Dijkstra run ends on a step the panel shows as finished |
| ExplanationPanel.PanelMessage | src/components/Graphs/ExplanationPanel.tsx:176-186 | the message box replaces the panel exactly when there is no step, no steps in total, or an error action; it shows the error action when there is one and the prompt otherwise |
| ExplanationPanel.ErrorStepsShown | src/components/Graphs/ExplanationPanel.tsx:176-179 | every rejection and the no-steps error show their own text |
| ExplanationPanel.FormatSet | src/components/Graphs/ExplanationPanel.tsx:160-166 | the display is always bracketed by `[ ` and `]` |
| ExplanationPanel.FormatSetEmpty | src/components/Graphs/ExplanationPanel.tsx:160-161 | a set formats as `[ ]` exactly when it is missing or empty |
| ExplanationPanel.SortedDistinct | src/components/Graphs/ExplanationPanel.tsx:162 | sorting a set's entries keeps them distinct |
| ExplanationPanel.ShownEntriesLeast | src/components/Graphs/ExplanationPanel.tsx:162 | the shown entries are the least `limit` of the set, strictly ascending |
| ExplanationPanel.EllipsisWhenOverLimit | src/components/Graphs/ExplanationPanel.tsx:163-165 | for dot-free names, the text ends with an ellipsis exactly when the set is larger than the limit |
| AlgorithmControls.CannotStartRejected | src/components/Graphs/AlgorithmControls.tsx:64-65 | when the Start button's test fails, starting is rejected |
| AlgorithmControls.CanStartAccepted | src/components/Graphs/AlgorithmControls.tsx:64-65 | when it passes and the nodes are known, starting is not rejected |
| AlgorithmControls.Clamp | src/components/Graphs/AlgorithmControls.tsx:70 | the speed clamped into 100 to 2000 ms |
| AlgorithmControls.SpeedToSliderValue | src/components/Graphs/AlgorithmControls.tsx:69-72 | the slider position is between 0 and 100 |
| AlgorithmControls.SliderEnds | src/components/Graphs/AlgorithmControls.tsx:69-72 | the slowest speed is position 0 and the fastest position 100 |
| AlgorithmControls.SliderValueToSpeed | src/components/Graphs/AlgorithmControls.tsx:73-76 | every slider position gives a delay from 100 to 2000 ms |
| AlgorithmControls.SpeedRange | src/components/Graphs/AlgorithmControls.tsx:73-76 | every position maps into 100 to 2000 ms, and a higher position is faster |
| AlgorithmControls.SliderRoundTrip | src/components/Graphs/AlgorithmControls.tsx:69-76 | converting a position to a speed and back gives the position |
| AlgorithmControls.SpeedRoundTrip | src/components/Graphs/AlgorithmControls.tsx:69-76 | converting a speed to a position and back lands within 9 ms of the clamped speed |
| AlgorithmControls.SliderMonotone | src/components/Graphs/AlgorithmControls.tsx:69-72 | a slower speed never sits further right |
| HeapVisualization.ParentAncestor | src/components/Datastructures/Heaps/HeapVisualization.tsx:148 | the parent of an ancestor slot is an ancestor too |
| HeapVisualization.SwapUp | src/components/Datastructures/Heaps/HeapVisualization.tsx:220-223 | swapping an out-of-order child with its parent moves the single defect up to the parent |
| HeapVisualization.ExceptClosed | src/components/Datastructures/Heaps/HeapVisualization.tsx:214-219 | when the defect slot is the root or is in order with its parent, the prefix is a heap |
| HeapVisualization.ExtendExcept | src/components/Datastructures/Heaps/HeapVisualization.tsx:210-211 | appending a value to a heap can break order only at the new slot |
| HeapVisualization.Heap.constructor | src/components/Datastructures/Heaps/HeapVisualization.tsx:21-32 | an empty min-heap at rest |
| HeapVisualization.Heap.StartInsertion | src/components/Datastructures/Heaps/HeapVisualization.tsx:128-134 | outside rest nothing changes; at rest the value is held and the insertion animation starts |
| HeapVisualization.Heap.NextAnimationStep | src/components/Datastructures/Heaps/HeapVisualization.tsx:136-188 | each tick keeps the phase invariant (a heap at rest and when done, a heap except at the rising value while comparing and swapping) and brings the animation closer to rest; inserting appends the value, comparing picks swap or done by the heap order, swapping exchanges the value with its parent, and building sifts up one more slot |
| HeapVisualization.Heap.InsertTick | src/components/Datastructures/Heaps/HeapVisualization.tsx:137-145 | the held value is appended and becomes the rising slot |
| HeapVisualization.Heap.CompareTick | src/components/Datastructures/Heaps/HeapVisualization.tsx:146-166 | swap exactly when the rising slot is not the root and is out of order with its parent; otherwise done |
| HeapVisualization.Heap.SwapTick | src/components/Datastructures/Heaps/HeapVisualization.tsx:167-173 | the slot and its parent exchange values and the rising slot moves to the parent |
| HeapVisualization.Heap.BuildTick | src/components/Datastructures/Heaps/HeapVisualization.tsx:178-187 | while slots remain, the next one is sifted up onto the heap prefix; afterwards the whole array is a heap at rest |
| HeapVisualization.Heap.HeapifyUp | src/components/Datastructures/Heaps/HeapVisualization.tsx:227-242 | sifting up slot `index` extends the heap prefix by that slot, permutes the values and changes only the slot's ancestors |
| HeapVisualization.Heap.InsertToHeap | src/components/Datastructures/Heaps/HeapVisualization.tsx:209-225 | inserting without animation adds the value, keeps a heap, and grows the size by one |
| HeapVisualization.Heap.ResetHeap | src/components/Datastructures/Heaps/HeapVisualization.tsx:200-207 | an empty heap at rest, the kind kept |
| HeapVisualization.Heap.ToggleHeapType | src/components/Datastructures/Heaps/HeapVisualization.tsx:190-198 | outside rest nothing changes; at rest the kind flips and the same values are re-inserted into a heap of the new kind |
| HeapVisualization.Heap.BuildHeapFromArray | src/components/Datastructures/Heaps/HeapVisualization.tsx:244-251 | the array is taken as given and the build animation starts at slot 1 |
| Sorting.SortedFromParts | src/components/SortingAlgorithmVisualizer.tsx:61-69 | two sorted parts, every left value at most every right one, make a sorted whole |
| Sorting.SortedUnique | src/components/SortingAlgorithmVisualizer.tsx:58-172 | two sorted permutations of the same values are equal, so all four sorts give the same array |
| Sorting.SwapCells | src/components/SortingAlgorithmVisualizer.tsx:64 | the array is the old one with the two cells exchanged |
| Sorting.BubbleGrows | src/components/SortingAlgorithmVisualizer.tsx:62-68 | a pass that carries the largest value of the unsorted prefix to its end grows the sorted suffix by one |
| Sorting.BubblePass | src/components/SortingAlgorithmVisualizer.tsx:62-68 | one inner pass: the sorted suffix grows by one, nothing beyond the bound moves, and the values are permuted |
| Sorting.BubbleSort | src/components/SortingAlgorithmVisualizer.tsx:58-71 | the array ends sorted and is a permutation of the original |
| Sorting.Partition | src/components/SortingAlgorithmVisualizer.tsx:75-90 | the pivot `arr[high]` lands at the returned index, with smaller values before it and the rest after, only inside the range, permuting the values |
| Sorting.PivotJoin | src/components/SortingAlgorithmVisualizer.tsx:92-98 | sorted sides around a placed pivot make a sorted range |
| Sorting.QuickLeft | src/components/SortingAlgorithmVisualizer.tsx:95 | sorting the left side keeps the pivot and the partition around it |
| Sorting.QuickRight | src/components/SortingAlgorithmVisualizer.tsx:96 | sorting the right side completes a sorted range |
| Sorting.QuickSortRange | src/components/SortingAlgorithmVisualizer.tsx:92-98 | the range ends sorted, nothing outside it moves, and the values are permuted |
| Sorting.QuickSort | src/components/SortingAlgorithmVisualizer.tsx:73-102 | the array ends sorted and is a permutation of the original |
| Sorting.MinIndex | src/components/SortingAlgorithmVisualizer.tsx:108-113 | the first position of the least value of the suffix |
| Sorting.SelectionSort | src/components/SortingAlgorithmVisualizer.tsx:104-121 | the array ends sorted and is a permutation of the original |
| Sorting.MergeSeq | src/components/SortingAlgorithmVisualizer.tsx:133-158 | the merge of two runs is as long as both together |
| Sorting.MergeMultiset | src/components/SortingAlgorithmVisualizer.tsx:133-158 | the merge holds exactly the values of both runs |
| Sorting.MergeHead | src/components/SortingAlgorithmVisualizer.tsx:134-140 | the merge starts with the head of one run |
| Sorting.MergeSorted | src/components/SortingAlgorithmVisualizer.tsx:133-158 | merging two sorted runs gives a sorted run |
| Sorting.MergeStep | src/components/SortingAlgorithmVisualizer.tsx:134-141 | writing the smaller head, the left one on a tie, advances the merge by one place |
| Sorting.MergeOne | src/components/SortingAlgorithmVisualizer.tsx:133-144 | one step of the first loop writes the next merged value into the array |
| Sorting.MergeFront | src/components/SortingAlgorithmVisualizer.tsx:133-144 | the first loop writes the merge up to where one run is used up |
| Sorting.CopyRest | src/components/SortingAlgorithmVisualizer.tsx:145-158 | the remaining values are copied in order |
| Sorting.MergeWithEmpty | src/components/SortingAlgorithmVisualizer.tsx:145-158 | merging with an empty run is concatenation |
| Sorting.MergeInto | src/components/SortingAlgorithmVisualizer.tsx:125-159 | the range from `left` holds the merge of the two runs, the rest untouched |
| Sorting.Merge | src/components/SortingAlgorithmVisualizer.tsx:125-159 | `merge(left, middle, right)` writes the merge of the two halves of the range in place |
| Sorting.SortedSlice | src/components/SortingAlgorithmVisualizer.tsx:128-129 | a sorted range is a sorted slice |
| Sorting.MergedRangeSorted | src/components/SortingAlgorithmVisualizer.tsx:166 | merging two sorted halves leaves the range sorted |
| Sorting.MergedRangeValues | src/components/SortingAlgorithmVisualizer.tsx:166 | merging keeps the array's values |
| Sorting.MergeSortRange | src/components/SortingAlgorithmVisualizer.tsx:161-168 | the range ends sorted, nothing outside it moves, and the values are permuted |
| Sorting.MergeSort | src/components/SortingAlgorithmVisualizer.tsx:123-172 | the array ends sorted and is a permutation of the original |
| Sorting.KindOf | src/components/SortingAlgorithmVisualizer.tsx:179-194 | a recognised name is that sort's name |
| Sorting.KindOfName | src/components/SortingAlgorithmVisualizer.tsx:179-194 | each sort's name selects it |
| Sorting.StartSorting | src/components/SortingAlgorithmVisualizer.tsx:174-197 | a known name sorts the array as a permutation; an unknown one returns and leaves it alone |
| Sorting.NumbersOf | src/components/SortingAlgorithmVisualizer.tsx:219 | one number per comma-separated piece |
| Sorting.KeepTruthy | src/components/SortingAlgorithmVisualizer.tsx:219 | `filter(Boolean)` keeps only non-zero numbers, dropping NaN |
| Sorting.KeepTruthyMembers | src/components/SortingAlgorithmVisualizer.tsx:219 | a value is kept exactly when it is a non-zero integer among the numbers |
| Sorting.NumbersOfMembers | src/components/SortingAlgorithmVisualizer.tsx:219 | an integer is among the numbers exactly when some piece reads as it |
| Sorting.CustomValueMembers | src/components/SortingAlgorithmVisualizer.tsx:219 | a value is in the custom array exactly when it is non-zero and some piece reads as it |
| Sorting.CustomValues | src/components/SortingAlgorithmVisualizer.tsx:219 | no value is zero, and there is at most one value per comma-separated piece |
| Sorting.ApplyCustomArray | src/components/SortingAlgorithmVisualizer.tsx:218-223 | the array is replaced only by a non-empty list of non-zero values |
| Sorting.NoValuesKeepArray | src/components/SortingAlgorithmVisualizer.tsx:220 | with no usable piece the array is kept |
| Sorting.CustomArrayRoundTrip | src/components/SortingAlgorithmVisualizer.tsx:218-223 | typing positive integers joined by commas applies exactly those integers |
| BinarySearch.Probe | src/components/BinarySearchVisualizer.tsx:40-59 | a reported index lies in the window and holds the target |
| BinarySearch.ProbeMisses | src/components/BinarySearchVisualizer.tsx:40-59 | on a sorted array, when every value outside the window differs from the target, a miss means the target is nowhere in the array |
| BinarySearch.BinarySearchCorrect | src/components/BinarySearchVisualizer.tsx:34-63 | on a sorted array the search finds the target exactly when the target is an integer the array holds, and then at an index holding it |
| BinarySearch.BarColorOf | src/components/BinarySearchVisualizer.tsx:129-135 | a bar is yellow exactly at `mid`, blue exactly inside the window elsewhere, and gray otherwise |
| BinarySearch.BinarySearchVisualizer.constructor | src/components/BinarySearchVisualizer.tsx:9-15 | the first render: no array, target 0, window and mid at 0, no result |
| BinarySearch.BinarySearchVisualizer.SetTarget | src/components/BinarySearchVisualizer.tsx:85 | the target is the input read with `Number` |
| BinarySearch.BinarySearchVisualizer.ResetSearch | src/components/BinarySearchVisualizer.tsx:65-71 | the window is the whole array, mid 0, no result |
| BinarySearch.BinarySearchVisualizer.GenerateSortedArray | src/components/BinarySearchVisualizer.tsx:18-25 | corrected (see Findings): the new array is the values sorted (a permutation), with the window over all of it, so every bar but the first is blue |
| BinarySearch.BinarySearchVisualizer.GenerateSortedArrayAsWritten | src/components/BinarySearchVisualizer.tsx:18-25 | through the stale first-render `resetSearch`, the window ends at -1, so every bar but the first is gray |
| BinarySearch.BinarySearchVisualizer.Search | src/components/BinarySearchVisualizer.tsx:34-63 | the search ends with a result; it is true exactly when the target is found, and then `mid` is the index found |
| BinarySearch.Halve | src/components/BinarySearchVisualizer.tsx:43-58 | one round probes the middle; on a hit that is the answer, otherwise the window shrinks and the answer is unchanged |
| BinarySearch.ProbeStep | src/components/BinarySearchVisualizer.tsx:43-58 | one round of the search unfolded |
| BinarySearch.SortedCopy | src/components/BinarySearchVisualizer.tsx:19-21 | the numeric sort gives a sorted permutation |
| BinarySearch.NewArrayWindow | src/components/BinarySearchVisualizer.tsx:23-24 | the window the stale reset leaves colours a bar gray, the intended one blue |
| Spiral.BeforeTransitive | src/components/SpiralAnimation.tsx:26-42 | the spiral order is transitive |
| Spiral.Chain | src/components/SpiralAnimation.tsx:26-42 | cells walked so far come in strict spiral order |
| Spiral.WalkedNoRepeats | src/components/SpiralAnimation.tsx:26-42 | a walk in spiral order repeats no cell |
| Spiral.AppendRun | src/components/SpiralAnimation.tsx:26-42 | appending the next run of a ring continues the walk |
| Spiral.RowRightCells | src/components/SpiralAnimation.tsx:27 | the top run, left to right |
| Spiral.ColumnDownCells | src/components/SpiralAnimation.tsx:30 | the right run, top to bottom |
| Spiral.RowLeftCells | src/components/SpiralAnimation.tsx:34 | the bottom run, right to left |
| Spiral.ColumnUpCells | src/components/SpiralAnimation.tsx:39 | the left run, bottom to top |
| Spiral.PushRowRight | src/components/SpiralAnimation.tsx:27 | the first inner loop pushes the top run |
| Spiral.PushColumnDown | src/components/SpiralAnimation.tsx:30 | the second pushes the right run |
| Spiral.PushRowLeft | src/components/SpiralAnimation.tsx:34 | the third pushes the bottom run |
| Spiral.PushColumnUp | src/components/SpiralAnimation.tsx:39 | the fourth pushes the left run |
| Spiral.TopRun | src/components/SpiralAnimation.tsx:27 | the top run of ring `k` is the ring's first side |
| Spiral.RightRun | src/components/SpiralAnimation.tsx:30 | the right run is the second side |
| Spiral.BottomRun | src/components/SpiralAnimation.tsx:33-36 | the bottom run is the third side |
| Spiral.LeftRun | src/components/SpiralAnimation.tsx:38-41 | the left run is the fourth side |
| Spiral.RingCount | src/components/SpiralAnimation.tsx:26-42 | a full ring covers `4(n - 2k) - 4` cells, leaving the inner square |
| Spiral.CentreCount | src/components/SpiralAnimation.tsx:26-42 | an odd square ends with its single centre cell |
| Spiral.SquareIsProduct | src/components/SpiralAnimation.tsx:26-42 | the recursive square is the product |
| Spiral.TraversalOrder | src/components/SpiralAnimation.tsx:18-45 | the order lists all `n * n` cells of the square once each, starting with the top row left to right and then the right column downwards |
| Spiral.Ring | src/components/SpiralAnimation.tsx:26-42 | one round of the outer loop appends one ring and moves the four bounds inwards |
| Spiral.RingWalked | src/components/SpiralAnimation.tsx:26-42 | a ring continues the spiral walk by its size |
| Spiral.FirstRing | src/components/SpiralAnimation.tsx:27-31 | the walk starts with the top row and the right column |
| Spiral.FrontRuns | src/components/SpiralAnimation.tsx:27-31 | the first `2n - 1` cells are the top row and then the right column |
| Spiral.VisitedStep | src/components/SpiralAnimation.tsx:138-140 | after one more step a cell is highlighted exactly when it was already or it is the step's cell |
| Spiral.StepReachesNewCell | src/components/SpiralAnimation.tsx:138-140 | every step highlights a cell not yet highlighted |
| Spiral.SpiralAnimation.constructor | src/components/SpiralAnimation.tsx:9-16 | the first render: three rows, step 0, stopped |
| Spiral.SpiralAnimation.SetMatrix | src/components/SpiralAnimation.tsx:65-79 | a new matrix gets its own order and restarts the animation |
| Spiral.SpiralAnimation.ResetAnimation | src/components/SpiralAnimation.tsx:58-61 | back to step 0, stopped |
| Spiral.SpiralAnimation.ToggleRunning | src/components/SpiralAnimation.tsx:63-112 | the button flips running while steps remain, and is disabled at the end |
| Spiral.SpiralAnimation.Tick | src/components/SpiralAnimation.tsx:47-56 | while running and not done, the step advances; at the end the run stops |
| RotateImage.RotateMatrix | src/components/RotateImageVisualizer.tsx:26-45 | the listed steps are exactly the transposition swaps then the row-reversal swaps |
| RotateImage.PairsIsProduct | src/components/RotateImageVisualizer.tsx:31-35 | the transposition lists `n(n - 1) / 2` swaps |
| RotateImage.TransposeRowSteps | src/components/RotateImageVisualizer.tsx:32-34 | row `i` of the transposition swaps `(i, j)` with `(j, i)` for every `j > i` |
| RotateImage.TransposeCount | src/components/RotateImageVisualizer.tsx:31-35 | the transposition's length |
| RotateImage.ReverseRowSteps | src/components/RotateImageVisualizer.tsx:39-41 | row `i`'s reversal swaps `(i, j)` with `(i, n - 1 - j)` for every `j < n / 2` |
| RotateImage.ReverseCount | src/components/RotateImageVisualizer.tsx:38-42 | the reversal lists `n` times `n / 2` swaps |
| RotateImage.TransposeRowsShape | src/components/RotateImageVisualizer.tsx:31-35 | every transposition step swaps a cell above the diagonal with its mirror |
| RotateImage.ReverseRowsShape | src/components/RotateImageVisualizer.tsx:38-42 | every reversal step swaps a cell of the left half with its mirror in the row |
| RotateImage.RotationStepsShape | src/components/RotateImageVisualizer.tsx:26-45 | the steps are the transposition then the reversal, of the right lengths, and none is a "reverse" step |
| RotateImage.SwapCellsAt | src/components/RotateImageVisualizer.tsx:33-40 | a swap exchanges the two named cells and leaves the rest |
| RotateImage.ApplyShape | src/components/RotateImageVisualizer.tsx:26-45 | swaps keep the matrix's shape |
| RotateImage.Rotated | src/components/RotateImageVisualizer.tsx:116 | the rotated panel's value, `mat[n - 1 - j][i]`, is a square matrix of the same size |
| RotateImage.TransposeCell | src/components/RotateImageVisualizer.tsx:33 | one transposition swap moves the partial transpose one cell on |
| RotateImage.TransposeStep | src/components/RotateImageVisualizer.tsx:32-34 | one inner iteration of the transposition |
| RotateImage.TransposeRowApplied | src/components/RotateImageVisualizer.tsx:32-34 | one transposition row |
| RotateImage.MovesToNextRow | src/components/RotateImageVisualizer.tsx:31 | a finished row starts the next |
| RotateImage.TransposeRowsApplied | src/components/RotateImageVisualizer.tsx:31-35 | applying the transposition swaps transposes the matrix |
| RotateImage.ReverseCell | src/components/RotateImageVisualizer.tsx:40 | one reversal swap mirrors one more pair |
| RotateImage.ReverseStep | src/components/RotateImageVisualizer.tsx:39-41 | one inner iteration of the reversal |
| RotateImage.ReverseRowApplied | src/components/RotateImageVisualizer.tsx:39-41 | one reversed row |
| RotateImage.RowReversed | src/components/RotateImageVisualizer.tsx:38 | a finished row starts the next |
| RotateImage.ReverseRowsApplied | src/components/RotateImageVisualizer.tsx:38-42 | applying the reversal swaps mirrors every row |
| RotateImage.SwapsRotate | src/components/RotateImageVisualizer.tsx:26-45 | applying every listed swap to a square matrix gives exactly the rotated matrix the second panel shows |
| RotateImage.StatusAsWritten | src/components/RotateImageVisualizer.tsx:191-201 | as written, "Rotation complete!" appears only once the step passes the number of swaps |
| RotateImage.StatusOf | src/components/RotateImageVisualizer.tsx:191-201 | corrected: complete exactly when the step reaches the number of swaps; before that the last swap's cells are named, and step 0 is ready |
| RotateImage.LastSwapStillShown | src/components/RotateImageVisualizer.tsx:191-201 | at the end step the line as written still names the last swap while the corrected one says complete |
| RotateImage.RotateImageVisualizer.constructor | src/components/RotateImageVisualizer.tsx:9-16 | the first render: the 3 by 3 sample, step 0, stopped |
| RotateImage.RotateImageVisualizer.Tick | src/components/RotateImageVisualizer.tsx:52-62 | while running and before the end the step advances; at the end the run stops |
| RotateImage.RotateImageVisualizer.Reset | src/components/RotateImageVisualizer.tsx:64-67 | back to step 0, stopped |
| RotateImage.RotateImageVisualizer.ToggleRunning | src/components/RotateImageVisualizer.tsx:69-167 | flips running while swaps remain; the button is disabled at the end |
| RotateImage.RotateImageVisualizer.SetMatrix | src/components/RotateImageVisualizer.tsx:71-87 | a parsed matrix replaces the old one and resets the animation |
| RotateImage.RotateImageVisualizer.StatusLineAsWritten | src/components/RotateImageVisualizer.tsx:191-201 | as written, with the counter kept within the steps, the status never says complete, and it says ready exactly at step 0 |
| RotateImage.RotateImageVisualizer.StatusLine | src/components/RotateImageVisualizer.tsx:186-201 | corrected (see Findings): the status says complete exactly when the rotated panel turns green |
| RotateImage.HighlightMarksSwap | src/components/RotateImageVisualizer.tsx:89-104 | cells not highlighted at a step are unchanged by that step's swap |
| RotateImage.EndShowsRotation | src/components/RotateImageVisualizer.tsx:116-124 | when the rotated panel turns green, the swaps so far have rotated the matrix |
| Floyd.InitialNodes | src/components/FloydsAlgorithmVisualizer.tsx:47-65 | five chained nodes; in cycle mode the last points back to node 2, in middle mode it ends the list |
| Floyd.AddedNode | src/components/FloydsAlgorithmVisualizer.tsx:77-87 | a new last node numbered by the old length, with the old last node now pointing at it and nothing else changed |
| Floyd.RemovedNode | src/components/FloydsAlgorithmVisualizer.tsx:89-97 | a list of one node or fewer is kept; otherwise the last node goes and the new last ends the list |
| Floyd.ToggledCycle | src/components/FloydsAlgorithmVisualizer.tsx:99-112 | with two nodes or more, the last node's link flips between none and node 0; nothing else changes |
| Floyd.EditsKeepChain | src/components/FloydsAlgorithmVisualizer.tsx:77-112 | the three edits keep every link but the last pointing at the next node, and the last link empty or into the list |
| Floyd.TortoiseMove | src/components/FloydsAlgorithmVisualizer.tsx:125-136 | the tortoise's step throws exactly when the pointer is off the list |
| Floyd.HareCycleMove | src/components/FloydsAlgorithmVisualizer.tsx:125-136 | in cycle mode the hare never becomes null |
| Floyd.HareMiddleMove | src/components/FloydsAlgorithmVisualizer.tsx:137-151 | in middle mode the hare lands two links ahead, or becomes null |
| Floyd.Advance | src/components/FloydsAlgorithmVisualizer.tsx:125-153 | null pointers stay null, and in cycle mode the hare is never null after a step |
| Floyd.AcyclicCycleRun | src/components/FloydsAlgorithmVisualizer.tsx:125-136 | on a list without a cycle, after `s` steps the tortoise is at `min(s, n - 1)` and the hare at `min(2s, n - 1)` |
| Floyd.AcyclicAdvance | src/components/FloydsAlgorithmVisualizer.tsx:125-136 | one step of that run |
| Floyd.AcyclicMiddleRun | src/components/FloydsAlgorithmVisualizer.tsx:137-151 | in middle mode the hare is at `2s` while that exists, and then becomes null with the tortoise at `min(s, n - 1)` |
| Floyd.AcyclicMiddleAdvance | src/components/FloydsAlgorithmVisualizer.tsx:137-151 | one step of that run |
| Floyd.PosSucc | src/components/FloydsAlgorithmVisualizer.tsx:127-133 | on a list with its cycle entry at `c`, the position after `k` hops is in the list and the next hop goes on or wraps to `c` |
| Floyd.NextOfPos | src/components/FloydsAlgorithmVisualizer.tsx:127-133 | the link of the node at a hop's position leads to the next hop's position |
| Floyd.CyclicMoves | src/components/FloydsAlgorithmVisualizer.tsx:127-136 | on a cyclic list the tortoise moves one hop and the hare two |
| Floyd.CyclicAdvance | src/components/FloydsAlgorithmVisualizer.tsx:125-153 | one step of the run on a cyclic list |
| Floyd.CyclicRun | src/components/FloydsAlgorithmVisualizer.tsx:125-153 | on a cyclic list, after `s` steps the tortoise is `s` hops along and the hare `2s` |
| Floyd.MeetIff | src/components/FloydsAlgorithmVisualizer.tsx:178 | the two meet after `s` steps exactly when `s` is past the cycle entry and a multiple of the cycle length |
| Floyd.TheyMeet | src/components/FloydsAlgorithmVisualizer.tsx:176-184 | on every cyclic list some step has them meet |
| Floyd.MiddleOf | src/components/FloydsAlgorithmVisualizer.tsx:198-213 | the middle shown: one index for odd lengths, two adjacent ones for even lengths, centred on the list |
| Floyd.DetectAsWritten | src/components/FloydsAlgorithmVisualizer.tsx:176-184 | as written, pointers on the same node are reported as a cycle at any step, step 0 included |
| Floyd.Detect | src/components/FloydsAlgorithmVisualizer.tsx:176-195 | corrected: a cycle is reported only after a step, and only on a node that is not the tail |
| Floyd.AsWrittenReportsFalseCycle | src/components/FloydsAlgorithmVisualizer.tsx:176-184 | as written, the detection reports a cycle at step 0, when both pointers start on node 0, even on a list without a cycle; on such a list the pointers also meet at the end |
| Floyd.DetectCorrect | src/components/FloydsAlgorithmVisualizer.tsx:176-195 | corrected (no check at step 0): a cycle is reported exactly when the list has one and the step is a meeting step; no cycle exactly when there is none and the hare has reached the end; it never reads past the list |
| Floyd.AsWrittenMiddleOvershoots | src/components/FloydsAlgorithmVisualizer.tsx:137-151 | as written, on an odd list the tortoise ends one past the middle when the hare falls off |
| Floyd.MiddleRun | src/components/FloydsAlgorithmVisualizer.tsx:137-151 | corrected: the tortoise is at `s` and the hare at `2s` while it exists |
| Floyd.MiddleFoundCorrect | src/components/FloydsAlgorithmVisualizer.tsx:197-214 | corrected: the run stops with the tortoise at `n / 2`, one of the middle nodes shown |
| Floyd.MiddleHareAlive | src/components/FloydsAlgorithmVisualizer.tsx:141-150 | the hare survives every step before the last |
| Floyd.MiddleLastStep | src/components/FloydsAlgorithmVisualizer.tsx:141-150 | on an odd list the last step leaves the tortoise on the middle |
| Floyd.FloydsAlgorithmVisualizer.constructor | src/components/FloydsAlgorithmVisualizer.tsx:29-45 | the first render resets to the cycle-mode list with both pointers on node 0 |
| Floyd.FloydsAlgorithmVisualizer.ResetSimulation | src/components/FloydsAlgorithmVisualizer.tsx:47-75 | the mode's initial list, both pointers on node 0, step 0, nothing found, stopped |
| Floyd.FloydsAlgorithmVisualizer.SetMode | src/components/FloydsAlgorithmVisualizer.tsx:43-45 | switching mode resets the simulation; picking the same mode changes nothing |
| Floyd.FloydsAlgorithmVisualizer.AddNode | src/components/FloydsAlgorithmVisualizer.tsx:77-87 | the add edit |
| Floyd.FloydsAlgorithmVisualizer.RemoveNode | src/components/FloydsAlgorithmVisualizer.tsx:89-97 | the remove edit |
| Floyd.FloydsAlgorithmVisualizer.ToggleCycle | src/components/FloydsAlgorithmVisualizer.tsx:99-112 | the cycle toggle, in cycle mode only |
| Floyd.FloydsAlgorithmVisualizer.RunAlgorithm | src/components/FloydsAlgorithmVisualizer.tsx:114-119 | starts running with both pointers on node 0 at step 0 |
| Floyd.FloydsAlgorithmVisualizer.PauseResume | src/components/FloydsAlgorithmVisualizer.tsx:121-123 | flips the pause flag |
| Floyd.FloydsAlgorithmVisualizer.StepForward | src/components/FloydsAlgorithmVisualizer.tsx:125-153 | one step of the mode's run, or a throw when a pointer reads a missing node |
| Floyd.FloydsAlgorithmVisualizer.Tick | src/components/FloydsAlgorithmVisualizer.tsx:166-174 | the interval steps only while running and not paused |
| Floyd.FloydsAlgorithmVisualizer.Report | src/components/FloydsAlgorithmVisualizer.tsx:176-221 | what each outcome of the detection writes: the cycle flag and stop, the stop and no-cycle text, the middle nodes and their text, or a progress line |
| Floyd.FloydsAlgorithmVisualizer.DetectAsWrittenEffect | src/components/FloydsAlgorithmVisualizer.tsx:176-221 | the detection effect as written |
| Floyd.FloydsAlgorithmVisualizer.DetectEffect | src/components/FloydsAlgorithmVisualizer.tsx:176-221 | the corrected detection effect |
| LongestSubarray.Add | src/components/LongestSubarraySumKVisualizer.tsx:26 | a sum is a number exactly when both operands are |
| LongestSubarray.Sub | src/components/LongestSubarraySumKVisualizer.tsx:37 | likewise for a difference |
| LongestSubarray.DropFirst | src/components/LongestSubarraySumKVisualizer.tsx:37-38 | removing the left element from the window sum gives the sum of the shorter window |
| LongestSubarray.Step | src/components/LongestSubarraySumKVisualizer.tsx:24-31 | `step` widens the window by one while elements remain, keeping its sum, and otherwise stops |
| LongestSubarray.TickOf | src/components/LongestSubarraySumKVisualizer.tsx:33-48 | the recorded length never shrinks, and a stopped run stays stopped |
| LongestSubarray.TickKeepsWindow | src/components/LongestSubarraySumKVisualizer.tsx:33-48 | each tick keeps the window's sum, only grows the record, records only a window whose sum is `k`, shrinks from the left when the sum is over `k`, and stops only at the end of the array |
| LongestSubarray.IterateStopped | src/components/LongestSubarraySumKVisualizer.tsx:33-48 | a stopped run stays as it is |
| LongestSubarray.RunStops | src/components/LongestSubarraySumKVisualizer.tsx:33-48 | the run stops within `2n + 1` ticks |
| LongestSubarray.SumNonNegative | src/components/LongestSubarraySumKVisualizer.tsx:36 | with no negative element every window sum is a non-negative number |
| LongestSubarray.SumShrinks | src/components/LongestSubarraySumKVisualizer.tsx:36-38 | with no negative element a shorter window never sums to more |
| LongestSubarray.StartSearch | src/components/LongestSubarraySumKVisualizer.tsx:16-22 | the reset window satisfies the search invariant |
| LongestSubarray.AtRight | src/components/LongestSubarraySumKVisualizer.tsx:36-44 | when no shrink is due, no window ending at `right` sums to `k` except possibly the current one, which is the longest such |
| LongestSubarray.RecordKeeps | src/components/LongestSubarraySumKVisualizer.tsx:39-41 | recording keeps the record the longest among windows ending before the next right end |
| LongestSubarray.ExtendKeeps | src/components/LongestSubarraySumKVisualizer.tsx:24-27 | widening keeps every dropped left end over `k` |
| LongestSubarray.RecordAttained | src/components/LongestSubarraySumKVisualizer.tsx:40 | the record is always the length of some window summing to `k`, or 0 |
| LongestSubarray.TickKeepsSearch | src/components/LongestSubarraySumKVisualizer.tsx:33-48 | each tick keeps the search invariant, and when the run stops the record is the longest window summing to `k` |
| LongestSubarray.IterateSearch | src/components/LongestSubarraySumKVisualizer.tsx:33-48 | the invariant holds along the whole run |
| LongestSubarray.RunFindsLongest | src/components/LongestSubarraySumKVisualizer.tsx:33-48 | with no negative element the run stops with the length of the longest sub-array summing to `k` |
| LongestSubarray.LongestSubarraySumKVisualizer.constructor | src/components/LongestSubarraySumKVisualizer.tsx:7-13 | the first render: the sample array, `k = 15`, an empty window, stopped |
| LongestSubarray.LongestSubarraySumKVisualizer.Reset | src/components/LongestSubarraySumKVisualizer.tsx:16-22 | an empty window at 0, record 0, stopped |
| LongestSubarray.LongestSubarraySumKVisualizer.ToggleRunning | src/components/LongestSubarraySumKVisualizer.tsx:50 | flips running |
| LongestSubarray.LongestSubarraySumKVisualizer.SetArr | src/components/LongestSubarraySumKVisualizer.tsx:62 | the array is the comma-separated input read with `Number` |
| LongestSubarray.LongestSubarraySumKVisualizer.SetK | src/components/LongestSubarraySumKVisualizer.tsx:69 | `k` is the input read with `Number` |
| LongestSubarray.LongestSubarraySumKVisualizer.Tick | src/components/LongestSubarraySumKVisualizer.tsx:33-48 | one timer tick of the window, keeping its invariant |
| StackQueue.Initial | src/components/StackVisualizater.tsx:9-11 | both structures start empty and the input blank |
| StackQueue.Typed | src/components/StackVisualizater.tsx:11 | typing changes only the input |
| StackQueue.Push | src/components/StackVisualizater.tsx:14-19 | a non-empty input is parsed with `parseInt` and becomes the new top, the rest of the stack kept, and the input is cleared; an empty input changes nothing; the queue is untouched |
| StackQueue.Pop | src/components/StackVisualizater.tsx:21-25 | a non-empty stack loses exactly its top; an empty one is unchanged; queue and input are untouched |
| StackQueue.Enqueue | src/components/StackVisualizater.tsx:27-32 | a non-empty input is parsed and joins the rear with the rest of the queue kept, and the input is cleared; an empty input changes nothing; the stack is untouched |
| StackQueue.Dequeue | src/components/StackVisualizater.tsx:34-38 | a non-empty queue loses exactly its front; an empty one is unchanged; stack and input are untouched |
| StackQueue.PushThenPop | src/components/StackVisualizater.tsx:14-25 | a push of typed text followed by a pop gives back the stack, with the input cleared |
| StackQueue.Values | src/components/StackVisualizater.tsx:15-16 | the empty texts add nothing, so there are at most as many numbers as texts |
| StackQueue.PushAllStacks | src/components/StackVisualizater.tsx:14-19 | pushing a series of texts stacks their numbers on top in typing order and leaves the queue alone |
| StackQueue.EnqueueAllQueues | src/components/StackVisualizater.tsx:27-32 | enqueuing a series of texts lines their numbers up at the rear in typing order and leaves the stack alone |
| StackQueue.PopTimesTakesTop | src/components/StackVisualizater.tsx:21-25 | n pops remove the top n elements, or empty the stack, and leave the queue alone |
| StackQueue.DequeueTimesTakesFront | src/components/StackVisualizater.tsx:34-38 | n dequeues remove the front n elements, or empty the queue, and leave the stack alone |
| StackQueue.LastInFirstOut | src/components/StackVisualizater.tsx:14-25 | popping as many times as numbers were pushed gives back the stack from before |
| StackQueue.FirstInFirstOut | src/components/StackVisualizater.tsx:27-38 | once the elements that were waiting have left, the queue holds the enqueued numbers in typing order |
| AlgorithmVisualizer.RendererFor | src/components/Visualizer/AlgorithmVisualizer.tsx:25-62 | no payload draws nothing, and a present payload always gets a renderer: one of the seven named ones, or the unsupported view |
| AlgorithmVisualizer.DispatchByName | src/components/Visualizer/AlgorithmVisualizer.tsx:25-62 | no payload draws nothing; the renderer chosen is exactly the one whose name is the payload's `visualizationType`, and the unsupported view exactly when no name matches |
| AlgorithmVisualizer.Resolvable | src/components/Visualizer/AlgorithmVisualizer.tsx:301-304 | the child ids kept are at most those listed |
| AlgorithmVisualizer.ResolvableMembers | src/components/Visualizer/AlgorithmVisualizer.tsx:301-304 | an id is among a node's attached children exactly when it is listed as a child and some node has that id |
| AlgorithmVisualizer.CreatedEntries | src/components/Visualizer/AlgorithmVisualizer.tsx:296-298 | after the first pass every node's id has an entry, each entry carries its own id and no children yet, and every entry comes from some node |
| AlgorithmVisualizer.CreatedKeys | src/components/Visualizer/AlgorithmVisualizer.tsx:296-298 | the ids with entries are exactly the nodes' ids |
| AlgorithmVisualizer.RootIndex | src/components/Visualizer/AlgorithmVisualizer.tsx:307-308 | the root found is the first node whose id is nobody's child; none is found exactly when every node is someone's child |
| AlgorithmVisualizer.TransformToHierarchy | src/components/Visualizer/AlgorithmVisualizer.tsx:294-310 | the map built holds one entry per node id with the children the two passes attach, and the root returned is the entry of the first node that is nobody's child, or none when there is no such node |
| AlgorithmVisualizer.CreateEntries | src/components/Visualizer/AlgorithmVisualizer.tsx:296-298 | the first pass gives one childless entry per node id, later nodes overwriting earlier ones with the same id |
| AlgorithmVisualizer.AttachChildren | src/components/Visualizer/AlgorithmVisualizer.tsx:299-305 | one node's pass appends each of its listed children that has an entry, in order, to that node's entry |
| AlgorithmVisualizer.FinishNode | src/components/Visualizer/AlgorithmVisualizer.tsx:299-305 | once a node's last listed child is handled, the next node's pass begins from the same map |
| AlgorithmVisualizer.StartAttaching | src/components/Visualizer/AlgorithmVisualizer.tsx:296-299 | the second pass starts from the first pass's map |
| AlgorithmVisualizer.AttachOne | src/components/Visualizer/AlgorithmVisualizer.tsx:302-303 | handling one listed child appends it to the owner's entry exactly when it has an entry, and changes no other entry |
| AlgorithmVisualizer.AttachStep | src/components/Visualizer/AlgorithmVisualizer.tsx:302-303 | one step of the second pass changes only the owner's children, by that one child when it resolves |
| AlgorithmVisualizer.NextNode | src/components/Visualizer/AlgorithmVisualizer.tsx:299-305 | the state after a node's last child is the state before the next node's first |
| AlgorithmVisualizer.FindRoot | src/components/Visualizer/AlgorithmVisualizer.tsx:307-308 | the search for the root returns the first node whose id is not a child id |
| AlgorithmVisualizer.CreatedUnique | src/components/Visualizer/AlgorithmVisualizer.tsx:296-298 | a node whose id no other node shares keeps its own value in its entry |
| AlgorithmVisualizer.AttachedUnique | src/components/Visualizer/AlgorithmVisualizer.tsx:299-305 | such a node's entry ends up with exactly its listed children that resolve, in their listed order |
| AlgorithmVisualizer.HierarchyKeepsNode | src/components/Visualizer/AlgorithmVisualizer.tsx:294-306 | in the finished map, a node with a unique id has the entry of its own id and value with its resolvable children |
| AlgorithmVisualizer.ChildrenResolve | src/components/Visualizer/AlgorithmVisualizer.tsx:302-303 | every child attached anywhere is the id of some node |
| AlgorithmVisualizer.TreeNodeOf | src/components/Visualizer/AlgorithmVisualizer.tsx:295-305 | a node read from the payload comes from an object and keeps its string id |
| AlgorithmVisualizer.TreeNodesSource | src/components/Visualizer/AlgorithmVisualizer.tsx:279-280 | the node list read comes from `visualization_data.nodes`, then `nodes`, then the payload itself if it is an array, and is always truthy |
| AlgorithmVisualizer.StrItems | src/components/Visualizer/AlgorithmVisualizer.tsx:300-301 | a list of child ids read from strings keeps their order and count |
| AlgorithmVisualizer.TreeNodesOf | src/components/Visualizer/AlgorithmVisualizer.tsx:279-280 | a node list is read only from an array, item by item, with as many nodes as items |
| AlgorithmVisualizer.RenderTree | src/components/Visualizer/AlgorithmVisualizer.tsx:270-320 | a non-object or a payload without nodes shows the invalid-tree message, a node list without a root shows the processing error, and otherwise the tree drawn is the hierarchy rooted at the first node that is nobody's child |
| AlgorithmVisualizer.RowCells | src/components/Visualizer/AlgorithmVisualizer.tsx:553-555 | one row's cells carry its row index, each column index and that column's value, in order |
| AlgorithmVisualizer.FlattenRowMajor | src/components/Visualizer/AlgorithmVisualizer.tsx:551-556 | the cell of row r and column c sits at the row's offset plus c in the flattened list, and the list is as long as all rows together |
| AlgorithmVisualizer.FlattenLength | src/components/Visualizer/AlgorithmVisualizer.tsx:551-556 | the flattened list has one cell per value of every row |
| AlgorithmVisualizer.OffsetGrows | src/components/Visualizer/AlgorithmVisualizer.tsx:551-556 | later rows start no earlier in the flattened list |
| AlgorithmVisualizer.RowsOf | src/components/Visualizer/AlgorithmVisualizer.tsx:552-553 | rows are read only from an array of arrays, keeping each row's values |
| AlgorithmVisualizer.TableValid | src/components/Visualizer/AlgorithmVisualizer.tsx:529-534 | only an object payload can pass the table guard; the data length is tested for JavaScript truthiness, so an object `data` with a truthy `length` member passes |
| AlgorithmVisualizer.RenderTable | src/components/Visualizer/AlgorithmVisualizer.tsx:529-556 | a missing or zero row count or column count, or a data length that is missing or falsy, shows the invalid-table message exactly; data past the guard that is not an array of arrays throws; otherwise the cells are the rows flattened in row-major order |
| AlgorithmVisualizer.LengthObjectThrows | src/components/Visualizer/AlgorithmVisualizer.tsx:534-556 | rows 1, columns 1 and `data: {"length": 1}` pass the guard, and then `tableData.forEach` throws because the data is not an array |
| AlgorithmVisualizer.FlattenCells | src/components/Visualizer/AlgorithmVisualizer.tsx:551-556 | the nested loops push exactly the row-major list of cells |
| AlgorithmVisualizer.FindNode | src/components/Visualizer/AlgorithmVisualizer.tsx:155 | the search returns the first node with the given id, or none when no node has it |
| AlgorithmVisualizer.Resolve | src/components/Visualizer/AlgorithmVisualizer.tsx:152-161 | a string endpoint naming some node becomes the first node with that id; anything else is kept as given |
| AlgorithmVisualizer.ResolveEdges | src/components/Visualizer/AlgorithmVisualizer.tsx:149-161 | the `map` throws exactly when the edge list is not an array or the callback throws on some edge; otherwise the result has one pair per edge, in order, each the edge's two endpoints resolved |
| AlgorithmVisualizer.MapEdges | src/components/Visualizer/AlgorithmVisualizer.tsx:152-161 | mapping from an edge on gives `None` exactly when the callback throws on a later edge, and otherwise the resolved pair of each edge, in order |
| AlgorithmVisualizer.NullNodeThrows | src/components/Visualizer/AlgorithmVisualizer.tsx:155 | a `null` node ahead of the match makes `nodes.find` throw: nodes `[null]` with an edge from "a" to "a" give no edges |
| AlgorithmVisualizer.NullNodeAfterMatch | src/components/Visualizer/AlgorithmVisualizer.tsx:155 | a `null` node after the match is never read: the edge resolves to the matching node |
| NeuralNetwork.Layers | src/components/NeuralNetworkVisualizer.tsx:202-209 | the layer sizes have max(n, 2) entries, three inputs first, the output count last and four in every layer between |
| NeuralNetwork.ShapeIsLayers | src/components/NeuralNetworkVisualizer.tsx:202-209 | any list of that shape is the one built, so the shape determines the layers |
| NeuralNetwork.InitialLayers | src/components/NeuralNetworkVisualizer.tsx:15-17 | the first render's `[3, 4, 4, 2]` is what four layers and two outputs build |
| NeuralNetwork.UpdateLayers | src/components/NeuralNetworkVisualizer.tsx:202-209 | the loop that pushes the hidden layers builds exactly those layer sizes |
| NeuralNetwork.NeuronExplanation | src/components/NeuralNetworkVisualizer.tsx:115-130 | layer 0 gives the input text, otherwise the last layer gives the output text, and any other layer the hidden text with its layer number; neurons are numbered from one |
| NeuralNetwork.LayerExplanation | src/components/NeuralNetworkVisualizer.tsx:132-141 | the popup describes the input layer for layer 0, the output layer for the last one, and a hidden layer with its number otherwise |
| NeuralNetwork.DrawnNeuronExplained | src/components/NeuralNetworkVisualizer.tsx:63-76 | every drawn neuron's hover text and its layer's popup name the kind of layer it sits in, and its index is within that layer's size |
| NeuralNetwork.NeuralNetworkVisualizer.constructor | src/components/NeuralNetworkVisualizer.tsx:13-20 | the first render's state: layers `[3, 4, 4, 2]` from four layers and two outputs, no text, no active layer, popup, switch and animation off |
| NeuralNetwork.NeuralNetworkVisualizer.HandleNumLayersChange | src/components/NeuralNetworkVisualizer.tsx:190-194 | the layer count takes the slider's value and the layers are rebuilt with the current outputs; nothing else changes |
| NeuralNetwork.NeuralNetworkVisualizer.HandleNumOutputsChange | src/components/NeuralNetworkVisualizer.tsx:196-200 | the output count takes the slider's value and the layers are rebuilt with the current layer count; nothing else changes |
| NeuralNetwork.NeuralNetworkVisualizer.HandleNeuronHover | src/components/NeuralNetworkVisualizer.tsx:102-104 | the text becomes the hovered neuron's explanation among the drawn layers; nothing else changes |
| NeuralNetwork.NeuralNetworkVisualizer.HandleNeuronMouseOut | src/components/NeuralNetworkVisualizer.tsx:106-108 | the text is cleared; nothing else changes |
| NeuralNetwork.NeuralNetworkVisualizer.HandleLayerClick | src/components/NeuralNetworkVisualizer.tsx:110-113 | the clicked layer becomes active and its popup opens; nothing else changes |
| NeuralNetwork.NeuralNetworkVisualizer.ClosePopup | src/components/NeuralNetworkVisualizer.tsx:287-289 | the popup closes; nothing else changes |
| NeuralNetwork.NeuralNetworkVisualizer.SetShowExplanation | src/components/NeuralNetworkVisualizer.tsx:257-261 | the switch sets the explanation flag; nothing else changes |
| NeuralNetwork.NeuralNetworkVisualizer.AnimateDataFlow | src/components/NeuralNetworkVisualizer.tsx:143-144 | starting the animation sets the animating flag; nothing else changes |
| NeuralNetwork.NeuralNetworkVisualizer.AnimationFinished | src/components/NeuralNetworkVisualizer.tsx:187 | the timeout clears the animating flag; nothing else changes |
| Numbers.NumberOf | src/components/LongestSubarraySumKVisualizer.tsx:62 | a number is read only from blank text or from text that ends in a digit |
| Numbers.NumberOfDecimal | src/components/LongestSubarraySumKVisualizer.tsx:69 | `Number` reads the decimal form of a natural number back as that number |
| Numbers.NumberOfNegativeDecimal | src/components/LongestSubarraySumKVisualizer.tsx:62 | with a minus sign in front it reads back as the negated number |
| Numbers.BlankIsZero | src/components/SortingAlgorithmVisualizer.tsx:219 | blank text is 0 to `Number`, which `filter(Boolean)` drops |
| Numbers.ParseInt | src/components/StackVisualizater.tsx:16 | a number is read only when the text after the leading blanks starts with a sign or a digit |
| Numbers.ParseIntDecimal | src/components/StackVisualizater.tsx:16 | `parseInt` reads a number's decimal digits up to the first non-digit |
| Numbers.NoDigitsNaN | src/components/StackVisualizater.tsx:16 | text with no digit, sign or blank in front is `NaN` to `parseInt` |
| Text.Split | src/components/SortingAlgorithmVisualizer.tsx:219 | `split` gives at least one piece |
| Text.Join | src/components/Graphs/ExplanationPanel.tsx:163 | the joined text starts with the first entry and ends with the last |
| Text.SplitJoin | src/components/LongestSubarraySumKVisualizer.tsx:62 | joining the pieces of `split` with the separator gives back the text |
| Text.JoinSplit | src/components/SortingAlgorithmVisualizer.tsx:219 | splitting pieces joined with a separator none of them holds gives the pieces back |
| Text.SplitPieces | src/components/SortingAlgorithmVisualizer.tsx:219 | no piece of `split` holds the separator |
| Text.LessTotal | src/components/GraphTraversalVisualizer.tsx:83 | the string order compares any two distinct strings one way or the other |
| Text.LessTransitive | src/components/GraphTraversalVisualizer.tsx:83 | the string order is transitive |
| Text.LessAsymmetric | src/components/GraphTraversalVisualizer.tsx:83 | the string order is asymmetric |
| Text.SortStringsSpec | src/components/Graphs/ExplanationPanel.tsx:162 | the default `sort` of strings gives an ordered permutation of its input |

## Left out

- Drawing is not modelled: SVG, d3, p5, framer-motion, layout coordinates, the `calculateNodePositions` circle layout (floating point) and CSS classes. Only the colours and strokes that `getNodeColor`, `getEdgeStyle`, `getCellStyle` and the bar colours choose are modelled.
- Timers are explicit methods that the model calls when the timer fires: the `Tick` methods, and `TreeVisualizer.TreeVisualizerState.ClearHighlight` for the two-second `setTimeout` that insert and search start. The delays themselves, `setTimeout`, `setInterval` and `sleep`, are left out. Only the speed value the controls store is modelled, not how long a step waits.
- The language-model call in `backend/main.py` is a parameter. It either answers a reply text or fails. Logging, CORS and the `.env` loading are outside the model.
- The A* step generator and its Euclidean heuristic are not modelled, because they work on floating-point positions. `GraphController.Visualizer.StartAlgorithm` takes A*'s recorded steps as a parameter.
- TreeVisualizer.TreeVisualizerState.HandleOperation: in "avl" mode it inserts with the corrected `TreeOperations.AvlInsert`. The source calls the as-written `insertNode`, which can lose keys; that behaviour is `TreeOperations.AvlInsertAsWritten` (see Findings).
- TreeOperations.InsertNode: in "avl" mode it is the corrected insert, which links each balanced subtree back into its parent; the as-written one is `TreeOperations.AvlInsertAsWritten`.
- RotateImage.RotateImageVisualizer.StatusLine: states the corrected status line, which says complete once the rotated panel turns green. The line the component shows is `RotateImage.RotateImageVisualizer.StatusLineAsWritten`, which never says complete (see Findings).
- ChatEndpoint.Lower: lowers ASCII letters only, while Python's `str.lower()` lowers every cased Unicode letter. On text with non-ASCII capitals the keyword match can differ: the Kelvin sign (U+212A) lowers to `k`, and `İ` (U+0130) to `i` with a combining dot.
- GraphDijkstra.DijkstraSteps: its contract and lemmas state what the step records show. That is the structure of the run, closed nodes never relaxed, distances only decreasing, and the goal and no-path outcomes. They do not state that the distances found are shortest, which the source does not claim either.
- The `u === null` break in `dijkstra` is not modelled: a non-empty open set always yields a node.
- The `try`/`catch` around `startAlgorithm`'s generators is not modelled: nothing in the modelled generators throws. The `try`/`catch` in `TreeVisualizer.tsx`'s `handleOperation` is not modelled either, for the same reason.
- Each step's human-readable `message` string is not modelled, and nor are the ExplanationPanel texts (`getExplanation`, `renderAlgorithmData`, `formatMap`). Where the model needs a text, it names it with a datatype constructor: the neural-network explanations, the heap's `explanationText` and the tree and table error messages. It does not build the English sentence.
- Randomness is a parameter. The "binary" insert mode's `Math.random() < 0.5` is a `coins` function. The random arrays of the heap, sorting and binary-search visualizers are values passed in.
- The JSON parsing in `handleMatrixChange` of `SpiralAnimation.tsx` and `RotateImageVisualizer.tsx` is not modelled. The handlers take the parsed matrix. Text that fails to parse leaves the state unchanged, as in the source.
- Numbers.ParseInt: reads the leading decimal digits, as `parseInt` does, so "1.5" and "1e3" give 1. It does not read a `0x` prefix as hexadecimal: "0x10" gives 0, where `parseInt` gives 16.
- Numbers.NumberOf: reads blank text and signed decimal integers only. Text that `Number` reads as a fraction, an exponent, a hexadecimal number or `Infinity` is `NaN` in the model, because fractional numbers are outside the model. Four handlers differ on such text. `BinarySearch.BinarySearchVisualizer.SetTarget` and `LongestSubarray.LongestSubarraySumKVisualizer.SetK` are given below. `Sorting.ApplyCustomArray` (`split(",").map(Number).filter(Boolean)`) drops "1.5", which the source keeps and sorts. `LongestSubarray.LongestSubarraySumKVisualizer.SetArr` (`split(",").map(Number)`) stores `NaN` for it, so a window over it sums to `NaN` where the source adds 1.5.
- BinarySearch.BinarySearchVisualizer.SetTarget: the `type="number"` input at BinarySearchVisualizer.tsx:83-85 accepts "2.5" and "1e1". `Number` reads them as 2.5 and 10, and the source searches for those. The model reads both as `NaN`, so its search never finds them. Fractional numbers are outside the model.
- LongestSubarray.LongestSubarraySumKVisualizer.SetK: given "7.5", LongestSubarraySumKVisualizer.tsx:69 sets `k` to 7.5, and the model sets it to `NaN`, so no window's sum equals `k`. Exponent forms such as "1e1" are `NaN` too. Fractional numbers are outside the model.
- BinarySearch.BinarySearchVisualizer.GenerateSortedArray: states the corrected window, from 0 to the last index of the new array. The source leaves `right` at -1 through the stale `resetSearch`, which is `BinarySearch.BinarySearchVisualizer.GenerateSortedArrayAsWritten` (see Findings).
- Text.Less: stands for `localeCompare` and the default `sort`. It compares code points, while the default `sort` compares UTF-16 code units; the two differ only between characters beyond U+FFFF and characters from U+E000 to U+FFFF. On the node ids of this code base, single capital letters, it also agrees with the locale order.
- HashMapLogic.HashMap: keys are strings only. The numeric branch of `hash` is not modelled, because the visualizer passes strings. `Resize` requires `4*size <= 3*capacity + 4`. That holds whenever `set` calls it, so the nested resize that reinsertion could start never happens. The model proves this rather than following it.
- Heap handlers: `handleInsert`, `handleToggleHeap`, `handleResetHeap`, `handleBuildHeap` and `handleGenerateRandomArray` only forward to the sketch functions, which are modelled. Their `parseInt` guard is the one `Numbers.ParseInt` models.
- The neural network's animation transitions are not modelled. `animateDataFlow` is the flag it sets and the timeout that clears it.
- The stack and queue tab selection is not modelled: it only chooses which panel is drawn.
- Floyd's `stepBackward` is not modelled. It keeps no history: it decrements `step`, puts both pointers back on node 0 and replays `stepForward` `step - 1` times. Each replayed call also adds 1 to `step`, so the counter ends at `2·step − 2` while the pointers are replayed correctly.
- `AlgorithmVisualizer.RenderTree` reads only nodes of the `{id, value, children}` shape. A node list of any other shape is the `UnreadNodes` view. The sorting, stack, queue and hash-map renderers only draw, so they are not modelled.
- The slider handlers take the slider's `value[0]` as an integer.
- `GraphVisualization` stroke widths are in tenths of a pixel. JavaScript's `1.5` is `15`.

## Findings

| source | as written | input that shows it | evidently intended | confidence | as-written member | corrected member |
|---|---|---|---|---|---|---|
| src/components/trees/treeOperations.ts:45-50 | in "avl" mode each node on the insertion path is rebalanced in place, but its parent keeps pointing at the old node object, so a rotation below the root unlinks the rotated subtree | insert 10, 5, 15, 20, 25 in "avl" mode: the in-order sequence becomes [5, 10, 15] | each balanced subtree is linked back into its parent, so the insert adds exactly the new key and keeps a search tree | not executed | TreeOperations.AvlInsertAsWrittenLosesKeys | TreeOperations.AvlInsertSpec |
| src/components/BinarySearchVisualizer.tsx:18-25 | `generateSortedArray` is memoised with no dependencies, so it calls the first render's `resetSearch`, which reads an empty array and sets `right` to -1 | any newly generated array: every bar but the first is drawn gray | the window covers the new array, from 0 to its last index | not executed | BinarySearch.BinarySearchVisualizer.GenerateSortedArrayAsWritten | BinarySearch.BinarySearchVisualizer.GenerateSortedArray |
| src/components/RotateImageVisualizer.tsx:191-201 | "Rotation complete!" is shown only when the step passes the number of swaps, but the timer stops when the step reaches it | any matrix once the run ends: the status still names the last swap while the rotated panel is shown as done | complete exactly when the step reaches the number of swaps | not executed | RotateImage.LastSwapStillShown | RotateImage.StatusOf |
| src/components/FloydsAlgorithmVisualizer.tsx:176-184 | in cycle mode the meeting test `tortoise === hare` runs before any step, when both pointers are still on node 0 | a list without a cycle (cycle mode with the cycle toggled off), at step 0: a cycle is reported | a cycle is reported only once the pointers meet after moving | not executed | Floyd.AsWrittenReportsFalseCycle | Floyd.DetectCorrect |
| src/components/FloydsAlgorithmVisualizer.tsx:137-151 | in middle mode the tortoise moves even on the step where the hare falls off the list | a list of five nodes: the tortoise ends on node 3, not the middle node 2 | the tortoise stops on the middle node, `n / 2` | not executed | Floyd.AsWrittenMiddleOvershoots | Floyd.MiddleFoundCorrect |
