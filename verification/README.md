# DSA visualiser: a Dafny model of the step generators and page logic

The DSA visualiser is a React site of teaching pages. On each algorithm page,
one eager, deterministic pass records a list of snapshots ("steps"). A cursor
then plays the list back, by hand or on a timer. The data-structure pages
hold a small container in component state. Their buttons are short list
transformations.

This project models that logic in Dafny and proves what the pages promise:

- **Minimum spanning trees.** Prim's step generator works on an adjacency
  matrix (`prim.dfy`). Kruskal's step generator (`kruskal.dfy`) runs on a
  union-find forest with path compression and union by rank
  (`union_find.dfy`). Both share the weighted-edge helpers in
  `weighted_edges.dfy`: the running cost, and the stable ascending sort by
  weight.
- **Sorting.** Two step generators: insertion sort by adjacent swaps
  (`insertion_sort.dfy`), and top-down merge sort that takes the left
  element on ties (`merge_sort.dfy`). Merge sort is generic over a key
  function, so stability can be stated. The page uses the identity key.
- **Binary search tree page** (`bst.dfy`):
  - insertion, which drops duplicates;
  - removal, where the two-child case uses the in-order successor;
  - `findMin`, height, node count;
  - the four traversals, including the queue-driven level order, written
    as a method with a loop;
  - the page handlers.
- **Playback** (`playback.dfy`). The two MST pages share a cursor that moves
  both ways and saturates in `[0, len-1]`. The Kruskal page
  (`src/pages/KruskalVisualizerPage.jsx:158-220`) has the same controls as
  the Prim page cited below. The sorting pages have a forward-only cursor
  in `[0, len]`. The timer is an explicit tick.
- **Container pages.**
  - hash map as an association list: `hash_map_page.dfy`;
  - linked list: `linked_list_page.dfy`;
  - FIFO queue: `queue_page.dfy`;
  - graph of strings: `graph_page.dfy`.

  They rest on a small model of the JavaScript they use (`js.dfy`):
  - the `NaN` that `parseInt` can return;
  - strict equality, under which `NaN` equals nothing;
  - the `trim()` blank test, with the ECMAScript white-space set;
  - `Array.prototype.filter`.

`common.dfy` holds `Option` and the sort snapshot record. Functions are pure
and data is immutable. The source mutates tree nodes and arrays in place;
here each operation returns the new value.

## Model

| member | source | states |
|---|---|---|
| WeightedEdges.TotalWeightAppend | src/pages/KruskalVisualizerPage.jsx:111 | the `reduce` sum over an edge list grows by exactly the weight of an appended edge |
| WeightedEdges.InsertByWeight | src/pages/KruskalVisualizerPage.jsx:87 | inserting into a weight-sorted list keeps it sorted, adds exactly that edge, and puts it ahead of the edges of equal weight already there |
| WeightedEdges.ForestSnoc | src/pages/KruskalVisualizerPage.jsx:114-120 | appending an edge whose ends the list does not already connect by a walk keeps the list a forest (no edge closes a cycle) |
| WeightedEdges.ForestSimple | src/pages/KruskalVisualizerPage.jsx:114-120 | a forest holds no loop edge and no two edges between the same pair of nodes |
| WeightedEdges.ConnectedKeeps | src/pages/KruskalVisualizerPage.jsx:101-120 | nodes connected by a walk along edges that each join two equally labelled nodes carry the same label |
| WeightedEdges.SortByWeight | src/pages/KruskalVisualizerPage.jsx:87 | the sort by `a.weight - b.weight` yields a weight-ascending permutation of the input, and equal-weight edges keep their input order (stable) |
| UnionFind.AboveShrinks | src/pages/KruskalVisualizerPage.jsx:50-54 | each parent link leads to a node with strictly fewer nodes of higher rank, which is why `findSet`'s recursion ends |
| UnionFind.Root | src/pages/KruskalVisualizerPage.jsx:50-54 | following parent links ends at a node that is its own parent; a node that is its own parent is its own root |
| UnionFind.RootRank | src/pages/KruskalVisualizerPage.jsx:56-67 | a node that is not a root has strictly smaller rank than its root |
| UnionFind.RedirectToRoot | src/pages/KruskalVisualizerPage.jsx:52 | pointing a node straight at its root keeps the forest well-formed and changes no node's representative |
| UnionFind.FindSet | src/pages/KruskalVisualizerPage.jsx:50-54 | `findSet(i)` returns i exactly when parent[i] = i, otherwise the root of i's chain; it leaves parent[i] at that root, keeps the forest well-formed and changes no representative |
| UnionFind.SameRootsSameRoots | src/pages/KruskalVisualizerPage.jsx:50-54 | a path compression that keeps every representative keeps the set of roots |
| UnionFind.Link | src/pages/KruskalVisualizerPage.jsx:59-66 | linking two distinct roots makes the lower-rank one (the root of y on equal ranks) a child of the other, keeps the forest well-formed, and removes exactly the loser from the roots; every node of either class now has the winner as representative; the ranks are unchanged except that on equal ranks the winner's grows by one (also when both roots are the same node) |
| UnionFind.LinkAfterFinds | src/pages/KruskalVisualizerPage.jsx:56-66 | linking two roots inside the path-compressed copy acts on the classes of the original array: both classes merge under the winner, every other class keeps its representative, and only the loser stops being a root |
| UnionFind.Union | src/pages/KruskalVisualizerPage.jsx:56-67 | `union(x, y)` compresses both paths, then links the two roots: the classes of x and y merge, every other class stays, rank still increases along parent links, and the rank array changes only on equal root ranks, where the winning root's rank grows by one |
| UnionFind.ComponentsPartition | src/pages/KruskalVisualizerPage.jsx:69-77 | the groups of `getComponents` are non-empty, every node lies in the group of its representative, and two nodes share a group exactly when they have the same root |
| UnionFind.ComponentCount | src/pages/KruskalVisualizerPage.jsx:69-77 | there is exactly one group per root |
| UnionFind.ComponentsFacts | src/pages/KruskalVisualizerPage.jsx:69-77 | the groups partition 0..n-1, number the roots, and two nodes are together exactly when `findSet` gives them the same root |
| UnionFind.Singletons | src/pages/KruskalVisualizerPage.jsx:80-81 | the initial arrays (parent[i] = i, rank 0) form a valid forest with n roots and every node alone in its group |
| UnionFind.OneComponent | src/pages/KruskalVisualizerPage.jsx:148 | a forest with a single root has one group holding all nodes, the group the `complete` snapshot writes out literally |
| Kruskal.Advance | src/pages/KruskalVisualizerPage.jsx:114-139 | one edge is accepted (tree grows, roots are united) or rejected (rejected list grows), keeping the working state well-formed |
| Kruskal.SortedInRange | src/pages/KruskalVisualizerPage.jsx:87 | sorting the edges keeps every endpoint among the n nodes |
| Kruskal.SnapshotOk | src/pages/KruskalVisualizerPage.jsx:104-138 | each snapshot's cost is the weight of its tree, its components partition the nodes, every tree edge lies inside one component, tree edges plus components number n, and the tree is a forest |
| Kruskal.ConnectedSameRoot | src/pages/KruskalVisualizerPage.jsx:101-120 | nodes the tree connects have the same representative, so an edge whose ends have different representatives closes no cycle |
| Kruskal.AdvanceForest | src/pages/KruskalVisualizerPage.jsx:114-139 | accepting an edge that joins two classes keeps the tree a forest; a reject leaves it unchanged |
| Kruskal.AdvanceInClasses | src/pages/KruskalVisualizerPage.jsx:114-139 | after an accept every tree edge, old and new, joins two nodes of one class |
| Kruskal.InitInv | src/pages/KruskalVisualizerPage.jsx:78-83 | the starting forest of singletons with an empty tree satisfies the generator invariant |
| Kruskal.AdvanceInv | src/pages/KruskalVisualizerPage.jsx:114-139 | accepting an edge lowers the number of components by exactly one; rejecting it leaves the forest untouched; the tree stays at n minus the root count edges, each tree edge inside one class, and acyclic |
| Kruskal.IterationDecided | src/pages/KruskalVisualizerPage.jsx:101-139 | the `considering` snapshot is followed by `accept` exactly when the endpoints have different representatives; an accept adds the edge and merges two components, a reject adds it to the rejected list and keeps the partition |
| Kruskal.LoopTrace | src/pages/KruskalVisualizerPage.jsx:99-153 | the loop from sorted position i emits, for each edge in order, `considering` then its verdict, and stops with `complete` exactly when the tree reaches n-1 edges |
| Kruskal.CompleteOk | src/pages/KruskalVisualizerPage.jsx:141-150 | when the tree reaches n-1 edges the forest really has a single component, so the hard-coded component list of `complete` is right |
| Kruskal.KruskalTrace | src/pages/KruskalVisualizerPage.jsx:79-156 | the whole timeline of `kruskalSteps`: `start`, then considering/verdict pairs over the edges in stable ascending weight order, with every snapshot satisfying the per-snapshot facts (cost, partition, tree edges inside components, edge count, and a tree with no cycle) and `complete` last exactly when the tree fills |
| Kruskal.KruskalStart | src/pages/KruskalVisualizerPage.jsx:89-97 | the first snapshot is `start` with an empty tree, nothing rejected, cost 0 and n singleton components |
| Kruskal.KruskalBounds | src/pages/KruskalVisualizerPage.jsx:104-150 | in every snapshot the tree has at most n-1 edges and `totalCost` is the sum of the accepted weights |
| Kruskal.KruskalForest | src/pages/KruskalVisualizerPage.jsx:104-150 | in every snapshot the tree is a forest: each accepted edge joined two nodes the earlier tree edges did not connect |
| Kruskal.AdvanceSide | src/pages/KruskalVisualizerPage.jsx:114-139 | an edge that does not cross a cut keeps every class of the forest on one side of it |
| Kruskal.SidesApart | src/pages/KruskalVisualizerPage.jsx:141 | while two nodes on opposite sides of the cut stay apart, the tree has at most n-2 edges |
| Kruskal.LoopNeverCompletes | src/pages/KruskalVisualizerPage.jsx:99-153 | on a graph split by a cut that no edge crosses, the loop never emits `complete` |
| Kruskal.KruskalDisconnected | src/pages/KruskalVisualizerPage.jsx:79-156 | a disconnected graph ends its timeline without a `complete` snapshot |
| Prim.NewEdges | src/pages/PrimVisualizerPage.jsx:179-188 | the edges pushed for a new node are exactly its matrix entries to nodes outside the tree |
| Prim.FirstCrossing | src/pages/PrimVisualizerPage.jsx:135-146 | the scan returns the first candidate with exactly one endpoint in the tree, or none when no candidate crosses |
| Prim.Remove | src/pages/PrimVisualizerPage.jsx:166 | `splice(k, 1)` drops position k, shifts the rest down and keeps every other element |
| Prim.Refresh | src/pages/PrimVisualizerPage.jsx:179-197 | the regenerated candidate list is sorted by weight and holds exactly the crossing edges among the leftover candidates and the new node's edges |
| Prim.KeepCrossing | src/pages/PrimVisualizerPage.jsx:191-195 | the filter keeps exactly the edges with one endpoint in the tree |
| Prim.Iteration | src/pages/PrimVisualizerPage.jsx:148-209 | one pass of the loop body adds exactly one edge to the tree |
| Prim.GrowsSize | src/pages/PrimVisualizerPage.jsx:161-163 | a tree grown by hanging one new node on each edge has one node more than it has edges |
| Prim.ReachedAppend | src/pages/PrimVisualizerPage.jsx:161-163 | accepting an edge from a tree node to an outside node adds exactly that node and keeps the tree acyclic |
| Prim.ScanTakesHead | src/pages/PrimVisualizerPage.jsx:135-146 | because every candidate crosses, the scan always picks the head of the list |
| Prim.HeadIsLightest | src/pages/PrimVisualizerPage.jsx:118 | the head of the complete, weight-sorted candidate list is a minimum-weight crossing edge |
| Prim.RefreshFrontier | src/pages/PrimVisualizerPage.jsx:179-197 | after the head is accepted, the regenerated list again crosses the cut, is sorted, and holds every matrix entry leaving the grown tree; the accepted edge is gone |
| Prim.FinalOk | src/pages/PrimVisualizerPage.jsx:215-223 | when the loop stops, the closing snapshot is `complete`, has no candidates, and the tree spans all nodes or no edge leaves it |
| Prim.IterationOk | src/pages/PrimVisualizerPage.jsx:148-209 | a loop pass keeps the generator invariant and records `considering`, `accept`, then `update` only while the tree is not full |
| Prim.HeadSnoc | src/pages/PrimVisualizerPage.jsx:199-209 | an `update` snapshot may follow the recorded prefix without breaking it |
| Prim.LoopOk | src/pages/PrimVisualizerPage.jsx:130-223 | the loop plus the closing snapshot form a proper timeline from any state that satisfies the invariant |
| Prim.PrimOpening | src/pages/PrimVisualizerPage.jsx:96-128 | the first snapshot is `start` with visited {start}, empty tree and cost 0; the second is `candidates` with exactly the start node's edges, lightest first |
| Prim.OpeningInv | src/pages/PrimVisualizerPage.jsx:94-118 | the variables just before the loop satisfy the invariant |
| Prim.PrimTrace | src/pages/PrimVisualizerPage.jsx:84-226 | in every snapshot \|visited\| = \|mst\| + 1, the tree is acyclic with at most n-1 edges, the cost is its weight and the candidates are exactly the sorted crossing edges; every `considering` is followed by the `accept` of a lightest crossing edge; only the last snapshot is `complete` |
| InsertionSort.Swap | src/pages/InsertionSort.jsx:30 | the destructuring swap exchanges the two positions |
| InsertionSort.SwapPerm | src/pages/InsertionSort.jsx:30 | a swap is a permutation and touches no other position |
| InsertionSort.Inner | src/pages/InsertionSort.jsx:26-34 | the inner loop rearranges only the first j+1 elements and leaves the rest alone |
| InsertionSort.InnerPerm | src/pages/InsertionSort.jsx:26-34 | the inner loop leaves a permutation of its input |
| InsertionSort.Outer | src/pages/InsertionSort.jsx:22-35 | the outer loop leaves a permutation of the input of the same length |
| InsertionSort.InversionsZero | src/pages/InsertionSort.jsx:37 | an array has no inversions exactly when it is sorted |
| InsertionSort.InnerSorts | src/pages/InsertionSort.jsx:26-34 | with the first j elements sorted, the inner loop leaves the first j+1 sorted |
| InsertionSort.InnerCount | src/pages/InsertionSort.jsx:26-34 | the inner loop records two snapshots per earlier element greater than a[j] |
| InsertionSort.OuterCount | src/pages/InsertionSort.jsx:22-35 | the outer loop from i records one marker per position plus two snapshots per inversion |
| InsertionSort.OuterSorts | src/pages/InsertionSort.jsx:22-35 | the outer loop leaves the array sorted |
| InsertionSort.InnerTrace | src/pages/InsertionSort.jsx:26-31 | the inner loop's snapshots go from the array to its result one shown swap of an out-of-order adjacent pair at a time, all highlighting [j, j-1] and all permutations of the input |
| InsertionSort.OuterTrace | src/pages/InsertionSort.jsx:22-35 | the outer loop's snapshots form a chain of shown swaps of permutations, and every marker [i] shows the prefix before i sorted |
| InsertionSort.InsertionSortTrace | src/pages/InsertionSort.jsx:16-39 | the timeline starts with the input highlighting [0] and ends with the input sorted and no highlight; every snapshot is a permutation of the input; neighbouring snapshots are equal or show one swap of an out-of-order pair |
| InsertionSort.InsertionSortCount | src/pages/InsertionSort.jsx:16-39 | the number of snapshots is 2 + max(n-1, 0) + 2 · (inversions of the input) |
| MergeSort.MergeLists | src/pages/MergeSort.jsx:22-38 | the reference merge (left element on ties) has the combined length |
| MergeSort.MergeListsPerm | src/pages/MergeSort.jsx:22-38 | the merge is a permutation of the two halves together |
| MergeSort.MergeListsSorted | src/pages/MergeSort.jsx:22-38 | merging two sorted halves gives a sorted list |
| MergeSort.MergeListsStable | src/pages/MergeSort.jsx:25-29 | taking the left element on ties keeps, for every key, the left half's elements ahead of the right half's |
| MergeSort.Compare | src/pages/MergeSort.jsx:23-30 | the comparison loop moves one element per recorded snapshot and stays within each half |
| MergeSort.Drain | src/pages/MergeSort.jsx:31-38 | a draining loop records one snapshot per remaining position, highlighting that position, on the unchanged array |
| MergeSort.WriteBack | src/pages/MergeSort.jsx:39-42 | the copy-back loop records one snapshot per written position |
| MergeSort.Sort | src/pages/MergeSort.jsx:45-51 | `mergeSort(left, right)` sorts [left, right] stably and touches nothing else; its snapshots show full-length arrays and highlight only positions of the range; none are recorded exactly when left >= right; the last one shows the result |
| MergeSort.CompareShape | src/pages/MergeSort.jsx:23-30 | the comparison loop stops exactly when one half is used up |
| MergeSort.WriteBackResult | src/pages/MergeSort.jsx:39-42 | the copy-back leaves temp's entries in [k, right] and every other position unchanged |
| MergeSort.CompareMerges | src/pages/MergeSort.jsx:23-38 | what the comparison loop moved, followed by the two remainders, is exactly the reference merge of the halves |
| MergeSort.CompareSteps | src/pages/MergeSort.jsx:24 | every comparison snapshot shows the unchanged array and highlights [i, j] with left <= i <= mid < j <= right |
| MergeSort.WriteBackSteps | src/pages/MergeSort.jsx:39-42 | each copy-back snapshot shows the positions written so far and highlights k = left, ..., right in order |
| MergeSort.MergeResult | src/pages/MergeSort.jsx:20-43 | a merge leaves the reference merge of the two sorted halves in [left, right] and every other position as it was |
| MergeSort.MergeShape | src/pages/MergeSort.jsx:22-42 | a merge of [left, right] records exactly 2 · (right - left + 1) snapshots: reads of the unchanged array first, then the write-backs |
| MergeSort.FrontShape | src/pages/MergeSort.jsx:24-38 | the comparison and drain snapshots number right - left + 1 and each shows the unchanged array with a comparison pair or one position of the range |
| MergeSort.BackShape | src/pages/MergeSort.jsx:39-42 | the write-back snapshots highlight left, ..., right in increasing order |
| MergeSort.MergeLast | src/pages/MergeSort.jsx:41 | the last snapshot of a merge shows the array the merge leaves |
| MergeSort.MergeWithin | src/pages/MergeSort.jsx:20-43 | a merge shows full-length arrays and highlights only positions of [left, right] |
| MergeSort.MergeSortResult | src/pages/MergeSort.jsx:16-55 | fewer than two elements give no snapshots; otherwise every snapshot shows an array as long as the input with highlights inside it, and the last shows the input sorted, as a permutation of it, stably |
| MergeSort.WholeRange | src/pages/MergeSort.jsx:53 | sorting the whole range gives a sorted, stable permutation of the input |
| MergeSort.WriteBackDuplicates | src/pages/MergeSort.jsx:39-41 | the copy-back snapshots need not be permutations of the input: sorting [2, 1] shows [1, 1] in between |
| MergeSort.SortPair | src/pages/MergeSort.jsx:45-53 | a two-element input is sorted by one merge of two one-element halves |
| Bst.HeightBounds | src/pages/BinaryTreePage.jsx:212-220 | a tree of height h has between h and 2^h - 1 nodes |
| Bst.BstCount | src/pages/BinaryTreePage.jsx:217-220 | in a search tree `countNodes` is the number of distinct values |
| Bst.Insert | src/pages/BinaryTreePage.jsx:25-37 | `insertNode` adds the value to the value set, keeps the strict search-tree order, and adds at most one node |
| Bst.InsertPresent | src/pages/BinaryTreePage.jsx:30-34 | in a search tree, inserting leaves the tree unchanged exactly when the value is present, and adds one node exactly when it is absent |
| Bst.InsertEmpty | src/pages/BinaryTreePage.jsx:26-28 | inserting into the empty tree gives a single leaf |
| Bst.FindMin | src/pages/BinaryTreePage.jsx:79-84 | `findMin` returns a stored value, the least one in a search tree |
| Bst.FindMinFirst | src/pages/BinaryTreePage.jsx:79-84 | `findMin` returns the first value of the in-order listing |
| Bst.Remove | src/pages/BinaryTreePage.jsx:50-77 | `removeNode` of an absent value returns the tree unchanged; on a search tree it returns a search tree holding the old values less the removed one |
| Bst.RemoveRoot | src/pages/BinaryTreePage.jsx:60-73 | removing the root value: a leaf becomes empty, a node with one child is replaced by it, and a node with two children takes its in-order successor, the least value above it |
| Bst.RemoveCount | src/pages/BinaryTreePage.jsx:50-77 | in a search tree removal takes out exactly one node when the value is present and none otherwise |
| Bst.Inorder | src/pages/BinaryTreePage.jsx:163-166 | the in-order listing has `countNodes` elements |
| Bst.Preorder | src/pages/BinaryTreePage.jsx:168-171 | the pre-order listing has `countNodes` elements and starts with the root |
| Bst.Postorder | src/pages/BinaryTreePage.jsx:173-176 | the post-order listing has `countNodes` elements and ends with the root |
| Bst.InorderIncreasing | src/pages/BinaryTreePage.jsx:163-166 | a tree is a search tree exactly when its in-order listing is strictly increasing |
| Bst.InorderValues | src/pages/BinaryTreePage.jsx:163-166 | the in-order listing holds exactly the stored values |
| Bst.InorderBag | src/pages/BinaryTreePage.jsx:163-166 | the in-order listing lists each stored value as often as it is stored |
| Bst.PreorderBag | src/pages/BinaryTreePage.jsx:168-171 | the same for the pre-order listing |
| Bst.PostorderBag | src/pages/BinaryTreePage.jsx:173-176 | the same for the post-order listing |
| Bst.DrainFront | src/pages/BinaryTreePage.jsx:183-189 | working through the queued subtrees emits their root values in queue order and leaves their children queued behind the rest |
| Bst.DrainLevels | src/pages/BinaryTreePage.jsx:183-189 | the shift-and-push queue loop produces the breadth-first order defined level by level, left child before right |
| Bst.DrainBag | src/pages/BinaryTreePage.jsx:183-189 | the queue loop lists every value of the queued subtrees as often as it is stored |
| Bst.LevelOrder | src/pages/BinaryTreePage.jsx:178-192 | `levelOrderTraversal` returns the level-by-level order, has `countNodes` elements, and starts with the root |
| Bst.Round | src/pages/BinaryTreePage.jsx:184-188 | one loop round queues only non-empty subtrees, holds one node fewer, and emits the front value |
| Bst.LevelsOfOne | src/pages/BinaryTreePage.jsx:178-192 | from the queue [root] the loop yields the level order, `countNodes` values, root first |
| Bst.TraversalsAgree | src/pages/BinaryTreePage.jsx:163-199 | each of the four traversals is a permutation of the stored values with `countNodes` elements |
| Bst.AddNode | src/pages/BinaryTreePage.jsx:17-23 | a blank field does nothing; otherwise the value is inserted and logged; the traversal and cursor stay |
| Bst.RemoveNode | src/pages/BinaryTreePage.jsx:39-48 | the root is replaced and a `Removed` entry logged (carrying the parsed number, not the raw text: see Left out) only when `removeNode` returns a non-empty tree |
| Bst.RemoveNodeQuirks | src/pages/BinaryTreePage.jsx:42-46 | removing the only node leaves the tree as it was and logs nothing; a miss on a non-empty tree is still logged as removed |
| Bst.RemoveNodeEffect | src/pages/BinaryTreePage.jsx:39-48 | on a search tree holding another value too, the page removes exactly the requested value and keeps the order |
| Bst.Traversal | src/pages/BinaryTreePage.jsx:194-204 | choosing a traversal shows it from its first element and logs it |
| Bst.NextStep | src/pages/BinaryTreePage.jsx:206-210 | "next" advances the cursor unless it is on the last element |
| Bst.CursorStaysOk | src/pages/BinaryTreePage.jsx:194-210 | every page event keeps the cursor on an element of the traversal (or at 0 when it is empty) |
| Playback.MstReset | src/pages/PrimVisualizerPage.jsx:228-242 | `reset` loads the snapshots with cursor 0, paused, and nothing shown |
| Playback.Execute | src/pages/PrimVisualizerPage.jsx:244-256 | `executeStep(i)` shows snapshot i, or only stops playback when i is past the end |
| Playback.MstForward | src/pages/PrimVisualizerPage.jsx:258-266 | `stepForward` moves to and shows the next snapshot only when the cursor is before the last one, and otherwise clears `playing` |
| Playback.MstBackward | src/pages/PrimVisualizerPage.jsx:268-274 | `stepBackward` moves to and shows the previous snapshot, and does nothing at 0 |
| Playback.MstToggle | src/pages/PrimVisualizerPage.jsx:335-337 | play/pause flips `playing` and is disabled from the last snapshot on |
| Playback.MstStaysOk | src/pages/PrimVisualizerPage.jsx:228-289 | every control keeps the cursor in [0, len-1] and the display equal to the snapshot under it |
| Playback.MstBackAndForth | src/pages/PrimVisualizerPage.jsx:258-274 | a step back undoes a step forward and vice versa, as far as cursor and display go |
| Playback.MstIdle | src/pages/PrimVisualizerPage.jsx:280-289 | a paused page does not move on ticks |
| Playback.MstPlays | src/pages/PrimVisualizerPage.jsx:280-289 | after k ticks of autoplay the cursor is min(c + k, len - 1), and the page keeps playing exactly while c + k < len |
| Playback.MstPlaysToEnd | src/pages/PrimVisualizerPage.jsx:280-289 | pressing play and leaving the page alone ends on the last snapshot, shown, with `playing` cleared |
| Playback.SortReset | src/pages/MergeSort.jsx:57-65 | `reset` shows the unsorted input with cursor 0, paused, nothing highlighted |
| Playback.SortForward | src/pages/MergeSort.jsx:67-72 | `stepForward` shows `steps[cursor]` and then increments the cursor |
| Playback.SortToggle | src/pages/MergeSort.jsx:108 | play/pause flips `playing` |
| Playback.SortStaysOk | src/pages/MergeSort.jsx:67-84 | the controls keep the cursor in [0, len] and the display equal to the snapshot just behind it |
| Playback.SortPlays | src/pages/MergeSort.jsx:78-84 | after k ticks of autoplay the cursor is min(c + k, len); it stays at len, still marked as playing |
| Playback.InsertionSortPageEnds | src/pages/InsertionSort.jsx:41-68 | playing the insertion-sort page to the end shows the input sorted, as a permutation of it, with no highlight |
| Playback.MergeSortPageEnds | src/pages/MergeSort.jsx:57-84 | playing the merge-sort page to the end shows the input sorted stably (two or more elements) or unchanged (fewer) |
| Js.StrictEqReflexive | src/pages/HashMapPage.jsx:23 | `===` relates a parsed number to itself exactly when it is not `NaN` |
| Js.Filter | src/pages/GraphPage.jsx:38-41 | `filter` keeps exactly the elements that pass, and no more of them than there were |
| Js.FilterKeepsAll | src/pages/HashMapPage.jsx:48-50 | a filter returns the array unchanged exactly when every element passes |
| Js.FilterConcat | src/pages/GraphPage.jsx:52 | filtering distributes over concatenation |
| Js.FilterShorter | src/pages/HashMapPage.jsx:50 | a filter that changes the array makes it shorter |
| HashMapPage.Find | src/pages/HashMapPage.jsx:65 | `find` returns the first entry whose key is strictly equal, or none when there is no such entry |
| HashMapPage.Overwrite | src/pages/HashMapPage.jsx:22-28 | the `map` in `put` replaces every entry with the key in place and keeps the others and the length |
| HashMapPage.PutEntry | src/pages/HashMapPage.jsx:15-42 | a blank key or value does nothing; otherwise an existing key is overwritten in place, a new key appended, the update flag logged and the size set |
| HashMapPage.RemoveEntry | src/pages/HashMapPage.jsx:44-59 | a blank key does nothing; otherwise every entry with the key is dropped, the size set, and the log says "removed" exactly when the length changed |
| HashMapPage.Search | src/pages/HashMapPage.jsx:61-71 | a blank key does nothing; otherwise the result is the first matching value, or empty, and the entries stay |
| HashMapPage.FindGet | src/pages/HashMapPage.jsx:65-66 | `find` and the map view agree on numeric keys |
| HashMapPage.OverwriteGet | src/pages/HashMapPage.jsx:22-28 | overwriting a present key changes that key's value and nothing else |
| HashMapPage.AppendGet | src/pages/HashMapPage.jsx:30-32 | an appended entry shows only for a key the others lack |
| HashMapPage.FilterGet | src/pages/HashMapPage.jsx:48 | filtering out a numeric key deletes it from the map and changes nothing else |
| HashMapPage.FilterNaN | src/pages/HashMapPage.jsx:48 | filtering on a `NaN` key keeps every entry |
| HashMapPage.PutGet | src/pages/HashMapPage.jsx:15-42 | after put(k, v) with numeric k, get(k) = v and other keys keep their values; with a `NaN` key the map is unchanged though one more entry is stored |
| HashMapPage.RemoveGet | src/pages/HashMapPage.jsx:44-59 | remove(k) deletes exactly key k and logs "removed" exactly when k was present; a `NaN` key changes nothing but the log |
| HashMapPage.SearchGet | src/pages/HashMapPage.jsx:61-71 | search reports the map's value for a numeric key and never finds `NaN` |
| HashMapPage.PutWf | src/pages/HashMapPage.jsx:15-42 | `put` keeps the size equal to the entry count and numeric keys distinct |
| HashMapPage.RemoveWf | src/pages/HashMapPage.jsx:44-59 | `remove` keeps the size equal to the entry count and numeric keys distinct |
| HashMapPage.FilterUnique | src/pages/HashMapPage.jsx:48 | filtering keeps keys distinct |
| HashMapPage.SearchWf | src/pages/HashMapPage.jsx:61-71 | `search` keeps the page well-formed |
| HashMapPage.PutTwice | src/pages/HashMapPage.jsx:15-42 | putting the same numeric pair twice stores what putting it once does |
| HashMapPage.OverwriteAll | src/pages/HashMapPage.jsx:22-32 | after a numeric `put`, every entry with that key holds the new pair |
| LinkedListPage.Delete | src/pages/LinkedListPage.jsx:33 | `splice(i, 1)` drops position i and keeps every other element in order |
| LinkedListPage.IndexOfFirst | src/pages/LinkedListPage.jsx:43 | `indexOf` finds exactly the first strictly equal element, and -1 exactly when there is none |
| LinkedListPage.Add | src/pages/LinkedListPage.jsx:17-22 | a blank field does nothing; otherwise the parsed value is appended and an `Added` entry is logged (carrying the parsed number, not the raw text: see Left out) |
| LinkedListPage.RemoveAt | src/pages/LinkedListPage.jsx:30-41 | removal by ID and by index both delete position num exactly when 0 <= num < length (logging it), and otherwise leave the page unchanged |
| LinkedListPage.RemoveValue | src/pages/LinkedListPage.jsx:42-48 | removal by value deletes the first strictly equal element and logs it; an absent value changes nothing |
| LinkedListPage.HandleRemove | src/pages/LinkedListPage.jsx:24-52 | a blank field does nothing; the list shrinks by at most one, and the log grows exactly when it shrinks |
| LinkedListPage.DeleteBag | src/pages/LinkedListPage.jsx:33 | a removal leaves the values of the list less the one removed |
| LinkedListPage.AddThenRemoveLast | src/pages/LinkedListPage.jsx:19-39 | removing the last position undoes an add |
| LinkedListPage.AddThenRemoveValue | src/pages/LinkedListPage.jsx:19-47 | removing by value undoes adding a new number, but a `NaN` node can never be removed by value |
| LinkedListPage.RemoveValueCount | src/pages/LinkedListPage.jsx:42-47 | removal by value takes out exactly one copy of a present value |
| QueuePage.Update | src/pages/QueuePage.jsx:12-20 | `updateQueueInfo` installs the queue with its size and front (`null` when empty) and logs one line with the new queue |
| QueuePage.Enqueue | src/pages/QueuePage.jsx:22-30 | a blank or non-numeric field does nothing; otherwise the number joins at the back with one log line |
| QueuePage.Dequeue | src/pages/QueuePage.jsx:32-37 | an empty queue does nothing; otherwise exactly the front leaves with one log line |
| QueuePage.Fifo | src/pages/QueuePage.jsx:22-37 | over any run of operations, the values served followed by those still queued are those queued before followed by those offered: first in, first out |
| QueuePage.RunConsistent | src/pages/QueuePage.jsx:12-15 | after every operation `size` is the length and `front` the first element or `null` |
| GraphPage.IncludesAt | src/pages/GraphPage.jsx:40 | `includes` holds exactly when the text occurs at some position |
| GraphPage.EdgeHasEnds | src/pages/GraphPage.jsx:28 | an edge's text contains both endpoint texts |
| GraphPage.AddNode | src/pages/GraphPage.jsx:19-24 | a blank field does nothing; otherwise the text is appended, duplicates included, and logged |
| GraphPage.AddEdge | src/pages/GraphPage.jsx:26-33 | a blank endpoint does nothing; otherwise `start → end` is appended and logged |
| GraphPage.RemoveNode | src/pages/GraphPage.jsx:35-47 | a blank field does nothing; otherwise every equal node and every edge containing the text is dropped, and one line is logged even when nothing matched |
| GraphPage.RemoveEdge | src/pages/GraphPage.jsx:49-56 | a blank field does nothing; otherwise every equal edge text is dropped, the rest keep their order, and one line is logged |
| GraphPage.RemoveNodeEffect | src/pages/GraphPage.jsx:38-41 | after removing a node it is not listed, no edge mentions it, and every other node and every edge not mentioning it remains |
| GraphPage.RemoveNodeDropsItsEdges | src/pages/GraphPage.jsx:38-41 | removing either endpoint of an added edge removes that edge |
| GraphPage.AddThenRemoveEdge | src/pages/GraphPage.jsx:26-56 | removing an edge undoes adding it when it was not there before |
| GraphPage.RemoveNodeSubstring | src/pages/GraphPage.jsx:39-41 | the substring test reaches past endpoints: removing node "1" also drops the edge "10 → 2" |

## Left out

- Random inputs: `generateRandomGraph` and `generateRandomArray` draw from `Math.random`. The graph (an adjacency matrix, or an edge list with `n`) and the array are parameters instead.
- Rendering, animation, node positions, colour and status helpers, and the descriptive pages: presentation only.
- React state and timers. Every handler is a function from page record to page record. Autoplay is an explicit tick, and one tick is one run of the effect after its timer fires.
- Text parsing. `parseInt` is reduced to its outcome: a number or `NaN` (`Js.Num`). The wording of descriptions and log lines is reduced to a tag with its data.
- `Infinity` in Prim's matrix is modelled as `None` in an `Option<nat>` matrix; no floating point.
- The order in which `getComponents` lists its groups follows JavaScript object key order. Components are modelled as a set of sets.
- Bst: tree values are integers. The `NaN` that `parseInt` gives for text that is not a number is not modelled. Inserting it into an empty tree would store it, anywhere else it is ignored, and removing it would remove the node it reaches first, since both comparisons with it are false.
- Prim.PrimTrace: requires the start node to be a node of the graph. The page always starts from node 0 of a six-node graph.
- LinkedListPage.Add: the log entry carries the parsed number, while the page logs the field's raw text (`Added ${value}`); for text such as `12abc` the list gets 12 but the log shows `12abc`.
- Bst.RemoveNode: the log entry carries the parsed number, while the page logs the field's raw text (`Removed node: ${value}`). `Bst.AddNode` is exact, since the page logs the parsed `newNode` there.
- Prim.Weight: an entry outside the `n × n` square reads as no edge. The page would read `undefined` there, which is not `Infinity`, and would push a candidate. The page only builds square matrices (`Array(n).fill(Infinity)` for each of `n` rows).
- Playback.SortForward: requires the cursor to be on a snapshot. The page's `stepForward` has no guard, but autoplay only calls it below the end, and past the end it would read a missing element.
- MergeSort.MergeSortResult: does not claim that every snapshot is a permutation of the input, because that is false. The copy-back snapshots show partly written arrays (`MergeSort.WriteBackDuplicates`). Permutation holds for the sorted range at the end of each merge, and for the final array.
- Kruskal: the page calls `findSet` on copies of `parent` when it tests an edge and when it snapshots components, so that compression is thrown away. The model uses the compression-free `UnionFind.Root` there and the compressing `UnionFind.FindSet` inside `union`.
- Playback.MstReset: after `reset` the MST pages clear the tree, candidates and cost, rather than showing the first snapshot. The model shows nothing until the first move.
