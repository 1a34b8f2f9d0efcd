# throw-out-utils: the algorithmic core, modelled in Dafny

This project models the parts of the throw-out-utils TypeScript/JavaScript
utility library that have algorithmic content, and proves properties of them:

- `PriorityQueue` (src/algorithms/PriorityQueue.ts): a binary min-heap in a
  resizable array, ordered by a caller-supplied comparator. It is modelled as
  the class `PriorityQueues.PriorityQueue`. Its fields are `data`, `length`
  (the private `_length`) and `comparator`. Each method is proved to perform
  exactly the steps of a pure function (`SiftUp`, `SiftDown`, `Heapified`,
  `Enqueued`, `Dequeued`). Heap order, permutation, minimality of the root and
  sorted draining are proved about those functions.
- `aStar` (src/algorithms/astar.ts): best-first search over that queue. Search
  nodes are objects mutated in place, so they live in an arena (`nodes`) and
  are referred to by index. The open heap is a sequence of indices, kept with
  the queue's own `Enqueued` under a comparator that reads the arena's current
  `f` values, just as `heapComparator` reads the live objects. The callbacks
  (`isEnd`, `neighbor`, `distance`, `heuristic`, `hash`) are function
  parameters. The wall clock is an oracle `elapsed` giving the milliseconds
  elapsed at each timeout check. `defaultHash` is `Pathfinding.DefaultHash`,
  applied to the data's own string conversion.
- `BinarySearchTree` (src/algorithms/BinarySearchTree.ts): pointer-based
  nodes with a ghost footprint and a ghost `Tree` value. Each pointer
  operation is proved equal to a function on `Tree` values. Ordering and
  membership are proved about those functions.
- `merge` and `mergeSort` (src/sorting.ts): `merge` consumes its argument
  arrays in place, `mergeSort` recurses on slices.
- The pure parts of src/datapack.js: the name validators, the `||` ingredient
  parser, `jsonBeautify` (its in-place splicing loop is proved equal to a
  pure layout function), and the `Tag` and `Namespace` classes' validation,
  `addTag`, `addValue` and `deleteValue`.
- `capWords`, `cap` and `chunk` (src/misc.ts); `clamp`, `sign` and
  `euclideanMod` (src/math/index.ts). JavaScript numbers are modelled as
  `int`, and JavaScript `%` as the truncated remainder `JsMath.TruncRem`.

Where the library's design description and its code disagree, the model
follows the code:

- `size` and `isEmpty()` read `_length`, which only the constructor assigns.
  After `enqueue`, `dequeue` or `clear` they still report the number of
  initial values (`PriorityQueues.SizeScenario`).
- `aStar` loops `while (openHeap.size)` on a queue built without initial
  values, so the loop never runs. Every well-formed call returns `noPath` with
  cost 0 and path `[start]` (`Pathfinding.AStar`). The loop body is modelled
  as its own step, `Pathfinding.Search.Expand`, so its rules can be stated:
  it reads the current node with `peek`, not `dequeue`, and it skips an open
  neighbour only when that neighbour's `g` is strictly smaller than the new
  cost (not when it is equal).
- `BinarySearchTree.remove` discards `removeNode`'s result, so the root is
  never replaced. A matched node with a left child is replaced by that child,
  losing its right subtree. For an absent value, the node where the descent
  stops is removed anyway.
- `Tag.deleteValue` calls `splice` with one argument, so it truncates the
  values at the first occurrence instead of removing one element.

## Model

| member | source | states |
|---|---|---|
| `PriorityQueues.DefaultComparatorIsWeakOrder` | src/algorithms/PriorityQueue.ts:10-12 | the default comparator `a - b` says "sorts before" exactly when `a < b`, and is a strict weak order |
| `PriorityQueues.PriorityQueue.constructor` | src/algorithms/PriorityQueue.ts:31-37 | keeps the comparator, sets `_length` to the number of initial values, and leaves a copy of them sifted up index by index: heap-ordered under a strict weak order and a permutation of the input |
| `PriorityQueues.PriorityQueue.Heapify` | src/algorithms/PriorityQueue.ts:39-45 | the array becomes the result of `_bubbleUp(i)` for `i = 0 .. n-1` in turn; comparator and `_length` unchanged |
| `PriorityQueues.HeapifyMakesHeap` | src/algorithms/PriorityQueue.ts:39-45 | after sifting up the first `n` indices, those `n` slots are heap-ordered, the elements are a permutation of the input, and the slots after `n` are untouched |
| `PriorityQueues.HeapifyPermutes` | src/algorithms/PriorityQueue.ts:39-45 | construction by repeated sift-up is a permutation of the initial values, for any comparator |
| `PriorityQueues.PriorityQueue.Enqueue` | src/algorithms/PriorityQueue.ts:51-55 | the array gains exactly `value` (multiset), heap order is kept, the array is returned, `_length` and the comparator are unchanged |
| `PriorityQueues.EnqueuePreservesHeap` | src/algorithms/PriorityQueue.ts:51-55 | appending and sifting up a heap keeps heap order and adds exactly one occurrence of the value |
| `PriorityQueues.PriorityQueue.Dequeue` | src/algorithms/PriorityQueue.ts:62-70 | on an empty queue: `undefined`, data stays empty; otherwise returns the former root, which no element sorts before, removes exactly that one occurrence and keeps heap order; `_length` unchanged |
| `PriorityQueues.DequeuePreservesHeap` | src/algorithms/PriorityQueue.ts:62-70 | moving the last element to the root and sifting down keeps heap order and removes exactly one occurrence of the root |
| `PriorityQueues.DequeuedPermutes` | src/algorithms/PriorityQueue.ts:62-70 | for any comparator, dequeue's new array is the old one minus one occurrence of the root |
| `PriorityQueues.DrainSorted` | src/algorithms/PriorityQueue.ts:62-70 | dequeuing a heap until empty yields its elements, each sorting no earlier than the one before |
| `PriorityQueues.PriorityQueue.Peek` | src/algorithms/PriorityQueue.ts:75-77 | `undefined` exactly when the array is empty, otherwise `data[0]`, which on a heap no element sorts before; changes nothing |
| `PriorityQueues.RootIsMinimum` | src/algorithms/PriorityQueue.ts:75-77 | in a heap no element at any index sorts strictly before the root |
| `PriorityQueues.RootIsLeast` | src/algorithms/PriorityQueue.ts:75-77 | no element of a non-empty heap sorts strictly before its root |
| `PriorityQueues.PriorityQueue.Clear` | src/algorithms/PriorityQueue.ts:79-81 | the array becomes empty; `_length` and the comparator are unchanged |
| `PriorityQueues.PriorityQueue.BubbleUp` | src/algorithms/PriorityQueue.ts:83-95 | the swap loop leaves exactly `SiftUp(old data, pos)` |
| `PriorityQueues.SiftUpPermutes` | src/algorithms/PriorityQueue.ts:83-95 | sifting up only permutes the array and leaves the slots after `pos` untouched |
| `PriorityQueues.SiftUpRestoresHeap` | src/algorithms/PriorityQueue.ts:83-95 | if only the link from `pos` to its parent breaks heap order, sifting up restores heap order |
| `PriorityQueues.PriorityQueue.BubbleDown` | src/algorithms/PriorityQueue.ts:97-125 | the swap loop leaves exactly `SiftDown(old data, pos)` |
| `PriorityQueues.MinIndexChoice` | src/algorithms/PriorityQueue.ts:100-114 | the child `_bubbleDown` picks sorts strictly before the parent, and its sibling does not sort before it |
| `PriorityQueues.SiftDownPermutes` | src/algorithms/PriorityQueue.ts:97-125 | sifting down only permutes the array |
| `PriorityQueues.SiftDownRestoresHeap` | src/algorithms/PriorityQueue.ts:97-125 | if only the links below `pos` break heap order, sifting down restores it everywhere |
| `PriorityQueues.PriorityQueue.Iterator` | src/algorithms/PriorityQueue.ts:126-129 | a fresh iterator on this queue with count 0, holding `data[0]` |
| `PriorityQueues.QueueIterator.Next` | src/algorithms/PriorityQueue.ts:130-139 | while the count is below the live array length: yields the value read before and reads the next slot; then reports done with the count |
| `PriorityQueues.PriorityQueue.Elements` | src/algorithms/PriorityQueue.ts:126-141 | iterating the queue yields exactly the array in storage order |
| `PriorityQueues.QueueExample` | examples/queue.js:3-15 | after enqueueing 1, 2, 3, 4, iteration shows 1, 2, 3, 4, `dequeue` returns 1 and `peek` then returns 2 |
| `PriorityQueues.PriorityQueue.Size` | src/algorithms/PriorityQueue.ts:17-19 | `size` is the `_length` count, not the array's current length |
| `PriorityQueues.PriorityQueue.IsEmpty` | src/algorithms/PriorityQueue.ts:24-26 | `isEmpty()` is true exactly when `size` is 0 |
| `PriorityQueues.SizeScenario` | src/algorithms/PriorityQueue.ts:17-34 | enqueueing 4, 2, 3, 1 and dequeuing four times yields 1, 2, 3, 4, while `size` stays 0 and `isEmpty()` stays true |
| `Pathfinding.HeapComparatorOrdersByF` | src/algorithms/astar.ts:19-21 | `heapComparator` orders nodes by their current `f` and is a strict weak order |
| `Pathfinding.ReconstructPath` | src/algorithms/astar.ts:4-13 | a reconstructed path is non-empty and ends with the node's own data |
| `Pathfinding.ReconstructPathFollowsChain` | src/algorithms/astar.ts:4-13 | along a parent chain of depth `d`, the path exists, has `d + 1` entries and starts with the parentless root's data |
| `Pathfinding.DepthBelowSize` | src/algorithms/astar.ts:4-13 | a parent chain is shorter than the number of nodes, so the recursion never revisits a node |
| `Pathfinding.DefaultHash` | src/algorithms/astar.ts:15-17 | the default hash is the data's `toString()`: two data share a key exactly when their strings agree |
| `Pathfinding.PathToFollowsChain` | src/algorithms/astar.ts:4-13 | the path to a node runs from its chain's root to the node itself, with depth + 1 entries |
| `Pathfinding.ParamsError` | src/algorithms/astar.ts:39-45 | the checks pass exactly when `start`, `isEnd`, `neighbor`, `distance` and `heuristic` are given and `timeout` is not NaN; a missing `start` is reported first |
| `Pathfinding.Search.constructor` | src/algorithms/astar.ts:48-61 | the start node has `g = 0`, `h = f = heuristic(start)` and no parent, is `bestNode`, is the only heap entry and is registered under its hash; the queue's `size` is 0 |
| `Pathfinding.Search.Expand` | src/algorithms/astar.ts:64-120 | on timeout: `timeout` with `bestNode`'s cost and path, nothing changed; else the peeked node stays in the heap and leaves the open map; a goal gives `success` with its `g` and path; otherwise its hash is closed and every neighbour `nd` ends up relaxed: its hash is closed, or it is open with `g` at most the current node's `g` plus `distance(node, nd)`; `bestNode.h` does not grow |
| `Pathfinding.Search.Relax` | src/algorithms/astar.ts:85-119 | a closed neighbour is skipped; a new one gets the current node as parent, `g`, `h`, `f = g + h`, is registered and enqueued; an open one is skipped if its `g` is strictly smaller, else updated in place and not re-enqueued; `bestNode` moves only to a strictly smaller `h`; in every case open entries keep their handles, no `g` grows, and `nd` ends up relaxed |
| `Pathfinding.Search.RelaxNeighbors` | src/algorithms/astar.ts:83-119 | after the `for` loop every neighbour of the closed node is relaxed against that node's `g`; the node itself, the closed set and the heap's earlier entries are kept, and `bestNode.h` does not grow |
| `Pathfinding.Search.AddNode` | src/algorithms/astar.ts:94-118 | the new node is appended with its parent and costs, mapped under its hash, enqueued exactly once, and becomes `bestNode` when its `h` is strictly smaller |
| `Pathfinding.Search.UpdateNode` | src/algorithms/astar.ts:101-117 | the open node gets the current node as parent and new `g`, `h`, `f`; the heap and the open map are untouched |
| `Pathfinding.AddKeepsInvariant` | src/algorithms/astar.ts:94-118 | adding a node keeps the search invariant: parent chains well founded, heap entries and open entries designate real nodes, every parent is closed |
| `Pathfinding.UpdateKeepsInvariant` | src/algorithms/astar.ts:101-117 | updating an open node in place keeps the search invariant, and with an injective hash `bestNode.h` does not grow |
| `Pathfinding.CloseKeepsInvariant` | src/algorithms/astar.ts:72-82 | deleting the current hash from the open map and closing it keeps the search invariant |
| `Pathfinding.Search.Run` | src/algorithms/astar.ts:63-127 | with the queue's `size` at 0 the loop is skipped and the result is `noPath` with `bestNode`'s cost and path; any timeout or `noPath` result reports `bestNode` |
| `Pathfinding.AStar` | src/algorithms/astar.ts:38-128 | a failed parameter check is reported; otherwise the result is `noPath`, cost 0, path `[start]`, whatever the callbacks and the clock do |
| `BinarySearchTrees.BstNode.constructor` | src/algorithms/BinarySearchTree.ts:8-12 | a new node holds the value and has no children |
| `BinarySearchTrees.BinarySearchTree.constructor` | src/algorithms/BinarySearchTree.ts:22-24 | a new tree is empty |
| `BinarySearchTrees.BinarySearchTree.Insert` | src/algorithms/BinarySearchTree.ts:26-34 | the linked nodes now hold the insertion of `value` into the old tree (a new root on an empty tree), and only new nodes join the footprint |
| `BinarySearchTrees.BinarySearchTree.InsertNode` | src/algorithms/BinarySearchTree.ts:36-54 | the new node becomes a missing child at the end of the descent (smaller left, equal or larger right) |
| `BinarySearchTrees.InsertAddsOne` | src/algorithms/BinarySearchTree.ts:36-54 | insertion adds exactly one value and one node |
| `BinarySearchTrees.InsertKeepsBst` | src/algorithms/BinarySearchTree.ts:36-54 | insertion preserves left < node <= right |
| `BinarySearchTrees.BinarySearchTree.Search` | src/algorithms/BinarySearchTree.ts:56-62 | "Tree is empty" on an empty tree, otherwise a boolean, which on an ordered tree is membership |
| `BinarySearchTrees.BinarySearchTree.SearchNode` | src/algorithms/BinarySearchTree.ts:64-83 | the pointer descent answers as the search on the subtree's value |
| `BinarySearchTrees.SearchFindsMembers` | src/algorithms/BinarySearchTree.ts:64-83 | on an ordered tree the search is true exactly when the value occurs |
| `BinarySearchTrees.BinarySearchTree.FindMinNode` | src/algorithms/BinarySearchTree.ts:127-133 | returns the leftmost node of the subtree, which has no left child; on an ordered tree its value is the least |
| `BinarySearchTrees.MinIsLeast` | src/algorithms/BinarySearchTree.ts:127-133 | the leftmost value of an ordered tree is present and no value is smaller |
| `BinarySearchTrees.BinarySearchTree.Remove` | src/algorithms/BinarySearchTree.ts:85-91 | an empty tree is unchanged; otherwise only the changes below the root take effect |
| `BinarySearchTrees.BinarySearchTree.RemoveNode` | src/algorithms/BinarySearchTree.ts:93-125 | returns the replacement subtree and relinks the child in place on a descent |
| `BinarySearchTrees.RemoveAtRootIsNoOp` | src/algorithms/BinarySearchTree.ts:85-91 | when the descent stops at the root (for example, removing the root's own value) the tree is unchanged |
| `BinarySearchTrees.LeftChildWins` | src/algorithms/BinarySearchTree.ts:105-123 | a matched node with a left child is replaced by it, losing the node's value and its whole right subtree |
| `BinarySearchTrees.AbsentValueRemovesNode` | src/algorithms/BinarySearchTree.ts:95-104 | removing a value absent from an ordered tree still takes out at least one value |
| `BinarySearchTrees.RemoveNodeShrinks` | src/algorithms/BinarySearchTree.ts:93-125 | `removeNode` always returns a tree with fewer nodes |
| `BinarySearchTrees.RemoveNodeKeepsBst` | src/algorithms/BinarySearchTree.ts:93-125 | the result of `removeNode` holds no new value and is ordered |
| `BinarySearchTrees.RemoveKeepsBst` | src/algorithms/BinarySearchTree.ts:85-125 | `remove` keeps the ordering and never adds a value |
| `BinarySearchTrees.RemoveExample` | src/algorithms/BinarySearchTree.ts:85-123 | in the tree 5 with 1 on its left, removing the absent 3 removes 1, and removing 5 leaves 5 |
| `Sorting.Merge` | src/sorting.ts:1-17 | the result is the stable merge of the two inputs, and both inputs end up empty |
| `Sorting.MergedPermutation` | src/sorting.ts:1-17 | the merge holds exactly the elements of both inputs |
| `Sorting.MergedSorted` | src/sorting.ts:1-17 | merging two ascending arrays gives an ascending array |
| `Sorting.MergedKeepsOrder` | src/sorting.ts:4-14 | the elements taken from each side appear in that side's order |
| `Sorting.MergedStable` | src/sorting.ts:5 | on ties the left element goes first: an element taken from the right is strictly smaller than every later one taken from the left |
| `Sorting.MergeSortArray` | src/sorting.ts:19-27 | returns the argument itself below two elements, otherwise a fresh array; the argument is never changed |
| `Sorting.MergeSortCorrect` | src/sorting.ts:19-27 | `mergeSort` returns an ascending permutation of its input |
| `Sorting.MergeSortSorted` | src/sorting.ts:19-27 | `mergeSort` returns an ascending array, by induction on the two halves |
| `Sorting.MergeSortPermutes` | src/sorting.ts:19-27 | `mergeSort` returns exactly the elements of its input |
| `Sorting.SortedPermutationUnique` | src/sorting.ts:19-27 | an ascending permutation is unique, so `mergeSort` agrees with any correct sort |
| `Sorting.MergeSortOfSorted` | src/sorting.ts:19-27 | an ascending array is returned unchanged |
| `Misc.CapWordsAt` | src/misc.ts:4-5 | exactly the `a`-`z` letters at a word boundary are upper-cased; every other character is kept |
| `Misc.CapWordsIdempotent` | src/misc.ts:4-5 | capitalising words twice is the same as once |
| `Misc.Cap` | src/misc.ts:14-16 | throws exactly on the empty string; otherwise same length, the first character is `s[0]` upper-cased, and each later character is `s[i]` lower-cased when the flag is set and `s[i]` itself otherwise |
| `Misc.CapIdempotent` | src/misc.ts:14-16 | applying `cap` again with the same flag changes nothing |
| `Misc.CeilDivIsCeiling` | src/misc.ts:22 | the chunk count is the ceiling of length / size |
| `Misc.Chunk` | src/misc.ts:21-24 | a positive size gives `ceil(length / size)` chunks; a negative one, none |
| `Misc.ChunkFlatten` | src/misc.ts:21-24 | concatenating the chunks gives back the array |
| `Misc.ChunkSizes` | src/misc.ts:21-24 | every chunk but the last has `size` elements, the last between 1 and `size` |
| `JsMath.Clamp` | src/math/index.ts:7-8 | `min` below `min`, `max` above `max`, `x` between them |
| `JsMath.ClampInRange` | src/math/index.ts:7-8 | with ordered bounds the result lies between them and clamping is idempotent |
| `JsMath.ClampCrossedBounds` | src/math/index.ts:7-8 | with crossed bounds clamping is not idempotent |
| `JsMath.Sign` | src/math/index.ts:10 | 1, -1 or 0 exactly as `n` is positive, negative or zero |
| `JsMath.SignMultiplies` | src/math/index.ts:10 | `sign(a) * a = abs(a)` and `sign` is multiplicative |
| `JsMath.TruncRem` | src/math/index.ts:19 | JavaScript `%`: smaller than the divisor in magnitude, sign of the numerator, and congruent to it |
| `JsMath.EuclideanMod` | src/math/index.ts:15-21 | NaN exactly for a zero denominator |
| `JsMath.EuclideanModPositive` | src/math/index.ts:15-21 | for `d > 0` the result is the mathematical remainder, in `[0, d)` |
| `JsMath.EuclideanModCongruent` | src/math/index.ts:15-21 | for any non-zero `d`, `euclideanMod(n, d) - n` is a multiple of `d` |
| `JsMath.EuclideanModSamples` | src/math/index.ts:15-21 | with a negative denominator the result can be negative (`euclideanMod(-1, -3) = -4`) |
| `Datapack.KeepAllowedChanges` | src/datapack.js:15-16 | deleting the disallowed characters changes a string exactly when it holds one |
| `Datapack.IllegalCharsMeaning` | src/datapack.js:15-16 | `hasIllegalChars` holds iff some character is outside `[0-9a-z_\-.]`; `hasIllegalCharsSlash` also allows `/` |
| `Datapack.SplitJoin` | src/datapack.js:18 | splitting on the two-bar separator and joining again gives the input back, with one part more than there are two-bar separators, no part holding two-bar separators and the cuts leftmost |
| `Datapack.ItemArrayFromString` | src/datapack.js:17-18 | one ingredient per separator-delimited part |
| `Datapack.ItemArrayRoundTrip` | src/datapack.js:17-18 | one more ingredient than there are two-bar separators; writing each back (`#` before a tag) and joining recovers the input |
| `Datapack.InsertLayout` | src/datapack.js:28-40 | the splices of one case insert a line break and `n` tabs at `p` |
| `Datapack.SpliceAt` | src/datapack.js:23-42 | one pass of the switch: after `{`, `[` and `,` a line break and the depth in tabs go in after the character; before `}` and `]`, a line break and the reduced depth in tabs, and the index jumps over them |
| `Datapack.JsonBeautify` | src/datapack.js:19-45 | the splicing loop yields exactly the layout `Pretty` of the input |
| `Datapack.PrettyStrips` | src/datapack.js:19-45 | deleting every line break and tab from the layout recovers an input that had none |
| `Datapack.ParseTagType` | src/datapack.js:287-289 | a type is accepted exactly when it is `block`, `item` or `function` |
| `Datapack.NewTag` | src/datapack.js:280-293 | an illegal path is refused first, then an unknown type; otherwise the tag has the path and type, and `values` defaults to a new empty array |
| `Datapack.Tag.AddValue` | src/datapack.js:307-309 | the values gain exactly one element at the end |
| `Datapack.IndexOf` | src/datapack.js:315-316 | `indexOf`: the first index of the value, or -1 exactly when absent |
| `Datapack.PrefixBefore` | src/datapack.js:314-318 | the values before the first occurrence, or all of them when absent; never holds the value |
| `Datapack.Tag.DeleteValue` | src/datapack.js:314-318 | the values are truncated to the prefix before the first occurrence |
| `Datapack.Tag.Copy` | src/datapack.js:324-328 | a fresh tag with the same path and type, sharing the same values array |
| `Datapack.Namespace.constructor` | src/datapack.js:143-164 | all five dictionaries start empty |
| `Datapack.NewNamespace` | src/datapack.js:143-164 | illegal characters are refused first, then the name `minecraft`; otherwise a namespace with five empty dictionaries |
| `Datapack.Namespace.AddTag` | src/datapack.js:189-197 | a path already in that type's dictionary is refused with nothing changed; otherwise a copy is stored under the path and returned, and the other dictionaries are unchanged |
| `Datapack.SharedValuesExample` | src/datapack.js:189-197 | a tag stored by `addTag` shares its values with the original: a value added to the original is seen through the copy |

## Left out

- Vector, matrix, tensor and cuboid code, the Java source generators, the UI
  and the transpiler stub: floating-point numerics or text emission.
- The `Datapack` class, `compile` methods and `mkdirIfNotExist`: file output.
- `Namespace.copy` and the other reflective copy helpers, `deleteTag` (reads a
  property that does not exist), recipes and loot tables: object-literal
  building and key reflection. The `recipes` and `lootTables` dictionaries are
  only kept as fields that `addTag` leaves unchanged.
- `atob`, `dayOfYear`, `avg` and `dist`: Node buffers, dates and float division.
- JavaScript numbers are `int`: NaN, infinities, `-0` and fractional values
  are not modelled, so the `|| 0` in `merge` (which only matters for NaN) is
  left out.
- Case conversion covers ASCII letters only.
- `JSON.stringify` is not modelled: `Datapack.JsonBeautify` takes the text it
  would produce.
- Datapack.JsonBeautify: requires the bracket depth never to go negative. On
  such an input the source loop never terminates, because it keeps inserting
  a line break before the same closing bracket.
- Misc.Chunk: requires a non-zero size for a non-empty array. With size 0 the
  source throws a `RangeError` (an array of length `Infinity`); that error
  path is not modelled.
- PriorityQueues.PriorityQueue.Enqueue: returns the array's contents as a
  value. The source returns the live backing array, so a caller could mutate
  the queue through it; that aliasing is not modelled.
- PriorityQueues.PriorityQueue.constructor: heap order is proved only for
  comparators that are strict weak orders. For any other comparator only the
  permutation and the exact sift steps are stated.
- Sorting.Merge: requires two distinct arrays. The source is never called
  with one array as both arguments.
- Pathfinding.Search.Run: the number of loop iterations is bounded by a
  `budget`. The source loop runs until the clock or the queue stops it, and
  since the current node is only peeked, a non-empty `size` would make it
  spin until the timeout. As written, `size` is always 0 and the loop is
  never entered.
- Pathfinding.ReconstructPath: recursion is bounded by a fuel equal to the
  number of nodes. The source recursion is unbounded (a cyclic chain would
  overflow the stack); `Pathfinding.PathToFollowsChain` shows the fuel always
  suffices for the chains the search builds.
- Pathfinding.Search.UpdateNode: `bestNode.h` is proved not to grow only for
  an injective `hash`. With colliding hashes the source can update a node
  holding other data, and its `h` can then grow.
- Datapack.Namespace.AddTag: the five tag dictionaries are plain objects in
  the source and maps here. The path `__proto__` is not modelled: there
  `hasOwnProperty` never finds it and the assignment replaces the object's
  prototype instead of storing an entry, so a second add under that path is
  not refused; the map model refuses it like any other repeated path.
- Callbacks that throw, and the wall clock itself, are not modelled: the
  clock is the `elapsed` oracle.
- The A* optimality, no-path and timeout behaviours of a working search are
  not stated, because the search as written never runs its loop.
