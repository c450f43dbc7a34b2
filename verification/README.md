# KD tree and circular array queue of the 3-D bomb game

This project models two data structures of the game.

- **The 3-D KD tree (`KD_Tree`).** It indexes the targets so that the game can ask which targets lie within a radius of an exploding bomb.
  - The constructor copies the targets into three arrays and sorts them by x, by y and by z.
  - It builds the tree recursively over index ranges `[start, end)`. The target in the median slot of the active axis's array becomes the node. The next axis's array is then rewritten around that node, through a scratch buffer, before both halves are built on the next axis (x, then y, then z, then x again).
  - `neighbors` walks the tree comparing squared distances with the squared radius.
- **The circular array queue (`ArrayQueue`).**
  - Its buffer has a power-of-two capacity.
  - The cursors `front` and `back` wrap lazily.
  - The buffer doubles when an element arrives at a full queue. It halves when a dequeue finds it at most a quarter full.

## Modelling choices

- A target is named by its index in the sequence of points handed to the constructor. The three `TargetsSortedBy*` arrays are arrays of such ids.
  - The source compares targets by reference. Comparing ids is the same test as long as the list handed to the constructor holds each `Target` object once, which is how the game fills it (src/game/Game.java:126 adds a new object per target).
  - Coordinates are integers, so squared distances are exact.
- The library sort `Arrays.sort` with a comparator is stable. It is modelled by a stable insertion sort (`Sorting.SortBy`). Three facts are proved about it: its result is sorted, it is a permutation, and entries with equal keys keep their order. Together these pin down the one answer a stable sort gives.
- The build is stated twice.
  - **As functions on sequences** (`KdBuild.Build`, with one axis parameter in place of `buildTreeX/Y/Z`).
  - **As methods of the class `KdTrees.KdTree`.** These rewrite its three arrays in place, using the same three loops as the source. Each method is proved to leave exactly the arrays and tree the functions describe.
- When the node occurs k ≥ 2 times in the next array's range, the two filling loops skip every copy and leave only `end - start - k` entries in the scratch buffer. The copy-back loop still reads one entry for every slot but the median (which it fills with the node itself), so its last k - 1 reads fall on unfilled (`null`) buffer entries and write `null` into the last such slots of the range; in a two-slot range that is the slot `start`. The model proves this never happens:
  - every range the build touches stays free of duplicate targets (`TargetOrders.RangesNoDup`);
  - the initial sorted arrays each hold every target exactly once (`KdBuild.InitialReady`).
- The build faithfully rewrites only one of the two other arrays per level. For example, `buildTreeX` rewrites the y array but not the z array. Below depth one, the ranges of the three arrays therefore no longer hold the same targets.
  - Example: the targets (0,0,3), (1,1,2), (2,2,1), (3,3,0) give a tree that holds the last target twice and misses the first.
  - The model therefore proves shape properties of the tree: size, balance, axis rotation and that every node is a target. It does not prove that the tree holds every target, or that it is ordered.

## Model

| member | source | states |
|---|---|---|
| Geometry.Next | src/game/KD_Tree.java:138-139 | the axis tag goes x to y to z to x from one level to the next |
| Geometry.Compare | src/game/KD_Tree.java:385-410 | the comparator is negative, zero or positive exactly as the first target's coordinate on the axis is below, equal to or above the second's |
| Geometry.CompareIsConsistent | src/game/KD_Tree.java:385-410 | the comparator is antisymmetric and its "not greater" relation is transitive, as a library sort requires |
| Geometry.AxisSqDistBound | src/game/KD_Tree.java:276-280 | the squared distance along one axis is non-negative and at most the full squared distance |
| Sorting.SortBy | src/game/KD_Tree.java:77-79 | the sorted array is a permutation of the input and names only targets |
| Sorting.SortBySorted | src/game/KD_Tree.java:77-79 | the sorted array is nondecreasing on the comparator's axis |
| Sorting.SortByStable | src/game/KD_Tree.java:77-79 | for every coordinate value, the entries carrying it keep their input order (stability) |
| Sorting.InsertSorted | src/game/KD_Tree.java:77-79 | inserting after all entries that do not compare greater keeps a sorted array sorted |
| Sorting.InsertStable | src/game/KD_Tree.java:77-79 | that insertion puts the new entry after every entry with an equal key |
| Partition.Below | src/game/KD_Tree.java:103-112 | the first loop's output is no longer than the range |
| Partition.Above | src/game/KD_Tree.java:114-119 | the second loop's output is no longer than the range |
| Partition.SplitCounts | src/game/KD_Tree.java:103-119 | the two loops together copy every entry of the range except the node, each as often as it occurs |
| Partition.SplitLength | src/game/KD_Tree.java:103-119 | the two loops together copy as many entries as the range holds, less the copies of the node |
| Partition.AbovePrefix | src/game/KD_Tree.java:114-119 | what the second loop has copied after part of the range is a prefix of what it copies over the whole range, so the buffer always has room |
| Partition.Split | src/game/KD_Tree.java:103-119 | the scratch buffer's fill is the range's length less the copies of the node |
| Partition.SplitFacts | src/game/KD_Tree.java:103-119 | the scratch buffer holds every entry of the range except the node |
| Partition.Repartition | src/game/KD_Tree.java:121-135 | the rewritten array has the same length as before |
| Partition.RepartitionLayout | src/game/KD_Tree.java:121-135 | the rewrite changes no slot outside `[start, end)` and puts the node in the median slot |
| Partition.RepartitionMiddle | src/game/KD_Tree.java:121-135 | inside the range the slots hold the entries at most the node (not the node itself) in order, then the node, then the greater entries in order, cut to the range's size |
| Partition.RepartitionIsPlace | src/game/KD_Tree.java:121-135 | the rewrite is the copy-back loop applied to the first `end - start - 1` entries of the scratch buffer |
| Partition.RepartitionIds | src/game/KD_Tree.java:104-134 | every slot of the rewritten array still names a target |
| Partition.RepartitionPermutes | src/game/KD_Tree.java:104-134 | if the node occurs exactly once in the range, the rewritten range is a permutation of the old one |
| Partition.RepartitionNoDup | src/game/KD_Tree.java:107-110 | a range without duplicates holds the node at most once, so every buffer entry the copy-back loop reads has been filled, and it stays without duplicates |
| Partition.RepartitionNewNode | src/game/KD_Tree.java:104-134 | if the node is absent from a duplicate-free range, the rewritten range is still duplicate-free |
| Partition.PlacedNew | src/game/KD_Tree.java:121-135 | putting the node among a prefix of the buffer holds that prefix plus the node |
| Partition.NoDupPermutation | src/game/KD_Tree.java:104-134 | a permutation of a duplicate-free range is duplicate-free |
| Duplicates.DistinctInNoDup | src/game/KD_Tree.java:107 | slots of a range that pairwise name different targets hold each target at most once |
| Duplicates.NoDupDistinctIn | src/game/KD_Tree.java:107 | a range holding each target at most once has slots that pairwise name different targets |
| TargetOrders.Orders.With | src/game/KD_Tree.java:122-135 | replacing one array changes that array and leaves the other two unchanged |
| TargetOrders.RangesNoDupUnchanged | src/game/KD_Tree.java:138-139 | a range lying beyond the slots a build rewrote keeps its freedom from duplicates, so the right half is still duplicate-free after the left half is built |
| KdBuild.PreOrder | src/game/KD_Tree.java:357-365 | the pre-order list of a tree has one entry per node |
| KdBuild.Median | src/game/KD_Tree.java:92 | the median slot lies in `[start, end)` |
| KdBuild.Step | src/game/KD_Tree.java:97-135 | the partition step leaves three arrays of the right length naming targets |
| KdBuild.StepIs | src/game/KD_Tree.java:97-135 | the step replaces only the next axis's array, by its rewrite around the node |
| KdBuild.StepKeepsRanges | src/game/KD_Tree.java:97-135 | the step changes no slot outside the range and leaves both child ranges duplicate-free |
| KdBuild.Build | src/game/KD_Tree.java:85-142 | the tree built over `[start, end)` has `end - start` nodes, axis tags rotating from the starting axis, left and right sizes within one of each other, and only targets as nodes; no array slot outside the range changes |
| KdBuild.BuildNode | src/game/KD_Tree.java:91-141 | the same for a non-empty range |
| KdBuild.BuildChildren | src/game/KD_Tree.java:138-139 | the left subtree has `median - start` nodes and the right one `end - median - 1`, both on the next axis |
| KdBuild.BuildRoot | src/game/KD_Tree.java:87-95 | an empty range builds no node; a non-empty one builds a node on the active axis holding the active array's median entry, with `median - start` nodes on its left and `end - median - 1` on its right |
| KdBuild.NodeIs | src/game/KD_Tree.java:91-141 | a non-empty build is one step, then both children built over the arrays the step leaves |
| KdBuild.ChildrenAre | src/game/KD_Tree.java:138-139 | the left build followed by the right build on the arrays the left one leaves is the children pair |
| KdBuild.Ids | src/game/KD_Tree.java:69-74 | the copied array has one slot per target, slot `i` naming target `i` |
| KdBuild.IdsOnce | src/game/KD_Tree.java:69-74 | every target occurs exactly once in the copied array |
| KdBuild.SortedIdsDistinct | src/game/KD_Tree.java:69-79 | each sorted copy holds every target exactly once |
| KdBuild.Initial | src/game/KD_Tree.java:63-79 | the three sorted arrays have one slot per target and name only targets |
| KdBuild.InitialReady | src/game/KD_Tree.java:69-79 | the whole range of each sorted array is duplicate-free, so the build may start on it |
| KdBuild.Built | src/game/KD_Tree.java:61-82 | the constructor's tree has one node per target, starts on the x axis, is balanced and names only targets |
| KdTrees.SortArray | src/game/KD_Tree.java:77-79 | sorting an array in place leaves the stable sort of its old contents |
| KdTrees.CollectBelow | src/game/KD_Tree.java:103-112 | the first loop fills the buffer's prefix with exactly the entries at most the node on the axis, minus the node, in array order |
| KdTrees.CollectAbove | src/game/KD_Tree.java:114-119 | the second loop appends exactly the greater entries, in array order, and leaves the filled prefix alone |
| KdTrees.CopyBack | src/game/KD_Tree.java:121-135 | the copy-back loop places the buffer's entries around the node and changes no slot outside the range |
| KdTrees.PartitionNext | src/game/KD_Tree.java:97-135 | the three loops rewrite the next axis's array to exactly its repartition around the node |
| KdTrees.CopyTargets | src/game/KD_Tree.java:63-74 | the copy loop fills three new distinct arrays with the targets in list order |
| KdTrees.SortedTargets | src/game/KD_Tree.java:63-79 | copying and sorting gives exactly the three initial arrays, in new distinct arrays |
| KdTrees.KdTree.constructor | src/game/KD_Tree.java:61-82 | the new tree's root and arrays are exactly what the build makes of the targets |
| KdTrees.KdTree.ArrayOn | src/game/KD_Tree.java:95 | the active array for an axis is one of the three fields |
| KdTrees.KdTree.Partition | src/game/KD_Tree.java:97-135 | the in-place step on the fields leaves exactly the step's arrays |
| KdTrees.KdTree.BuildTree | src/game/KD_Tree.java:85-261 | each of `buildTreeX`, `buildTreeY` and `buildTreeZ` returns exactly the tree, and leaves exactly the arrays, that the build function gives |
| KdTrees.KdTree.BuildChildren | src/game/KD_Tree.java:138-139 | the two recursive calls return exactly the children pair of the build function |
| KdTrees.KdTree.Neighbors | src/game/KD_Tree.java:263-266 | the query from the root reports only targets strictly inside the radius, as a subsequence of the tree's pre-order list |
| RadiusSearch.Search | src/game/KD_Tree.java:270-309 | every reported target is strictly inside the squared radius |
| RadiusSearch.SearchIsSubseq | src/game/KD_Tree.java:283-305 | the search reports a subsequence of what a brute-force scan of the subtree's pre-order list finds |
| RadiusSearch.SearchOutsideRadius | src/game/KD_Tree.java:293-308 | for a node outside the radius: the search reports nothing when the split-axis distance is not below the radius, and otherwise exactly the left child's result if the probe is strictly below the node on that axis, the right child's if not |
| RadiusSearch.InRadiusNode | src/game/KD_Tree.java:283-291 | the brute-force scan of a subtree is the node if inside, then the left subtree's hits, then the right's |
| RadiusSearch.MissAtRoot | src/game/KD_Tree.java:293-308 | a root outside the radius and at least the radius away on its axis, with the probe on the right and the right leaf inside, makes the search return nothing while the scan finds the leaf |
| RadiusSearch.SearchMissesTarget | src/game/KD_Tree.java:293-308 | for the three targets 50 apart on the x axis, probe (100,0,0) and squared radius 4, the search returns nothing while the scan and the corrected search return the third target |
| ThreeTargets.ThreeTreeBuilt | src/game/KD_Tree.java:61-142 | the constructor, given the three targets 50 apart on the x axis, builds exactly the tree the counterexample searches: the middle target at the root on x, the other two as leaves on y |
| KdBuild.BuildLeaf | src/game/KD_Tree.java:87-141 | a one-slot range builds a leaf on the active axis holding the active array's entry |
| KdBuild.BuildOfThree | src/game/KD_Tree.java:87-141 | a three-slot range whose step leaves the arrays unchanged builds the active array's middle entry with the next array's first and last entries as leaves |
| RadiusSearch.ThreeTreeOrdered | src/game/KD_Tree.java:293-308 | that example tree is ordered on its split axes, so the miss is not caused by a disordered tree |
| RadiusSearch.CompleteSearchIsExact | src/game/KD_Tree.java:293-308 | on an ordered tree, the corrected search finds exactly the brute-force scan's hits, in pre-order |
| ArrayQueues.Wrap | src/queue/ArrayQueue.java:44-45 | a lazily wrapped cursor lands inside the buffer |
| ArrayQueues.DoublePow2 | src/queue/ArrayQueue.java:78 | doubling a power-of-two capacity gives a power of two |
| ArrayQueues.HalfPow2 | src/queue/ArrayQueue.java:103 | halving a power-of-two capacity of at least 2 gives a power of two, exactly half |
| ArrayQueues.CircularPush | src/queue/ArrayQueue.java:44-47 | writing the back slot of a queue that is not full appends to the contents |
| ArrayQueues.CircularPop | src/queue/ArrayQueue.java:61-68 | after the lazy wrap the front slot holds the oldest element, and the rest start one slot on |
| ArrayQueues.CircularFromStart | src/queue/ArrayQueue.java:89-93 | contents copied to the start of a buffer read back unchanged from slot 0 |
| ArrayQueues.ArrayQueue.constructor | src/queue/ArrayQueue.java:25-34 | a new queue is empty, with capacity 1 and both cursors at 0 |
| ArrayQueues.ArrayQueue.IsEmpty | src/queue/ArrayQueue.java:140-145 | true exactly when the contents are empty |
| ArrayQueues.ArrayQueue.CopyInto | src/queue/ArrayQueue.java:81-87 | the resize copy loop lays the contents out in order at the start of the new buffer |
| ArrayQueues.ArrayQueue.DoubleSize | src/queue/ArrayQueue.java:75-94 | the capacity doubles, the contents and size are unchanged, front is 0 and back is size, and the invariant holds |
| ArrayQueues.ArrayQueue.HalfSize | src/queue/ArrayQueue.java:100-119 | the capacity halves, the contents and size are unchanged and still fit in half the new capacity, front is 0 and back is size |
| ArrayQueues.ArrayQueue.Enqueue | src/queue/ArrayQueue.java:37-51 | the contents gain the element at the back and size grows by one; a full queue first doubles its buffer, any other keeps it |
| ArrayQueues.ArrayQueue.Dequeue | src/queue/ArrayQueue.java:54-69 | the oldest element is returned, the contents lose it and size drops by one; a queue at most a quarter full first halves its buffer, any other keeps it |
| ArrayQueues.Enqueued | src/queue/ArrayQueue.java:37-51 | the list of values a run enqueues, in order; its only contract is the length bound of one value per operation, and its meaning is fixed by the two lemmas below |
| ArrayQueues.EnqueuedAppend | src/queue/ArrayQueue.java:37-51 | a run split in two enqueues what its first part enqueues followed by what its second part enqueues |
| ArrayQueues.Fifo | src/queue/ArrayQueue.java:47-68 | first in, first out: the values a run dequeues, followed by what it leaves, are the initial contents followed by the values it enqueued |
| ArrayQueues.Replay | src/queue/ArrayQueue.java:37-69 | driving a live queue with any run that never dequeues an empty queue dequeues and leaves exactly what the first-in first-out run does, and keeps the invariant; what it dequeued followed by what the queue still holds is the old contents followed by every value it enqueued |

## Left out

- The game itself (`Game.java`): rendering, the applet life cycle and its update thread, key handling, random placement of targets and the floating-point physics. Its collision test is only a caller of `neighbors`.
- Floating point: coordinates, squared distances and the squared radius are integers. NaN, infinities and rounding are not modelled.
- `KD_Tree.iterativeLevelOrder` and `KD_Tree.preOrder`: console diagnostics. The pre-order list is used only to state results (`KdBuild.PreOrder`). Note that `iterativeLevelOrder` reads a node's point before checking the node for null.
- `ArrayQueue.print` and `ArrayQueue.resetArraySize`. The first is console output. The second is a test helper that drops the stored elements and breaks the power-of-two capacity.
- `TreeNode` is the `Tree` datatype, not a mutable object. The source never changes a node after its two children are set.
- KdTrees.SortArray: the internals of the library sort are not modelled. The sort is taken to be stable, as the library's object sort is. The sorted array is written back in one step.
- KdTrees.KdTree.BuildTree: requires every range it builds to be free of duplicate targets. The build keeps this true from the constructor on, so a call from the constructor always meets it. When it fails, the copy-back loop of `buildTreeX/Y/Z` copies unfilled (`null`) buffer entries into the last slots of the range; that case is not modelled.
- KdTrees.PartitionNext: requires the node to occur at most once in the range, for the same reason.
- ArrayQueues.ArrayQueue.Dequeue: requires a non-empty queue. The source does not check. On an empty queue the size goes to -1, and at capacity 1 the halving makes a zero-length buffer that the read then overruns.
- Integer overflow of `size`, `front`, `back` and the doubled capacity is not modelled. Java `int` arithmetic would wrap past 2^31 - 1 elements.
- The tree is not proved to hold every target, nor to be ordered on its split axes. Both claims are false for the source as written (see the example above).

## Findings

| source | as written | input that shows it | evidently intended | confidence | as-written member | corrected member |
|---|---|---|---|---|---|---|
| src/game/KD_Tree.java:293-308 | at a node outside the radius, the search visits only the child on the probe's side when the split-axis distance is below the radius, and stops when it is not | targets (0,0,0), (50,0,0), (100,0,0); probe (100,0,0); squared radius 4: `neighbors` returns nothing, although the third target is at distance 0 (the constructor builds the searched tree, `ThreeTargets.ThreeTreeBuilt`) | always search the probe's side and also the far side when the split-axis distance is below the radius, reporting every target inside the radius | not executed | RadiusSearch.SearchMissesTarget | RadiusSearch.CompleteSearchIsExact |
