# DrawTree: weighted sampling without replacement, in Dafny

`DrawTree` draws a batch of distinct item indices. Each draw picks an item
with probability proportional to its weight among the items not yet drawn
in the batch.

It keeps one array `nodes` that holds an implicit binary sum tree:
- the root is node 1, the children of v are 2v and 2v+1, and its parent is v/2;
- the leaf slots start at `firstLeaf = 2^depth`, the least power of two that holds all items;
- leaf `firstLeaf + i` holds the weight of item i, and leaves past the items hold 0;
- every internal node holds the sum of its two children.

A draw rolls a number in `[1, nodes[root]]` and walks down `depth` levels to
a leaf. It then subtracts the chosen item's weight along that leaf's path to
the root, so the item cannot come out again. When the batch is complete,
every chosen item's weight is added back.

The project has five modules, one per file:

- `Shape` (`shape.dfy`): the shape arithmetic. This covers `floorLog2`,
  `getDepth`, `getNumNodes`, the child and parent helpers, and the
  "k is on v's path to the root" relation that `bubble` walks.
- `Sampling` (`sampling.dfy`): the specification of a draw, independent of
  any tree. It holds:
  - `Sum` of a row of weights;
  - `Select`, the index a roll selects by the inverse cumulative distribution, with ties going to the lower index;
  - the leaf row for a set of withdrawn items;
  - the set of items that can still be drawn;
  - `Draws`, what a whole batch returns.
- `SumTree` (`sum_tree.dfy`): facts about a sum tree laid out in a sequence:
  - every node holds the sum of the leaf slots below it;
  - the weighted descent finds `Select`'s index;
  - a shift along one path keeps the sums;
  - a sum tree is determined by its leaf row.
- `Draw` (`draw_tree.dfy`): the class `DrawTree`. Its `nodes` array and
  constant fields match the source. It has the constructor, `FillWeights`,
  `Search`, `Bubble`, `Toggle` and `Get`. Get's two loops are the helper
  methods `DrawBatch` and `ReinstateBatch`, and one pass of the first loop is
  `DrawAndWithdraw`.
  - A ghost set `withdrawn` records the items whose weight is currently out
    of the tree.
  - The object invariant `Valid` ties the leaf row to the weights of the
    items that are not withdrawn.
- `TreeTest` (`tree_test.dfy`): the distinctness test of the repository's
  tree test (`test(n)` and `validate`). It is proved to succeed for every n >= 1.

The random number generator is not modelled, because it is I/O:
- `Search` takes the roll as a parameter, with `1 <= roll <= nodes[root]`.
- `Get` takes one natural number per draw (`entropy`). Draw j uses the roll
  `1 + entropy[j] % total`, where `total` is the weight still in the tree.
  This stands in for `uniform_int_distribution(1, nodes[root])`.

Every property below holds for every choice of these numbers.

A batch can only draw items of positive weight: once the active total is 0,
the roll range `[1, nodes[root]]` of source/drawtree.hpp:64 is empty. So
`get` needs `count` to be at most the number of positive-weight items that
are not withdrawn, and `Get` requires exactly that. The repository's test
respects this bound: over the weights 0 .. n-1 it draws n-1 items.

## Model

| member | source | states |
|---|---|---|
| Shape.FloorLog2 | source/drawtree.hpp:31-33 | for x >= 1 the result r brackets x: 2^r <= x < 2^(r+1), i.e. r is the floor of log2 x |
| Shape.FloorLog2Unique | source/drawtree.hpp:31-33 | any r with 2^r <= x < 2^(r+1) equals FloorLog2(x), so the result is exactly the floor of log2 x |
| Shape.GetDepth | source/drawtree.hpp:35-37 | x <= 2^d, and 2^(d-1) < x when d > 0 (so the depth is 0 for x == 1) |
| Shape.DepthIsLeast | source/drawtree.hpp:35-37 | every d with x <= 2^d is at least GetDepth(x): the depth is the least one whose leaf row holds x items |
| Shape.LeafSlotsBound | source/drawtree.hpp:35-41 | the leaf row of depth GetDepth(x) has at least x and fewer than 2x slots |
| Shape.GetNumNodes | source/drawtree.hpp:39-41 | the node count is even, half of it is 2^depth, and it lies in [2N, 4N) |
| Shape.NumNodesIsPow2 | source/drawtree.hpp:39-41 | the node count is a power of two |
| Shape.LeftChild | source/drawtree.hpp:43-45 | the parent of the left child of v is v, and the left child is even |
| Shape.RightChild | source/drawtree.hpp:47-49 | the parent of the right child of v is v, and the right child is the left child plus one |
| Shape.Parent | source/drawtree.hpp:51-53 | a node is twice its parent or twice its parent plus one |
| Shape.OneChildOnPath | source/drawtree.hpp:89-94 | below a node on a leaf's path to the root, exactly one of its two children is on that path |
| Shape.DistinctLeavesUnrelated | source/drawtree.hpp:83-94 | a leaf is not on another leaf's path, so a path update touches no other leaf |
| Draw.DrawTree.constructor | source/drawtree.hpp:98-114 | the new tree satisfies the object invariant with nothing withdrawn. The sizes are `nodes.Length == getNumNodes(N) + 1` and `firstLeaf == 2^depth`. The leaf row is the weights followed by zero padding, and the root holds the sum of all weights |
| Draw.DrawTree.FillWeights | source/drawtree.hpp:55-59 | afterwards every internal node holds the sum of its two children, and the leaf slots and slot 0 are unchanged |
| SumTree.FilledTree | source/drawtree.hpp:104-114 | after the build the leaf row is the weights padded with zeros, the unused slots hold 0, and the root holds the sum of the weights |
| SumTree.SubtreeSum | source/drawtree.hpp:55-59 | in a sum tree each node holds the sum of the 2^h leaf slots of its subtree |
| SumTree.RootIsLeafTotal | source/drawtree.hpp:62-65 | the root holds the total of the leaf row, so the roll's range is the total active weight |
| Draw.DrawTree.RootIsTotal | source/drawtree.hpp:62-65 | under the object invariant the root holds the total weight of the items not withdrawn |
| Sampling.Select | source/drawtree.hpp:62-81 | the reference for the descent: the index j whose slot (prefix sum before j, prefix sum through j] holds the roll |
| Sampling.SelectUnique | source/drawtree.hpp:66-80 | the slot condition determines the selected index |
| Sampling.SelectAtBoundary | source/drawtree.hpp:69-74 | ties go left: a roll equal to the prefix sum through a positive weight selects that weight's index |
| Sampling.SelectPositive | source/drawtree.hpp:62-81 | a roll never selects a zero weight, so padding and zero-weight items are unreachable |
| Draw.DrawTree.Search | source/drawtree.hpp:62-81 | on any sum tree, after `depth` steps the node is a leaf in [firstLeaf, 2*firstLeaf). Its offset is Select(leaf row, roll) and its weight is positive |
| SumTree.DescendStep | source/drawtree.hpp:66-79 | one level of the descent, left when the roll is at most the left child's weight and otherwise right with that weight subtracted, keeps the descent invariant |
| SumTree.DescentEnd | source/drawtree.hpp:80 | when the descent reaches the leaf level, the leaf is the one Select picks, and its weight is positive |
| Draw.DrawTree.Bubble | source/drawtree.hpp:89-94 | the node and each of its ancestors up to the root change by the offset, and no other node changes |
| Draw.DrawTree.Toggle | source/drawtree.hpp:83-87 | the object invariant is kept. The item joins or leaves the withdrawn set, and exactly the nodes on its leaf's path change, by +weight or -weight |
| SumTree.AncestorDominates | source/drawtree.hpp:83-94 | in a sum tree no node weighs less than a node below it |
| SumTree.PathCanLose | source/drawtree.hpp:85-86 | every node on an active leaf's path can give up that leaf's weight without going negative |
| SumTree.PathShiftKeepsSumInv | source/drawtree.hpp:83-94 | adding one offset to every node of a leaf's path keeps every internal sum |
| SumTree.PathShiftLeafRow | source/drawtree.hpp:83-94 | that shift changes only the item's own leaf, to its weight or to 0, as the new withdrawn set says, and leaves the unused slots alone |
| SumTree.ToggledTree | source/drawtree.hpp:83-94 | after a toggle the array is again a sum tree whose leaf row is the active weights for the new withdrawn set |
| Draw.DrawTree.ToggleOffThenOn | source/drawtree.hpp:83-94 | toggling an active item off and then on again restores every node exactly |
| SumTree.TreeDeterminedByLeaves | source/drawtree.hpp:117-129 | two sum trees with the same leaf row and the same unused slots are equal |
| Draw.DrawTree.RestoredExactly | source/drawtree.hpp:117-129 | once the withdrawn set is back to its old value, every node holds its old value |
| Draw.DrawTree.Get | source/drawtree.hpp:117-129 | returns exactly `count` indices. They are pairwise distinct, and each is a real item (< N) of positive weight that was not withdrawn. Draw j is the item its roll selects once draws 0..j-1 are withdrawn, and on return every node and the withdrawn set are as before |
| Draw.DrawTree.DrawBatch | source/drawtree.hpp:119-124 | the first loop draws `count` items as `Draws` specifies and withdraws exactly them, keeping the object invariant |
| Draw.DrawTree.DrawAndWithdraw | source/drawtree.hpp:120-123 | one pass draws the item the roll selects among the active items, and withdraws exactly that item |
| Draw.DrawTree.ReinstateBatch | source/drawtree.hpp:125-127 | the second loop puts every drawn item back, so the withdrawn set returns to its value before the batch |
| Sampling.Roll | source/drawtree.hpp:64-65 | the roll made from any entropy lies in [1, total] |
| Sampling.TotalPositiveIffDrawable | source/drawtree.hpp:64 | the active total is positive exactly when some item can still be drawn, i.e. the roll range is non-empty |
| Sampling.NothingWithdrawnTotal | source/drawtree.hpp:107-114 | with nothing withdrawn the leaf row sums to the sum of the weights |
| Sampling.DrawOne | source/drawtree.hpp:120-121 | a single draw always returns an item that can still be drawn |
| Sampling.WithdrawOne | source/drawtree.hpp:121-122 | withdrawing a drawable item removes exactly it from the drawable set, one fewer |
| Sampling.DrawsExtend | source/drawtree.hpp:120-123 | a batch that satisfies `Draws` still does after appending the next draw |
| Sampling.DrawsDistinct | source/drawtree.hpp:117-124 | the items of any batch satisfying `Draws` are pairwise distinct and each was drawable when the batch began |
| TreeTest.ItemsCount | test/tree_test.cpp:27-31 | a sequence has at most as many different items as elements, and exactly as many iff no item repeats |
| TreeTest.Validate | test/tree_test.cpp:27-31 | `validate` holds exactly when no item repeats |
| TreeTest.IotaDrawable | test/tree_test.cpp:34-40 | over the weights 0 .. n-1, exactly n-1 items can be drawn |
| TreeTest.Test | test/tree_test.cpp:33-43 | `test(n)` returns true for every n >= 1 and every roll sequence |

## Left out

- The random number generator is left out: `std::mt19937`, `std::random_device` and `uniform_int_distribution`. A roll is a parameter, and in `Get` it is any caller-supplied number reduced into `[1, total]`. The promise that each item is drawn with probability proportional to its weight is statistical, and it is not stated.
- Machine-width arithmetic is left out. Node values are unbounded naturals, so the wrap-around of the unsigned and 64-bit node type is not modelled.
- Draw.DrawTree.Bubble: requires that no node on the path goes below zero, instead of modelling unsigned wrap-around. `Toggle` proves this holds for every toggle it allows.
- Draw.DrawTree.constructor: requires every weight to be at most 2^31-1. `toggle` computes a `long long` offset but `bubble` takes an `int`, so a larger weight would be narrowed; the model forbids such weights rather than model the narrowing.
- Draw.DrawTree.constructor: requires at least one item. For N == 0, `getDepth(0)` is 32, so `getNumNodes` evaluates `2 << 32`, which is undefined.
- Shape.GetNumNodes: `2 << depth` overflows a 32-bit `unsigned` for more than 2^30 items. The model computes the unbounded value.
- Draw.DrawTree.Toggle: requires the item's state to match the call: on only for a withdrawn item, off only for an active one. The source also lets a caller add an active item's weight a second time or subtract a withdrawn one again (unsigned wrap-around). The object invariant does not describe such trees, and `get` never does either.
- Draw.DrawTree.Get: requires `count` to be at most the number of drawable items. Beyond that the source's roll range becomes empty, which is undefined behaviour.
- The default arguments `toggleOn = true` of `toggle` and `count = 1` of `get` are not modelled: `Draw.DrawTree.Toggle` and `Draw.DrawTree.Get` always take these explicitly.
- `Get`'s two loops are the helper methods `DrawBatch` and `ReinstateBatch`, and one pass of the first loop is `DrawAndWithdraw`. The order of node updates is the same as in the source.
- `main.cpp`, an earlier prototype with printing and sampling with replacement, is not part of this model.
- The `rules.hpp` include and the commented-out `require`/`cancel` constructor parameters are not part of this model.
- The timing helpers, printing, the large benchmark in `main()` and the `BobFloydAlgo` comparison in `test/tree_test.cpp` are I/O or unrelated code, and are not part of this model.
