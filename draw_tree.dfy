/** The weighted sampler that draws without replacement: one array `nodes`
    holding an implicit sum tree over the item weights. */
module Draw {
  import opened Shape
  import opened Sampling
  import opened SumTree

  /** Range of the C++ `int` that `bubble` takes its offset in. */
  const IntMin: int := -0x8000_0000
  const IntMax: int := 0x7fff_ffff

  class DrawTree {
    const numItems: nat
    const depth: nat
    const weights: seq<nat>
    const nodes: array<nat>
    const firstLeaf: nat

    /** The items whose weight is currently taken out of the tree (by a
        draw batch in progress, or by a caller of Toggle). */
    ghost var withdrawn: set<nat>

    /** The object invariant: the tree's shape, the sum at every internal
        node, the leaf row, and the two unused slots 0 and 2*firstLeaf. */
    ghost predicate Valid()
      reads this, nodes
    {
      numItems == |weights| && numItems >= 1 &&
      (forall i :: 0 <= i < numItems ==> weights[i] <= IntMax) &&
      depth == GetDepth(numItems) &&
      nodes.Length == GetNumNodes(numItems) + 1 &&
      nodes.Length == 2 * firstLeaf + 1 && firstLeaf == Pow2(depth) &&
      (forall i :: i in withdrawn ==> i < numItems) &&
      nodes[0] == 0 && nodes[2 * firstLeaf] == 0 &&
      SumInv(nodes[..], firstLeaf) &&
      LeafRow(nodes[..], firstLeaf) == ActiveWeights(weights, withdrawn, firstLeaf)
    }

    /** The shape that the constructor's arithmetic produces. */
    lemma ShapeOf()
      requires Valid()
      ensures firstLeaf == Pow2(depth) && numItems <= firstLeaf
      ensures nodes.Length == 2 * firstLeaf + 1
    {
    }

    /** The root holds the total weight of the items not withdrawn. */
    lemma RootIsTotal()
      requires Valid()
      ensures nodes[Root] == Sum(ActiveWeights(weights, withdrawn, firstLeaf))
    {
      RootIsLeafTotal(nodes[..], depth);
    }

    constructor (weights: seq<nat>)
      requires |weights| >= 1
      requires forall i :: 0 <= i < |weights| ==> weights[i] <= IntMax
      ensures Valid() && fresh(nodes)
      ensures this.weights == weights && numItems == |weights| && withdrawn == {}
      ensures depth == GetDepth(|weights|) && firstLeaf == Pow2(depth)
      ensures nodes.Length == GetNumNodes(|weights|) + 1
      ensures nodes[Root] == Sum(weights)
    {
      numItems := |weights|;
      depth := GetDepth(|weights|);
      this.weights := weights;
      var size := GetNumNodes(|weights|) + 1;
      assert size == 2 * Pow2(GetDepth(|weights|)) + 1;
      nodes := new nat[size](_ => 0);
      firstLeaf := size / 2;
      withdrawn := {};
      new;
      assert nodes.Length == 2 * firstLeaf + 1 && firstLeaf == Pow2(depth);
      var leaf := firstLeaf;
      var j := 0;
      while j < |weights|
        invariant 0 <= j <= |weights|
        invariant leaf == firstLeaf + j
        invariant forall k :: 0 <= k < nodes.Length ==>
          nodes[k] == if firstLeaf <= k < firstLeaf + j then weights[k - firstLeaf] else 0
        invariant withdrawn == {}
      {
        nodes[leaf] := weights[j];
        leaf := leaf + 1;
        j := j + 1;
      }
      ghost var before := nodes[..];
      FillWeights();
      FilledTree(before, nodes[..], firstLeaf, depth, weights);
    }

    /** fillWeights: sets every internal node, from firstLeaf-1 down to the
        root, to the sum of its children; leaves are left as they are. */
    method FillWeights()
      requires nodes.Length == 2 * firstLeaf + 1 && firstLeaf >= 1
      modifies nodes
      ensures SumInv(nodes[..], firstLeaf)
      ensures nodes[0] == old(nodes[0])
      ensures forall k :: firstLeaf <= k < nodes.Length ==> nodes[k] == old(nodes[k])
    {
      var node := firstLeaf - 1;
      while node > 0
        invariant 0 <= node < firstLeaf
        invariant forall v :: node < v < firstLeaf ==>
          nodes[v] == nodes[LeftChild(v)] + nodes[RightChild(v)]
        invariant nodes[0] == old(nodes[0])
        invariant forall k :: firstLeaf <= k < nodes.Length ==> nodes[k] == old(nodes[k])
      {
        nodes[node] := nodes[LeftChild(node)] + nodes[RightChild(node)];
        node := node - 1;
      }
    }

    /** search: the weighted descent. A roll in [1, nodes[root]] is walked
        down `depth` levels, going left when it is at most the left
        child's weight and otherwise subtracting that weight and going
        right. It needs only a sum tree, not the rest of the object
        invariant: the leaf reached is the one whose slot in the leaf row
        holds the roll (the inverse cumulative distribution of the leaf
        row), so its weight is positive. */
    method Search(roll: nat) returns (leaf: nat)
      requires nodes.Length == 2 * firstLeaf + 1 && firstLeaf == Pow2(depth)
      requires SumInv(nodes[..], firstLeaf)
      requires 1 <= roll <= nodes[Root]
      ensures firstLeaf <= leaf < 2 * firstLeaf
      ensures roll <= Sum(LeafRow(nodes[..], firstLeaf)) &&
              leaf - firstLeaf == Select(LeafRow(nodes[..], firstLeaf), roll)
      ensures nodes[leaf] > 0
    {
      ghost var a := nodes[..];
      var node := Root;
      var rest := roll;
      var level := 0;
      // the leaf slots below `node` start at lo
      ghost var lo: nat := firstLeaf;
      ghost var h: nat := depth;
      LeftmostOfRoot(depth);
      assert a[firstLeaf..lo] == [];
      while level < depth
        invariant 0 <= level <= depth && h == depth - level
        invariant DescentInv(a, firstLeaf, node, h, lo, rest, roll)
      {
        DescentAboveLeaves(a, firstLeaf, node, h, lo, rest, roll);
        ghost var (v, lo0, rest0) := (node, lo, rest);
        var left := LeftChild(node);
        assert nodes[left] == a[left];
        if rest <= nodes[left] {
          node := left;
        } else {
          rest := rest - nodes[left];
          node := RightChild(node);
          lo := lo + Pow2(h - 1);
        }
        DescendStep(a, firstLeaf, v, h, lo0, rest0, roll, node, lo, rest);
        h := h - 1;
        level := level + 1;
      }
      leaf := node;
      DescentEnd(a, firstLeaf, node, lo, rest, roll);
    }

    /** bubble: adds `offset` to the node and to every ancestor of it, up
        to the root; no other node changes. */
    method Bubble(node: nat, offset: int)
      requires node < nodes.Length
      requires IntMin <= offset <= IntMax
      requires forall k :: 0 <= k <= node && IsAncestor(k, node) ==> nodes[k] + offset >= 0
      modifies nodes
      ensures forall k :: 0 <= k < nodes.Length ==>
        nodes[k] == old(nodes[k]) + (if IsAncestor(k, node) then offset else 0)
    {
      var v: nat := node;
      while v > 0
        invariant v <= node
        invariant v == 0 || IsAncestor(v, node)
        invariant forall k :: 0 <= k < nodes.Length ==>
          nodes[k] == old(nodes[k]) + (if IsAncestor(k, node) && !IsAncestor(k, v) then offset else 0)
      {
        AncestorIsNotBelow(v, node);
        NotAncestorOfSmaller(v, Parent(v));
        nodes[v] := nodes[v] + offset;
        if v >= 2 {
          AncestorOfParent(v, node);
        }
        v := Parent(v);
      }
    }

    /** toggle: puts an item's weight back into the tree (toggleOn) or
        takes it out, on exactly the nodes from its leaf up to the root.
        Only a withdrawn item may be put back and only an active one taken
        out. */
    method Toggle(leafIndex: nat, toggleOn: bool)
      requires Valid()
      requires leafIndex < numItems
      requires toggleOn == (leafIndex in withdrawn)
      modifies this, nodes
      ensures Valid()
      ensures withdrawn == if toggleOn then old(withdrawn) - {leafIndex} else old(withdrawn) + {leafIndex}
      ensures forall k :: 0 <= k < nodes.Length ==>
        nodes[k] == old(nodes[k]) + (if IsAncestor(k, firstLeaf + leafIndex) then
          (if toggleOn then weights[leafIndex] as int else -(weights[leafIndex] as int)) else 0)
    {
      ShapeOf();
      var leafNode := firstLeaf + leafIndex;
      var offset: int := if toggleOn then weights[leafIndex] as int else -(weights[leafIndex] as int);
      ghost var a := nodes[..];
      if !toggleOn {
        assert a[leafNode] == LeafRow(a, firstLeaf)[leafIndex];
        PathCanLose(a, firstLeaf, leafNode);
      }
      ghost var after := if toggleOn then withdrawn - {leafIndex} else withdrawn + {leafIndex};
      Bubble(leafNode, offset);
      ToggledTree(a, nodes[..], firstLeaf, weights, withdrawn, after, leafIndex, toggleOn, offset);
      withdrawn := after;
    }

    /** Taking an active item out and putting it straight back leaves
        every node as it was. */
    method ToggleOffThenOn(leafIndex: nat)
      requires Valid()
      requires leafIndex < numItems && leafIndex !in withdrawn
      modifies this, nodes
      ensures Valid()
      ensures withdrawn == old(withdrawn) && nodes[..] == old(nodes[..])
    {
      ghost var a0 := nodes[..];
      ghost var w0 := withdrawn;
      assert SumInv(a0, firstLeaf) && LeafRow(a0, firstLeaf) == ActiveWeights(weights, w0, firstLeaf);
      Toggle(leafIndex, false);
      Toggle(leafIndex, true);
      assert withdrawn == w0;
      RestoredExactly(a0, w0);
    }

    /** get: draws `count` items one after another, taking each chosen
        item's weight out of the tree so it cannot be drawn again, then
        puts all of them back. Draw j uses the roll that entropy[j] gives
        over the weight still active at that moment. On return the tree is
        exactly as it was. */
    method Get(count: nat, entropy: seq<nat>) returns (indices: seq<nat>)
      requires Valid()
      requires |entropy| == count
      requires count <= |Drawable(weights, withdrawn)|
      modifies this, nodes
      ensures Valid()
      ensures withdrawn == old(withdrawn) && nodes[..] == old(nodes[..])
      ensures |indices| == count
      ensures Draws(weights, withdrawn, firstLeaf, entropy, indices)
      ensures Distinct(indices)
      ensures forall j :: 0 <= j < count ==> indices[j] in Drawable(weights, withdrawn)
    {
      ShapeOf();
      ghost var a0 := nodes[..];
      ghost var w0 := withdrawn;
      indices := DrawBatch(count, entropy);
      DrawsDistinct(weights, w0, firstLeaf, entropy, indices);
      ReinstateBatch(indices, w0);
      RestoredExactly(a0, w0);
    }

    /** The first loop of get: each draw searches with the next roll and
        takes the chosen item out of the tree. */
    method DrawBatch(count: nat, entropy: seq<nat>) returns (indices: seq<nat>)
      requires Valid()
      requires |entropy| == count
      requires count <= |Drawable(weights, withdrawn)|
      modifies this, nodes
      ensures Valid()
      ensures |indices| == count
      ensures Draws(weights, old(withdrawn), firstLeaf, entropy, indices)
      ensures withdrawn == old(withdrawn) + ItemsOf(indices)
    {
      ghost var w0 := withdrawn;
      indices := [];
      assert ItemsOf(indices) == {};
      var iterations := 0;
      while iterations < count
        invariant iterations == |indices| <= count
        invariant Valid()
        invariant withdrawn == w0 + ItemsOf(indices)
        invariant Draws(weights, w0, firstLeaf, entropy, indices)
        invariant |Drawable(weights, withdrawn)| == |Drawable(weights, w0)| - iterations
      {
        ghost var before := withdrawn;
        var i := DrawAndWithdraw(entropy[iterations]);
        DrawsExtend(weights, w0, firstLeaf, entropy, indices, i);
        WithdrawOne(weights, before, i);
        indices := indices + [i];
        iterations := iterations + 1;
      }
    }

    /** One pass of get's first loop: roll from `entropy`, search, and take
        the chosen item out of the tree. */
    method DrawAndWithdraw(entropy: nat) returns (i: nat)
      requires Valid()
      requires Drawable(weights, withdrawn) != {}
      modifies this, nodes
      ensures Valid()
      ensures Sum(ActiveWeights(weights, old(withdrawn), firstLeaf)) >= 1 &&
              i == DrawOne(weights, old(withdrawn), firstLeaf, entropy)
      ensures i in Drawable(weights, old(withdrawn))
      ensures withdrawn == old(withdrawn) + {i}
    {
      ShapeOf();
      RootIsTotal();
      TotalPositiveIffDrawable(weights, withdrawn, firstLeaf);
      var roll := Roll(entropy, nodes[Root]);
      var leaf := Search(roll);
      i := leaf - firstLeaf;
      assert i == DrawOne(weights, withdrawn, firstLeaf, entropy);
      assert i in Drawable(weights, withdrawn);
      assert i < numItems && i !in withdrawn;
      Toggle(i, false);
    }

    /** The second loop of get: every item of the batch is put back. */
    method ReinstateBatch(indices: seq<nat>, ghost w0: set<nat>)
      requires Valid()
      requires withdrawn == w0 + ItemsOf(indices)
      requires Distinct(indices)
      requires forall j :: 0 <= j < |indices| ==> indices[j] in Drawable(weights, w0)
      modifies this, nodes
      ensures Valid()
      ensures withdrawn == w0
    {
      var k := 0;
      while k < |indices|
        invariant 0 <= k <= |indices|
        invariant Valid()
        invariant withdrawn == w0 + ItemsOf(indices[k..])
      {
        assert ItemsOf(indices[k..]) == {indices[k]} + ItemsOf(indices[k + 1..]);
        Toggle(indices[k], true);
        k := k + 1;
      }
      assert ItemsOf(indices[k..]) == {};
    }

    /** Once the withdrawn set is back to what it was, so is every node. */
    lemma RestoredExactly(a0: seq<nat>, w0: set<nat>)
      requires Valid() && withdrawn == w0
      requires |a0| == nodes.Length && a0[0] == 0 && a0[2 * firstLeaf] == 0
      requires SumInv(a0, firstLeaf)
      requires LeafRow(a0, firstLeaf) == ActiveWeights(weights, w0, firstLeaf)
      ensures nodes[..] == a0
    {
      ShapeOf();
      assert a0[2 * firstLeaf..] == [0] == nodes[..][2 * firstLeaf..];
      TreeDeterminedByLeaves(nodes[..], a0, firstLeaf);
    }
  }
}
