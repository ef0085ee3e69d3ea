/** Facts about a row of node values laid out as an implicit sum tree with
    `leaves` leaf slots: internal nodes are 1 .. leaves-1, leaf slots are
    leaves .. 2*leaves-1. Stated on sequences so that the class that owns
    the array can use them on `nodes[..]`. */
module SumTree {
  import opened Shape
  import opened Sampling

  /** Every internal node holds the sum of its two children. */
  ghost predicate SumInv(a: seq<nat>, leaves: nat)
  {
    2 * leaves < |a| &&
    forall v {:trigger LeftChild(v)} :: 1 <= v < leaves ==> a[v] == a[LeftChild(v)] + a[RightChild(v)]
  }

  /** The leaf row of a. */
  function LeafRow(a: seq<nat>, leaves: nat): (row: seq<nat>)
    requires 2 * leaves <= |a|
    // length and elements spelled out so that callers see them without unfolding
    ensures |row| == leaves
    ensures forall i :: 0 <= i < leaves ==> row[i] == a[leaves + i]
  {
    a[leaves..2 * leaves]
  }

  /** The first leaf slot h levels below v, i.e. v * 2^h: the subtree of
      v covers the 2^h slots from here on. */
  function Leftmost(v: nat, h: nat): (lo: nat)
    ensures lo >= v
    decreases h
  {
    if h == 0 then v else Leftmost(2 * v, h - 1)
  }

  /** Neighbouring nodes of one level cover neighbouring spans. */
  lemma {:induction false} LeftmostNext(v: nat, h: nat)
    ensures Leftmost(v + 1, h) == Leftmost(v, h) + Pow2(h)
    decreases h
  {
    if h > 0 {
      LeftmostNext(2 * v, h - 1);
      LeftmostNext(2 * v + 1, h - 1);
    }
  }

  /** Doubling a node doubles its span's start. */
  lemma {:induction false} LeftmostDouble(v: nat, h: nat)
    ensures Leftmost(2 * v, h) == 2 * Leftmost(v, h)
    decreases h
  {
    if h > 0 {
      LeftmostDouble(2 * v, h - 1);
    }
  }

  /** The root's span is the whole leaf row. */
  lemma {:induction false} LeftmostOfRoot(depth: nat)
    ensures Leftmost(Root, depth) == Pow2(depth)
  {
    if depth > 0 {
      LeftmostDouble(Root, depth - 1);
      LeftmostOfRoot(depth - 1);
    }
  }

  /** The children of v split v's span of 2^h slots into two halves. */
  lemma HalveSpan(v: nat, h: nat)
    requires h >= 1
    ensures Pow2(h) == 2 * Pow2(h - 1)
    ensures Leftmost(LeftChild(v), h - 1) == Leftmost(v, h)
    ensures Leftmost(RightChild(v), h - 1) == Leftmost(v, h) + Pow2(h - 1)
    ensures 2 * v <= Leftmost(v, h)
  {
    LeftmostNext(2 * v, h - 1);
  }

  /** Node v holds the sum of the 2^h leaf slots of its span lo .. hi-1. */
  lemma {:induction false} SubtreeSum(a: seq<nat>, leaves: nat, v: nat, h: nat, lo: nat, hi: nat)
    requires SumInv(a, leaves) && v >= 1
    requires lo == Leftmost(v, h) && hi == lo + Pow2(h)
    requires leaves <= lo && hi <= 2 * leaves
    ensures a[v] == Sum(a[lo..hi])
    decreases h
  {
    if h == 0 {
      assert a[lo..hi] == [a[v]];
    } else {
      HalveSpan(v, h);
      var mid := lo + Pow2(h - 1);
      SubtreeSum(a, leaves, LeftChild(v), h - 1, lo, mid);
      SubtreeSum(a, leaves, RightChild(v), h - 1, mid, hi);
      SumSplit(a, lo, mid, hi);
      assert a[v] == a[LeftChild(v)] + a[RightChild(v)];
    }
  }

  /** The root holds the total of the leaf row. */
  lemma RootIsLeafTotal(a: seq<nat>, depth: nat)
    requires SumInv(a, Pow2(depth))
    ensures a[Root] == Sum(LeafRow(a, Pow2(depth)))
  {
    LeftmostOfRoot(depth);
    SubtreeSum(a, Pow2(depth), Root, depth, Pow2(depth), 2 * Pow2(depth));
  }

  /** A node is at least as heavy as any node below it. */
  lemma {:induction false} AncestorDominates(a: seq<nat>, leaves: nat, k: nat, v: nat)
    requires SumInv(a, leaves)
    requires v < 2 * leaves
    requires IsAncestor(k, v)
    ensures k <= v && a[k] >= a[v]
    decreases v
  {
    if k != v {
      var p := Parent(v);
      AncestorIsNotBelow(k, p);
      AncestorDominates(a, leaves, k, p);
      assert a[p] == a[LeftChild(p)] + a[RightChild(p)];
    }
  }

  /** Every node on a leaf's path can give up that leaf's weight. */
  lemma PathCanLose(a: seq<nat>, leaves: nat, leaf: nat)
    requires SumInv(a, leaves)
    requires leaf < 2 * leaves
    ensures forall k :: 0 <= k <= leaf && IsAncestor(k, leaf) ==> a[k] >= a[leaf]
  {
    forall k | 0 <= k <= leaf && IsAncestor(k, leaf) ensures a[k] >= a[leaf] {
      AncestorDominates(a, leaves, k, leaf);
    }
  }

  /** Adding the same offset to every node on one leaf's path keeps every
      internal sum. */
  lemma PathShiftKeepsSumInv(a: seq<nat>, b: seq<nat>, leaves: nat, leaf: nat, offset: int)
    requires SumInv(a, leaves)
    requires |b| == |a|
    requires leaves <= leaf < 2 * leaves
    requires forall k :: 0 <= k < |a| ==> b[k] == a[k] + (if IsAncestor(k, leaf) then offset else 0)
    ensures SumInv(b, leaves)
  {
    forall v | 1 <= v < leaves
      ensures b[v] == b[LeftChild(v)] + b[RightChild(v)]
    {
      if IsAncestor(v, leaf) {
        OneChildOnPath(v, leaf);
      } else {
        if IsAncestor(LeftChild(v), leaf) {
          AncestorOfParent(LeftChild(v), leaf);
        }
        if IsAncestor(RightChild(v), leaf) {
          AncestorOfParent(RightChild(v), leaf);
        }
      }
    }
  }

  /** Node v and everything below it is determined by the leaf row. */
  lemma {:induction false} DeterminedBelow(a: seq<nat>, b: seq<nat>, leaves: nat, v: nat)
    requires SumInv(a, leaves) && SumInv(b, leaves) && |a| == |b|
    requires LeafRow(a, leaves) == LeafRow(b, leaves)
    requires 1 <= v < 2 * leaves
    ensures a[v] == b[v]
    decreases 2 * leaves - v
  {
    if v < leaves {
      DeterminedBelow(a, b, leaves, LeftChild(v));
      DeterminedBelow(a, b, leaves, RightChild(v));
    } else {
      assert a[v] == LeafRow(a, leaves)[v - leaves];
    }
  }

  /** Two sum trees with the same leaf row and the same unused slots are
      equal: the whole array is a function of its leaves. */
  lemma TreeDeterminedByLeaves(a: seq<nat>, b: seq<nat>, leaves: nat)
    requires SumInv(a, leaves) && SumInv(b, leaves) && |a| == |b|
    requires LeafRow(a, leaves) == LeafRow(b, leaves)
    requires a[0] == b[0] && a[2 * leaves..] == b[2 * leaves..]
    ensures a == b
  {
    forall k | 0 <= k < |a| ensures a[k] == b[k] {
      if 1 <= k < 2 * leaves {
        DeterminedBelow(a, b, leaves, k);
      } else if k >= 2 * leaves {
        assert a[k] == a[2 * leaves..][k - 2 * leaves];
      }
    }
  }

  /** The state of the weighted descent at node v, h levels above the
      leaves: v's span starts at leaf slot lo, the remaining roll `rest`
      falls inside v's weight, and the original roll is the weight of the
      leaf slots left of v's span plus `rest`. */
  ghost predicate DescentInv(a: seq<nat>, leaves: nat, v: nat, h: nat, lo: nat, rest: nat, roll: nat)
  {
    SumInv(a, leaves) && v >= 1 &&
    lo == Leftmost(v, h) && leaves <= lo && lo + Pow2(h) <= 2 * leaves &&
    1 <= rest <= a[v] &&
    roll == Sum(a[leaves..lo]) + rest
  }

  /** Above the leaf level the current node is internal. */
  lemma DescentAboveLeaves(a: seq<nat>, leaves: nat, v: nat, h: nat, lo: nat, rest: nat, roll: nat)
    requires h >= 1
    requires DescentInv(a, leaves, v, h, lo, rest, roll)
    ensures v < leaves
  {
    HalveSpan(v, h);
  }

  /** One step of the descent keeps DescentInv: to the left child when
      the rest is at most its weight, otherwise to the right child with
      the left child's weight subtracted. */
  lemma DescendStep(a: seq<nat>, leaves: nat, v: nat, h: nat, lo: nat, rest: nat, roll: nat,
                    v': nat, lo': nat, rest': nat)
    requires h >= 1
    requires DescentInv(a, leaves, v, h, lo, rest, roll)
    requires 2 * v + 1 < |a|
    requires rest <= a[LeftChild(v)] ==> v' == LeftChild(v) && lo' == lo && rest' == rest
    requires rest > a[LeftChild(v)] ==>
      v' == RightChild(v) && lo' == lo + Pow2(h - 1) && rest' == rest - a[LeftChild(v)]
    ensures DescentInv(a, leaves, v', h - 1, lo', rest', roll)
  {
    HalveSpan(v, h);
    SubtreeSum(a, leaves, LeftChild(v), h - 1, lo, lo + Pow2(h - 1));
    SumSplit(a, leaves, lo, lo + Pow2(h - 1));
  }

  /** At the bottom of the descent the current leaf's slot in the leaf row
      holds the roll. */
  lemma DescentEnd(a: seq<nat>, leaves: nat, v: nat, lo: nat, rest: nat, roll: nat)
    requires DescentInv(a, leaves, v, 0, lo, rest, roll)
    ensures leaves <= v < 2 * leaves
    ensures 1 <= roll <= Sum(LeafRow(a, leaves))
    ensures Select(LeafRow(a, leaves), roll) == v - leaves
    ensures a[v] > 0
  {
    var row := LeafRow(a, leaves);
    var i := v - leaves;
    assert row[..i] == a[leaves..v];
    PrefixStep(row, i);
    SelectUnique(row, roll, i);
  }

  /** Shifting item i's path by +weight (putting it back) or -weight
      (taking it out) changes exactly its own leaf, as the leaf row of the
      new withdrawn set says, and leaves the unused slots alone. */
  lemma PathShiftLeafRow(a: seq<nat>, b: seq<nat>, leaves: nat, weights: seq<nat>,
                         withdrawn: set<nat>, after: set<nat>, i: nat, on: bool, offset: int)
    requires 2 * leaves < |a| && |b| == |a|
    requires i < leaves && i < |weights|
    requires on == (i in withdrawn)
    requires LeafRow(a, leaves) == ActiveWeights(weights, withdrawn, leaves)
    requires offset == if on then weights[i] as int else -(weights[i] as int)
    requires after == if on then withdrawn - {i} else withdrawn + {i}
    requires forall k :: 0 <= k < |a| ==> b[k] == a[k] + (if IsAncestor(k, leaves + i) then offset else 0)
    ensures LeafRow(b, leaves) == ActiveWeights(weights, after, leaves)
    ensures b[0] == a[0] && b[2 * leaves] == a[2 * leaves]
  {
    forall j | 0 <= j < leaves
      ensures b[leaves + j] == ActiveWeights(weights, after, leaves)[j]
    {
      assert a[leaves + j] == LeafRow(a, leaves)[j];
      if j != i {
        DistinctLeavesUnrelated(leaves + j, leaves + i, leaves);
      }
    }
    NotAncestorOfSmaller(2 * leaves, leaves + i);
  }

  /** After toggling item i the array is again a sum tree whose leaf row
      is the active weights for the new withdrawn set. */
  lemma ToggledTree(a: seq<nat>, b: seq<nat>, leaves: nat, weights: seq<nat>,
                    withdrawn: set<nat>, after: set<nat>, i: nat, on: bool, offset: int)
    requires SumInv(a, leaves) && |b| == |a|
    requires i < leaves && i < |weights|
    requires on == (i in withdrawn)
    requires LeafRow(a, leaves) == ActiveWeights(weights, withdrawn, leaves)
    requires offset == if on then weights[i] as int else -(weights[i] as int)
    requires after == if on then withdrawn - {i} else withdrawn + {i}
    requires forall k :: 0 <= k < |a| ==> b[k] == a[k] + (if IsAncestor(k, leaves + i) then offset else 0)
    ensures SumInv(b, leaves)
    ensures LeafRow(b, leaves) == ActiveWeights(weights, after, leaves)
    ensures b[0] == a[0] && b[2 * leaves] == a[2 * leaves]
  {
    PathShiftKeepsSumInv(a, b, leaves, leaves + i, offset);
    PathShiftLeafRow(a, b, leaves, weights, withdrawn, after, i, on, offset);
  }

  /** The tree the constructor builds: the leaf slots hold the weights and
      then zero padding, every internal node holds its children's sum, and
      the root holds the sum of all weights. */
  lemma FilledTree(before: seq<nat>, after: seq<nat>, leaves: nat, depth: nat, weights: seq<nat>)
    requires leaves == Pow2(depth) && |weights| <= leaves
    requires |before| == |after| == 2 * leaves + 1
    requires forall k :: 0 <= k < |before| ==>
      before[k] == if leaves <= k < leaves + |weights| then weights[k - leaves] else 0
    requires SumInv(after, leaves)
    requires after[0] == before[0]
    requires forall k :: leaves <= k < |after| ==> after[k] == before[k]
    ensures LeafRow(after, leaves) == ActiveWeights(weights, {}, leaves)
    ensures after[0] == 0 && after[2 * leaves] == 0
    ensures after[Root] == Sum(weights)
  {
    assert LeafRow(after, leaves) == ActiveWeights(weights, {}, leaves);
    RootIsLeafTotal(after, depth);
    NothingWithdrawnTotal(weights, leaves);
  }
}
