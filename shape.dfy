/** Shape arithmetic of the implicit binary tree: nodes are numbered from 1,
    the root is 1, the children of v are 2v and 2v+1 and its parent is v/2. */
module Shape {

  /** The root node. */
  const Root: nat := 1

  /** 2^n. */
  function Pow2(n: nat): (r: nat)
    ensures r >= 1
  {
    if n == 0 then 1 else 2 * Pow2(n - 1)
  }

  lemma {:induction false} Pow2Monotone(m: nat, n: nat)
    requires m <= n
    ensures Pow2(m) <= Pow2(n)
  {
    if m < n {
      Pow2Monotone(m, n - 1);
    }
  }

  /** x is a power of two. */
  predicate IsPow2(x: nat)
    decreases x
  {
    x == 1 || (x >= 2 && x % 2 == 0 && IsPow2(x / 2))
  }

  lemma {:induction false} Pow2IsPow2(n: nat)
    ensures IsPow2(Pow2(n))
  {
    if n > 0 {
      Pow2IsPow2(n - 1);
      assert Pow2(n) / 2 == Pow2(n - 1);
    }
  }

  /** floorLog2: the number of halvings that take x down to 1, i.e. the
      largest r with 2^r <= x. Undefined (infinite recursion) for x == 0. */
  function FloorLog2(x: nat): (r: nat)
    requires x >= 1
    ensures Pow2(r) <= x < Pow2(r + 1)
    decreases x
  {
    if x == 1 then 0 else 1 + FloorLog2(x / 2)
  }

  /** FloorLog2 is the only exponent that brackets x. */
  lemma {:induction false} FloorLog2Unique(x: nat, r: nat)
    requires x >= 1
    requires Pow2(r) <= x < Pow2(r + 1)
    ensures FloorLog2(x) == r
  {
    var f := FloorLog2(x);
    if f < r {
      Pow2Monotone(f + 1, r);
    } else if r < f {
      Pow2Monotone(r + 1, f);
    }
  }

  /** getDepth: the number of levels below the root needed for x leaves. */
  function GetDepth(x: nat): (d: nat)
    requires x >= 1
    ensures x <= Pow2(d)
    ensures d > 0 ==> Pow2(d - 1) < x
  {
    if x == 1 then 0 else FloorLog2(x - 1) + 1
  }

  /** GetDepth(x) is the least d with 2^d >= x. */
  lemma DepthIsLeast(x: nat, d: nat)
    requires x >= 1
    requires x <= Pow2(d)
    ensures GetDepth(x) <= d
  {
    var g := GetDepth(x);
    if d < g {
      Pow2Monotone(d, g - 1);
    }
  }

  /** getNumNodes: 2 << depth, twice the number of leaf slots. */
  function GetNumNodes(numItems: nat): (r: nat)
    requires numItems >= 1
    ensures r % 2 == 0 && r / 2 == Pow2(GetDepth(numItems))
    ensures 2 * numItems <= r < 4 * numItems
  {
    LeafSlotsBound(numItems);
    Halves(Pow2(GetDepth(numItems)));
    2 * Pow2(GetDepth(numItems))
  }

  /** Halving 2p and 2p+1 both give p. */
  lemma Halves(p: nat)
    ensures (2 * p) % 2 == 0 && (2 * p) / 2 == p && (2 * p + 1) / 2 == p
  {
  }

  /** The leaf slots of depth GetDepth(x) hold x items but fewer than 2x. */
  lemma LeafSlotsBound(x: nat)
    requires x >= 1
    ensures x <= Pow2(GetDepth(x)) < 2 * x
  {
    var d := GetDepth(x);
    if d > 0 {
      assert Pow2(d) == 2 * Pow2(d - 1);
    }
  }

  /** The node count is a power of two: a complete binary tree with one
      unused slot 0 in front. */
  lemma NumNodesIsPow2(numItems: nat)
    requires numItems >= 1
    ensures IsPow2(GetNumNodes(numItems))
  {
    Pow2IsPow2(GetDepth(numItems) + 1);
  }

  function LeftChild(parent: nat): (c: nat)
    ensures Parent(c) == parent && c % 2 == 0
  {
    parent * 2
  }

  function RightChild(parent: nat): (c: nat)
    ensures Parent(c) == parent && c == LeftChild(parent) + 1
  {
    parent * 2 + 1
  }

  function Parent(child: nat): (p: nat)
    ensures child == 2 * p || child == 2 * p + 1
  {
    child / 2
  }

  /** k lies on the path from v up to the root (k == v included); node 0
      is not part of the tree and is nobody's ancestor. */
  predicate IsAncestor(k: nat, v: nat)
    decreases v
  {
    1 <= k && 1 <= v && (k == v || IsAncestor(k, Parent(v)))
  }

  lemma {:induction false} AncestorIsNotBelow(k: nat, v: nat)
    requires IsAncestor(k, v)
    ensures k <= v
  {
    if k != v {
      AncestorIsNotBelow(k, Parent(v));
    }
  }

  /** The parent of a node on the path is on the path. */
  lemma {:induction false} AncestorOfParent(c: nat, v: nat)
    requires c >= 2 && IsAncestor(c, v)
    ensures IsAncestor(Parent(c), v)
  {
    if c != v {
      AncestorOfParent(c, Parent(v));
    }
  }

  /** Below a node on the path, exactly one of its two children is on it. */
  lemma {:induction false} OneChildOnPath(u: nat, v: nat)
    requires IsAncestor(u, v) && u < v
    ensures IsAncestor(LeftChild(u), v) != IsAncestor(RightChild(u), v)
  {
    AncestorIsNotBelow(u, Parent(v));
    if u == Parent(v) {
      assert IsAncestor(v, v);
      if v == LeftChild(u) {
        NotAncestorOfSmaller(RightChild(u), v);
      } else {
        NotAncestorOfSmaller(LeftChild(u), u);
      }
    } else {
      OneChildOnPath(u, Parent(v));
    }
  }

  lemma NotAncestorOfSmaller(k: nat, v: nat)
    requires v < k
    ensures !IsAncestor(k, v)
  {
    if IsAncestor(k, v) {
      AncestorIsNotBelow(k, v);
    }
  }

  /** Two different nodes of the same leaf level are not on each other's path. */
  lemma DistinctLeavesUnrelated(x: nat, y: nat, leaves: nat)
    requires leaves <= x < 2 * leaves && leaves <= y < 2 * leaves && x != y
    ensures !IsAncestor(x, y)
  {
    if IsAncestor(x, y) {
      AncestorIsNotBelow(x, Parent(y));
    }
  }
}
