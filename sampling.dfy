/** The sampling specification, independent of any tree: a row of leaf
    weights, its total, the leaf a roll selects (inverse cumulative
    distribution, ties going to the lower index) and the items a draw may
    still return. */
module Sampling {

  /** Sum of a row of weights. */
  function Sum(ws: seq<nat>): (total: nat)
  {
    if ws == [] then 0 else ws[0] + Sum(ws[1..])
  }

  lemma {:induction false} SumConcat(s: seq<nat>, t: seq<nat>)
    ensures Sum(s + t) == Sum(s) + Sum(t)
  {
    if s == [] {
      assert s + t == t;
    } else {
      assert (s + t)[1..] == s[1..] + t;
      SumConcat(s[1..], t);
    }
  }

  /** Splitting a slice at j splits its sum. */
  lemma SumSplit(ws: seq<nat>, i: nat, j: nat, k: nat)
    requires i <= j <= k <= |ws|
    ensures Sum(ws[i..k]) == Sum(ws[i..j]) + Sum(ws[j..k])
  {
    assert ws[i..k] == ws[i..j] + ws[j..k];
    SumConcat(ws[i..j], ws[j..k]);
  }

  /** The prefix sums grow by exactly the next weight. */
  lemma PrefixStep(ws: seq<nat>, j: nat)
    requires j < |ws|
    ensures Sum(ws[..j + 1]) == Sum(ws[..j]) + ws[j]
  {
    assert ws[..j + 1] == ws[..j] + [ws[j]];
    SumConcat(ws[..j], [ws[j]]);
  }

  lemma PrefixMonotone(ws: seq<nat>, i: nat, j: nat)
    requires i <= j <= |ws|
    ensures Sum(ws[..i]) <= Sum(ws[..j])
  {
    SumSplit(ws, 0, i, j);
  }

  /** The index a roll in [1, Sum(ws)] selects: the one whose slot
      (prefix sum before it, prefix sum through it] contains the roll. */
  function Select(ws: seq<nat>, roll: nat): (r: nat)
    requires 1 <= roll <= Sum(ws)
    ensures r < |ws|
    ensures Sum(ws[..r]) < roll <= Sum(ws[..r + 1])
    decreases |ws|
  {
    if roll <= ws[0] then
      assert ws[..1] == [ws[0]];
      0
    else
      var r' := Select(ws[1..], roll - ws[0]);
      assert ws[..r' + 1] == [ws[0]] + ws[1..][..r'];
      assert ws[..r' + 2] == [ws[0]] + ws[1..][..r' + 1];
      SumConcat([ws[0]], ws[1..][..r']);
      SumConcat([ws[0]], ws[1..][..r' + 1]);
      1 + r'
  }

  /** The slot condition determines the selected index. */
  lemma SelectUnique(ws: seq<nat>, roll: nat, j: nat)
    requires j < |ws|
    requires Sum(ws[..j]) < roll <= Sum(ws[..j + 1])
    ensures 1 <= roll <= Sum(ws)
    ensures Select(ws, roll) == j
  {
    PrefixMonotone(ws, j + 1, |ws|);
    assert ws[..|ws|] == ws;
    var r := Select(ws, roll);
    if r < j {
      PrefixMonotone(ws, r + 1, j);
    } else if j < r {
      PrefixMonotone(ws, j + 1, r);
    }
  }

  /** Ties go to the lower index: a roll equal to the prefix sum through
      a positive weight selects that weight's index, not the next one. */
  lemma SelectAtBoundary(ws: seq<nat>, j: nat)
    requires j < |ws| && ws[j] > 0
    ensures 1 <= Sum(ws[..j + 1]) <= Sum(ws)
    ensures Select(ws, Sum(ws[..j + 1])) == j
  {
    PrefixStep(ws, j);
    SelectUnique(ws, Sum(ws[..j + 1]), j);
  }

  /** A roll never selects an index of weight zero. */
  lemma SelectPositive(ws: seq<nat>, roll: nat)
    requires 1 <= roll <= Sum(ws)
    ensures ws[Select(ws, roll)] > 0
  {
    PrefixStep(ws, Select(ws, roll));
  }

  /** One positive weight makes the total positive. */
  lemma {:induction false} SumAtLeast(ws: seq<nat>, i: nat)
    requires i < |ws|
    ensures Sum(ws) >= ws[i]
  {
    if i > 0 {
      SumAtLeast(ws[1..], i - 1);
    }
  }

  /** A zero total means every weight is zero. */
  lemma {:induction false} ZeroSum(ws: seq<nat>)
    requires forall i :: 0 <= i < |ws| ==> ws[i] == 0
    ensures Sum(ws) == 0
  {
    if ws != [] {
      ZeroSum(ws[1..]);
    }
  }

  /** The leaf row of a tree with `width` leaf slots: item i's weight while
      it is not withdrawn, 0 for withdrawn items and for padding slots. */
  function ActiveWeights(weights: seq<nat>, withdrawn: set<nat>, width: nat): (ws: seq<nat>)
    // length and elements spelled out so that callers see them without unfolding
    ensures |ws| == width
    ensures forall i :: 0 <= i < width ==>
      ws[i] == (if i < |weights| && i !in withdrawn then weights[i] else 0)
  {
    seq(width, i requires 0 <= i < width =>
      if i < |weights| && i !in withdrawn then weights[i] else 0)
  }

  /** The items a draw can still return: real, not withdrawn, weight > 0. */
  function Drawable(weights: seq<nat>, withdrawn: set<nat>): (d: set<nat>)
  {
    set i: nat | i < |weights| && i !in withdrawn && weights[i] > 0
  }

  /** There is something to draw exactly when the active total is positive. */
  lemma TotalPositiveIffDrawable(weights: seq<nat>, withdrawn: set<nat>, width: nat)
    requires |weights| <= width
    ensures Sum(ActiveWeights(weights, withdrawn, width)) > 0 <==> Drawable(weights, withdrawn) != {}
  {
    var ws := ActiveWeights(weights, withdrawn, width);
    if Drawable(weights, withdrawn) != {} {
      var i :| i in Drawable(weights, withdrawn);
      SumAtLeast(ws, i);
    } else {
      forall i | 0 <= i < width ensures ws[i] == 0 {
        if i < |weights| && i !in withdrawn {
          assert i !in Drawable(weights, withdrawn);
        }
      }
      ZeroSum(ws);
    }
  }

  /** Withdrawing a drawable item removes exactly that item. */
  lemma WithdrawOne(weights: seq<nat>, withdrawn: set<nat>, i: nat)
    requires i in Drawable(weights, withdrawn)
    ensures Drawable(weights, withdrawn + {i}) == Drawable(weights, withdrawn) - {i}
    ensures |Drawable(weights, withdrawn + {i})| == |Drawable(weights, withdrawn)| - 1
  {
    assert Drawable(weights, withdrawn + {i}) == Drawable(weights, withdrawn) - {i};
  }

  /** Stand-in for the uniform integer distribution over [1, total]: the
      caller supplies any natural number and it is reduced into the range. */
  function Roll(entropy: nat, total: nat): (roll: nat)
    requires total >= 1
    ensures 1 <= roll <= total
  {
    1 + entropy % total
  }

  /** Before anything is withdrawn the leaf row adds up to the input weights. */
  lemma NothingWithdrawnTotal(weights: seq<nat>, width: nat)
    requires |weights| <= width
    ensures Sum(ActiveWeights(weights, {}, width)) == Sum(weights)
  {
    var ws := ActiveWeights(weights, {}, width);
    assert ws == weights + ws[|weights|..];
    SumConcat(weights, ws[|weights|..]);
    ZeroSum(ws[|weights|..]);
  }

  /** One draw from the leaf row: the index the roll made from `entropy`
      selects. It is always an item that can still be drawn. */
  function DrawOne(weights: seq<nat>, withdrawn: set<nat>, width: nat, entropy: nat): (i: nat)
    requires Sum(ActiveWeights(weights, withdrawn, width)) >= 1
    ensures i in Drawable(weights, withdrawn)
  {
    var ws := ActiveWeights(weights, withdrawn, width);
    SelectPositive(ws, Roll(entropy, Sum(ws)));
    Select(ws, Roll(entropy, Sum(ws)))
  }

  /** The set of items listed in s. */
  function ItemsOf(s: seq<nat>): (items: set<nat>)
  {
    set x | x in s
  }

  /** No element of s occurs twice. */
  ghost predicate Distinct(s: seq<nat>)
  {
    forall j, k :: 0 <= j < k < |s| ==> s[j] != s[k]
  }

  /** `indices` is what a batch of draws returns: draw j is the item that
      entropy[j] selects once the items of draws 0 .. j-1 are withdrawn as
      well. */
  ghost predicate Draws(weights: seq<nat>, withdrawn: set<nat>, width: nat,
                        entropy: seq<nat>, indices: seq<nat>)
  {
    |indices| <= |entropy| &&
    forall j :: 0 <= j < |indices| ==>
      Sum(ActiveWeights(weights, withdrawn + ItemsOf(indices[..j]), width)) >= 1 &&
      indices[j] == DrawOne(weights, withdrawn + ItemsOf(indices[..j]), width, entropy[j])
  }

  /** A batch grows by the next draw. */
  lemma DrawsExtend(weights: seq<nat>, withdrawn: set<nat>, width: nat,
                    entropy: seq<nat>, indices: seq<nat>, i: nat)
    requires Draws(weights, withdrawn, width, entropy, indices)
    requires |indices| < |entropy|
    requires Sum(ActiveWeights(weights, withdrawn + ItemsOf(indices), width)) >= 1
    requires i == DrawOne(weights, withdrawn + ItemsOf(indices), width, entropy[|indices|])
    ensures Draws(weights, withdrawn, width, entropy, indices + [i])
    ensures ItemsOf(indices + [i]) == ItemsOf(indices) + {i}
    ensures (withdrawn + ItemsOf(indices)) + {i} == withdrawn + ItemsOf(indices + [i])
  {
    var next := indices + [i];
    assert next[..|indices|] == indices;
    forall j | 0 <= j < |indices| ensures next[..j] == indices[..j] {
    }
    assert ItemsOf(next) == ItemsOf(indices) + {i};
  }

  /** The items of a batch are pairwise distinct, and each was drawable
      when the batch started: a draw never returns an item already
      withdrawn, and earlier draws of the batch are withdrawn. */
  lemma DrawsDistinct(weights: seq<nat>, withdrawn: set<nat>, width: nat,
                      entropy: seq<nat>, indices: seq<nat>)
    requires Draws(weights, withdrawn, width, entropy, indices)
    ensures Distinct(indices)
    ensures forall j :: 0 <= j < |indices| ==> indices[j] in Drawable(weights, withdrawn)
  {
    forall j, k | 0 <= j < k < |indices| ensures indices[j] != indices[k] {
      assert indices[j] in ItemsOf(indices[..k]);
      assert indices[k] in Drawable(weights, withdrawn + ItemsOf(indices[..k]));
    }
    forall j | 0 <= j < |indices| ensures indices[j] in Drawable(weights, withdrawn) {
      assert indices[j] in Drawable(weights, withdrawn + ItemsOf(indices[..j]));
    }
  }
}
