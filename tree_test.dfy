/** The distinctness test of the repository's tree test: a tree over the
    weights 0, 1, .., n-1 draws n-1 items, and `validate` checks that no
    item came out twice. */
module TreeTest {
  import opened Sampling
  import opened Draw

  /** The weights 0, 1, .., n-1. */
  function Iota(n: nat): (ws: seq<nat>)
    // length and elements spelled out so that callers see them without unfolding
    ensures |ws| == n && forall i :: 0 <= i < n ==> ws[i] == i
  {
    seq(n, i requires 0 <= i < n => i)
  }

  /** A sequence has at most as many different items as elements, and
      exactly as many when no item repeats. */
  lemma {:induction false} ItemsCount(s: seq<nat>)
    ensures |ItemsOf(s)| <= |s|
    ensures |ItemsOf(s)| == |s| <==> Distinct(s)
  {
    if s != [] {
      var init, x := s[..|s| - 1], s[|s| - 1];
      ItemsCount(init);
      assert s == init + [x];
      assert ItemsOf(s) == ItemsOf(init) + {x};
      if x in ItemsOf(init) {
        var j :| 0 <= j < |init| && init[j] == x;
        assert s[j] == s[|s| - 1];
      } else {
        assert Distinct(s) <==> Distinct(init);
      }
    }
  }

  /** validate: the items of vec, put into a set, are as many as vec's
      elements, i.e. no item repeats. */
  function Validate(vec: seq<nat>): (ok: bool)
    ensures ok <==> Distinct(vec)
  {
    ItemsCount(vec);
    |ItemsOf(vec)| == |vec|
  }

  /** The numbers lo .. hi-1. */
  function Range(lo: nat, hi: nat): (r: set<nat>)
    ensures forall x :: x in r <==> lo <= x < hi
    decreases hi - lo
  {
    if lo >= hi then {} else {lo} + Range(lo + 1, hi)
  }

  /** The numbers lo .. hi-1 are hi - lo many. */
  lemma {:induction false} RangeCount(lo: nat, hi: nat)
    requires lo <= hi
    ensures |Range(lo, hi)| == hi - lo
    decreases hi - lo
  {
    if lo < hi {
      RangeCount(lo + 1, hi);
    }
  }

  /** Over the weights 0 .. n-1 every item but item 0 can be drawn. */
  lemma IotaDrawable(n: nat)
    requires n >= 1
    ensures |Drawable(Iota(n), {})| == n - 1
  {
    assert Drawable(Iota(n), {}) == Range(1, n);
    RangeCount(1, n);
  }

  /** test(n): builds the weights 0 .. n-1 one by one, draws n-1 items
      with the rolls `entropy` gives, and validates the result. It always
      succeeds. */
  method Test(n: nat, entropy: seq<nat>) returns (ok: bool)
    requires 1 <= n <= IntMax
    requires |entropy| == n - 1
    ensures ok
  {
    var inputVec: seq<nat> := [];
    var i := 0;
    while i < n
      invariant 0 <= i <= n && inputVec == Iota(i)
    {
      inputVec := inputVec + [i];
      i := i + 1;
    }
    var t := new DrawTree(inputVec);
    IotaDrawable(n);
    var res := t.Get(n - 1, entropy);
    ok := Validate(res);
  }
}
