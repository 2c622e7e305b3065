/** A number raised step by step to at least some bounds. */
module Widening {
  /** At least `floor` if that is asked for. */
  function AtLeast(size: nat, asked: bool, floor: nat): nat { if asked && size < floor then floor else size }

  /** Each size is the one before, raised to at least x where that is asked for. */
  ghost predicate Steps(sizes: seq<nat>, asks: seq<bool>, x: nat) {
    && |sizes| == |asks| + 1
    && forall i :: 0 <= i < |asks| ==> sizes[i + 1] == AtLeast(sizes[i], asks[i], x)
  }

  /** The last size is the first one, raised if any step asks. */
  lemma {:induction false} LastStep(sizes: seq<nat>, asks: seq<bool>, x: nat)
    requires Steps(sizes, asks, x)
    ensures sizes[|asks|] == AtLeast(sizes[0], true in asks, x)
  {
    var n := |asks|;
    if n > 0 {
      LastStep(sizes[..n], asks[..n - 1], x);
      assert asks == asks[..n - 1] + [asks[n - 1]];
    }
  }

  /** The same with two bounds. */
  ghost predicate TwoSteps(sizes: seq<nat>, a: seq<bool>, b: seq<bool>, x: nat, y: nat) {
    && |sizes| == |a| + 1 == |b| + 1
    && forall i :: 0 <= i < |a| ==> sizes[i + 1] == AtLeast(AtLeast(sizes[i], a[i], x), b[i], y)
  }

  lemma {:induction false} LastOfTwo(sizes: seq<nat>, a: seq<bool>, b: seq<bool>, x: nat, y: nat)
    requires TwoSteps(sizes, a, b, x, y)
    ensures sizes[|a|] == AtLeast(AtLeast(sizes[0], true in a, x), true in b, y)
  {
    var n := |a|;
    if n > 0 {
      LastOfTwo(sizes[..n], a[..n - 1], b[..n - 1], x, y);
      assert a == a[..n - 1] + [a[n - 1]] && b == b[..n - 1] + [b[n - 1]];
    }
  }
}
