/** Sequences without repetition. */
module Sequences {

  ghost predicate NoDup(xs: seq<int>)
  {
    forall i, j | 0 <= i < j < |xs| :: xs[i] != xs[j]
  }

  ghost function Without(xs: seq<int>, k: nat): seq<int>
    requires k < |xs|
  {
    xs[..k] + xs[k + 1..]
  }

  lemma {:induction false} NoDupLength(xs: seq<int>, n: nat)
    requires NoDup(xs) && forall x | x in xs :: 0 <= x < n
    ensures |xs| <= n
  {
    if xs != [] {
      assert xs[0] in xs;
      if n - 1 in xs {
        var k :| 0 <= k < |xs| && xs[k] == n - 1;
        assert forall x | x in Without(xs, k) :: x in xs && x != n - 1;
        NoDupLength(Without(xs, k), n - 1);
      } else {
        NoDupLength(xs, n - 1);
      }
    }
  }
}
