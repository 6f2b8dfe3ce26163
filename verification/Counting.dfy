/** Counting the threads that are at some point of their program. */
module Counting {

  function CountIf<T>(xs: seq<T>, p: T -> bool): nat {
    if xs == [] then 0 else CountIf(xs[..|xs| - 1], p) + (if p(xs[|xs| - 1]) then 1 else 0)
  }

  /** Moving one thread changes a count by at most one. */
  lemma {:induction false} CountUpdate<T>(xs: seq<T>, i: nat, x: T, p: T -> bool)
    requires i < |xs|
    ensures CountIf(xs[i := x], p) + (if p(xs[i]) then 1 else 0) == CountIf(xs, p) + (if p(x) then 1 else 0)
    decreases |xs|
  {
    var n := |xs| - 1;
    if i < n {
      CountUpdate(xs[..n], i, x, p);
      assert xs[i := x][..n] == xs[..n][i := x];
    } else {
      assert xs[i := x][..n] == xs[..n];
    }
  }

  lemma {:induction false} CountSome<T>(xs: seq<T>, p: T -> bool)
    ensures CountIf(xs, p) > 0 <==> exists i :: 0 <= i < |xs| && p(xs[i])
    decreases |xs|
  {
    if xs != [] {
      var n := |xs| - 1;
      CountSome(xs[..n], p);
      if CountIf(xs[..n], p) > 0 {
        var i :| 0 <= i < n && p(xs[..n][i]);
        assert p(xs[i]);
      }
      if i :| 0 <= i < |xs| && p(xs[i]) {
        assert i < n ==> p(xs[..n][i]);
      }
    }
  }

  lemma {:induction false} CountSame<T>(xs: seq<T>, ys: seq<T>, p: T -> bool)
    requires |xs| == |ys| && forall i :: 0 <= i < |xs| ==> p(xs[i]) == p(ys[i])
    ensures CountIf(xs, p) == CountIf(ys, p)
    decreases |xs|
  {
    if xs != [] {
      var n := |xs| - 1;
      CountSame(xs[..n], ys[..n], p);
    }
  }

  lemma {:induction false} CountBound<T>(xs: seq<T>, p: T -> bool)
    ensures CountIf(xs, p) <= |xs|
    decreases |xs|
  {
    if xs != [] {
      CountBound(xs[..|xs| - 1], p);
    }
  }
}
