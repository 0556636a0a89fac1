/** Sums of an integer measure over a sequence. */
module Sums {
  function Sum<T>(xs: seq<T>, f: T -> int): int {
    if xs == [] then 0 else f(xs[0]) + Sum(xs[1..], f)
  }

  lemma {:induction false} SumUpdate<T>(xs: seq<T>, c: nat, x: T, f: T -> int)
    requires c < |xs|
    ensures Sum(xs[c := x], f) == Sum(xs, f) - f(xs[c]) + f(x)
  {
    if c == 0 {
      assert xs[0 := x][1..] == xs[1..];
    } else {
      assert xs[c := x][1..] == xs[1..][c - 1 := x];
      SumUpdate(xs[1..], c - 1, x, f);
    }
  }

  lemma {:induction false} SumAppend<T>(xs: seq<T>, ys: seq<T>, f: T -> int)
    ensures Sum(xs + ys, f) == Sum(xs, f) + Sum(ys, f)
  {
    if xs == [] {
      assert xs + ys == ys;
    } else {
      assert (xs + ys)[1..] == xs[1..] + ys;
      SumAppend(xs[1..], ys, f);
    }
  }

  /** A linear relation that holds of every element holds of the sums. */
  lemma {:induction false} SumAtMost<T>(xs: seq<T>, f: T -> int, g: T -> int)
    requires forall i :: 0 <= i < |xs| ==> f(xs[i]) <= g(xs[i])
    ensures Sum(xs, f) <= Sum(xs, g)
  {
    if xs != [] {
      SumAtMost(xs[1..], f, g);
    }
  }

  lemma {:induction false} SumConstant<T>(xs: seq<T>, f: T -> int, k: int)
    requires forall i :: 0 <= i < |xs| ==> f(xs[i]) == k
    ensures Sum(xs, f) == |xs| * k
  {
    if xs != [] {
      SumConstant(xs[1..], f, k);
      assert (|xs| - 1) * k + k == |xs| * k;
    }
  }

  lemma {:induction false} SumOfTwo<T>(xs: seq<T>, f: T -> int, g: T -> int, h: T -> int)
    requires forall i :: 0 <= i < |xs| ==> h(xs[i]) == f(xs[i]) + g(xs[i])
    ensures Sum(xs, h) == Sum(xs, f) + Sum(xs, g)
  {
    if xs != [] {
      SumOfTwo(xs[1..], f, g, h);
    }
  }
}
