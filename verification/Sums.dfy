/** Sums over a sequence, for counting threads and for measures of the work they have left. */
module Sums {

  function Sum<T>(xs: seq<T>, f: T -> nat): nat
  {
    if xs == [] then 0 else Sum(xs[..|xs| - 1], f) + f(xs[|xs| - 1])
  }

  lemma {:induction false} SumUpdate<T>(xs: seq<T>, i: nat, x: T, f: T -> nat)
    requires i < |xs|
    ensures Sum(xs[i := x], f) == Sum(xs, f) - f(xs[i]) + f(x)
  {
    var n := |xs| - 1;
    if i < n {
      SumUpdate(xs[..n], i, x, f);
      assert xs[i := x][..n] == xs[..n][i := x];
    } else {
      assert xs[i := x][..n] == xs[..n];
    }
  }

  lemma {:induction false} SumAtLeast<T>(xs: seq<T>, i: nat, f: T -> nat)
    requires i < |xs|
    ensures Sum(xs, f) >= f(xs[i])
  {
    var n := |xs| - 1;
    if i < n {
      SumAtLeast(xs[..n], i, f);
    }
  }

  lemma {:induction false} SumBound<T>(xs: seq<T>, f: T -> nat, b: nat)
    requires forall i :: 0 <= i < |xs| ==> f(xs[i]) <= b
    ensures Sum(xs, f) <= |xs| * b
  {
    if xs != [] {
      SumBound(xs[..|xs| - 1], f, b);
      assert |xs| * b == (|xs| - 1) * b + b;
    }
  }

  lemma {:induction false} SumAtMost<T>(xs: seq<T>, f: T -> nat, g: T -> nat)
    requires forall i :: 0 <= i < |xs| ==> f(xs[i]) <= g(xs[i])
    ensures Sum(xs, f) <= Sum(xs, g)
  {
    if xs != [] {
      SumAtMost(xs[..|xs| - 1], f, g);
    }
  }

  lemma {:induction false} SumLess<T>(xs: seq<T>, f: T -> nat, g: T -> nat, i: nat)
    requires forall j :: 0 <= j < |xs| ==> f(xs[j]) <= g(xs[j])
    requires i < |xs| && f(xs[i]) < g(xs[i])
    ensures Sum(xs, f) < Sum(xs, g)
  {
    var n := |xs| - 1;
    if i < n {
      SumLess(xs[..n], f, g, i);
    } else {
      SumAtMost(xs[..n], f, g);
    }
  }

  lemma {:induction false} SumSame<T>(xs: seq<T>, ys: seq<T>, f: T -> nat)
    requires |xs| == |ys| && forall i :: 0 <= i < |xs| ==> f(xs[i]) == f(ys[i])
    ensures Sum(xs, f) == Sum(ys, f)
  {
    if xs != [] {
      SumSame(xs[..|xs| - 1], ys[..|ys| - 1], f);
    }
  }

  lemma {:induction false} SumSplit<T>(xs: seq<T>, f: T -> nat, g: T -> nat, h: T -> nat, k: T -> nat)
    requires forall i :: 0 <= i < |xs| ==> f(xs[i]) == g(xs[i]) + h(xs[i]) + k(xs[i])
    ensures Sum(xs, f) == Sum(xs, g) + Sum(xs, h) + Sum(xs, k)
  {
    if xs != [] {
      SumSplit(xs[..|xs| - 1], f, g, h, k);
    }
  }

  // ----- counting -----

  function One(b: bool): nat
  {
    if b then 1 else 0
  }

  function Indicator<T>(p: T -> bool): T -> nat
  {
    (x: T) => One(p(x))
  }

  /** How many elements satisfy `p`. */
  function Count<T>(xs: seq<T>, p: T -> bool): nat
  {
    Sum(xs, Indicator(p))
  }

  lemma CountUpdate<T>(xs: seq<T>, i: nat, x: T, p: T -> bool)
    requires i < |xs|
    ensures Count(xs[i := x], p) == Count(xs, p) - One(p(xs[i])) + One(p(x))
  {
    SumUpdate(xs, i, x, Indicator(p));
  }

  lemma NoneCounted<T>(xs: seq<T>, p: T -> bool)
    ensures Count(xs, p) == 0 <==> forall i :: 0 <= i < |xs| ==> !p(xs[i])
  {
    if Count(xs, p) == 0 {
      forall i | 0 <= i < |xs| ensures !p(xs[i]) {
        SumAtLeast(xs, i, Indicator(p));
      }
    } else if forall i :: 0 <= i < |xs| ==> !p(xs[i]) {
      SumBound(xs, Indicator(p), 0);
      assert false;
    }
  }
}
