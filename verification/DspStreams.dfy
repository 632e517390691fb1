/**
 Linear filters on unbounded streams, over the reals. A stream is the sequence of all samples so
 far; before its start it is zero.
 */
module DspStreams {

  function At(s: seq<real>, i: int): real {
    if 0 <= i < |s| then s[i] else 0.0
  }

  /** c[0]*s[n] + c[1]*s[n-1] + ... */
  function Dot(c: seq<real>, s: seq<real>, n: int): real
    decreases |c|
  {
    if c == [] then 0.0 else c[0] * At(s, n) + Dot(c[1..], s, n - 1)
  }

  /** The answer to a single sample of one at place `k` is the coefficients, one after the other. */
  lemma {:induction false} ImpulseResponse(c: seq<real>, s: seq<real>, k: nat, n: int)
    requires k < |s| && forall i :: 0 <= i < |s| ==> s[i] == if i == k then 1.0 else 0.0
    ensures Dot(c, s, n) == if 0 <= n - k < |c| then c[n - k] else 0.0
    decreases |c|
  {
    if c != [] { ImpulseResponse(c[1..], s, k, n - 1); }
  }

  /** Only the samples under the coefficients count, wherever they lie. */
  lemma {:induction false} DotShift(c: seq<real>, s: seq<real>, n: int, t: seq<real>, d: int)
    requires forall i :: n - |c| < i <= n ==> At(s, i) == At(t, i + d)
    ensures Dot(c, s, n) == Dot(c, t, n + d)
    decreases |c|
  {
    if c != [] {
      DotShift(c[1..], s, n - 1, t, d);
    }
  }

  lemma DotPrefix(c: seq<real>, s: seq<real>, t: seq<real>, n: int)
    requires n < |s| && s <= t
    ensures Dot(c, s, n) == Dot(c, t, n)
  {
    DotShift(c, s, n, t, 0);
  }

  lemma {:induction false} DotBefore(c: seq<real>, s: seq<real>, n: int)
    requires n < 0
    ensures Dot(c, s, n) == 0.0
    decreases |c|
  {
    if c != [] { DotBefore(c[1..], s, n - 1); }
  }

  /** Coefficients that only meet samples before the start do not matter. */
  lemma {:induction false} DotTruncate(c: seq<real>, s: seq<real>, n: nat)
    requires n + 1 <= |c|
    ensures Dot(c, s, n) == Dot(c[..n + 1], s, n)
    decreases n
  {
    if n == 0 {
      DotBefore(c[1..], s, -1);
      assert c[..1][1..] == [];
      assert Dot(c[..1][1..], s, -1) == 0.0;
    } else {
      DotTruncate(c[1..], s, n - 1);
      assert c[1..][..n] == c[..n + 1][1..];
    }
  }

  /** b applied to the stream of a's results. */
  function Twice(b: seq<real>, a: seq<real>, s: seq<real>, n: int): real
    decreases |b|
  {
    if b == [] then 0.0 else b[0] * Dot(a, s, n) + Twice(b[1..], a, s, n - 1)
  }

  lemma {:induction false} TwiceNone(a: seq<real>, s: seq<real>, n: int)
    ensures Twice(a, [], s, n) == 0.0
    decreases |a|
  {
    if a != [] { TwiceNone(a[1..], s, n - 1); }
  }

  lemma {:induction false} TwiceSplit(a: seq<real>, b: seq<real>, s: seq<real>, n: int)
    requires b != []
    ensures Twice(a, b, s, n) == b[0] * Dot(a, s, n) + Twice(a, b[1..], s, n - 1)
    decreases |a|
  {
    hide Dot, Twice, At;
    if a == [] {
      NothingSplit(b, s, n);
    } else {
      TwiceSplit(a[1..], b, s, n - 1);
      TwiceUnfold(a, b, s, n);
      TwiceUnfold(a, b[1..], s, n - 1);
      DotUnfold(a, s, n);
      DotUnfold(b, s, n);
      Products(a[0], b[0], At(s, n), Dot(b[1..], s, n - 1), Dot(a[1..], s, n - 1));
    }
  }

  lemma NothingSplit(b: seq<real>, s: seq<real>, n: int)
    requires b != []
    ensures Twice([], b, s, n) == 0.0 == b[0] * Dot([], s, n) + Twice([], b[1..], s, n - 1)
  {}

  lemma Products(x: real, y: real, s: real, p: real, q: real)
    ensures x * (y * s + p) + y * q == y * (x * s + q) + x * p
  {
    Spread(x, y * s, p);
    Spread(y, x * s, q);
    assert x * (y * s) == y * (x * s);
  }

  /** The order of the two sums does not matter. */
  lemma {:induction false} TwiceSwap(b: seq<real>, a: seq<real>, s: seq<real>, n: int)
    ensures Twice(b, a, s, n) == Twice(a, b, s, n)
    decreases |b|
  {
    hide Dot, Twice;
    if b == [] {
      NothingApplied(a, s, s, n + 1);
      TwiceNone(a, s, n);
    } else {
      TwiceSwap(b[1..], a, s, n - 1);
      TwiceUnfold(b, a, s, n);
      TwiceSplit(a, b, s, n);
    }
  }

  /** Each sample is that of `v` plus what `a` makes of the samples before it. */
  ghost predicate Recurs(a: seq<real>, x: seq<real>, v: seq<real>) {
    |x| == |v| && forall m :: 0 <= m < |x| ==> x[m] == v[m] + Dot(a, v, m - 1)
  }

  lemma DotUnfold(c: seq<real>, s: seq<real>, n: int)
    requires c != []
    ensures Dot(c, s, n) == c[0] * At(s, n) + Dot(c[1..], s, n - 1)
  {}

  lemma TwiceUnfold(b: seq<real>, a: seq<real>, s: seq<real>, n: int)
    requires b != []
    ensures Twice(b, a, s, n) == b[0] * Dot(a, s, n) + Twice(b[1..], a, s, n - 1)
  {}

  lemma Spread(c: real, p: real, q: real)
    ensures c * (p + q) == c * p + c * q
  {}

  lemma SampleOfSum(a: seq<real>, x: seq<real>, v: seq<real>, n: int)
    requires Recurs(a, x, v) && n < |x|
    ensures At(x, n) == At(v, n) + Dot(a, v, n - 1)
  {
    hide Dot;
    if n < 0 { DotBefore(a, v, n - 1); }
  }

  lemma {:induction false} DotOfSum(b: seq<real>, a: seq<real>, x: seq<real>, v: seq<real>, n: int)
    requires Recurs(a, x, v) && n < |x|
    ensures Dot(b, x, n) == Dot(b, v, n) + Twice(b, a, v, n - 1)
    decreases |b|
  {
    hide Dot, Twice, At, Recurs;
    if b == [] {
      NothingApplied(a, x, v, n);
    } else {
      DotOfSum(b[1..], a, x, v, n - 1);
      SampleOfSum(a, x, v, n);
      DotUnfold(b, x, n);
      DotUnfold(b, v, n);
      TwiceUnfold(b, a, v, n - 1);
      Spread(b[0], At(v, n), Dot(a, v, n - 1));
    }
  }

  lemma NothingApplied(a: seq<real>, x: seq<real>, v: seq<real>, n: int)
    ensures Dot([], x, n) == 0.0 && Dot([], v, n) == 0.0 && Twice([], a, v, n - 1) == 0.0
  {}

  /** The samples of `w` are what `b` makes of `v`. */
  ghost predicate Filtered(b: seq<real>, v: seq<real>, w: seq<real>) {
    |w| <= |v| && forall m :: 0 <= m < |w| ==> w[m] == Dot(b, v, m)
  }

  lemma {:induction false} DotOfFiltered(a: seq<real>, b: seq<real>, v: seq<real>, w: seq<real>, n: int)
    requires Filtered(b, v, w) && n < |w|
    ensures Dot(a, w, n) == Twice(a, b, v, n)
    decreases |a|
  {
    if a != [] {
      DotOfFiltered(a[1..], b, v, w, n - 1);
      if n < 0 { DotBefore(b, v, n); }
      assert At(w, n) == Dot(b, v, n);
    }
  }

  /** The auxiliary stream of direct form II from rest: v[n] = x[n] - a[0]*v[n-1] - a[1]*v[n-2] - ... */
  function Aux(a: seq<real>, x: seq<real>): (v: seq<real>)
    ensures |v| == |x|
  {
    if x == [] then [] else
      var n := |x| - 1;
      var v := Aux(a, x[..n]);
      v + [x[n] - Dot(a, v, n - 1)]
  }

  /** The output of direct form I from rest: y[n] = b applied to x, minus a applied to the outputs before. */
  function FromRest(b: seq<real>, a: seq<real>, x: seq<real>): (y: seq<real>)
    ensures |y| == |x|
  {
    if x == [] then [] else
      var n := |x| - 1;
      var y := FromRest(b, a, x[..n]);
      y + [Dot(b, x, n) - Dot(a, y, n - 1)]
  }

  lemma {:induction false} AuxRecurs(a: seq<real>, x: seq<real>)
    ensures Recurs(a, x, Aux(a, x))
    decreases |x|
  {
    if x != [] {
      var n := |x| - 1;
      var v, head := Aux(a, x), Aux(a, x[..n]);
      AuxRecurs(a, x[..n]);
      forall m | 0 <= m < |x| ensures x[m] == v[m] + Dot(a, v, m - 1) {
        DotPrefix(a, head, v, m - 1);
        if m < n { assert x[..n][m] == head[m] + Dot(a, head, m - 1); }
      }
    }
  }

  /**
   Direct form II computes direct form I: for every order, every coefficients and every input
   stream, b applied to the auxiliary stream is the output of the recursion on inputs and outputs.
   */
  lemma {:induction false} FormsAgree(b: seq<real>, a: seq<real>, x: seq<real>)
    ensures Filtered(b, Aux(a, x), FromRest(b, a, x))
    decreases |x|
  {
    if x != [] {
      var n := |x| - 1;
      var v, w, y := Aux(a, x), FromRest(b, a, x[..n]), FromRest(b, a, x);
      FormsAgree(b, a, x[..n]);
      LastOutput(b, a, x, v, w);
      forall m | 0 <= m < |y| ensures y[m] == Dot(b, v, m) {
        if m < n {
          assert w[m] == Dot(b, Aux(a, x[..n]), m);
          DotPrefix(b, Aux(a, x[..n]), v, m);
        }
      }
    }
  }

  lemma LastOutput(b: seq<real>, a: seq<real>, x: seq<real>, v: seq<real>, w: seq<real>)
    requires x != [] && v == Aux(a, x) && |w| == |x| - 1 && Filtered(b, Aux(a, x[..|x| - 1]), w)
    ensures Dot(b, x, |x| - 1) - Dot(a, w, |x| - 2) == Dot(b, v, |x| - 1)
  {
    var n := |x| - 1;
    AuxRecurs(a, x);
    DotOfSum(b, a, x, v, n);
    forall m | 0 <= m < |w| ensures w[m] == Dot(b, v, m) {
      DotPrefix(b, Aux(a, x[..n]), v, m);
    }
    DotOfFiltered(a, b, v, w, n - 1);
    TwiceSwap(b, a, v, n - 1);
  }
}
