/** Polynomials over GF(2^8), highest power first: evaluation, products and roots. */
module Poly {
  import opened Gf256

  type Poly = seq<bv8>

  function Zeros(n: nat): (z: Poly)
    ensures |z| == n && forall i :: 0 <= i < n ==> z[i] == 0
  {
    seq(n, _ => 0)
  }

  function Plus(a: Poly, b: Poly): (s: Poly)
    requires |a| == |b|
    ensures |s| == |a| && forall i :: 0 <= i < |a| ==> s[i] == Add(a[i], b[i])
  {
    seq(|a|, i requires 0 <= i < |a| => Add(a[i], b[i]))
  }

  function Scale(c: bv8, p: Poly): (s: Poly)
    ensures |s| == |p| && forall i :: 0 <= i < |p| ==> s[i] == Mul(p[i], c)
  {
    seq(|p|, i requires 0 <= i < |p| => Mul(p[i], c))
  }

  /** The schoolbook product: for every further coefficient f of q, shift and add f * g. */
  function Times(q: Poly, g: Poly): (p: Poly)
    requires |g| > 0
    ensures |p| == |q| + |g| - 1
  {
    if q == [] then Zeros(|g| - 1)
    else
      var n := |q| - 1;
      Plus(Times(q[..n], g) + [0], Zeros(n) + Scale(q[n], g))
  }

  /** The value at x. */
  function Eval(p: Poly, x: bv8): bv8 {
    if p == [] then 0 else Add(Mul(Eval(p[..|p| - 1], x), x), p[|p| - 1])
  }

  // ----- evaluation is a ring homomorphism

  lemma EvalSnoc(p: Poly, c: bv8, x: bv8)
    ensures Eval(p + [c], x) == Add(Mul(Eval(p, x), x), c)
  {
    hide Add, Mul;
    assert (p + [c])[..|p|] == p;
  }

  lemma {:induction false} EvalZeros(n: nat, x: bv8)
    ensures Eval(Zeros(n), x) == 0
  {
    hide Add, Mul;
    if n > 0 {
      assert Zeros(n)[..n - 1] == Zeros(n - 1);
      EvalZeros(n - 1, x);
      MulZero(x);
      AddZero(0);
    }
  }

  lemma {:induction false} EvalPlus(a: Poly, b: Poly, x: bv8)
    requires |a| == |b|
    ensures Eval(Plus(a, b), x) == Add(Eval(a, x), Eval(b, x))
  {
    hide Add, Mul;
    AddZero(0);
    if a != [] {
      var n := |a| - 1;
      assert Plus(a, b)[..n] == Plus(a[..n], b[..n]);
      EvalPlus(a[..n], b[..n], x);
      MulAddLeft(Eval(a[..n], x), Eval(b[..n], x), x);
      AddSwap(Mul(Eval(a[..n], x), x), Mul(Eval(b[..n], x), x), a[n], b[n]);
    }
  }

  lemma {:induction false} EvalScale(c: bv8, p: Poly, x: bv8)
    ensures Eval(Scale(c, p), x) == Mul(c, Eval(p, x))
  {
    hide Add, Mul;
    MulZero(c);
    if p != [] {
      var n := |p| - 1;
      assert Scale(c, p)[..n] == Scale(c, p[..n]);
      EvalScale(c, p[..n], x);
      MulAssoc(c, Eval(p[..n], x), x);
      MulComm(c, p[n]);
      MulAddRight(c, Mul(Eval(p[..n], x), x), p[n]);
    }
  }

  lemma {:induction false} EvalPadded(n: nat, p: Poly, x: bv8)
    ensures Eval(Zeros(n) + p, x) == Eval(p, x)
  {
    hide Add, Mul;
    if p == [] {
      assert Zeros(n) + p == Zeros(n);
      EvalZeros(n, x);
    } else {
      var m := |p| - 1;
      assert (Zeros(n) + p)[..n + m] == Zeros(n) + p[..m];
      EvalPadded(n, p[..m], x);
    }
  }

  lemma {:induction false} EvalTimes(q: Poly, g: Poly, x: bv8)
    requires |g| > 0
    ensures Eval(Times(q, g), x) == Mul(Eval(q, x), Eval(g, x))
  {
    hide Add, Mul;
    if q == [] {
      EvalZeros(|g| - 1, x);
      MulZero(Eval(g, x));
    } else {
      var n := |q| - 1;
      var p, e, v := Times(q[..n], g), Eval(q[..n], x), Eval(g, x);
      EvalTimes(q[..n], g, x);
      EvalPlus(p + [0], Zeros(n) + Scale(q[n], g), x);
      EvalSnoc(p, 0, x);
      AddZero(Mul(Eval(p, x), x));
      EvalPadded(n, Scale(q[n], g), x);
      EvalScale(q[n], g, x);
      MulAssoc(e, v, x);
      MulComm(v, x);
      MulAssoc(e, x, v);
      MulAddLeft(Mul(e, x), q[n], v);
    }
  }
}
