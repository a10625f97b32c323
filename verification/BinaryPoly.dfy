/** Bit strings as polynomials over GF(2), highest power first: sum, product, and division with a unique remainder. */
module BinaryPolys {
  type Bits = seq<bool>

  function Xor(a: Bits, b: Bits): (s: Bits)
    requires |a| == |b|
    ensures |s| == |a| && forall k :: 0 <= k < |a| ==> s[k] == (a[k] != b[k])
  {
    seq(|a|, k requires 0 <= k < |a| => a[k] != b[k])
  }

  function Zeros(n: nat): (s: Bits)
    ensures |s| == n && forall k :: 0 <= k < n ==> !s[k]
  {
    seq(n, _ => false)
  }

  /** The schoolbook product: for every further coefficient of q, shift and add d where it is one. */
  function Product(q: Bits, d: Bits): (p: Bits)
    requires d != []
    ensures |p| == |q| + |d| - 1
  {
    if q == [] then Zeros(|d| - 1)
    else
      var n := |q| - 1;
      Xor(Product(q[..n], d) + [false], Zeros(n) + if q[n] then d else Zeros(|d|))
  }

  lemma XorCancel(r: Bits, a: Bits, b: Bits)
    requires |r| == |a| == |b|
    ensures Xor(r, a) == Xor(r, b) ==> a == b
    ensures Xor(a, r) == Xor(b, r) ==> a == b
  {
    assert Xor(r, a) == Xor(a, r) && Xor(r, b) == Xor(b, r);
    if Xor(r, a) == Xor(r, b) {
      forall k | 0 <= k < |r|
        ensures a[k] == b[k]
      {
        assert Xor(r, a)[k] == Xor(r, b)[k];
      }
    }
  }

  lemma Rearrange(t: Bits, u: Bits, v: Bits, w: Bits)
    requires |t| == |u| && |v| == |w| == |t| + 1
    ensures Xor(Xor(t, u) + [false], v) == Xor(Xor(t + [false], w), Xor(Xor(u + [false], v), w))
  {
  }

  lemma ProductSnoc(q: Bits, b: bool, d: Bits)
    requires d != []
    ensures Product(q + [b], d) == Xor(Product(q, d) + [false], Zeros(|q|) + if b then d else Zeros(|d|))
  {
    hide Xor, Zeros;
    assert (q + [b])[..|q|] == q;
  }

  // ----- the remainder is unique

  lemma XorFour(a: Bits, b: Bits, u: Bits, v: Bits)
    requires |a| == |b| && |u| == |v| == |a| + 1
    ensures Xor(Xor(a + [false], u), Xor(b + [false], v)) == Xor(Xor(a, b) + [false], Xor(u, v))
  {
  }

  lemma ChosenXor(n: nat, d: Bits, x: bool, y: bool)
    ensures Xor(Zeros(n) + (if x then d else Zeros(|d|)), Zeros(n) + (if y then d else Zeros(|d|)))
         == Zeros(n) + if x != y then d else Zeros(|d|)
  {
  }

  lemma {:induction false} ProductXor(q: Bits, r: Bits, d: Bits)
    requires |q| == |r| && d != []
    ensures Xor(Product(q, d), Product(r, d)) == Product(Xor(q, r), d)
  {
    if q == [] {
      assert Xor(Zeros(|d| - 1), Zeros(|d| - 1)) == Zeros(|d| - 1);
    } else {
      var n := |q| - 1;
      var x, y := q[n], r[n];
      assert Xor(q, r)[..n] == Xor(q[..n], r[..n]);
      ProductXor(q[..n], r[..n], d);
      ChosenXor(n, d, x, y);
      hide Xor, Zeros;
      XorFour(Product(q[..n], d), Product(r[..n], d),
              Zeros(n) + (if x then d else Zeros(|d|)), Zeros(n) + (if y then d else Zeros(|d|)));
    }
  }

  /** A product by a polynomial other than zero, of full length, has a term among the first. */
  lemma {:induction false} Leading(q: Bits, d: Bits) returns (i: nat)
    requires d != [] && d[0] && exists k :: 0 <= k < |q| && q[k]
    ensures i < |q| && Product(q, d)[i]
  {
    var n := |q| - 1;
    if k :| 0 <= k < n && q[k] {
      assert q[..n][k];
      i := Leading(q[..n], d);
    } else {
      ProductNone(q[..n], d);
      i := n;
    }
  }

  lemma {:induction false} ProductNone(q: Bits, d: Bits)
    requires d != [] && forall k :: 0 <= k < |q| ==> !q[k]
    ensures forall k :: 0 <= k < |Product(q, d)| ==> !Product(q, d)[k]
  {
    if q != [] {
      var n := |q| - 1;
      assert forall k :: 0 <= k < n ==> !q[..n][k];
      ProductNone(q[..n], d);
    }
  }

  /** Quotient times divisor plus a remainder of lower degree: there is only one such remainder. */
  lemma RemainderUnique(q: Bits, q': Bits, d: Bits, r: Bits, r': Bits)
    requires |q| == |q'| && d != [] && d[0] && |r| == |r'| == |d| - 1
    requires Xor(Product(q, d), Zeros(|q|) + r) == Xor(Product(q', d), Zeros(|q|) + r')
    ensures r == r'
  {
    hide Product, Xor, Zeros;
    var n, sum := |q|, Xor(q, q');
    ProductXor(q, q', d);
    Difference(Product(q, d), Product(q', d), r, r', n);
    NoQuotient(sum, d, Xor(r, r'));
    ProductNone(sum, d);
    NoDifference(Product(sum, d), n, r, r');
  }

  lemma NoDifference(none: Bits, n: nat, r: Bits, r': Bits)
    requires |r| == |r'| && none == Zeros(n) + Xor(r, r') && forall k :: 0 <= k < |none| ==> !none[k]
    ensures r == r'
  {
    forall i | 0 <= i < |r| ensures r[i] == r'[i] {
      assert none[n + i] == Xor(r, r')[i];
    }
  }

  lemma NoQuotient(q: Bits, d: Bits, r: Bits)
    requires d != [] && d[0] && Product(q, d) == Zeros(|q|) + r
    ensures forall k :: 0 <= k < |q| ==> !q[k]
  {
    hide Product;
    if exists k :: 0 <= k < |q| && q[k] {
      var i := Leading(q, d);
      assert false;
    }
  }

  lemma Difference(a: Bits, b: Bits, r: Bits, r': Bits, n: nat)
    requires |r| == |r'| && |a| == |b| == n + |r|
    requires Xor(a, Zeros(n) + r) == Xor(b, Zeros(n) + r')
    ensures Xor(a, b) == Zeros(n) + Xor(r, r')
  {
    forall i | 0 <= i < |a| ensures Xor(a, b)[i] == (Zeros(n) + Xor(r, r'))[i] {
      assert Xor(a, Zeros(n) + r)[i] == Xor(b, Zeros(n) + r')[i];
    }
  }
}
