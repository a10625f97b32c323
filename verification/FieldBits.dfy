/** The field's operations read on bit strings: addition is their sum, and multiplication their product modulo
    x^8 + x^4 + x^3 + x^2 + 1. */
module FieldBits {
  import opened BinaryPolys
  import opened BitBuckets
  import opened Gf256

  /** x^8 + x^4 + x^3 + x^2 + 1 */
  function Modulus(): Bits { [true, false, false, false, true, true, true, false, true] }

  /** The product of x and y is a multiple of the modulus plus p. */
  ghost predicate ProductModulo(x: bv8, y: bv8, p: bv8) {
    exists q: Bits :: |q| == 8 && [false] + Product(BitsOf([y]), BitsOf([x])) == Xor(Product(q, Modulus()), Zeros(8) + BitsOf([p]))
  }

  /** There is only one such p. */
  lemma ProductDetermined(x: bv8, y: bv8, p: bv8, p': bv8)
    requires ProductModulo(x, y, p) && ProductModulo(x, y, p')
    ensures p == p'
  {
    hide BitsOf, Xor, Product, Zeros;
    var all := [false] + Product(BitsOf([y]), BitsOf([x]));
    var q: Bits :| |q| == 8 && all == Xor(Product(q, Modulus()), Zeros(8) + BitsOf([p]));
    var q': Bits :| |q'| == 8 && all == Xor(Product(q', Modulus()), Zeros(8) + BitsOf([p']));
    RemainderUnique(q, q', Modulus(), BitsOf([p]), BitsOf([p']));
    SameByte(p, p');
  }

  lemma SameByte(a: bv8, b: bv8)
    requires BitsOf([a]) == BitsOf([b])
    ensures a == b
  {
    hide Bit;
    forall j | 0 <= j < 8 ensures Bit(a, j) == Bit(b, j) {
      assert BitsOf([a])[j] == BitsOf([b])[j];
    }
    SameBits(a, b);
  }

  // ----- one operation

  function Under(a: bv8, m: bv8): bv8 { a & m }

  lemma AddUnder(a: bv8, b: bv8, m: bv8)
    ensures Under(Add(a, b), m) == Add(Under(a, m), Under(b, m))
  {
  }

  lemma OneBit(a: bv8, k: nat)
    requires k < 8
    ensures Under(a, MaskBit(k)) == if Bit(a, k) then MaskBit(k) else 0
    ensures MaskBit(k) != 0
  {
  }

  lemma AddBit(a: bv8, b: bv8, k: nat)
    requires k < 8
    ensures Bit(Add(a, b), k) == (Bit(a, k) != Bit(b, k))
  {
    hide Add, MaskBit, Bit, Under;
    AddUnder(a, b, MaskBit(k));
    OneBit(a, k);
    OneBit(b, k);
    OneBit(Add(a, b), k);
    AddCancel(Under(a, MaskBit(k)), Under(b, MaskBit(k)));
  }

  lemma AddBits(a: bv8, b: bv8)
    ensures BitsOf([Add(a, b)]) == Xor(BitsOf([a]), BitsOf([b]))
  {
    hide Bit, Add;
    forall k | 0 <= k < 8 ensures BitsOf([Add(a, b)])[k] == Xor(BitsOf([a]), BitsOf([b]))[k] {
      AddBit(a, b, k);
    }
  }

  lemma DoubleBit(a: bv8, k: nat)
    requires k < 8
    ensures Bit(Double(a), k) == ((k < 7 && Bit(a, k + 1)) != (Bit(a, 0) && (k == 3 || k == 4 || k == 5 || k == 7)))
  {
  }

  /** One shift to the left, less the modulus if a term x^8 has come up. */
  lemma DoubleBits(a: bv8)
    ensures BitsOf([a]) + [false] == Xor(if Bit(a, 0) then Modulus() else Zeros(9), [false] + BitsOf([Double(a)]))
  {
    hide Bit, Double;
    forall k: nat | k < 8
      ensures BitsOf([Double(a)])[k]
           == ((k < 7 && BitsOf([a])[k + 1]) != (Bit(a, 0) && (k == 3 || k == 4 || k == 5 || k == 7)))
    {
      DoubleBit(a, k);
    }
    Reduced(BitsOf([a]), BitsOf([Double(a)]));
  }

  lemma Reduced(a: Bits, d: Bits)
    requires |a| == |d| == 8
    requires forall k: nat :: k < 8 ==> d[k] == ((k < 7 && a[k + 1]) != (a[0] && (k == 3 || k == 4 || k == 5 || k == 7)))
    ensures a + [false] == Xor(if a[0] then Modulus() else Zeros(9), [false] + d)
  {
    Terms();
    hide Modulus;
    var t := if a[0] then Modulus() else Zeros(9);
    assert |t| == 9;
    forall k: nat | k < 9 ensures (a + [false])[k] == (t[k] != ([false] + d)[k]) {
      if k > 0 { assert ([false] + d)[k] == d[k - 1]; }
    }
  }

  lemma Terms()
    ensures |Modulus()| == 9
    ensures forall k :: 0 <= k < 9 ==> Modulus()[k] == (k == 0 || k == 4 || k == 5 || k == 6 || k == 8)
  {
  }

  lemma HalfBit(y: bv8, k: nat)
    requires k < 8
    ensures Bit(Half(y), k) == (k > 0 && Bit(y, k - 1))
    ensures Odd(y) == Bit(y, 7)
  {
  }

  // ----- Horner's rule

  /** The low n bits. */
  function LowBits(y: bv8, n: nat): (bits: Bits)
    requires n <= 8
    ensures |bits| == n
  {
    BitsOf([y])[8 - n..]
  }

  lemma LowBitsHalf(y: bv8, n: nat)
    requires 0 < n <= 8
    ensures LowBits(y, n) == LowBits(Half(y), n - 1) + [Odd(y)]
  {
    hide Bit, Half, Odd;
    HalfBit(y, 7);
    forall k: nat | 0 < k < 8 ensures BitsOf([Half(y)])[k] == BitsOf([y])[k - 1] {
      HalfBit(y, k);
    }
    Moved(BitsOf([y]), BitsOf([Half(y)]), n);
  }

  lemma Moved(a: Bits, h: Bits, n: nat)
    requires |a| == |h| == 8 && 0 < n <= 8 && forall k: nat :: 0 < k < 8 ==> h[k] == a[k - 1]
    ensures a[8 - n..] == h[9 - n..] + [a[7]]
  {
  }

  /** One step: what is shifted, reduced and added on the bytes is one step of the products and of the division. */
  lemma HornerStep(m: bv8, prod: Bits, quot: Bits, n: nat, x: bv8, odd: bool)
    requires |prod| == |quot| == n + 8 && prod == Xor(quot, Zeros(n) + BitsOf([m]))
    ensures Xor(prod + [false], Zeros(n + 1) + if odd then BitsOf([x]) else Zeros(8))
         == Xor(Xor(quot + [false], Zeros(n) + if Bit(m, 0) then Modulus() else Zeros(9)),
                Zeros(n + 1) + BitsOf([Add(Double(m), if odd then x else 0)]))
  {
    DoubleBits(m);
    AddBits(Double(m), if odd then x else 0);
    NoneBits();
    hide Bit, Add, Double, BitsOf;
    var t, s := if Bit(m, 0) then Modulus() else Zeros(9), if odd then BitsOf([x]) else Zeros(8);
    StepBits(prod, quot, n, BitsOf([m]), t, BitsOf([Double(m)]), s);
  }

  lemma NoneBits()
    ensures BitsOf([0]) == Zeros(8)
  {
  }

  lemma StepBits(prod: Bits, quot: Bits, n: nat, m: Bits, t: Bits, d: Bits, s: Bits)
    requires |m| == |d| == |s| == 8 && |t| == 9 && |prod| == |quot| == n + 8
    requires prod == Xor(quot, Zeros(n) + m) && m + [false] == Xor(t, [false] + d)
    ensures Xor(prod + [false], Zeros(n + 1) + s) == Xor(Xor(quot + [false], Zeros(n) + t), Zeros(n + 1) + Xor(d, s))
  {
    var l, r := Xor(prod + [false], Zeros(n + 1) + s), Xor(Xor(quot + [false], Zeros(n) + t), Zeros(n + 1) + Xor(d, s));
    forall i | 0 <= i < n + 9 ensures l[i] == r[i] {
      if i >= n { assert (m + [false])[i - n] == Xor(t, [false] + d)[i - n]; }
    }
  }

  /** The product by the low bits. */
  lemma {:induction false} MulBitsModulo(x: bv8, y: bv8, n: nat) returns (q: Bits)
    requires n <= 8
    ensures |q| == n
    ensures [false] + Product(LowBits(y, n), BitsOf([x])) == Xor(Product(q, Modulus()), Zeros(n) + BitsOf([MulBits(x, y, n)]))
    decreases n
  {
    hide BitsOf, Bit, Add, Double, Half, Odd, LowBits, Xor, Zeros, Modulus;
    if n == 0 {
      q := [];
      NothingYet(x, y);
    } else {
      var low, m := LowBits(Half(y), n - 1), MulBits(x, Half(y), n - 1);
      var q' := MulBitsModulo(x, Half(y), n - 1);
      q := q' + [Bit(m, 0)];
      LowBitsHalf(y, n);
      NineBits();
      ProductSnoc(low, Odd(y), BitsOf([x]));
      ProductSnoc(q', Bit(m, 0), Modulus());
      hide Product;
      HornerStep(m, [false] + Product(low, BitsOf([x])), Product(q', Modulus()), n - 1, x, Odd(y));
      Lead(Product(low, BitsOf([x])), Zeros(n - 1), if Odd(y) then BitsOf([x]) else Zeros(8));
      OneMoreZero(n - 1);
    }
  }

  lemma NineBits()
    ensures |Modulus()| == 9
  {
  }

  lemma OneMoreZero(n: nat)
    ensures [false] + Zeros(n) == Zeros(n + 1)
  {
  }

  lemma Lead(a: Bits, z: Bits, s: Bits)
    requires |a| + 1 == |z| + |s|
    ensures [false] + Xor(a + [false], z + s) == Xor([false] + a + [false], [false] + z + s)
  {
  }

  lemma NothingYet(x: bv8, y: bv8)
    ensures [false] + Product(LowBits(y, 0), BitsOf([x])) == Xor(Product([], Modulus()), Zeros(0) + BitsOf([MulBits(x, y, 0)]))
  {
    NoneBits();
  }

  /** The field product is the product modulo x^8 + x^4 + x^3 + x^2 + 1. */
  lemma MulModulo(x: bv8, y: bv8)
    ensures ProductModulo(x, y, Mul(x, y))
  {
    hide BitsOf, Xor, Product, Zeros, MulBits, Modulus;
    var q := MulBitsModulo(x, y, 8);
    assert LowBits(y, 8) == BitsOf([y]);
  }

  /** The powers that the generator is made of: 1 is the first, and each further one the product by x. */
  lemma PowModulo(k: nat)
    ensures Pow(0) == 1 && ProductModulo(2, Pow(k), Pow(k + 1))
  {
    hide ProductModulo, MulBits;
    MulModulo(2, Pow(k));
    MulBitsDouble(1, Pow(k), 8);
    MulOne(Pow(k));
    assert Double(1) == 2;
  }
}
