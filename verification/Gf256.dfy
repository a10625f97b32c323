/** The field GF(2^8) modulo x^8 + x^4 + x^3 + x^2 + 1 (0x11D) that the Reed-Solomon code
    of the QR encoder computes in.  Addition is XOR and `Double` is multiplication by x.

    The bit-vector definitions are looked into only in this module: every other module
    hides them and works from the laws proved here. */
module Gf256 {
  function Add(a: bv8, b: bv8): bv8 { a ^ b }

  /** Multiplication by x (0x02) in the field. */
  function Double(a: bv8): bv8 { (a << 1) ^ ((a >> 7) * 0x1D) }

  predicate Odd(y: bv8) { y & 1 == 1 }

  function Half(y: bv8): bv8 { y >> 1 }

  /** The product of x and the low n bits of y, by Horner's rule over those bits. */
  function MulBits(x: bv8, y: bv8, n: nat): bv8
    decreases n
  {
    if n == 0 then 0 else Add(Double(MulBits(x, Half(y), n - 1)), if Odd(y) then x else 0)
  }

  function Mul(x: bv8, y: bv8): bv8 { MulBits(x, y, 8) }

  /** The k-th power of the generator element 0x02. */
  function Pow(k: nat): bv8 { if k == 0 then 1 else Double(Pow(k - 1)) }

  // ----- addition

  lemma AddComm(a: bv8, b: bv8)
    ensures Add(a, b) == Add(b, a)
  {
  }

  lemma AddZero(a: bv8)
    ensures Add(a, 0) == a && Add(0, a) == a && Add(a, a) == 0
  {
  }

  lemma AddCancel(a: bv8, b: bv8)
    ensures Add(Add(a, b), b) == a
    ensures Add(a, b) == 0 <==> a == b
  {
  }

  lemma AddSwap(a: bv8, b: bv8, c: bv8, d: bv8)
    ensures Add(Add(a, b), Add(c, d)) == Add(Add(a, c), Add(b, d))
  {
    assert (a ^ b) ^ (c ^ d) == (a ^ c) ^ (b ^ d);
  }

  // ----- doubling and halving

  lemma DoubleAdd(a: bv8, b: bv8)
    ensures Double(Add(a, b)) == Add(Double(a), Double(b))
  {
  }

  lemma DoubleZero(a: bv8)
    ensures Double(a) == 0 <==> a == 0
    ensures Half(0) == 0 && !Odd(0)
  {
  }

  lemma DoubleInjective(a: bv8, b: bv8)
    requires Double(a) == Double(b)
    ensures a == b
  {
  }

  lemma HalfAdd(y: bv8, w: bv8)
    ensures Odd(Add(y, w)) <==> (Odd(y) != Odd(w))
    ensures Half(Add(y, w)) == Add(Half(y), Half(w))
  {
  }

  lemma DoubleHalf(y: bv8)
    ensures Add(Double(Half(y)), if Odd(y) then 1 else 0) == y
  {
  }

  // ----- multiplication is bilinear

  lemma {:induction false} MulBitsAddLeft(x: bv8, u: bv8, y: bv8, n: nat)
    ensures MulBits(Add(x, u), y, n) == Add(MulBits(x, y, n), MulBits(u, y, n))
    decreases n
  {
    hide Add, Double, Half, Odd;
    AddZero(0);
    if n > 0 {
      var a, b := MulBits(x, Half(y), n - 1), MulBits(u, Half(y), n - 1);
      MulBitsAddLeft(x, u, Half(y), n - 1);
      DoubleAdd(a, b);
      AddSwap(Double(a), Double(b), if Odd(y) then x else 0, if Odd(y) then u else 0);
    }
  }

  lemma {:induction false} MulBitsAddRight(x: bv8, y: bv8, w: bv8, n: nat)
    ensures MulBits(x, Add(y, w), n) == Add(MulBits(x, y, n), MulBits(x, w, n))
    decreases n
  {
    hide Add, Double, Half, Odd;
    AddZero(0);
    if n > 0 {
      AddZero(x);
      HalfAdd(y, w);
      var a, b := MulBits(x, Half(y), n - 1), MulBits(x, Half(w), n - 1);
      MulBitsAddRight(x, Half(y), Half(w), n - 1);
      DoubleAdd(a, b);
      AddSwap(Double(a), Double(b), if Odd(y) then x else 0, if Odd(w) then x else 0);
    }
  }

  lemma {:induction false} MulBitsDouble(x: bv8, y: bv8, n: nat)
    ensures MulBits(Double(x), y, n) == Double(MulBits(x, y, n))
    decreases n
  {
    hide Add, Double, Half, Odd;
    DoubleZero(0);
    if n > 0 {
      MulBitsDouble(x, Half(y), n - 1);
      DoubleAdd(Double(MulBits(x, Half(y), n - 1)), if Odd(y) then x else 0);
    }
  }

  lemma {:induction false} MulBitsZero(x: bv8, y: bv8, n: nat)
    ensures MulBits(0, y, n) == 0 && MulBits(x, 0, n) == 0
    decreases n
  {
    hide Add, Double, Half, Odd;
    DoubleZero(0);
    AddZero(0);
    if n > 0 {
      MulBitsZero(x, Half(y), n - 1);
    }
  }

  function Shifted(y: bv8, n: nat): bv8
    decreases n
  {
    if n == 0 then y else Shifted(Half(y), n - 1)
  }

  lemma {:induction false} MulBitsOne(y: bv8, n: nat)
    requires Shifted(y, n) == 0
    ensures MulBits(1, y, n) == y
    decreases n
  {
    hide Add, Double, Half, Odd;
    if n > 0 {
      MulBitsOne(Half(y), n - 1);
      DoubleHalf(y);
    }
  }

  lemma ShiftedOut(y: bv8)
    ensures Shifted(y, 8) == 0
  {
    assert Shifted(y >> 4, 4) == (((((y >> 4) >> 1) >> 1) >> 1) >> 1);
    assert Shifted(y, 4) == y >> 4;
  }

  // ----- the ring laws of Mul

  lemma MulAddLeft(x: bv8, u: bv8, y: bv8)
    ensures Mul(Add(x, u), y) == Add(Mul(x, y), Mul(u, y))
  {
    MulBitsAddLeft(x, u, y, 8);
  }

  lemma MulAddRight(x: bv8, y: bv8, w: bv8)
    ensures Mul(x, Add(y, w)) == Add(Mul(x, y), Mul(x, w))
  {
    MulBitsAddRight(x, y, w, 8);
  }

  lemma MulZero(x: bv8)
    ensures Mul(x, 0) == 0 && Mul(0, x) == 0
  {
    MulBitsZero(x, x, 8);
  }

  /** Scaling the left factor of a bit sum: (x * u) * y when y is taken bit by bit. */
  lemma {:induction false} MulBitsScale(x: bv8, u: bv8, y: bv8, n: nat)
    ensures Mul(MulBits(u, y, n), x) == MulBits(Mul(u, x), y, n)
    decreases n
  {
    hide Add, Double, Half, Odd;
    MulZero(x);
    if n > 0 {
      var a := MulBits(u, Half(y), n - 1);
      MulBitsScale(x, u, Half(y), n - 1);
      MulBitsDouble(a, x, 8);
      MulAddLeft(Double(a), if Odd(y) then u else 0, x);
    }
  }

  lemma MulOne(y: bv8)
    ensures Mul(1, y) == y && Mul(y, 1) == y
  {
    hide Add, Double, Half, Odd;
    ShiftedOut(y);
    ShiftedOut(1);
    MulBitsOne(y, 8);
    MulBitsOne(1, 8);
    MulBitsScale(1, 1, y, 8);
  }

  lemma MulComm(x: bv8, y: bv8)
    ensures Mul(x, y) == Mul(y, x)
  {
    hide Add, Double, Half, Odd;
    MulOne(x);
    MulOne(y);
    MulBitsScale(x, 1, y, 8);
  }

  lemma MulAssoc(x: bv8, y: bv8, z: bv8)
    ensures Mul(Mul(x, y), z) == Mul(x, Mul(y, z))
  {
    hide Add, Double, Half, Odd;
    MulBitsScale(x, y, z, 8);
    MulComm(Mul(y, z), x);
    MulComm(x, y);
  }

  lemma MulTwo(x: bv8)
    ensures Mul(x, 2) == Double(x)
  {
    assert Double(1) == 2;
    hide Add, Double, Half, Odd;
    MulComm(x, 2);
    MulBitsDouble(1, x, 8);
    MulOne(x);
  }

  // ----- no zero divisors

  function Pick(x: bv8, y: bv8): bv8 { (0 - (y & 1)) & x }

  /** Mul with its eight steps written out, the form the solver decides by bits. */
  function Horner(x: bv8, y: bv8): bv8 {
    var h1 := Half(y); var h2 := Half(h1); var h3 := Half(h2); var h4 := Half(h3);
    var h5 := Half(h4); var h6 := Half(h5); var h7 := Half(h6);
    Add(Double(Add(Double(Add(Double(Add(Double(Add(Double(Add(Double(Add(Double(
      Pick(x, h7)), Pick(x, h6))), Pick(x, h5))), Pick(x, h4))), Pick(x, h3))),
      Pick(x, h2))), Pick(x, h1))), Pick(x, y))
  }

  lemma MulBitsStep(x: bv8, y: bv8, n: nat)
    requires n > 0
    ensures MulBits(x, y, n) == Add(Double(MulBits(x, Half(y), n - 1)), Pick(x, y))
  {
    PickOdd(x, y);
    hide Add, Double, Half, Odd, Pick;
  }

  lemma HornerIsMul(x: bv8, y: bv8)
    ensures Horner(x, y) == Mul(x, y)
  {
    hide Add, Double, Half, Odd, Pick;
    var h1 := Half(y); var h2 := Half(h1); var h3 := Half(h2); var h4 := Half(h3);
    var h5 := Half(h4); var h6 := Half(h5); var h7 := Half(h6);
    DoubleZero(0);
    AddZero(Pick(x, h7));
    MulBitsStep(x, h7, 1); MulBitsStep(x, h6, 2); MulBitsStep(x, h5, 3); MulBitsStep(x, h4, 4);
    MulBitsStep(x, h3, 5); MulBitsStep(x, h2, 6); MulBitsStep(x, h1, 7); MulBitsStep(x, y, 8);
    hide MulBits;
  }

  lemma PickOdd(x: bv8, y: bv8)
    ensures Pick(x, y) == if Odd(y) then x else 0
  {
  }

  lemma HornerEvenLow(x: bv8, y: bv8)
    requires x != 0 && x & 0x81 == 0x00 && Horner(x, y) == 0
    ensures y == 0
  {
  }

  lemma HornerOddLow(x: bv8, y: bv8)
    requires x & 0x81 == 0x01 && Horner(x, y) == 0
    ensures y == 0
  {
  }

  lemma HornerEvenHigh(x: bv8, y: bv8)
    requires x & 0x81 == 0x80 && Horner(x, y) == 0
    ensures y == 0
  {
  }

  lemma HornerOddHigh(x: bv8, y: bv8)
    requires x & 0x81 == 0x81 && Horner(x, y) == 0
    ensures y == 0
  {
  }

  lemma NoZeroDivisors(x: bv8, y: bv8)
    ensures Mul(x, y) == 0 <==> x == 0 || y == 0
  {
    MulZero(x);
    MulZero(y);
    HornerIsMul(x, y);
    hide Mul, Horner;
    if x != 0 && Mul(x, y) == 0 {
      if x & 0x81 == 0x00 {
        HornerEvenLow(x, y);
      } else if x & 0x81 == 0x01 {
        HornerOddLow(x, y);
      } else if x & 0x81 == 0x80 {
        HornerEvenHigh(x, y);
      } else {
        HornerOddHigh(x, y);
      }
    }
  }

  // ----- the powers of 2 have period 255

  lemma {:induction false} PowAdd(i: nat, j: nat)
    ensures Pow(i + j) == Mul(Pow(i), Pow(j))
  {
    hide Mul, Double;
    if j == 0 {
      MulOne(Pow(i));
    } else {
      PowAdd(i, j - 1);
      MulTwo(Pow(i + (j - 1)));
      MulTwo(Pow(j - 1));
      MulAssoc(Pow(i), Pow(j - 1), 2);
    }
  }

  function Double5(a: bv8): bv8 { Double(Double(Double(Double(Double(a))))) }

  lemma PowFive(k: nat)
    ensures Pow(k + 5) == Double5(Pow(k))
  {
    hide Double;
    assert Pow(k + 3) == Double(Pow(k + 2)) == Double(Double(Pow(k + 1)));
  }

  lemma PowFifteen(k: nat)
    ensures Pow(k + 15) == Double5(Double5(Double5(Pow(k))))
  {
    hide Double5;
    PowFive(k);
    PowFive(k + 5);
    PowFive(k + 10);
  }

  lemma PowSeventeen(k: nat)
    ensures Pow(k + 17) == Double(Double(Double5(Double5(Double5(Pow(k))))))
  {
    hide Double, Double5;
    PowFifteen(k);
    assert Pow(k + 17) == Double(Pow(k + 16)) == Double(Double(Pow(k + 15)));
  }

  lemma PowersOfFifteen()
    ensures forall r {:trigger Pow(15 * r)} :: 1 <= r < 17 ==> Pow(15 * r) != 1
    ensures Pow(255) == 1
  {
    hide Pow;
    PowZero();
    PowFifteen(0); assert Pow(15) == 0x26;
    PowFifteen(15); assert Pow(30) == 0x60;
    PowFifteen(30); assert Pow(45) == 0xC1;
    PowFifteen(45); assert Pow(60) == 0xB9;
    PowFifteen(60); assert Pow(75) == 0x0F;
    PowFifteen(75); assert Pow(90) == 0xDF;
    PowFifteen(90); assert Pow(105) == 0x1A;
    PowFifteen(105); assert Pow(120) == 0x3B;
    PowFifteen(120); assert Pow(135) == 0xA9;
    PowFifteen(135); assert Pow(150) == 0x55;
    PowFifteen(150); assert Pow(165) == 0x91;
    PowFifteen(165); assert Pow(180) == 0x96;
    PowFifteen(180); assert Pow(195) == 0x64;
    PowFifteen(195); assert Pow(210) == 0x59;
    PowFifteen(210); assert Pow(225) == 0x24;
    PowFifteen(225); assert Pow(240) == 0x2C;
    PowFifteen(240); assert Pow(255) == 0x01;
  }

  lemma PowersOfSeventeen()
    ensures forall r {:trigger Pow(17 * r)} :: 1 <= r < 15 ==> Pow(17 * r) != 1
  {
    hide Pow;
    PowZero();
    PowSeventeen(0); assert Pow(17) == 0x98;
    PowSeventeen(17); assert Pow(34) == 0x4E;
    PowSeventeen(34); assert Pow(51) == 0x0A;
    PowSeventeen(51); assert Pow(68) == 0x99;
    PowSeventeen(68); assert Pow(85) == 0xD6;
    PowSeventeen(85); assert Pow(102) == 0x44;
    PowSeventeen(102); assert Pow(119) == 0x93;
    PowSeventeen(119); assert Pow(136) == 0x4F;
    PowSeventeen(136); assert Pow(153) == 0x92;
    PowSeventeen(153); assert Pow(170) == 0xD7;
    PowSeventeen(170); assert Pow(187) == 0xDC;
    PowSeventeen(187); assert Pow(204) == 0xDD;
    PowSeventeen(204); assert Pow(221) == 0x45;
    PowSeventeen(221); assert Pow(238) == 0x0B;
  }

  lemma {:induction false} PowCycle(k: nat, m: nat, r: nat)
    requires Pow(k) == 1
    ensures Pow(k * m + r) == Pow(r)
  {
    hide Mul, Double;
    if m > 0 {
      PowCycle(k, m - 1, r);
      PowAdd(k, k * (m - 1) + r);
      MulOne(Pow(r));
      assert k + (k * (m - 1) + r) == k * m + r;
    }
  }

  /** The order of 2 is 255: split 255 as 15 * 17 and look at k modulo each factor. */
  lemma PowNotOne(k: nat)
    requires 0 < k < 255
    ensures Pow(k) != 1
  {
    hide Mul, Double, Pow;
    if Pow(k) == 1 {
      PowersOfFifteen();
      PowersOfSeventeen();
      PowCycle(k, 17, 0);
      PowCycle(255, k / 15, 17 * (k % 15));
      assert k * 17 + 0 == 255 * (k / 15) + 17 * (k % 15);
      PowCycle(k, 15, 0);
      PowCycle(255, k / 17, 15 * (k % 17));
      assert k * 15 + 0 == 255 * (k / 17) + 15 * (k % 17);
      assert Pow(0) == 1 by { PowZero(); }
    }
  }

  lemma PowZero()
    ensures Pow(0) == 1
  {
  }

  lemma {:induction false} PowDistinct(i: nat, j: nat)
    requires i < j < 255
    ensures Pow(i) != Pow(j)
  {
    hide Double;
    if i == 0 {
      PowNotOne(j);
    } else {
      PowDistinct(i - 1, j - 1);
      if Pow(i) == Pow(j) {
        DoubleInjective(Pow(i - 1), Pow(j - 1));
      }
    }
  }
}
