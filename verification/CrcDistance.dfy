/** Two flipped bits and the checksum: they go undetected exactly at the distances that the order of x modulo
    x^16 + x^12 + x^5 + 1 divides, and that order is 32767. */
module CrcDistance {
  import opened Arith
  import opened BitBuckets
  import opened BinaryPolys
  import opened Crc16
  import opened EHashPacket

  // ----- shifts are linear

  lemma RegisterPlus(a: bv16, b: bv16)
    ensures RegisterOf(Plus(a, b)) == Xor(RegisterOf(a), RegisterOf(b))
  {
    hide TopBit, LeftN, Plus;
    var l, r := RegisterOf(Plus(a, b)), Xor(RegisterOf(a), RegisterOf(b));
    forall k | 0 <= k < 16 ensures l[k] == r[k] {
      LeftNPlus(a, b, k);
      PlusParts(LeftN(a, k), LeftN(b, k));
    }
    assert l == r;
  }

  lemma ShiftPlus(a: bv16, b: bv16)
    ensures ShiftCrc(Plus(a, b)) == Plus(ShiftCrc(a), ShiftCrc(b))
  {
    hide ShiftCrc, Shift, Plus, Xor, RegisterOf;
    ShiftCrcIsShift(a);
    ShiftCrcIsShift(b);
    ShiftCrcIsShift(Plus(a, b));
    RegisterPlus(a, b);
    RegisterPlus(ShiftCrc(a), ShiftCrc(b));
    ShiftXor(RegisterOf(a), RegisterOf(b));
    SameWord(ShiftCrc(Plus(a, b)), Plus(ShiftCrc(a), ShiftCrc(b)));
  }

  lemma {:induction false} ShiftsPlus(a: bv16, b: bv16, n: nat)
    ensures ShiftCrcN(Plus(a, b), n) == Plus(ShiftCrcN(a, n), ShiftCrcN(b, n))
  {
    hide ShiftCrc, Plus;
    if n > 0 {
      ShiftsPlus(a, b, n - 1);
      ShiftPlus(ShiftCrcN(a, n - 1), ShiftCrcN(b, n - 1));
    }
  }

  lemma {:induction false} ShiftsAdd(v: bv16, m: nat, n: nat)
    ensures ShiftCrcN(v, m + n) == ShiftCrcN(ShiftCrcN(v, m), n)
  {
    hide ShiftCrc;
    if n > 0 { ShiftsAdd(v, m, n - 1); }
  }

  lemma {:induction false} ShiftsInjective(a: bv16, b: bv16, n: nat)
    requires ShiftCrcN(a, n) == ShiftCrcN(b, n)
    ensures a == b
  {
    hide ShiftCrc, Shift, RegisterOf;
    if n > 0 {
      ShiftCrcIsShift(ShiftCrcN(a, n - 1));
      ShiftCrcIsShift(ShiftCrcN(b, n - 1));
      ShiftInjective(RegisterOf(ShiftCrcN(a, n - 1)), RegisterOf(ShiftCrcN(b, n - 1)));
      SameWord(ShiftCrcN(a, n - 1), ShiftCrcN(b, n - 1));
      ShiftsInjective(a, b, n - 1);
    }
  }

  lemma {:induction false} ShiftsZero(n: nat)
    ensures ShiftCrcN(0, n) == 0
  {
    if n > 0 { ShiftsZero(n - 1); }
  }

  // ----- powers of x

  /** One step of Horner's rule. */
  function In(acc: bv16, bit: bool, v: bv16): bv16 { Plus(ShiftCrc(acc), if bit then v else 0) }

  function Four(acc: bv16, p: bool, q: bool, r: bool, s: bool, v: bv16): bv16 {
    In(In(In(In(acc, p, v), q, v), r, v), s, v)
  }

  /** The sum of the shifts of v that the bits of a name: the product by that polynomial. */
  function Times(a: bv16, v: bv16): bv16 {
    Four(Four(Four(Four(0,
      a & 0x8000 != 0, a & 0x4000 != 0, a & 0x2000 != 0, a & 0x1000 != 0, v),
      a & 0x0800 != 0, a & 0x0400 != 0, a & 0x0200 != 0, a & 0x0100 != 0, v),
      a & 0x0080 != 0, a & 0x0040 != 0, a & 0x0020 != 0, a & 0x0010 != 0, v),
      a & 0x0008 != 0, a & 0x0004 != 0, a & 0x0002 != 0, a & 0x0001 != 0, v)
  }

  lemma InShifts(acc: bv16, bit: bool, v: bv16, n: nat)
    ensures In(ShiftCrcN(acc, n), bit, ShiftCrcN(v, n)) == ShiftCrcN(In(acc, bit, v), n)
  {
    hide ShiftCrc, Plus, ShiftCrcN;
    ShiftsZero(n);
    ShiftsPlus(ShiftCrc(acc), if bit then v else 0, n);
    OneSooner(acc, n);
  }

  lemma FourShifts(acc: bv16, p: bool, q: bool, r: bool, s: bool, v: bv16, n: nat)
    ensures Four(ShiftCrcN(acc, n), p, q, r, s, ShiftCrcN(v, n)) == ShiftCrcN(Four(acc, p, q, r, s, v), n)
  {
    hide In, ShiftCrcN;
    InShifts(acc, p, v, n);
    InShifts(In(acc, p, v), q, v, n);
    InShifts(In(In(acc, p, v), q, v), r, v, n);
    InShifts(In(In(In(acc, p, v), q, v), r, v), s, v, n);
  }

  lemma TimesShifts(a: bv16, v: bv16, n: nat)
    ensures Times(a, ShiftCrcN(v, n)) == ShiftCrcN(Times(a, v), n)
  {
    hide Four, ShiftCrcN;
    ShiftsZero(n);
    var x := Four(0, a & 0x8000 != 0, a & 0x4000 != 0, a & 0x2000 != 0, a & 0x1000 != 0, v);
    var y := Four(x, a & 0x0800 != 0, a & 0x0400 != 0, a & 0x0200 != 0, a & 0x0100 != 0, v);
    var z := Four(y, a & 0x0080 != 0, a & 0x0040 != 0, a & 0x0020 != 0, a & 0x0010 != 0, v);
    FourShifts(0, a & 0x8000 != 0, a & 0x4000 != 0, a & 0x2000 != 0, a & 0x1000 != 0, v, n);
    FourShifts(x, a & 0x0800 != 0, a & 0x0400 != 0, a & 0x0200 != 0, a & 0x0100 != 0, v, n);
    FourShifts(y, a & 0x0080 != 0, a & 0x0040 != 0, a & 0x0020 != 0, a & 0x0010 != 0, v, n);
    FourShifts(z, a & 0x0008 != 0, a & 0x0004 != 0, a & 0x0002 != 0, a & 0x0001 != 0, v, n);
  }

  lemma {:induction false} OneSooner(v: bv16, n: nat)
    ensures ShiftCrcN(ShiftCrc(v), n) == ShiftCrc(ShiftCrcN(v, n))
  {
    hide ShiftCrc;
    if n > 0 { OneSooner(v, n - 1); }
  }

  /** x^n modulo the divisor. */
  function Power(n: nat): bv16 { ShiftCrcN(1, n) }

  lemma PowerAdd(m: nat, n: nat)
    ensures Power(m + n) == ShiftCrcN(Power(m), n)
  {
    ShiftsAdd(1, m, n);
  }

  lemma PowerProduct(m: nat, n: nat, a: bv16)
    requires Times(a, 1) == Power(m)
    ensures Power(m + n) == Times(a, Power(n))
  {
    hide ShiftCrcN, Times;
    PowerAdd(m, n);
    TimesShifts(a, 1, n);
  }

  lemma Power8()
    ensures Power(1) == 0x0002 && Power(8) == 0x0100
  {
    assert ShiftCrcN(1, 1) == 0x0002 && ShiftCrcN(1, 8) == 0x0100;
  }

  lemma Power16()
    requires Power(8) == 0x0100
    ensures Power(16) == 0x1021
  {
    hide Power;
    assert Times(0x0100, 1) == 0x0100 && Times(0x0100, 0x0100) == 0x1021;
    PowerProduct(8, 8, 0x0100);
  }

  lemma Power32()
    requires Power(16) == 0x1021
    ensures Power(32) == 0x3730
  {
    hide Power;
    assert Times(0x1021, 1) == 0x1021 && Times(0x1021, 0x1021) == 0x3730;
    PowerProduct(16, 16, 0x1021);
  }

  lemma Power64()
    requires Power(32) == 0x3730
    ensures Power(64) == 0xb861
  {
    hide Power;
    assert Times(0x3730, 1) == 0x3730 && Times(0x3730, 0x3730) == 0xb861;
    PowerProduct(32, 32, 0x3730);
  }

  lemma Power128()
    requires Power(64) == 0xb861
    ensures Power(128) == 0xaefc
  {
    hide Power;
    assert Times(0xb861, 1) == 0xb861 && Times(0xb861, 0xb861) == 0xaefc;
    PowerProduct(64, 64, 0xb861);
  }

  lemma Power256()
    requires Power(128) == 0xaefc
    ensures Power(256) == 0x8e29
  {
    hide Power;
    assert Times(0xaefc, 1) == 0xaefc && Times(0xaefc, 0xaefc) == 0x8e29;
    PowerProduct(128, 128, 0xaefc);
  }

  lemma Power512()
    requires Power(256) == 0x8e29
    ensures Power(512) == 0x13fc
  {
    hide Power;
    assert Times(0x8e29, 1) == 0x8e29 && Times(0x8e29, 0x8e29) == 0x13fc;
    PowerProduct(256, 256, 0x8e29);
  }

  lemma Power1024()
    requires Power(512) == 0x13fc
    ensures Power(1024) == 0x36c4
  {
    hide Power;
    assert Times(0x13fc, 1) == 0x13fc && Times(0x13fc, 0x13fc) == 0x36c4;
    PowerProduct(512, 512, 0x13fc);
  }

  lemma Power2048()
    requires Power(1024) == 0x36c4
    ensures Power(2048) == 0xfd50
  {
    hide Power;
    assert Times(0x36c4, 1) == 0x36c4 && Times(0x36c4, 0x36c4) == 0xfd50;
    PowerProduct(1024, 1024, 0x36c4);
  }

  lemma Power4096()
    requires Power(2048) == 0xfd50
    ensures Power(4096) == 0xaa9e
  {
    hide Power;
    assert Times(0xfd50, 1) == 0xfd50 && Times(0xfd50, 0xfd50) == 0xaa9e;
    PowerProduct(2048, 2048, 0xfd50);
  }

  lemma Power8192()
    requires Power(4096) == 0xaa9e
    ensures Power(8192) == 0x881c
  {
    hide Power;
    assert Times(0xaa9e, 1) == 0xaa9e && Times(0xaa9e, 0xaa9e) == 0x881c;
    PowerProduct(4096, 4096, 0xaa9e);
  }

  lemma Power16384()
    requires Power(8192) == 0x881c
    ensures Power(16384) == 0x4458
  {
    hide Power;
    assert Times(0x881c, 1) == 0x881c && Times(0x881c, 0x881c) == 0x4458;
    PowerProduct(8192, 8192, 0x881c);
  }

  lemma Power32768()
    requires Power(16384) == 0x4458
    ensures Power(32768) == 0x0002
  {
    hide Power;
    assert Times(0x4458, 1) == 0x4458 && Times(0x4458, 0x4458) == 0x0002;
    PowerProduct(16384, 16384, 0x4458);
  }

  lemma Power27()
    requires Power(16) == 0x1021
    ensures Power(27) == 0x89a9
  {
    hide Power;
    PowerAdd(16, 11);
    assert ShiftCrcN(0x1021, 11) == 0x89a9;
  }

  lemma Power54()
    requires Power(27) == 0x89a9
    ensures Power(54) == 0x1168
  {
    hide Power;
    assert Times(0x89a9, 1) == 0x89a9 && Times(0x89a9, 0x89a9) == 0x1168;
    PowerProduct(27, 27, 0x89a9);
  }

  lemma Power108()
    requires Power(54) == 0x1168
    ensures Power(108) == 0x3750
  {
    hide Power;
    assert Times(0x1168, 1) == 0x1168 && Times(0x1168, 0x1168) == 0x3750;
    PowerProduct(54, 54, 0x1168);
  }

  lemma Power217()
    requires Power(108) == 0x3750
    ensures Power(217) == 0x48e3
  {
    hide Power;
    assert Times(0x3750, 1) == 0x3750 && Times(0x3750, 0x3750) == 0xac61;
    PowerProduct(108, 108, 0x3750);
    PowerAdd(216, 1);
    assert ShiftCrcN(0xac61, 1) == 0x48e3;
  }

  lemma Power33()
    requires Power(32) == 0x3730
    ensures Power(33) == 0x6e60
  {
    hide Power;
    PowerAdd(32, 1);
    assert ShiftCrcN(0x3730, 1) == 0x6e60;
  }

  lemma Power1057()
    requires Power(33) == 0x6e60 && Power(1024) == 0x36c4
    ensures Power(1057) == 0xf2af
  {
    hide Power;
    assert Times(0x6e60, 1) == 0x6e60 && Times(0x6e60, 0x36c4) == 0xf2af;
    PowerProduct(33, 1024, 0x6e60);
  }

  lemma Power73()
    requires Power(64) == 0xb861
    ensures Power(73) == 0x8fa6
  {
    hide Power;
    PowerAdd(64, 9);
    assert ShiftCrcN(0xb861, 9) == 0x8fa6;
  }

  lemma Power585()
    requires Power(73) == 0x8fa6 && Power(512) == 0x13fc
    ensures Power(585) == 0x4500
  {
    hide Power;
    assert Times(0x8fa6, 1) == 0x8fa6 && Times(0x8fa6, 0x13fc) == 0x4500;
    PowerProduct(73, 512, 0x8fa6);
  }

  lemma Power4681()
    requires Power(585) == 0x4500 && Power(4096) == 0xaa9e
    ensures Power(4681) == 0x2c42
  {
    hide Power;
    assert Times(0x4500, 1) == 0x4500 && Times(0x4500, 0xaa9e) == 0x2c42;
    PowerProduct(585, 4096, 0x4500);
  }

  /** The powers by which the order is told. */
  lemma Powers()
    ensures Power(32768) == Power(1) && Power(217) != 1 && Power(1057) != 1 && Power(4681) != 1
  {
    hide Power;
    Power8(); Power16(); Power32(); Power64(); Power128(); Power256(); Power512(); Power1024(); Power2048();
    Power4096(); Power8192(); Power16384(); Power32768();
    Power27(); Power54(); Power108(); Power217(); Power33(); Power1057(); Power73(); Power585(); Power4681();
  }

  // ----- the order of x

  predicate Cycle(n: nat) { Power(n) == 1 }

  lemma CycleBack(a: nat, b: nat)
    requires Cycle(a) && a <= b
    ensures Cycle(b) <==> Cycle(b - a)
  {
    hide ShiftCrc;
    PowerAdd(a, b - a);
  }

  lemma {:induction false} CycleMod(a: nat, b: nat)
    requires Cycle(a) && a > 0
    ensures Cycle(b) <==> Cycle(b % a)
  {
    hide Power, Cycle;
    if b >= a {
      CycleBack(a, b);
      CycleMod(a, b - a);
      DivModUnique(b, (b - a) / a + 1, (b - a) % a, a);
    }
  }

  lemma {:induction false} CycleMultiple(a: nat, k: nat)
    requires Cycle(a)
    ensures Cycle(a * k)
  {
    hide Power, Cycle;
    if k == 0 {
      CycleZero();
    } else {
      CycleMultiple(a, k - 1);
      assert a * k == a * (k - 1) + a;
      CycleBack(a, a * k);
    }
  }

  lemma CycleZero()
    ensures Cycle(0)
  {
  }

  /** Euclid: two cycles that are multiples of n have one in common that is a multiple of n. */
  lemma {:induction false} CommonCycle(n: nat, a: nat, b: nat) returns (g: nat, i: nat, j: nat)
    requires Cycle(n * a) && Cycle(n * b) && n > 0 && a > 0
    ensures Cycle(n * g) && a == g * i && b == g * j
    decreases b
  {
    hide Cycle;
    if b == 0 {
      g, i, j := a, 1, 0;
    } else {
      var q, r, k := a / b, a % b, 0;
      RemainderTimes(n, a, b);
      CycleMod(n * b, n * a);
      g, j, k := CommonCycle(n, b, r);
      Recombine(a, b, g, j, k);
      i := j * q + k;
    }
  }

  lemma RemainderTimes(n: nat, a: nat, b: nat)
    requires n > 0 && b > 0
    ensures n * b > 0 && n * a % (n * b) == n * (a % b)
  {
    var q, r := a / b, a % b;
    assert a == q * b + r by { DivModBounds(a, b, 0); }
    assert n * a == q * (n * b) + n * r;
    assert n * r < n * b by { MulAtLeast(r + 1, b, n); }
    DivModUnique(n * a, q, n * r, n * b);
  }

  lemma Recombine(a: nat, b: nat, g: nat, j: nat, k: nat)
    requires b > 0 && b == g * j && a % b == g * k
    ensures a == g * (j * (a / b) + k)
  {
    var q := a / b;
    DivModBounds(a, b, 0);
    assert a == q * (g * j) + g * k;
    assert q * (g * j) == g * (j * q);
    assert g * (j * q + k) == g * (j * q) + g * k;
  }

  /** 32767 is 7 * 31 * 151. */
  predicate Factor(p: nat) { p == 7 || p == 31 || p == 151 }

  lemma FactorPrime(p: nat, g: nat, i: nat)
    requires Factor(p) && g * i == p
    ensures g == 1 || g == p
  {
    if g >= 13 && i >= 13 {
      MulAtLeast(13, g, i);
    } else if g < 13 {
      Small(p, g, i);
    } else {
      Small(p, i, g);
    }
  }

  lemma Small(p: nat, g: nat, i: nat)
    requires Factor(p) && g * i == p && g < 13
    ensures g == 1 || g == p
  {
    assert g == 0 || g == 1 || g == 2 || g == 3 || g == 4 || g == 5 || g == 6
        || g == 7 || g == 8 || g == 9 || g == 10 || g == 11 || g == 12;
  }

  /** If a factor does not divide a cycle, the others make one. */
  lemma WithoutFactor(p: nat, n: nat, r: nat)
    requires Factor(p) && n > 0 && p * n == 32767 && Cycle(r) && r % p != 0
    ensures Cycle(n)
  {
    hide Cycle;
    WholeCycle();
    CycleMultiple(r, n);
    assert n * p == p * n && n * r == r * n;
    var g, i, j := CommonCycle(n, p, r);
    FactorPrime(p, g, i);
    if g == p {
      DivModUnique(r, j, 0, p);
      assert false;
    }
  }

  lemma AllFactors(r: nat)
    requires r % 7 == 0 && r % 31 == 0 && r % 151 == 0
    ensures r % 32767 == 0
  {
    hide *;
    var x, y, z := r / 7, r / 31, r / 151;
    var k := Combined(r, x, y, z);
    DivModUnique(r, k, 0, 32767);
  }

  lemma Combined(r: nat, x: int, y: int, z: int) returns (k: int)
    requires r == 7 * x && r == 31 * y && r == 151 * z
    ensures r == 32767 * k
  {
    k := 135 * z - 194 * (9 * y - 2 * x);
  }

  /** The order of x is 32767. */
  lemma CycleIff(d: nat)
    ensures Cycle(d) <==> d % 32767 == 0
  {
    hide Cycle, Power;
    WholeCycle();
    CycleZero();
    NoCycle();
    var r := d % 32767;
    CycleMod(32767, d);
    if r > 0 && Cycle(r) {
      if r % 7 != 0 { WithoutFactor(7, 4681, r); }
      else if r % 31 != 0 { WithoutFactor(31, 1057, r); }
      else if r % 151 != 0 { WithoutFactor(151, 217, r); }
      else { AllFactors(r); }
    }
  }

  lemma NoCycle()
    ensures !Cycle(217) && !Cycle(1057) && !Cycle(4681)
  {
    Powers();
  }

  lemma WholeCycle()
    ensures Cycle(32767)
  {
    hide ShiftCrc;
    Powers();
    PowerAdd(32767, 1);
    PowerAdd(0, 1);
    ShiftsInjective(Power(32767), 1, 1);
  }

  // ----- two flipped bits

  lemma {:induction false} FeedPlus(s: Register, d: Register, bits: Bits)
    ensures Feed(Xor(s, d), bits) == Xor(Feed(s, bits), ShiftN(d, |bits|))
  {
    hide Shift, Xor, Align;
    if bits != [] {
      var n := |bits| - 1;
      var x, y, t := Feed(s, bits[..n]), ShiftN(d, n), Align([bits[n]]);
      FeedPlus(s, d, bits[..n]);
      XorThrice(x, y, t);
      ShiftXor(Xor(x, t), y);
    }
  }

  lemma XorThrice(x: Register, y: Register, t: Register)
    ensures Xor(Xor(x, y), t) == Xor(Xor(x, t), y)
  {
  }

  function Top(): Register { Align([true]) }

  lemma FeedFlipped(s: Register, b: bool)
    ensures FeedBit(s, !b) == Xor(FeedBit(s, b), Shift(Top()))
  {
    assert Xor(s, Align([!b])) == Xor(Xor(s, Align([b])), Top());
    ShiftXor(Xor(s, Align([b])), Top());
    hide Shift, Xor;
  }

  /** x^15 comes back after d shifts exactly when d is a multiple of the order. */
  lemma TopReturnsIff(d: nat)
    ensures ShiftN(Top(), d) == Top() <==> d % 32767 == 0
  {
    TopIs();
    hide Top, ShiftCrcN, RegisterOf, ShiftN;
    ShiftCrcNIsShiftN(Power(15), d);
    PowerAdd(15, d);
    PowerAdd(d, 15);
    PowerAdd(0, 15);
    if ShiftN(Top(), d) == Top() { SameWord(Power(15 + d), Power(15)); }
    if Power(15 + d) == Power(15) { ShiftsInjective(Power(d), Power(0), 15); }
    CycleIff(d);
    PowerZero();
  }

  lemma PowerZero()
    ensures Power(0) == 1
  {
  }

  lemma TopIs()
    ensures RegisterOf(Power(15)) == Top()
  {
    assert ShiftCrcN(1, 15) == 0x8000;
    assert LeftN(0x8000, 0) == 0x8000;
    var l, r := RegisterOf(0x8000), Top();
    forall k | 0 <= k < 16 ensures l[k] == r[k] {
      if k > 0 { LeftZero(k); }
    }
    assert l == r;
  }

  lemma {:induction false} LeftZero(k: nat)
    requires k > 0
    ensures LeftN(0x8000, k) == 0
  {
    if k > 1 { LeftZero(k - 1); } else { assert LeftN(0x8000, 0) == 0x8000; }
  }

  lemma FeedOne(s: Register, b: bool)
    ensures Feed(s, [b]) == FeedBit(s, b)
  {
    assert [b][..0] == [];
  }

  /** Two flipped bits change the register exactly when 32767 does not divide their distance, whatever stands before,
      between and behind them and whatever the register started with. */
  lemma TwoFlipsIff(r: Register, before: Bits, a: bool, mid: Bits, b: bool, after: Bits)
    ensures Feed(r, before + [a] + mid + [b] + after) == Feed(r, before + [!a] + mid + [!b] + after) <==>
              (|mid| + 1) % 32767 == 0
  {
    hide Feed, Shift, Xor, Align, ShiftN, Top;
    var s := Feed(r, before);
    FlippedPair(s, a, mid, b);
    FedInParts(r, before, a, mid, b, after);
    FedInParts(r, before, !a, mid, !b, after);
    var x, y := Feed(Feed(Feed(s, [a]), mid), [b]), Feed(Feed(Feed(s, [!a]), mid), [!b]);
    if Feed(x, after) == Feed(y, after) { FeedInjective(x, y, after); }
  }

  lemma FedInParts(r: Register, before: Bits, a: bool, mid: Bits, b: bool, after: Bits)
    ensures Feed(r, before + [a] + mid + [b] + after) == Feed(Feed(Feed(Feed(Feed(r, before), [a]), mid), [b]), after)
  {
    hide Feed;
    FeedAppend(r, before + [a] + mid + [b], after);
    FeedAppend(r, before + [a] + mid, [b]);
    FeedAppend(r, before + [a], mid);
    FeedAppend(r, before, [a]);
  }

  lemma FlippedPair(s: Register, a: bool, mid: Bits, b: bool)
    ensures Feed(Feed(Feed(s, [a]), mid), [b]) == Feed(Feed(Feed(s, [!a]), mid), [!b]) <==> (|mid| + 1) % 32767 == 0
  {
    hide Feed, Shift, Xor, Align, FeedBit, Top;
    FeedOne(s, a);
    FeedOne(s, !a);
    FeedFlipped(s, a);
    var t, d := Feed(FeedBit(s, a), mid), ShiftN(Top(), |mid| + 1);
    FeedPlus(FeedBit(s, a), Shift(Top()), mid);
    ShiftsFirst(Top(), |mid|);
    FeedOne(t, b);
    FeedOne(Xor(t, d), !b);
    SecondFlip(t, d, b);
    hide ShiftN;
    TopReturnsIff(|mid| + 1);
  }

  lemma {:induction false} ShiftsFirst(d: Register, n: nat)
    ensures ShiftN(Shift(d), n) == ShiftN(d, n + 1)
  {
    hide Shift;
    if n > 0 { ShiftsFirst(d, n - 1); }
  }

  /** The second flip takes the first one back exactly when that has come to the top again. */
  lemma SecondFlip(t: Register, d: Register, b: bool)
    ensures FeedBit(t, b) == FeedBit(Xor(t, d), !b) <==> d == Top()
  {
    hide Shift, Xor, Align, Top;
    FlippedIn(t, d, b);
    if FeedBit(t, b) == FeedBit(Xor(t, d), !b) {
      ShiftInjective(Xor(t, Align([b])), Xor(Xor(t, Align([b])), Xor(d, Top())));
      XorNothing(Xor(t, Align([b])), d, Top());
    }
    if d == Top() { XorSelf(Xor(t, Align([b])), d); }
  }

  lemma FlippedIn(t: Register, d: Register, b: bool)
    ensures Xor(Xor(t, d), Align([!b])) == Xor(Xor(t, Align([b])), Xor(d, Top()))
  {
  }

  lemma XorNothing(x: Register, d: Register, u: Register)
    requires x == Xor(x, Xor(d, u))
    ensures d == u
  {
    forall k | 0 <= k < 16 ensures d[k] == u[k] {
      assert x[k] == (x[k] != (d[k] != u[k]));
    }
  }

  lemma XorSelf(x: Register, d: Register)
    ensures Xor(x, Xor(d, d)) == x
  {
  }

  // ----- packets

  /** A packet in which two bits outside the length field were flipped is accepted exactly when its type is still a known
      one and 32767 divides the distance of the two. */
  lemma TwoFlipsAcceptedIff(good: Bytes, bad: Bytes, before: Bits, a: bool, mid: Bits, b: bool, after: Bits)
    requires |good| >= HEADER_SIZE && |good| == TotalSize(good) == |bad| && Parse(good).Ok?
    requires bad[7] == good[7] && bad[8] == good[8]
    requires BitsOf(good) == before + [a] + mid + [b] + after && BitsOf(bad) == before + [!a] + mid + [!b] + after
    ensures Parse(bad).Ok? <==> IsValidType(bad[0]) && (|mid| + 1) % 32767 == 0
  {
    AcceptedIff(good);
    AcceptedIff(bad);
    TwoFlipsIff(AllOnes(), before, a, mid, b, after);
    hide Parse, Feed, IsValidType, BitsOf;
  }

  function Flip(bytes: Bytes, i: nat): Bytes
    requires i < 8 * |bytes|
  {
    bytes[i / 8 := if Bit(bytes[i / 8], i % 8) then ClearMask(bytes[i / 8], i % 8) else SetMask(bytes[i / 8], i % 8)]
  }

  lemma BitsOfFlip(bytes: Bytes, i: nat)
    requires i < 8 * |bytes|
    ensures BitsOf(Flip(bytes, i)) == BitsOf(bytes)[i := !BitsOf(bytes)[i]]
  {
    hide Bit, SetMask, ClearMask;
    BitsOfSet(bytes, i);
  }

  lemma SplitAt(bits: Bits, i: nat, j: nat)
    requires i < j < |bits|
    ensures bits == bits[..i] + [bits[i]] + bits[i + 1..j] + [bits[j]] + bits[j + 1..]
  {
    assert bits[..i] + [bits[i]] == bits[..i + 1];
    assert bits[..i + 1] + bits[i + 1..j] == bits[..j];
    assert bits[..j] + [bits[j]] == bits[..j + 1];
    assert bits[..j + 1] + bits[j + 1..] == bits;
  }

  lemma SplitAtTwo(bits: Bits, i: nat, j: nat)
    requires i < j < |bits|
    ensures bits == bits[..i] + [bits[i]] + bits[i + 1..j] + [bits[j]] + bits[j + 1..]
    ensures bits[i := !bits[i]][j := !bits[j]] == bits[..i] + [!bits[i]] + bits[i + 1..j] + [!bits[j]] + bits[j + 1..]
  {
    SplitAt(bits, i, j);
    var flipped := bits[i := !bits[i]][j := !bits[j]];
    SplitAt(flipped, i, j);
    assert flipped[..i] == bits[..i] && flipped[i + 1..j] == bits[i + 1..j] && flipped[j + 1..] == bits[j + 1..];
  }

  /** So every accepted packet of 4105 bytes or more stays accepted when the first bit of its payload and the one 32767
      further on are flipped. */
  lemma LongPacketsMissed(good: Bytes)
    requires |good| >= 4105 && |good| == TotalSize(good) && Parse(good).Ok?
    ensures var bad := Flip(Flip(good, 72), 72 + 32767); bad != good && Parse(bad).Ok?
  {
    var once, i, j := Flip(good, 72), 72, 72 + 32767;
    var bad := Flip(once, j);
    var bits := BitsOf(good);
    BitsOfFlip(good, i);
    BitsOfFlip(once, j);
    assert bad[0] == good[0] && bad[7] == good[7] && bad[8] == good[8];
    hide Parse, Flip, BitsOf, TotalSize, IsValidType, Bit;
    SplitAtTwo(bits, i, j);
    TwoFlipsAcceptedIff(good, bad, bits[..i], bits[i], bits[i + 1..j], bits[j], bits[j + 1..]);
    KnownType(good);
  }

  lemma KnownType(bytes: Bytes)
    requires |bytes| >= HEADER_SIZE && Parse(bytes).Ok?
    ensures IsValidType(bytes[0])
  {
    hide IsValidType, CrcMatches;
  }
}
