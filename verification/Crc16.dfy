/** CRC16-CCITT (polynomial x^16 + x^12 + x^5 + 1) over bit strings, most significant bit
    first: the register, its meaning as a division and what it detects. */
module Crc16 {
  import opened BinaryPolys

  type Register = r: seq<bool> | |r| == 16 witness seq(16, _ => false)

  // ----- the register

  /** The coefficients of x^12, x^5 and 1, counted from that of x^15. */
  predicate Tap(k: int) { k == 3 || k == 10 || k == 15 }

  function Shift(r: Register): (s: Register)
    ensures forall k :: 0 <= k < 16 ==> s[k] == ((k < 15 && r[k + 1]) != (r[0] && Tap(k)))
  {
    seq(16, k requires 0 <= k < 16 => (k < 15 && r[k + 1]) != (r[0] && Tap(k)))
  }

  /** At most sixteen bits, left-aligned in a register. */
  function Align(bits: Bits): (s: Register)
    requires |bits| <= 16
    ensures forall k :: 0 <= k < 16 ==> s[k] == (k < |bits| && bits[k])
  {
    bits + Zeros(16 - |bits|)
  }

  /** One bit goes in. */
  function FeedBit(r: Register, b: bool): Register { Shift(Xor(r, Align([b]))) }

  function Feed(r: Register, bits: Bits): Register {
    if bits == [] then r else FeedBit(Feed(r, bits[..|bits| - 1]), bits[|bits| - 1])
  }

  function ShiftN(r: Register, n: nat): Register { if n == 0 then r else Shift(ShiftN(r, n - 1)) }

  lemma ShiftInjective(a: Register, b: Register)
    requires Shift(a) == Shift(b)
    ensures a == b
  {
    assert Shift(a)[15] == a[0] && Shift(b)[15] == b[0];
    forall k | 1 <= k < 16
      ensures a[k] == b[k]
    {
      assert Shift(a)[k - 1] == Shift(b)[k - 1];
    }
    assert a == b;
  }

  lemma ShiftXor(a: Register, b: Register)
    ensures Shift(Xor(a, b)) == Xor(Shift(a), Shift(b))
  {
  }

  lemma {:induction false} ShiftNXor(a: Register, b: Register, n: nat)
    ensures ShiftN(Xor(a, b), n) == Xor(ShiftN(a, n), ShiftN(b, n))
  {
    hide Shift, Xor;
    if n > 0 {
      ShiftNXor(a, b, n - 1);
      ShiftXor(ShiftN(a, n - 1), ShiftN(b, n - 1));
    }
  }

  lemma {:induction false} ShiftNInjective(a: Register, b: Register, n: nat)
    requires ShiftN(a, n) == ShiftN(b, n)
    ensures a == b
  {
    hide Shift;
    if n > 0 {
      ShiftInjective(ShiftN(a, n - 1), ShiftN(b, n - 1));
      ShiftNInjective(a, b, n - 1);
    }
  }

  /** The same bits keep different registers different. */
  lemma {:induction false} FeedInjective(a: Register, b: Register, bits: Bits)
    requires Feed(a, bits) == Feed(b, bits)
    ensures a == b
  {
    hide Shift, Xor, Align;
    if bits != [] {
      var n := |bits| - 1;
      var x, y, t := Feed(a, bits[..n]), Feed(b, bits[..n]), Align([bits[n]]);
      ShiftInjective(Xor(x, t), Xor(y, t));
      XorCancel(t, x, y);
      FeedInjective(a, b, bits[..n]);
    }
  }

  lemma {:induction false} FeedAppend(r: Register, p: Bits, s: Bits)
    ensures Feed(r, p + s) == Feed(Feed(r, p), s)
  {
    hide FeedBit;
    if s == [] {
      assert p + s == p;
    } else {
      var n := |s| - 1;
      assert (p + s)[..|p| + n] == p + s[..n];
      FeedAppend(r, p, s[..n]);
    }
  }

  // ----- up to sixteen bits go in at once

  function Unit(k: nat, b: bool): (s: Register)
    requires k < 16
    ensures forall i :: 0 <= i < 16 ==> s[i] == (i == k && b)
  {
    seq(16, i => i == k && b)
  }

  lemma {:induction false} UnitReachesTop(n: nat, b: bool, i: nat)
    requires i <= n < 16
    ensures ShiftN(Unit(n, b), i) == Unit(n - i, b)
  {
    if i > 0 {
      UnitReachesTop(n, b, i - 1);
      assert Shift(Unit(n - i + 1, b)) == Unit(n - i, b);
    }
  }

  /** Feeding at most sixteen bits is one addition and as many shifts. */
  lemma {:induction false} FeedAligned(r: Register, bits: Bits)
    requires |bits| <= 16
    ensures Feed(r, bits) == ShiftN(Xor(r, Align(bits)), |bits|)
  {
    if bits == [] {
      assert Xor(r, Align([])) == r;
    } else {
      var n := |bits| - 1;
      var a, u := Xor(r, Align(bits[..n])), Unit(n, bits[n]);
      assert Xor(r, Align(bits)) == Xor(a, u);
      assert Align([bits[n]]) == Unit(0, bits[n]);
      FeedAligned(r, bits[..n]);
      ShiftNXor(a, u, n);
      UnitReachesTop(n, bits[n], n);
      hide Shift, Xor, Align, Unit;
    }
  }

  // ----- division

  /** x^16 + x^12 + x^5 + 1, written out. */
  function Divisor(): (g: Bits)
    ensures |g| == 17 && g[0] && forall k :: 0 <= k < 16 ==> g[k + 1] == Tap(k)
  {
    [true, false, false, false, true, false, false, false, false, false, false, true, false, false, false, false, true]
  }

  /** The message times x^16, with the initial register added to its first sixteen bits. */
  function Dividend(r: Register, m: Bits): (d: Bits)
    ensures |d| == |m| + 16
  {
    Xor(r + Zeros(|m|), m + Zeros(16))
  }

  function Quotient(r: Register, m: Bits): (q: Bits)
    ensures |q| == |m|
  {
    if m == [] then []
    else
      var n := |m| - 1;
      Quotient(r, m[..n]) + [Feed(r, m[..n])[0] != m[n]]
  }

  lemma DivisionStep(r: Register, p: Bits, b: bool)
    ensures var n, s := |p|, Feed(r, p);
            && Dividend(r, p + [b]) == Xor(Dividend(r, p) + [false], Zeros(n) + [b] + Zeros(16))
            && Zeros(n + 1) + FeedBit(s, b)
               == Xor(Xor(Zeros(n) + s + [false], Zeros(n) + [b] + Zeros(16)),
                      Zeros(n) + if s[0] != b then Divisor() else Zeros(17))
  {
    hide Feed;
    var n, s := |p|, Feed(r, p);
    assert Dividend(r, p + [b]) == Xor(Dividend(r, p) + [false], Zeros(n) + [b] + Zeros(16));
    var lhs := Zeros(n + 1) + FeedBit(s, b);
    var rhs := Xor(Xor(Zeros(n) + s + [false], Zeros(n) + [b] + Zeros(16)),
                   Zeros(n) + if s[0] != b then Divisor() else Zeros(17));
    forall i | 0 <= i < n + 17
      ensures lhs[i] == rhs[i]
    {
      if i > n {
        assert lhs[i] == FeedBit(s, b)[i - n - 1];
      }
    }
    assert lhs == rhs;
  }

  /** The register is the remainder of the bit-serial division by x^16 + x^12 + x^5 + 1. */
  lemma {:induction false} FeedDivides(r: Register, m: Bits)
    ensures Dividend(r, m) == Xor(Product(Quotient(r, m), Divisor()), Zeros(|m|) + Feed(r, m))
  {
    hide Dividend, FeedBit, Divisor, Xor, Zeros;
    if m == [] {
      DividesNone(r);
      assert Zeros(0) + r == r;
    } else {
      var n := |m| - 1;
      var p, b, s := m[..n], m[n], Feed(r, m[..n]);
      FeedDivides(r, p);
      DivisionStep(r, p, b);
      assert m == p + [b];
      assert Quotient(r, m)[..n] == Quotient(r, p);
      hide Feed, Product, FeedBit, Divisor, Dividend, Quotient, Xor, Zeros;
      Rearrange(Product(Quotient(r, p), Divisor()), Zeros(n) + s, Zeros(n) + [b] + Zeros(16),
                Zeros(n) + if s[0] != b then Divisor() else Zeros(17));
    }
  }

  lemma DividesNone(r: Register)
    ensures Dividend(r, []) == Xor(Product([], Divisor()), r)
  {
  }

  // ----- error detection

  /** A message followed by its own checksum leaves nothing in the register. */
  lemma ResidueZero(r: Register, m: Bits)
    ensures Feed(r, m + Feed(r, m)) == Zeros(16)
  {
    var s := Feed(r, m);
    FeedAppend(r, m, s);
    FeedAligned(s, s);
    assert Xor(s, Align(s)) == Zeros(16);
    ZerosStay(16);
  }

  lemma {:induction false} ZerosStay(n: nat)
    ensures ShiftN(Zeros(16), n) == Zeros(16)
  {
    if n > 0 {
      ZerosStay(n - 1);
      assert Shift(Zeros(16)) == Zeros(16);
    }
  }

  /** Only the checksum itself does. */
  lemma ResidueZeroIff(r: Register, m: Bits, c: Register)
    ensures Feed(r, m + c) == Zeros(16) <==> c == Feed(r, m)
  {
    ResidueZero(r, m);
    if Feed(r, m + c) == Zeros(16) && c != Feed(r, m) {
      assert m + c == m + c + [] && m + Feed(r, m) == m + Feed(r, m) + [];
      BurstDetected(r, m, c, Feed(r, m), []);
    }
  }

  /** Two messages that differ only inside sixteen consecutive bits have different checksums,
      whatever comes before and after and whatever the register started with. */
  lemma BurstDetected(r: Register, before: Bits, x: Bits, y: Bits, after: Bits)
    requires |x| == |y| <= 16 && x != y
    ensures Feed(r, before + x + after) != Feed(r, before + y + after)
  {
    hide Feed, Shift, Xor, Align, ShiftN;
    var s := Feed(r, before);
    FeedAppend(r, before + x, after);
    FeedAppend(r, before, x);
    FeedAppend(r, before + y, after);
    FeedAppend(r, before, y);
    if Feed(r, before + x + after) == Feed(r, before + y + after) {
      FeedInjective(Feed(s, x), Feed(s, y), after);
      FeedAligned(s, x);
      FeedAligned(s, y);
      ShiftNInjective(Xor(s, Align(x)), Xor(s, Align(y)), |x|);
      XorCancel(s, Align(x), Align(y));
      assert forall k :: 0 <= k < |x| ==> x[k] == Align(x)[k];
    }
  }

  /** Is the number of set bits odd? */
  predicate Odd(bits: Bits) {
    if bits == [] then false else Odd(bits[..|bits| - 1]) != bits[|bits| - 1]
  }

  lemma {:induction false} OddXor(a: Bits, b: Bits)
    requires |a| == |b|
    ensures Odd(Xor(a, b)) == (Odd(a) != Odd(b))
  {
    if a != [] {
      var n := |a| - 1;
      assert Xor(a, b)[..n] == Xor(a[..n], b[..n]);
      OddXor(a[..n], b[..n]);
    }
  }

  lemma {:induction false} OddAppend(a: Bits, b: Bits)
    ensures Odd(a + b) == (Odd(a) != Odd(b))
  {
    if b == [] {
      assert a + b == a;
    } else {
      var n := |b| - 1;
      assert (a + b)[..|a| + n] == a + b[..n];
      OddAppend(a, b[..n]);
    }
  }

  lemma {:induction false} OddZeros(n: nat)
    ensures !Odd(Zeros(n))
  {
    if n > 0 {
      assert Zeros(n)[..n - 1] == Zeros(n - 1);
      OddZeros(n - 1);
    }
  }

  /** The divisor has an even number of terms, so shifting keeps the parity of the register. */
  lemma OddShift(r: Register)
    ensures Odd(Shift(r)) == Odd(r)
  {
    var t := [r[0]];
    var taps := Zeros(3) + t + Zeros(6) + t + Zeros(4) + t;
    assert Shift(r) == Xor(r[1..] + [false], taps);
    OddXor(r[1..] + [false], taps);
    assert r == t + r[1..];
    OddAppend(t, r[1..]);
    OddAppend(r[1..], [false]);
    OddOne(r[0]);
    OddOne(false);
    OddZeros(3); OddZeros(6); OddZeros(4);
    OddAppend(Zeros(3), t);
    OddAppend(Zeros(3) + t, Zeros(6));
    OddAppend(Zeros(3) + t + Zeros(6), t);
    OddAppend(Zeros(3) + t + Zeros(6) + t, Zeros(4));
    OddAppend(Zeros(3) + t + Zeros(6) + t + Zeros(4), t);
  }

  lemma OddOne(b: bool)
    ensures Odd([b]) == b
  {
  }

  lemma {:induction false} OddFeed(r: Register, bits: Bits)
    ensures Odd(Feed(r, bits)) == (Odd(r) != Odd(bits))
  {
    hide Shift, Xor, Align;
    if bits != [] {
      var n := |bits| - 1;
      var s, t := Feed(r, bits[..n]), Align([bits[n]]);
      OddFeed(r, bits[..n]);
      OddShift(Xor(s, t));
      OddXor(s, t);
      assert t == [bits[n]] + Zeros(15) by { AlignOne(bits[n]); }
      OddAppend([bits[n]], Zeros(15));
      OddOne(bits[n]);
      OddZeros(15);
    }
  }

  lemma AlignOne(b: bool)
    ensures Align([b]) == [b] + Zeros(15)
  {
  }

  /** Every odd number of bit errors changes the checksum, at every message length. */
  lemma OddErrorsDetected(r: Register, x: Bits, y: Bits)
    requires |x| == |y| && Odd(Xor(x, y))
    ensures Feed(r, x) != Feed(r, y)
  {
    OddXor(x, y);
    OddFeed(r, x);
    OddFeed(r, y);
  }
}
