/** The encoder's two loops: bisection into sixteen bytes, then five bits at a time. */
module GeohashEncoder {
  import opened BitStrings
  import opened BitBuckets
  import opened Geohash

  const MAX_BYTES := 16

  /** The 24 bits from three bytes, and five of them. */
  function Window(a: bv8, b: bv8, c: bv8): bv32 { (a as bv32 << 16) | (b as bv32 << 8) | c as bv32 }

  function Five(w: bv32, offset: nat): bv32
    requires offset < 8
  {
    match offset
    case 0 => (w >> 19) & 0x1F
    case 1 => (w >> 18) & 0x1F
    case 2 => (w >> 17) & 0x1F
    case 3 => (w >> 16) & 0x1F
    case 4 => (w >> 15) & 0x1F
    case 5 => (w >> 14) & 0x1F
    case 6 => (w >> 13) & 0x1F
    case _ => (w >> 12) & 0x1F
  }

  /** Bit j of three bytes in a row. */
  predicate BitIn(a: bv8, b: bv8, c: bv8, j: nat)
    requires j < 24
  {
    if j < 8 then Bit(a, j) else if j < 16 then Bit(b, j - 8) else Bit(c, j - 16)
  }

  function Flag(c: bool): bv32 { if c then 1 else 0 }

  function Tail(x0: bv32, x1: bv32, x2: bv32, x3: bv32, x4: bv32): bv32 {
    (x0 << 4) | (x1 << 3) | (x2 << 2) | (x3 << 1) | x4
  }

  function Gather(c0: bool, c1: bool, c2: bool, c3: bool, c4: bool): bv32 {
    Tail(Flag(c0), Flag(c1), Flag(c2), Flag(c3), Flag(c4))
  }

  /** Bit k of a byte as a number. */
  function Digit(b: bv32, k: nat): bv32
    requires k < 8
  {
    match k
    case 0 => (b >> 7) & 1
    case 1 => (b >> 6) & 1
    case 2 => (b >> 5) & 1
    case 3 => (b >> 4) & 1
    case 4 => (b >> 3) & 1
    case 5 => (b >> 2) & 1
    case 6 => (b >> 1) & 1
    case _ => b & 1
  }

  lemma DigitIs(b: bv8, k: nat)
    requires k < 8
    ensures Digit(b as bv32, k) == Flag(Bit(b, k))
  {
    match k case 0 => case 1 => case 2 => case 3 => case 4 => case 5 => case 6 => case _ =>
  }

  /** The same five bits, taken from the bytes that they are in. */
  function Cut(a: bv32, b: bv32, offset: nat): bv32
    requires offset < 8
  {
    match offset
    case 0 => a >> 3
    case 1 => (a >> 2) & 0x1F
    case 2 => (a >> 1) & 0x1F
    case 3 => a & 0x1F
    case 4 => ((a & 0x0F) << 1) | (b >> 7)
    case 5 => ((a & 0x07) << 2) | (b >> 6)
    case 6 => ((a & 0x03) << 3) | (b >> 5)
    case _ => ((a & 0x01) << 4) | (b >> 4)
  }

  lemma FiveInByte(a: bv8, b: bv8, c: bv8, o: nat)
    requires o < 4
    ensures Five(Window(a, b, c), o) == Cut(a as bv32, b as bv32, o)
  {
  }

  lemma FiveAcross(a: bv8, b: bv8, c: bv8, o: nat)
    requires 4 <= o < 8
    ensures Five(Window(a, b, c), o) == Cut(a as bv32, b as bv32, o)
  {
  }

  lemma Cut0(a: bv32, b: bv32)
    requires a < 256 && b < 256
    ensures Cut(a, b, 0) == Tail(Digit(a, 0), Digit(a, 1), Digit(a, 2), Digit(a, 3), Digit(a, 4))
  {
  }

  lemma Cut1(a: bv32, b: bv32)
    requires a < 256 && b < 256
    ensures Cut(a, b, 1) == Tail(Digit(a, 1), Digit(a, 2), Digit(a, 3), Digit(a, 4), Digit(a, 5))
  {
  }

  lemma Cut2(a: bv32, b: bv32)
    requires a < 256 && b < 256
    ensures Cut(a, b, 2) == Tail(Digit(a, 2), Digit(a, 3), Digit(a, 4), Digit(a, 5), Digit(a, 6))
  {
  }

  lemma Cut3(a: bv32, b: bv32)
    requires a < 256 && b < 256
    ensures Cut(a, b, 3) == Tail(Digit(a, 3), Digit(a, 4), Digit(a, 5), Digit(a, 6), Digit(a, 7))
  {
  }

  lemma Cut4(a: bv32, b: bv32)
    requires a < 256 && b < 256
    ensures Cut(a, b, 4) == Tail(Digit(a, 4), Digit(a, 5), Digit(a, 6), Digit(a, 7), Digit(b, 0))
  {
  }

  lemma Cut5(a: bv32, b: bv32)
    requires a < 256 && b < 256
    ensures Cut(a, b, 5) == Tail(Digit(a, 5), Digit(a, 6), Digit(a, 7), Digit(b, 0), Digit(b, 1))
  {
  }

  lemma Cut6(a: bv32, b: bv32)
    requires a < 256 && b < 256
    ensures Cut(a, b, 6) == Tail(Digit(a, 6), Digit(a, 7), Digit(b, 0), Digit(b, 1), Digit(b, 2))
  {
  }

  lemma Cut7(a: bv32, b: bv32)
    requires a < 256 && b < 256
    ensures Cut(a, b, 7) == Tail(Digit(a, 7), Digit(b, 0), Digit(b, 1), Digit(b, 2), Digit(b, 3))
  {
  }

  lemma SmallByte(a: bv8)
    ensures a as bv32 < 256
  {
  }

  /** Bit j of two bytes in a row, as a number. */
  function DigitIn(a: bv32, b: bv32, j: nat): bv32
    requires j < 16
  {
    if j < 8 then Digit(a, j) else Digit(b, j - 8)
  }

  lemma CutIsTail(a: bv8, b: bv8, o: nat)
    requires o < 8
    ensures var x, y := a as bv32, b as bv32;
            Cut(x, y, o) == Tail(DigitIn(x, y, o), DigitIn(x, y, o + 1), DigitIn(x, y, o + 2), DigitIn(x, y, o + 3), DigitIn(x, y, o + 4))
  {
    hide Tail, Digit, Cut;
    SmallByte(a);
    SmallByte(b);
    match o
    case 0 => Cut0(a as bv32, b as bv32);
    case 1 => Cut1(a as bv32, b as bv32);
    case 2 => Cut2(a as bv32, b as bv32);
    case 3 => Cut3(a as bv32, b as bv32);
    case 4 => Cut4(a as bv32, b as bv32);
    case 5 => Cut5(a as bv32, b as bv32);
    case 6 => Cut6(a as bv32, b as bv32);
    case _ => Cut7(a as bv32, b as bv32);
  }

  lemma DigitInIs(a: bv8, b: bv8, c: bv8, j: nat)
    requires j < 16
    ensures DigitIn(a as bv32, b as bv32, j) == Flag(BitIn(a, b, c, j))
  {
    hide Digit, Flag, Bit;
    if j < 8 { DigitIs(a, j); } else { DigitIs(b, j - 8); }
  }

  /** Five bits from any offset within the first byte. */
  lemma FiveGathers(a: bv8, b: bv8, c: bv8, o: nat)
    requires o < 8
    ensures Five(Window(a, b, c), o)
         == Gather(BitIn(a, b, c, o), BitIn(a, b, c, o + 1), BitIn(a, b, c, o + 2), BitIn(a, b, c, o + 3), BitIn(a, b, c, o + 4))
  {
    hide Five, Window, Tail, Cut, DigitIn, BitIn, Flag;
    if o < 4 { FiveInByte(a, b, c, o); } else { FiveAcross(a, b, c, o); }
    CutIsTail(a, b, o);
    DigitInIs(a, b, c, o);
    DigitInIs(a, b, c, o + 1);
    DigitInIs(a, b, c, o + 2);
    DigitInIs(a, b, c, o + 3);
    DigitInIs(a, b, c, o + 4);
  }

  function Num(v: bv32): nat { v as nat }

  function One(c: bool): nat { if c then 1 else 0 }

  lemma GatherValue(c0: bool, c1: bool, c2: bool, c3: bool, c4: bool)
    ensures Num(Gather(c0, c1, c2, c3, c4)) == 16 * One(c0) + 8 * One(c1) + 4 * One(c2) + 2 * One(c3) + One(c4)
  {
  }

  lemma FromFive(q: seq<bool>)
    requires |q| == 5
    ensures FromBits(q) == 16 * One(q[0]) + 8 * One(q[1]) + 4 * One(q[2]) + 2 * One(q[3]) + One(q[4])
  {
    hide FromBits, One;
    FromNone();
    FromPrefix(q, 0);
    FromPrefix(q, 1);
    FromPrefix(q, 2);
    FromPrefix(q, 3);
    FromPrefix(q, 4);
    assert q[..5] == q && q[..0] == [];
  }

  lemma FromPrefix(q: seq<bool>, k: nat)
    requires k < |q|
    ensures FromBits(q[..k + 1]) == 2 * FromBits(q[..k]) + One(q[k])
  {
    assert q[..k + 1] == q[..k] + [q[k]];
    FromBitsSnoc(q[..k], q[k]);
  }

  lemma FromNone()
    ensures FromBits([]) == 0
  {
  }

  /** A byte of the buffer, or zero behind its end. */
  function ByteAt(bytes: seq<bv8>, k: nat): bv8 { if k < |bytes| then bytes[k] else 0 }

  /** One round of the second loop, on the buffer's bytes. */
  function Regrouped(bytes: seq<bv8>, i: nat): bv32 {
    var k := 5 * i / 8;
    Five(Window(ByteAt(bytes, k), ByteAt(bytes, k + 1), ByteAt(bytes, k + 2)), 5 * i % 8)
  }

  /** The five bits it cuts out are the i-th five bits of the buffer. */
  lemma RegroupedIs(bytes: seq<bv8>, i: nat)
    requires 5 * i + 5 <= 8 * |bytes|
    ensures Num(Regrouped(bytes, i)) == FromBits(BitsOf(bytes)[5 * i..5 * i + 5])
  {
    hide Five, Window, Gather, Bit, FromBits, Num;
    var k, o := 5 * i / 8, 5 * i % 8;
    var a, b, c := ByteAt(bytes, k), ByteAt(bytes, k + 1), ByteAt(bytes, k + 2);
    var q := BitsOf(bytes)[5 * i..5 * i + 5];
    forall j: nat | j < 5 ensures q[j] == BitIn(a, b, c, o + j) {
      assert q[j] == BitsOf(bytes)[5 * i + j];
      assert (5 * i + j) / 8 == if o + j < 8 then k else k + 1;
      assert (5 * i + j) % 8 == if o + j < 8 then o + j else o + j - 8;
    }
    FiveGathers(a, b, c, o);
    GatherValue(q[0], q[1], q[2], q[3], q[4]);
    FromFive(q);
  }

  /** The first loop: one bit for every halving, into zeroed bytes. */
  method Bisect(p: Point, bitCount: nat, bytes: array<bv8>)
    requires bitCount <= 8 * bytes.Length && forall i :: 0 <= i < bytes.Length ==> bytes[i] == 0
    modifies bytes
    ensures BitsOf(bytes[..])[..bitCount] == BitsOfPoint(p, bitCount)
  {
    hide Bit, SetMask, Upper, Located;
    var latLo, latHi, lonLo, lonHi := -90.0, 90.0, -180.0, 180.0;
    AllZero(bytes[..]);
    LocatedNone();
    for i := 0 to bitCount
      invariant Cell(Range(latLo, latHi), Range(lonLo, lonHi)) == Located(BitsOfPoint(p, i))
      invariant BitsOf(bytes[..])[..i] == BitsOfPoint(p, i)
      invariant forall j :: i <= j < 8 * bytes.Length ==> !BitsOf(bytes[..])[j]
    {
      ghost var before, was := BitsOfPoint(p, i), BitsOf(bytes[..]);
      var up: bool;
      if i % 2 == 0 {
        var mid := (lonLo + lonHi) / 2.0;
        up := p.lon >= mid;
        if up { lonLo := mid; } else { lonHi := mid; }
      } else {
        var mid := (latLo + latHi) / 2.0;
        up := p.lat >= mid;
        if up { latLo := mid; } else { latHi := mid; }
      }
      UpperIs(Located(before), i, p, up);
      LocatedMore(before, up);
      SetIf(bytes, i, up);
      assert BitsOf(bytes[..])[..i + 1] == was[..i] + [up];
    }
  }

  /** hash_bytes[i / 8] |= 1 << (7 - i % 8), where the bit is wanted. */
  method SetIf(bytes: array<bv8>, i: nat, up: bool)
    requires i < 8 * bytes.Length && !BitsOf(bytes[..])[i]
    modifies bytes
    ensures BitsOf(bytes[..]) == old(BitsOf(bytes[..]))[i := up]
  {
    hide Bit, SetMask;
    ghost var was := bytes[..];
    if up {
      bytes[i / 8] := SetMask(bytes[i / 8], i % 8);
      BitsOfSet(was, i);
      assert bytes[..] == was[i / 8 := SetMask(was[i / 8], i % 8)];
    }
  }

  lemma AllZero(bytes: seq<bv8>)
    requires forall i :: 0 <= i < |bytes| ==> bytes[i] == 0
    ensures forall j :: 0 <= j < 8 * |bytes| ==> !BitsOf(bytes)[j]
  {
    hide Bit;
    forall j | 0 <= j < 8 ensures !Bit(0, j) { NoBits(j); }
  }

  lemma LocatedNone()
    ensures Located([]) == GLOBE
  {
  }

  lemma UpperIs(c: Cell, n: nat, p: Point, up: bool)
    requires up == if n % 2 == 0 then p.lon >= c.lon.Mid() else p.lat >= c.lat.Mid()
    ensures Upper(c, n, p) == up
  {
  }

  lemma LocatedMore(bits: seq<bool>, bit: bool)
    ensures Located(bits + [bit]) == Narrow(Located(bits), |bits|, bit)
  {
    assert (bits + [bit])[..|bits|] == bits;
  }

  /** geohash_encode */
  method GeohashEncode(p: Point, precision: nat, out: array<char>)
    requires 5 * precision <= 8 * MAX_BYTES && precision < out.Length
    modifies out
    ensures out[..precision] == Text(p, precision) && out[precision] == '\0'
  {
    hide BitsOfPoint, Regrouped, SymbolOf, Num, BitsOf, FromBits, Quint;
    var bytes := new bv8[MAX_BYTES](_ => 0);
    Bisect(p, 5 * precision, bytes);
    var packed := bytes[..];
    for i := 0 to precision
      invariant out[..i] == Text(p, i)
    {
      RegroupedQuint(packed, p, precision, i);
      PutSymbol(out, i, SymbolFor(Regrouped(packed, i), Quint(p, i + 1)));
    }
    out[precision] := '\0';
  }

  method PutSymbol(out: array<char>, i: nat, c: char)
    requires i < out.Length
    modifies out
    ensures out[..i + 1] == old(out[..i]) + [c]
  {
    out[i] := c;
  }

  lemma RegroupedQuint(bytes: seq<bv8>, p: Point, precision: nat, i: nat)
    requires i < precision && 5 * precision <= 8 * |bytes|
    requires BitsOf(bytes)[..5 * precision] == BitsOfPoint(p, 5 * precision)
    ensures Num(Regrouped(bytes, i)) == FromBits(Quint(p, i + 1))
  {
    hide Num, Regrouped, FromBits, Quint, BitsOfPoint;
    RegroupedIs(bytes, i);
    QuintIs(p, i + 1, precision, BitsOf(bytes));
  }

  function SymbolFor(v: bv32, ghost q: seq<bool>): char
    requires |q| == 5 && Num(v) == FromBits(q)
    ensures SymbolFor(v, q) == SymbolOf(q)
  {
    FiveBits(q);
    Symbol(Num(v))
  }

  lemma QuintIs(p: Point, n: nat, precision: nat, bits: seq<bool>)
    requires 0 < n <= precision && 5 * precision <= |bits| && bits[..5 * precision] == BitsOfPoint(p, 5 * precision)
    ensures Quint(p, n) == bits[5 * (n - 1)..5 * n]
  {
    hide BitsOfPoint;
    BitsPrefix(p, 5 * n, 5 * precision);
  }
}
