/** The wire format of an E-Hash relay packet: what a packet looks like as bytes, when bytes
    are accepted, and what the checksum guards. */
module EHashPacket {
  import opened BitBuckets
  import opened BinaryPolys
  import opened Crc16

  type Bytes = seq<bv8>

  datatype Error = InvalidArg | BufferTooSmall | InvalidPacket | CrcMismatch | MaxHops | BadMsgType {
    /** The return code. */
    function Code(): int {
      match this
      case InvalidArg => -1
      case BufferTooSmall => -2
      case InvalidPacket => -3
      case CrcMismatch => -4
      case MaxHops => -5
      case BadMsgType => -7
    }
  }

  datatype Result<T> = Ok(value: T) | Err(error: Error)

  /** A 16-bit length as a number. */
  function Size(v: bv16): nat { v as nat }

  datatype Packet = Packet(msgType: bv8, hopCount: bv8, maxHops: bv8, senderId: bv32, payloadLen: bv16, payload: Bytes) {
    predicate Valid() {
      IsValidType(msgType) && |payload| == Size(payloadLen)
    }
  }

  const HEADER_SIZE := 9
  const CRC_SIZE := 2

  predicate IsValidType(t: bv8) { 0x01 <= t < 0x04 }

  // ----- fields

  function PutU16(v: bv16): Bytes { [(v >> 8) as bv8, (v & 0xFF) as bv8] }

  function GetU16(a: bv8, b: bv8): bv16 { ((a as bv16) << 8) | (b as bv16) }

  function PutU32(v: bv32): Bytes {
    [(v >> 24) as bv8, ((v >> 16) & 0xFF) as bv8, ((v >> 8) & 0xFF) as bv8, (v & 0xFF) as bv8]
  }

  function GetU32(a: bv8, b: bv8, c: bv8, d: bv8): bv32 {
    ((a as bv32) << 24) | ((b as bv32) << 16) | ((c as bv32) << 8) | (d as bv32)
  }

  lemma U16RoundTrip(v: bv16, a: bv8, b: bv8)
    ensures GetU16(PutU16(v)[0], PutU16(v)[1]) == v && PutU16(GetU16(a, b)) == [a, b]
  {
    RawU16(v, a, b);
  }

  lemma RawU16(v: bv16, a: bv8, b: bv8)
    ensures GetU16((v >> 8) as bv8, (v & 0xFF) as bv8) == v
    ensures (GetU16(a, b) >> 8) as bv8 == a && (GetU16(a, b) & 0xFF) as bv8 == b
  {
  }

  lemma U32RoundTrip(v: bv32, a: bv8, b: bv8, c: bv8, d: bv8)
    ensures GetU32(PutU32(v)[0], PutU32(v)[1], PutU32(v)[2], PutU32(v)[3]) == v
    ensures PutU32(GetU32(a, b, c, d)) == [a, b, c, d]
  {
    RawU32(v);
    RawU32Bytes(a, b, c, d);
  }

  lemma RawU32(v: bv32)
    ensures GetU32((v >> 24) as bv8, ((v >> 16) & 0xFF) as bv8, ((v >> 8) & 0xFF) as bv8, (v & 0xFF) as bv8) == v
  {
  }

  lemma RawU32Bytes(a: bv8, b: bv8, c: bv8, d: bv8)
    ensures var v := GetU32(a, b, c, d);
            && (v >> 24) as bv8 == a && ((v >> 16) & 0xFF) as bv8 == b
            && ((v >> 8) & 0xFF) as bv8 == c && (v & 0xFF) as bv8 == d
  {
  }

  // ----- the checksum of a byte string

  /** One turn of the inner loop of ehash_packet_calc_crc. */
  function ShiftCrc(crc: bv16): bv16 {
    if crc & 0x8000 != 0 then (crc << 1) ^ 0x1021 else crc << 1
  }

  /** crc ^= byte << 8 */
  function LoadByte(crc: bv16, b: bv8): bv16 { Plus(crc, High(b)) }

  function ShiftCrcN(crc: bv16, n: nat): bv16 {
    if n == 0 then crc else ShiftCrc(ShiftCrcN(crc, n - 1))
  }

  function Crc(bytes: Bytes): bv16 {
    if bytes == [] then 0xFFFF else ShiftCrcN(LoadByte(Crc(bytes[..|bytes| - 1]), bytes[|bytes| - 1]), 8)
  }

  // ----- words as registers: bit k is the top bit after k shifts to the left

  function Plus(a: bv16, b: bv16): bv16 { a ^ b }

  predicate TopBit(c: bv16) { c & 0x8000 != 0 }

  function Left(c: bv16): bv16 { c << 1 }

  function LeftN(c: bv16, n: nat): bv16 {
    if n == 0 then c else Left(LeftN(c, n - 1))
  }

  function High(b: bv8): bv16 { (b as bv16) << 8 }

  function Low(b: bv8): bv16 { b as bv16 }

  function RegisterOf(c: bv16): (r: Register)
    ensures forall k :: 0 <= k < 16 ==> r[k] == TopBit(LeftN(c, k))
  {
    seq(16, k requires 0 <= k < 16 => TopBit(LeftN(c, k)))
  }

  lemma PlusTop(a: bv16, b: bv16)
    ensures TopBit(Plus(a, b)) == (TopBit(a) != TopBit(b))
  {
  }

  lemma PlusLeft(a: bv16, b: bv16)
    ensures Left(Plus(a, b)) == Plus(Left(a), Left(b))
  {
  }

  lemma PlusParts(a: bv16, b: bv16)
    ensures TopBit(Plus(a, b)) == (TopBit(a) != TopBit(b))
    ensures Left(Plus(a, b)) == Plus(Left(a), Left(b))
  {
    hide TopBit, Plus, Left;
    PlusTop(a, b);
    PlusLeft(a, b);
  }

  lemma {:induction false} LeftNPlus(a: bv16, b: bv16, n: nat)
    ensures LeftN(Plus(a, b), n) == Plus(LeftN(a, n), LeftN(b, n))
  {
    hide Plus, TopBit, Left;
    if n > 0 {
      LeftNPlus(a, b, n - 1);
      PlusParts(LeftN(a, n - 1), LeftN(b, n - 1));
    }
  }

  lemma {:induction false} LeftNFront(c: bv16, n: nat)
    ensures LeftN(Left(c), n) == LeftN(c, n + 1)
  {
    hide Left;
    if n > 0 {
      LeftNFront(c, n - 1);
    }
  }

  lemma {:induction false} LeftNAdd(c: bv16, m: nat, n: nat)
    ensures LeftN(LeftN(c, m), n) == LeftN(c, m + n)
  {
    hide Left;
    if n > 0 {
      LeftNAdd(c, m, n - 1);
    }
  }

  lemma LeftFour(c: bv16, n: nat)
    ensures LeftN(c, n + 4) == Left(Left(Left(Left(LeftN(c, n)))))
  {
    hide Left;
    assert LeftN(c, n + 2) == Left(Left(LeftN(c, n)));
  }

  /** After sixteen shifts nothing is left. */
  lemma LeftSixteen(c: bv16)
    ensures LeftN(c, 16) == 0
  {
    LeftFour(c, 0); LeftFour(c, 4); LeftFour(c, 8); LeftFour(c, 12);
    hide LeftN;
  }

  /** The bits of the divisor below x^16. */
  lemma DivisorBits(k: nat)
    requires k < 16
    ensures TopBit(LeftN(0x1021, k)) == Tap(k)
  {
    assert LeftN(0x1021, 0) == 0x1021;
    assert LeftN(0x1021, 1) == 0x2042;
    assert LeftN(0x1021, 2) == 0x4084;
    assert LeftN(0x1021, 3) == 0x8108;
    assert LeftN(0x1021, 4) == 0x0210;
    assert LeftN(0x1021, 5) == 0x0420;
    assert LeftN(0x1021, 6) == 0x0840;
    assert LeftN(0x1021, 7) == 0x1080;
    assert LeftN(0x1021, 8) == 0x2100;
    assert LeftN(0x1021, 9) == 0x4200;
    assert LeftN(0x1021, 10) == 0x8400;
    assert LeftN(0x1021, 11) == 0x0800;
    assert LeftN(0x1021, 12) == 0x1000;
    assert LeftN(0x1021, 13) == 0x2000;
    assert LeftN(0x1021, 14) == 0x4000;
    assert LeftN(0x1021, 15) == 0x8000;
  }

  // ----- bytes in words

  function LeftByte(b: bv8): bv8 { b << 1 }

  lemma BitShift(b: bv8, k: nat)
    requires k < 7
    ensures Bit(b, k + 1) == Bit(LeftByte(b), k)
  {
  }

  lemma HighTop(b: bv8)
    ensures TopBit(High(b)) == Bit(b, 0) && Left(High(b)) == High(LeftByte(b))
  {
  }

  /** The high byte of a word, and what lies behind it. */
  lemma {:induction false} HighBits(b: bv8, k: nat)
    ensures k < 8 ==> TopBit(LeftN(High(b), k)) == Bit(b, k)
    ensures LeftN(High(b), 8) == 0
    decreases k
  {
    hide TopBit, Left, High, Bit, LeftByte;
    HighZero(b);
    HighTop(b);
    if 0 < k < 8 {
      HighBits(LeftByte(b), k - 1);
      LeftNFront(High(b), k - 1);
      BitShift(b, k - 1);
    }
  }

  lemma HighZero(b: bv8)
    ensures LeftN(High(b), 8) == 0
  {
    LeftFour(High(b), 0); LeftFour(High(b), 4);
    hide LeftN;
  }

  lemma LowEight(b: bv8)
    ensures LeftN(Low(b), 8) == High(b)
  {
    LeftFour(Low(b), 0); LeftFour(Low(b), 4);
    hide LeftN;
  }

  lemma LowClear(b: bv8, k: nat)
    requires k < 8
    ensures !TopBit(LeftN(Low(b), k))
  {
    assert LeftN(Low(b), 0) < 0x100;
    assert LeftN(Low(b), 1) < 0x200;
    assert LeftN(Low(b), 2) < 0x400;
    assert LeftN(Low(b), 3) < 0x800;
    assert LeftN(Low(b), 4) < 0x1000;
    assert LeftN(Low(b), 5) < 0x2000;
    assert LeftN(Low(b), 6) < 0x4000;
    assert LeftN(Low(b), 7) < 0x8000;
  }

  /** A word made of two bytes shows their bits in order. */
  lemma TwoBytes(hi: bv8, lo: bv8, k: nat)
    requires k < 16
    ensures TopBit(LeftN(Plus(High(hi), Low(lo)), k)) == if k < 8 then Bit(hi, k) else Bit(lo, k - 8)
  {
    hide TopBit, Left, High, Low, Plus, Bit;
    LeftNPlus(High(hi), Low(lo), k);
    PlusParts(LeftN(High(hi), k), LeftN(Low(lo), k));
    if k < 8 {
      HighBits(hi, k);
      LowClear(lo, k);
    } else {
      HighBits(hi, 8);
      LeftNAdd(High(hi), 8, k - 8);
      ZeroStays(k - 8);
      LowEight(lo);
      LeftNAdd(Low(lo), 8, k - 8);
      HighBits(lo, k - 8);
    }
  }

  lemma {:induction false} ZeroStays(n: nat)
    ensures LeftN(0, n) == 0 && !TopBit(0)
  {
    if n > 0 {
      ZeroStays(n - 1);
    }
  }

  // ----- the byte loop is the bit-serial register

  lemma ShiftCrcBit(c: bv16, k: nat)
    requires k < 16
    ensures TopBit(LeftN(ShiftCrc(c), k)) == ((k < 15 && TopBit(LeftN(c, k + 1))) != (TopBit(c) && Tap(k)))
  {
    ShiftCrcParts(c);
    hide ShiftCrc, TopBit, Left, Plus;
    LeftNFront(c, k);
    LeftNPlus(Left(c), 0x1021, k);
    PlusParts(LeftN(Left(c), k), LeftN(0x1021, k));
    DivisorBits(k);
    LeftSixteen(c);
    ZeroStays(0);
  }

  lemma ShiftCrcParts(c: bv16)
    ensures ShiftCrc(c) == if TopBit(c) then Plus(Left(c), 0x1021) else Left(c)
  {
  }

  lemma ShiftCrcIsShift(c: bv16)
    ensures RegisterOf(ShiftCrc(c)) == Shift(RegisterOf(c))
  {
    hide ShiftCrc, TopBit, Left;
    var l, r := RegisterOf(ShiftCrc(c)), Shift(RegisterOf(c));
    forall k | 0 <= k < 16
      ensures l[k] == r[k]
    {
      ShiftCrcBit(c, k);
    }
    assert l == r;
  }

  lemma LoadBit(c: bv16, b: bv8, k: nat)
    requires k < 16
    ensures TopBit(LeftN(LoadByte(c, b), k)) == (TopBit(LeftN(c, k)) != (k < 8 && Bit(b, k)))
  {
    hide TopBit, Left, Plus, High, Bit;
    LeftNPlus(c, High(b), k);
    PlusParts(LeftN(c, k), LeftN(High(b), k));
    HighBits(b, k);
    if k >= 8 {
      LeftNAdd(High(b), 8, k - 8);
      ZeroStays(k - 8);
    }
  }

  lemma ByteBits(b: bv8)
    ensures |BitsOf([b])| == 8 && forall k :: 0 <= k < 8 ==> BitsOf([b])[k] == Bit(b, k)
  {
    hide Bit;
  }

  lemma LoadByteIsXor(c: bv16, b: bv8)
    ensures RegisterOf(LoadByte(c, b)) == Xor(RegisterOf(c), Align(BitsOf([b])))
  {
    ByteBits(b);
    hide TopBit, LeftN, LoadByte, Bit, BitsOf;
    var l, r := RegisterOf(LoadByte(c, b)), Xor(RegisterOf(c), Align(BitsOf([b])));
    forall k | 0 <= k < 16
      ensures l[k] == r[k]
    {
      LoadBit(c, b, k);
    }
    assert l == r;
  }

  lemma {:induction false} ShiftCrcNIsShiftN(c: bv16, n: nat)
    ensures RegisterOf(ShiftCrcN(c, n)) == ShiftN(RegisterOf(c), n)
  {
    hide ShiftCrc, Shift;
    if n > 0 {
      ShiftCrcNIsShiftN(c, n - 1);
      ShiftCrcIsShift(ShiftCrcN(c, n - 1));
    }
  }

  function AllOnes(): Register { seq(16, _ => true) }

  function Checksum(bytes: Bytes): Register { Feed(AllOnes(), BitsOf(bytes)) }

  lemma BitsOfAppend(a: Bytes, b: Bytes)
    ensures BitsOf(a + b) == BitsOf(a) + BitsOf(b)
  {
    hide Bit;
  }

  lemma OnesWord()
    ensures RegisterOf(0xFFFF) == AllOnes()
  {
    assert LeftN(0xFFFF, 0) == 0xFFFF;
    assert LeftN(0xFFFF, 1) == 0xFFFE;
    assert LeftN(0xFFFF, 2) == 0xFFFC;
    assert LeftN(0xFFFF, 3) == 0xFFF8;
    assert LeftN(0xFFFF, 4) == 0xFFF0;
    assert LeftN(0xFFFF, 5) == 0xFFE0;
    assert LeftN(0xFFFF, 6) == 0xFFC0;
    assert LeftN(0xFFFF, 7) == 0xFF80;
    assert LeftN(0xFFFF, 8) == 0xFF00;
    assert LeftN(0xFFFF, 9) == 0xFE00;
    assert LeftN(0xFFFF, 10) == 0xFC00;
    assert LeftN(0xFFFF, 11) == 0xF800;
    assert LeftN(0xFFFF, 12) == 0xF000;
    assert LeftN(0xFFFF, 13) == 0xE000;
    assert LeftN(0xFFFF, 14) == 0xC000;
    assert LeftN(0xFFFF, 15) == 0x8000;
    forall k | 0 <= k < 16
      ensures TopBit(LeftN(0xFFFF, k))
    {
    }
  }

  /** The byte loop is the bit-serial register. */
  lemma {:induction false} CrcIsChecksum(bytes: Bytes)
    ensures RegisterOf(Crc(bytes)) == Checksum(bytes)
  {
    hide ShiftCrc, LoadByte, Shift, Bit;
    if bytes == [] {
      OnesWord();
      assert BitsOf([]) == [];
    } else {
      var n := |bytes| - 1;
      var b := bytes[n];
      CrcIsChecksum(bytes[..n]);
      LoadByteIsXor(Crc(bytes[..n]), b);
      ShiftCrcNIsShiftN(LoadByte(Crc(bytes[..n]), b), 8);
      BitsOfAppend(bytes[..n], [b]);
      assert bytes[..n] + [b] == bytes;
      FeedAppend(AllOnes(), BitsOf(bytes[..n]), BitsOf([b]));
      FeedAligned(Checksum(bytes[..n]), BitsOf([b]));
    }
  }

  lemma CrcSnoc(bytes: Bytes, b: bv8)
    ensures Crc(bytes + [b]) == ShiftCrcN(LoadByte(Crc(bytes), b), 8)
  {
    assert (bytes + [b])[..|bytes|] == bytes;
  }

  lemma CheckValue1()
    ensures ShiftCrcN(LoadByte(0xffff, 0x31), 8) == 0xc782
  {
    assert LoadByte(0xffff, 0x31) == 0xceff;
  }

  lemma CheckValue2()
    ensures ShiftCrcN(LoadByte(0xc782, 0x32), 8) == 0x3dba
  {
    assert LoadByte(0xc782, 0x32) == 0xf582;
  }

  lemma CheckValue3()
    ensures ShiftCrcN(LoadByte(0x3dba, 0x33), 8) == 0x5bce
  {
    assert LoadByte(0x3dba, 0x33) == 0x0eba;
  }

  lemma CheckValue4()
    ensures ShiftCrcN(LoadByte(0x5bce, 0x34), 8) == 0x5349
  {
    assert LoadByte(0x5bce, 0x34) == 0x6fce;
  }

  lemma CheckValue5()
    ensures ShiftCrcN(LoadByte(0x5349, 0x35), 8) == 0x4560
  {
    assert LoadByte(0x5349, 0x35) == 0x6649;
  }

  lemma CheckValue6()
    ensures ShiftCrcN(LoadByte(0x4560, 0x36), 8) == 0x2ef4
  {
    assert LoadByte(0x4560, 0x36) == 0x7360;
  }

  lemma CheckValue7()
    ensures ShiftCrcN(LoadByte(0x2ef4, 0x37), 8) == 0x7718
  {
    assert LoadByte(0x2ef4, 0x37) == 0x19f4;
  }

  lemma CheckValue8()
    ensures ShiftCrcN(LoadByte(0x7718, 0x38), 8) == 0xa12b
  {
    assert LoadByte(0x7718, 0x38) == 0x4f18;
  }

  lemma CheckValue9()
    ensures ShiftCrcN(LoadByte(0xa12b, 0x39), 8) == 0x29b1
  {
    assert LoadByte(0xa12b, 0x39) == 0x982b;
  }

  /** The check value of this checksum, as published: that of the digits 1 to 9. */
  lemma CheckValue()
    ensures Crc([0x31, 0x32, 0x33, 0x34, 0x35, 0x36, 0x37, 0x38, 0x39]) == 0x29b1
  {
    NoBytes();
    hide ShiftCrcN, LoadByte, Crc;
    var d0: Bytes := [];
    var d1 := d0 + [0x31 as bv8]; CrcSnoc(d0, 0x31); CheckValue1();
    var d2 := d1 + [0x32 as bv8]; CrcSnoc(d1, 0x32); CheckValue2();
    var d3 := d2 + [0x33 as bv8]; CrcSnoc(d2, 0x33); CheckValue3();
    var d4 := d3 + [0x34 as bv8]; CrcSnoc(d3, 0x34); CheckValue4();
    var d5 := d4 + [0x35 as bv8]; CrcSnoc(d4, 0x35); CheckValue5();
    var d6 := d5 + [0x36 as bv8]; CrcSnoc(d5, 0x36); CheckValue6();
    var d7 := d6 + [0x37 as bv8]; CrcSnoc(d6, 0x37); CheckValue7();
    var d8 := d7 + [0x38 as bv8]; CrcSnoc(d7, 0x38); CheckValue8();
    var d9 := d8 + [0x39 as bv8]; CrcSnoc(d8, 0x39); CheckValue9();
    assert d9 == [0x31, 0x32, 0x33, 0x34, 0x35, 0x36, 0x37, 0x38, 0x39];
  }

  lemma NoBytes()
    ensures Crc([]) == 0xFFFF
  {
  }

  /** The checksum field shows the register bit by bit. */
  lemma CrcFieldBits(c: bv16)
    ensures BitsOf(PutU16(c)) == RegisterOf(c)
  {
    WordSplit(c);
    hide PutU16, Bit, Plus, High, Low, TopBit, LeftN, BitsOf;
    var hi, lo := PutU16(c)[0], PutU16(c)[1];
    ByteBits(hi);
    ByteBits(lo);
    BitsOfAppend([hi], [lo]);
    assert PutU16(c) == [hi] + [lo];
    var l, r := BitsOf([hi]) + BitsOf([lo]), RegisterOf(c);
    forall k | 0 <= k < 16
      ensures l[k] == r[k]
    {
      TwoBytes(hi, lo, k);
    }
    assert l == r;
  }

  lemma WordSplit(c: bv16)
    ensures |PutU16(c)| == 2 && c == Plus(High(PutU16(c)[0]), Low(PutU16(c)[1]))
  {
    assert c == ((((c >> 8) as bv8) as bv16) << 8) ^ (((c & 0xFF) as bv8) as bv16);
  }

  lemma SameWord(a: bv16, b: bv16)
    requires RegisterOf(a) == RegisterOf(b)
    ensures a == b
  {
    U16RoundTrip(a, 0, 0);
    U16RoundTrip(b, 0, 0);
    CrcFieldBits(a);
    CrcFieldBits(b);
    SameBytes(PutU16(a), PutU16(b));
  }

  lemma SameBytes(a: Bytes, b: Bytes)
    requires |a| == |b| && BitsOf(a) == BitsOf(b)
    ensures a == b
  {
    forall i | 0 <= i < |a|
      ensures a[i] == b[i]
    {
      forall j | 0 <= j < 8
        ensures Bit(a[i], j) == Bit(b[i], j)
      {
        assert BitsOf(a)[8 * i + j] == BitsOf(b)[8 * i + j];
      }
      SameBits(a[i], b[i]);
    }
  }

  /** A byte string with its checksum behind it leaves a zero register, and only then. */
  lemma ResidueIff(region: Bytes, a: bv8, b: bv8)
    ensures Checksum(region + [a, b]) == Zeros(16) <==> Crc(region) == GetU16(a, b)
  {
    var stored := GetU16(a, b);
    U16RoundTrip(0, a, b);
    hide Size, GetU16, PutU16, Feed;
    CrcIsChecksum(region);
    BitsOfAppend(region, [a, b]);
    CrcFieldBits(stored);
    ResidueZeroIff(AllOnes(), BitsOf(region), RegisterOf(stored));
    if RegisterOf(stored) == RegisterOf(Crc(region)) {
      SameWord(stored, Crc(region));
    }
  }

  // ----- the wire format

  function Header(p: Packet): (h: Bytes)
    ensures |h| == HEADER_SIZE
  {
    [p.msgType, p.hopCount, p.maxHops] + PutU32(p.senderId) + PutU16(p.payloadLen)
  }

  /** Header, payload and checksum. */
  function Wire(p: Packet): (w: Bytes)
    ensures |w| == HEADER_SIZE + |p.payload| + CRC_SIZE
  {
    var region := Header(p) + p.payload;
    region + PutU16(Crc(region))
  }

  function DeclaredLen(bytes: Bytes): bv16
    requires |bytes| >= HEADER_SIZE
  {
    GetU16(bytes[7], bytes[8])
  }

  /** The size of the packet that a header announces. */
  function TotalSize(bytes: Bytes): nat
    requires |bytes| >= HEADER_SIZE
  {
    HEADER_SIZE + Size(DeclaredLen(bytes)) + CRC_SIZE
  }

  /** ehash_packet_validate_crc: is the packet that the header announces complete, and is its
      checksum right? */
  predicate CrcMatches(bytes: Bytes) {
    && |bytes| >= HEADER_SIZE + CRC_SIZE && TotalSize(bytes) <= |bytes|
    && (var n := HEADER_SIZE + Size(DeclaredLen(bytes)); Crc(bytes[..n]) == GetU16(bytes[n], bytes[n + 1]))
  }

  /** The checks and the field extraction of ehash_packet_unpack, on the bytes it is given. */
  function Parse(bytes: Bytes): Result<Packet> {
    if |bytes| < HEADER_SIZE then Err(InvalidPacket)
    else if !IsValidType(bytes[0]) then Err(BadMsgType)
    else if |bytes| < TotalSize(bytes) then Err(InvalidPacket)
    else
      var n := HEADER_SIZE + Size(DeclaredLen(bytes));
      if !CrcMatches(bytes[..n + CRC_SIZE]) then Err(CrcMismatch)
      else Ok(Packet(bytes[0], bytes[1], bytes[2], GetU32(bytes[3], bytes[4], bytes[5], bytes[6]),
                     DeclaredLen(bytes), bytes[HEADER_SIZE..n]))
  }

  /** The return codes in their order: too short for a header -3, a type other than 1, 2 and 3 -7, shorter than announced
      -3, wrong checksum -4. */
  lemma ParseErrors(b: Bytes)
    ensures |b| < 9 ==> Parse(b).Err? && Parse(b).error.Code() == -3
    ensures |b| >= 9 && b[0] != 1 && b[0] != 2 && b[0] != 3 ==> Parse(b).Err? && Parse(b).error.Code() == -7
    ensures |b| >= 9 && (b[0] == 1 || b[0] == 2 || b[0] == 3) && |b| < TotalSize(b) ==>
              Parse(b).Err? && Parse(b).error.Code() == -3
    ensures |b| >= 9 && (b[0] == 1 || b[0] == 2 || b[0] == 3) && |b| >= TotalSize(b) && Parse(b).Err? ==>
              Parse(b).error.Code() == -4
    ensures |b| >= 9 ==> TotalSize(b) == 11 + Size(DeclaredLen(b))
  {
    if |b| >= 9 { KnownTypes(b[0]); }
    hide IsValidType, Crc, GetU16, GetU32, Size, CrcMatches;
  }

  /** Do these bytes begin with the fields of p? */
  predicate ShowsFields(b: Bytes, p: Packet)
    requires |b| >= HEADER_SIZE
  {
    && b[0] == p.msgType && b[1] == p.hopCount && b[2] == p.maxHops
    && GetU32(b[3], b[4], b[5], b[6]) == p.senderId && DeclaredLen(b) == p.payloadLen
  }

  /** Type, hops and limit, then the sender and the length with the highest byte first. */
  lemma HeaderBytes(msgType: bv8, hopCount: bv8, maxHops: bv8)
    ensures Header(Packet(msgType, hopCount, maxHops, 0x01020304, 0x0506, [])) ==
            [msgType, hopCount, maxHops, 1, 2, 3, 4, 5, 6]
  {
    assert PutU32(0x01020304) == [1, 2, 3, 4] && PutU16(0x0506) == [5, 6];
  }

  /** There are three kinds of message. */
  lemma KnownTypes(t: bv8)
    ensures IsValidType(t) <==> t == 1 || t == 2 || t == 3
  {
  }

  lemma HeaderShows(p: Packet, rest: Bytes)
    ensures ShowsFields(Header(p) + rest, p)
  {
    U32RoundTrip(p.senderId, 0, 0, 0, 0);
    U16RoundTrip(p.payloadLen, 0, 0);
    PutSizes(p.senderId, p.payloadLen);
    hide Size, GetU32, GetU16, PutU32, PutU16;
    var b := Header(p) + rest;
    assert b[3..7] == PutU32(p.senderId) && b[7..9] == PutU16(p.payloadLen);
  }

  lemma PutSizes(v: bv32, w: bv16)
    ensures |PutU32(v)| == 4 && |PutU16(w)| == 2
  {
  }

  lemma Prefix<T>(b: seq<T>, m: nat)
    requires m <= |b|
    ensures forall i :: 0 <= i < m ==> b[..m][i] == b[i]
  {
  }

  lemma PrefixOfPrefix<T>(b: seq<T>, m: nat, n: nat)
    requires n <= m <= |b|
    ensures b[..m][..n] == b[..n]
  {
  }

  lemma SameTotal(b: Bytes, m: nat)
    requires HEADER_SIZE <= m <= |b|
    ensures DeclaredLen(b[..m]) == DeclaredLen(b) && TotalSize(b[..m]) == TotalSize(b)
  {
    hide Size, GetU16;
  }

  /** Whether the checksum matches does not depend on what follows the packet. */
  lemma CrcMatchesPrefix(b: Bytes, m: nat)
    requires HEADER_SIZE <= m <= |b| && TotalSize(b) <= m
    ensures TotalSize(b[..m]) == TotalSize(b) && CrcMatches(b[..m]) == CrcMatches(b)
  {
    hide Size, GetU16, Crc;
    SameTotal(b, m);
    var n := TotalSize(b) - CRC_SIZE;
    PrefixOfPrefix(b, m, n);
    assert b[..m][n] == b[n] && b[..m][n + 1] == b[n + 1];
    hide DeclaredLen;
  }

  lemma ParseIntro(b: Bytes, p: Packet)
    requires p.Valid() && |b| >= HEADER_SIZE + |p.payload| + CRC_SIZE && ShowsFields(b, p)
    requires var n := HEADER_SIZE + |p.payload|;
             b[HEADER_SIZE..n] == p.payload && Crc(b[..n]) == GetU16(b[n], b[n + 1])
    ensures Parse(b) == Ok(p)
  {
    hide Size, GetU16, GetU32, IsValidType, Crc;
    CrcMatchesPrefix(b, HEADER_SIZE + |p.payload| + CRC_SIZE);
  }

  lemma Parts<T>(h: seq<T>, p: seq<T>, c: seq<T>, rest: seq<T>)
    requires |c| == 2
    ensures var w, n := h + p + c + rest, |h| + |p|;
            && w == h + (p + c + rest) && w[..n] == h + p && w[|h|..n] == p && w[n] == c[0] && w[n + 1] == c[1]
  {
  }

  lemma WireParts(p: Packet)
    ensures Wire(p) == Header(p) + p.payload + PutU16(Crc(Header(p) + p.payload))
    ensures |PutU16(Crc(Header(p) + p.payload))| == 2
  {
    hide Crc;
  }

  /** Unpacking what was packed gives the packet back, whatever follows it in the buffer. */
  lemma ParseWire(p: Packet, rest: Bytes)
    requires p.Valid()
    ensures Parse(Wire(p) + rest) == Ok(p)
  {
    hide Size, Crc, Header, GetU16, GetU32, PutU16, IsValidType, ShowsFields, Parse, Wire;
    var crc := Crc(Header(p) + p.payload);
    WireParts(p);
    U16RoundTrip(crc, 0, 0);
    Parts(Header(p), p.payload, PutU16(crc), rest);
    HeaderShows(p, p.payload + PutU16(crc) + rest);
    ParseIntro(Wire(p) + rest, p);
  }

  lemma ParseShows(b: Bytes)
    requires Parse(b).Ok?
    ensures var p := Parse(b).value;
            && p.Valid() && |b| >= HEADER_SIZE + |p.payload| + CRC_SIZE == TotalSize(b) && ShowsFields(b, p)
            && (var n := HEADER_SIZE + |p.payload|;
                b[HEADER_SIZE..n] == p.payload && Crc(b[..n]) == GetU16(b[n], b[n + 1]))
  {
    hide Size, GetU16, GetU32, IsValidType, Crc;
    CrcMatchesPrefix(b, TotalSize(b));
  }

  lemma HeaderOf(b: Bytes, p: Packet)
    requires |b| >= HEADER_SIZE && ShowsFields(b, p)
    ensures Header(p) == b[..HEADER_SIZE]
  {
    U32RoundTrip(0, b[3], b[4], b[5], b[6]);
    U16RoundTrip(0, b[7], b[8]);
    hide Size, GetU16, GetU32, PutU16, PutU32;
  }

  lemma Reassemble<T>(b: seq<T>, h: nat, n: nat)
    requires h <= n && n + 2 <= |b|
    ensures b[..h] + b[h..n] == b[..n] && b[..n] + [b[n], b[n + 1]] == b[..n + 2]
  {
  }

  /** Packing an accepted packet gives the same bytes again. */
  lemma WireParse(bytes: Bytes)
    requires Parse(bytes).Ok?
    ensures var p := Parse(bytes).value; p.Valid() && Wire(p) == bytes[..TotalSize(bytes)]
  {
    hide Size, Crc, GetU16, PutU16, Parse, ShowsFields, TotalSize, IsValidType, Header, Wire, Packet.Valid;
    ParseShows(bytes);
    var p := Parse(bytes).value;
    var n := HEADER_SIZE + |p.payload|;
    var region := bytes[..n];
    PutGet(bytes[n], bytes[n + 1]);
    HeaderOf(bytes, p);
    Reassemble(bytes, HEADER_SIZE, n);
    WireParts(p);
    assert Header(p) + p.payload == region;
    assert PutU16(Crc(region)) == [bytes[n], bytes[n + 1]];
  }

  lemma PutGet(a: bv8, b: bv8)
    ensures PutU16(GetU16(a, b)) == [a, b]
  {
    U16RoundTrip(0, a, b);
  }

  // ----- what the checksum guards

  lemma Whole<T>(b: seq<T>)
    ensures b[..|b|] == b
  {
  }

  /** A complete packet is accepted exactly when its type is known and its bits, checksum
      included, leave nothing in the register. */
  lemma AcceptedIff(bytes: Bytes)
    requires |bytes| >= HEADER_SIZE && |bytes| == TotalSize(bytes)
    ensures Parse(bytes).Ok? <==> IsValidType(bytes[0]) && Checksum(bytes) == Zeros(16)
  {
    hide Crc, Size, GetU16, GetU32, Checksum, IsValidType, DeclaredLen;
    var n := TotalSize(bytes) - CRC_SIZE;
    ResidueIff(bytes[..n], bytes[n], bytes[n + 1]);
    Reassemble(bytes, HEADER_SIZE, n);
    Whole(bytes);
    assert Parse(bytes).Ok? <==> IsValidType(bytes[0]) && CrcMatches(bytes);
  }

  /** No corruption inside sixteen consecutive bits survives, checksum field included, as long
      as the announced length is left alone. */
  lemma BurstRejected(good: Bytes, bad: Bytes, before: Bits, x: Bits, y: Bits, after: Bits)
    requires |good| >= HEADER_SIZE && |good| == TotalSize(good) == |bad| && Parse(good).Ok?
    requires bad[7] == good[7] && bad[8] == good[8]
    requires BitsOf(good) == before + x + after && BitsOf(bad) == before + y + after
    requires |x| == |y| <= 16 && x != y
    ensures Parse(bad).Err?
  {
    AcceptedIff(good);
    AcceptedIff(bad);
    BurstDetected(AllOnes(), before, x, y, after);
    hide Parse, Feed;
  }

  lemma OnlyWindow<T>(a: seq<T>, b: seq<T>, i: nat)
    requires |a| == |b| && i + 2 <= |a| && forall j :: 0 <= j < |a| && j != i && j != i + 1 ==> b[j] == a[j]
    ensures a == a[..i] + a[i..i + 2] + a[i + 2..] && b == a[..i] + b[i..i + 2] + a[i + 2..]
  {
    assert b[..i] == a[..i] && b[i + 2..] == a[i + 2..];
  }

  /** In particular none that is confined to two adjacent bytes. */
  lemma TwoByteCorruptionRejected(good: Bytes, bad: Bytes, i: nat)
    requires |good| >= HEADER_SIZE && |good| == TotalSize(good) == |bad| && Parse(good).Ok?
    requires bad[7] == good[7] && bad[8] == good[8]
    requires i + 2 <= |good| && bad != good
    requires forall j :: 0 <= j < |good| && j != i && j != i + 1 ==> bad[j] == good[j]
    ensures Parse(bad).Err?
  {
    var p, s := good[..i], good[i + 2..];
    var x, y := good[i..i + 2], bad[i..i + 2];
    OnlyWindow(good, bad, i);
    hide BitsOf, Parse, TotalSize;
    BitsOfAppend(p + x, s);
    BitsOfAppend(p, x);
    BitsOfAppend(p + y, s);
    BitsOfAppend(p, y);
    if BitsOf(x) == BitsOf(y) {
      SameBytes(x, y);
    }
    BurstRejected(good, bad, BitsOf(p), BitsOf(x), BitsOf(y), BitsOf(s));
  }

  /** Nor does any odd number of flipped bits. */
  lemma OddCorruptionRejected(good: Bytes, bad: Bytes)
    requires |good| >= HEADER_SIZE && |good| == TotalSize(good) == |bad| && Parse(good).Ok?
    requires bad[7] == good[7] && bad[8] == good[8]
    requires Odd(Xor(BitsOf(good), BitsOf(bad)))
    ensures Parse(bad).Err?
  {
    AcceptedIff(good);
    AcceptedIff(bad);
    OddErrorsDetected(AllOnes(), BitsOf(good), BitsOf(bad));
    hide Parse, Feed;
  }
}
