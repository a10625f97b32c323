/** Text frames of the WebSocket connection (sections 5.2 and 5.3 of RFC 6455). */
module WsFrame {
  import opened Options
  import opened Widths

  type Bytes = seq<bv8>

  function Num(b: bv8): nat { b as int }

  function Place(c: bool, v: bv8): bv8 { if c then v else 0 }

  function Half(n: nat): nat { n / 2 }

  function Odd(n: nat): bool { n % 2 == 1 }

  function Sixteenth(n: nat): nat { Half(Half(Half(Half(n)))) }

  /** A small number as a byte, bit by bit. */
  function ToByte(m: nat): bv8
    requires m < 256
  {
    var d := Sixteenth(m);
    Gather(Odd(Half(Half(Half(d)))), Odd(Half(Half(d))), Odd(Half(d)), Odd(d),
           Odd(Half(Half(Half(m)))), Odd(Half(Half(m))), Odd(Half(m)), Odd(m))
  }

  function Gather(a: bool, b: bool, c: bool, d: bool, e: bool, f: bool, g: bool, h: bool): bv8 {
    Place(a, 128) | Place(b, 64) | Place(c, 32) | Place(d, 16) | Place(e, 8) | Place(f, 4) | Place(g, 2) | Place(h, 1)
  }

  /** The low eight bits. */
  function ByteOf(n: nat): bv8 { ToByte(n % 256) }

  /** The low seven bits, and the flag above them. */
  function Low(b: bv8): bv8 { b & 0x7F }

  predicate Flag(b: bv8) { b & 0x80 != 0 }

  function Flagged(b: bv8): bv8 { 0x80 | b }

  function Xor(a: bv8, b: bv8): bv8 { a ^ b }

  function One(c: bool): nat { if c then 1 else 0 }

  function FourValue(a: bool, b: bool, c: bool, d: bool): nat { 8 * One(a) + 4 * One(b) + 2 * One(c) + One(d) }

  lemma NumGather(a: bool, b: bool, c: bool, d: bool, e: bool, f: bool, g: bool, h: bool)
    ensures Num(Gather(a, b, c, d, e, f, g, h)) == 16 * FourValue(a, b, c, d) + FourValue(e, f, g, h)
  {
  }

  lemma OddRest(n: nat)
    ensures n == 2 * Half(n) + One(Odd(n))
  {
  }

  /** The value of the last four bits. */
  function Nibble(n: nat): nat { FourValue(Odd(Half(Half(Half(n)))), Odd(Half(Half(n))), Odd(Half(n)), Odd(n)) }

  lemma FourBits(n: nat)
    ensures n == 16 * Sixteenth(n) + Nibble(n)
  {
    hide Odd, One, Half;
    OddRest(n);
    OddRest(Half(n));
    OddRest(Half(Half(n)));
    OddRest(Half(Half(Half(n))));
  }

  lemma NumNibbles(m: nat)
    requires m < 256
    ensures Num(ToByte(m)) == 16 * Nibble(Sixteenth(m)) + Nibble(m)
  {
    hide Num, Gather, Odd, Half, FourValue;
    var d := Sixteenth(m);
    NumGather(Odd(Half(Half(Half(d)))), Odd(Half(Half(d))), Odd(Half(d)), Odd(d),
              Odd(Half(Half(Half(m)))), Odd(Half(Half(m))), Odd(Half(m)), Odd(m));
  }

  lemma NumToByte(m: nat)
    requires m < 256
    ensures Num(ToByte(m)) == m
  {
    hide Num, ToByte, Nibble, Sixteenth;
    NumNibbles(m);
    FourBits(m);
    FourBits(Sixteenth(m));
  }

  lemma NumByteOf(n: nat)
    ensures Num(ByteOf(n)) == n % 256
  {
    hide Num, ToByte;
    NumToByte(n % 256);
  }

  lemma FlaggedFacts(b: bv8)
    requires b < 128
    ensures Flag(Flagged(b)) && Low(Flagged(b)) == b
  {
  }

  lemma NumBelow(b: bv8)
    ensures Num(b) < 128 ==> b < 128
  {
  }

  lemma ByteSmall(n: nat)
    requires n < 128
    ensures ByteOf(n) < 128
  {
    hide Num, ByteOf;
    NumByteOf(n);
    NumBelow(ByteOf(n));
  }

  lemma XorTwice(a: bv8, b: bv8)
    ensures Xor(Xor(a, b), b) == a
  {
  }

  // ----- numbers in network order

  function Pow256(k: nat): nat { if k == 0 then 1 else 256 * Pow256(k - 1) }

  /** n in k bytes, the most significant first. */
  function Big(n: nat, k: nat): (s: Bytes)
    ensures |s| == k
  {
    if k == 0 then [] else Big(n / 256, k - 1) + [ByteOf(n)]
  }

  function Value(s: Bytes): nat {
    if s == [] then 0 else Value(s[..|s| - 1]) * 256 + Num(s[|s| - 1])
  }

  /** n >> 8 * k */
  function Shifted(n: nat, k: nat): nat { if k == 0 then n else Shifted(n / 256, k - 1) }

  lemma {:induction false} ValueBig(n: nat, k: nat)
    requires n < Pow256(k)
    ensures Value(Big(n, k)) == n
  {
    hide ByteOf, Num;
    if k > 0 {
      ValueBig(n / 256, k - 1);
      NumByteOf(n);
      assert Big(n, k)[..k - 1] == Big(n / 256, k - 1);
    }
  }

  lemma {:induction false} BigAt(n: nat, k: nat, i: nat)
    requires i < k
    ensures Big(n, k)[i] == ByteOf(Shifted(n, k - 1 - i))
  {
    hide ByteOf;
    if i < k - 1 { BigAt(n / 256, k - 1, i); }
  }

  // ----- frames

  type Mask = m: Bytes | |m| == 4 witness [0, 0, 0, 0]

  function Masked(mask: Mask, s: Bytes): (r: Bytes)
    ensures |r| == |s|
  {
    seq(|s|, i requires 0 <= i < |s| => Xor(s[i], mask[i % 4]))
  }

  function LengthField(n: nat): Bytes {
    if n <= 125 then [Flagged(ByteOf(n))]
    else if n <= 65535 then [Flagged(126)] + Big(n, 2)
    else [Flagged(127)] + Big(n, 8)
  }

  /** A final text frame, masked as a client's must be. */
  function Frame(mask: Mask, msg: Bytes): Bytes { [0x81] + LengthField(|msg|) + mask + Masked(mask, msg) }

  /** How many bytes of the length field follow the second byte. */
  function Extension(buf: Bytes): nat
    requires |buf| >= 2
  {
    if Low(buf[1]) == 126 then 2 else if Low(buf[1]) == 127 then 8 else 0
  }

  function Declared(buf: Bytes): nat
    requires |buf| >= 2 && 2 + Extension(buf) <= |buf|
  {
    if Extension(buf) == 0 then Num(Low(buf[1])) else Value(buf[2..2 + Extension(buf)])
  }

  function Start(buf: Bytes): nat
    requires |buf| >= 2
  {
    2 + Extension(buf) + if Flag(buf[1]) then 4 else 0
  }

  /** The length field has arrived. */
  predicate HasLength(buf: Bytes) { |buf| >= 2 && 2 + Extension(buf) <= |buf| }

  predicate Complete(buf: Bytes) { HasLength(buf) && Start(buf) + Declared(buf) <= |buf| }

  /** The text of a frame that has arrived completely. */
  function Parse(buf: Bytes): Option<Bytes> {
    if !Complete(buf) then None
    else
      var p := Start(buf);
      var body := buf[p..p + Declared(buf)];
      Some(if Flag(buf[1]) then Masked(buf[p - 4..p], body) else body)
  }

  // ----- the test for completeness, in 64 bits

  /** The test that parse_ws_text_frame makes: the sum is taken modulo 2^64. */
  predicate TestPasses(buf: Bytes) { HasLength(buf) && (Start(buf) + Declared(buf)) % TWO64 <= |buf| }

  /** The announced length is so close to 2^64 that the sum wraps around to a place inside the buffer. */
  predicate Wraps(buf: Bytes) { HasLength(buf) && 0 <= Start(buf) + Declared(buf) - TWO64 <= |buf| }

  lemma {:induction false} ValueRange(s: Bytes)
    ensures Value(s) < Pow256(|s|)
  {
    hide Num;
    if s != [] {
      ValueRange(s[..|s| - 1]);
      NumRange(s[|s| - 1]);
    }
  }

  lemma NumRange(b: bv8)
    ensures Num(b) < 256
  {
  }

  lemma DeclaredRange(buf: Bytes)
    requires HasLength(buf)
    ensures Declared(buf) < TWO64
  {
    hide Num, Low, Value, Flag;
    Powers();
    NumRange(Low(buf[1]));
    ValueRange(buf[2..2 + Extension(buf)]);
  }

  /** For buffers whose length is an int: the test passes for complete frames, for those whose sum wraps, and for
      no others. */
  lemma TestIff(buf: Bytes)
    requires |buf| < 0x8000_0000
    ensures TestPasses(buf) <==> Complete(buf) || Wraps(buf)
    ensures !(Complete(buf) && Wraps(buf))
  {
    if HasLength(buf) {
      DeclaredRange(buf);
      hide Declared, Flag, Low;
      WrapOnce(Start(buf) + Declared(buf));
    }
  }

  lemma WrapOnce(n: nat)
    requires n < 2 * TWO64
    ensures n % TWO64 == if n < TWO64 then n else n - TWO64
  {
  }

  lemma {:induction false} ValueOfOnes(k: nat)
    ensures Value(Ones(k)) == Pow256(k) - 1
  {
    hide Num;
    NumOfOnes();
    if k > 0 {
      ValueOfOnes(k - 1);
      assert Ones(k)[..k - 1] == Ones(k - 1);
    }
  }

  function Ones(k: nat): (s: Bytes)
    ensures |s| == k && forall i :: 0 <= i < k ==> s[i] == 0xFF
  {
    seq(k, _ => 0xFF)
  }

  lemma NumOfOnes()
    ensures Num(0xFF) == 255
  {
  }

  /** Ten bytes that announce 2^64 - 1 more pass the test. */
  lemma TenBytesPass()
    ensures var buf := [0x81, 0x7F] + Ones(8); TestPasses(buf) && !Complete(buf)
  {
    var buf: Bytes := [0x81, 0x7F] + Ones(8);
    MarkLow();
    assert buf[1] == 0x7F;
    hide Low, Flag, Num, Value;
    ValueOfOnes(8);
    Powers();
    assert buf[2..10] == Ones(8);
    assert Start(buf) + Declared(buf) == TWO64 + 9;
  }

  lemma MarkLow()
    ensures Low(0x7F) == 127 && !Flag(0x7F)
  {
  }

  lemma MaskedTwice(mask: Mask, s: Bytes)
    ensures Masked(mask, Masked(mask, s)) == s
  {
    hide Xor;
    forall i | 0 <= i < |s| ensures Masked(mask, Masked(mask, s))[i] == s[i] {
      XorTwice(s[i], mask[i % 4]);
    }
  }

  /** The length field is read back, whatever follows it. */
  lemma LengthBack(n: nat, head: bv8, tail: Bytes)
    requires n < TWO64
    ensures var buf := [head] + LengthField(n) + tail;
            && |buf| >= 2 && Flag(buf[1]) && 1 + |LengthField(n)| == 2 + Extension(buf) <= |buf|
            && Declared(buf) == n
  {
    hide Flag, Low, Flagged, ByteOf, Num, Value, Big;
    var buf := [head] + LengthField(n) + tail;
    if n <= 125 {
      ByteSmall(n);
      FlaggedFacts(ByteOf(n));
      NumByteOf(n);
      SmallNotExtended(n);
      assert buf[1] == Flagged(ByteOf(n));
    } else if n <= 65535 {
      FlaggedFacts(126);
      Powers();
      ValueBig(n, 2);
      assert buf[1] == Flagged(126);
      assert buf[2..4] == Big(n, 2);
    } else {
      FlaggedFacts(127);
      Powers();
      ValueBig(n, 8);
      assert buf[1] == Flagged(127);
      assert buf[2..10] == Big(n, 8);
    }
  }

  lemma SmallNotExtended(n: nat)
    requires n <= 125
    ensures ByteOf(n) != 126 && ByteOf(n) != 127
  {
    hide ByteOf;
    NumByteOf(n);
    NumOfMarks();
  }

  lemma NumOfMarks()
    ensures Num(126) == 126 && Num(127) == 127
  {
  }

  lemma Powers()
    ensures Pow256(0) == 1 && Pow256(2) == 65536 && TWO64 == Pow256(8)
  {
    assert Pow256(4) == 0x1_0000_0000;
  }

  /** Parsing what was framed gives the message back, with any mask and whatever arrives behind it. */
  lemma ParseFrame(mask: Mask, msg: Bytes, more: Bytes)
    requires |msg| < TWO64
    ensures Parse(Frame(mask, msg) + more) == Some(msg)
  {
    hide LengthField, Masked, Flag, Declared, Extension;
    var n := |msg|;
    var tail := mask + Masked(mask, msg) + more;
    var buf := [0x81 as bv8] + LengthField(n) + tail;
    assert Frame(mask, msg) + more == buf;
    LengthBack(n, 0x81, tail);
    var p := Start(buf);
    assert p == 1 + |LengthField(n)| + 4;
    assert buf[p - 4..p] == mask;
    assert buf[p..p + n] == Masked(mask, msg);
    MaskedTwice(mask, msg);
  }

  /** A frame that has not arrived to its last byte is not parsed. */
  lemma ParsePart(mask: Mask, msg: Bytes, n: nat)
    requires |msg| < TWO64 && n < |Frame(mask, msg)|
    ensures Parse(Frame(mask, msg)[..n]) == None
  {
    hide LengthField, Masked, Flag, Value, Num, Low;
    var whole := Frame(mask, msg);
    var part := whole[..n];
    var tail := mask + Masked(mask, msg);
    assert whole == [0x81 as bv8] + LengthField(|msg|) + tail;
    LengthBack(|msg|, 0x81, tail);
    if |part| >= 2 && 2 + Extension(part) <= |part| {
      assert part[1] == whole[1];
      assert Extension(part) == Extension(whole);
      SliceOfPrefix(whole, n, 2, 2 + Extension(part));
    }
  }

  lemma SliceOfPrefix<T>(s: seq<T>, n: nat, i: nat, j: nat)
    requires i <= j <= n <= |s|
    ensures s[..n][i..j] == s[i..j]
  {
  }

  // ----- the bytes of a frame

  lemma NumFlagged(b: bv8)
    requires b < 128
    ensures Num(Flagged(b)) == 128 + Num(b)
  {
  }

  /** Final and text in the first byte; the mask flag and the length in the second, or 126 or 127 there and the length in
      the next two or eight bytes, the highest first. */
  lemma LengthBytes(n: nat)
    requires n < TWO64
    ensures var f := LengthField(n);
            && (n < 126 ==> |f| == 1 && Num(f[0]) == 128 + n)
            && (126 <= n < 65536 ==> |f| == 3 && Num(f[0]) == 254 && 256 * Num(f[1]) + Num(f[2]) == n)
            && (65536 <= n ==> |f| == 9 && Num(f[0]) == 255 && Value(f[1..]) == n)
  {
    hide Num, Flagged, ByteOf, Value, Big;
    Codes();
    Powers();
    if n < 126 {
      NumByteOf(n);
      ByteSmall(n);
      NumFlagged(ByteOf(n));
    } else if n < 65536 {
      ValueBig(n, 2);
      ValueOfTwo(Big(n, 2));
    } else {
      ValueBig(n, 8);
    }
  }

  lemma ValueOfTwo(s: Bytes)
    requires |s| == 2
    ensures Value(s) == 256 * Num(s[0]) + Num(s[1])
  {
    hide Num;
    assert s[..1][..0] == [];
    assert Value(s[..1]) == Value([]) * 256 + Num(s[0]);
  }

  lemma Codes()
    ensures Num(Flagged(126)) == 254 && Num(Flagged(127)) == 255
  {
  }

  /** The whole frame: 0x81, the length, the mask, and each byte of the text with the mask's bytes in turn. */
  lemma FrameBytes(mask: Mask, msg: Bytes, i: nat)
    requires i < |msg|
    ensures var f, l := Frame(mask, msg), LengthField(|msg|);
            && |f| == 1 + |l| + 4 + |msg| && f[0] == 0x81 && f[1..1 + |l|] == l && f[1 + |l|..5 + |l|] == mask
            && f[5 + |l| + i] == msg[i] ^ mask[i % 4]
  {
    hide LengthField;
  }

  // ----- frames without a mask

  function PlainLength(n: nat): Bytes {
    if n <= 125 then [ByteOf(n)]
    else if n <= 65535 then [126] + Big(n, 2)
    else [127] + Big(n, 8)
  }

  lemma UnflaggedFacts(b: bv8)
    requires b < 128
    ensures !Flag(b) && Low(b) == b
  {
  }

  lemma PlainBack(n: nat, head: bv8, tail: Bytes)
    requires n < TWO64
    ensures var buf := [head] + PlainLength(n) + tail;
            && |buf| >= 2 && !Flag(buf[1]) && 1 + |PlainLength(n)| == 2 + Extension(buf) <= |buf|
            && Declared(buf) == n
  {
    hide Flag, Low, ByteOf, Num, Value, Big;
    var buf := [head] + PlainLength(n) + tail;
    Powers();
    if n <= 125 {
      ByteSmall(n);
      UnflaggedFacts(ByteOf(n));
      NumByteOf(n);
      SmallNotExtended(n);
      assert buf[1] == ByteOf(n);
    } else if n <= 65535 {
      UnflaggedFacts(126);
      ValueBig(n, 2);
      assert buf[1] == 126 && buf[2..4] == Big(n, 2);
    } else {
      UnflaggedFacts(127);
      ValueBig(n, 8);
      assert buf[1] == 127 && buf[2..10] == Big(n, 8);
    }
  }

  /** A frame without a mask is read as it stands. */
  lemma ParsePlain(head: bv8, msg: Bytes, more: Bytes)
    requires |msg| < TWO64
    ensures Parse([head] + PlainLength(|msg|) + msg + more) == Some(msg)
  {
    hide PlainLength, Flag, Declared, Extension;
    var n := |msg|;
    var buf := [head] + PlainLength(n) + (msg + more);
    assert [head] + PlainLength(n) + msg + more == buf;
    PlainBack(n, head, msg + more);
    var p := Start(buf);
    assert p == 1 + |PlainLength(n)|;
    assert buf[p..p + n] == msg;
  }
}
