/** Filling the bit buffer: mode, length and payload of a text, terminator and padding. */
module QrEncoder {
  import opened BitStrings
  import opened BitBuckets
  import opened QrText
  import opened Widths

  // ----- getModeBits

  /** The packed table holds nine counts less eight, three bits each. */
  const MODE_INFO: bv32 := 0x7bbb80a

  lemma ModeTable()
    ensures (MODE_INFO & 7) == 2 && ((MODE_INFO >> 3) & 7) == 1 && ((MODE_INFO >> 6) & 7) == 0
    ensures ((MODE_INFO >> 9) & 7) == 4 && ((MODE_INFO >> 12) & 7) == 3 && ((MODE_INFO >> 15) & 7) == 7
    ensures ((MODE_INFO >> 18) & 7) == 6 && ((MODE_INFO >> 21) & 7) == 5 && ((MODE_INFO >> 24) & 7) == 7
  {
  }

  method GetModeBits(version: nat, mode: Mode) returns (result: nat)
    ensures result == mode.CountBits(version)
  {
    var modeInfo := MODE_INFO;
    if version > 9 {
      modeInfo := modeInfo >> 9;
    }
    if version > 26 {
      modeInfo := modeInfo >> 9;
    }
    var field: bv32 := if mode.Numeric? then modeInfo else if mode.Alphanumeric? then modeInfo >> 3 else modeInfo >> 6;
    ModeTable();
    assert (modeInfo >> 3) & 7 == if version > 26 then (MODE_INFO >> 21) & 7 else if version > 9 then (MODE_INFO >> 12) & 7 else (MODE_INFO >> 3) & 7;
    result := 8 + (field & 7) as nat;
    if result == 15 {
      result := 16;
    }
  }

  // ----- the mode tests

  method IsNumeric(text: Text) returns (r: bool)
    ensures r == AllDigits(text)
  {
    var length := |text|;
    while length != 0
      invariant 0 <= length <= |text|
      invariant forall i :: length <= i < |text| ==> IsDigit(text[i])
    {
      length := length - 1;
      var c := text[length];
      if c < 48 || c > 57 {
        return false;
      }
    }
    r := true;
  }

  method IsAlphanumeric(text: Text) returns (r: bool)
    ensures r == AllAlphanumeric(text)
  {
    var length := |text|;
    while length != 0
      invariant 0 <= length <= |text|
      invariant forall i :: length <= i < |text| ==> AlphanumericValue(text[i]) >= 0
    {
      length := length - 1;
      if AlphanumericValue(text[length]) == -1 {
        return false;
      }
    }
    r := true;
  }

  // ----- encodeDataCodewords

  /** The buffer holds exactly these bits, and has room for `room` more. */
  ghost predicate Holds(b: BitBucket, bits: seq<bool>, room: nat)
    reads b, b.data
  {
    b.bitOffsetOrWidth + room <= 8 * b.data.Length && b.Written() == bits && b.Blank()
  }

  method AppendField(b: BitBucket, val: nat, length: nat, ghost bits: seq<bool>, ghost room: nat)
    requires Holds(b, bits, room) && length <= room
    modifies b`bitOffsetOrWidth, b.data
    ensures Holds(b, bits + ToBits(val, length), room - length)
    ensures b.bitOffsetOrWidth == old(b.bitOffsetOrWidth) + length
  {
    b.AppendBits(val, length);
  }

  /** One group of digits; only the last one may be shorter than three. */
  method AppendDigits(b: BitBucket, ghost text: Text, ghost m: nat, k: nat, value: nat, ghost bits: seq<bool>, ghost room: nat)
    requires AllDigits(text) && m % 3 == 0 && 0 < k <= 3 && m + k <= |text| && (k == 3 || m + k == |text|)
    requires value == DigitsValue(text[m..m + k]) && |NumericBits(text)| <= room
    requires |NumericBits(text[..m])| <= room && Holds(b, bits + NumericBits(text[..m]), room - |NumericBits(text[..m])|)
    modifies b`bitOffsetOrWidth, b.data
    ensures |NumericBits(text[..m + k])| <= room
    ensures Holds(b, bits + NumericBits(text[..m + k]), room - |NumericBits(text[..m + k])|)
  {
    hide Holds, ToBits, NumericBits, DigitsValue;
    NumericGroup(text, m, k);
    NumericPart(text, m + k);
    assert (bits + NumericBits(text[..m])) + ToBits(value, 3 * k + 1) == bits + NumericBits(text[..m + k]);
    AppendField(b, value, k * 3 + 1, bits + NumericBits(text[..m]), room - |NumericBits(text[..m])|);
  }

  lemma NoValue()
    ensures DigitsValue([]) == 0 && CharsValue([]) == 0
  {
  }

  lemma DigitsMore(text: Text, m: nat, i: nat)
    requires AllDigits(text) && m <= i < |text|
    ensures DigitsValue(text[m..i + 1]) == DigitsValue(text[m..i]) * 10 + (text[i] - 48)
  {
    assert text[m..i + 1][..i - m] == text[m..i];
  }

  lemma CharsMore(text: Text, m: nat, i: nat)
    requires AllAlphanumeric(text) && m <= i < |text|
    ensures CharsValue(text[m..i + 1]) == CharsValue(text[m..i]) * 45 + AlphanumericValue(text[i])
  {
    hide AlphanumericValue;
    assert text[m..i + 1][..i - m] == text[m..i];
  }

  lemma NumericPart(text: Text, m: nat)
    requires AllDigits(text) && m <= |text| && (m % 3 == 0 || m == |text|)
    ensures |NumericBits(text[..m])| <= |NumericBits(text)|
  {
    hide NumericBits;
    if m < |text| { NumericSplit(text, m); } else { assert text[..m] == text; }
  }

  /** One group of characters; only the last one may be a single one. */
  method AppendChars(b: BitBucket, ghost text: Text, ghost m: nat, k: nat, value: nat, ghost bits: seq<bool>, ghost room: nat)
    requires AllAlphanumeric(text) && m % 2 == 0 && 0 < k <= 2 && m + k <= |text| && (k == 2 || m + k == |text|)
    requires value == CharsValue(text[m..m + k]) && |AlphanumericBits(text)| <= room
    requires |AlphanumericBits(text[..m])| <= room && Holds(b, bits + AlphanumericBits(text[..m]), room - |AlphanumericBits(text[..m])|)
    modifies b`bitOffsetOrWidth, b.data
    ensures |AlphanumericBits(text[..m + k])| <= room
    ensures Holds(b, bits + AlphanumericBits(text[..m + k]), room - |AlphanumericBits(text[..m + k])|)
  {
    hide Holds, ToBits, AlphanumericBits, CharsValue, AlphanumericValue;
    AlphanumericGroup(text, m, k);
    AlphanumericPart(text, m + k);
    assert (bits + AlphanumericBits(text[..m])) + ToBits(value, PairWidth(k)) == bits + AlphanumericBits(text[..m + k]);
    AppendField(b, value, PairWidth(k), bits + AlphanumericBits(text[..m]), room - |AlphanumericBits(text[..m])|);
  }

  lemma AlphanumericPart(text: Text, m: nat)
    requires AllAlphanumeric(text) && m <= |text| && (m % 2 == 0 || m == |text|)
    ensures |AlphanumericBits(text[..m])| <= |AlphanumericBits(text)|
  {
    hide AlphanumericBits, AlphanumericValue;
    if m < |text| { AlphanumericSplit(text, m); } else { assert text[..m] == text; }
  }

  method AppendNumeric(b: BitBucket, text: Text, ghost bits: seq<bool>, ghost room: nat)
    requires AllDigits(text) && Holds(b, bits, room) && |NumericBits(text)| <= room
    modifies b`bitOffsetOrWidth, b.data
    ensures Holds(b, bits + NumericBits(text), room - |NumericBits(text)|)
  {
    hide Holds, ToBits, NumericBits, DigitsValue;
    NoValue();
    NumericNone();
    assert bits + NumericBits([]) == bits;
    var accumData: nat, accumCount: nat := 0, 0;
    for i := 0 to |text|
      invariant 0 <= accumCount < 3 && accumCount <= i && (i - accumCount) % 3 == 0
      invariant accumData == DigitsValue(text[i - accumCount..i])
      invariant |NumericBits(text[..i - accumCount])| <= room
      invariant Holds(b, bits + NumericBits(text[..i - accumCount]), room - |NumericBits(text[..i - accumCount])|)
    {
      ghost var m := i - accumCount;
      DigitsMore(text, m, i);
      accumData := accumData * 10 + (text[i] - 48);
      accumCount := accumCount + 1;
      if accumCount == 3 {
        AppendDigits(b, text, m, 3, accumData, bits, room);
        assert text[i + 1..i + 1] == [];
        accumData := 0;
        accumCount := 0;
      }
    }
    ghost var m := |text| - accumCount;
    if accumCount > 0 {
      AppendDigits(b, text, m, accumCount, accumData, bits, room);
      assert text[..m + accumCount] == text;
    } else {
      assert text[..m] == text;
    }
  }

  lemma NumericNone()
    ensures NumericBits([]) == []
  {
  }

  lemma AlphanumericNone()
    ensures AlphanumericBits([]) == []
  {
  }

  lemma ByteNone()
    ensures ByteBits([]) == []
  {
  }

  method AppendAlphanumeric(b: BitBucket, text: Text, ghost bits: seq<bool>, ghost room: nat)
    requires AllAlphanumeric(text) && Holds(b, bits, room) && |AlphanumericBits(text)| <= room
    modifies b`bitOffsetOrWidth, b.data
    ensures Holds(b, bits + AlphanumericBits(text), room - |AlphanumericBits(text)|)
  {
    hide Holds, ToBits, AlphanumericBits, AlphanumericValue, CharsValue;
    NoValue();
    AlphanumericNone();
    assert bits + AlphanumericBits([]) == bits;
    var accumData, accumCount := 0, 0;
    for i := 0 to |text|
      invariant 0 <= accumCount < 2 && accumCount <= i && (i - accumCount) % 2 == 0
      invariant accumData == CharsValue(text[i - accumCount..i])
      invariant |AlphanumericBits(text[..i - accumCount])| <= room
      invariant Holds(b, bits + AlphanumericBits(text[..i - accumCount]), room - |AlphanumericBits(text[..i - accumCount])|)
    {
      ghost var m := i - accumCount;
      CharsMore(text, m, i);
      accumData := accumData * 45 + AlphanumericValue(text[i]);
      accumCount := accumCount + 1;
      if accumCount == 2 {
        AppendChars(b, text, m, 2, accumData, bits, room);
        assert text[i + 1..i + 1] == [];
        accumData := 0;
        accumCount := 0;
      }
    }
    ghost var m := |text| - accumCount;
    if accumCount > 0 {
      AppendChars(b, text, m, 1, accumData, bits, room);
      assert text[..m + 1] == text;
    } else {
      assert text[..m] == text;
    }
  }

  method AppendBytes(b: BitBucket, text: Text, ghost bits: seq<bool>, ghost room: nat)
    requires Holds(b, bits, room) && |ByteBits(text)| <= room
    modifies b`bitOffsetOrWidth, b.data
    ensures Holds(b, bits + ByteBits(text), room - |ByteBits(text)|)
  {
    ByteSize(text);
    hide Holds, ToBits, ByteBits;
    ByteNone();
    assert bits + ByteBits([]) == bits;
    for i := 0 to |text|
      invariant |ByteBits(text[..i])| == 8 * i
      invariant Holds(b, bits + ByteBits(text[..i]), room - 8 * i)
    {
      BytesSnoc(text, i);
      assert (bits + ByteBits(text[..i])) + ToBits(text[i], 8) == bits + ByteBits(text[..i + 1]);
      AppendField(b, text[i], 8, bits + ByteBits(text[..i]), room - 8 * i);
    }
    assert text[..|text|] == text;
  }

  method AppendHeader(b: BitBucket, mode: Mode, length: nat, version: nat, ghost room: nat)
    requires Holds(b, [], room) && |HeaderBits(mode, length, version)| <= room
    modifies b`bitOffsetOrWidth, b.data
    ensures Holds(b, HeaderBits(mode, length, version), room - |HeaderBits(mode, length, version)|)
  {
    hide Holds, ToBits, Pow2;
    AppendField(b, mode.Indicator(), 4, [], room);
    assert [] + ToBits(mode.Indicator(), 4) == ToBits(mode.Indicator(), 4);
    var bits := GetModeBits(version, mode);
    AppendField(b, length, bits, ToBits(mode.Indicator(), 4), room - 4);
  }

  /** The empty buffer receives the bits of the text. */
  method EncodeDataCodewords(b: BitBucket, text: Text, version: nat, ghost room: nat) returns (mode: Mode)
    requires Holds(b, [], room) && |TextBits(text, version)| <= room
    modifies b`bitOffsetOrWidth, b.data
    ensures mode == ModeOf(text)
    ensures Holds(b, TextBits(text, version), room - |TextBits(text, version)|)
  {
    hide Holds, ToBits, NumericBits, AlphanumericBits, ByteBits, AlphanumericValue;
    var numeric := IsNumeric(text);
    var alphanumeric := IsAlphanumeric(text);
    mode := if numeric then Numeric else if alphanumeric then Alphanumeric else Bytes;
    ghost var header := HeaderBits(mode, |text|, version);
    AppendHeader(b, mode, |text|, version, room);
    if numeric {
      AppendNumeric(b, text, header, room - |header|);
    } else if alphanumeric {
      AppendAlphanumeric(b, text, header, room - |header|);
    } else {
      AppendBytes(b, text, header, room - |header|);
    }
  }

  // ----- terminator and padding (in qrcode_initBytes)

  function PadByte(j: nat): nat { if j % 2 == 0 then 0xEC else 0x11 }

  function PadBytes(n: nat): (bits: seq<bool>)
    ensures |bits| == 8 * n
  {
    if n == 0 then [] else PadBytes(n - 1) + ToBits(PadByte(n - 1), 8)
  }

  /** The room that is left, up to four; where none is left the 32-bit difference wraps around and is cut to four. */
  function Terminator(written: nat, dataCapacity: nat): (n: nat)
    ensures n <= 4 && (written <= 8 * dataCapacity ==> written + n <= 8 * dataCapacity)
  {
    if written <= 8 * dataCapacity then Min(4, 8 * dataCapacity - written) else 4
  }

  /** The number of bytes still missing. */
  function Missing(written: nat, dataCapacity: nat): nat {
    if written < 8 * dataCapacity then dataCapacity - written / 8 else 0
  }

  function ToByteBoundary(written: nat): (n: nat)
    ensures (written + n) % 8 == 0 && n < 8
  {
    (8 - written % 8) % 8
  }

  /** Up to four zeros, zeros to the next byte boundary, then 0xEC and 0x11 in turn. */
  function Padding(written: nat, dataCapacity: nat): (bits: seq<bool>)
    ensures written <= 8 * dataCapacity ==> written + |bits| == 8 * dataCapacity
    ensures written > 8 * dataCapacity ==> 4 <= |bits| < 12
  {
    var t := Terminator(written, dataCapacity);
    var z := ToByteBoundary(written + t);
    ToBits(0, t) + ToBits(0, z) + PadBytes(Missing(written + t + z, dataCapacity))
  }

  /** padByte ^= 0xEC ^ 0x11 */
  function OtherPad(p: bv8): bv8 { p ^ (0xEC ^ 0x11) }

  lemma PadValue(p: bv8, j: nat)
    requires p == if j % 2 == 0 then 0xEC else 0x11
    ensures p as nat == PadByte(j)
    ensures OtherPad(p) == if (j + 1) % 2 == 0 then 0xEC else 0x11
  {
  }

  method PadAlternately(b: BitBucket, limit: nat, ghost bits: seq<bool>, ghost room: nat, ghost n: nat)
    requires Holds(b, bits, room) && b.bitOffsetOrWidth == |bits| && 8 * n <= room
    requires limit <= |bits| + 8 * n && (n > 0 ==> limit == |bits| + 8 * n)
    modifies b`bitOffsetOrWidth, b.data
    ensures Holds(b, bits + PadBytes(n), room - 8 * n) && b.bitOffsetOrWidth == |bits| + 8 * n
  {
    hide Holds, ToBits, OtherPad, PadByte;
    var padByte: bv8 := 0xEC;
    ghost var j := 0;
    assert bits + PadBytes(0) == bits;
    while b.bitOffsetOrWidth < limit
      invariant b.bitOffsetOrWidth == |bits| + 8 * j && j <= n
      invariant padByte == if j % 2 == 0 then 0xEC else 0x11
      invariant Holds(b, bits + PadBytes(j), room - 8 * j)
      decreases n - j
    {
      PadValue(padByte, j);
      assert (bits + PadBytes(j)) + ToBits(PadByte(j), 8) == bits + PadBytes(j + 1);
      AppendField(b, padByte as nat, 8, bits + PadBytes(j), room - 8 * j);
      padByte := OtherPad(padByte);
      j := j + 1;
    }
  }

  /** Terminator and padding end at exactly the data capacity if and only if the text fits. */
  method PadCodewords(b: BitBucket, dataCapacity: nat, ghost bits: seq<bool>, ghost room: nat)
    requires Holds(b, bits, room) && |Padding(|bits|, dataCapacity)| <= room
    requires |bits| < TWO32 - 4 && 8 * dataCapacity < TWO32
    modifies b`bitOffsetOrWidth, b.data
    ensures Holds(b, bits + Padding(|bits|, dataCapacity), room - |Padding(|bits|, dataCapacity)|)
    ensures b.bitOffsetOrWidth == |bits| + |Padding(|bits|, dataCapacity)|
    ensures b.bitOffsetOrWidth == 8 * dataCapacity <==> |bits| <= 8 * dataCapacity
  {
    hide Holds, ToBits, PadBytes, Terminator, ToByteBoundary, Missing;
    HoldsSize(b, bits, room);
    var padding := (dataCapacity * 8 - b.bitOffsetOrWidth) % TWO32;
    if padding > 4 {
      padding := 4;
    }
    TerminatorIs(|bits|, dataCapacity, padding);
    ghost var z := ToByteBoundary(|bits| + padding);
    ghost var n := Missing(|bits| + padding + z, dataCapacity);
    PaddingParts(bits, dataCapacity, padding, z, n);
    hide Padding;
    AppendField(b, 0, padding, bits, room);
    var fill := (8 - b.bitOffsetOrWidth % 8) % 8;
    BoundaryIs(b.bitOffsetOrWidth, fill);
    AppendField(b, 0, fill, bits + ToBits(0, padding), room - padding);
    PadAlternately(b, dataCapacity * 8, bits + ToBits(0, padding) + ToBits(0, fill), room - padding - fill, n);
  }

  lemma HoldsSize(b: BitBucket, bits: seq<bool>, room: nat)
    requires Holds(b, bits, room)
    ensures b.bitOffsetOrWidth == |bits|
  {
  }

  lemma TerminatorIs(written: nat, dataCapacity: nat, padding: nat)
    requires written < TWO32 - 4 && dataCapacity * 8 < TWO32
    requires var left := (dataCapacity * 8 - written) % TWO32; padding == if left > 4 then 4 else left
    ensures padding == Terminator(written, dataCapacity)
  {
  }

  lemma BoundaryIs(written: nat, fill: nat)
    requires fill == (8 - written % 8) % 8
    ensures fill == ToByteBoundary(written)
  {
  }

  lemma PaddingParts(bits: seq<bool>, dataCapacity: nat, t: nat, z: nat, n: nat)
    requires t == Terminator(|bits|, dataCapacity) && z == ToByteBoundary(|bits| + t)
    requires n == Missing(|bits| + t + z, dataCapacity)
    ensures bits + ToBits(0, t) + ToBits(0, z) + PadBytes(n) == bits + Padding(|bits|, dataCapacity)
    ensures |Padding(|bits|, dataCapacity)| == t + z + 8 * n
    ensures |bits| + t + z + 8 * n >= 8 * dataCapacity
    ensures n > 0 ==> |bits| + t + z + 8 * n == 8 * dataCapacity
  {
    hide ToBits, PadBytes;
  }
}
