/** Packing a text into bits (clause 7.4 of ISO/IEC 18004:2015) and reading it back. */
module QrText {
  import opened Options
  import opened Octets
  import opened Arith
  import opened BitStrings

  type Text = seq<Byte>

  datatype Mode = Numeric | Alphanumeric | Bytes {
    function Number(): nat {
      match this
      case Numeric => 0
      case Alphanumeric => 1
      case Bytes => 2
    }

    /** The mode indicator, 1 << mode. */
    function Indicator(): nat { Pow2(Number()) }

    /** The width of the character count. */
    function CountBits(version: nat): nat {
      match this
      case Numeric => if version > 26 then 14 else if version > 9 then 12 else 10
      case Alphanumeric => if version > 26 then 13 else if version > 9 then 11 else 9
      case Bytes => if version > 9 then 16 else 8
    }
  }

  predicate IsDigit(c: Byte) { 48 <= c <= 57 }

  /** getAlphanumeric: the value of a character in the 45-character set, -1 for all others. */
  function AlphanumericValue(c: Byte): (v: int)
    ensures -1 <= v < 45
  {
    if 48 <= c <= 57 then c - 48
    else if 65 <= c <= 90 then c - 65 + 10
    else if c == 32 then 36
    else if c == 36 then 37
    else if c == 37 then 38
    else if c == 42 then 39
    else if c == 43 then 40
    else if c == 45 then 41
    else if c == 46 then 42
    else if c == 47 then 43
    else if c == 58 then 44
    else -1
  }

  /** The character with this value. */
  function AlphanumericChar(v: nat): Byte
    requires v < 45
  {
    if v < 10 then v + 48
    else if v < 36 then v - 10 + 65
    else if v == 36 then 32
    else if v == 37 then 36
    else if v == 38 then 37
    else if v == 39 then 42
    else if v == 40 then 43
    else if v == 41 then 45
    else if v == 42 then 46
    else if v == 43 then 47
    else 58
  }

  lemma AlphanumericInverse(c: Byte)
    requires AlphanumericValue(c) >= 0
    ensures AlphanumericChar(AlphanumericValue(c)) == c
  {
  }

  predicate AllDigits(t: Text) { forall i :: 0 <= i < |t| ==> IsDigit(t[i]) }

  predicate AllAlphanumeric(t: Text) { forall i :: 0 <= i < |t| ==> AlphanumericValue(t[i]) >= 0 }

  function ModeOf(t: Text): Mode {
    if AllDigits(t) then Numeric else if AllAlphanumeric(t) then Alphanumeric else Bytes
  }

  // ----- the bits of a text

  function Min(a: nat, b: nat): nat { if a <= b then a else b }

  /** The number that a group of digits spells. */
  function DigitsValue(t: Text): nat
    requires AllDigits(t)
  {
    if t == [] then 0 else DigitsValue(t[..|t| - 1]) * 10 + (t[|t| - 1] - 48)
  }

  /** The number that a group of characters spells in base 45. */
  function CharsValue(t: Text): nat
    requires AllAlphanumeric(t)
  {
    if t == [] then 0 else CharsValue(t[..|t| - 1]) * 45 + AlphanumericValue(t[|t| - 1])
  }

  /** Three digits in ten bits; two or one left over in seven or four. */
  function NumericBits(t: Text): seq<bool>
    requires AllDigits(t)
  {
    if t == [] then []
    else
      var k := Min(|t|, 3);
      ToBits(DigitsValue(t[..k]), 3 * k + 1) + NumericBits(t[k..])
  }

  function PairWidth(k: nat): nat { if k == 2 then 11 else 6 }

  /** Two characters in eleven bits; one left over in six. */
  function AlphanumericBits(t: Text): seq<bool>
    requires AllAlphanumeric(t)
  {
    if t == [] then []
    else
      var k := Min(|t|, 2);
      ToBits(CharsValue(t[..k]), PairWidth(k)) + AlphanumericBits(t[k..])
  }

  function ByteBits(t: Text): seq<bool> {
    if t == [] then [] else ToBits(t[0], 8) + ByteBits(t[1..])
  }

  function PayloadBits(t: Text): seq<bool> {
    match ModeOf(t)
    case Numeric => NumericBits(t)
    case Alphanumeric => AlphanumericBits(t)
    case Bytes => ByteBits(t)
  }

  function HeaderBits(mode: Mode, length: nat, version: nat): seq<bool> {
    ToBits(mode.Indicator(), 4) + ToBits(length, mode.CountBits(version))
  }

  function TextBits(t: Text, version: nat): seq<bool> {
    HeaderBits(ModeOf(t), |t|, version) + PayloadBits(t)
  }

  // ----- a decoder that reads mode, length and groups

  function Take(bits: seq<bool>, n: nat): nat
    requires n <= |bits|
  {
    FromBits(bits[..n])
  }

  /** v in k decimal digits. */
  function Digits(v: nat, k: nat): Option<Text> {
    if k == 0 then (if v == 0 then Some([]) else None)
    else
      match Digits(v / 10, k - 1)
      case None => None
      case Some(t) => Some(t + [v % 10 + 48])
  }

  /** v in k characters. */
  function Chars(v: nat, k: nat): Option<Text> {
    if k == 0 then (if v == 0 then Some([]) else None)
    else
      match Chars(v / 45, k - 1)
      case None => None
      case Some(t) => Some(t + [AlphanumericChar(v % 45)])
  }

  function Join(a: Option<Text>, b: Option<Text>): Option<Text> {
    if a.Some? && b.Some? then Some(a.value + b.value) else None
  }

  function DecodeNumeric(bits: seq<bool>, n: nat): Option<Text>
    decreases n
  {
    if n == 0 then Some([])
    else
      var k := Min(n, 3);
      if |bits| < 3 * k + 1 then None
      else Join(Digits(Take(bits, 3 * k + 1), k), DecodeNumeric(bits[3 * k + 1..], n - k))
  }

  function DecodeAlphanumeric(bits: seq<bool>, n: nat): Option<Text>
    decreases n
  {
    if n == 0 then Some([])
    else
      var k := Min(n, 2);
      if |bits| < PairWidth(k) then None
      else Join(Chars(Take(bits, PairWidth(k)), k), DecodeAlphanumeric(bits[PairWidth(k)..], n - k))
  }

  function DecodeBytes(bits: seq<bool>, n: nat): Option<Text>
    decreases n
  {
    if n == 0 then Some([])
    else if |bits| < 8 then None
    else
      FromBitsRange(bits[..8]);
      assert Pow2(8) == 256 by { assert Pow2(4) == 16; }
      match DecodeBytes(bits[8..], n - 1)
      case None => None
      case Some(rest) => Some([Take(bits, 8)] + rest)
  }

  function DecodeText(bits: seq<bool>, version: nat): Option<Text> {
    if |bits| < 4 then None
    else
      var indicator := Take(bits, 4);
      if indicator != 1 && indicator != 2 && indicator != 4 then None
      else
        var mode := if indicator == 1 then Numeric else if indicator == 2 then Alphanumeric else Bytes;
        var c := mode.CountBits(version);
        if |bits| < 4 + c then None
        else
          var n := Take(bits[4..], c);
          var rest := bits[4 + c..];
          DecodePayload(mode, rest, n)
  }

  // ----- round trips

  lemma TakeField(v: nat, n: nat, rest: seq<bool>)
    requires v < Pow2(n)
    ensures |ToBits(v, n) + rest| >= n
    ensures Take(ToBits(v, n) + rest, n) == v && (ToBits(v, n) + rest)[n..] == rest
  {
    FromToBits(v, n);
    assert (ToBits(v, n) + rest)[..n] == ToBits(v, n);
  }

  lemma Powers()
    ensures Pow2(4) == 16 && Pow2(6) == 64 && Pow2(7) == 128 && Pow2(8) == 256 && Pow2(9) == 512
    ensures Pow2(10) == 1024 && Pow2(11) == 2048 && Pow2(12) == 4096 && Pow2(13) == 8192 && Pow2(14) == 16384
    ensures Pow2(16) == 65536
  {
    assert Pow2(3) == 8;
    assert Pow2(5) == 32;
    assert Pow2(15) == 32768;
  }

  function Ten(k: nat): nat { if k == 0 then 1 else 10 * Ten(k - 1) }

  lemma {:induction false} DigitsInverse(t: Text)
    requires AllDigits(t)
    ensures Digits(DigitsValue(t), |t|) == Some(t) && DigitsValue(t) < Ten(|t|)
  {
    if t != [] {
      var n := |t| - 1;
      DigitsInverse(t[..n]);
      DivModUnique(DigitsValue(t), DigitsValue(t[..n]), t[n] - 48, 10);
      assert t == t[..n] + [t[n]];
    }
  }

  function FortyFive(k: nat): nat { if k == 0 then 1 else 45 * FortyFive(k - 1) }

  lemma {:induction false} CharsInverse(t: Text)
    requires AllAlphanumeric(t)
    ensures Chars(CharsValue(t), |t|) == Some(t) && CharsValue(t) < FortyFive(|t|)
  {
    hide AlphanumericValue, AlphanumericChar;
    if t != [] {
      var n := |t| - 1;
      CharsInverse(t[..n]);
      AlphanumericInverse(t[n]);
      DivModUnique(CharsValue(t), CharsValue(t[..n]), AlphanumericValue(t[n]), 45);
      assert t == t[..n] + [t[n]];
    }
  }

  lemma GroupsFit(k: nat)
    ensures 1 <= k <= 3 ==> Ten(k) <= Pow2(3 * k + 1)
    ensures 1 <= k <= 2 ==> FortyFive(k) <= Pow2(PairWidth(k))
  {
    Powers();
    assert Ten(1) == 10 && Ten(2) == 100 && Ten(3) == 1000 && FortyFive(1) == 45 && FortyFive(2) == 2025;
  }

  lemma NumericStep(v: nat, n: nat, tail: seq<bool>)
    requires n > 0 && v < Pow2(3 * Min(n, 3) + 1)
    ensures var k := Min(n, 3);
            DecodeNumeric(ToBits(v, 3 * k + 1) + tail, n) == Join(Digits(v, k), DecodeNumeric(tail, n - k))
  {
    hide ToBits, Pow2, Digits, Take;
    TakeField(v, 3 * Min(n, 3) + 1, tail);
  }

  lemma NumericUnfold(t: Text)
    requires AllDigits(t)
    ensures NumericBits(t) ==
            if t == [] then []
            else ToBits(DigitsValue(t[..Min(|t|, 3)]), 3 * Min(|t|, 3) + 1) + NumericBits(t[Min(|t|, 3)..])
  {
    hide ToBits, DigitsValue;
  }

  /** The first group is read; the rest of the text remains. */
  lemma NumericFront(t: Text, rest: seq<bool>)
    requires AllDigits(t) && t != []
    ensures var k := Min(|t|, 3);
            DecodeNumeric(NumericBits(t) + rest, |t|) ==
            Join(Some(t[..k]), DecodeNumeric(NumericBits(t[k..]) + rest, |t| - k))
  {
    hide ToBits, Pow2, Ten, DigitsValue, Digits, NumericBits, DecodeNumeric;
    NumericUnfold(t);
    var k := Min(|t|, 3);
    var v, tail := DigitsValue(t[..k]), NumericBits(t[k..]) + rest;
    assert NumericBits(t) + rest == ToBits(v, 3 * k + 1) + tail;
    GroupsFit(k);
    DigitsInverse(t[..k]);
    NumericStep(v, |t|, tail);
  }

  lemma NumericNothing(t: Text, rest: seq<bool>)
    requires t == []
    ensures DecodeNumeric(NumericBits(t) + rest, 0) == Some([])
  {
  }

  lemma SplitAt(t: Text, k: nat)
    requires k <= |t|
    ensures t[..k] + t[k..] == t
  {
  }

  lemma {:induction false} NumericRoundTrip(t: Text, rest: seq<bool>)
    requires AllDigits(t)
    ensures DecodeNumeric(NumericBits(t) + rest, |t|) == Some(t)
  {
    hide NumericBits, DecodeNumeric;
    if t == [] {
      NumericNothing(t, rest);
    } else {
      var k := Min(|t|, 3);
      NumericFront(t, rest);
      NumericRoundTrip(t[k..], rest);
      SplitAt(t, k);
    }
  }

  lemma AlphanumericStep(v: nat, n: nat, tail: seq<bool>)
    requires n > 0 && v < Pow2(PairWidth(Min(n, 2)))
    ensures var k := Min(n, 2);
            DecodeAlphanumeric(ToBits(v, PairWidth(k)) + tail, n) == Join(Chars(v, k), DecodeAlphanumeric(tail, n - k))
  {
    hide ToBits, Pow2, Chars, Take, PairWidth;
    TakeField(v, PairWidth(Min(n, 2)), tail);
  }

  lemma {:induction false} AlphanumericRoundTrip(t: Text, rest: seq<bool>)
    requires AllAlphanumeric(t)
    ensures DecodeAlphanumeric(AlphanumericBits(t) + rest, |t|) == Some(t)
  {
    hide ToBits, Pow2, FortyFive, CharsValue, Chars, PairWidth, AlphanumericValue;
    if t != [] {
      var k := Min(|t|, 2);
      var v, tail := CharsValue(t[..k]), AlphanumericBits(t[k..]) + rest;
      assert AlphanumericBits(t) + rest == ToBits(v, PairWidth(k)) + tail;
      hide DecodeAlphanumeric, AlphanumericBits;
      GroupsFit(k);
      CharsInverse(t[..k]);
      AlphanumericStep(v, |t|, tail);
      AlphanumericRoundTrip(t[k..], rest);
      assert t[..k] + t[k..] == t;
    }
  }

  lemma BytesStep(v: Byte, n: nat, tail: seq<bool>)
    requires n > 0
    ensures DecodeBytes(ToBits(v, 8) + tail, n) == Join(Some([v]), DecodeBytes(tail, n - 1))
  {
    Powers();
    hide ToBits, Pow2;
    TakeField(v, 8, tail);
  }

  lemma {:induction false} BytesRoundTrip(t: Text, rest: seq<bool>)
    ensures DecodeBytes(ByteBits(t) + rest, |t|) == Some(t)
  {
    hide ToBits;
    if t != [] {
      var tail := ByteBits(t[1..]) + rest;
      assert ByteBits(t) + rest == ToBits(t[0], 8) + tail;
      hide DecodeBytes, ByteBits;
      BytesStep(t[0], |t|, tail);
      BytesRoundTrip(t[1..], rest);
      assert [t[0]] + t[1..] == t;
    }
  }

  function DecodePayload(mode: Mode, bits: seq<bool>, n: nat): Option<Text> {
    match mode
    case Numeric => DecodeNumeric(bits, n)
    case Alphanumeric => DecodeAlphanumeric(bits, n)
    case Bytes => DecodeBytes(bits, n)
  }

  lemma IndicatorFits(mode: Mode)
    ensures mode.Indicator() < Pow2(4)
    ensures mode.Indicator() == if mode == Numeric then 1 else if mode == Alphanumeric then 2 else 4
  {
    Powers();
  }

  lemma HeaderStep(mode: Mode, n: nat, version: nat, payload: seq<bool>)
    requires n < Pow2(mode.CountBits(version))
    ensures DecodeText(HeaderBits(mode, n, version) + payload, version) == DecodePayload(mode, payload, n)
  {
    IndicatorFits(mode);
    hide ToBits, DecodePayload, Pow2, Take;
    var c := mode.CountBits(version);
    var counted := ToBits(n, c) + payload;
    var bits := HeaderBits(mode, n, version) + payload;
    assert bits == ToBits(mode.Indicator(), 4) + counted;
    TakeField(mode.Indicator(), 4, counted);
    TakeField(n, c, payload);
    assert bits[4 + c..] == bits[4..][c..];
  }

  /** Whatever follows them, the bits of a text decode to that text. */
  lemma TextRoundTrip(t: Text, version: nat, rest: seq<bool>)
    requires |t| < Pow2(ModeOf(t).CountBits(version))
    ensures DecodeText(TextBits(t, version) + rest, version) == Some(t)
  {
    hide DecodeNumeric, DecodeAlphanumeric, DecodeBytes, NumericBits, AlphanumericBits, ByteBits, Pow2, HeaderBits, DecodeText;
    HeaderStep(ModeOf(t), |t|, version, PayloadBits(t) + rest);
    assert TextBits(t, version) + rest == HeaderBits(ModeOf(t), |t|, version) + (PayloadBits(t) + rest);
    match ModeOf(t)
    case Numeric => NumericRoundTrip(t, rest);
    case Alphanumeric => AlphanumericRoundTrip(t, rest);
    case Bytes => BytesRoundTrip(t, rest);
  }

  // ----- groups, from the front

  lemma {:induction false} NumericSplit(t: Text, m: nat)
    requires AllDigits(t) && m <= |t| && m % 3 == 0
    ensures NumericBits(t) == NumericBits(t[..m]) + NumericBits(t[m..])
  {
    hide ToBits, DigitsValue, NumericBits;
    NumericUnfold(t[..m]);
    if m == 0 {
      assert t[0..] == t;
    } else {
      NumericUnfold(t);
      NumericSplit(t[3..], m - 3);
      assert t[..m][..3] == t[..3] && t[..m][3..] == t[3..][..m - 3] && t[3..][m - 3..] == t[m..];
    }
  }

  lemma {:induction false} AlphanumericSplit(t: Text, m: nat)
    requires AllAlphanumeric(t) && m <= |t| && m % 2 == 0
    ensures AlphanumericBits(t) == AlphanumericBits(t[..m]) + AlphanumericBits(t[m..])
  {
    hide ToBits, CharsValue, AlphanumericValue, PairWidth;
    if m == 0 {
      assert t[0..] == t;
    } else {
      AlphanumericSplit(t[2..], m - 2);
      assert t[..m][..2] == t[..2] && t[..m][2..] == t[2..][..m - 2] && t[2..][m - 2..] == t[m..];
    }
  }

  lemma NumericGroup(t: Text, m: nat, k: nat)
    requires AllDigits(t) && m % 3 == 0 && 0 < k <= 3 && m + k <= |t|
    ensures NumericBits(t[..m + k]) == NumericBits(t[..m]) + ToBits(DigitsValue(t[m..m + k]), 3 * k + 1)
  {
    hide NumericBits, ToBits, DigitsValue;
    var p := t[..m + k];
    NumericSplit(p, m);
    assert p[..m] == t[..m] && p[m..] == t[m..m + k];
    NumericOne(p[m..]);
  }

  lemma NumericOne(t: Text)
    requires 0 < |t| <= 3 && AllDigits(t)
    ensures NumericBits(t) == ToBits(DigitsValue(t), 3 * |t| + 1)
  {
    hide ToBits, DigitsValue;
    var k := |t|;
    assert t[..k] == t && t[k..] == [];
    assert NumericBits([]) == [];
  }

  lemma AlphanumericGroup(t: Text, m: nat, k: nat)
    requires AllAlphanumeric(t) && m % 2 == 0 && 0 < k <= 2 && m + k <= |t|
    ensures AlphanumericBits(t[..m + k]) == AlphanumericBits(t[..m]) + ToBits(CharsValue(t[m..m + k]), PairWidth(k))
  {
    hide AlphanumericBits, ToBits, CharsValue, AlphanumericValue, PairWidth;
    var p := t[..m + k];
    AlphanumericSplit(p, m);
    assert p[..m] == t[..m] && p[m..] == t[m..m + k];
    AlphanumericOne(p[m..]);
  }

  lemma AlphanumericOne(t: Text)
    requires 0 < |t| <= 2 && AllAlphanumeric(t)
    ensures AlphanumericBits(t) == ToBits(CharsValue(t), PairWidth(|t|))
  {
    hide ToBits, CharsValue, AlphanumericValue;
    var k := |t|;
    assert t[..k] == t && t[k..] == [];
    assert AlphanumericBits([]) == [];
  }

  lemma {:induction false} BytesSnoc(t: Text, m: nat)
    requires m < |t|
    ensures ByteBits(t[..m + 1]) == ByteBits(t[..m]) + ToBits(t[m], 8)
  {
    hide ToBits;
    var p := t[..m + 1];
    if m == 0 {
      assert p[1..] == [] && t[..0] == [];
    } else {
      BytesSnoc(t[1..], m - 1);
      assert p[1..] == t[1..][..m] && t[..m][1..] == t[1..][..m - 1];
    }
  }

  // ----- sizes

  lemma {:induction false} NumericSize(t: Text)
    requires AllDigits(t)
    ensures 3 * |NumericBits(t)| >= 10 * |t|
  {
    hide ToBits, DigitsValue;
    if t != [] {
      NumericSize(t[Min(|t|, 3)..]);
    }
  }

  lemma {:induction false} AlphanumericSize(t: Text)
    requires AllAlphanumeric(t)
    ensures 2 * |AlphanumericBits(t)| >= 11 * |t|
  {
    hide ToBits, CharsValue, AlphanumericValue;
    if t != [] {
      AlphanumericSize(t[Min(|t|, 2)..]);
    }
  }

  lemma {:induction false} ByteSize(t: Text)
    ensures |ByteBits(t)| == 8 * |t|
  {
    hide ToBits;
    if t != [] {
      ByteSize(t[1..]);
    }
  }

  /** The largest data capacities of the three version ranges, in bytes. */
  predicate CapacityBound(version: nat, dataCapacity: nat) {
    dataCapacity <= if version > 26 then 2956 else if version > 9 then 1370 else 232
  }

  /** A text that fits the symbol has a length that fits its count field. */
  lemma LengthFits(t: Text, version: nat, dataCapacity: nat)
    requires CapacityBound(version, dataCapacity) && |TextBits(t, version)| <= 8 * dataCapacity
    ensures |t| < Pow2(ModeOf(t).CountBits(version))
  {
    Powers();
    hide NumericBits, AlphanumericBits, ByteBits, ToBits, Pow2;
    match ModeOf(t)
    case Numeric => NumericSize(t);
    case Alphanumeric => AlphanumericSize(t);
    case Bytes => ByteSize(t);
  }

  /** Every text that fits is recovered from its bits, whatever padding follows. */
  lemma FittingTextRoundTrip(t: Text, version: nat, dataCapacity: nat, rest: seq<bool>)
    requires CapacityBound(version, dataCapacity) && |TextBits(t, version)| <= 8 * dataCapacity
    ensures DecodeText(TextBits(t, version) + rest, version) == Some(t)
  {
    LengthFits(t, version, dataCapacity);
    TextRoundTrip(t, version, rest);
  }

  // ----- texts that do not fit

  /** The bits that a reader takes for a payload of n characters. */
  function PayloadSize(mode: Mode, n: nat): nat {
    if n == 0 then 0
    else
      match mode
      case Numeric => 3 * Min(n, 3) + 1 + PayloadSize(mode, n - Min(n, 3))
      case Alphanumeric => PairWidth(Min(n, 2)) + PayloadSize(mode, n - Min(n, 2))
      case Bytes => 8 + PayloadSize(mode, n - 1)
  }

  lemma {:induction false} NumericNeeds(bits: seq<bool>, n: nat, t: Text)
    requires DecodeNumeric(bits, n) == Some(t)
    ensures |t| == n && |bits| >= PayloadSize(Numeric, n)
    decreases n
  {
    hide Take;
    if n > 0 {
      var k := Min(n, 3);
      var rest := DecodeNumeric(bits[3 * k + 1..], n - k);
      DigitsLength(Take(bits, 3 * k + 1), k);
      NumericNeeds(bits[3 * k + 1..], n - k, rest.value);
    }
  }

  lemma {:induction false} DigitsLength(v: nat, k: nat)
    ensures Digits(v, k).Some? ==> |Digits(v, k).value| == k
  {
    if k > 0 { DigitsLength(v / 10, k - 1); }
  }

  lemma {:induction false} AlphanumericNeeds(bits: seq<bool>, n: nat, t: Text)
    requires DecodeAlphanumeric(bits, n) == Some(t)
    ensures |t| == n && |bits| >= PayloadSize(Alphanumeric, n)
    decreases n
  {
    hide Take, AlphanumericChar;
    if n > 0 {
      var k := Min(n, 2);
      var w := PairWidth(k);
      var rest := DecodeAlphanumeric(bits[w..], n - k);
      CharsLength(Take(bits, w), k);
      AlphanumericNeeds(bits[w..], n - k, rest.value);
    }
  }

  lemma {:induction false} CharsLength(v: nat, k: nat)
    ensures Chars(v, k).Some? ==> |Chars(v, k).value| == k
  {
    hide AlphanumericChar;
    if k > 0 { CharsLength(v / 45, k - 1); }
  }

  lemma {:induction false} BytesNeeds(bits: seq<bool>, n: nat, t: Text)
    requires DecodeBytes(bits, n) == Some(t)
    ensures |t| == n && |bits| >= PayloadSize(Bytes, n)
    decreases n
  {
    hide Take;
    if n > 0 {
      var rest := DecodeBytes(bits[8..], n - 1);
      BytesNeeds(bits[8..], n - 1, rest.value);
    }
  }

  lemma PayloadNeeds(mode: Mode, bits: seq<bool>, n: nat, t: Text)
    requires DecodePayload(mode, bits, n) == Some(t)
    ensures |t| == n && |bits| >= PayloadSize(mode, n)
  {
    hide DecodeNumeric, DecodeAlphanumeric, DecodeBytes, PayloadSize;
    match mode
    case Numeric => NumericNeeds(bits, n, t);
    case Alphanumeric => AlphanumericNeeds(bits, n, t);
    case Bytes => BytesNeeds(bits, n, t);
  }

  lemma {:induction false} NumericIsSize(t: Text)
    requires AllDigits(t)
    ensures |NumericBits(t)| == PayloadSize(Numeric, |t|)
  {
    hide ToBits, DigitsValue;
    if t != [] { NumericIsSize(t[Min(|t|, 3)..]); }
  }

  lemma {:induction false} AlphanumericIsSize(t: Text)
    requires AllAlphanumeric(t)
    ensures |AlphanumericBits(t)| == PayloadSize(Alphanumeric, |t|)
  {
    hide ToBits, CharsValue, AlphanumericValue;
    if t != [] { AlphanumericIsSize(t[Min(|t|, 2)..]); }
  }

  lemma {:induction false} BytesIsSize(t: Text)
    ensures |ByteBits(t)| == PayloadSize(Bytes, |t|)
  {
    hide ToBits;
    if t != [] { BytesIsSize(t[1..]); }
  }

  lemma PayloadIsSize(t: Text)
    ensures |PayloadBits(t)| == PayloadSize(ModeOf(t), |t|)
  {
    hide NumericBits, AlphanumericBits, ByteBits, PayloadSize, AlphanumericValue;
    match ModeOf(t)
    case Numeric => NumericIsSize(t);
    case Alphanumeric => AlphanumericIsSize(t);
    case Bytes => BytesIsSize(t);
  }

  /** The indicator of a header is read whatever follows it. */
  lemma IndicatorRead(t: Text, version: nat, bits: seq<bool>)
    requires 4 <= |bits| && bits <= TextBits(t, version)
    ensures Take(bits, 4) == ModeOf(t).Indicator()
  {
    hide ToBits, PayloadBits, ModeOf, Pow2;
    var i := ToBits(ModeOf(t).Indicator(), 4);
    IndicatorFits(ModeOf(t));
    assert bits[..4] == TextBits(t, version)[..4] == i;
    FromToBits(ModeOf(t).Indicator(), 4);
  }

  /** A text whose bits have been cut off cannot be recovered. */
  lemma CutOff(t: Text, version: nat, bits: seq<bool>)
    requires 4 <= |bits| < |TextBits(t, version)| && bits <= TextBits(t, version)
    ensures DecodeText(bits, version) != Some(t)
  {
    hide PayloadBits, ModeOf, DecodePayload, PayloadSize, ToBits, Take, Pow2;
    var mode := ModeOf(t);
    var c := mode.CountBits(version);
    IndicatorRead(t, version, bits);
    IndicatorFits(mode);
    PayloadIsSize(t);
    if |bits| >= 4 + c {
      var n := Take(bits[4..], c);
      if DecodePayload(mode, bits[4 + c..], n) == Some(t) { PayloadNeeds(mode, bits[4 + c..], n, t); }
    }
  }

  /** So a reader of the first bytes of a text's bits recovers the text exactly when they are all there. */
  lemma RecoveredIff(t: Text, version: nat, dataCapacity: nat, bits: seq<bool>)
    requires CapacityBound(version, dataCapacity) && dataCapacity > 0 && |bits| == 8 * dataCapacity
    requires bits <= TextBits(t, version) || TextBits(t, version) <= bits
    ensures DecodeText(bits, version) == Some(t) <==> |TextBits(t, version)| <= 8 * dataCapacity
  {
    hide TextBits, DecodeText;
    if |TextBits(t, version)| <= 8 * dataCapacity {
      var rest := bits[|TextBits(t, version)|..];
      assert bits == TextBits(t, version) + rest;
      FittingTextRoundTrip(t, version, dataCapacity, rest);
    } else {
      CutOff(t, version, bits);
    }
  }
}
