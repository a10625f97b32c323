/** The three encodings of a text by the numbers of clause 7.4 of ISO/IEC 18004:2015: indicators, widths, the character set
    and the groups. */
module QrTextRules {
  import opened Octets
  import opened BitStrings
  import opened QrText
  import opened QrEncoder

  // ----- the header

  /** The widths of the character count for versions up to 9, up to 26 and up to 40. */
  lemma CountWidths(mode: Mode, version: nat)
    requires 1 <= version <= 40
    ensures mode.CountBits(version) ==
              var widths := if mode == Numeric then [10, 12, 14] else if mode == Alphanumeric then [9, 11, 13] else [8, 16, 16];
              widths[if version <= 9 then 0 else if version <= 26 then 1 else 2]
  {
  }

  lemma Indicators()
    ensures ToBits(Mode.Numeric.Indicator(), 4) == [false, false, false, true]
    ensures ToBits(Alphanumeric.Indicator(), 4) == [false, false, true, false]
    ensures ToBits(Mode.Bytes.Indicator(), 4) == [false, true, false, false]
  {
    assert Pow2(0) == 1 && Pow2(1) == 2 && Pow2(2) == 4;
    FourBits(1);
    FourBits(2);
    FourBits(4);
  }

  lemma FourBits(n: nat)
    ensures ToBits(n, 4) == [n / 2 / 2 / 2 % 2 == 1, n / 2 / 2 % 2 == 1, n / 2 % 2 == 1, n % 2 == 1]
  {
  }

  // ----- the character set

  /** Digits, capital letters and nine signs. */
  const CHARSET := "0123456789" + "ABCDEFGHIJKLMNOPQRSTUVWXYZ" + " $%*+-./:"

  lemma CharsetDigit(v: nat)
    requires 0 <= v < 10
    ensures |CHARSET| == 45 && CHARSET[v] as int == AlphanumericChar(v)
  {
    var part := "0123456789";
    assert CHARSET[v] == part[v - 0];
    if v == 0 {} else if v == 1 {} else if v == 2 {} else if v == 3 {} else if v == 4 {} else if v == 5 {} else if v == 6 {}
    else if v == 7 {} else if v == 8 {}
  }

  lemma CharsetLetter(v: nat)
    requires 10 <= v < 36
    ensures |CHARSET| == 45 && CHARSET[v] as int == AlphanumericChar(v)
  {
    var part := "ABCDEFGHIJKLMNOPQRSTUVWXYZ";
    assert CHARSET[v] == part[v - 10];
    if v == 10 {} else if v == 11 {} else if v == 12 {} else if v == 13 {} else if v == 14 {} else if v == 15 {} else if v == 16 {}
    else if v == 17 {} else if v == 18 {} else if v == 19 {} else if v == 20 {} else if v == 21 {} else if v == 22 {} else if v == 23 {}
    else if v == 24 {} else if v == 25 {} else if v == 26 {} else if v == 27 {} else if v == 28 {} else if v == 29 {} else if v == 30 {}
    else if v == 31 {} else if v == 32 {} else if v == 33 {} else if v == 34 {}
  }

  lemma CharsetSign(v: nat)
    requires 36 <= v < 45
    ensures |CHARSET| == 45 && CHARSET[v] as int == AlphanumericChar(v)
  {
    var part := " $%*+-./:";
    assert CHARSET[v] == part[v - 36];
    if v == 36 {} else if v == 37 {} else if v == 38 {} else if v == 39 {} else if v == 40 {} else if v == 41 {} else if v == 42 {}
    else if v == 43 {}
  }

  lemma CharsetAt(v: nat)
    requires v < 45
    ensures |CHARSET| == 45 && CHARSET[v] as int == AlphanumericChar(v)
  {
    if v < 10 { CharsetDigit(v); } else if v < 36 { CharsetLetter(v); } else { CharsetSign(v); }
  }

  lemma ValueOfChar(v: nat)
    requires v < 45
    ensures AlphanumericValue(AlphanumericChar(v)) == v
  {
  }

  /** The value of a character is its place in the set. */
  lemma CharsetPlace(c: Byte, v: nat)
    requires v < 45
    ensures |CHARSET| == 45 && (AlphanumericValue(c) == v <==> CHARSET[v] as int == c)
  {
    CharsetAt(v);
    ValueOfChar(v);
    if AlphanumericValue(c) == v { AlphanumericInverse(c); }
    hide AlphanumericValue, AlphanumericChar;
  }

  // ----- the groups

  lemma DigitsMore(t: Text, c: Byte)
    requires AllDigits(t + [c])
    ensures AllDigits(t) && DigitsValue(t + [c]) == 10 * DigitsValue(t) + c - 48
  {
    assert forall i :: 0 <= i < |t| ==> (t + [c])[i] == t[i];
    assert (t + [c])[|t|] == c && (t + [c])[..|t|] == t;
  }

  lemma ThreeDigits(a: Byte, b: Byte, c: Byte)
    requires IsDigit(a) && IsDigit(b) && IsDigit(c)
    ensures AllDigits([a, b, c]) && DigitsValue([a, b, c]) == 100 * (a - 48) + 10 * (b - 48) + (c - 48)
    ensures AllDigits([a, b]) && DigitsValue([a, b]) == 10 * (a - 48) + (b - 48)
    ensures AllDigits([a]) && DigitsValue([a]) == a - 48
  {
    hide DigitsValue, IsDigit;
    NoDigits();
    assert [a] == [] + [a];
    DigitsMore([], a);
    assert [a, b] == [a] + [b];
    DigitsMore([a], b);
    assert [a, b, c] == [a, b] + [c];
    DigitsMore([a, b], c);
  }

  lemma NoDigits()
    ensures DigitsValue([]) == 0
  {
  }

  /** Three digits in ten bits. */
  lemma TripleBits(a: Byte, b: Byte, c: Byte, rest: Text)
    requires IsDigit(a) && IsDigit(b) && IsDigit(c) && AllDigits(rest)
    ensures AllDigits([a, b, c] + rest)
    ensures NumericBits([a, b, c] + rest) == ToBits(100 * (a - 48) + 10 * (b - 48) + (c - 48), 10) + NumericBits(rest)
  {
    hide DigitsValue, ToBits, IsDigit, NumericBits;
    ThreeDigits(a, b, c);
    FrontBack([a, b, c], rest);
    NumericUnfold([a, b, c] + rest);
  }

  lemma FrontBack(t: Text, rest: Text)
    requires AllDigits(t) && AllDigits(rest)
    ensures AllDigits(t + rest) && (t + rest)[..|t|] == t && (t + rest)[|t|..] == rest
  {
    hide IsDigit;
    var all := t + rest;
    forall i | 0 <= i < |all| ensures IsDigit(all[i]) {
      assert all[i] == if i < |t| then t[i] else rest[i - |t|];
    }
  }

  /** Two in seven, and one in four. */
  lemma PairBits(a: Byte, b: Byte)
    requires IsDigit(a) && IsDigit(b)
    ensures AllDigits([a, b]) && NumericBits([a, b]) == ToBits(10 * (a - 48) + (b - 48), 7)
    ensures AllDigits([a]) && NumericBits([a]) == ToBits(a - 48, 4)
  {
    hide DigitsValue, ToBits, IsDigit, NumericBits;
    ThreeDigits(a, b, b);
    NumericOne([a, b]);
    NumericOne([a]);
  }

  lemma CharsMore(t: Text, c: Byte)
    requires AllAlphanumeric(t + [c])
    ensures AllAlphanumeric(t) && CharsValue(t + [c]) == 45 * CharsValue(t) + AlphanumericValue(c)
  {
    hide AlphanumericValue;
    assert forall i :: 0 <= i < |t| ==> (t + [c])[i] == t[i];
    assert (t + [c])[|t|] == c && (t + [c])[..|t|] == t;
  }

  /** Two characters in eleven bits, one in six. */
  lemma CharGroups(a: Byte, b: Byte, rest: Text)
    requires AlphanumericValue(a) >= 0 && AlphanumericValue(b) >= 0 && AllAlphanumeric(rest)
    ensures AllAlphanumeric([a, b] + rest) && AllAlphanumeric([a])
    ensures AlphanumericBits([a, b] + rest) ==
            ToBits(45 * AlphanumericValue(a) + AlphanumericValue(b), 11) + AlphanumericBits(rest)
    ensures AlphanumericBits([a]) == ToBits(AlphanumericValue(a), 6)
  {
    hide AlphanumericValue, ToBits;
    assert [a, b] == [a] + [b] && [a] == [] + [a];
    var t := [a, b] + rest;
    assert t[..2] == [a, b] && t[2..] == rest;
    assert CharsValue([]) == 0;
    CharsMore([], a);
    CharsMore([a], b);
    AlphanumericOne([a]);
    hide CharsValue;
  }

  /** A byte in eight bits. */
  lemma ByteGroups(a: Byte, rest: Text)
    ensures ByteBits([a] + rest) == ToBits(a, 8) + ByteBits(rest)
  {
    hide ToBits;
    assert ([a] + rest)[1..] == rest;
  }

  // ----- the padding

  lemma EightBits(n: nat)
    ensures ToBits(n, 8) == [n / 2 / 2 / 2 / 2 / 2 / 2 / 2 % 2 == 1, n / 2 / 2 / 2 / 2 / 2 / 2 % 2 == 1,
      n / 2 / 2 / 2 / 2 / 2 % 2 == 1, n / 2 / 2 / 2 / 2 % 2 == 1, n / 2 / 2 / 2 % 2 == 1, n / 2 / 2 % 2 == 1, n / 2 % 2 == 1, n % 2 == 1]
  {
    FourBits(n / 2 / 2 / 2 / 2);
    assert ToBits(n / 2 / 2 / 2, 5) == ToBits(n / 2 / 2 / 2 / 2, 4) + [n / 2 / 2 / 2 % 2 == 1];
    assert ToBits(n / 2 / 2, 6) == ToBits(n / 2 / 2 / 2, 5) + [n / 2 / 2 % 2 == 1];
    assert ToBits(n / 2, 7) == ToBits(n / 2 / 2, 6) + [n / 2 % 2 == 1];
    assert ToBits(n, 8) == ToBits(n / 2, 7) + [n % 2 == 1];
    hide ToBits;
  }

  function PadPattern(j: nat): seq<bool> {
    if j % 2 == 0 then [true, true, true, false, true, true, false, false]
    else [false, false, false, true, false, false, false, true]
  }

  lemma PadPatterns(j: nat)
    ensures ToBits(PadByte(j), 8) == PadPattern(j)
  {
    hide ToBits;
    if j % 2 == 0 { EightBits(0xEC); } else { EightBits(0x11); }
  }

  lemma PadBytesLast(n: nat)
    requires n > 0
    ensures PadBytes(n) == PadBytes(n - 1) + ToBits(PadByte(n - 1), 8)
  {
  }

  /** The bytes 11101100 and 00010001 in turn. */
  lemma {:induction false} PadBytesAre(n: nat, j: nat)
    requires j < n
    ensures PadBytes(n)[8 * j..8 * j + 8] == PadPattern(j)
  {
    hide ToBits, PadPattern, PadByte, PadBytes;
    PadPatterns(n - 1);
    PadBytesLast(n);
    LastEight(PadBytes(n - 1), PadPattern(n - 1), n - 1);
    if j < n - 1 {
      PadBytesAre(n - 1, j);
      Earlier(PadBytes(n - 1), PadPattern(n - 1), j);
    }
  }

  lemma LastEight(p: seq<bool>, q: seq<bool>, n: nat)
    requires |p| == 8 * n && |q| == 8
    ensures (p + q)[8 * n..8 * n + 8] == q
  {
  }

  lemma Earlier(p: seq<bool>, q: seq<bool>, j: nat)
    requires 8 * j + 8 <= |p|
    ensures (p + q)[8 * j..8 * j + 8] == p[8 * j..8 * j + 8]
  {
  }

  /** A text that fits is followed by up to four zeros, zeros to the end of the byte, and the bytes that are missing. */
  lemma PaddingIs(written: nat, dataCapacity: nat)
    requires written <= 8 * dataCapacity
    ensures var left := 8 * dataCapacity - written;
            var four := if left < 4 then left else 4;
            var zeros := if (written + four) % 8 == 0 then four else four + 8 - (written + four) % 8;
            && zeros <= left && (left - zeros) % 8 == 0
            && |Padding(written, dataCapacity)| == left
            && (forall i :: 0 <= i < zeros ==> !Padding(written, dataCapacity)[i])
            && Padding(written, dataCapacity)[zeros..] == PadBytes((left - zeros) / 8)
  {
    hide ToBits, PadBytes;
    var t := Terminator(written, dataCapacity);
    var z := ToByteBoundary(written + t);
    NoOnes(t);
    NoOnes(z);
    ZerosThen(ToBits(0, t), ToBits(0, z), PadBytes(Missing(written + t + z, dataCapacity)));
  }

  lemma ZerosThen(a: seq<bool>, b: seq<bool>, rest: seq<bool>)
    requires forall i :: 0 <= i < |a| ==> !a[i]
    requires forall i :: 0 <= i < |b| ==> !b[i]
    ensures forall i :: 0 <= i < |a| + |b| ==> !(a + b + rest)[i]
    ensures (a + b + rest)[|a| + |b|..] == rest
  {
  }

  lemma {:induction false} NoOnes(n: nat)
    ensures |ToBits(0, n)| == n && forall i :: 0 <= i < n ==> !ToBits(0, n)[i]
  {
    if n > 0 { NoOnes(n - 1); }
  }
}
