/** The format information: the words themselves, how far they are apart, and where they stand. */
module QrFormats {
  import opened Arith
  import opened QrMask

  // ----- the words

  /** The 32 words of 15 bits, by the two bits of the level and the three bits of the mask number (Table C.1 of ISO/IEC
      18004:2015). */
  function WordOf(ecc: bv32, mask: bv32): bv32 {
    if ecc == 0 then
      if mask == 0 then 0x5412 else if mask == 1 then 0x5125 else if mask == 2 then 0x5e7c else if mask == 3 then 0x5b4b
      else if mask == 4 then 0x45f9 else if mask == 5 then 0x40ce else if mask == 6 then 0x4f97 else 0x4aa0
    else if ecc == 1 then
      if mask == 0 then 0x77c4 else if mask == 1 then 0x72f3 else if mask == 2 then 0x7daa else if mask == 3 then 0x789d
      else if mask == 4 then 0x662f else if mask == 5 then 0x6318 else if mask == 6 then 0x6c41 else 0x6976
    else if ecc == 2 then
      if mask == 0 then 0x1689 else if mask == 1 then 0x13be else if mask == 2 then 0x1ce7 else if mask == 3 then 0x19d0
      else if mask == 4 then 0x0762 else if mask == 5 then 0x0255 else if mask == 6 then 0x0d0c else 0x083b
    else
      if mask == 0 then 0x355f else if mask == 1 then 0x3068 else if mask == 2 then 0x3f31 else if mask == 3 then 0x3a06
      else if mask == 4 then 0x24b4 else if mask == 5 then 0x2183 else if mask == 6 then 0x2eda else 0x2bed
  }

  function Five(rem: bv32): bv32 { DivideOnce(DivideOnce(DivideOnce(DivideOnce(DivideOnce(rem))))) }

  lemma FiveSteps(rem: bv32, n: nat)
    ensures FormatRemainder(rem, n + 5) == Five(FormatRemainder(rem, n))
  {
    hide DivideOnce;
    assert FormatRemainder(rem, n + 2) == DivideOnce(DivideOnce(FormatRemainder(rem, n)));
    assert FormatRemainder(rem, n + 4) == DivideOnce(DivideOnce(FormatRemainder(rem, n + 2)));
  }

  lemma TenSteps(rem: bv32)
    ensures FormatRemainder(rem, 10) == Five(Five(rem))
  {
    FiveSteps(rem, 0);
    FiveSteps(rem, 5);
    hide Five, DivideOnce;
    assert FormatRemainder(rem, 0) == rem;
    hide FormatRemainder;
  }

  lemma Words0()
    ensures FormatWord(0, 0) == 0x5412
    ensures FormatWord(0, 1) == 0x5125
    ensures FormatWord(0, 2) == 0x5e7c
    ensures FormatWord(0, 3) == 0x5b4b
    ensures FormatWord(0, 4) == 0x45f9
    ensures FormatWord(0, 5) == 0x40ce
    ensures FormatWord(0, 6) == 0x4f97
    ensures FormatWord(0, 7) == 0x4aa0
  {
    TenSteps(0);
    TenSteps(1);
    TenSteps(2);
    TenSteps(3);
    TenSteps(4);
    TenSteps(5);
    TenSteps(6);
    TenSteps(7);
    hide FormatRemainder;
  }

  lemma Words1()
    ensures FormatWord(1, 0) == 0x77c4
    ensures FormatWord(1, 1) == 0x72f3
    ensures FormatWord(1, 2) == 0x7daa
    ensures FormatWord(1, 3) == 0x789d
    ensures FormatWord(1, 4) == 0x662f
    ensures FormatWord(1, 5) == 0x6318
    ensures FormatWord(1, 6) == 0x6c41
    ensures FormatWord(1, 7) == 0x6976
  {
    TenSteps(8);
    TenSteps(9);
    TenSteps(10);
    TenSteps(11);
    TenSteps(12);
    TenSteps(13);
    TenSteps(14);
    TenSteps(15);
    hide FormatRemainder;
  }

  lemma Words2()
    ensures FormatWord(2, 0) == 0x1689
    ensures FormatWord(2, 1) == 0x13be
    ensures FormatWord(2, 2) == 0x1ce7
    ensures FormatWord(2, 3) == 0x19d0
    ensures FormatWord(2, 4) == 0x0762
    ensures FormatWord(2, 5) == 0x0255
    ensures FormatWord(2, 6) == 0x0d0c
    ensures FormatWord(2, 7) == 0x083b
  {
    TenSteps(16);
    TenSteps(17);
    TenSteps(18);
    TenSteps(19);
    TenSteps(20);
    TenSteps(21);
    TenSteps(22);
    TenSteps(23);
    hide FormatRemainder;
  }

  lemma Words3()
    ensures FormatWord(3, 0) == 0x355f
    ensures FormatWord(3, 1) == 0x3068
    ensures FormatWord(3, 2) == 0x3f31
    ensures FormatWord(3, 3) == 0x3a06
    ensures FormatWord(3, 4) == 0x24b4
    ensures FormatWord(3, 5) == 0x2183
    ensures FormatWord(3, 6) == 0x2eda
    ensures FormatWord(3, 7) == 0x2bed
  {
    TenSteps(24);
    TenSteps(25);
    TenSteps(26);
    TenSteps(27);
    TenSteps(28);
    TenSteps(29);
    TenSteps(30);
    TenSteps(31);
    hide FormatRemainder;
  }

  /** The division by 0x537 gives these words. */
  lemma FormatWords(ecc: bv32, mask: bv32)
    requires ecc < 4 && mask < 8
    ensures FormatWord(ecc, mask) == WordOf(ecc, mask)
  {
    hide FormatWord;
    Words0();
    Words1();
    Words2();
    Words3();
  }

  // ----- how far they are apart

  function Bit(w: bv32, i: nat): nat
    requires i < 15
  {
    if WordBit(w, i) then 1 else 0
  }

  /** The number of ones among the fifteen bits. */
  function Ones(w: bv32): nat {
    Bit(w, 0) + Bit(w, 1) + Bit(w, 2) + Bit(w, 3) + Bit(w, 4) + Bit(w, 5) + Bit(w, 6) + Bit(w, 7)
    + Bit(w, 8) + Bit(w, 9) + Bit(w, 10) + Bit(w, 11) + Bit(w, 12) + Bit(w, 13) + Bit(w, 14)
  }

  /** The places in which two words differ. */
  function Differing(v: bv32, w: bv32): nat { Ones(v ^ w) }

  /** The code before the fixed pattern is added: the sum of a word for each data bit. */
  function Code(d: bv32): bv32 {
    (if d & 1 != 0 then 0x0537 else 0) ^ (if d & 2 != 0 then 0x0a6e else 0) ^ (if d & 4 != 0 then 0x11eb else 0)
    ^ (if d & 8 != 0 then 0x23d6 else 0) ^ (if d & 16 != 0 then 0x429b else 0)
  }

  lemma WordIsCode(ecc: bv32, mask: bv32)
    requires ecc < 4 && mask < 8
    ensures WordOf(ecc, mask) == Code(FormatData(ecc, mask)) ^ 0x5412
  {
    if ecc == 0 {} else if ecc == 1 {} else if ecc == 2 {} else { assert ecc == 3; }
  }

  lemma CodeSum(d: bv32, e: bv32)
    requires d < 32 && e < 32
    ensures Code(d) ^ Code(e) == Code(d ^ e) && d ^ e < 32
  {
  }

  lemma CodeWeight(d: bv32)
    requires 0 < d < 32
    ensures Ones(Code(d)) >= 7
  {
  }

  lemma DataDiffer(ecc: bv32, mask: bv32, ecc': bv32, mask': bv32)
    requires ecc < 4 && mask < 8 && ecc' < 4 && mask' < 8 && (ecc != ecc' || mask != mask')
    ensures FormatData(ecc, mask) < 32 && FormatData(ecc', mask') < 32
    ensures FormatData(ecc, mask) ^ FormatData(ecc', mask') != 0
  {
  }

  lemma PatternCancels(v: bv32, w: bv32)
    ensures (v ^ 0x5412) ^ (w ^ 0x5412) == v ^ w
  {
  }

  /** Words of different levels or masks differ in at least seven places, so three wrong ones can be told. */
  lemma FormatDistance(ecc: bv32, mask: bv32, ecc': bv32, mask': bv32)
    requires ecc < 4 && mask < 8 && ecc' < 4 && mask' < 8 && (ecc != ecc' || mask != mask')
    ensures Differing(FormatWord(ecc, mask), FormatWord(ecc', mask')) >= 7
  {
    hide FormatWord, WordOf, Code, Ones, FormatData;
    var d, e := FormatData(ecc, mask), FormatData(ecc', mask');
    FormatWords(ecc, mask);
    FormatWords(ecc', mask');
    WordIsCode(ecc, mask);
    WordIsCode(ecc', mask');
    DataDiffer(ecc, mask, ecc', mask');
    PatternCancels(Code(d), Code(e));
    CodeSum(d, e);
    CodeWeight(d ^ e);
  }

  // ----- where they stand

  /** The cells of the first copy, by the number of the bit. */
  function FirstCopy(): seq<(int, int)> {
    [(8, 0), (8, 1), (8, 2), (8, 3), (8, 4), (8, 5), (8, 7), (8, 8), (7, 8), (5, 8), (4, 8), (3, 8), (2, 8), (1, 8), (0, 8)]
  }

  /** Those of the second, from the right edge and from the lower one. */
  function SecondCopy(size: int): seq<(int, int)> {
    [(size - 1, 8), (size - 2, 8), (size - 3, 8), (size - 4, 8), (size - 5, 8), (size - 6, 8), (size - 7, 8), (size - 8, 8),
     (8, size - 7), (8, size - 6), (8, size - 5), (8, size - 4), (8, size - 3), (8, size - 2), (8, size - 1)]
  }

  /** With the format bits drawn, each copy holds the word bit by bit, the module above the second one is dark, and all
      other modules are as they were. */
  lemma FormatStands(size: int, modules: seq<bool>, word: bv32, x: nat, y: nat)
    requires size >= 21 && size * size <= |modules| && x < size && y < size
    ensures 0 <= y * size + x < |modules|
    ensures var on := WithFormat(size, modules, word)[y * size + x];
            && (forall i :: 0 <= i < 15 && FirstCopy()[i] == (x, y) ==> on == WordBit(word, i))
            && (forall i :: 0 <= i < 15 && SecondCopy(size)[i] == (x, y) ==> on == WordBit(word, i))
            && ((x, y) == (8, size - 8) ==> on)
            && ((x, y) !in FirstCopy() && (x, y) !in SecondCopy(size) && (x, y) != (8, size - 8) ==> on == modules[y * size + x])
  {
    RowMajor(y, x, size, size);
    DrawnAt(size, modules, word, x, y, y * size + x);
    OrderFirst(size, x, y);
    OrderSecond(size, x, y);
    hide FirstCopy, SecondCopy, FormatOrder, WithFormat, FormatColour, WordBit;
    var order, p := FormatOrder(size, x, y), y * size + x;
    var on := WithFormat(size, modules, word)[p];
    forall i | 0 <= i < 15 ensures FormatColour(word, i) == WordBit(word, i) == FormatColour(word, 15 + i) {
      Colours(word, i);
    }
    assert FormatColour(word, 30) by { Colours(word, 0); }
    Somewhere(FirstCopy(), SecondCopy(size), (x, y), order);
  }

  lemma Somewhere(a: seq<(int, int)>, b: seq<(int, int)>, c: (int, int), order: int)
    requires |a| == |b| == 15 && -1 <= order <= 30
    requires forall i :: 0 <= i < 15 ==> (a[i] == c <==> order == i)
    requires forall i :: 0 <= i < 15 ==> (b[i] == c <==> order == 15 + i)
    ensures order == -1 || order == 30 || c in a || c in b
  {
    if 0 <= order < 15 { assert a[order] == c; }
    if 15 <= order < 30 { assert b[order - 15] == c; }
  }

  lemma Colours(word: bv32, i: nat)
    requires i < 15
    ensures FormatColour(word, i) == WordBit(word, i) == FormatColour(word, 15 + i) && FormatColour(word, 30)
  {
    hide WordBit;
  }

  lemma DrawnAt(size: int, modules: seq<bool>, word: bv32, x: nat, y: nat, p: nat)
    requires size > 0 && p < |modules| && p < size * size && p % size == x && p / size == y
    ensures WithFormat(size, modules, word)[p] ==
              var n := FormatOrder(size, x, y); if 0 <= n then FormatColour(word, n) else modules[p]
  {
    hide FormatColour, FormatOrder;
  }

  lemma OrderFirst(size: int, x: nat, y: nat)
    requires size >= 21 && x < size && y < size
    ensures |FirstCopy()| == 15 && forall i :: 0 <= i < 15 ==> (FirstCopy()[i] == (x, y) <==> FormatOrder(size, x, y) == i)
  {
  }

  lemma OrderSecond(size: int, x: nat, y: nat)
    requires size >= 21 && x < size && y < size
    ensures |SecondCopy(size)| == 15
    ensures forall i :: 0 <= i < 15 ==> (SecondCopy(size)[i] == (x, y) <==> FormatOrder(size, x, y) == 15 + i)
    ensures (x, y) == (8, size - 8) <==> FormatOrder(size, x, y) == 30
  {
  }
}
