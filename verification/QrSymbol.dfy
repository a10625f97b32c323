/** The encoder from text to symbol. */
module QrSymbol {
  import opened Options
  import opened Arith
  import opened BitBuckets
  import opened QrText
  import opened QrEncoder
  import opened QrBlocks
  import opened QrZigzag
  import opened QrMaskChoice
  import opened QrReader
  import opened QrRecovery

  // ----- the encoder

  /** One row of the capacity tables: the relations the encoder relies on. */
  datatype Row = Row(moduleCount: nat, totalEcc: nat, numBlocks: nat) {
    predicate Valid(version: nat) {
      && 1 <= version <= 40 && moduleCount < 0x1_0000
      && TablesAgree(moduleCount, totalEcc, numBlocks)
      && CapacityBound(version, DataCapacity())
    }

    function DataCapacity(): int { moduleCount / 8 - totalEcc }

    function Blocks(): (l: Layout)
      requires TablesAgree(moduleCount, totalEcc, numBlocks)
      ensures l.Valid()
    {
      LayoutOf(moduleCount, totalEcc, numBlocks)
    }

    lemma Sizes()
      requires TablesAgree(moduleCount, totalEcc, numBlocks)
      ensures Blocks().Data() == DataCapacity() && 0 < DataCapacity() <= moduleCount / 8 == Blocks().Total()
    {
      DivModBounds(totalEcc, numBlocks, 0);
    }
  }

  /** The bits of the text, the terminator and the padding stay within the buffer of all codewords. */
  predicate InBuffer(text: Text, version: nat, row: Row) {
    var n := |TextBits(text, version)|;
    row.DataCapacity() >= 0 && n + |Padding(n, row.DataCapacity())| <= 8 * ((row.moduleCount + 7) / 8)
  }

  /** The text's bits stay within the data capacity. */
  predicate Fits(text: Text, version: nat, row: Row) { |TextBits(text, version)| <= 8 * row.DataCapacity() }

  /** A text that fits stays within the buffer; the buffer is larger by the check words, and not all that it takes fits. */
  lemma FittingInBuffer(text: Text, version: nat, row: Row)
    requires row.Valid(version) && Fits(text, version, row)
    ensures InBuffer(text, version, row)
  {
    hide TextBits, Padding;
    row.Sizes();
  }

  /** Text and padding, check words and interleaving: the buffer that is drawn. */
  method BuildCodewords(text: Text, version: nat, row: Row) returns (codewords: BitBucket, mode: Mode, ghost src: seq<bv8>)
    requires row.Valid(version) && InBuffer(text, version, row)
    ensures fresh(codewords) && fresh(codewords.data)
    ensures mode == ModeOf(text) && codewords.bitOffsetOrWidth == row.moduleCount <= 8 * codewords.data.Length
    ensures row.Blocks().Data() <= |src| && row.Blocks().Total() <= codewords.data.Length
    ensures Checked(row.Blocks(), src, codewords.data[..], row.numBlocks)
    ensures DecodeText(BitsOf(src)[..8 * row.Blocks().Data()], version) == Some(text) <==> Fits(text, version, row)
  {
    hide TextBits, Padding, BitsOf, Holds, DecodeText, Checked;
    row.Sizes();
    var capacityBytes := (row.moduleCount + 7) / 8;
    codewords := new BitBucket(0, capacityBytes);
    ghost var room := 8 * capacityBytes;
    ghost var t := TextBits(text, version);
    EmptyHolds(codewords);
    mode := EncodeDataCodewords(codewords, text, version, room);
    PadCodewords(codewords, row.DataCapacity(), t, room - |t|);
    src := codewords.data[..];
    ghost var padding := Padding(|t|, row.DataCapacity());
    HoldsPrefix(codewords, t + padding, room - |t| - |padding|, src);
    CapacityRead(text, version, row, src);
    var bits := PerformErrorCorrection(row.moduleCount, row.totalEcc, row.numBlocks, codewords.data);
    codewords.bitOffsetOrWidth := bits;
  }

  /** What the first bytes of the buffer say. */
  lemma CapacityRead(text: Text, version: nat, row: Row, src: seq<bv8>)
    requires row.Valid(version) && 8 * row.Blocks().Data() <= |BitsOf(src)|
    requires var t := TextBits(text, version);
             row.DataCapacity() >= 0 && t + Padding(|t|, row.DataCapacity()) <= BitsOf(src)
    ensures DecodeText(BitsOf(src)[..8 * row.Blocks().Data()], version) == Some(text) <==> Fits(text, version, row)
  {
    hide TextBits, Padding, BitsOf, DecodeText;
    row.Sizes();
    var t := TextBits(text, version);
    var bits := BitsOf(src)[..8 * row.DataCapacity()];
    PrefixOf(t, Padding(|t|, row.DataCapacity()), BitsOf(src), 8 * row.DataCapacity());
    RecoveredIff(text, version, row.DataCapacity(), bits);
  }

  lemma PrefixOf(t: seq<bool>, p: seq<bool>, all: seq<bool>, n: nat)
    requires t + p <= all && n <= |all|
    ensures if |t| <= n then t <= all[..n] else all[..n] <= t
  {
    assert all[..|t|] == (t + p)[..|t|] == t;
  }

  lemma EmptyHolds(b: BitBucket)
    requires b.bitOffsetOrWidth == 0 && forall i :: 0 <= i < |b.Bits()| ==> !b.Bits()[i]
    ensures Holds(b, [], 8 * b.data.Length)
  {
  }

  lemma HoldsPrefix(b: BitBucket, bits: seq<bool>, room: nat, src: seq<bv8>)
    requires Holds(b, bits, room) && src == b.data[..]
    ensures |bits| <= |BitsOf(src)| && BitsOf(src)[..|bits|] == bits
  {
  }

  /** The finished symbol: the code bits drawn over the function patterns, format bits that
      name the mask, and the first mask with the least penalty. */
  ghost predicate Finished(size: int, patterns: seq<bool>, symbol: seq<bool>, isFunction: seq<bool>, ecc: bv32, mask: nat)
  {
    Grid(size, isFunction) && mask < 8 &&
    exists code, drawn ::
      && Grid(size, drawn) && Drawn(size, patterns, drawn, isFunction, code)
      && symbol == Symbol(size, drawn, isFunction, ecc, mask)
      && Best(size, drawn, isFunction, ecc, mask, 8)
  }

  /** qrcode_initBytes from the encoding of the text on; the function patterns are already drawn. */
  method InitBytes(modules: BitBucket, isFunction: BitBucket, text: Text, version: nat, ecc: bv32, row: Row)
    returns (mode: Mode, mask: nat)
    requires row.Valid(version) && InBuffer(text, version, row) && ecc < 4
    requires modules.bitOffsetOrWidth == isFunction.bitOffsetOrWidth == 4 * version + 17
    requires modules.data != isFunction.data
    requires Grid(modules.bitOffsetOrWidth, modules.Bits()) && Grid(modules.bitOffsetOrWidth, isFunction.Bits())
    requires FormatReserved(modules.bitOffsetOrWidth, isFunction.Bits())
    requires row.moduleCount <=
             |ReadFree(modules.bitOffsetOrWidth, modules.Bits(), isFunction.Bits(), Steps(modules.bitOffsetOrWidth))|
    modifies modules.data, isFunction.data
    ensures mode == ModeOf(text) && isFunction.Bits() == old(isFunction.Bits())
    ensures Grid(modules.bitOffsetOrWidth, modules.Bits())
    ensures Finished(modules.bitOffsetOrWidth, old(modules.Bits()), modules.Bits(), isFunction.Bits(), ecc, mask)
    ensures Shows(modules.bitOffsetOrWidth, modules.Bits(), isFunction.Bits(), row.Blocks())
    ensures AllCodewords(row.Blocks(), ReadWords(modules.bitOffsetOrWidth, modules.Bits(), isFunction.Bits(), row.Blocks()))
    ensures ReadSymbol(modules.bitOffsetOrWidth, modules.Bits(), isFunction.Bits(), row.Blocks(), version) == Some(text)
            <==> Fits(text, version, row)
  {
    hide Drawn, Symbol, Best, Checked, FormatReserved, ReadFree, Steps, ReadSymbol, DecodeText, TextBits, BitsOf, Finished,
      InBuffer, Fits, Shows, AllCodewords, ReadWords;
    var size := modules.bitOffsetOrWidth;
    ghost var patterns, fn := modules.Bits(), isFunction.Bits();
    var codewords;
    ghost var src;
    codewords, mode, src := BuildCodewords(text, version, row);
    ghost var out, code := codewords.data[..], codewords.Bits()[..row.moduleCount];
    DrawCodewords(modules, isFunction, codewords);
    ghost var drawn := modules.Bits();
    mask := ChooseMask(modules, isFunction, ecc);
    FinishedIntro(size, patterns, drawn, modules.Bits(), fn, ecc, mask, code);
    ReadsBack(size, patterns, drawn, fn, ecc, mask, code, row, version, src, out);
    CheckedCodewords(row.Blocks(), src, out);
  }

  lemma FinishedIntro(size: int, patterns: seq<bool>, drawn: seq<bool>, symbol: seq<bool>, isFunction: seq<bool>,
                      ecc: bv32, mask: nat, code: seq<bool>)
    requires Grid(size, drawn) && Grid(size, isFunction) && mask < 8
    requires Drawn(size, patterns, drawn, isFunction, code)
    requires symbol == Symbol(size, drawn, isFunction, ecc, mask) && Best(size, drawn, isFunction, ecc, mask, 8)
    ensures Finished(size, patterns, symbol, isFunction, ecc, mask) && Grid(size, symbol)
  {
    hide Drawn, Best, Symbol;
  }

  /** The whole way back: mask, scan, de-interleaving, payload. */
  lemma ReadsBack(size: int, patterns: seq<bool>, drawn: seq<bool>, isFunction: seq<bool>, ecc: bv32, mask: nat,
                  code: seq<bool>, row: Row, version: nat, src: seq<bv8>, out: seq<bv8>)
    requires size >= 21 && Grid(size, patterns) && Grid(size, drawn) && Grid(size, isFunction) && mask < 8 && ecc < 4
    requires FormatReserved(size, isFunction) && row.Valid(version)
    requires Drawn(size, patterns, drawn, isFunction, code)
    requires |code| == row.moduleCount <= |ReadFree(size, patterns, isFunction, Steps(size))|
    requires row.Blocks().Data() <= |src| && row.Blocks().Total() <= |out|
    requires Checked(row.Blocks(), src, out, row.numBlocks)
    requires row.moduleCount <= 8 * |out| && code == BitsOf(out)[..row.moduleCount]
    ensures var symbol := Symbol(size, drawn, isFunction, ecc, mask); var l := row.Blocks();
            && Grid(size, symbol)
            && Shows(size, symbol, isFunction, l)
            && ReadWords(size, symbol, isFunction, l) == out[..l.Total()]
            && ReadSymbol(size, symbol, isFunction, l, version) == DecodeText(BitsOf(src)[..8 * l.Data()], version)
  {
    row.Sizes();
    var l := row.Blocks();
    ReadBack(size, patterns, drawn, isFunction, code);
    ReadCodeBack(size, drawn, isFunction, ecc, mask);
    CheckedWords(l, src, out);
    hide Drawn, Symbol, Checked, FormatReserved, ReadFree, Steps, DecodeText, BitsOf, ReadCode, DataBits, Word, Grid,
      Layout.Data, Layout.Total, LayoutOf, WordsOf;
    var seen := ReadCode(size, Symbol(size, drawn, isFunction, ecc, mask), isFunction);
    assert forall j :: 0 <= j < 8 * l.Total() ==> seen[j] == code[j];
    DataBitsBack(l, src, out, seen);
    WordsBack(out, l.Total(), seen);
  }

  lemma CheckedWords(l: Layout, src: seq<bv8>, out: seq<bv8>)
    requires l.Valid() && l.Data() <= |src| && Checked(l, src, out, l.blocks)
    ensures l.Data() <= |out| && forall n :: 0 <= n < l.Data() ==> out[n] == Word(l, src, n)
  {
    hide Word;
  }

  /** The finished symbol of a text that fits carries it, in the sense in which damage can be repaired. */
  lemma FittingCarries(size: int, symbol: seq<bool>, isFunction: seq<bool>, row: Row, version: nat, text: Text)
    requires size >= 21 && Grid(size, symbol) && Grid(size, isFunction) && row.Valid(version)
    requires Shows(size, symbol, isFunction, row.Blocks())
    requires AllCodewords(row.Blocks(), ReadWords(size, symbol, isFunction, row.Blocks()))
    requires ReadSymbol(size, symbol, isFunction, row.Blocks(), version) == Some(text) <==> Fits(text, version, row)
    ensures Carries(size, symbol, isFunction, row.Blocks(), version, text) <==> Fits(text, version, row)
  {
    hide Grid, Shows, AllCodewords, ReadWords, ReadSymbol, Fits;
  }
}
