/** What a damaged symbol still says: the codewords it shows, and the only text that they can have come from. */
module QrRecovery {
  import opened Options
  import opened BitBuckets
  import opened Arith
  import opened Poly
  import opened ReedSolomon
  import opened RsCoder
  import opened QrText
  import opened QrBlocks
  import opened QrZigzag
  import opened QrReader

  // ----- bytes from bits

  /** The byte with these bits, the most significant one first. */
  function ByteOf(bits: seq<bool>, n: nat): bv8
    requires n <= |bits| == 8
  {
    if n == 0 then 0
    else if bits[n - 1] then SetMask(ByteOf(bits, n - 1), n - 1)
    else ByteOf(bits, n - 1)
  }

  lemma {:induction false} BitOfByteOf(bits: seq<bool>, n: nat, k: nat)
    requires n <= |bits| == 8 && k < 8
    ensures Bit(ByteOf(bits, n), k) == (k < n && bits[k])
  {
    hide Bit, SetMask;
    if n == 0 {
      NoBits(k);
    } else {
      BitOfByteOf(bits, n - 1, k);
      BitSet(ByteOf(bits, n - 1), n - 1, k);
    }
  }

  /** The first n bytes that a bit string shows. */
  function WordsOf(bits: seq<bool>, n: nat): (words: seq<bv8>)
    requires 8 * n <= |bits|
    ensures |words| == n
  {
    seq(n, i requires 0 <= i < n => ByteOf(bits[8 * i..8 * i + 8], 8))
  }

  /** Bytes are read back from their bits. */
  lemma WordsBack(bytes: seq<bv8>, n: nat, bits: seq<bool>)
    requires n <= |bytes| && 8 * n <= |bits| && forall j :: 0 <= j < 8 * n ==> bits[j] == BitsOf(bytes)[j]
    ensures WordsOf(bits, n) == bytes[..n]
  {
    hide ByteOf, BitsOf, Bit;
    forall i | 0 <= i < n ensures ByteOf(bits[8 * i..8 * i + 8], 8) == bytes[i] {
      var b := bits[8 * i..8 * i + 8];
      forall k | 0 <= k < 8 ensures Bit(ByteOf(b, 8), k) == Bit(bytes[i], k) {
        BitOfByteOf(b, 8, k);
        BitOfByte(bytes, i, k);
      }
      SameBits(ByteOf(b, 8), bytes[i]);
    }
  }

  // ----- words and blocks

  /** Every block of these interleaved words, read column by column, is a codeword. */
  predicate AllCodewords(l: Layout, words: seq<bv8>)
    requires l.Valid()
  {
    |words| == l.Total() && forall b {:trigger Deinterleaved(l, words, b)} :: 0 <= b < l.blocks ==> IsCodeword(l.ecc, Deinterleaved(l, words, b))
  }

  /** In no block do more than half as many words differ as it has check words. */
  predicate Near(l: Layout, a: seq<bv8>, b: seq<bv8>)
    requires l.Valid()
  {
    |a| == |b| == l.Total() &&
    forall n {:trigger Deinterleaved(l, a, n)} :: 0 <= n < l.blocks ==>
      2 * Weight(Plus(Deinterleaved(l, a, n), Deinterleaved(l, b, n))) <= l.ecc
  }

  /** Words whose blocks are equal are equal. */
  lemma SameBlocks(l: Layout, a: seq<bv8>, b: seq<bv8>)
    requires l.Valid() && |a| == |b| == l.Total()
    requires forall n {:trigger Deinterleaved(l, a, n)} :: 0 <= n < l.blocks ==> Deinterleaved(l, a, n) == Deinterleaved(l, b, n)
    ensures a == b
  {
    hide Layout.Valid, Layout.Total, Layout.Data, Deinterleaved;
    forall p | 0 <= p < |a| ensures a[p] == b[p] {
      if p < l.Data() { SameDataWord(l, a, b, p); } else { SameCheckWord(l, a, b, p); }
    }
  }

  lemma SameParts(l: Layout, a: seq<bv8>, b: seq<bv8>, n: nat)
    requires l.Valid() && |a| == |b| == l.Total() && n < l.blocks
    requires Deinterleaved(l, a, n) == Deinterleaved(l, b, n)
    ensures DataColumn(l, a, n) == DataColumn(l, b, n) && Register(l, a, n) == Register(l, b, n)
  {
    hide Layout.Valid, Layout.Total, DataColumn, Register;
    var m := |DataColumn(l, a, n)|;
    assert Deinterleaved(l, a, n)[..m] == DataColumn(l, a, n) && Deinterleaved(l, b, n)[..m] == DataColumn(l, b, n);
    assert Deinterleaved(l, a, n)[m..] == Register(l, a, n) && Deinterleaved(l, b, n)[m..] == Register(l, b, n);
  }

  lemma SameDataWord(l: Layout, a: seq<bv8>, b: seq<bv8>, p: nat)
    requires l.Valid() && |a| == |b| == l.Total() && p < l.Data()
    requires forall n {:trigger Deinterleaved(l, a, n)} :: 0 <= n < l.blocks ==> Deinterleaved(l, a, n) == Deinterleaved(l, b, n)
    ensures a[p] == b[p]
  {
    l.OwnerSlot(p);
    hide Layout.Valid, Layout.Total, Layout.Data, Layout.Owner, Layout.Slot, Layout.Len, Deinterleaved;
    var (n, i) := l.Owner(p);
    assert Deinterleaved(l, a, n) == Deinterleaved(l, b, n);
    SameParts(l, a, b, n);
    assert DataColumn(l, a, n)[i] == a[l.Slot(n, i)] && DataColumn(l, b, n)[i] == b[l.Slot(n, i)];
  }

  lemma SameCheckWord(l: Layout, a: seq<bv8>, b: seq<bv8>, p: nat)
    requires l.Valid() && |a| == |b| == l.Total() && l.Data() <= p < l.Total()
    requires forall n {:trigger Deinterleaved(l, a, n)} :: 0 <= n < l.blocks ==> Deinterleaved(l, a, n) == Deinterleaved(l, b, n)
    ensures a[p] == b[p]
  {
    CheckPlace(l, p);
    hide Layout.Valid, Layout.Total, Layout.Data, Deinterleaved, Cell;
    var n, t := (p - l.Data()) % l.blocks, (p - l.Data()) / l.blocks;
    assert Deinterleaved(l, a, n) == Deinterleaved(l, b, n);
    SameParts(l, a, b, n);
    CheckCellsFit(l, n);
    assert Register(l, a, n)[t] == a[p] && Register(l, b, n)[t] == b[p];
  }

  lemma CheckPlace(l: Layout, p: nat)
    requires l.Valid() && l.Data() <= p < l.Total()
    ensures var n, t := (p - l.Data()) % l.blocks, (p - l.Data()) / l.blocks;
            0 <= n < l.blocks && 0 <= t < l.ecc && Cell(l.Data() + n, l.blocks, t) == p
  {
    DivModBounds(p - l.Data(), l.blocks, l.ecc);
  }

  /** The words that were interleaved are codewords in every block. */
  lemma CheckedCodewords(l: Layout, src: seq<bv8>, out: seq<bv8>)
    requires l.Valid() && l.Data() <= |src| && Checked(l, src, out, l.blocks)
    ensures AllCodewords(l, out[..l.Total()])
  {
    hide IsCodeword, Checks, Block;
    forall b | 0 <= b < l.blocks ensures IsCodeword(l.ecc, Deinterleaved(l, out[..l.Total()], b)) {
      DeinterleaveBlock(l, src, out, b);
      FirstWords(l, out, b);
    }
  }

  lemma FirstWords(l: Layout, out: seq<bv8>, b: nat)
    requires l.Valid() && b < l.blocks && l.Total() <= |out|
    ensures Deinterleaved(l, out[..l.Total()], b) == Deinterleaved(l, out, b)
  {
    hide Layout.Valid, Layout.Total, Layout.Data, Layout.Slot, Cell;
    var first := out[..l.Total()];
    SlotsInRange(l, l.Total(), b);
    CheckCellsFit(l, b);
    assert DataColumn(l, first, b) == DataColumn(l, out, b);
    assert Register(l, first, b) == Register(l, out, b);
  }

  /** Any words are near to at most one interleaving of codewords. */
  lemma UniqueWords(l: Layout, r: seq<bv8>, a: seq<bv8>, b: seq<bv8>)
    requires l.Valid() && AllCodewords(l, a) && AllCodewords(l, b) && Near(l, r, a) && Near(l, r, b)
    ensures a == b
  {
    forall n | 0 <= n < l.blocks ensures Deinterleaved(l, a, n) == Deinterleaved(l, b, n) {
      hide IsCodeword, Weight, Plus, Layout.Total;
      BlockLength(l, n);
      assert Deinterleaved(l, r, n) == Deinterleaved(l, r, n);
      UniqueCodeword(l.ecc, Deinterleaved(l, r, n), Deinterleaved(l, a, n), Deinterleaved(l, b, n));
    }
    SameBlocks(l, a, b);
  }

  lemma BlockLength(l: Layout, n: nat)
    requires l.Valid() && n < l.blocks
    ensures l.Len(n) + l.ecc <= 255
  {
  }

  // ----- symbols

  /** Is the symbol large enough for the layout? */
  predicate Shows(size: int, symbol: seq<bool>, isFunction: seq<bool>, l: Layout)
    requires size >= 21 && Grid(size, symbol) && Grid(size, isFunction) && l.Valid()
  {
    8 * l.Total() <= |ReadCode(size, symbol, isFunction)|
  }

  /** The codewords that a symbol shows, damaged or not. */
  function ReadWords(size: int, symbol: seq<bool>, isFunction: seq<bool>, l: Layout): (words: seq<bv8>)
    requires size >= 21 && Grid(size, symbol) && Grid(size, isFunction) && l.Valid()
    requires Shows(size, symbol, isFunction, l)
    ensures |words| == l.Total()
  {
    WordsOf(ReadCode(size, symbol, isFunction), l.Total())
  }

  function TextOf(l: Layout, words: seq<bv8>, version: nat): Option<Text>
    requires l.Valid() && |words| == l.Total()
  {
    DecodeText(DataBits(l, BitsOf(words)), version)
  }

  /** The reader with error correction: the text of the codewords nearby, if there are any. */
  ghost function Recover(l: Layout, seen: seq<bv8>, version: nat): Option<Text>
    requires l.Valid()
  {
    if words :| AllCodewords(l, words) && Near(l, seen, words) then TextOf(l, words, version) else None
  }

  lemma Recovered(l: Layout, seen: seq<bv8>, words: seq<bv8>, version: nat)
    requires l.Valid() && AllCodewords(l, words) && Near(l, seen, words)
    ensures Recover(l, seen, version) == TextOf(l, words, version)
  {
    hide AllCodewords, Near, Layout.Valid, Layout.Total, TextOf;
    forall other | AllCodewords(l, other) && Near(l, seen, other) ensures other == words {
      UniqueWords(l, seen, other, words);
    }
  }

  lemma {:induction false} BitsOfWords(bits: seq<bool>, n: nat, j: nat)
    requires 8 * n <= |bits| && j < 8 * n
    ensures BitsOf(WordsOf(bits, n))[j] == bits[j]
  {
    hide Bit, ByteOf, BitsOf;
    var i, k := j / 8, j % 8;
    BitOfByte(WordsOf(bits, n), i, k);
    BitOfByteOf(bits[8 * i..8 * i + 8], 8, k);
  }

  /** The text of the words that a symbol shows is the text that the plain reader finds. */
  lemma TextOfRead(size: int, symbol: seq<bool>, isFunction: seq<bool>, l: Layout, version: nat)
    requires size >= 21 && Grid(size, symbol) && Grid(size, isFunction) && l.Valid()
    requires Shows(size, symbol, isFunction, l)
    ensures TextOf(l, ReadWords(size, symbol, isFunction, l), version) == ReadSymbol(size, symbol, isFunction, l, version)
  {
    hide Grid, ReadCode, BitsOf, DecodeText, WordsOf, Layout.Valid, Layout.Data, Destination;
    var code := ReadCode(size, symbol, isFunction);
    var words := ReadWords(size, symbol, isFunction, l);
    forall j | 0 <= j < 8 * l.Data() ensures DataBits(l, BitsOf(words))[j] == DataBits(l, code)[j] {
      BitsOfWords(code, l.Total(), 8 * Destination(l, j / 8) + j % 8);
    }
    assert DataBits(l, BitsOf(words)) == DataBits(l, code);
  }

  /** A symbol that carries a text: codewords in every block, and the text in their data. */
  predicate Carries(size: int, symbol: seq<bool>, isFunction: seq<bool>, l: Layout, version: nat, text: Text)
    requires size >= 21 && Grid(size, symbol) && Grid(size, isFunction) && l.Valid()
  {
    && Shows(size, symbol, isFunction, l)
    && AllCodewords(l, ReadWords(size, symbol, isFunction, l))
    && ReadSymbol(size, symbol, isFunction, l, version) == Some(text)
  }

  /** Any symbol that differs in no block by more than half as many words as the block has check words has that
      text as its only decoding. */
  lemma DamagedRecovers(size: int, symbol: seq<bool>, damaged: seq<bool>, isFunction: seq<bool>, l: Layout,
                        version: nat, text: Text)
    requires size >= 21 && Grid(size, symbol) && Grid(size, damaged) && Grid(size, isFunction) && l.Valid()
    requires Carries(size, symbol, isFunction, l, version, text) && Shows(size, damaged, isFunction, l)
    requires Near(l, ReadWords(size, damaged, isFunction, l), ReadWords(size, symbol, isFunction, l))
    ensures Recover(l, ReadWords(size, damaged, isFunction, l), version) == Some(text)
  {
    hide Grid, Shows, AllCodewords, Near, ReadWords, ReadSymbol, Layout.Valid, Recover, TextOf;
    TextOfRead(size, symbol, isFunction, l, version);
    Recovered(l, ReadWords(size, damaged, isFunction, l), ReadWords(size, symbol, isFunction, l), version);
  }

  /** Symbols of different texts differ in some block by more words than it has check words. */
  lemma DifferentTexts(size: int, a: seq<bool>, b: seq<bool>, isFunction: seq<bool>, l: Layout, version: nat, s: Text, t: Text)
    requires size >= 21 && Grid(size, a) && Grid(size, b) && Grid(size, isFunction) && l.Valid() && s != t
    requires Carries(size, a, isFunction, l, version, s) && Carries(size, b, isFunction, l, version, t)
    ensures exists n :: 0 <= n < l.blocks &&
              Weight(Plus(Deinterleaved(l, ReadWords(size, a, isFunction, l), n),
                          Deinterleaved(l, ReadWords(size, b, isFunction, l), n))) > l.ecc
  {
    var v, w := ReadWords(size, a, isFunction, l), ReadWords(size, b, isFunction, l);
    TextOfRead(size, a, isFunction, l, version);
    TextOfRead(size, b, isFunction, l, version);
    hide Grid, Shows, ReadWords, ReadSymbol, TextOf, IsCodeword, Weight, Plus;
    if forall n {:trigger Deinterleaved(l, v, n)} :: 0 <= n < l.blocks ==> Deinterleaved(l, v, n) == Deinterleaved(l, w, n) {
      SameBlocks(l, v, w);
    } else {
      var n :| 0 <= n < l.blocks && Deinterleaved(l, v, n) != Deinterleaved(l, w, n);
      BlockLength(l, n);
      MinimumDistance(l.ecc, Deinterleaved(l, v, n), Deinterleaved(l, w, n));
    }
  }
}
