/** A reader that recovers the text from a finished symbol: mask number, unmasked modules in scan order,
    de-interleaved data, payload. */
module QrReader {
  import opened Options
  import opened Arith
  import opened BitBuckets
  import opened QrText
  import opened QrBlocks
  import opened QrZigzag
  import opened QrMask
  import opened QrMaskChoice

  // ----- reading the mask number

  predicate FormatModule(size: int, symbol: seq<bool>, i: nat)
    requires size >= 21 && Grid(size, symbol) && 9 <= i < 15
  {
    RowMajor(8, 14 - i, size, size);
    symbol[8 * size + (14 - i)]
  }

  /** The mask number is in format bits 10 to 12, two of which are stored inverted. */
  function ReadMask(size: int, symbol: seq<bool>): (mask: nat)
    requires size >= 21 && Grid(size, symbol)
    ensures mask < 8
  {
    (if FormatModule(size, symbol, 10) then 0 else 1)
    + (if FormatModule(size, symbol, 11) then 2 else 0)
    + (if FormatModule(size, symbol, 12) then 0 else 4)
  }

  lemma DivideBound(rem: bv32)
    requires rem < 1024
    ensures DivideOnce(rem) < 1024
  {
  }

  lemma {:induction false} RemainderBound(data: bv32, n: nat)
    requires data < 1024
    ensures FormatRemainder(data, n) < 1024
  {
    if n > 0 {
      RemainderBound(data, n - 1);
      DivideBound(FormatRemainder(data, n - 1));
    }
  }

  lemma JoinShowsMask(ecc: bv32, mask: bv32, rem: bv32)
    requires ecc < 4 && mask < 8 && rem < 1024
    ensures FormatData(ecc, mask) < 32
    ensures var w := FormatJoin(FormatData(ecc, mask), rem);
            && WordBit(w, 10) == (mask & 1 == 0) && WordBit(w, 11) == (mask & 2 != 0) && WordBit(w, 12) == (mask & 4 == 0)
  {
  }

  lemma MaskBits(mask: nat)
    requires mask < 8
    ensures mask as bv32 < 8
    ensures mask == (if mask as bv32 & 1 == 0 then 0 else 1) + (if mask as bv32 & 2 != 0 then 2 else 0)
                    + (if mask as bv32 & 4 == 0 then 0 else 4)
  {
    assert mask == 0 || mask == 1 || mask == 2 || mask == 3 || mask == 4 || mask == 5 || mask == 6 || mask == 7;
  }

  lemma FormatModuleShows(size: int, drawn: seq<bool>, isFunction: seq<bool>, ecc: bv32, mask: nat, i: nat)
    requires size >= 21 && Grid(size, drawn) && Grid(size, isFunction) && mask < 8 && 9 <= i < 15
    requires FormatReserved(size, isFunction)
    ensures Grid(size, Symbol(size, drawn, isFunction, ecc, mask))
    ensures FormatModule(size, Symbol(size, drawn, isFunction, ecc, mask), i) == WordBit(FormatWord(ecc, mask as bv32), i)
  {
    FormatPlaceInRow8(size, i);
    var p := 8 * size + (14 - i);
    var word := FormatWord(ecc, mask as bv32);
    FormatColourAt(size, drawn, isFunction, word, p, i);
    NotFlipped(size, isFunction, mask, p);
    hide FormatWord, WordBit, FlipsAt, FormatAt, WithFormat;
  }

  lemma FormatColourAt(size: int, drawn: seq<bool>, isFunction: seq<bool>, word: bv32, p: nat, i: nat)
    requires size >= 21 && Grid(size, drawn) && Grid(size, isFunction) && FormatReserved(size, isFunction)
    requires p < size * size && FormatAt(size, p) == i < 15
    ensures WithFormat(size, drawn, word)[p] == WordBit(word, i) && isFunction[p]
  {
    hide FormatAt, WordBit;
    assert isFunction[p] == FormatMarked(size, isFunction, 31)[p];
  }

  lemma NotFlipped(size: int, isFunction: seq<bool>, mask: nat, p: nat)
    requires Grid(size, isFunction) && p < size * size && isFunction[p]
    ensures !FlipsAt(size, isFunction, mask, p)
  {
  }

  lemma FormatPlaceInRow8(size: int, i: nat)
    requires size >= 21 && 9 <= i < 15
    ensures 0 <= 8 * size + (14 - i) < size * size && FormatAt(size, 8 * size + (14 - i)) == i
  {
    RowMajor(8, 14 - i, size, size);
  }

  lemma ReadMaskBack(size: int, drawn: seq<bool>, isFunction: seq<bool>, ecc: bv32, mask: nat)
    requires size >= 21 && Grid(size, drawn) && Grid(size, isFunction) && mask < 8 && ecc < 4
    requires FormatReserved(size, isFunction)
    ensures Grid(size, Symbol(size, drawn, isFunction, ecc, mask))
    ensures ReadMask(size, Symbol(size, drawn, isFunction, ecc, mask)) == mask
  {
    FormatModuleShows(size, drawn, isFunction, ecc, mask, 10);
    FormatModuleShows(size, drawn, isFunction, ecc, mask, 11);
    FormatModuleShows(size, drawn, isFunction, ecc, mask, 12);
    MaskBits(mask);
    JoinShowsMask(ecc, mask as bv32, 0);
    RemainderBound(FormatData(ecc, mask as bv32), 10);
    JoinShowsMask(ecc, mask as bv32, FormatRemainder(FormatData(ecc, mask as bv32), 10));
    hide Symbol, FormatModule, WordBit, FormatJoin, FormatData, FormatRemainder, Grid;
  }

  // ----- reading the codewords

  /** The scan sees only modules that are not function modules. */
  lemma {:induction false} ReadAgree(size: int, a: seq<bool>, b: seq<bool>, isFunction: seq<bool>, k: nat)
    requires Grid(size, a) && Grid(size, b) && Grid(size, isFunction) && k <= Steps(size)
    requires forall p :: 0 <= p < size * size && !isFunction[p] ==> a[p] == b[p]
    ensures ReadFree(size, a, isFunction, k) == ReadFree(size, b, isFunction, k)
  {
    hide PlaceAt, Steps;
    if k > 0 {
      ReadAgree(size, a, b, isFunction, k - 1);
      PlaceInRange(size, k - 1);
    }
  }

  /** What the unmasked symbol shows along the scan. */
  function ReadCode(size: int, symbol: seq<bool>, isFunction: seq<bool>): seq<bool>
    requires size >= 21 && Grid(size, symbol) && Grid(size, isFunction)
  {
    ReadFree(size, Masked(size, symbol, isFunction, ReadMask(size, symbol)), isFunction, Steps(size))
  }

  lemma ReadCodeBack(size: int, drawn: seq<bool>, isFunction: seq<bool>, ecc: bv32, mask: nat)
    requires size >= 21 && Grid(size, drawn) && Grid(size, isFunction) && mask < 8 && ecc < 4
    requires FormatReserved(size, isFunction)
    ensures Grid(size, Symbol(size, drawn, isFunction, ecc, mask))
    ensures ReadCode(size, Symbol(size, drawn, isFunction, ecc, mask), isFunction)
         == ReadFree(size, drawn, isFunction, Steps(size))
  {
    ReadMaskBack(size, drawn, isFunction, ecc, mask);
    UndoSymbol(size, drawn, isFunction, ecc, mask);
    var word := FormatWord(ecc, mask as bv32);
    assert forall p :: 0 <= p < size * size && !isFunction[p] ==> WithFormat(size, drawn, word)[p] == drawn[p] by {
      hide FormatAt, FormatColour, FormatWord;
      assert forall p :: 0 <= p < size * size ==> isFunction[p] == FormatMarked(size, isFunction, 31)[p];
    }
    hide Symbol, FormatWord, WithFormat, Masked, ReadFree, Steps, ReadMask;
    ReadAgree(size, WithFormat(size, drawn, word), drawn, isFunction, Steps(size));
  }

  /** The data bits, put back in order. */
  function DataBits(l: Layout, code: seq<bool>): (bits: seq<bool>)
    requires l.Valid() && 8 * l.Data() <= |code|
    ensures |bits| == 8 * l.Data()
  {
    seq(8 * l.Data(), j requires 0 <= j < 8 * l.Data() => code[8 * Destination(l, j / 8) + j % 8])
  }

  /** The reader: None when the symbol is too small or the payload is malformed. */
  function ReadSymbol(size: int, symbol: seq<bool>, isFunction: seq<bool>, l: Layout, version: nat): Option<Text>
    requires size >= 21 && Grid(size, symbol) && Grid(size, isFunction) && l.Valid()
  {
    var code := ReadCode(size, symbol, isFunction);
    if |code| < 8 * l.Data() then None else DecodeText(DataBits(l, code), version)
  }

  /** De-interleaving the bits of the interleaved codewords gives the bits of the data. */
  lemma DataBitsBack(l: Layout, src: seq<bv8>, out: seq<bv8>, code: seq<bool>)
    requires l.Valid() && l.Data() <= |src| && l.Data() <= |out|
    requires forall n :: 0 <= n < l.Data() ==> out[n] == Word(l, src, n)
    requires 8 * l.Data() <= |code| && forall j :: 0 <= j < 8 * l.Data() ==> code[j] == BitsOf(out)[j]
    ensures DataBits(l, code) == BitsOf(src)[..8 * l.Data()]
  {
    forall j | 0 <= j < 8 * l.Data()
      ensures DataBits(l, code)[j] == BitsOf(src)[j]
    {
      DataBitAt(l, src, out, code, j);
    }
    hide Word, Bit, BitsOf, DataBits;
    assert DataBits(l, code) == BitsOf(src)[..8 * l.Data()];
  }

  lemma DataBitAt(l: Layout, src: seq<bv8>, out: seq<bv8>, code: seq<bool>, j: nat)
    requires l.Valid() && l.Data() <= |src| && l.Data() <= |out|
    requires forall n :: 0 <= n < l.Data() ==> out[n] == Word(l, src, n)
    requires 8 * l.Data() <= |code| && forall i :: 0 <= i < 8 * l.Data() ==> code[i] == BitsOf(out)[i]
    requires j < 8 * l.Data()
    ensures DataBits(l, code)[j] == BitsOf(src)[j]
  {
    hide Word, Bit, Destination, Layout.Valid, Layout.Data, BitsOf;
    DataArrives(l, src, out, j / 8);
    DataBitFrom(l, code, j);
    BitOfByte(out, Destination(l, j / 8), j % 8);
    BitOfByte(src, j / 8, j % 8);
  }

  lemma DataBitFrom(l: Layout, code: seq<bool>, j: nat)
    requires l.Valid() && 8 * l.Data() <= |code| && j < 8 * l.Data()
    ensures DataBits(l, code)[j] == code[8 * Destination(l, j / 8) + j % 8]
  {
    hide Destination, Layout.Valid, Layout.Data;
  }

  lemma BitOfByte(bytes: seq<bv8>, i: nat, k: nat)
    requires i < |bytes| && k < 8
    ensures 8 * i + k < |BitsOf(bytes)| && BitsOf(bytes)[8 * i + k] == Bit(bytes[i], k)
  {
    hide Bit;
    assert (8 * i + k) / 8 == i && (8 * i + k) % 8 == k;
  }
}
