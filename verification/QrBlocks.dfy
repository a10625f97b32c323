/** Splitting the data codewords into blocks, computing every block's check words and
    interleaving the lot (clause 7.6 of ISO/IEC 18004:2015). */
module QrBlocks {
  import opened Poly
  import opened ReedSolomon
  import opened RsCoder
  import opened Arith

  /** `blocks` blocks, the first `short` of them with `len` data words, the others with one
      more; every block has `ecc` check words. */
  datatype Layout = Layout(blocks: nat, short: nat, len: nat, ecc: nat) {
    predicate Valid() {
      0 < short <= blocks && 0 < len && 0 < ecc && len + 1 + ecc <= 255
    }

    /** Where block b begins in the data. */
    function Start(b: nat): nat { b * len + if b > short then b - short else 0 }

    function Len(b: nat): nat { len + if b >= short then 1 else 0 }

    /** All data words. */
    function Data(): nat { Start(blocks) }

    /** Data and check words together. */
    function Total(): (t: nat)
      ensures t >= Data()
    {
      MulAtLeast(0, blocks, ecc);
      Data() + blocks * ecc
    }

    /** Where word i of block b goes. */
    function Slot(b: nat, i: nat): int {
      if i < len then i * blocks + b else len * blocks + b - short
    }

    /** The block whose word ends up at place n, and the word's number in it. */
    function Owner(n: nat): (int, int)
      requires Valid() && n < Data()
    {
      if n < len * blocks then (n % blocks, n / blocks) else (short + n - len * blocks, len)
    }

    /** The block that holds the data word m, and the word's number in it. */
    function Home(m: nat): (int, int)
      requires Valid() && m < Data()
    {
      if m < short * len then (m / len, m % len)
      else var k := m - short * len; (short + k / (len + 1), k % (len + 1))
    }

    lemma StartFirst()
      ensures Start(0) == 0
    {
    }

    lemma StartNext(b: nat)
      ensures Start(b + 1) == Start(b) + Len(b)
    {
      assert (b + 1) * len == b * len + len;
    }

    lemma {:induction false} StartMonotone(b: nat, c: nat)
      requires b <= c
      ensures Start(b) <= Start(c)
      decreases c
    {
      if b < c {
        StartMonotone(b, c - 1);
        StartNext(c - 1);
      }
    }

    lemma InData(b: nat, i: nat)
      requires Valid() && b < blocks && i < Len(b)
      ensures Start(b) + i < Data()
    {
      StartNext(b);
      StartMonotone(b + 1, blocks);
    }

    lemma DataSize()
      requires Valid()
      ensures Data() == len * blocks + (blocks - short)
    {
    }

    /** Slot and Owner are each other's inverse. */
    lemma SlotOwner(b: nat, i: nat)
      requires Valid() && b < blocks && i < Len(b)
      ensures 0 <= Slot(b, i) < Data() && Owner(Slot(b, i)) == (b, i)
    {
      DataSize();
      if i < len {
        RowMajor(i, b, len, blocks);
      }
    }

    lemma OwnerSlot(n: nat)
      requires Valid() && n < Data()
      ensures var (b, i) := Owner(n); 0 <= b < blocks && 0 <= i < Len(b) && Slot(b, i) == n
    {
      DataSize();
      DivModBounds(n, blocks, len);
    }

    /** The words stand in the order of their numbers, and words of one number in the order of their blocks. */
    lemma SlotOrder(b: nat, i: nat, c: nat, j: nat)
      requires Valid() && b < blocks && i < Len(b) && c < blocks && j < Len(c)
      ensures Slot(b, i) < Slot(c, j) <==> i < j || (i == j && b < c)
    {
      RowBefore(i, b, j, c, blocks);
      if i < len { RowMajor(i, b, len, blocks); }
      if j < len { RowMajor(j, c, len, blocks); }
    }

    /** So do the check words behind them. */
    lemma CheckOrder(b: nat, t: nat, c: nat, u: nat)
      requires Valid() && b < blocks && t < ecc && c < blocks && u < ecc
      ensures Data() <= Cell(Data() + b, blocks, t) < Total()
      ensures Cell(Data() + b, blocks, t) < Cell(Data() + c, blocks, u) <==> t < u || (t == u && b < c)
    {
      RowBefore(t, b, u, c, blocks);
      RowMajor(t, b, ecc, blocks);
      assert ecc * blocks == blocks * ecc;
    }

    /** Home finds the place of a data word, and only that one. */
    lemma HomeStart(m: nat)
      requires Valid() && m < Data()
      ensures var (b, i) := Home(m); 0 <= b < blocks && 0 <= i < Len(b) && Start(b) + i == m
    {
      DataSize();
      if m < short * len {
        DivModBounds(m, len, short);
      } else {
        var k := m - short * len;
        DivModBounds(k, len + 1, blocks - short);
        Distribute(k / (len + 1));
        Distribute(blocks - short);
      }
    }

    lemma Distribute(c: nat)
      ensures (short + c) * len + c == short * len + c * (len + 1)
    {
    }

    lemma StartHome(b: nat, i: nat)
      requires Valid() && b < blocks && i < Len(b)
      ensures Start(b) + i < Data() && Home(Start(b) + i) == (b, i)
    {
      InData(b, i);
      if b < short {
        RowMajor(b, i, short, len);
      } else {
        var c := b - short;
        Distribute(c);
        RowMajor(c, i, blocks - short, len + 1);
      }
    }
  }

  lemma RowBefore(i: nat, b: nat, j: nat, c: nat, n: nat)
    requires b < n && c < n
    ensures i * n + b < j * n + c <==> i < j || (i == j && b < c)
  {
    if i < j { MulAtLeast(i + 1, j, n); }
    if j < i { MulAtLeast(j + 1, i, n); }
  }

  // ----- the specification: where every word ends up

  function Block(l: Layout, src: seq<bv8>, b: nat): (d: Poly)
    requires l.Valid() && b < l.blocks && l.Data() <= |src|
    ensures |d| == l.Len(b)
    ensures forall i :: 0 <= i < l.Len(b) ==> l.Start(b) + i < |src| && d[i] == src[l.Start(b) + i]
  {
    l.InData(b, l.Len(b) - 1);
    src[l.Start(b)..l.Start(b) + l.Len(b)]
  }

  function Checks(l: Layout, src: seq<bv8>, b: nat): (c: Poly)
    requires l.Valid() && b < l.blocks && l.Data() <= |src|
    ensures |c| == l.ecc
  {
    Remainder(Taps(l.ecc), Block(l, src, b))
  }

  /** The data words of block b, read out of the interleaved buffer. */
  function DataColumn(l: Layout, out: seq<bv8>, b: nat): (w: Poly)
    requires l.Valid() && b < l.blocks && l.Total() <= |out|
    ensures |w| == l.Len(b)
    ensures forall i :: 0 <= i < l.Len(b) ==> 0 <= l.Slot(b, i) < |out| && w[i] == out[l.Slot(b, i)]
  {
    SlotsInRange(l, |out|, b);
    seq(l.Len(b), i requires 0 <= i < l.Len(b) => out[l.Slot(b, i)])
  }

  lemma SlotsInRange(l: Layout, size: nat, b: nat)
    requires l.Valid() && b < l.blocks && l.Total() <= size
    ensures forall i :: 0 <= i < l.Len(b) ==> 0 <= l.Slot(b, i) < size
  {
    forall i | 0 <= i < l.Len(b)
      ensures 0 <= l.Slot(b, i) < size
    {
      l.SlotOwner(b, i);
    }
  }

  /** Block b and its check words, read out of the interleaved buffer. */
  function Deinterleaved(l: Layout, out: seq<bv8>, b: nat): (w: Poly)
    requires l.Valid() && b < l.blocks && l.Total() <= |out|
  {
    DataColumn(l, out, b) + Register(l, out, b)
  }

  lemma CheckCellsFit(l: Layout, b: nat)
    requires l.Valid() && b < l.blocks
    ensures Fits(l.Total(), l.Data() + b, l.blocks, l.ecc)
  {
    forall t: nat {:trigger Cell(l.Data() + b, l.blocks, t)} | t < l.ecc
      ensures Cell(l.Data() + b, l.blocks, t) < l.Total()
    {
      RowMajor(t, b, l.ecc, l.blocks);
    }
  }

  /** The data word that belongs at place n. */
  function Word(l: Layout, src: seq<bv8>, n: nat): bv8
    requires l.Valid() && n < l.Data() <= |src|
  {
    l.OwnerSlot(n);
    var (b, i) := l.Owner(n);
    l.InData(b, i);
    src[l.Start(b) + i]
  }

  lemma WordAt(l: Layout, src: seq<bv8>, b: nat, i: nat)
    requires l.Valid() && b < l.blocks && i < l.Len(b) && l.Data() <= |src|
    ensures 0 <= l.Slot(b, i) < l.Data() && l.Start(b) + i < l.Data()
    ensures Word(l, src, l.Slot(b, i)) == src[l.Start(b) + i]
  {
    l.SlotOwner(b, i);
    l.InData(b, i);
  }

  // ----- performErrorCorrection

  predicate Filled(l: Layout, src: seq<bv8>, out: seq<bv8>, n: nat)
    requires l.Valid() && l.Data() <= |src|
  {
    && n <= l.Data() <= |out|
    && (forall m :: 0 <= m < n ==> out[m] == Word(l, src, m))
    && forall m :: n <= m < |out| ==> out[m] == 0
  }

  /** Word i of every block, for every i that all blocks have. */
  method InterleaveShort(ghost l: Layout, numBlocks: nat, numShortBlocks: nat, shortDataBlockLen: nat,
                         data: array<bv8>, result: array<bv8>) returns (offset: nat)
    requires l.Valid() && l.Data() <= data.Length && l.Data() <= result.Length && data != result
    requires numBlocks == l.blocks && numShortBlocks == l.short && shortDataBlockLen == l.len
    requires Filled(l, data[..], result[..], 0)
    modifies result
    ensures offset == l.len * l.blocks && Filled(l, data[..], result[..], offset)
  {
    hide Word, Filled;
    offset := 0;
    for i := 0 to shortDataBlockLen
      invariant offset == RowStart(l, i)
      invariant Filled(l, data[..], result[..], offset)
    {
      offset := InterleaveRow(l, numBlocks, numShortBlocks, shortDataBlockLen, data, result, i, offset);
    }
  }

  function RowStart(l: Layout, i: nat): nat { i * l.blocks }

  /** The inner loop: word i of every block. */
  method InterleaveRow(ghost l: Layout, numBlocks: nat, numShortBlocks: nat, shortDataBlockLen: nat,
                       data: array<bv8>, result: array<bv8>, i: nat, start: nat) returns (offset: nat)
    requires l.Valid() && l.Data() <= data.Length && l.Data() <= result.Length && data != result
    requires numBlocks == l.blocks && numShortBlocks == l.short && shortDataBlockLen == l.len
    requires i < l.len && start == RowStart(l, i) && Filled(l, data[..], result[..], start)
    modifies result
    ensures offset == RowStart(l, i + 1) && Filled(l, data[..], result[..], offset)
  {
    hide Word, Filled, RowStart, Layout.Valid, Layout.Data, Layout.Start, Layout.Slot;
    RowNext(l, i);
    l.StartFirst();
    offset := start;
    var index := i;
    var stride := shortDataBlockLen;
    for blockNum := 0 to numBlocks
      invariant offset == start + blockNum
      invariant index == i + l.Start(blockNum)
      invariant stride == if blockNum > numShortBlocks then shortDataBlockLen + 1 else shortDataBlockLen
      invariant Filled(l, data[..], result[..], offset)
    {
      ShortSlot(l, blockNum, i);
      WordAt(l, data[..], blockNum, i);
      l.StartNext(blockNum);
      PlaceWord(l, data[..], result, offset, data[index]);
      offset := offset + 1;
      if blockNum == numShortBlocks {
        stride := stride + 1;
      }
      index := index + stride;
    }
  }

  lemma RowNext(l: Layout, i: nat)
    ensures RowStart(l, i + 1) == RowStart(l, i) + l.blocks
  {
  }

  lemma ShortSlot(l: Layout, b: nat, i: nat)
    requires l.Valid() && b < l.blocks && i < l.len
    ensures i < l.Len(b) && l.Slot(b, i) == RowStart(l, i) + b
  {
  }

  /** The next word in the order of the interleaved buffer. */
  method PlaceWord(ghost l: Layout, ghost src: seq<bv8>, result: array<bv8>, offset: nat, word: bv8)
    requires l.Valid() && l.Data() <= |src| && Filled(l, src, result[..], offset)
    requires offset < l.Data() && word == Word(l, src, offset)
    modifies result
    ensures Filled(l, src, result[..], offset + 1)
  {
    hide Word, Layout.Valid, Layout.Data;
    result[offset] := word;
  }

  /** The last word of every long block. */
  method InterleaveLong(ghost l: Layout, numBlocks: nat, numShortBlocks: nat, shortDataBlockLen: nat,
                        data: array<bv8>, result: array<bv8>, start: nat) returns (offset: nat)
    requires l.Valid() && l.Data() <= data.Length && l.Data() <= result.Length && data != result
    requires numBlocks == l.blocks && numShortBlocks == l.short && shortDataBlockLen == l.len
    requires start == l.len * l.blocks && Filled(l, data[..], result[..], start)
    modifies result
    ensures offset == l.Data() && Filled(l, data[..], result[..], offset)
  {
    hide Word;
    l.DataSize();
    offset := start;
    var index := shortDataBlockLen * (numShortBlocks + 1);
    var stride := shortDataBlockLen;
    for blockNum := 0 to numBlocks - numShortBlocks
      invariant offset == start + blockNum
      invariant index == l.Start(numShortBlocks + blockNum) + shortDataBlockLen
      invariant stride == if blockNum > 0 then shortDataBlockLen + 1 else shortDataBlockLen
      invariant Filled(l, data[..], result[..], offset)
    {
      WordAt(l, data[..], numShortBlocks + blockNum, shortDataBlockLen);
      l.StartNext(numShortBlocks + blockNum);
      result[offset] := data[index];
      offset := offset + 1;
      if blockNum == 0 {
        stride := stride + 1;
      }
      index := index + stride;
    }
  }

  /** The registers of the first n blocks hold their check words, the others are still zero. */
  predicate Checked(l: Layout, src: seq<bv8>, out: seq<bv8>, n: nat)
    requires l.Valid() && l.Data() <= |src|
  {
    && l.Total() <= |out|
    && (forall m :: 0 <= m < l.Data() ==> out[m] == Word(l, src, m))
    && (forall m :: l.Total() <= m < |out| ==> out[m] == 0)
    && forall b: nat {:trigger Register(l, out, b)} :: b < l.blocks ==>
         Register(l, out, b) == if b < n then Checks(l, src, b) else Zeros(l.ecc)
  }

  function Register(l: Layout, out: seq<bv8>, b: nat): (r: Poly)
    requires l.Valid() && b < l.blocks && l.Total() <= |out|
    ensures |r| == l.ecc
  {
    CheckCellsFit(l, b);
    Strided(out, l.Data() + b, l.blocks, l.ecc)
  }

  lemma NothingChecked(l: Layout, src: seq<bv8>, out: seq<bv8>)
    requires l.Valid() && l.Data() <= |src| && l.Total() <= |out|
    requires Filled(l, src, out, l.Data())
    ensures Checked(l, src, out, 0)
  {
    hide Word, Cell;
    forall b: nat | b < l.blocks
      ensures Register(l, out, b) == Zeros(l.ecc)
    {
      CheckCellsFit(l, b);
      CellAfter(l, b);
    }
  }

  lemma CellAfter(l: Layout, b: nat)
    requires l.Valid()
    ensures forall t: nat {:trigger Cell(l.Data() + b, l.blocks, t)} :: Cell(l.Data() + b, l.blocks, t) >= l.Data()
  {
  }

  /** The registers of different blocks share no cell, and none reaches into the data or past the end. */
  lemma RegistersApart(l: Layout, b: nat, c: int)
    requires l.Valid() && b < l.blocks
    requires c < l.Data() || c >= l.Total() || (c - l.Data()) % l.blocks != b
    ensures !IsCell(c, l.Data() + b, l.blocks, l.ecc)
  {
    forall t: nat {:trigger Cell(l.Data() + b, l.blocks, t)} | t < l.ecc
      ensures Cell(l.Data() + b, l.blocks, t) != c
    {
      RowMajor(t, b, l.ecc, l.blocks);
    }
  }

  lemma CellBlock(l: Layout, b: nat, t: nat)
    requires l.Valid() && b < l.blocks && t < l.ecc
    ensures var c := Cell(l.Data() + b, l.blocks, t); l.Data() <= c < l.Total() && (c - l.Data()) % l.blocks == b
  {
    RowMajor(t, b, l.ecc, l.blocks);
  }

  predicate SameOutside(l: Layout, before: seq<bv8>, after: seq<bv8>, n: nat) {
    |before| == |after| &&
    forall c :: 0 <= c < |after| && !IsCell(c, l.Data() + n, l.blocks, l.ecc) ==> after[c] == before[c]
  }

  lemma OtherRegister(l: Layout, before: seq<bv8>, after: seq<bv8>, n: nat, b: nat)
    requires l.Valid() && n < l.blocks && b < l.blocks && b != n && l.Total() <= |before|
    requires SameOutside(l, before, after, n)
    ensures Register(l, after, b) == Register(l, before, b)
  {
    hide Cell, IsCell;
    CheckCellsFit(l, b);
    forall t: nat {:trigger Cell(l.Data() + b, l.blocks, t)} | t < l.ecc
      ensures after[Cell(l.Data() + b, l.blocks, t)] == before[Cell(l.Data() + b, l.blocks, t)]
    {
      CellBlock(l, b, t);
      RegistersApart(l, n, Cell(l.Data() + b, l.blocks, t));
    }
  }

  lemma OutsideKept(l: Layout, before: seq<bv8>, after: seq<bv8>, n: nat)
    requires l.Valid() && n < l.blocks && l.Total() <= |before|
    requires SameOutside(l, before, after, n)
    ensures forall c :: 0 <= c < |after| && (c < l.Data() || c >= l.Total()) ==> after[c] == before[c]
  {
    hide Cell, IsCell;
    forall c | 0 <= c < |after| && (c < l.Data() || c >= l.Total())
      ensures after[c] == before[c]
    {
      RegistersApart(l, n, c);
    }
  }

  /** Filling one register leaves the words and the other registers alone. */
  lemma OneMoreChecked(l: Layout, src: seq<bv8>, before: seq<bv8>, after: seq<bv8>, n: nat)
    requires l.Valid() && n < l.blocks && l.Data() <= |src|
    requires Checked(l, src, before, n) && SameOutside(l, before, after, n)
    requires Register(l, after, n) == Checks(l, src, n)
    ensures Checked(l, src, after, n + 1)
  {
    OutsideKept(l, before, after, n);
    forall b: nat | b < l.blocks && b != n
      ensures Register(l, after, b) == Register(l, before, b)
    {
      OtherRegister(l, before, after, n, b);
    }
    hide Word, SameOutside, Checks, Register;
    assert l.Data() <= l.Total();
  }

  method AppendChecks(ghost l: Layout, numBlocks: nat, numShortBlocks: nat, shortDataBlockLen: nat, blockEccLen: nat,
                      coeff: array<bv8>, data: array<bv8>, result: array<bv8>, offset: nat)
    requires l.Valid() && l.Data() <= data.Length && l.Total() <= result.Length
    requires data != result && coeff != result
    requires numBlocks == l.blocks && numShortBlocks == l.short && shortDataBlockLen == l.len && blockEccLen == l.ecc
    requires offset == l.Data() && Filled(l, data[..], result[..], offset)
    requires coeff[..] == Taps(l.ecc)
    modifies result
    ensures Checked(l, data[..], result[..], l.blocks)
  {
    hide Word, Cell, IsCell, Checked, Filled, Strided, Taps, Remainder;
    NothingChecked(l, data[..], result[..]);
    var blockSize := shortDataBlockLen;
    var from := 0;
    for blockNum := 0 to numBlocks
      invariant from == l.Start(blockNum)
      invariant blockSize == if blockNum > numShortBlocks then shortDataBlockLen + 1 else shortDataBlockLen
      invariant Checked(l, data[..], result[..], blockNum)
    {
      if blockNum == numShortBlocks {
        blockSize := blockSize + 1;
      }
      l.StartNext(blockNum);
      l.InData(blockNum, blockSize - 1);
      CheckCellsFit(l, blockNum);
      ghost var before := result[..];
      assert Register(l, before, blockNum) == Zeros(l.ecc) by { StillZero(l, data[..], before, blockNum); }
      assert coeff[..blockEccLen] == coeff[..];
      RsGetRemainder(blockEccLen, coeff, data, from, blockSize, result, offset + blockNum, numBlocks);
      OneMoreChecked(l, data[..], before, result[..], blockNum);
      from := from + blockSize;
    }
  }

  lemma StillZero(l: Layout, src: seq<bv8>, out: seq<bv8>, n: nat)
    requires l.Valid() && n < l.blocks && l.Data() <= |src| && Checked(l, src, out, n)
    ensures Register(l, out, n) == Zeros(l.ecc)
  {
  }

  /** The relations between the capacity tables that the routine relies on. */
  predicate TablesAgree(moduleCount: nat, totalEcc: nat, numBlocks: nat) {
    && 0 < numBlocks && totalEcc % numBlocks == 0 && 0 < totalEcc / numBlocks
    && totalEcc / numBlocks < moduleCount / 8 / numBlocks < 255
  }

  function LayoutOf(moduleCount: nat, totalEcc: nat, numBlocks: nat): (l: Layout)
    requires TablesAgree(moduleCount, totalEcc, numBlocks)
    ensures l.Valid() && l.Total() == moduleCount / 8
  {
    var l := Layout(numBlocks, numBlocks - moduleCount / 8 % numBlocks,
                    moduleCount / 8 / numBlocks - totalEcc / numBlocks, totalEcc / numBlocks);
    l.DataSize();
    DivModBounds(moduleCount / 8, numBlocks, 0);
    Expand(moduleCount / 8 / numBlocks, totalEcc / numBlocks, numBlocks);
    l
  }

  /** Every block has its share of the check words and of all words; where these do not divide evenly, the last blocks
      have one more. */
  lemma LayoutIs(moduleCount: nat, totalEcc: nat, numBlocks: nat, b: nat)
    requires TablesAgree(moduleCount, totalEcc, numBlocks) && b < numBlocks
    ensures var l, all := LayoutOf(moduleCount, totalEcc, numBlocks), moduleCount / 8;
            && l.blocks == numBlocks && l.ecc == totalEcc / numBlocks
            && l.Len(b) + l.ecc == all / numBlocks + (if b >= numBlocks - all % numBlocks then 1 else 0)
            && l.Start(0) == 0 && l.Start(b + 1) == l.Start(b) + l.Len(b)
            && l.Data() + totalEcc == all
  {
    var l := LayoutOf(moduleCount, totalEcc, numBlocks);
    l.StartFirst();
    l.StartNext(b);
    DivModBounds(totalEcc, numBlocks, 0);
  }

  lemma Expand(a: int, b: int, n: int)
    ensures (a - b) * n + n * b == a * n
  {
  }

  /** The buffer of data codewords becomes the interleaved buffer of all codewords. */
  method PerformErrorCorrection(moduleCount: nat, totalEcc: nat, numBlocks: nat, data: array<bv8>) returns (bits: nat)
    requires TablesAgree(moduleCount, totalEcc, numBlocks) && data.Length == (moduleCount + 7) / 8
    modifies data
    ensures bits == moduleCount
    ensures var l := LayoutOf(moduleCount, totalEcc, numBlocks); Checked(l, old(data[..]), data[..], l.blocks)
  {
    hide Checked, Filled, Generator;
    ghost var src := data[..];
    var blockEccLen := totalEcc / numBlocks;
    var numShortBlocks := numBlocks - moduleCount / 8 % numBlocks;
    var shortBlockLen := moduleCount / 8 / numBlocks;
    var shortDataBlockLen := shortBlockLen - blockEccLen;
    ghost var l := LayoutOf(moduleCount, totalEcc, numBlocks);
    var result := new bv8[data.Length](_ => 0);
    var coeff := new bv8[blockEccLen];
    RsInit(blockEccLen, coeff);
    assert coeff[..] == ([1] + coeff[..blockEccLen])[1..] == Taps(l.ecc);
    FilledNone(l, data[..], result[..]);
    var offset := InterleaveShort(l, numBlocks, numShortBlocks, shortDataBlockLen, data, result);
    offset := InterleaveLong(l, numBlocks, numShortBlocks, shortDataBlockLen, data, result, offset);
    AppendChecks(l, numBlocks, numShortBlocks, shortDataBlockLen, blockEccLen, coeff, data, result, offset);
    ghost var out := result[..];
    assert Checked(l, src, out, l.blocks);
    forall i | 0 <= i < data.Length {
      data[i] := result[i];
    }
    assert data[..] == out;
    bits := moduleCount;
  }

  lemma FilledNone(l: Layout, src: seq<bv8>, out: seq<bv8>)
    requires l.Valid() && l.Data() <= |src| && l.Data() <= |out|
    requires forall i :: 0 <= i < |out| ==> out[i] == 0
    ensures Filled(l, src, out, 0)
  {
  }

  // ----- what the interleaving is for

  /** Reading a block back column by column gives the block and its own check words: a codeword. */
  lemma DeinterleaveBlock(l: Layout, src: seq<bv8>, out: seq<bv8>, b: nat)
    requires l.Valid() && b < l.blocks && l.Data() <= |src| && l.Total() <= |out|
    requires Checked(l, src, out, l.blocks)
    ensures Deinterleaved(l, out, b) == Block(l, src, b) + Checks(l, src, b)
    ensures IsCodeword(l.ecc, Deinterleaved(l, out, b))
  {
    SyndromesVanish(l.ecc, Block(l, src, b));
    hide IsCodeword;
    DeinterleaveData(l, src, out, b);
    hide DataColumn, Block, Strided;
    assert Register(l, out, b) == Checks(l, src, b);
  }

  lemma DeinterleaveData(l: Layout, src: seq<bv8>, out: seq<bv8>, b: nat)
    requires l.Valid() && b < l.blocks && l.Data() <= |src| && l.Total() <= |out|
    requires forall m :: 0 <= m < l.Data() ==> out[m] == Word(l, src, m)
    ensures DataColumn(l, out, b) == Block(l, src, b)
  {
    hide Word, DataColumn, Block;
    forall i | 0 <= i < l.Len(b)
      ensures DataColumn(l, out, b)[i] == Block(l, src, b)[i]
    {
      WordAt(l, src, b, i);
    }
    assert DataColumn(l, out, b) == Block(l, src, b);
  }

  /** Where the data word m goes, and which data word comes to place n. */
  function Destination(l: Layout, m: nat): (n: nat)
    requires l.Valid() && m < l.Data()
    ensures n < l.Data()
  {
    l.HomeStart(m);
    var (b, i) := l.Home(m);
    l.SlotOwner(b, i);
    l.Slot(b, i)
  }

  function Origin(l: Layout, n: nat): (m: nat)
    requires l.Valid() && n < l.Data()
    ensures m < l.Data()
  {
    l.OwnerSlot(n);
    var (b, i) := l.Owner(n);
    l.InData(b, i);
    l.Start(b) + i
  }

  /** The data part is a permutation of the input: every word has exactly one destination ... */
  lemma PlacesPermuted(l: Layout, m: nat)
    requires l.Valid() && m < l.Data()
    ensures Origin(l, Destination(l, m)) == m && Destination(l, Origin(l, m)) == m
  {
    l.HomeStart(m);
    var (b, i) := l.Home(m);
    l.SlotOwner(b, i);
    l.OwnerSlot(m);
    var (c, j) := l.Owner(m);
    l.StartHome(c, j);
  }

  /** ... and is found there. */
  lemma DataArrives(l: Layout, src: seq<bv8>, out: seq<bv8>, m: nat)
    requires l.Valid() && m < l.Data() <= |src| && l.Data() <= |out|
    requires forall n :: 0 <= n < l.Data() ==> out[n] == Word(l, src, n)
    ensures out[Destination(l, m)] == src[m]
  {
    hide Word;
    l.HomeStart(m);
    var (b, i) := l.Home(m);
    WordAt(l, src, b, i);
  }
}
