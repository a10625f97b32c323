/** Masking and the format information of a QR symbol (clauses 7.8 and 7.9 of ISO/IEC 18004:2015). */
module QrMask {
  import opened Arith
  import opened BitBuckets
  import opened QrZigzag

  // ----- masks

  /** Does this mask pattern flip the module in column x and row y? */
  predicate Flips(mask: nat, x: nat, y: nat) {
    match mask
    case 0 => (x + y) % 2 == 0
    case 1 => y % 2 == 0
    case 2 => x % 3 == 0
    case 3 => (x + y) % 3 == 0
    case 4 => (x / 3 + y / 2) % 2 == 0
    case 5 => x * y % 2 + x * y % 3 == 0
    case 6 => (x * y % 2 + x * y % 3) % 2 == 0
    case 7 => ((x + y) % 2 + x * y % 3) % 2 == 0
    case _ => false
  }

  // ----- the patterns written out

  /** One period of each mask, row by row: the whole symbol is tiled with it from the upper left corner. */
  function Tile(mask: nat): (rows: seq<string>)
    ensures rows != [] && forall i :: 0 <= i < |rows| ==> rows[i] != ""
  {
    match mask
    case 0 => ["#.", ".#"]
    case 1 => ["#", "."]
    case 2 => ["#.."]
    case 3 => ["#..", "..#", ".#."]
    case 4 => ["###...", "###...", "...###", "...###"]
    case 5 => ["######", "#.....", "#..#..", "#.#.#.", "#..#..", "#....."]
    case 6 => ["######", "###...", "##.##.", "#.#.#.", "#.##.#", "#...##"]
    case 7 => ["#.#.#.", "...###", "#...##", ".#.#.#", "###...", ".###.."]
    case _ => ["."]
  }

  predicate Inverts(mask: nat, x: nat, y: nat) {
    var row := Tile(mask)[y % |Tile(mask)|];
    row[x % |row|] == '#'
  }

  lemma ProductParts(x: nat, y: nat)
    ensures x * y % 2 == (x % 6) * (y % 6) % 2 && x * y % 3 == (x % 6) * (y % 6) % 3
  {
    var a, b, r, s := x / 6, y / 6, x % 6, y % 6;
    var z := r * s;
    Spread(a, b, r, s);
    SixMore(6 * (a * b) + a * s + b * r, z);
  }

  lemma Spread(a: nat, b: nat, r: nat, s: nat)
    ensures (6 * a + r) * (6 * b + s) == 6 * (6 * (a * b) + a * s + b * r) + r * s
  {
    assert (6 * a + r) * (6 * b + s) == 6 * a * (6 * b + s) + r * (6 * b + s);
    assert 6 * a * (6 * b + s) == 36 * (a * b) + 6 * (a * s);
    assert r * (6 * b + s) == 6 * (b * r) + r * s;
  }

  lemma SixMore(q: nat, z: nat)
    ensures (6 * q + z) % 2 == z % 2 && (6 * q + z) % 3 == z % 3
  {
    DivModUnique(6 * q + z, 3 * q + z / 2, z % 2, 2);
    DivModUnique(6 * q + z, 2 * q + z / 3, z % 3, 3);
  }

  lemma Tile0(x: nat, y: nat)
    ensures Flips(0, x, y) == Inverts(0, x, y)
  {
  }

  lemma Tile1(x: nat, y: nat)
    ensures Flips(1, x, y) == Inverts(1, x, y)
  {
  }

  lemma Tile2(x: nat, y: nat)
    ensures Flips(2, x, y) == Inverts(2, x, y)
  {
  }

  lemma Tile3(x: nat, y: nat)
    ensures Flips(3, x, y) == Inverts(3, x, y)
  {
  }

  lemma Thirds(x: nat)
    ensures x / 3 % 2 == if x % 6 < 3 then 0 else 1
  {
  }

  lemma Pairs(y: nat)
    ensures y / 2 % 2 == if y % 4 < 2 then 0 else 1
  {
  }

  lemma SumEven(a: nat, b: nat)
    ensures (a + b) % 2 == 0 <==> a % 2 == b % 2
  {
  }

  lemma BlockTile(r: nat, s: nat)
    requires r < 6 && s < 4
    ensures |Tile(4)| == 4 && |Tile(4)[s]| == 6 && (Tile(4)[s][r] == '#' <==> (r < 3 <==> s < 2))
  {
  }

  lemma Tile4(x: nat, y: nat)
    ensures Flips(4, x, y) == Inverts(4, x, y)
  {
    Thirds(x);
    Pairs(y);
    SumEven(x / 3, y / 2);
    BlockTile(x % 6, y % 4);
    hide Tile;
  }

  /** The last three formulas look at the product and the sum of column and row. */
  predicate FlipsBy(mask: nat, product: nat, sum: nat) {
    match mask
    case 5 => product % 2 + product % 3 == 0
    case 6 => (product % 2 + product % 3) % 2 == 0
    case _ => (sum % 2 + product % 3) % 2 == 0
  }

  lemma FlipsIsBy(mask: nat, x: nat, y: nat)
    requires 5 <= mask <= 7
    ensures Flips(mask, x, y) == FlipsBy(mask, x * y, x + y)
  {
  }

  lemma SameBy(mask: nat, product: nat, sum: nat, product': nat, sum': nat)
    requires product % 2 == product' % 2 && product % 3 == product' % 3 && sum % 2 == sum' % 2
    ensures FlipsBy(mask, product, sum) == FlipsBy(mask, product', sum')
  {
  }

  /** They repeat after six columns and six rows. */
  lemma Repeats(mask: nat, x: nat, y: nat)
    requires 5 <= mask <= 7
    ensures Flips(mask, x, y) == FlipsBy(mask, (x % 6) * (y % 6), x % 6 + y % 6)
  {
    hide Flips, FlipsBy;
    FlipsIsBy(mask, x, y);
    ProductParts(x, y);
    SumParts(x, y);
    var z, z' := x * y, (x % 6) * (y % 6);
    SameBy(mask, z, x + y, z', x % 6 + y % 6);
  }

  lemma InvertsSix(mask: nat, x: nat, y: nat)
    requires 5 <= mask <= 7
    ensures |Tile(mask)| == 6 && |Tile(mask)[y % 6]| == 6
    ensures Inverts(mask, x, y) == (Tile(mask)[y % 6][x % 6] == '#')
  {
    SixRows(mask);
    hide Tile;
  }

  lemma SumParts(x: nat, y: nat)
    ensures (x + y) % 2 == (x % 6 + y % 6) % 2
  {
  }

  lemma SixRows(mask: nat)
    requires 5 <= mask <= 7
    ensures |Tile(mask)| == 6 && forall i :: 0 <= i < 6 ==> |Tile(mask)[i]| == 6
  {
  }

  lemma Row5(x: nat, y: nat, row: string)
    requires x < 6 && y < 6 && row == Tile(5)[y]
    ensures |row| == 6 && FlipsBy(5, x * y, x + y) == (row[x] == '#')
  {
    SixRows(5);
    assert x == 0 || x == 1 || x == 2 || x == 3 || x == 4 || x == 5;
    if y == 0 { assert row == "######" && x * y == 0; }
    else if y == 1 { assert row == "#....."; }
    else if y == 2 { assert row == "#..#.."; }
    else if y == 3 { assert row == "#.#.#."; }
    else if y == 4 { assert row == "#..#.."; }
    else { assert y == 5 && row == "#....."; }
  }

  lemma Row6(x: nat, y: nat, row: string)
    requires x < 6 && y < 6 && row == Tile(6)[y]
    ensures |row| == 6 && FlipsBy(6, x * y, x + y) == (row[x] == '#')
  {
    SixRows(6);
    assert x == 0 || x == 1 || x == 2 || x == 3 || x == 4 || x == 5;
    if y == 0 { assert row == "######" && x * y == 0; }
    else if y == 1 { assert row == "###..."; }
    else if y == 2 { assert row == "##.##."; }
    else if y == 3 { assert row == "#.#.#."; }
    else if y == 4 { assert row == "#.##.#"; }
    else { assert y == 5 && row == "#...##"; }
  }

  lemma Row7(x: nat, y: nat, row: string)
    requires x < 6 && y < 6 && row == Tile(7)[y]
    ensures |row| == 6 && FlipsBy(7, x * y, x + y) == (row[x] == '#')
  {
    SixRows(7);
    assert x == 0 || x == 1 || x == 2 || x == 3 || x == 4 || x == 5;
    if y == 0 { assert row == "#.#.#." && x * y == 0; }
    else if y == 1 { assert row == "...###"; }
    else if y == 2 { assert row == "#...##"; }
    else if y == 3 { assert row == ".#.#.#"; }
    else if y == 4 { assert row == "###..."; }
    else { assert y == 5 && row == ".###.."; }
  }

  /** The formulas draw these patterns, on every module. */
  lemma FlipsTile(mask: nat, x: nat, y: nat)
    ensures Flips(mask, x, y) == Inverts(mask, x, y)
  {
    hide Flips, FlipsBy, Inverts, Tile;
    match mask
    case 0 => Tile0(x, y);
    case 1 => Tile1(x, y);
    case 2 => Tile2(x, y);
    case 3 => Tile3(x, y);
    case 4 => Tile4(x, y);
    case 5 => Repeats(5, x, y); InvertsSix(5, x, y); Row5(x % 6, y % 6, Tile(5)[y % 6]);
    case 6 => Repeats(6, x, y); InvertsSix(6, x, y); Row6(x % 6, y % 6, Tile(6)[y % 6]);
    case 7 => Repeats(7, x, y); InvertsSix(7, x, y); Row7(x % 6, y % 6, Tile(7)[y % 6]);
    case _ => NoTile(mask, x, y);
  }

  lemma NoTile(mask: nat, x: nat, y: nat)
    requires mask > 7
    ensures Flips(mask, x, y) == Inverts(mask, x, y) == false
  {
  }

  /** Is bit p of the grid flipped? */
  predicate FlipsAt(size: int, isFunction: seq<bool>, mask: nat, p: nat)
    requires Grid(size, isFunction)
  {
    p < size * size && !isFunction[p] && Flips(mask, p % size, p / size)
  }

  function Masked(size: int, modules: seq<bool>, isFunction: seq<bool>, mask: nat): (m: seq<bool>)
    requires Grid(size, isFunction)
    ensures |m| == |modules|
    ensures forall p :: 0 <= p < |m| ==> m[p] == (modules[p] != FlipsAt(size, isFunction, mask, p))
  {
    seq(|modules|, p requires 0 <= p < |modules| => modules[p] != FlipsAt(size, isFunction, mask, p))
  }

  /** Applying a mask twice changes nothing, and function modules are never touched. */
  lemma MaskInvolution(size: int, modules: seq<bool>, isFunction: seq<bool>, mask: nat)
    requires Grid(size, modules) && Grid(size, isFunction)
    ensures Masked(size, Masked(size, modules, isFunction, mask), isFunction, mask) == modules
    ensures forall p :: 0 <= p < size * size && isFunction[p] ==> Masked(size, modules, isFunction, mask)[p] == modules[p]
  {
    hide Flips;
  }

  /** The first n modules are masked, the others still wait. */
  predicate MaskedUpTo(size: int, was: seq<bool>, now: seq<bool>, isFunction: seq<bool>, mask: nat, n: nat)
    requires Grid(size, isFunction)
  {
    |now| == |was| &&
    forall p :: 0 <= p < |now| ==> now[p] == (was[p] != (p < n && FlipsAt(size, isFunction, mask, p)))
  }

  /** The loop body: module (x, y), which is bit n of the grid. */
  method MaskModule(modules: BitBucket, isFunction: BitBucket, mask: nat, x: nat, y: nat, ghost was: seq<bool>, ghost n: nat)
    requires Grid(modules.bitOffsetOrWidth, modules.Bits()) && Grid(modules.bitOffsetOrWidth, isFunction.Bits())
    requires isFunction.bitOffsetOrWidth == modules.bitOffsetOrWidth && modules.data != isFunction.data
    requires x < modules.bitOffsetOrWidth && y < modules.bitOffsetOrWidth && n == modules.Offset(x, y)
    requires MaskedUpTo(modules.bitOffsetOrWidth, was, modules.Bits(), isFunction.Bits(), mask, n)
    modifies modules.data
    ensures MaskedUpTo(modules.bitOffsetOrWidth, was, modules.Bits(), isFunction.Bits(), mask, n + 1)
  {
    RowMajor(y, x, modules.bitOffsetOrWidth, modules.bitOffsetOrWidth);
    assert FlipsAt(modules.bitOffsetOrWidth, isFunction.Bits(), mask, n) == (!isFunction.Bits()[n] && Flips(mask, x, y));
    hide Flips, FlipsAt;
    var skip := isFunction.GetBit(x, y);
    if !skip {
      var invert := Flips(mask, x, y);
      modules.InvertBit(x, y, invert);
    }
  }

  lemma NextRow(y: int, size: int)
    ensures (y + 1) * size == y * size + size && 0 * size == 0
  {
  }

  method ApplyMask(modules: BitBucket, isFunction: BitBucket, mask: nat)
    requires Grid(modules.bitOffsetOrWidth, modules.Bits()) && Grid(modules.bitOffsetOrWidth, isFunction.Bits())
    requires isFunction.bitOffsetOrWidth == modules.bitOffsetOrWidth && modules.data != isFunction.data
    modifies modules.data
    ensures modules.Bits() == Masked(modules.bitOffsetOrWidth, old(modules.Bits()), isFunction.Bits(), mask)
    ensures Tiled(modules.bitOffsetOrWidth, old(modules.Bits()), modules.Bits(), isFunction.Bits(), mask)
  {
    var size := modules.bitOffsetOrWidth;
    ghost var was, n := modules.Bits(), 0;
    for y := 0 to size
      invariant n == y * size
      invariant MaskedUpTo(size, was, modules.Bits(), isFunction.Bits(), mask, n)
    {
      NextRow(y, size);
      ghost var first := n;
      for x := 0 to size
        invariant n == first + x
        invariant MaskedUpTo(size, was, modules.Bits(), isFunction.Bits(), mask, n)
      {
        hide FlipsAt, MaskedUpTo;
        MaskModule(modules, isFunction, mask, x, y, was, n);
        n := n + 1;
      }
    }
    MaskedAll(size, was, modules.Bits(), isFunction.Bits(), mask);
    MaskedTiled(size, was, isFunction.Bits(), mask);
  }

  /** The module in column x and row y is inverted exactly if it is free and the mask's tile is dark there. */
  predicate TiledAt(size: int, was: seq<bool>, now: seq<bool>, isFunction: seq<bool>, mask: nat, x: nat, y: nat) {
    var p := y * size + x;
    0 <= p < |was| && p < |now| && p < |isFunction| && now[p] == (was[p] != (!isFunction[p] && Inverts(mask, x, y)))
  }

  /** That goes for all modules, and nothing behind them is changed. */
  ghost predicate Tiled(size: int, was: seq<bool>, now: seq<bool>, isFunction: seq<bool>, mask: nat) {
    && |now| == |was|
    && (forall x: nat, y: nat :: x < size && y < size ==> TiledAt(size, was, now, isFunction, mask, x, y))
    && (forall p :: size * size <= p < |was| ==> now[p] == was[p])
  }

  lemma MaskedTiled(size: int, was: seq<bool>, isFunction: seq<bool>, mask: nat)
    requires Grid(size, was) && Grid(size, isFunction)
    ensures Tiled(size, was, Masked(size, was, isFunction, mask), isFunction, mask)
  {
    var now := Masked(size, was, isFunction, mask);
    hide Flips, Inverts, FlipsAt, TiledAt;
    forall x: nat, y: nat | x < size && y < size ensures TiledAt(size, was, now, isFunction, mask, x, y) {
      MaskedThere(size, was, isFunction, mask, x, y);
    }
    forall p | size * size <= p < |was| ensures now[p] == was[p] {
      NoFlip(size, isFunction, mask, p);
    }
  }

  lemma MaskedThere(size: int, was: seq<bool>, isFunction: seq<bool>, mask: nat, x: nat, y: nat)
    requires Grid(size, was) && Grid(size, isFunction) && x < size && y < size
    ensures TiledAt(size, was, Masked(size, was, isFunction, mask), isFunction, mask, x, y)
  {
    hide Flips, Inverts, FlipsAt;
    var p := y * size + x;
    RowMajor(y, x, size, size);
    FlipsHere(size, isFunction, mask, x, y, p);
  }

  lemma NoFlip(size: int, isFunction: seq<bool>, mask: nat, p: nat)
    requires Grid(size, isFunction) && size * size <= p
    ensures !FlipsAt(size, isFunction, mask, p)
  {
  }

  lemma FlipsHere(size: int, isFunction: seq<bool>, mask: nat, x: nat, y: nat, p: nat)
    requires Grid(size, isFunction) && p < size * size && p % size == x && p / size == y
    ensures FlipsAt(size, isFunction, mask, p) == (!isFunction[p] && Inverts(mask, x, y))
  {
    hide Flips, Inverts;
    FlipsTile(mask, x, y);
  }

  lemma MaskedAll(size: int, was: seq<bool>, now: seq<bool>, isFunction: seq<bool>, mask: nat)
    requires Grid(size, isFunction) && MaskedUpTo(size, was, now, isFunction, mask, size * size)
    ensures now == Masked(size, was, isFunction, mask)
  {
    hide Flips;
  }

  // ----- format information

  /** The check bits after n division steps by 0x537. */
  function FormatRemainder(rem: bv32, n: nat): bv32
    decreases n
  {
    if n == 0 then rem else DivideOnce(FormatRemainder(rem, n - 1))
  }

  function DivideOnce(rem: bv32): bv32 { (rem << 1) ^ ((rem >> 9) * 0x537) }

  function FormatData(ecc: bv32, mask: bv32): bv32 { (ecc << 3) | mask }

  function FormatJoin(data: bv32, rem: bv32): bv32 { ((data << 10) | rem) ^ 0x5412 }

  function FormatWord(ecc: bv32, mask: bv32): bv32 {
    FormatJoin(FormatData(ecc, mask), FormatRemainder(FormatData(ecc, mask), 10))
  }

  predicate WordBit(word: bv32, i: nat)
    requires i < 15
  {
    (word >> i) & 1 != 0
  }

  /** Where the two copies of the 15 format bits and the module that is always dark are drawn,
      numbered in drawing order: bit i of the first copy is i, of the second 15 + i, the dark
      module 30, any other module -1. */
  function FormatOrder(size: int, x: int, y: int): (n: int)
    ensures -1 <= n <= 30
  {
    if x == 8 && 0 <= y <= 5 then y
    else if x == 8 && y == 7 then 6
    else if x == 8 && y == 8 then 7
    else if x == 7 && y == 8 then 8
    else if y == 8 && 0 <= x <= 5 then 14 - x
    else if y == 8 && size - 8 <= x < size then 15 + (size - 1 - x)
    else if x == 8 && size - 7 <= y < size then 15 + (y - size + 15)
    else if x == 8 && y == size - 8 then 30
    else -1
  }

  function FormatAt(size: int, p: int): (n: int)
    requires size > 0
    ensures -1 <= n <= 30
  {
    if 0 <= p < size * size then FormatOrder(size, p % size, p / size) else -1
  }

  /** The colour of the format module with drawing number n. */
  predicate FormatColour(word: bv32, n: nat)
    requires n <= 30
  {
    n == 30 || WordBit(word, n % 15)
  }

  /** The grid with the first n format modules drawn in; 31 of them are all. */
  function FormatDrawn(size: int, modules: seq<bool>, word: bv32, n: nat): (m: seq<bool>)
    requires size > 0
    ensures |m| == |modules|
    ensures forall p :: 0 <= p < |m| ==>
              m[p] == var i := FormatAt(size, p); if 0 <= i < n then FormatColour(word, i) else modules[p]
  {
    seq(|modules|, p requires 0 <= p < |modules| =>
      var i := FormatAt(size, p); if 0 <= i < n then FormatColour(word, i) else modules[p])
  }

  function WithFormat(size: int, modules: seq<bool>, word: bv32): (m: seq<bool>)
    requires size > 0
    ensures |m| == |modules|
  {
    FormatDrawn(size, modules, word, 31)
  }

  /** The function-module grid with the first n format modules marked. */
  function FormatMarked(size: int, isFunction: seq<bool>, n: nat): (f: seq<bool>)
    requires size > 0
    ensures |f| == |isFunction|
    ensures forall p :: 0 <= p < |f| ==> f[p] == (isFunction[p] || 0 <= FormatAt(size, p) < n)
  {
    seq(|isFunction|, p requires 0 <= p < |isFunction| => isFunction[p] || 0 <= FormatAt(size, p) < n)
  }

  /** setFunctionModule */
  method SetFunctionModule(modules: BitBucket, isFunction: BitBucket, x: nat, y: nat, on: bool)
    requires isFunction.bitOffsetOrWidth == modules.bitOffsetOrWidth && modules.data != isFunction.data
    requires modules.Offset(x, y) < |modules.Bits()| && modules.Offset(x, y) < |isFunction.Bits()|
    modifies modules.data, isFunction.data
    ensures modules.Bits() == old(modules.Bits())[modules.Offset(x, y) := on]
    ensures isFunction.Bits() == old(isFunction.Bits())[modules.Offset(x, y) := true]
  {
    modules.SetBit(x, y, on);
    isFunction.SetBit(x, y, true);
  }

  lemma FormatPlace(size: int, x: nat, y: nat, n: nat)
    requires size >= 21 && x < size && y < size && FormatOrder(size, x, y) == n
    ensures 0 <= y * size + x < size * size
    ensures forall p :: FormatAt(size, p) == n <==> p == y * size + x
  {
    RowMajor(y, x, size, size);
    forall p | FormatAt(size, p) == n
      ensures p == y * size + x
    {
      SameOrder(size, x, y, p % size, p / size);
      DivModBounds(p, size, size);
    }
  }

  lemma SameOrder(size: int, x: int, y: int, x': int, y': int)
    requires size >= 21 && FormatOrder(size, x, y) == FormatOrder(size, x', y') >= 0
    ensures x == x' && y == y'
  {
  }

  /** Both grids after the first n format modules. */
  ghost predicate FormatState(size: int, was: seq<bool>, fnWas: seq<bool>, word: bv32, now: seq<bool>, fnNow: seq<bool>, n: nat) {
    size > 0 && now == FormatDrawn(size, was, word, n) && fnNow == FormatMarked(size, fnWas, n)
  }

  /** One call of setFunctionModule in the drawing order. */
  method DrawFormatModule(modules: BitBucket, isFunction: BitBucket, x: nat, y: nat, on: bool, ghost word: bv32,
                          ghost was: seq<bool>, ghost fnWas: seq<bool>, ghost n: nat)
    requires isFunction.bitOffsetOrWidth == modules.bitOffsetOrWidth && modules.data != isFunction.data
    requires modules.bitOffsetOrWidth >= 21 && Grid(modules.bitOffsetOrWidth, was) && Grid(modules.bitOffsetOrWidth, fnWas)
    requires x < modules.bitOffsetOrWidth && y < modules.bitOffsetOrWidth
    requires FormatOrder(modules.bitOffsetOrWidth, x, y) == n && on == FormatColour(word, n)
    requires FormatState(modules.bitOffsetOrWidth, was, fnWas, word, modules.Bits(), isFunction.Bits(), n)
    modifies modules.data, isFunction.data
    ensures FormatState(modules.bitOffsetOrWidth, was, fnWas, word, modules.Bits(), isFunction.Bits(), n + 1)
  {
    FormatPlace(modules.bitOffsetOrWidth, x, y, n);
    hide FormatAt, FormatColour, FormatOrder;
    SetFunctionModule(modules, isFunction, x, y, on);
  }

  lemma FormatNone(size: int, was: seq<bool>, fnWas: seq<bool>, word: bv32)
    requires size > 0
    ensures FormatState(size, was, fnWas, word, was, fnWas, 0)
  {
  }

  lemma FormatAll(size: int, was: seq<bool>, fnWas: seq<bool>, word: bv32, now: seq<bool>, fnNow: seq<bool>)
    requires FormatState(size, was, fnWas, word, now, fnNow, 31)
    ensures size > 0 && now == WithFormat(size, was, word) && fnNow == FormatMarked(size, fnWas, 31)
  {
  }

  method FormatBits(ecc: bv32, mask: bv32) returns (data: bv32)
    ensures data == FormatWord(ecc, mask)
  {
    hide DivideOnce, FormatData, FormatJoin;
    data := FormatData(ecc, mask);
    var rem := data;
    for i := 0 to 10
      invariant rem == FormatRemainder(data, i)
    {
      rem := DivideOnce(rem);
    }
    data := FormatJoin(data, rem);
  }

  /** drawFormatBits: two copies of the format bits for this error correction level and mask. */
  method DrawFormatBits(modules: BitBucket, isFunction: BitBucket, ecc: bv32, mask: bv32)
    requires isFunction.bitOffsetOrWidth == modules.bitOffsetOrWidth && modules.data != isFunction.data
    requires modules.bitOffsetOrWidth >= 21 && Grid(modules.bitOffsetOrWidth, modules.Bits())
    requires Grid(modules.bitOffsetOrWidth, isFunction.Bits())
    modifies modules.data, isFunction.data
    ensures modules.Bits() == WithFormat(modules.bitOffsetOrWidth, old(modules.Bits()), FormatWord(ecc, mask))
    ensures isFunction.Bits() == FormatMarked(modules.bitOffsetOrWidth, old(isFunction.Bits()), 31)
  {
    hide FormatWord, WordBit, FormatState, Grid;
    var size := modules.bitOffsetOrWidth;
    var data := FormatBits(ecc, mask);
    ghost var was, fn, word := modules.Bits(), isFunction.Bits(), data;
    FormatNone(size, was, fn, word);
    // first copy
    for i := 0 to 6
      invariant FormatState(size, was, fn, word, modules.Bits(), isFunction.Bits(), i)
    {
      DrawFormatModule(modules, isFunction, 8, i, WordBit(data, i), word, was, fn, i);
    }
    DrawFormatModule(modules, isFunction, 8, 7, WordBit(data, 6), word, was, fn, 6);
    DrawFormatModule(modules, isFunction, 8, 8, WordBit(data, 7), word, was, fn, 7);
    DrawFormatModule(modules, isFunction, 7, 8, WordBit(data, 8), word, was, fn, 8);
    for i := 9 to 15
      invariant FormatState(size, was, fn, word, modules.Bits(), isFunction.Bits(), i)
    {
      DrawFormatModule(modules, isFunction, 14 - i, 8, WordBit(data, i), word, was, fn, i);
    }
    // second copy
    for i := 0 to 8
      invariant FormatState(size, was, fn, word, modules.Bits(), isFunction.Bits(), 15 + i)
    {
      DrawFormatModule(modules, isFunction, size - 1 - i, 8, WordBit(data, i), word, was, fn, 15 + i);
    }
    for i := 8 to 15
      invariant FormatState(size, was, fn, word, modules.Bits(), isFunction.Bits(), 15 + i)
    {
      DrawFormatModule(modules, isFunction, 8, size - 15 + i, WordBit(data, i), word, was, fn, 15 + i);
    }
    DrawFormatModule(modules, isFunction, 8, size - 8, true, word, was, fn, 30);
    FormatAll(size, was, fn, word, modules.Bits(), isFunction.Bits());
  }
}
