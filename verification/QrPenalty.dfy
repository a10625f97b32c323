/** The penalty of a symbol (clause 7.8.3 of ISO/IEC 18004:2015): the specification counts
    runs, blocks, finder-like patterns and the balance of colours; the loops keep running
    counters and 11-bit windows instead. */
module QrPenalty {
  import opened Arith
  import opened BitStrings
  import opened BitBuckets
  import opened QrZigzag

  // ----- lines

  /** Is the module in column x and row y dark? */
  predicate At(size: int, g: seq<bool>, x: int, y: int)
    requires Grid(size, g) && 0 <= x < size && 0 <= y < size
  {
    RowMajor(y, x, size, size);
    g[y * size + x]
  }

  function Row(size: int, g: seq<bool>, y: int): (line: seq<bool>)
    requires Grid(size, g) && 0 <= y < size
    ensures |line| == size && forall x :: 0 <= x < size ==> line[x] == At(size, g, x, y)
  {
    seq(size, x requires 0 <= x < size => At(size, g, x, y))
  }

  function Column(size: int, g: seq<bool>, x: int): (line: seq<bool>)
    requires Grid(size, g) && 0 <= x < size
    ensures |line| == size && forall y :: 0 <= y < size ==> line[y] == At(size, g, x, y)
  {
    seq(size, y requires 0 <= y < size => At(size, g, x, y))
  }

  method GetModule(modules: BitBucket, x: nat, y: nat) returns (on: bool)
    requires Grid(modules.bitOffsetOrWidth, modules.Bits())
    requires x < modules.bitOffsetOrWidth && y < modules.bitOffsetOrWidth
    ensures on == At(modules.bitOffsetOrWidth, modules.Bits(), x, y)
  {
    RowMajor(y, x, modules.bitOffsetOrWidth, modules.bitOffsetOrWidth);
    on := modules.GetBit(x, y);
  }

  // ----- runs

  /** The length of the run that a line begins with. */
  function LeadRun(line: seq<bool>): (n: nat)
    ensures n <= |line| && (line != [] ==> n > 0)
  {
    if line == [] then 0
    else if |line| > 1 && line[1] == line[0] then 1 + LeadRun(line[1..])
    else 1
  }

  /** The sum over the maximal runs: 3 for a run of five, and one more for every further module. */
  function RunPenalty(line: seq<bool>): nat {
    if line == [] then 0
    else
      var n := LeadRun(line);
      (if n >= 5 then n - 2 else 0) + RunPenalty(line[n..])
  }

  /** The length of the run that a line ends with. */
  function TrailingRun(line: seq<bool>): (n: nat)
    ensures n <= |line| && (line != [] ==> n > 0)
  {
    if line == [] then 0
    else
      var n := |line| - 1;
      if n > 0 && line[n] == line[n - 1] then 1 + TrailingRun(line[..n]) else 1
  }

  lemma {:induction false} LeadRunUniform(line: seq<bool>)
    ensures forall i :: 0 <= i < LeadRun(line) ==> line[i] == line[0]
    ensures LeadRun(line) < |line| ==> line[LeadRun(line)] != line[0]
  {
    if |line| > 1 && line[1] == line[0] {
      LeadRunUniform(line[1..]);
      assert forall i :: 1 <= i < LeadRun(line) ==> line[i] == line[1..][i - 1];
    }
  }

  lemma {:induction false} LeadRunSnoc(line: seq<bool>, c: bool)
    requires line != []
    ensures LeadRun(line + [c]) == if LeadRun(line) == |line| && c == line[0] then |line| + 1 else LeadRun(line)
  {
    assert (line + [c])[1..] == line[1..] + [c];
    if |line| > 1 && line[1] == line[0] {
      LeadRunSnoc(line[1..], c);
    } else if |line| == 1 {
      assert LeadRun([c]) == 1;
    }
  }

  lemma {:induction false} TrailingRunSuffix(line: seq<bool>, n: nat)
    requires 0 < n < |line| && line[n] != line[n - 1]
    ensures TrailingRun(line) == TrailingRun(line[n..])
  {
    var m := |line| - 1;
    if n < m && line[m] == line[m - 1] {
      assert line[..m][n..] == line[n..][..m - n];
      TrailingRunSuffix(line[..m], n);
    }
  }

  lemma {:induction false} TrailingRunUniform(line: seq<bool>)
    requires forall i :: 0 <= i < |line| ==> line[i] == line[0]
    ensures TrailingRun(line) == |line|
  {
    if |line| > 1 {
      TrailingRunUniform(line[..|line| - 1]);
    }
  }

  /** What one more module adds to the penalty of a line. */
  function RunStep(line: seq<bool>, c: bool): nat
    requires line != []
  {
    if c != line[|line| - 1] then 0
    else if TrailingRun(line) + 1 == 5 then 3
    else if TrailingRun(line) + 1 > 5 then 1
    else 0
  }

  lemma RunPenaltySame(line: seq<bool>)
    requires line != [] && LeadRun(line) == |line|
    ensures RunPenalty(line) == if |line| >= 5 then |line| - 2 else 0
  {
    assert line[|line|..] == [];
  }

  lemma RunPenaltyUniform(line: seq<bool>, c: bool)
    requires line != [] && LeadRun(line) == |line|
    ensures RunPenalty(line + [c]) == RunPenalty(line) + RunStep(line, c)
  {
    LeadRunUniform(line);
    LeadRunSnoc(line, c);
    TrailingRunUniform(line);
    hide LeadRun, TrailingRun;
    RunPenaltySame(line);
    if c == line[0] {
      RunPenaltySame(line + [c]);
    } else {
      assert (line + [c])[|line|..] == [c];
      LeadRunSingle(c);
      RunPenaltySame([c]);
    }
  }

  lemma LeadRunSingle(c: bool)
    ensures LeadRun([c]) == 1
  {
  }

  lemma RunStepSuffix(line: seq<bool>, n: nat, c: bool)
    requires 0 < n < |line| && line[n] != line[n - 1]
    ensures RunStep(line, c) == RunStep(line[n..], c)
  {
    TrailingRunSuffix(line, n);
  }

  lemma RunPenaltyPeel(line: seq<bool>, c: bool)
    requires LeadRun(line) < |line|
    ensures var n, k := LeadRun(line), if LeadRun(line) >= 5 then LeadRun(line) - 2 else 0;
            && 0 < n && line[n] != line[n - 1]
            && RunPenalty(line) == k + RunPenalty(line[n..])
            && RunPenalty(line + [c]) == k + RunPenalty(line[n..] + [c])
  {
    hide LeadRun, RunPenalty;
    LeadRunUniform(line);
    LeadRunSnoc(line, c);
    RunPenaltyUnfold(line);
    RunPenaltyUnfold(line + [c]);
    assert (line + [c])[LeadRun(line)..] == line[LeadRun(line)..] + [c];
  }

  lemma RunPenaltyUnfold(line: seq<bool>)
    requires line != []
    ensures RunPenalty(line) == (if LeadRun(line) >= 5 then LeadRun(line) - 2 else 0) + RunPenalty(line[LeadRun(line)..])
  {
  }

  lemma {:induction false} RunPenaltySnoc(line: seq<bool>, c: bool)
    requires line != []
    ensures RunPenalty(line + [c]) == RunPenalty(line) + RunStep(line, c)
    decreases |line|
  {
    hide RunStep, RunPenalty;
    if LeadRun(line) == |line| {
      RunPenaltyUniform(line, c);
    } else {
      RunPenaltyPeel(line, c);
      RunStepSuffix(line, LeadRun(line), c);
      RunPenaltySnoc(line[LeadRun(line)..], c);
    }
  }

  lemma {:induction false} RunPenaltyBound(line: seq<bool>)
    ensures RunPenalty(line) <= |line|
  {
    if line != [] {
      RunPenaltyBound(line[LeadRun(line)..]);
    }
  }

  // ----- windows

  const LIGHT_FINDER := [false, false, false, false, true, false, true, true, true, false, true]
  const FINDER_LIGHT := [true, false, true, true, true, false, true, false, false, false, false]

  lemma ThreeMoreBits(p: seq<bool>, a: bool, b: bool, c: bool)
    ensures FromBits(p + [a, b, c]) == 8 * FromBits(p) + (if a then 4 else 0) + (if b then 2 else 0) + (if c then 1 else 0)
  {
    FromBitsSnoc(p, a);
    FromBitsSnoc(p + [a], b);
    FromBitsSnoc(p + [a] + [b], c);
    assert p + [a] + [b] + [c] == p + [a, b, c];
  }

  lemma FinderValues()
    ensures |LIGHT_FINDER| == |FINDER_LIGHT| == 11
    ensures FromBits(LIGHT_FINDER) == 0x05D && FromBits(FINDER_LIGHT) == 0x5D0
  {
    var t, f := true, false;
    ThreeMoreBits([], f, f, f);
    ThreeMoreBits([f, f, f], f, t, f);
    ThreeMoreBits([f, f, f, f, t, f], t, t, t);
    FromBitsSnoc([f, f, f, f, t, f, t, t, t], f);
    FromBitsSnoc([f, f, f, f, t, f, t, t, t, f], t);
    ThreeMoreBits([], t, f, t);
    ThreeMoreBits([t, f, t], t, t, f);
    ThreeMoreBits([t, f, t, t, t, f], t, f, f);
    FromBitsSnoc([t, f, t, t, t, f, t, f, f], f);
    FromBitsSnoc([t, f, t, t, t, f, t, f, f, f], f);
    assert [] + [f, f, f] == [f, f, f] && [f, f, f] + [f, t, f] == [f, f, f, f, t, f];
    assert [f, f, f, f, t, f] + [t, t, t] == [f, f, f, f, t, f, t, t, t];
    assert [f, f, f, f, t, f, t, t, t] + [f] + [t] == LIGHT_FINDER;
    assert [] + [t, f, t] == [t, f, t] && [t, f, t] + [t, t, f] == [t, f, t, t, t, f];
    assert [t, f, t, t, t, f] + [t, f, f] == [t, f, t, t, t, f, t, f, f];
    assert [t, f, t, t, t, f, t, f, f] + [f] + [f] == FINDER_LIGHT;
  }

  /** The last (at most) eleven modules of a line up to position x. */
  function Window(line: seq<bool>, x: nat): (w: seq<bool>)
    requires x < |line|
    ensures |w| == if x >= 10 then 11 else x + 1
  {
    line[if x >= 10 then x - 10 else 0..x + 1]
  }

  /** Does a finder-like pattern end at x? */
  predicate FinderLike(line: seq<bool>, x: nat)
    requires x < |line|
  {
    x >= 10 && (Window(line, x) == LIGHT_FINDER || Window(line, x) == FINDER_LIGHT)
  }

  /** The shift register holds the window. */
  lemma WindowStep(line: seq<bool>, x: nat, register: nat)
    requires x < |line|
    requires register == if x == 0 then 0 else FromBits(Window(line, x - 1))
    ensures register * 2 % 0x800 + (if line[x] then 1 else 0) == FromBits(Window(line, x))
  {
    hide FromBits, Pow2, Window;
    WindowGrows(line, x);
    if x == 0 {
      FromBitsSnoc([], line[0]);
      NoBitsValue();
    } else {
      var p := Window(line, x - 1);
      var kept := if |p| < 11 then p else p[1..];
      FromBitsSnoc(kept, line[x]);
      TenElevenBits();
      if |p| < 11 {
        FromBitsRange(p);
        PowMonotone(|p|, 10);
      } else {
        FromBitsDrop(p);
        FromBitsRange(p[1..]);
      }
    }
  }

  /** The new module comes in at one end; from the eleventh on the oldest one goes out at the other. */
  lemma WindowGrows(line: seq<bool>, x: nat)
    requires x < |line|
    ensures x == 0 ==> Window(line, x) == [] + [line[0]]
    ensures x > 0 ==>
              var p := Window(line, x - 1); Window(line, x) == (if |p| < 11 then p else p[1..]) + [line[x]]
  {
  }

  lemma NoBitsValue()
    ensures FromBits([]) == 0
  {
  }

  lemma TenElevenBits()
    ensures Pow2(10) == 1024 && Pow2(11) == 2048
  {
    assert Pow2(5) == 32;
  }

  /** Comparing the register with the two constants recognises the patterns. */
  lemma RegisterRecognises(line: seq<bool>, x: nat, register: nat)
    requires 10 <= x < |line| && register == FromBits(Window(line, x))
    ensures (register == 0x05D || register == 0x5D0) <==> FinderLike(line, x)
  {
    FinderValues();
    if register == 0x05D {
      FromBitsInjective(Window(line, x), LIGHT_FINDER);
    } else if register == 0x5D0 {
      FromBitsInjective(Window(line, x), FINDER_LIGHT);
    }
  }

  // ----- the whole score

  function RowRuns(size: int, g: seq<bool>, n: nat): nat
    requires Grid(size, g) && n <= size
  {
    if n == 0 then 0 else RowRuns(size, g, n - 1) + RunPenalty(Row(size, g, n - 1))
  }

  function ColumnRuns(size: int, g: seq<bool>, n: nat): nat
    requires Grid(size, g) && n <= size
  {
    if n == 0 then 0 else ColumnRuns(size, g, n - 1) + RunPenalty(Column(size, g, n - 1))
  }

  /** Is the 2 * 2 block whose lower right corner is (x, y) of one colour? */
  predicate Block(size: int, g: seq<bool>, x: nat, y: nat)
    requires Grid(size, g) && x < size && y < size
  {
    && x > 0 && y > 0
    && At(size, g, x, y) == At(size, g, x - 1, y - 1) == At(size, g, x, y - 1) == At(size, g, x - 1, y)
  }

  /** What is charged when the scan is at (x, y): a block, and patterns that end at place x of
      row y and of column y. */
  function Charge(size: int, g: seq<bool>, x: nat, y: nat): (c: nat)
    requires Grid(size, g) && x < size && y < size
    ensures c <= 83
  {
    (if Block(size, g, x, y) then 3 else 0)
    + (if FinderLike(Row(size, g, y), x) then 40 else 0)
    + (if FinderLike(Column(size, g, y), x) then 40 else 0)
  }

  /** The charges of all cells before place x of row y. */
  function Charges(size: int, g: seq<bool>, x: nat, y: nat): nat
    requires Grid(size, g) && x <= size && y <= size && (y == size ==> x == 0)
    decreases y, x
  {
    if x > 0 then Charges(size, g, x - 1, y) + Charge(size, g, x - 1, y)
    else if y > 0 then Charges(size, g, size, y - 1)
    else 0
  }

  /** The dark modules among them. */
  function Dark(size: int, g: seq<bool>, x: nat, y: nat): (n: nat)
    requires Grid(size, g) && x <= size && y <= size && (y == size ==> x == 0)
    ensures n <= y * size + x
    decreases y, x
  {
    if x > 0 then Dark(size, g, x - 1, y) + if At(size, g, x - 1, y) then 1 else 0
    else if y > 0 then (assert (y - 1) * size + size == y * size; Dark(size, g, size, y - 1))
    else 0
  }

  /** (45 - 5k)% <= dark / total <= (55 + 5k)% */
  predicate Balanced(dark: nat, total: nat, k: nat) {
    (45 - 5 * k) * total <= 100 * dark <= (55 + 5 * k) * total
  }

  /** The smallest k, from `from` on, that balances the colours. */
  function Imbalance(dark: nat, total: nat, from: nat): (k: nat)
    requires dark <= total && from <= 9
    ensures from <= k <= 9 && Balanced(dark, total, k) && forall j :: from <= j < k ==> !Balanced(dark, total, j)
    decreases 9 - from
  {
    if Balanced(dark, total, from) then from else (AtMostNine(dark, total, from); Imbalance(dark, total, from + 1))
  }

  lemma AtMostNine(dark: nat, total: nat, k: nat)
    requires dark <= total && k <= 9 && !Balanced(dark, total, k)
    ensures k < 9
  {
  }

  function Penalty(size: int, g: seq<bool>): nat
    requires Grid(size, g)
  {
    RowRuns(size, g, size) + ColumnRuns(size, g, size) + Charges(size, g, 0, size)
    + 10 * Imbalance(Dark(size, g, 0, size), size * size, 0)
  }

  // ----- getPenaltyScore

  lemma AboutGrid(size: int, g: seq<bool>)
    requires Grid(size, g)
    ensures size >= 1
  {
  }

  /** The inner loop over a row: the runs of one line, by a running counter. */
  method ScoreRow(modules: BitBucket, y: nat, start: nat) returns (result: nat)
    requires Grid(modules.bitOffsetOrWidth, modules.Bits()) && y < modules.bitOffsetOrWidth
    ensures result == start + RunPenalty(Row(modules.bitOffsetOrWidth, modules.Bits(), y))
  {
    hide RunPenalty, TrailingRun, Grid, At;
    AboutGrid(modules.bitOffsetOrWidth, modules.Bits());
    var size := modules.bitOffsetOrWidth;
    ghost var line := Row(size, modules.Bits(), y);
    result := start;
    var colorX := GetModule(modules, 0, y);
    SingleRun(line);
    var runX := 1;
    for x := 1 to size
      invariant colorX == line[x - 1] && runX == TrailingRun(line[..x])
      invariant result == start + RunPenalty(line[..x])
    {
      RunPenaltySnoc(line[..x], line[x]);
      TrailingRunSnoc(line[..x], line[x]);
      assert line[..x] + [line[x]] == line[..x + 1];
      var c := GetModule(modules, x, y);
      if c != colorX {
        colorX := c;
        runX := 1;
      } else {
        runX := runX + 1;
        if runX == 5 {
          result := result + 3;
        } else if runX > 5 {
          result := result + 1;
        }
      }
    }
    assert line[..size] == line;
  }

  /** The inner loop over a column: the runs of one line, by a running counter. */
  method ScoreColumn(modules: BitBucket, x: nat, start: nat) returns (result: nat)
    requires Grid(modules.bitOffsetOrWidth, modules.Bits()) && x < modules.bitOffsetOrWidth
    ensures result == start + RunPenalty(Column(modules.bitOffsetOrWidth, modules.Bits(), x))
  {
    hide RunPenalty, TrailingRun, Grid, At;
    AboutGrid(modules.bitOffsetOrWidth, modules.Bits());
    var size := modules.bitOffsetOrWidth;
    ghost var line := Column(size, modules.Bits(), x);
    result := start;
    var colorY := GetModule(modules, x, 0);
    SingleRun(line);
    var runY := 1;
    for y := 1 to size
      invariant colorY == line[y - 1] && runY == TrailingRun(line[..y])
      invariant result == start + RunPenalty(line[..y])
    {
      RunPenaltySnoc(line[..y], line[y]);
      TrailingRunSnoc(line[..y], line[y]);
      assert line[..y] + [line[y]] == line[..y + 1];
      var c := GetModule(modules, x, y);
      if c != colorY {
        colorY := c;
        runY := 1;
      } else {
        runY := runY + 1;
        if runY == 5 {
          result := result + 3;
        } else if runY > 5 {
          result := result + 1;
        }
      }
    }
    assert line[..size] == line;
  }

  lemma SingleRun(line: seq<bool>)
    requires line != []
    ensures RunPenalty(line[..1]) == 0 && TrailingRun(line[..1]) == 1
  {
    LeadRunSingle(line[0]);
    RunPenaltySame(line[..1]);
  }

  lemma TrailingRunSnoc(line: seq<bool>, c: bool)
    requires line != []
    ensures TrailingRun(line + [c]) == if c == line[|line| - 1] then 1 + TrailingRun(line) else 1
  {
    assert (line + [c])[..|line|] == line;
  }

  method ScoreLines(modules: BitBucket) returns (result: nat)
    requires Grid(modules.bitOffsetOrWidth, modules.Bits())
    ensures var size := modules.bitOffsetOrWidth;
            result == RowRuns(size, modules.Bits(), size) + ColumnRuns(size, modules.Bits(), size)
  {
    hide RunPenalty, Grid;
    var size := modules.bitOffsetOrWidth;
    result := 0;
    for y := 0 to size
      invariant result == RowRuns(size, modules.Bits(), y)
    {
      result := ScoreRow(modules, y, result);
    }
    for x := 0 to size
      invariant result == RowRuns(size, modules.Bits(), size) + ColumnRuns(size, modules.Bits(), x)
    {
      result := ScoreColumn(modules, x, result);
    }
  }

  lemma ChargeParts(size: int, g: seq<bool>, x: nat, y: nat, row: nat, column: nat)
    requires Grid(size, g) && x < size && y < size
    requires row == FromBits(Window(Row(size, g, y), x)) && column == FromBits(Window(Column(size, g, y), x))
    ensures Charge(size, g, x, y) ==
            (if Block(size, g, x, y) then 3 else 0)
            + (if x >= 10 && (row == 0x05D || row == 0x5D0) then 40 else 0)
            + (if x >= 10 && (column == 0x05D || column == 0x5D0) then 40 else 0)
  {
    hide Block, Window, FromBits, Row, Column;
    if x >= 10 {
      RegisterRecognises(Row(size, g, y), x, row);
      RegisterRecognises(Column(size, g, y), x, column);
    }
  }

  /** The block test at (x, y). */
  method ScoreBlock(modules: BitBucket, x: nat, y: nat, color: bool, start: nat) returns (result: nat)
    requires Grid(modules.bitOffsetOrWidth, modules.Bits())
    requires x < modules.bitOffsetOrWidth && y < modules.bitOffsetOrWidth
    requires color == At(modules.bitOffsetOrWidth, modules.Bits(), x, y)
    ensures result == start + if Block(modules.bitOffsetOrWidth, modules.Bits(), x, y) then 3 else 0
  {
    hide At, Grid;
    result := start;
    if x > 0 && y > 0 {
      var colorUL := GetModule(modules, x - 1, y - 1);
      var colorUR := GetModule(modules, x, y - 1);
      var colorL := GetModule(modules, x - 1, y);
      if color == colorUL && color == colorUR && color == colorL {
        result := result + 3;
      }
    }
  }

  /** The body of the row loop: blocks, finder-like patterns and dark modules of scan line y. */
  method ScoreCells(modules: BitBucket, y: nat, start: nat, dark: nat) returns (result: nat, black: nat)
    requires Grid(modules.bitOffsetOrWidth, modules.Bits()) && y < modules.bitOffsetOrWidth
    requires start >= Charges(modules.bitOffsetOrWidth, modules.Bits(), 0, y)
    requires dark == Dark(modules.bitOffsetOrWidth, modules.Bits(), 0, y)
    ensures result - start == Charges(modules.bitOffsetOrWidth, modules.Bits(), 0, y + 1)
                              - Charges(modules.bitOffsetOrWidth, modules.Bits(), 0, y)
    ensures black == Dark(modules.bitOffsetOrWidth, modules.Bits(), 0, y + 1)
  {
    hide At, Grid, Window, FromBits, Block, FinderLike, Charge;
    var size := modules.bitOffsetOrWidth;
    ghost var g := modules.Bits();
    ghost var before := Charges(size, g, 0, y);
    ghost var row, column := Row(size, g, y), Column(size, g, y);
    result, black := start, dark;
    var bitsRow, bitsCol := 0, 0;
    for x := 0 to size
      invariant bitsRow == if x == 0 then 0 else FromBits(Window(row, x - 1))
      invariant bitsCol == if x == 0 then 0 else FromBits(Window(column, x - 1))
      invariant result - start == Charges(size, g, x, y) - before
      invariant black == Dark(size, g, x, y)
    {
      var color := GetModule(modules, x, y);
      result := ScoreBlock(modules, x, y, color, result);
      WindowStep(row, x, bitsRow);
      WindowStep(column, x, bitsCol);
      bitsRow := bitsRow * 2 % 0x800 + if color then 1 else 0;
      var other := GetModule(modules, y, x);
      bitsCol := bitsCol * 2 % 0x800 + if other then 1 else 0;
      ChargeParts(size, g, x, y, bitsRow, bitsCol);
      if x >= 10 {
        if bitsRow == 0x05D || bitsRow == 0x5D0 {
          result := result + 40;
        }
        if bitsCol == 0x05D || bitsCol == 0x5D0 {
          result := result + 40;
        }
      }
      if color {
        black := black + 1;
      }
    }
  }

  /** getPenaltyScore */
  method GetPenaltyScore(modules: BitBucket) returns (result: nat)
    requires Grid(modules.bitOffsetOrWidth, modules.Bits())
    ensures result == Penalty(modules.bitOffsetOrWidth, modules.Bits())
  {
    hide Grid, Charge, RowRuns, ColumnRuns, At, Dark, Charges;
    var size := modules.bitOffsetOrWidth;
    ghost var g := modules.Bits();
    result := ScoreLines(modules);
    ghost var lines := result;
    var black := 0;
    NothingYet(size, g);
    for y := 0 to size
      invariant result == lines + Charges(size, g, 0, y)
      invariant black == Dark(size, g, 0, y)
    {
      result, black := ScoreCells(modules, y, result, black);
    }
    var total := size * size;
    DarkAtMost(size, g);
    ghost var scored := result;
    var k := 0;
    while black * 20 < (9 - k) * total || black * 20 > (11 + k) * total
      invariant 0 <= k <= Imbalance(black, total, 0) && result == scored + 10 * k
      decreases 9 - k
    {
      BalanceTest(black, total, k);
      result := result + 10;
      k := k + 1;
    }
    BalanceTest(black, total, k);
  }

  lemma NothingYet(size: int, g: seq<bool>)
    requires Grid(size, g)
    ensures Charges(size, g, 0, 0) == 0 && Dark(size, g, 0, 0) == 0
  {
  }

  lemma DarkAtMost(size: int, g: seq<bool>)
    requires Grid(size, g)
    ensures Dark(size, g, 0, size) <= size * size
  {
  }

  lemma BalanceTest(dark: nat, total: nat, k: nat)
    ensures Balanced(dark, total, k) <==> !(dark * 20 < (9 - k) * total || dark * 20 > (11 + k) * total)
  {
    assert (45 - 5 * k) * total == 5 * ((9 - k) * total);
    assert (55 + 5 * k) * total == 5 * ((11 + k) * total);
  }

  // ----- the score fits the 32-bit comparison of the mask choice

  lemma {:induction false} LinesBound(size: int, g: seq<bool>, n: nat)
    requires Grid(size, g) && n <= size
    ensures RowRuns(size, g, n) <= n * size && ColumnRuns(size, g, n) <= n * size
  {
    hide RunPenalty;
    if n > 0 {
      LinesBound(size, g, n - 1);
      RunPenaltyBound(Row(size, g, n - 1));
      RunPenaltyBound(Column(size, g, n - 1));
      assert (n - 1) * size + size == n * size;
    }
  }

  lemma {:induction false} ChargesBound(size: int, g: seq<bool>, x: nat, y: nat)
    requires Grid(size, g) && x <= size && y <= size && (y == size ==> x == 0)
    ensures Charges(size, g, x, y) <= 83 * (y * size + x)
    decreases y, x
  {
    hide Charge;
    if x > 0 {
      ChargesBound(size, g, x - 1, y);
    } else if y > 0 {
      ChargesBound(size, g, size, y - 1);
      assert (y - 1) * size + size == y * size;
    }
  }

  lemma PenaltyBound(size: int, g: seq<bool>)
    requires Grid(size, g) && size <= 177
    ensures Penalty(size, g) < 0x7FFF_FFFF
  {
    hide RowRuns, ColumnRuns, Charges;
    LinesBound(size, g, size);
    ChargesBound(size, g, 0, size);
    MulAtLeast(size, 177, size);
  }
}
