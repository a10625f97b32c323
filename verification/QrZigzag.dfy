/** Placing the codeword bits on the symbol along the zigzag scan (clause 7.7 of
    ISO/IEC 18004:2015). */
module QrZigzag {
  import opened Arith
  import opened BitBuckets

  // ----- the scan as a numbering of the cells

  /** The right column of the p-th column pair.  The pair that would begin at column 6 begins
      at column 5, and the later ones follow from there. */
  function RightColumn(size: int, p: int): int {
    var right := size - 1 - 2 * p;
    if right <= 6 <= size - 1 then right - 1 else right
  }

  /** Up or down: odd-numbered pairs from the right edge go the other way. */
  predicate Upwards(right: int, x: int) {
    (right / 2 % 2 == 0) != (x < 6)
  }

  /** The cell visited at step k. */
  function CellAt(size: int, k: int): (cell: (int, int))
    requires size > 0
  {
    var p, r := k / (2 * size), k % (2 * size);
    var right, vert, j := RightColumn(size, p), r / 2, r % 2;
    (right - j, if Upwards(right, right - j) then size - 1 - vert else vert)
  }

  /** The number of the pair that column x is in. */
  function PairOf(size: int, x: int): int {
    if x <= 5 && 6 <= size - 1 then (size - 2 - x) / 2 else (size - 1 - x) / 2
  }

  /** The step at which a cell is visited. */
  function StepOf(size: int, x: int, y: int): int {
    var p := PairOf(size, x);
    var right := RightColumn(size, p);
    var vert := if Upwards(right, x) then size - 1 - y else y;
    p * (2 * size) + (2 * vert + (right - x))
  }

  predicate InGrid(size: int, x: int, y: int) { 0 <= x < size && 0 <= y < size }

  /** The scan takes this many steps. */
  function Steps(size: int): nat
    requires size >= 1
  {
    MulAtLeast(0, (size - 1) / 2, 2 * size);
    (size - 1) / 2 * (2 * size)
  }

  lemma PairColumns(size: int, p: int)
    requires size >= 1 && size % 2 == 1 && 0 <= p < (size - 1) / 2
    ensures var right := RightColumn(size, p);
            1 <= right < size && PairOf(size, right) == p && PairOf(size, right - 1) == p
    ensures size >= 7 ==> RightColumn(size, p) != 6 && RightColumn(size, p) != 7
  {
  }

  lemma ColumnPair(size: int, x: int)
    requires size >= 7 && size % 2 == 1 && 0 <= x < size && x != 6
    ensures 0 <= PairOf(size, x) < (size - 1) / 2 && 0 <= RightColumn(size, PairOf(size, x)) - x <= 1
  {
  }

  /** Every step visits a cell outside column 6, and a different one: StepOf undoes CellAt. */
  lemma CellAtStep(size: int, k: int)
    requires size >= 1 && size % 2 == 1 && 0 <= k < Steps(size)
    ensures var (x, y) := CellAt(size, k);
            InGrid(size, x, y) && (size >= 7 ==> x != 6) && StepOf(size, x, y) == k
  {
    DivModBounds(k, 2 * size, (size - 1) / 2);
    CellInPair(size, k / (2 * size), k % (2 * size));
  }

  /** A step inside a column pair. */
  lemma CellInPair(size: int, p: int, r: int)
    requires size >= 1 && size % 2 == 1 && 0 <= p < (size - 1) / 2 && 0 <= r < 2 * size
    ensures var right, vert, j := RightColumn(size, p), r / 2, r % 2;
            var x, y := right - j, if Upwards(right, right - j) then size - 1 - vert else vert;
            InGrid(size, x, y) && (size >= 7 ==> x != 6) && StepOf(size, x, y) == p * (2 * size) + r
  {
    PairColumns(size, p);
    hide RightColumn, PairOf, Upwards;
  }

  /** On symbols of at least 7 modules every cell outside column 6 is visited. */
  lemma StepOfCell(size: int, x: int, y: int)
    requires size >= 7 && size % 2 == 1 && InGrid(size, x, y) && x != 6
    ensures 0 <= StepOf(size, x, y) < Steps(size) && CellAt(size, StepOf(size, x, y)) == (x, y)
  {
    ColumnPair(size, x);
    hide RightColumn, PairOf, Upwards;
    var right := RightColumn(size, PairOf(size, x));
    var vert := if Upwards(right, x) then size - 1 - y else y;
    RowMajor(PairOf(size, x), 2 * vert + (right - x), (size - 1) / 2, 2 * size);
    Halves(vert, right - x);
  }

  lemma Halves(a: int, b: int)
    requires 0 <= b < 2
    ensures (2 * a + b) / 2 == a && (2 * a + b) % 2 == b
  {
  }

  predicate Visited(size: int, x: int, y: int)
    requires size > 0
  {
    exists k :: 0 <= k < Steps(size) && CellAt(size, k) == (x, y)
  }

  /** The scan covers everything outside column 6 exactly on symbols of at least 7 modules:
      the smaller odd sizes have no column to skip and lose column 0. */
  lemma CoversIff(size: int)
    requires size >= 1 && size % 2 == 1
    ensures (forall x, y :: InGrid(size, x, y) && x != 6 ==> Visited(size, x, y)) <==> size >= 7
  {
    if size >= 7 {
      forall x, y | InGrid(size, x, y) && x != 6
        ensures Visited(size, x, y)
      {
        StepOfCell(size, x, y);
      }
    } else {
      assert InGrid(size, 0, 0);
      if Visited(size, 0, 0) {
        var k :| 0 <= k < Steps(size) && CellAt(size, k) == (0, 0);
        DivModBounds(k, 2 * size, (size - 1) / 2);
      }
    }
  }

  // ----- reading and writing along the scan

  /** The bit of a grid that holds the cell of step k. */
  function PlaceAt(size: int, k: int): int
    requires size > 0
  {
    var (x, y) := CellAt(size, k);
    y * size + x
  }

  lemma PlaceInRange(size: int, k: int)
    requires size >= 1 && size % 2 == 1 && 0 <= k < Steps(size)
    ensures 0 <= PlaceAt(size, k) < size * size
  {
    CellAtStep(size, k);
    var (x, y) := CellAt(size, k);
    RowMajor(y, x, size, size);
  }

  lemma PlacesDistinct(size: int, k: int, m: int)
    requires size >= 1 && size % 2 == 1 && 0 <= k < m < Steps(size)
    ensures PlaceAt(size, k) != PlaceAt(size, m)
  {
    PlaceBack(size, k);
    PlaceBack(size, m);
    hide PlaceAt, Steps, StepOf;
  }

  /** The step can be told from the place. */
  lemma PlaceBack(size: int, k: int)
    requires size >= 1 && size % 2 == 1 && 0 <= k < Steps(size)
    ensures StepOf(size, PlaceAt(size, k) % size, PlaceAt(size, k) / size) == k
  {
    CellAtStep(size, k);
    hide StepOf, Steps, CellAt;
    var (x, y) := CellAt(size, k);
    RowMajor(y, x, size, size);
  }

  predicate Grid(size: int, bits: seq<bool>) {
    size >= 1 && size % 2 == 1 && size * size <= |bits|
  }

  /** The free modules met in the first k steps, in scan order. */
  function ReadFree(size: int, modules: seq<bool>, isFunction: seq<bool>, k: nat): (bits: seq<bool>)
    requires Grid(size, modules) && Grid(size, isFunction) && k <= Steps(size)
    ensures |bits| <= k
  {
    if k == 0 then []
    else
      PlaceInRange(size, k - 1);
      var place := PlaceAt(size, k - 1);
      ReadFree(size, modules, isFunction, k - 1) + if isFunction[place] then [] else [modules[place]]
  }

  /** A write at a later step does not change what was read. */
  lemma {:induction false} ReadFrame(size: int, modules: seq<bool>, isFunction: seq<bool>, k: nat, m: nat, on: bool)
    requires Grid(size, modules) && Grid(size, isFunction) && k <= m < Steps(size)
    requires 0 <= PlaceAt(size, m) < |modules|
    ensures ReadFree(size, modules[PlaceAt(size, m) := on], isFunction, k) == ReadFree(size, modules, isFunction, k)
  {
    hide PlaceAt;
    if k > 0 {
      ReadFrame(size, modules, isFunction, k - 1, m, on);
      PlaceInRange(size, k - 1);
      PlacesDistinct(size, k - 1, m);
    }
  }

  /** How many free modules a scan meets does not depend on their colours. */
  lemma {:induction false} FreeCount(size: int, a: seq<bool>, b: seq<bool>, isFunction: seq<bool>, k: nat)
    requires Grid(size, a) && Grid(size, b) && Grid(size, isFunction) && k <= Steps(size)
    ensures |ReadFree(size, a, isFunction, k)| == |ReadFree(size, b, isFunction, k)|
  {
    if k > 0 {
      FreeCount(size, a, b, isFunction, k - 1);
    }
  }

  /** State of the placement loops after k steps: the free modules met so far hold the code bits
      while these last, then what they held before; nothing else has changed. */
  ghost predicate Placed(size: int, was: seq<bool>, now: seq<bool>, isFunction: seq<bool>, code: seq<bool>, i: nat, k: nat)
  {
    PlacedFree(size, was, now, isFunction, code, i, k) && Untouched(size, was, now, k)
  }

  predicate Passed(size: int, p: int, k: nat)
    requires size > 0
  {
    exists m {:trigger PlaceAt(size, m)} :: 0 <= m < k && PlaceAt(size, m) == p
  }

  /** What the scan has not come by is as it was. */
  ghost predicate Untouched(size: int, was: seq<bool>, now: seq<bool>, k: nat) {
    size > 0 && |now| == |was| && forall p :: 0 <= p < |was| && !Passed(size, p, k) ==> now[p] == was[p]
  }

  lemma UntouchedStep(size: int, was: seq<bool>, now: seq<bool>, k: nat, on: bool)
    requires Untouched(size, was, now, k) && 0 <= PlaceAt(size, k) < |was|
    ensures Untouched(size, was, now, k + 1) && Untouched(size, was, now[PlaceAt(size, k) := on], k + 1)
  {
    hide PlaceAt;
    forall p | 0 <= p < |was| && !Passed(size, p, k + 1) ensures !Passed(size, p, k) && p != PlaceAt(size, k) {
    }
  }

  ghost predicate PlacedFree(size: int, was: seq<bool>, now: seq<bool>, isFunction: seq<bool>, code: seq<bool>, i: nat, k: nat)
  {
    && Grid(size, was) && Grid(size, isFunction) && |now| == |was| && k <= Steps(size)
    && (var before := ReadFree(size, was, isFunction, k);
        && i == (if |before| <= |code| then |before| else |code|)
        && ReadFree(size, now, isFunction, k) == code[..i] + before[i..])
    && (forall p :: 0 <= p < |was| && (p >= size * size || isFunction[p]) ==> now[p] == was[p])
    && (forall m {:trigger PlaceAt(size, m)} :: k <= m < Steps(size) && 0 <= PlaceAt(size, m) < |was| ==>
          now[PlaceAt(size, m)] == was[PlaceAt(size, m)])
  }

  lemma PlaceFreeStep(size: int, was: seq<bool>, now: seq<bool>, isFunction: seq<bool>, code: seq<bool>, i: nat, k: nat)
    requires PlacedFree(size, was, now, isFunction, code, i, k) && k < Steps(size)
    ensures 0 <= PlaceAt(size, k) < size * size
    ensures !isFunction[PlaceAt(size, k)] && i < |code| ==>
              PlacedFree(size, was, now[PlaceAt(size, k) := code[i]], isFunction, code, i + 1, k + 1)
    ensures isFunction[PlaceAt(size, k)] || i >= |code| ==> PlacedFree(size, was, now, isFunction, code, i, k + 1)
  {
    hide PlaceAt;
    PlaceInRange(size, k);
    var place := PlaceAt(size, k);
    FreeCount(size, was, now, isFunction, k);
    forall m {:trigger PlaceAt(size, m)} | k < m < Steps(size)
      ensures PlaceAt(size, m) != place
    {
      PlacesDistinct(size, k, m);
    }
    if !isFunction[place] && i < |code| {
      ReadFrame(size, now, isFunction, k, k, code[i]);
    }
  }

  lemma PlaceStep(size: int, was: seq<bool>, now: seq<bool>, isFunction: seq<bool>, code: seq<bool>, i: nat, k: nat)
    requires Placed(size, was, now, isFunction, code, i, k) && k < Steps(size)
    ensures 0 <= PlaceAt(size, k) < size * size
    ensures !isFunction[PlaceAt(size, k)] && i < |code| ==>
              Placed(size, was, now[PlaceAt(size, k) := code[i]], isFunction, code, i + 1, k + 1)
    ensures isFunction[PlaceAt(size, k)] || i >= |code| ==> Placed(size, was, now, isFunction, code, i, k + 1)
  {
    PlaceFreeStep(size, was, now, isFunction, code, i, k);
    hide PlaceAt, PlacedFree, Untouched, Steps;
    UntouchedStep(size, was, now, k, i < |code| && code[i]);
  }

  /** The step at which the p-th column pair begins. */
  function PairStart(size: int, p: nat): nat
    requires size >= 1
  {
    MulAtLeast(0, p, 2 * size);
    p * (2 * size)
  }

  lemma PairStarts(size: int, p: nat)
    requires size >= 1
    ensures PairStart(size, 0) == 0 && PairStart(size, p + 1) == PairStart(size, p) + 2 * size
    ensures PairStart(size, (size - 1) / 2) == Steps(size)
  {
  }

  lemma CellOf(size: int, p: nat, vert: nat, j: nat)
    requires size >= 1 && size % 2 == 1 && p < (size - 1) / 2 && vert < size && j < 2
    ensures var k, right := PairStart(size, p) + 2 * vert + j, RightColumn(size, p);
            && k < Steps(size)
            && CellAt(size, k) == (right - j, if Upwards(right, right - j) then size - 1 - vert else vert)
  {
    hide RightColumn, Upwards;
    RowMajor(p, 2 * vert + j, (size - 1) / 2, 2 * size);
    Halves(vert, j);
  }

  // ----- the order of the scan, as a path over the grid

  type Spot = (int, int)

  /** How the path goes on after its cell number k: to the left neighbour; or back to the right and one row further; or,
      at the end of a pair of columns, to the next pair in the same row, where the columns 8 and 7 are followed by 5 and 4. */
  predicate Onward(size: int, k: nat, a: Spot, b: Spot)
    requires size > 0
  {
    if k % 2 == 0 then b == (a.0 - 1, a.1)
    else if (k + 1) % (2 * size) != 0 then b.0 == a.0 + 1 && (b.1 == a.1 + 1 || b.1 == a.1 - 1)
    else b == (if a.0 == 7 then 5 else a.0 - 1, a.1)
  }

  /** The path begins in the lower right corner, or in the upper right one where size % 4 is 3, stays inside the grid, goes
      on as above and comes by no cell twice. */
  ghost predicate ZigzagPath(size: int, path: seq<Spot>) {
    && size > 0 && |path| == size * (size - 1)
    && (path != [] ==> path[0] == (size - 1, if size % 4 == 3 then 0 else size - 1))
    && (forall k :: 0 <= k < |path| ==> InGrid(size, path[k].0, path[k].1))
    && (forall k: nat :: k + 1 < |path| ==> Onward(size, k, path[k], path[k + 1]))
    && (forall k, m :: 0 <= k < m < |path| ==> path[k] != path[m])
  }

  predicate ScanSize(size: int) { size >= 9 && size % 2 == 1 }

  /** Every other pair of columns is scanned upwards. */
  predicate UpPair(size: int, p: int) { (p % 2 == 0) == (size % 4 != 3) }

  lemma UpwardsIs(size: int, p: int, j: int)
    requires ScanSize(size) && 0 <= p < (size - 1) / 2 && 0 <= j < 2
    ensures Upwards(RightColumn(size, p), RightColumn(size, p) - j) == UpPair(size, p)
  {
  }

  /** The right columns from pair to pair. */
  lemma NextColumns(size: int, p: int)
    requires ScanSize(size) && 0 <= p
    ensures RightColumn(size, 0) == size - 1
    ensures p + 1 < (size - 1) / 2 ==>
              RightColumn(size, p + 1) == if RightColumn(size, p) - 1 == 7 then 5 else RightColumn(size, p) - 2
  {
  }

  lemma StepsAre(size: int)
    requires size >= 1 && size % 2 == 1
    ensures Steps(size) == size * (size - 1)
  {
    var h := (size - 1) / 2;
    assert size == 2 * h + 1;
    assert h * (2 * size) == size * (2 * h);
  }

  /** The numbers of pair, row and side of a step. */
  lemma StepParts(size: int, k: nat) returns (p: nat, vert: nat, j: nat)
    requires size >= 1 && size % 2 == 1 && k < Steps(size)
    ensures p < (size - 1) / 2 && vert < size && j < 2 && k == PairStart(size, p) + 2 * vert + j
  {
    DivModBounds(k, 2 * size, (size - 1) / 2);
    var r := k % (2 * size);
    p, vert, j := k / (2 * size), r / 2, r % 2;
  }

  /** The cell in row number `vert` of the p-th pair as it is scanned, on the right or on the left. */
  function SpotOf(size: int, p: int, vert: int, j: int): Spot {
    (RightColumn(size, p) - j, if UpPair(size, p) then size - 1 - vert else vert)
  }

  lemma PartsCell(size: int, p: nat, vert: nat, j: nat)
    requires ScanSize(size) && p < (size - 1) / 2 && vert < size && j < 2
    ensures var k := PairStart(size, p) + 2 * vert + j;
            && k < Steps(size) && k % 2 == j && ((k + 1) % (2 * size) == 0 <==> vert == size - 1 && j == 1)
            && CellAt(size, k) == SpotOf(size, p, vert, j)
  {
    hide RightColumn, Upwards, UpPair, CellAt, Steps, PairStart;
    CellOf(size, p, vert, j);
    UpwardsIs(size, p, j);
    PartsPlace(size, p, vert, j);
  }

  lemma PartsPlace(size: int, p: nat, vert: nat, j: nat)
    requires size >= 1 && vert < size && j < 2
    ensures var k := PairStart(size, p) + 2 * vert + j;
            k % 2 == j && ((k + 1) % (2 * size) == 0 <==> vert == size - 1 && j == 1)
  {
    var r := 2 * vert + j;
    EvenStart(size, p, r);
    hide PairStart;
    if r + 1 < 2 * size {
      DivModUnique(PairStart(size, p) + r + 1, p, r + 1, 2 * size);
    } else {
      LastOfPair(size, p);
    }
  }

  lemma LastOfPair(size: int, p: nat)
    requires size >= 1
    ensures (PairStart(size, p) + 2 * size) % (2 * size) == 0
  {
    assert PairStart(size, p) + 2 * size == (p + 1) * (2 * size);
    DivModUnique(PairStart(size, p) + 2 * size, p + 1, 0, 2 * size);
  }

  lemma EvenStart(size: int, p: nat, r: nat)
    requires size >= 1
    ensures PairStart(size, p) == p * (2 * size) && (PairStart(size, p) + r) % 2 == r % 2
  {
    assert PairStart(size, p) == 2 * (p * size);
  }

  lemma SpotOnward(size: int, k: nat, p: nat, vert: nat, j: nat)
    requires ScanSize(size) && p < (size - 1) / 2 && vert < size && j < 2
    requires k % 2 == j && ((k + 1) % (2 * size) == 0 <==> vert == size - 1 && j == 1)
    ensures j == 0 ==> Onward(size, k, SpotOf(size, p, vert, 0), SpotOf(size, p, vert, 1))
    ensures j == 1 && vert + 1 < size ==> Onward(size, k, SpotOf(size, p, vert, 1), SpotOf(size, p, vert + 1, 0))
    ensures j == 1 && vert + 1 == size && p + 1 < (size - 1) / 2 ==>
              Onward(size, k, SpotOf(size, p, vert, 1), SpotOf(size, p + 1, 0, 0))
  {
    NextColumns(size, p);
    Turns(size, p);
    hide RightColumn, UpPair;
  }

  lemma Turns(size: int, p: nat)
    ensures UpPair(size, p + 1) == !UpPair(size, p)
  {
  }

  /** The numbered cells follow one another like that. */
  lemma CellOnward(size: int, k: nat)
    requires ScanSize(size) && k + 1 < Steps(size)
    ensures Onward(size, k, CellAt(size, k), CellAt(size, k + 1))
  {
    hide CellAt, PairStart, Steps, SpotOf, Onward;
    var p, vert, j := StepParts(size, k);
    PartsCell(size, p, vert, j);
    SpotOnward(size, k, p, vert, j);
    if j == 0 {
      PartsCell(size, p, vert, 1);
    } else if vert + 1 < size {
      PartsCell(size, p, vert + 1, 0);
    } else {
      PairStarts(size, p);
      LaterPair(size, p);
      PartsCell(size, p + 1, 0, 0);
    }
  }

  lemma LaterPair(size: int, p: nat)
    requires size >= 1 && size % 2 == 1 && PairStart(size, p) + 2 * size < Steps(size)
    ensures p + 1 < (size - 1) / 2
  {
    if p + 1 >= (size - 1) / 2 { MulAtLeast((size - 1) / 2, p + 1, 2 * size); }
  }

  /** After any cell of the path there is only one way to go on that the path has not come by. */
  lemma OnlyWay(size: int, path: seq<Spot>, k: nat)
    requires ScanSize(size) && ZigzagPath(size, path) && |path| == Steps(size) && k + 1 < |path|
    requires forall i: nat :: i <= k ==> path[i] == CellAt(size, i)
    ensures path[k + 1] == CellAt(size, k + 1)
  {
    hide CellAt, PairStart, Steps;
    var p, vert, j := StepParts(size, k);
    PartsCell(size, p, vert, j);
    CellOnward(size, k);
    assert Onward(size, k, path[k], path[k + 1]);
    if j == 1 && vert + 1 < size {
      PartsCell(size, p, vert + 1, 0);
      if vert > 0 {
        PartsCell(size, p, vert - 1, 0);
        assert path[k - 3] == CellAt(size, k - 3);
      }
      hide RightColumn, Onward;
      assert InGrid(size, path[k + 1].0, path[k + 1].1);
    }
  }

  /** The numbering by steps is such a path, and there is no other one. */
  lemma ScanIsPath(size: int, path: seq<Spot>)
    requires ScanSize(size) && |path| == Steps(size)
    ensures ZigzagPath(size, path) <==> forall k: nat :: k < |path| ==> path[k] == CellAt(size, k)
  {
    StepsAre(size);
    if forall k: nat :: k < |path| ==> path[k] == CellAt(size, k) {
      NumberedPath(size, path);
    }
    if ZigzagPath(size, path) {
      forall k: nat | k < |path| ensures path[k] == CellAt(size, k) {
        PathNumbered(size, path, k);
      }
    }
  }

  /** There is such a path. */
  lemma PathExists(size: int) returns (path: seq<Spot>)
    requires ScanSize(size)
    ensures ZigzagPath(size, path)
  {
    path := seq(Steps(size), k requires 0 <= k < Steps(size) => CellAt(size, k));
    ScanIsPath(size, path);
  }

  lemma NumberedPath(size: int, path: seq<Spot>)
    requires ScanSize(size) && |path| == Steps(size) == size * (size - 1)
    requires forall k: nat :: k < |path| ==> path[k] == CellAt(size, k)
    ensures ZigzagPath(size, path)
  {
    hide CellAt, Steps, Onward, StepOf;
    FirstOfScan(size);
    forall k: nat | k < |path| ensures InGrid(size, path[k].0, path[k].1) && StepOf(size, path[k].0, path[k].1) == k {
      CellAtStep(size, k);
    }
    forall k: nat | k + 1 < |path| ensures Onward(size, k, path[k], path[k + 1]) {
      CellOnward(size, k);
    }
    forall k, m | 0 <= k < m < |path| ensures path[k] != path[m] {
      assert StepOf(size, path[k].0, path[k].1) == k && StepOf(size, path[m].0, path[m].1) == m;
    }
  }

  lemma FirstOfScan(size: int)
    requires ScanSize(size)
    ensures Steps(size) > 0 && CellAt(size, 0) == (size - 1, if size % 4 == 3 then 0 else size - 1)
  {
    PartsCell(size, 0, 0, 0);
    PairStarts(size, 0);
    NextColumns(size, 0);
    hide CellAt, RightColumn, Steps;
  }

  lemma {:induction false} PathNumbered(size: int, path: seq<Spot>, k: nat)
    requires ScanSize(size) && ZigzagPath(size, path) && |path| == Steps(size) && k < |path|
    ensures forall i: nat :: i <= k ==> path[i] == CellAt(size, i)
  {
    hide CellAt, Steps, ZigzagPath;
    if k == 0 {
      FirstOfScan(size);
      FirstOfPath(size, path);
    } else {
      PathNumbered(size, path, k - 1);
      OnlyWay(size, path, k - 1);
    }
  }

  lemma FirstOfPath(size: int, path: seq<Spot>)
    requires ZigzagPath(size, path) && path != []
    ensures path[0] == (size - 1, if size % 4 == 3 then 0 else size - 1)
  {
  }

  // ----- the code bits along the path

  predicate IsFree(isFunction: seq<bool>, p: int) { 0 <= p < |isFunction| && !isFunction[p] }

  /** The bits of the grid at which a path comes by free modules, in its order. */
  function FreeOnPath(size: int, path: seq<Spot>, isFunction: seq<bool>): seq<int> {
    if path == [] then []
    else
      var n := |path| - 1;
      var p := path[n].1 * size + path[n].0;
      FreeOnPath(size, path[..n], isFunction) + if IsFree(isFunction, p) then [p] else []
  }

  /** The free modules on the path hold the code bits in order while these last; nothing else has changed. */
  ghost predicate AlongPath(size: int, path: seq<Spot>, was: seq<bool>, now: seq<bool>, isFunction: seq<bool>, code: seq<bool>) {
    var free := FreeOnPath(size, path, isFunction);
    && |now| == |was|
    && (forall n :: 0 <= n < |free| ==>
          0 <= free[n] < |was| && now[free[n]] == if n < |code| then code[n] else was[free[n]])
    && (forall p :: 0 <= p < |was| && p !in free ==> now[p] == was[p])
  }

  lemma {:induction false} FreeIsRead(size: int, path: seq<Spot>, modules: seq<bool>, isFunction: seq<bool>)
    requires Grid(size, modules) && Grid(size, isFunction) && |path| <= Steps(size)
    requires forall k: nat :: k < |path| ==> path[k] == CellAt(size, k)
    ensures var free, read := FreeOnPath(size, path, isFunction), ReadFree(size, modules, isFunction, |path|);
            |free| == |read| && forall n :: 0 <= n < |free| ==> 0 <= free[n] < |modules| && read[n] == modules[free[n]]
  {
    hide CellAt, Steps;
    if path != [] {
      var n := |path| - 1;
      FreeIsRead(size, path[..n], modules, isFunction);
      PlaceInRange(size, n);
    }
  }

  lemma {:induction false} PassedFree(size: int, path: seq<Spot>, isFunction: seq<bool>, p: int)
    requires size > 0 && forall k: nat :: k < |path| ==> path[k] == CellAt(size, k)
    requires IsFree(isFunction, p) && Passed(size, p, |path|)
    ensures p in FreeOnPath(size, path, isFunction)
  {
    hide CellAt, IsFree;
    if path != [] {
      var n := |path| - 1;
      if PlaceAt(size, n) != p {
        PassedBefore(size, p, n);
        PassedFree(size, path[..n], isFunction, p);
      }
    } else {
      assert false;
    }
  }

  lemma PassedBefore(size: int, p: int, n: nat)
    requires size > 0 && Passed(size, p, n + 1) && PlaceAt(size, n) != p
    ensures Passed(size, p, n)
  {
    hide PlaceAt;
  }

  /** What is drawn step by step is drawn along the path. */
  lemma DrawnAlong(size: int, path: seq<Spot>, was: seq<bool>, now: seq<bool>, isFunction: seq<bool>, code: seq<bool>, i: nat)
    requires ScanSize(size) && ZigzagPath(size, path)
    requires Placed(size, was, now, isFunction, code, i, Steps(size))
    ensures AlongPath(size, path, was, now, isFunction, code)
  {
    StepsAre(size);
    ScanIsPath(size, path);
    FreeIsRead(size, path, was, isFunction);
    FreeIsRead(size, path, now, isFunction);
    hide CellAt, Steps, ZigzagPath, FreeOnPath, PlaceAt;
    forall p | 0 <= p < |was| && p !in FreeOnPath(size, path, isFunction) ensures now[p] == was[p] {
      if IsFree(isFunction, p) && Passed(size, p, |path|) { PassedFree(size, path, isFunction, p); }
    }
  }

  /** The whole scan is done: as many free modules as there are code bits hold these, in order,
      and nothing else has changed. */
  ghost predicate Drawn(size: int, was: seq<bool>, now: seq<bool>, isFunction: seq<bool>, code: seq<bool>)
    requires size >= 1
  {
    exists i: nat :: Placed(size, was, now, isFunction, code, i, Steps(size))
  }

  /** The innermost loop body: one cell of the scan. */
  method DrawCell(modules: BitBucket, isFunction: BitBucket, codewords: BitBucket, bitLength: nat, i: nat, x: nat, y: nat,
                  ghost was: seq<bool>, ghost k: nat) returns (i': nat)
    requires bitLength == codewords.bitOffsetOrWidth <= 8 * codewords.data.Length
    requires isFunction.bitOffsetOrWidth == modules.bitOffsetOrWidth
    requires modules.data != isFunction.data && modules.data != codewords.data
    requires var size := modules.bitOffsetOrWidth;
             && size > 0 && k < Steps(size) && CellAt(size, k) == (x, y)
             && Placed(size, was, modules.Bits(), isFunction.Bits(), codewords.Bits()[..bitLength], i, k)
    modifies modules.data
    ensures Placed(modules.bitOffsetOrWidth, was, modules.Bits(), isFunction.Bits(), codewords.Bits()[..bitLength], i', k + 1)
  {
    PlaceStep(modules.bitOffsetOrWidth, was, modules.Bits(), isFunction.Bits(), codewords.Bits()[..bitLength], i, k);
    assert PlaceAt(modules.bitOffsetOrWidth, k) == modules.Offset(x, y);
    hide PlaceAt, Steps, Placed, Bit, CellAt;
    var skip := isFunction.GetBit(x, y);
    i' := i;
    if !skip && i < bitLength {
      modules.SetBit(x, y, Bit(codewords.data[i / 8], i % 8));
      i' := i + 1;
    }
  }

  /** The middle loop: both columns of one pair, from top to bottom or from bottom to top. */
  method DrawPair(modules: BitBucket, isFunction: BitBucket, codewords: BitBucket, bitLength: nat, i: nat, right: nat,
                  ghost was: seq<bool>, ghost p: nat) returns (i': nat)
    requires bitLength == codewords.bitOffsetOrWidth <= 8 * codewords.data.Length
    requires isFunction.bitOffsetOrWidth == modules.bitOffsetOrWidth
    requires modules.data != isFunction.data && modules.data != codewords.data
    requires var size := modules.bitOffsetOrWidth;
             && size % 2 == 1 && p < (size - 1) / 2 && right == RightColumn(size, p) >= 1
             && Placed(size, was, modules.Bits(), isFunction.Bits(), codewords.Bits()[..bitLength], i, PairStart(size, p))
    modifies modules.data
    ensures var size := modules.bitOffsetOrWidth;
            Placed(size, was, modules.Bits(), isFunction.Bits(), codewords.Bits()[..bitLength], i', PairStart(size, p + 1))
  {
    hide Placed, CellAt, Steps, PairStart, RightColumn;
    var size := modules.bitOffsetOrWidth;
    i' := i;
    ghost var first := PairStart(size, p);
    for vert := 0 to size
      invariant Placed(size, was, modules.Bits(), isFunction.Bits(), codewords.Bits()[..bitLength], i', first + 2 * vert)
    {
      for j := 0 to 2
        invariant Placed(size, was, modules.Bits(), isFunction.Bits(), codewords.Bits()[..bitLength], i', first + 2 * vert + j)
      {
        var x := right - j;
        var upwards := (right / 2 % 2 == 0) != (x < 6);
        var y := if upwards then size - 1 - vert else vert;
        CellOf(size, p, vert, j);
        i' := DrawCell(modules, isFunction, codewords, bitLength, i', x, y, was, first + 2 * vert + j);
      }
    }
    PairStarts(size, p);
  }

  /** The loop variable when the p-th pair is about to be scanned. */
  function NextRight(size: int, p: int): int {
    if size - 1 - 2 * p < 6 <= size - 1 then size - 2 - 2 * p else size - 1 - 2 * p
  }

  lemma RightSteps(size: int, p: int)
    requires size >= 1 && size % 2 == 1 && 0 <= p <= (size - 1) / 2
    ensures NextRight(size, 0) == size - 1
    ensures NextRight(size, p) >= 1 <==> p < (size - 1) / 2
    ensures p < (size - 1) / 2 ==>
              && (if NextRight(size, p) == 6 then 5 else NextRight(size, p)) == RightColumn(size, p) >= 1
              && NextRight(size, p + 1) == RightColumn(size, p) - 2
  {
  }

  /** The body of the outer loop: column 6 is skipped. */
  method DrawNextPair(modules: BitBucket, isFunction: BitBucket, codewords: BitBucket, bitLength: nat, i: nat, from: int,
                      ghost was: seq<bool>, ghost p: nat) returns (i': nat, right: int)
    requires bitLength == codewords.bitOffsetOrWidth <= 8 * codewords.data.Length
    requires isFunction.bitOffsetOrWidth == modules.bitOffsetOrWidth
    requires modules.data != isFunction.data && modules.data != codewords.data
    requires var size := modules.bitOffsetOrWidth;
             && size % 2 == 1 && p < (size - 1) / 2 && from == NextRight(size, p)
             && Placed(size, was, modules.Bits(), isFunction.Bits(), codewords.Bits()[..bitLength], i, PairStart(size, p))
    modifies modules.data
    ensures var size := modules.bitOffsetOrWidth;
            && right == NextRight(size, p + 1)
            && Placed(size, was, modules.Bits(), isFunction.Bits(), codewords.Bits()[..bitLength], i', PairStart(size, p + 1))
  {
    hide Placed, PairStart, NextRight, RightColumn;
    RightSteps(modules.bitOffsetOrWidth, p);
    right := from;
    if right == 6 {
      right := 5;
    }
    i' := DrawPair(modules, isFunction, codewords, bitLength, i, right, was, p);
    right := right - 2;
  }

  /** drawCodewords */
  method DrawCodewords(modules: BitBucket, isFunction: BitBucket, codewords: BitBucket)
    requires Grid(modules.bitOffsetOrWidth, modules.Bits()) && Grid(modules.bitOffsetOrWidth, isFunction.Bits())
    requires isFunction.bitOffsetOrWidth == modules.bitOffsetOrWidth
    requires codewords.bitOffsetOrWidth <= 8 * codewords.data.Length
    requires modules.data != isFunction.data && modules.data != codewords.data
    modifies modules.data
    ensures Drawn(modules.bitOffsetOrWidth, old(modules.Bits()), modules.Bits(), isFunction.Bits(),
                  codewords.Bits()[..codewords.bitOffsetOrWidth])
    ensures ScanSize(modules.bitOffsetOrWidth) ==>
              forall path :: ZigzagPath(modules.bitOffsetOrWidth, path) ==>
                AlongPath(modules.bitOffsetOrWidth, path, old(modules.Bits()), modules.Bits(), isFunction.Bits(),
                          codewords.Bits()[..codewords.bitOffsetOrWidth])
  {
    var bitLength := codewords.bitOffsetOrWidth;
    var size := modules.bitOffsetOrWidth;
    ghost var was, fn, code := modules.Bits(), isFunction.Bits(), codewords.Bits()[..bitLength];
    PlacedNothing(size, was, fn, code);
    PairStarts(size, 0);
    assert size % 2 == 1;
    RightSteps(size, 0);
    hide Placed, Steps, Grid, PairStart, NextRight, RightColumn, Drawn, BitBucket.Bits;
    var i := 0;
    ghost var p := 0;
    var right: int := size - 1;
    while right >= 1
      invariant 0 <= p <= (size - 1) / 2 && right == NextRight(size, p)
      invariant fn == isFunction.Bits() && code == codewords.Bits()[..bitLength]
      invariant Placed(size, was, modules.Bits(), fn, code, i, PairStart(size, p))
    {
      RightSteps(size, p);
      i, right := DrawNextPair(modules, isFunction, codewords, bitLength, i, right, was, p);
      p := p + 1;
      RightSteps(size, p);
    }
    RightSteps(size, p);
    assert p == (size - 1) / 2;
    PairStarts(size, p);
    DrawnAll(size, was, modules.Bits(), fn, code, i);
    if ScanSize(size) {
      forall path | ZigzagPath(size, path) ensures AlongPath(size, path, was, modules.Bits(), fn, code) {
        DrawnAlong(size, path, was, modules.Bits(), fn, code, i);
      }
    }
  }

  lemma DrawnAll(size: int, was: seq<bool>, now: seq<bool>, isFunction: seq<bool>, code: seq<bool>, i: nat)
    requires size >= 1 && Placed(size, was, now, isFunction, code, i, Steps(size))
    ensures Drawn(size, was, now, isFunction, code)
  {
  }

  lemma PlacedNothing(size: int, was: seq<bool>, isFunction: seq<bool>, code: seq<bool>)
    requires Grid(size, was) && Grid(size, isFunction)
    ensures Placed(size, was, was, isFunction, code, 0, 0)
  {
  }

  /** Reading the free modules back in scan order returns the code bits, if they all found room;
      function modules are as they were. */
  lemma ReadBack(size: int, was: seq<bool>, now: seq<bool>, isFunction: seq<bool>, code: seq<bool>)
    requires Grid(size, was) && Grid(size, now) && Grid(size, isFunction)
    requires Drawn(size, was, now, isFunction, code)
    ensures |code| <= |ReadFree(size, was, isFunction, Steps(size))| ==>
              code <= ReadFree(size, now, isFunction, Steps(size))
    ensures forall p :: 0 <= p < size * size && isFunction[p] ==> now[p] == was[p]
  {
    hide Steps, ReadFree;
  }
}
