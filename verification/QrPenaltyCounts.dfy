/** The penalty of a symbol by counting: what it is charged for, told module by module. */
module QrPenaltyCounts {
  import opened QrZigzag
  import opened QrPenalty

  /** What may be seen at place u of row v, or of column v. */
  datatype Feature =
    | Five(column: bool)        // the last of five modules of one colour
    | FirstFive(column: bool)   // and these are the first five of their run
    | Finder(column: bool)      // the end of a finder-like pattern
    | Square                    // the lower right one of two by two modules of one colour
    | DarkModule

  predicate EndsFive(line: seq<bool>, u: nat)
    requires u < |line|
  {
    u >= 4 && line[u - 4] == line[u - 3] == line[u - 2] == line[u - 1] == line[u]
  }

  predicate EndsFirstFive(line: seq<bool>, u: nat)
    requires u < |line|
  {
    EndsFive(line, u) && (u == 4 || line[u - 5] != line[u])
  }

  /** Of eleven modules, those so far before the last one are dark and the others light. */
  predicate EndsFinder(line: seq<bool>, u: nat)
    requires u < |line|
  {
    u >= 10 && (
      || (forall p :: u - 10 <= p <= u ==> line[p] == (u - p in {0, 2, 3, 4, 6}))
      || (forall p :: u - 10 <= p <= u ==> line[p] == (u - p in {4, 6, 7, 8, 10})))
  }

  function Line(size: int, g: seq<bool>, column: bool, v: nat): (line: seq<bool>)
    requires Grid(size, g) && v < size
    ensures |line| == size
  {
    if column then Column(size, g, v) else Row(size, g, v)
  }

  predicate Shows(size: int, g: seq<bool>, f: Feature, u: nat, v: nat)
    requires Grid(size, g) && u < size && v < size
  {
    match f
    case Five(column) => EndsFive(Line(size, g, column, v), u)
    case FirstFive(column) => EndsFirstFive(Line(size, g, column, v), u)
    case Finder(column) => EndsFinder(Line(size, g, column, v), u)
    case Square => u > 0 && v > 0 && At(size, g, u - 1, v - 1) == At(size, g, u, v - 1) == At(size, g, u - 1, v) == At(size, g, u, v)
    case DarkModule => At(size, g, u, v)
  }

  /** Where a feature is seen before place x of line y. */
  function Seen(size: int, g: seq<bool>, f: Feature, x: nat, y: nat): set<(nat, nat)>
    requires Grid(size, g)
  {
    set u: nat, v: nat | u < size && v < size && (v < y || (v == y && u < x)) && Shows(size, g, f, u, v) :: (u, v)
  }

  /** Where it is seen at all. */
  function All(size: int, g: seq<bool>, f: Feature): set<(nat, nat)>
    requires Grid(size, g)
  {
    set u: nat, v: nat | u < size && v < size && Shows(size, g, f, u, v) :: (u, v)
  }

  lemma SeenNone(size: int, g: seq<bool>, f: Feature)
    requires Grid(size, g)
    ensures Seen(size, g, f, 0, 0) == {}
  {
    hide Shows;
  }

  lemma SeenStep(size: int, g: seq<bool>, f: Feature, x: nat, y: nat)
    requires Grid(size, g) && x < size && y < size
    ensures |Seen(size, g, f, x + 1, y)| == |Seen(size, g, f, x, y)| + if Shows(size, g, f, x, y) then 1 else 0
  {
    SeenMore(size, g, f, x, y);
    hide Shows, Seen;
  }

  lemma SeenMore(size: int, g: seq<bool>, f: Feature, x: nat, y: nat)
    requires Grid(size, g) && x < size && y < size
    ensures (x, y) !in Seen(size, g, f, x, y)
    ensures Seen(size, g, f, x + 1, y) == Seen(size, g, f, x, y) + if Shows(size, g, f, x, y) then {(x, y)} else {}
  {
    hide Shows;
  }

  lemma SeenLine(size: int, g: seq<bool>, f: Feature, y: nat)
    requires Grid(size, g)
    ensures Seen(size, g, f, size, y) == Seen(size, g, f, 0, y + 1)
  {
    hide Shows;
  }

  lemma SeenAll(size: int, g: seq<bool>, f: Feature)
    requires Grid(size, g)
    ensures Seen(size, g, f, 0, size) == All(size, g, f)
  {
    hide Shows;
  }

  // ----- runs

  lemma {:induction false} TrailingAtLeast(line: seq<bool>, k: nat)
    requires 0 < k
    ensures TrailingRun(line) >= k <==> k <= |line| && forall i :: |line| - k <= i < |line| ==> line[i] == line[|line| - 1]
  {
    if line != [] && k > 1 {
      var n := |line| - 1;
      TrailingAtLeast(line[..n], k - 1);
      if n > 0 && line[n] == line[n - 1] {
        assert forall i :: |line| - k <= i < n && 0 <= i ==> line[..n][i] == line[i];
      }
    }
  }

  /** One more module adds one for every five it ends, and two more for the first five of a run. */
  lemma RunStepIs(line: seq<bool>, x: nat)
    requires 0 < x < |line|
    ensures RunStep(line[..x], line[x]) == (if EndsFive(line, x) then 1 else 0) + (if EndsFirstFive(line, x) then 2 else 0)
  {
    var p := line[..x];
    TrailingAtLeast(p, 4);
    TrailingAtLeast(p, 5);
    hide TrailingRun;
    assert p[x - 1] == line[x - 1];
    if x >= 4 { assert p[x - 2] == line[x - 2] && p[x - 3] == line[x - 3] && p[x - 4] == line[x - 4]; }
    if x >= 5 { assert p[x - 5] == line[x - 5]; }
  }

  lemma FirstModule(line: seq<bool>)
    requires line != []
    ensures RunPenalty(line[..1]) == 0 && RunPenalty(line[..0]) == 0
    ensures !EndsFive(line, 0) && !EndsFirstFive(line, 0)
  {
    SingleRun(line);
  }

  /** The runs of the lines before line y, and of the first x modules of that. */
  function RunsBefore(size: int, g: seq<bool>, column: bool, x: nat, y: nat): nat
    requires Grid(size, g) && x <= size && y < size
  {
    (if column then ColumnRuns(size, g, y) else RowRuns(size, g, y)) + RunPenalty(Line(size, g, column, y)[..x])
  }

  lemma {:induction false} RunsCount(size: int, g: seq<bool>, column: bool, x: nat, y: nat)
    requires Grid(size, g) && x <= size && y < size
    ensures RunsBefore(size, g, column, x, y)
         == |Seen(size, g, Five(column), x, y)| + 2 * |Seen(size, g, FirstFive(column), x, y)|
    decreases y, x
  {
    hide RunPenalty, Row, Column, EndsFive, EndsFirstFive, Seen, RunStep;
    var line := Line(size, g, column, y);
    FirstModule(line);
    if x > 0 {
      RunsCount(size, g, column, x - 1, y);
      SeenStep(size, g, Five(column), x - 1, y);
      SeenStep(size, g, FirstFive(column), x - 1, y);
      if x > 1 {
        RunPenaltySnoc(line[..x - 1], line[x - 1]);
        assert line[..x - 1] + [line[x - 1]] == line[..x];
        RunStepIs(line, x - 1);
      }
    } else if y > 0 {
      RunsCount(size, g, column, size, y - 1);
      LineDone(size, g, column, y - 1);
      SeenLine(size, g, Five(column), y - 1);
      SeenLine(size, g, FirstFive(column), y - 1);
    } else {
      SeenNone(size, g, Five(column));
      SeenNone(size, g, FirstFive(column));
    }
  }

  lemma LineDone(size: int, g: seq<bool>, column: bool, y: nat)
    requires Grid(size, g) && y + 1 < size
    ensures RunsBefore(size, g, column, size, y) == RunsBefore(size, g, column, 0, y + 1)
  {
    hide RunPenalty, Row, Column;
    WholeLine(size, g, column, y);
    NoRun(Line(size, g, column, y + 1));
  }

  lemma NoRun(line: seq<bool>)
    ensures RunPenalty(line[..0]) == 0
  {
  }

  lemma WholeLine(size: int, g: seq<bool>, column: bool, y: nat)
    requires Grid(size, g) && y < size
    ensures Line(size, g, column, y)[..size] == Line(size, g, column, y)
  {
  }

  /** The runs of all rows, or of all columns. */
  function Runs(size: int, g: seq<bool>, column: bool): nat
    requires Grid(size, g)
  {
    if column then ColumnRuns(size, g, size) else RowRuns(size, g, size)
  }

  lemma LinesCount(size: int, g: seq<bool>, column: bool)
    requires Grid(size, g)
    ensures Runs(size, g, column) == |All(size, g, Five(column))| + 2 * |All(size, g, FirstFive(column))|
  {
    hide *;
    LastLine(size, g, column);
    SeenToEnd(size, g, Five(column));
    SeenToEnd(size, g, FirstFive(column));
    RunsCount(size, g, column, size, size - 1);
  }

  lemma SeenToEnd(size: int, g: seq<bool>, f: Feature)
    requires Grid(size, g)
    ensures size >= 1 && Seen(size, g, f, size, size - 1) == All(size, g, f)
  {
    SizeAtLeastOne(size, g);
    hide *;
    SeenLine(size, g, f, size - 1);
    SeenAll(size, g, f);
  }

  lemma SizeAtLeastOne(size: int, g: seq<bool>)
    requires Grid(size, g)
    ensures size >= 1
  {
  }

  lemma LastLine(size: int, g: seq<bool>, column: bool)
    requires Grid(size, g)
    ensures size >= 1 && RunsBefore(size, g, column, size, size - 1)
         == Runs(size, g, column)
  {
    WholeLine(size, g, column, size - 1);
    hide RunPenalty, Row, Column;
  }

  // ----- patterns, squares and dark modules

  lemma FinderIs(line: seq<bool>, x: nat)
    requires x < |line|
    ensures FinderLike(line, x) <==> EndsFinder(line, x)
  {
    hide Window;
    Patterns();
    if x >= 10 {
      PatternIs(line, x, LIGHT_FINDER, {0, 2, 3, 4, 6});
      PatternIs(line, x, FINDER_LIGHT, {4, 6, 7, 8, 10});
    }
  }

  lemma PatternIs(line: seq<bool>, x: nat, pattern: seq<bool>, dark: set<int>)
    requires 10 <= x < |line| && |pattern| == 11 && forall i :: 0 <= i < 11 ==> pattern[i] == (10 - i in dark)
    ensures Window(line, x) == pattern <==> forall p :: x - 10 <= p <= x ==> line[p] == (x - p in dark)
  {
    hide Window;
    SameAs(line, x, pattern);
  }

  lemma SameAs(line: seq<bool>, x: nat, pattern: seq<bool>)
    requires 10 <= x < |line| && |pattern| == 11
    ensures Window(line, x) == pattern <==> forall p :: x - 10 <= p <= x ==> line[p] == pattern[10 - (x - p)]
  {
    var w := Window(line, x);
    assert forall p :: x - 10 <= p <= x ==> line[p] == w[10 - (x - p)];
    hide Window;
    if forall p :: x - 10 <= p <= x ==> line[p] == pattern[10 - (x - p)] {
      forall i | 0 <= i < 11 ensures w[i] == pattern[i] { assert line[x - 10 + i] == pattern[i]; }
    }
  }

  lemma Patterns()
    ensures |LIGHT_FINDER| == |FINDER_LIGHT| == 11
    ensures forall i :: 0 <= i < 11 ==> LIGHT_FINDER[i] == (10 - i in {0, 2, 3, 4, 6})
    ensures forall i :: 0 <= i < 11 ==> FINDER_LIGHT[i] == (10 - i in {4, 6, 7, 8, 10})
  {
  }

  lemma ChargeIs(size: int, g: seq<bool>, x: nat, y: nat)
    requires Grid(size, g) && x < size && y < size
    ensures Charge(size, g, x, y) ==
            (if Shows(size, g, Square, x, y) then 3 else 0)
            + (if Shows(size, g, Finder(false), x, y) then 40 else 0)
            + (if Shows(size, g, Finder(true), x, y) then 40 else 0)
  {
    FinderIs(Row(size, g, y), x);
    FinderIs(Column(size, g, y), x);
    hide FinderLike, EndsFinder, Row, Column, At;
  }

  lemma {:induction false} ChargesCount(size: int, g: seq<bool>, x: nat, y: nat)
    requires Grid(size, g) && x <= size && y <= size && (y == size ==> x == 0)
    ensures Charges(size, g, x, y) ==
            3 * |Seen(size, g, Square, x, y)| + 40 * |Seen(size, g, Finder(false), x, y)| + 40 * |Seen(size, g, Finder(true), x, y)|
    decreases y, x
  {
    hide Charge, Shows, Seen;
    if x > 0 {
      ChargesCount(size, g, x - 1, y);
      ChargeIs(size, g, x - 1, y);
      SeenStep(size, g, Square, x - 1, y);
      SeenStep(size, g, Finder(false), x - 1, y);
      SeenStep(size, g, Finder(true), x - 1, y);
    } else if y > 0 {
      ChargesCount(size, g, size, y - 1);
      SeenLine(size, g, Square, y - 1);
      SeenLine(size, g, Finder(false), y - 1);
      SeenLine(size, g, Finder(true), y - 1);
    } else {
      SeenNone(size, g, Square);
      SeenNone(size, g, Finder(false));
      SeenNone(size, g, Finder(true));
    }
  }

  lemma {:induction false} DarkCount(size: int, g: seq<bool>, x: nat, y: nat)
    requires Grid(size, g) && x <= size && y <= size && (y == size ==> x == 0)
    ensures Dark(size, g, x, y) == |Seen(size, g, DarkModule, x, y)|
    decreases y, x
  {
    hide Seen, At;
    if x > 0 {
      DarkCount(size, g, x - 1, y);
      SeenStep(size, g, DarkModule, x - 1, y);
    } else if y > 0 {
      DarkCount(size, g, size, y - 1);
      SeenLine(size, g, DarkModule, y - 1);
    } else {
      SeenNone(size, g, DarkModule);
    }
  }

  lemma LeastImbalance(dark: nat, total: nat) returns (k: nat)
    requires dark <= total
    ensures k == Imbalance(dark, total, 0)
    ensures (45 - 5 * k) * total <= 100 * dark <= (55 + 5 * k) * total
    ensures k > 0 ==> 100 * dark < (45 - 5 * (k - 1)) * total || 100 * dark > (55 + 5 * (k - 1)) * total
  {
    k := Imbalance(dark, total, 0);
    assert k > 0 ==> !Balanced(dark, total, k - 1);
  }

  lemma DarkAtMost(size: int, g: seq<bool>)
    requires Grid(size, g)
    ensures Dark(size, g, 0, size) <= size * size
  {
  }

  /** The penalty: one for every five modules of one colour in a line and two more for the first five of each run; three
      for every square; forty for every finder-like pattern; and ten times the least k such that the dark modules are
      between 45 - 5 k and 55 + 5 k per cent of all. */
  lemma PenaltyIs(size: int, g: seq<bool>) returns (k: nat)
    requires Grid(size, g)
    ensures Penalty(size, g) ==
            |All(size, g, Five(false))| + 2 * |All(size, g, FirstFive(false))|
            + |All(size, g, Five(true))| + 2 * |All(size, g, FirstFive(true))|
            + 3 * |All(size, g, Square)| + 40 * |All(size, g, Finder(false))| + 40 * |All(size, g, Finder(true))|
            + 10 * k
    ensures var dark := |All(size, g, DarkModule)|;
            && (45 - 5 * k) * (size * size) <= 100 * dark <= (55 + 5 * k) * (size * size)
            && (k > 0 ==> 100 * dark < (45 - 5 * (k - 1)) * (size * size) || 100 * dark > (55 + 5 * (k - 1)) * (size * size))
  {
    LinesCount(size, g, false);
    LinesCount(size, g, true);
    ChargesCount(size, g, 0, size);
    DarkCount(size, g, 0, size);
    SeenAll(size, g, Square);
    SeenAll(size, g, Finder(false));
    SeenAll(size, g, Finder(true));
    SeenAll(size, g, DarkModule);
    DarkAtMost(size, g);
    hide RowRuns, ColumnRuns, Charges, Seen, All, Dark, Imbalance;
    k := LeastImbalance(|All(size, g, DarkModule)|, size * size);
  }
}
