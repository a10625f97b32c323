/** Geohashes: cells of the globe by bisection, and their names in symbols of five bits. */
module Geohash {
  import opened BitStrings

  datatype Point = Point(lat: real, lon: real) {
    predicate OnGlobe() { -90.0 <= lat <= 90.0 && -180.0 <= lon <= 180.0 }
  }

  datatype Range = Range(lo: real, hi: real) {
    function Mid(): real { (lo + hi) / 2.0 }

    function Half(upper: bool): Range { if upper then Range(Mid(), hi) else Range(lo, Mid()) }
  }

  datatype Cell = Cell(lat: Range, lon: Range)

  const GLOBE := Cell(Range(-90.0, 90.0), Range(-180.0, 180.0))

  /** Even steps halve the longitudes, odd ones the latitudes. */
  function Narrow(c: Cell, n: nat, bit: bool): Cell {
    if n % 2 == 0 then c.(lon := c.lon.Half(bit)) else c.(lat := c.lat.Half(bit))
  }

  /** On which side of the middle the point lies at step n. */
  predicate Upper(c: Cell, n: nat, p: Point) { if n % 2 == 0 then p.lon >= c.lon.Mid() else p.lat >= c.lat.Mid() }

  /** The cell that a reader of the bits arrives at. */
  function Located(bits: seq<bool>): Cell {
    if bits == [] then GLOBE else Narrow(Located(bits[..|bits| - 1]), |bits| - 1, bits[|bits| - 1])
  }

  /** The first n bits of a point. */
  function BitsOfPoint(p: Point, n: nat): (bits: seq<bool>)
    ensures |bits| == n
  {
    if n == 0 then []
    else
      var before := BitsOfPoint(p, n - 1);
      before + [Upper(Located(before), n - 1, p)]
  }

  /** Lower edges belong to a range; upper ones only where the globe ends. */
  predicate Within(r: Range, x: real, end: real) { r.lo <= x && (x < r.hi || x == r.hi == end) }

  predicate Contains(c: Cell, p: Point) { Within(c.lat, p.lat, 90.0) && Within(c.lon, p.lon, 180.0) }

  predicate Proper(c: Cell) { c.lat.lo < c.lat.hi <= 90.0 && c.lon.lo < c.lon.hi <= 180.0 }

  lemma {:induction false} LocatedProper(bits: seq<bool>)
    ensures Proper(Located(bits))
  {
    if bits != [] { LocatedProper(bits[..|bits| - 1]); }
  }

  /** The point lies in the cell that its bits name. */
  lemma {:induction false} PointInCell(p: Point, n: nat)
    requires p.OnGlobe()
    ensures Contains(Located(BitsOfPoint(p, n)), p)
  {
    if n > 0 {
      PointInCell(p, n - 1);
      var before := BitsOfPoint(p, n - 1);
      LocatedProper(before);
      assert BitsOfPoint(p, n)[..n - 1] == before;
    }
  }

  /** Two points have the same bits exactly when the second lies in the first one's cell. */
  lemma {:induction false} SameBitsIff(p: Point, q: Point, n: nat)
    requires p.OnGlobe() && q.OnGlobe()
    ensures BitsOfPoint(p, n) == BitsOfPoint(q, n) <==> Contains(Located(BitsOfPoint(p, n)), q)
  {
    PointInCell(q, n);
    if n > 0 && Contains(Located(BitsOfPoint(p, n)), q) {
      var before := BitsOfPoint(p, n - 1);
      assert BitsOfPoint(p, n)[..n - 1] == before;
      LocatedProper(before);
      Shrinks(before, Upper(Located(before), n - 1, p), q);
      SameBitsIff(p, q, n - 1);
    }
  }

  /** A cell's half contains the points of the cell on that side, and no others. */
  lemma Shrinks(bits: seq<bool>, bit: bool, q: Point)
    requires Proper(Located(bits)) && Contains(Located(bits + [bit]), q)
    ensures Contains(Located(bits), q) && Upper(Located(bits), |bits|, q) == bit
  {
    assert (bits + [bit])[..|bits|] == bits;
  }

  // ----- sizes

  function PowReal(n: nat): real { Pow2(n) as real }

  function Times(a: real, b: real): real { a * b }

  lemma HalfTimes(w: real, n: nat)
    ensures Times(w / 2.0, PowReal(n + 1)) == Times(w, PowReal(n))
    ensures Times(w, PowReal(0)) == w
  {
    assert PowReal(n + 1) == 2.0 * PowReal(n);
  }

  lemma HalfWidth(r: Range, bit: bool)
    ensures r.Half(bit).hi - r.Half(bit).lo == (r.hi - r.lo) / 2.0
  {
  }

  /** After n bits the sides are 360 and 180 degrees divided by exact powers of two. */
  lemma {:induction false} CellSize(bits: seq<bool>)
    ensures var c := Located(bits);
            && Times(c.lon.hi - c.lon.lo, PowReal((|bits| + 1) / 2)) == 360.0
            && Times(c.lat.hi - c.lat.lo, PowReal(|bits| / 2)) == 180.0
  {
    hide Times, PowReal;
    if bits == [] {
      HalfTimes(360.0, 0);
      HalfTimes(180.0, 0);
    } else {
      var n := |bits| - 1;
      var c := Located(bits[..n]);
      CellSize(bits[..n]);
      HalfTimes(c.lon.hi - c.lon.lo, (n + 1) / 2);
      HalfTimes(c.lat.hi - c.lat.lo, n / 2);
      HalfWidth(c.lon, bits[n]);
      HalfWidth(c.lat, bits[n]);
    }
  }

  // ----- symbols

  const BASE32 := "0123456789bcdefghjkmnpqrstuvwxyz"

  function Symbol(v: nat): char
    requires v < 32
  {
    BASE32[v]
  }

  lemma FiveBits(bits: seq<bool>)
    requires |bits| == 5
    ensures FromBits(bits) < 32
  {
    FromBitsRange(bits);
    assert Pow2(5) == 32;
  }

  function SymbolOf(bits: seq<bool>): char
    requires |bits| == 5
  {
    FiveBits(bits);
    Symbol(FromBits(bits))
  }

  lemma SymbolNext(v: nat)
    requires v < 31
    ensures Symbol(v) < Symbol(v + 1)
  {
  }

  lemma {:induction false} SymbolMonotone(v: nat, w: nat)
    requires v < w < 32
    ensures Symbol(v) < Symbol(w)
  {
    hide Symbol;
    SymbolNext(w - 1);
    if v < w - 1 { SymbolMonotone(v, w - 1); }
  }

  /** Different groups of five bits have different symbols. */
  lemma SymbolOfInjective(a: seq<bool>, b: seq<bool>)
    requires |a| == |b| == 5 && SymbolOf(a) == SymbolOf(b)
    ensures a == b
  {
    hide Symbol;
    FiveBits(a);
    FiveBits(b);
    var v, w := FromBits(a), FromBits(b);
    if v < w { SymbolMonotone(v, w); }
    if w < v { SymbolMonotone(w, v); }
    FromBitsInjective(a, b);
  }

  /** The n-th group of five bits. */
  function Quint(p: Point, n: nat): (q: seq<bool>)
    requires n > 0
    ensures |q| == 5
  {
    BitsOfPoint(p, 5 * n)[5 * (n - 1)..]
  }

  /** The geohash of a point. */
  function Text(p: Point, precision: nat): (s: string)
    ensures |s| == precision
  {
    if precision == 0 then ""
    else Text(p, precision - 1) + [SymbolOf(Quint(p, precision))]
  }

  lemma {:induction false} BitsPrefix(p: Point, n: nat, m: nat)
    requires n <= m
    ensures BitsOfPoint(p, m)[..n] == BitsOfPoint(p, n)
  {
    if n < m {
      BitsPrefix(p, n, m - 1);
      assert BitsOfPoint(p, m)[..n] == BitsOfPoint(p, m - 1)[..n];
    } else {
      assert BitsOfPoint(p, m)[..m] == BitsOfPoint(p, m);
    }
  }

  /** A shorter geohash is a beginning of every longer one. */
  lemma {:induction false} TextPrefix(p: Point, n: nat, m: nat)
    requires n <= m
    ensures Text(p, n) <= Text(p, m)
  {
    if n < m { TextPrefix(p, n, m - 1); }
  }

  /** The symbols stand for the bits and nothing else: regrouping loses none. */
  lemma {:induction false} SameTextIff(p: Point, q: Point, n: nat)
    ensures Text(p, n) == Text(q, n) <==> BitsOfPoint(p, 5 * n) == BitsOfPoint(q, 5 * n)
  {
    hide BitsOfPoint, SymbolOf, Quint;
    if n > 0 {
      SameTextIff(p, q, n - 1);
      QuintLast(p, n);
      QuintLast(q, n);
      var a, b := Quint(p, n), Quint(q, n);
      SameParts(BitsOfPoint(p, 5 * (n - 1)), a, BitsOfPoint(q, 5 * (n - 1)), b);
      SameParts(Text(p, n - 1), [SymbolOf(a)], Text(q, n - 1), [SymbolOf(b)]);
      if SymbolOf(a) == SymbolOf(b) { SymbolOfInjective(a, b); }
    }
  }

  lemma QuintLast(p: Point, n: nat)
    requires n > 0
    ensures BitsOfPoint(p, 5 * n) == BitsOfPoint(p, 5 * (n - 1)) + Quint(p, n)
  {
    BitsPrefix(p, 5 * (n - 1), 5 * n);
  }

  lemma SameParts<T>(s: seq<T>, x: seq<T>, t: seq<T>, y: seq<T>)
    requires |s| == |t|
    ensures s + x == t + y <==> s == t && x == y
  {
    if s + x == t + y {
      assert (s + x)[..|s|] == s && (t + y)[..|t|] == t;
      assert (s + x)[|s|..] == x && (t + y)[|t|..] == y;
    }
  }

  /** Two points share a geohash exactly when the second lies in the first one's cell. */
  lemma SameGeohashIff(p: Point, q: Point, n: nat)
    requires p.OnGlobe() && q.OnGlobe()
    ensures Text(p, n) == Text(q, n) <==> Contains(Located(BitsOfPoint(p, 5 * n)), q)
  {
    SameTextIff(p, q, n);
    SameBitsIff(p, q, 5 * n);
  }
}
