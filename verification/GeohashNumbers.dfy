/** Geohashes by numbers: the alphabet, and the bits as binary fractions of longitude and latitude. */
module GeohashNumbers {
  import opened BitStrings
  import opened Geohash

  // ----- the alphabet

  predicate Letter(c: char) {
    '0' <= c <= '9' || ('b' <= c <= 'z' && c != 'i' && c != 'l' && c != 'o')
  }

  /** The symbols are the digits and the small letters without a, i, l and o, in ascending order. */
  lemma AlphabetIs(c: char)
    ensures |BASE32| == 32
    ensures c in BASE32 <==> Letter(c)
    ensures forall v, w :: 0 <= v < w < 32 ==> BASE32[v] < BASE32[w]
  {
    forall v, w | 0 <= v < w < 32 ensures BASE32[v] < BASE32[w] { SymbolMonotone(v, w); }
  }

  // ----- the bits of one coordinate

  /** The bits at even places, or at odd ones, in order. */
  function Every(bits: seq<bool>, odd: bool): seq<bool> {
    if bits == [] then []
    else
      var n := |bits| - 1;
      Every(bits[..n], odd) + if (n % 2 == 1) == odd then [bits[n]] else []
  }

  lemma {:induction false} EveryLength(bits: seq<bool>)
    ensures |Every(bits, false)| == (|bits| + 1) / 2 && |Every(bits, true)| == |bits| / 2
  {
    if bits != [] { EveryLength(bits[..|bits| - 1]); }
  }

  /** The lower edge of the range that k bits of value v name is v parts of size 2^-k above the lower end. */
  predicate EdgeAt(r: Range, lo: real, width: real, v: nat, k: nat) {
    Times(r.lo - lo, PowReal(k)) == Times(width, v as real) && Times(r.hi - r.lo, PowReal(k)) == width
  }

  lemma EdgeHalf(r: Range, lo: real, width: real, v: nat, k: nat, bit: bool)
    requires EdgeAt(r, lo, width, v, k)
    ensures EdgeAt(r.Half(bit), lo, width, 2 * v + (if bit then 1 else 0), k + 1)
  {
    var a, w, p, b := r.lo - lo, r.hi - r.lo, PowReal(k), if bit then 1 else 0;
    assert PowReal(k + 1) == 2.0 * p;
    assert (2 * v + b) as real == 2.0 * v as real + b as real;
    hide PowReal, Times;
    Doubling(a, w, p);
    Parts(width, v as real, b as real);
    assert r.Half(bit).lo - lo == if bit then a + w / 2.0 else a;
    assert r.Half(bit).hi - r.Half(bit).lo == w / 2.0;
    Unit(width);
  }

  lemma Doubling(a: real, w: real, p: real)
    ensures Times(a, 2.0 * p) == 2.0 * Times(a, p)
    ensures Times(a + w / 2.0, 2.0 * p) == 2.0 * Times(a, p) + Times(w, p)
    ensures Times(w / 2.0, 2.0 * p) == Times(w, p)
  {
  }

  lemma Parts(width: real, v: real, b: real)
    ensures Times(width, 2.0 * v + b) == 2.0 * Times(width, v) + Times(width, b)
  {
  }

  lemma Unit(width: real)
    ensures Times(width, 0.0) == 0.0 && Times(width, 1.0) == width
  {
  }

  /** The cell in numbers. */
  lemma {:induction false} CellEdges(bits: seq<bool>)
    ensures var c, east, north := Located(bits), Every(bits, false), Every(bits, true);
            && EdgeAt(c.lon, -180.0, 360.0, FromBits(east), |east|)
            && EdgeAt(c.lat, -90.0, 180.0, FromBits(north), |north|)
  {
    hide EdgeAt, FromBits;
    if bits == [] {
      GlobeEdges();
    } else {
      var n := |bits| - 1;
      var c, bit := Located(bits[..n]), bits[n];
      var east, north := Every(bits[..n], false), Every(bits[..n], true);
      CellEdges(bits[..n]);
      assert east + [] == east && north + [] == north;
      if n % 2 == 0 {
        EdgeHalf(c.lon, -180.0, 360.0, FromBits(east), |east|, bit);
        FromBitsSnoc(east, bit);
      } else {
        EdgeHalf(c.lat, -90.0, 180.0, FromBits(north), |north|, bit);
        FromBitsSnoc(north, bit);
      }
    }
  }

  lemma GlobeEdges()
    ensures EdgeAt(GLOBE.lon, -180.0, 360.0, FromBits([]), 0) && EdgeAt(GLOBE.lat, -90.0, 180.0, FromBits([]), 0)
  {
  }

  /** v parts are not more than x, and v + 1 parts are more, or x is the upper end. */
  predicate Spells(v: nat, x: real, width: real, parts: real) {
    && Times(width, v as real) <= Times(x, parts)
    && (Times(x, parts) < Times(width, (v + 1) as real) || (x == width && Times(x, parts) == Times(width, (v + 1) as real)))
  }

  lemma WithinSpells(r: Range, lo: real, width: real, v: nat, k: nat, x: real)
    requires EdgeAt(r, lo, width, v, k) && Within(r, x, lo + width)
    ensures Spells(v, x - lo, width, PowReal(k))
  {
    var p, a, w, d := PowReal(k), r.lo - lo, r.hi - r.lo, x - lo;
    assert p > 0.0;
    hide PowReal, Times;
    assert r.hi - lo == a + w;
    Scale(a, d, p);
    Scale(d, a + w, p);
    Sum(a, w, p);
    NextPart(width, v);
  }

  lemma Sum(a: real, w: real, p: real)
    ensures Times(a + w, p) == Times(a, p) + Times(w, p)
  {
  }

  lemma NextPart(width: real, v: nat)
    ensures Times(width, (v + 1) as real) == Times(width, v as real) + width
  {
  }

  lemma Scale(a: real, b: real, p: real)
    requires p > 0.0
    ensures a <= b ==> Times(a, p) <= Times(b, p)
    ensures a < b ==> Times(a, p) < Times(b, p)
  {
  }

  /** The longitude's bits are the binary digits of (lon + 180) / 360, and the latitude's those of (lat + 90) / 180; a
      point at the upper end has the highest number. */
  lemma BitsAreFractions(p: Point, n: nat)
    requires p.OnGlobe()
    ensures var bits := BitsOfPoint(p, n);
            && Spells(FromBits(Every(bits, false)), p.lon + 180.0, 360.0, PowReal((n + 1) / 2))
            && Spells(FromBits(Every(bits, true)), p.lat + 90.0, 180.0, PowReal(n / 2))
  {
    hide EdgeAt, Spells, FromBits;
    var bits := BitsOfPoint(p, n);
    PointInCell(p, n);
    CellEdges(bits);
    EveryLength(bits);
    WithinSpells(Located(bits).lon, -180.0, 360.0, FromBits(Every(bits, false)), (n + 1) / 2, p.lon);
    WithinSpells(Located(bits).lat, -90.0, 180.0, FromBits(Every(bits, true)), n / 2, p.lat);
  }

  // ----- the symbols of a text

  function One(bit: bool): nat { if bit then 1 else 0 }

  lemma FiveValue(a: bool, b: bool, c: bool, d: bool, e: bool)
    ensures FromBits([a, b, c, d, e]) == 16 * One(a) + 8 * One(b) + 4 * One(c) + 2 * One(d) + One(e)
  {
    hide FromBits;
    var p1, p2, p3, p4 := [] + [a], [a] + [b], [a, b] + [c], [a, b, c] + [d];
    NoValue();
    FromBitsSnoc([], a);
    assert p1 == [a];
    FromBitsSnoc([a], b);
    assert p2 == [a, b];
    FromBitsSnoc([a, b], c);
    assert p3 == [a, b, c];
    FromBitsSnoc([a, b, c], d);
    assert p4 == [a, b, c, d];
    FromBitsSnoc([a, b, c, d], e);
    assert [a, b, c, d] + [e] == [a, b, c, d, e];
  }

  lemma NoValue()
    ensures FromBits([]) == 0
  {
  }

  /** Five bits, the first of which counts sixteen. */
  lemma SymbolOfBits(a: bool, b: bool, c: bool, d: bool, e: bool)
    ensures var v := 16 * One(a) + 8 * One(b) + 4 * One(c) + 2 * One(d) + One(e);
            v < 32 && SymbolOf([a, b, c, d, e]) == Symbol(v)
  {
    FiveValue(a, b, c, d, e);
    hide FromBits, Symbol;
  }

  /** The i-th symbol is that of the i-th five bits. */
  lemma {:induction false} TextSymbols(p: Point, precision: nat, i: nat)
    requires i < precision
    ensures Text(p, precision)[i] == SymbolOf(BitsOfPoint(p, 5 * precision)[5 * i..5 * i + 5])
  {
    hide SymbolOf, BitsOfPoint;
    if i < precision - 1 {
      TextSymbols(p, precision - 1, i);
      BitsPrefix(p, 5 * (precision - 1), 5 * precision);
      Earlier(BitsOfPoint(p, 5 * precision), 5 * (precision - 1), 5 * i);
    } else {
      assert BitsOfPoint(p, 5 * precision)[5 * i..] == BitsOfPoint(p, 5 * precision)[5 * i..5 * i + 5];
    }
  }

  lemma Earlier(bits: seq<bool>, n: nat, k: nat)
    requires k + 5 <= n <= |bits|
    ensures bits[..n][k..k + 5] == bits[k..k + 5]
  {
  }
}
