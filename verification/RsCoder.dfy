/** The three Reed-Solomon routines of the QR encoder, on the buffers they work in:
    Russian-peasant multiplication, the generator built in place, and the division register
    that lives in every `stride`-th cell of a larger buffer. */
module RsCoder {
  import opened FieldBits
  import opened Gf256
  import opened Poly
  import opened ReedSolomon

  // ----- rs_multiply

  /** Shift the 16-bit accumulator once and reduce it. */
  function Reduced(z: bv16): bv16 { (z << 1) ^ ((z >> 7) * 0x11D) }

  /** Bit i of y, times x. */
  function Selected(y: bv8, i: nat, x: bv8): bv16
    requires i < 8
  {
    ((y >> i) & 1) as bv16 * x as bv16
  }

  function Accumulated(z: bv16, s: bv16): bv16 { z ^ s }

  function Shifted(y: bv8, i: nat): bv8
    requires i <= 8
  {
    y >> i
  }

  /** The accumulator holds a field element. */
  predicate HoldsElement(z: bv16, e: bv8) { z < 0x100 && z as bv8 == e }

  lemma Reduce(z: bv16, e: bv8)
    requires HoldsElement(z, e)
    ensures HoldsElement(Reduced(z), Double(e))
  {
  }

  lemma Accumulate(z: bv16, e: bv8, x: bv8, y: bv8, i: nat)
    requires HoldsElement(z, e) && i < 8
    ensures HoldsElement(Accumulated(z, Selected(y, i, x)), Add(e, if Odd(Shifted(y, i)) then x else 0))
  {
  }

  lemma ShiftOnce(y: bv8, i: nat)
    requires i < 8
    ensures Half(Shifted(y, i)) == Shifted(y, i + 1)
  {
  }

  lemma ShiftNone(y: bv8)
    ensures Shifted(y, 0) == y
  {
  }

  lemma MultiplyStep(z: bv16, x: bv8, y: bv8, i: nat)
    requires i < 8 && HoldsElement(z, MulBits(x, Shifted(y, i + 1), 7 - i))
    ensures HoldsElement(Accumulated(Reduced(z), Selected(y, i, x)), MulBits(x, Shifted(y, i), 8 - i))
  {
    hide Add, Double, Odd, Half, Reduced, Selected, Accumulated, Shifted, HoldsElement;
    var e := MulBits(x, Shifted(y, i + 1), 7 - i);
    Reduce(z, e);
    Accumulate(Reduced(z), Double(e), x, y, i);
    ShiftOnce(y, i);
  }

  method RsMultiply(x: bv8, y: bv8) returns (p: bv8)
    ensures p == Mul(x, y)
    ensures ProductModulo(x, y, p)
  {
    MulModulo(x, y);
    hide Add, Double, Odd, Half, Reduced, Selected, Accumulated, Shifted, HoldsElement, MulBits, ProductModulo;
    var z: bv16 := 0;
    var i := 7;
    NothingMultiplied(x, Shifted(y, 8));
    while i >= 0
      invariant -1 <= i <= 7
      invariant HoldsElement(z, MulBits(x, Shifted(y, i + 1), 7 - i))
    {
      MultiplyStep(z, x, y, i);
      z := Reduced(z);
      z := Accumulated(z, Selected(y, i, x));
      i := i - 1;
    }
    ShiftNone(y);
    ElementOf(z, Mul(x, y));
    p := z as bv8;
  }

  lemma NothingMultiplied(x: bv8, y: bv8)
    ensures HoldsElement(0, MulBits(x, y, 0))
  {
  }

  lemma ElementOf(z: bv16, e: bv8)
    requires HoldsElement(z, e)
    ensures z < 0x100 && z as bv8 == e
  {
  }

  // ----- rs_init

  /** Generator(i) right-aligned in degree + 1 places. */
  function Aligned(degree: nat, i: nat): (p: Poly)
    requires i <= degree
    ensures |p| == degree + 1
  {
    Zeros(degree - i) + Generator(i)
  }

  lemma AlignedStep(degree: nat, i: nat)
    requires i < degree
    ensures Aligned(degree, i + 1) == Plus(Aligned(degree, i)[1..] + [0], Scale(Pow(i), Aligned(degree, i)))
  {
    hide Add, Mul, Pow, Plus, Scale;
    var g, r, m := Generator(i), Pow(i), degree - i;
    var p := Aligned(degree, i);
    TimesLinear(g, r);
    hide Generator, Times;
    AddZero(0);
    MulZero(r);
    var rhs := Plus(p[1..] + [0], Scale(r, p));
    var top := Plus(g + [0], [0] + Scale(r, g));
    forall t | 0 <= t < degree + 1
      ensures (Zeros(m - 1) + top)[t] == rhs[t]
    {
      assert t < m ==> p[t] == 0;
      assert t >= m ==> p[t] == g[t - m];
    }
    assert Zeros(m - 1) + top == rhs;
  }

  /** The inner loop: multiply the product so far, p, by (x - root) in place. */
  method MultiplyByRoot(degree: nat, coeff: array<bv8>, root: bv8, ghost p: Poly)
    requires 0 < degree <= coeff.Length && |p| == degree + 1
    requires coeff[..degree] == p[1..]
    modifies coeff
    ensures coeff[..degree] == Plus(p[1..] + [0], Scale(root, p))[1..]
    ensures coeff[degree..] == old(coeff[degree..])
  {
    hide Add, Mul, ProductModulo;
    ghost var p' := Plus(p[1..] + [0], Scale(root, p));
    for j := 0 to degree
      invariant forall t :: 0 <= t < j ==> coeff[t] == p'[t + 1]
      invariant forall t :: j <= t < degree ==> coeff[t] == p[t + 1]
      invariant coeff[degree..] == old(coeff[degree..])
    {
      coeff[j] := RsMultiply(coeff[j], root);
      if j + 1 < degree {
        AddComm(coeff[j], coeff[j + 1]);
        coeff[j] := Add(coeff[j], coeff[j + 1]);
      } else {
        AddZero(coeff[j]);
      }
    }
    assert coeff[..degree] == p'[1..];
  }

  method RsInit(degree: nat, coeff: array<bv8>)
    requires 0 < degree <= 255 && degree <= coeff.Length
    modifies coeff
    ensures [1] + coeff[..degree] == Generator(degree)
    ensures coeff[degree..] == old(coeff[degree..])
  {
    hide Add, Mul, Double, Reduced, Plus, Scale, Generator;
    for j := 0 to degree
      invariant forall t :: 0 <= t < j ==> coeff[t] == 0
      invariant coeff[degree..] == old(coeff[degree..])
    {
      coeff[j] := 0;
    }
    coeff[degree - 1] := 1;
    var root: bv16 := 1;
    AlignedZero(degree, coeff[..degree]);
    for i := 0 to degree
      invariant root < 0x100 && root as bv8 == Pow(i)
      invariant coeff[..degree] == Aligned(degree, i)[1..]
      invariant coeff[degree..] == old(coeff[degree..])
    {
      AlignedStep(degree, i);
      MultiplyByRoot(degree, coeff, root as bv8, Aligned(degree, i));
      Reduce(root, Pow(i));
      root := Reduced(root);
    }
    GeneratorMonic(degree);
    assert Aligned(degree, degree) == Generator(degree);
  }

  lemma AlignedZero(degree: nat, c: Poly)
    requires 0 < degree == |c| && c[degree - 1] == 1 && forall t :: 0 <= t < degree - 1 ==> c[t] == 0
    ensures c == Aligned(degree, 0)[1..]
  {
  }

  // ----- rs_getRemainder

  /** The t-th cell of a register that occupies every `stride`-th cell from `base`. */
  function Cell(base: nat, stride: nat, t: nat): nat { base + t * stride }

  predicate Fits(size: nat, base: nat, stride: nat, degree: nat) {
    forall t: nat :: t < degree ==> Cell(base, stride, t) < size
  }

  predicate IsCell(c: int, base: nat, stride: nat, degree: nat) {
    exists t: nat :: t < degree && Cell(base, stride, t) == c
  }

  lemma CellsDistinct(base: nat, stride: nat, degree: nat)
    requires stride > 0
    ensures forall t: nat, u: nat {:trigger Cell(base, stride, t), Cell(base, stride, u)} :: t < u < degree ==> Cell(base, stride, t) != Cell(base, stride, u)
    ensures forall t: nat :: t < degree ==> IsCell(Cell(base, stride, t), base, stride, degree)
    ensures Cell(base, stride, 0) == base
  {
    forall t: nat, u: nat | t < u
      ensures Cell(base, stride, t) != Cell(base, stride, u)
    {
      assert t * stride < u * stride;
    }
  }

  lemma CellApart(base: nat, stride: nat, degree: nat, j: nat)
    requires stride > 0 && j < degree
    ensures forall t {:trigger Cell(base, stride, t)} :: 0 <= t < degree && t != j ==> Cell(base, stride, t) != Cell(base, stride, j)
    ensures IsCell(Cell(base, stride, j), base, stride, degree)
  {
    CellsDistinct(base, stride, degree);
    hide Cell;
  }

  /** The register's contents. */
  function Strided(buf: seq<bv8>, base: nat, stride: nat, degree: nat): (r: Poly)
    requires Fits(|buf|, base, stride, degree)
    ensures |r| == degree
    ensures forall t {:trigger Cell(base, stride, t)} {:trigger r[t]} :: 0 <= t < degree ==> r[t] == buf[Cell(base, stride, t)]
  {
    seq(degree, t requires 0 <= t < degree => buf[Cell(base, stride, t)])
  }

  twostate predicate OnlyCells(result: array<bv8>, base: nat, stride: nat, degree: nat)
    reads result
  {
    forall c :: 0 <= c < result.Length && !IsCell(c, base, stride, degree) ==> result[c] == old(result[c])
  }

  /** The register moves up one place; zero comes in at the end. */
  method ShiftUp(degree: nat, result: array<bv8>, base: nat, stride: nat, ghost r: Poly)
    requires 0 < degree == |r| && stride > 0 && Fits(result.Length, base, stride, degree)
    requires forall t {:trigger Cell(base, stride, t)} :: 0 <= t < degree ==> result[Cell(base, stride, t)] == r[t]
    modifies result
    ensures forall t {:trigger Cell(base, stride, t)} :: 0 <= t < degree ==> result[Cell(base, stride, t)] == (r[1..] + [0])[t]
    ensures OnlyCells(result, base, stride, degree)
  {
    CellsDistinct(base, stride, degree);
    hide Cell, IsCell;
    for j := 1 to degree
      invariant forall t {:trigger Cell(base, stride, t)} :: 0 <= t < j - 1 ==> result[Cell(base, stride, t)] == r[t + 1]
      invariant forall t {:trigger Cell(base, stride, t)} :: j - 1 <= t < degree ==> result[Cell(base, stride, t)] == r[t]
      invariant OnlyCells(result, base, stride, degree)
    {
      result[Cell(base, stride, j - 1)] := result[Cell(base, stride, j)];
    }
    result[Cell(base, stride, degree - 1)] := 0;
  }

  /** result[at] ^= rs_multiply(tap, factor) */
  method AddTap(tap: bv8, factor: bv8, result: array<bv8>, at: nat)
    requires at < result.Length
    modifies result
    ensures result[..] == old(result[..])[at := Add(old(result[at]), Mul(tap, factor))]
  {
    hide Add, Mul, ProductModulo;
    var m := RsMultiply(tap, factor);
    result[at] := Add(result[at], m);
  }

  method AddTaps(degree: nat, coeff: array<bv8>, factor: bv8, result: array<bv8>, base: nat, stride: nat, ghost r: Poly)
    requires 0 < degree <= coeff.Length && result != coeff
    requires degree == |r| && stride > 0 && Fits(result.Length, base, stride, degree)
    requires forall t {:trigger Cell(base, stride, t)} :: 0 <= t < degree ==> result[Cell(base, stride, t)] == r[t]
    modifies result
    ensures forall t {:trigger Cell(base, stride, t)} :: 0 <= t < degree ==>
              result[Cell(base, stride, t)] == Plus(r, Scale(factor, coeff[..degree]))[t]
    ensures OnlyCells(result, base, stride, degree)
  {
    hide Cell, IsCell, Add, Mul;
    ghost var want := Plus(r, Scale(factor, coeff[..degree]));
    for j := 0 to degree
      invariant forall t {:trigger Cell(base, stride, t)} :: 0 <= t < degree ==>
                  result[Cell(base, stride, t)] == if t < j then want[t] else r[t]
      invariant OnlyCells(result, base, stride, degree)
    {
      CellApart(base, stride, degree, j);
      ghost var before := result[..];
      AddTap(coeff[j], factor, result, Cell(base, stride, j));
      assert forall c :: 0 <= c < result.Length && c != Cell(base, stride, j) ==> result[c] == before[c];
      assert result[Cell(base, stride, j)] == want[j];
    }
  }

  /** One pass of the outer loop: the byte d goes in. */
  method ClockIn(degree: nat, coeff: array<bv8>, d: bv8, result: array<bv8>, base: nat, stride: nat, ghost r: Poly)
    requires 0 < degree <= coeff.Length && result != coeff
    requires degree == |r| && stride > 0 && Fits(result.Length, base, stride, degree)
    requires Strided(result[..], base, stride, degree) == r
    modifies result
    ensures Strided(result[..], base, stride, degree) == Clock(coeff[..degree], r, d)
    ensures OnlyCells(result, base, stride, degree)
  {
    FirstCell(base, stride);
    hide Cell, IsCell, Add, Mul, Plus, Scale, Clock;
    ghost var taps := coeff[..degree];
    assert Strided(result[..], base, stride, degree)[0] == result[Cell(base, stride, 0)];
    var factor := Add(d, result[base]);
    ShiftUp(degree, result, base, stride, r);
    AddTaps(degree, coeff, factor, result, base, stride, r[1..] + [0]);
    ClockIs(taps, r, d);
    assert Strided(result[..], base, stride, degree) == Clock(taps, r, d);
  }

  lemma FirstCell(base: nat, stride: nat)
    ensures Cell(base, stride, 0) == base
  {
  }

  lemma ClockIs(taps: Poly, r: Poly, d: bv8)
    requires |taps| == |r| > 0
    ensures Clock(taps, r, d) == Plus(r[1..] + [0], Scale(Add(d, r[0]), taps))
  {
  }

  /** The data bytes enter the register one by one; only the register's cells change. */
  method RsGetRemainder(degree: nat, coeff: array<bv8>, data: array<bv8>, from: nat, length: nat,
                        result: array<bv8>, base: nat, stride: nat)
    requires 0 < degree <= coeff.Length && from + length <= data.Length
    requires stride > 0 && Fits(result.Length, base, stride, degree)
    requires result != coeff && result != data
    requires Strided(result[..], base, stride, degree) == Zeros(degree)
    modifies result
    ensures Strided(result[..], base, stride, degree) == Remainder(coeff[..degree], data[from..from + length])
    ensures OnlyCells(result, base, stride, degree)
  {
    NoRemainder(coeff[..degree]);
    hide Cell, IsCell, Strided, Fits, Clock, Remainder;
    ghost var c, block := coeff[..degree], data[from..from + length];
    for i := 0 to length
      invariant Strided(result[..], base, stride, degree) == Remainder(c, block[..i])
      invariant OnlyCells(result, base, stride, degree)
    {
      RemainderMore(c, block, i);
      ClockIn(degree, coeff, data[from + i], result, base, stride, Remainder(c, block[..i]));
    }
    assert block[..length] == block;
  }

  lemma NoRemainder(taps: Poly)
    requires taps != []
    ensures Remainder(taps, []) == Zeros(|taps|)
  {
  }

  lemma RemainderMore(taps: Poly, block: Poly, i: nat)
    requires i < |block| && taps != []
    ensures Remainder(taps, block[..i + 1]) == Clock(taps, Remainder(taps, block[..i]), block[i])
  {
    hide Clock;
    assert block[..i + 1][..i] == block[..i];
  }
}
