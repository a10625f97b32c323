/** The Reed-Solomon code of the QR encoder (clause 7.5 of ISO/IEC 18004:2015): the generator
    polynomial built in place, the shift-register division with strided cells, and what the
    check words are for -- syndromes that vanish and a minimum distance. */
module ReedSolomon {
  import opened Gf256
  import opened Poly

  /** The product of (x - 2^i) for i < degree. */
  function Generator(degree: nat): (g: Poly)
    ensures |g| == degree + 1
  {
    if degree == 0 then [1] else Times(Generator(degree - 1), [1, Pow(degree - 1)])
  }

  /** One clock of the division register with feedback taps `coeff`. */
  function Clock(coeff: Poly, r: Poly, d: bv8): (r': Poly)
    requires |coeff| == |r| > 0
    ensures |r'| == |r|
  {
    Plus(r[1..] + [0], Scale(Add(d, r[0]), coeff))
  }

  /** The register after all of `data` went in, starting from zero. */
  function Remainder(coeff: Poly, data: Poly): (r: Poly)
    requires |coeff| > 0
    ensures |r| == |coeff|
  {
    if data == [] then Zeros(|coeff|)
    else Clock(coeff, Remainder(coeff, data[..|data| - 1]), data[|data| - 1])
  }

  /** The feedback factors, which turn out to be the quotient. */
  function Quotient(coeff: Poly, data: Poly): (q: Poly)
    requires |coeff| > 0
    ensures |q| == |data|
  {
    if data == [] then []
    else
      var n := |data| - 1;
      Quotient(coeff, data[..n]) + [Add(data[n], Remainder(coeff, data[..n])[0])]
  }

  // ----- the division is a division

  lemma DivisionStep(coeff: Poly, data: Poly, r: Poly, d: bv8)
    requires |coeff| == |r| > 0
    ensures Plus(data + r + [0], Zeros(|data|) + Scale(Add(d, r[0]), [1] + coeff)) == data + [d] + Clock(coeff, r, d)
  {
    hide Mul;
    var f := Add(d, r[0]);
    MulOne(f);
    AddCancel(d, r[0]);
    AddComm(r[0], f);
    var lhs := Plus(data + r + [0], Zeros(|data|) + Scale(f, [1] + coeff));
    var rhs := data + [d] + Clock(coeff, r, d);
    forall i | 0 <= i < |lhs|
      ensures lhs[i] == rhs[i]
    {
      if i < |data| {
        AddZero(data[i]);
      }
    }
    assert lhs == rhs;
  }

  /** Data followed by its remainder is the quotient times the divisor. */
  lemma {:induction false} RemainderDivides(coeff: Poly, data: Poly)
    requires |coeff| > 0
    ensures Times(Quotient(coeff, data), [1] + coeff) == data + Remainder(coeff, data)
  {
    hide Mul, Add;
    if data != [] {
      var n := |data| - 1;
      var q, r := Quotient(coeff, data[..n]), Remainder(coeff, data[..n]);
      RemainderDivides(coeff, data[..n]);
      DivisionStep(coeff, data[..n], r, data[n]);
      assert Quotient(coeff, data)[..n] == q;
      assert data[..n] + [data[n]] == data;
    }
  }

  lemma {:induction false} GeneratorRoots(degree: nat, k: nat)
    requires k < degree
    ensures Eval(Generator(degree), Pow(k)) == 0
  {
    hide Mul, Add, Pow;
    var g, r := Generator(degree - 1), Pow(degree - 1);
    EvalTimes(g, [1, r], Pow(k));
    if k == degree - 1 {
      EvalLinear(r, r);
      AddZero(r);
      MulZero(Eval(g, r));
    } else {
      GeneratorRoots(degree - 1, k);
      MulZero(Eval([1, r], Pow(k)));
    }
  }

  lemma EvalLinear(r: bv8, x: bv8)
    ensures Eval([1, r], x) == Add(x, r)
  {
    hide Mul, Add;
    assert [1, r] == ([] + [1 as bv8]) + [r];
    EvalSnoc([] + [1], r, x);
    EvalSnoc([], 1, x);
    MulZero(x);
    AddZero(1);
    MulOne(x);
  }

  lemma {:induction false} GeneratorMonic(degree: nat)
    ensures Generator(degree)[0] == 1
  {
    hide Mul, Add, Pow;
    if degree > 0 {
      GeneratorMonic(degree - 1);
      TimesLinear(Generator(degree - 1), Pow(degree - 1));
      AddZero(1);
      MulZero(Pow(degree - 1));
    }
  }

  /** Multiplying by (x - r) is shifting, scaling and adding. */
  lemma {:induction false} TimesLinear(q: Poly, r: bv8)
    ensures Times(q, [1, r]) == Plus(q + [0], [0] + Scale(r, q))
  {
    hide Mul, Add;
    var lhs, rhs := Times(q, [1, r]), Plus(q + [0], [0] + Scale(r, q));
    AddZero(0);
    if q != [] {
      var n := |q| - 1;
      var p := Times(q[..n], [1, r]);
      var tail := Zeros(n) + Scale(q[n], [1, r]);
      TimesLinear(q[..n], r);
      MulOne(q[n]);
      MulComm(r, q[n]);
      forall i | 0 <= i < n + 2
        ensures lhs[i] == rhs[i]
      {
        if i < n {
          AddZero(rhs[i]);
          assert tail[i] == 0;
        } else if i == n {
          AddComm(if n == 0 then 0 else Mul(q[n - 1], r), q[n]);
          AddZero(if n == 0 then 0 else Mul(q[n - 1], r));
          assert tail[i] == q[n];
          assert p[i] == Add(0, if n == 0 then 0 else Mul(q[n - 1], r));
        } else {
          assert tail[i] == Mul(r, q[n]);
        }
      }
    }
    assert lhs == rhs;
  }

  /** The taps: the generator without its leading one. */
  function Taps(degree: nat): (c: Poly)
    ensures |c| == degree
    ensures [1] + c == Generator(degree)
  {
    GeneratorMonic(degree);
    Generator(degree)[1..]
  }

  predicate IsCodeword(degree: nat, w: Poly) {
    forall k :: 0 <= k < degree ==> Eval(w, Pow(k)) == 0
  }

  /** Data followed by its check words evaluates to zero at 2^0, ..., 2^(degree-1). */
  lemma SyndromesVanish(degree: nat, data: Poly)
    requires degree > 0
    ensures IsCodeword(degree, data + Remainder(Taps(degree), data))
  {
    hide Mul, Add, Pow;
    var g := Generator(degree);
    RemainderDivides(Taps(degree), data);
    forall k | 0 <= k < degree
      ensures Eval(data + Remainder(Taps(degree), data), Pow(k)) == 0
    {
      EvalTimes(Quotient(Taps(degree), data), g, Pow(k));
      GeneratorRoots(degree, k);
      MulZero(Eval(Quotient(Taps(degree), data), Pow(k)));
    }
  }

  // ----- minimum distance

  /** The number of nonzero coefficients. */
  function Weight(e: Poly): nat {
    if e == [] then 0 else Weight(e[..|e| - 1]) + if e[|e| - 1] != 0 then 1 else 0
  }

  /** Every coefficient times the field element that stands for its position. */
  function Locate(e: Poly): (l: Poly)
    ensures |l| == |e|
    ensures forall i :: 0 <= i < |e| ==> l[i] == Mul(e[i], Pow(|e| - 1 - i))
  {
    seq(|e|, i requires 0 <= i < |e| => Mul(e[i], Pow(|e| - 1 - i)))
  }

  lemma {:induction false} EvalLocate(e: Poly, k: nat)
    ensures Eval(Locate(e), Pow(k)) == Eval(e, Pow(k + 1))
  {
    hide Mul, Add, Double;
    if e != [] {
      var n := |e| - 1;
      var p, x := e[..n], Pow(k);
      forall i | 0 <= i < n
        ensures Locate(e)[..n][i] == Scale(2, Locate(p))[i]
      {
        MulTwo(Pow(n - 1 - i));
        MulAssoc(e[i], Pow(n - 1 - i), 2);
      }
      assert Locate(e)[..n] == Scale(2, Locate(p));
      EvalLocate(p, k);
      EvalScale(2, Locate(p), x);
      MulOne(e[n]);
      MulTwo(x);
      MulComm(2, Eval(p, Pow(k + 1)));
      MulAssoc(Eval(p, Pow(k + 1)), 2, x);
      MulComm(2, x);
    }
  }

  /** Knock out position i: multiply every coefficient by its locator minus that of i. */
  function Knock(e: Poly, i: nat): (k: Poly)
    requires i < |e|
    ensures |k| == |e|
  {
    Plus(Locate(e), Scale(Pow(|e| - 1 - i), e))
  }

  lemma KnockAt(e: Poly, i: nat, j: nat)
    requires i < |e| <= 255 && j < |e|
    ensures Knock(e, i)[j] == 0 <==> e[j] == 0 || j == i
  {
    hide Mul, Add, Pow;
    var x, y := Pow(|e| - 1 - j), Pow(|e| - 1 - i);
    MulAddRight(e[j], x, y);
    NoZeroDivisors(e[j], Add(x, y));
    AddCancel(x, y);
    if j < i {
      PowDistinct(|e| - 1 - i, |e| - 1 - j);
    } else if i < j {
      PowDistinct(|e| - 1 - j, |e| - 1 - i);
    }
  }

  lemma {:induction false} WeightZeros(e: Poly)
    ensures Weight(e) == 0 <==> e == Zeros(|e|)
  {
    if e != [] {
      var n := |e| - 1;
      WeightZeros(e[..n]);
      assert e == Zeros(|e|) ==> e[..n] == Zeros(n);
      if e[..n] == Zeros(n) && e[n] == 0 {
        assert forall i :: 0 <= i < n ==> e[i] == e[..n][i];
      }
    }
  }

  lemma {:induction false} WeightDrop(e: Poly, d: Poly, i: int)
    requires |e| == |d|
    requires forall j :: 0 <= j < |e| ==> (d[j] == 0 <==> e[j] == 0 || j == i)
    ensures Weight(d) == Weight(e) - if 0 <= i < |e| && e[i] != 0 then 1 else 0
  {
    if e != [] {
      var n := |e| - 1;
      WeightDrop(e[..n], d[..n], i);
    }
  }

  /** A word with fewer nonzero coefficients than consecutive vanishing syndromes is zero. */
  lemma {:induction false} FewNonzeroVanish(degree: nat, e: Poly)
    requires |e| <= 255 && Weight(e) <= degree && IsCodeword(degree, e)
    ensures e == Zeros(|e|)
    decreases degree
  {
    hide Mul, Add, Pow;
    if e != Zeros(|e|) {
      WeightZeros(e);
      var i :| 0 <= i < |e| && e[i] != 0;
      var d, y := Knock(e, i), Pow(|e| - 1 - i);
      forall j | 0 <= j < |e|
        ensures d[j] == 0 <==> e[j] == 0 || j == i
      {
        KnockAt(e, i, j);
      }
      WeightDrop(e, d, i);
      forall k | 0 <= k < degree - 1
        ensures Eval(d, Pow(k)) == 0
      {
        EvalPlus(Locate(e), Scale(y, e), Pow(k));
        EvalLocate(e, k);
        EvalScale(y, e, Pow(k));
        MulZero(y);
        AddZero(0);
      }
      FewNonzeroVanish(degree - 1, d);
      assert forall j :: 0 <= j < |e| && j != i ==> e[j] == 0 by {
        assert forall j :: 0 <= j < |e| ==> d[j] == 0;
      }
      EvalSingle(e, i);
    }
  }

  lemma {:induction false} EvalSingle(e: Poly, i: nat)
    requires i < |e| && forall j :: 0 <= j < |e| && j != i ==> e[j] == 0
    ensures Eval(e, Pow(0)) == e[i]
  {
    hide Mul, Add;
    var n := |e| - 1;
    assert Pow(0) == 1;
    if i == n {
      assert e[..n] == Zeros(n);
      EvalZeros(n, 1);
      MulZero(1);
    } else {
      EvalSingle(e[..n], i);
      MulOne(e[i]);
    }
    AddZero(e[i]);
  }

  /** Distinct codewords of at most 255 words differ in more than `degree` places. */
  lemma MinimumDistance(degree: nat, w: Poly, w': Poly)
    requires |w| == |w'| <= 255 && w != w'
    requires IsCodeword(degree, w) && IsCodeword(degree, w')
    ensures Weight(Plus(w, w')) > degree
  {
    hide Mul, Add, Pow;
    var e := Plus(w, w');
    if Weight(e) <= degree {
      forall k | 0 <= k < degree
        ensures Eval(e, Pow(k)) == 0
      {
        EvalPlus(w, w', Pow(k));
        AddZero(0);
      }
      FewNonzeroVanish(degree, e);
      forall i | 0 <= i < |w|
        ensures w[i] == w'[i]
      {
        AddCancel(w[i], w'[i]);
        assert e[i] == 0;
      }
    }
  }

  lemma {:induction false} WeightBound(n: nat, p: Poly)
    ensures Weight(Zeros(n) + p) <= |p|
  {
    if p == [] {
      assert Zeros(n) + p == Zeros(n);
      WeightZeros(Zeros(n));
    } else {
      assert (Zeros(n) + p)[..n + |p| - 1] == Zeros(n) + p[..|p| - 1];
      WeightBound(n, p[..|p| - 1]);
    }
  }

  lemma SharedPrefixWeight(data: Poly, r: Poly, s: Poly)
    requires |r| == |s|
    ensures Weight(Plus(data + r, data + s)) <= |r|
  {
    hide Add;
    var e := Plus(data + r, data + s);
    forall i | 0 <= i < |data|
      ensures e[i] == 0
    {
      AddZero(data[i]);
    }
    assert e == Zeros(|data|) + e[|data|..];
    WeightBound(|data|, e[|data|..]);
  }

  /** The check words are the only ones that make the data a codeword. */
  lemma RemainderUnique(degree: nat, data: Poly, r: Poly)
    requires 0 < degree == |r| && |data| + degree <= 255
    ensures IsCodeword(degree, data + r) <==> r == Remainder(Taps(degree), data)
  {
    hide IsCodeword, Taps, Remainder, Plus, Weight;
    var s := Remainder(Taps(degree), data);
    SyndromesVanish(degree, data);
    if IsCodeword(degree, data + r) && r != s {
      assert (data + r)[|data|..] == r && (data + s)[|data|..] == s;
      MinimumDistance(degree, data + r, data + s);
      SharedPrefixWeight(data, r, s);
    }
  }

  // ----- unique decoding

  /** Differences add up. */
  lemma {:induction false} WeightTriangle(a: Poly, b: Poly, c: Poly)
    requires |a| == |b| == |c|
    ensures Weight(Plus(a, c)) <= Weight(Plus(a, b)) + Weight(Plus(b, c))
  {
    if a != [] {
      var n := |a| - 1;
      WeightTriangle(a[..n], b[..n], c[..n]);
      PlusInit(a, b);
      PlusInit(b, c);
      PlusInit(a, c);
      NoDifference(a[n], b[n], c[n]);
    }
  }

  lemma PlusInit(a: Poly, b: Poly)
    requires |a| == |b| > 0
    ensures Plus(a, b)[..|a| - 1] == Plus(a[..|a| - 1], b[..|a| - 1])
  {
  }

  lemma NoDifference(a: bv8, b: bv8, c: bv8)
    ensures Add(a, b) == 0 && Add(b, c) == 0 ==> Add(a, c) == 0
  {
  }

  lemma {:induction false} WeightSymmetric(a: Poly, b: Poly)
    requires |a| == |b|
    ensures Weight(Plus(a, b)) == Weight(Plus(b, a))
  {
    hide Add;
    forall i | 0 <= i < |a| ensures Plus(a, b)[i] == Plus(b, a)[i] { AddComm(a[i], b[i]); }
    assert Plus(a, b) == Plus(b, a);
  }

  /** Within half the number of check words of any word there is at most one codeword. */
  lemma UniqueCodeword(degree: nat, r: Poly, w: Poly, w': Poly)
    requires |r| == |w| == |w'| <= 255 && IsCodeword(degree, w) && IsCodeword(degree, w')
    requires 2 * Weight(Plus(r, w)) <= degree && 2 * Weight(Plus(r, w')) <= degree
    ensures w == w'
  {
    hide IsCodeword, Plus, Weight;
    WeightSymmetric(r, w);
    WeightTriangle(w, r, w');
    if w != w' { MinimumDistance(degree, w, w'); }
  }
}
