/** Numbers as bit strings, most significant bit first. */
module BitStrings {
  import opened Arith

  function Pow2(n: nat): (p: nat)
    ensures p > 0
  {
    if n == 0 then 1 else 2 * Pow2(n - 1)
  }

  /** The low `length` bits of `val`. */
  function ToBits(val: nat, length: nat): (bits: seq<bool>)
    ensures |bits| == length
    decreases length
  {
    if length == 0 then [] else ToBits(val / 2, length - 1) + [val % 2 == 1]
  }

  function FromBits(bits: seq<bool>): nat {
    if bits == [] then 0 else 2 * FromBits(bits[..|bits| - 1]) + if bits[|bits| - 1] then 1 else 0
  }

  /** Bit i of val, counted from the least significant one. */
  predicate ValBit(val: nat, i: nat) { val / Pow2(i) % 2 == 1 }

  lemma {:induction false} ToBitsAt(val: nat, length: nat, k: nat)
    requires k < length
    ensures ToBits(val, length)[k] == ValBit(val, length - 1 - k)
    decreases length
  {
    if k < length - 1 {
      ToBitsAt(val / 2, length - 1, k);
      var m := length - 2 - k;
      assert val / 2 / Pow2(m) == val / Pow2(m + 1) by { DivTwice(val, Pow2(m)); }
    }
  }

  lemma DivTwice(val: nat, p: nat)
    requires p > 0
    ensures val / 2 / p == val / (2 * p)
  {
    var q := val / (2 * p);
    var r := val % (2 * p);
    assert val == q * (2 * p) + r;
    DivModUnique(val / 2, q, r / 2, p);
  }

  lemma {:induction false} PowMonotone(a: nat, b: nat)
    requires a <= b
    ensures Pow2(a) <= Pow2(b)
    decreases b
  {
    if a < b {
      PowMonotone(a, b - 1);
    }
  }

  lemma {:induction false} FromToBits(val: nat, length: nat)
    requires val < Pow2(length)
    ensures FromBits(ToBits(val, length)) == val
    decreases length
  {
    if length > 0 {
      FromToBits(val / 2, length - 1);
      assert ToBits(val, length)[..length - 1] == ToBits(val / 2, length - 1);
    }
  }

  lemma {:induction false} FromBitsRange(bits: seq<bool>)
    ensures FromBits(bits) < Pow2(|bits|)
  {
    if bits != [] {
      FromBitsRange(bits[..|bits| - 1]);
    }
  }

  lemma {:induction false} FromBitsDrop(bits: seq<bool>)
    requires bits != []
    ensures FromBits(bits) == (if bits[0] then Pow2(|bits| - 1) else 0) + FromBits(bits[1..])
  {
    var n := |bits| - 1;
    if n > 0 {
      FromBitsDrop(bits[..n]);
      assert bits[..n][1..] == bits[1..][..n - 1];
    }
  }

  lemma {:induction false} FromBitsInjective(a: seq<bool>, b: seq<bool>)
    requires |a| == |b| && FromBits(a) == FromBits(b)
    ensures a == b
  {
    if a != [] {
      var n := |a| - 1;
      FromBitsInjective(a[..n], b[..n]);
      assert a == a[..n] + [a[n]] && b == b[..n] + [b[n]];
    }
  }

  lemma FromBitsSnoc(p: seq<bool>, c: bool)
    ensures FromBits(p + [c]) == 2 * FromBits(p) + if c then 1 else 0
  {
    assert (p + [c])[..|p|] == p;
  }
}
