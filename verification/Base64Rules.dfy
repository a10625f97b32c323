/** Base64 by the tables of RFC 4648: the alphabet, and the bits of the bytes in the symbols. */
module Base64Rules {
  import opened BitBuckets
  import opened Base64

  /** A to Z are 0 to 25, a to z 26 to 51, 0 to 9 52 to 61, and plus and slash the last two. */
  lemma AlphabetOrder(v: bv32)
    requires v < 64
    ensures v == 0 ==> Symbol(v) == 65      // A
    ensures v == 26 ==> Symbol(v) == 97     // a
    ensures v == 52 ==> Symbol(v) == 48     // 0
    ensures v == 62 ==> Symbol(v) == 43     // +
    ensures v == 63 ==> Symbol(v) == 47     // /
    ensures v != 0 && v != 26 && v != 52 && v != 62 && v != 63 ==> Symbol(v) == Symbol(v - 1) + 1
  {
  }

  /** A character has the value v exactly if it is the symbol of v; all others have none. */
  lemma ValueIs(c: bv8, v: bv32)
    requires v < 64
    ensures Val(c) == v <==> Symbol(v) == c
  {
    ValSymbol(v);
  }

  lemma NoValue(c: bv8)
    ensures Val(c) < 64 || Val(c) == 0xFFFF_FFFF
  {
  }

  // ----- bits

  /** The six bits of a value, the most significant first. */
  function SixBits(v: bv32): seq<bool> {
    [v & 0x20 != 0, v & 0x10 != 0, v & 0x08 != 0, v & 0x04 != 0, v & 0x02 != 0, v & 0x01 != 0]
  }

  lemma Sextet0(a: bv8, b: bv8, c: bv8)
    ensures SixBits(Sextet(Join(a, b, c), 0)) ==
            [Bit(a, 0), Bit(a, 1), Bit(a, 2), Bit(a, 3), Bit(a, 4), Bit(a, 5)]
  {
  }

  lemma Sextet1(a: bv8, b: bv8, c: bv8)
    ensures SixBits(Sextet(Join(a, b, c), 1)) ==
            [Bit(a, 6), Bit(a, 7), Bit(b, 0), Bit(b, 1), Bit(b, 2), Bit(b, 3)]
  {
  }

  lemma Sextet2(a: bv8, b: bv8, c: bv8)
    ensures SixBits(Sextet(Join(a, b, c), 2)) ==
            [Bit(b, 4), Bit(b, 5), Bit(b, 6), Bit(b, 7), Bit(c, 0), Bit(c, 1)]
  {
  }

  lemma Sextet3(a: bv8, b: bv8, c: bv8)
    ensures SixBits(Sextet(Join(a, b, c), 3)) ==
            [Bit(c, 2), Bit(c, 3), Bit(c, 4), Bit(c, 5), Bit(c, 6), Bit(c, 7)]
  {
  }

  lemma BitOfThree(a: bv8, b: bv8, c: bv8, i: nat)
    requires i < 24
    ensures BitsOf([a, b, c])[i] == Bit(if i < 8 then a else if i < 16 then b else c, i % 8)
  {
    hide Bit;
  }

  lemma SixOf(bits: seq<bool>, k: nat)
    requires k + 6 <= |bits|
    ensures bits[k..k + 6] == [bits[k], bits[k + 1], bits[k + 2], bits[k + 3], bits[k + 4], bits[k + 5]]
  {
  }

  lemma Symbol0(a: bv8, b: bv8, c: bv8)
    ensures SixBits(Sextet(Join(a, b, c), 0)) == BitsOf([a, b, c])[0..6]
  {
    hide Bit, SixBits, Sextet, Join, BitsOf;
    Sextet0(a, b, c);
    SixOf(BitsOf([a, b, c]), 0);
    BitOfThree(a, b, c, 0); BitOfThree(a, b, c, 1); BitOfThree(a, b, c, 2);
    BitOfThree(a, b, c, 3); BitOfThree(a, b, c, 4); BitOfThree(a, b, c, 5);
  }

  lemma Symbol1(a: bv8, b: bv8, c: bv8)
    ensures SixBits(Sextet(Join(a, b, c), 1)) == BitsOf([a, b, c])[6..12]
  {
    hide Bit, SixBits, Sextet, Join, BitsOf;
    Sextet1(a, b, c);
    SixOf(BitsOf([a, b, c]), 6);
    BitOfThree(a, b, c, 6); BitOfThree(a, b, c, 7); BitOfThree(a, b, c, 8);
    BitOfThree(a, b, c, 9); BitOfThree(a, b, c, 10); BitOfThree(a, b, c, 11);
  }

  lemma Symbol2(a: bv8, b: bv8, c: bv8)
    ensures SixBits(Sextet(Join(a, b, c), 2)) == BitsOf([a, b, c])[12..18]
  {
    hide Bit, SixBits, Sextet, Join, BitsOf;
    Sextet2(a, b, c);
    SixOf(BitsOf([a, b, c]), 12);
    BitOfThree(a, b, c, 12); BitOfThree(a, b, c, 13); BitOfThree(a, b, c, 14);
    BitOfThree(a, b, c, 15); BitOfThree(a, b, c, 16); BitOfThree(a, b, c, 17);
  }

  lemma Symbol3(a: bv8, b: bv8, c: bv8)
    ensures SixBits(Sextet(Join(a, b, c), 3)) == BitsOf([a, b, c])[18..24]
  {
    hide Bit, SixBits, Sextet, Join, BitsOf;
    Sextet3(a, b, c);
    SixOf(BitsOf([a, b, c]), 18);
    BitOfThree(a, b, c, 18); BitOfThree(a, b, c, 19); BitOfThree(a, b, c, 20);
    BitOfThree(a, b, c, 21); BitOfThree(a, b, c, 22); BitOfThree(a, b, c, 23);
  }

  /** The value of the k-th symbol is the k-th six bits of the three bytes. */
  lemma SextetBits(a: bv8, b: bv8, c: bv8, k: nat)
    requires k < 4
    ensures SixBits(Sextet(Join(a, b, c), k)) == BitsOf([a, b, c])[6 * k..6 * k + 6]
  {
    hide SixBits, Sextet, Join, BitsOf;
    if k == 0 { Symbol0(a, b, c); } else if k == 1 { Symbol1(a, b, c); } else if k == 2 { Symbol2(a, b, c); }
    else { Symbol3(a, b, c); }
  }

  /** Three of the published examples: f, fo and foo. */
  lemma Examples()
    ensures Encode([0x66]) == [90, 103, 61, 61]            // Zg==
    ensures Encode([0x66, 0x6f]) == [90, 109, 56, 61]      // Zm8=
    ensures Encode([0x66, 0x6f, 0x6f]) == [90, 109, 57, 118]   // Zm9v
  {
    assert Encode([]) == [];
    assert [0x66 as bv8, 0x6f, 0x6f][3..] == [];
  }
}
