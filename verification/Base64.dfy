/** Base64 (section 4 of RFC 4648) over buffers. */
module Base64 {
  type Bytes = seq<bv8>

  // ----- symbols

  const EQUALS: bv8 := 61   // '='

  /** The alphabet: capitals, small letters, digits, plus, slash. */
  function Symbol(v: bv32): bv8 {
    var b := (v & 0x3F) as bv8;
    if b < 26 then b + 65
    else if b < 52 then b + 71
    else if b < 62 then b - 4
    else if b == 62 then 43
    else 47
  }

  /** base64_val: all ones, the unsigned -1, for what is not in the alphabet. */
  function Val(c: bv8): bv32 {
    if 65 <= c && c <= 90 then (c - 65) as bv32
    else if 97 <= c && c <= 122 then (c - 71) as bv32
    else if 48 <= c && c <= 57 then (c + 4) as bv32
    else if c == 43 then 62
    else if c == 47 then 63
    else 0xFFFF_FFFF
  }

  function ValOrPad(c: bv8): bv32 { if c == EQUALS then 0 else Val(c) }

  function Join(a: bv8, b: bv8, c: bv8): bv32 { (a as bv32 << 16) | (b as bv32 << 8) | c as bv32 }

  function Sextet(t: bv32, k: nat): bv32
    requires k < 4
  {
    match k case 0 => (t >> 18) & 0x3F case 1 => (t >> 12) & 0x3F case 2 => (t >> 6) & 0x3F case _ => t & 0x3F
  }

  function Merge(a: bv32, b: bv32, c: bv32, d: bv32): bv32 { (a << 18) | (b << 12) | (c << 6) | d }

  function Octet(t: bv32, k: nat): bv8
    requires k < 3
  {
    match k case 0 => ((t >> 16) & 0xFF) as bv8 case 1 => ((t >> 8) & 0xFF) as bv8 case _ => (t & 0xFF) as bv8
  }

  lemma ValSymbol(v: bv32)
    requires v < 64
    ensures Val(Symbol(v)) == v && Symbol(v) != EQUALS
  {
  }

  lemma SextetSmall(t: bv32, k: nat)
    requires k < 4
    ensures Sextet(t, k) < 64
  {
  }

  lemma MergeSextets(a: bv8, b: bv8, c: bv8)
    ensures var t := Join(a, b, c); Merge(Sextet(t, 0), Sextet(t, 1), Sextet(t, 2), Sextet(t, 3)) == t
  {
  }

  lemma OctetsOfJoin(a: bv8, b: bv8, c: bv8)
    ensures var t := Join(a, b, c); Octet(t, 0) == a && Octet(t, 1) == b && Octet(t, 2) == c
  {
  }

  lemma LastSextet(a: bv8, b: bv8)
    ensures Sextet(Join(a, b, 0), 3) == 0
    ensures Sextet(Join(a, 0, 0), 2) == 0
  {
  }

  // ----- texts

  function Char(t: bv32, k: nat): bv8
    requires k < 4
  {
    Symbol(Sextet(t, k))
  }

  /** Three bytes become four symbols; one or two bytes at the end are filled up with zeros and marked with '='. */
  function Encode(s: Bytes): Bytes {
    if s == [] then []
    else if |s| == 1 then
      var t := Join(s[0], 0, 0);
      [Char(t, 0), Char(t, 1), EQUALS, EQUALS]
    else if |s| == 2 then
      var t := Join(s[0], s[1], 0);
      [Char(t, 0), Char(t, 1), Char(t, 2), EQUALS]
    else
      var t := Join(s[0], s[1], s[2]);
      [Char(t, 0), Char(t, 1), Char(t, 2), Char(t, 3)] + Encode(s[3..])
  }

  function Group(s: Bytes): bv32
    requires |s| >= 4
  {
    Merge(Val(s[0]), Val(s[1]), ValOrPad(s[2]), ValOrPad(s[3]))
  }

  /** Every whole group of four gives three bytes. */
  function Groups(s: Bytes): Bytes {
    if |s| < 4 then [] else [Octet(Group(s), 0), Octet(Group(s), 1), Octet(Group(s), 2)] + Groups(s[4..])
  }

  /** The number of '=' in the last two places. */
  function Padding(s: Bytes): nat {
    (if |s| >= 1 && s[|s| - 1] == EQUALS then 1 else 0) + (if |s| >= 2 && s[|s| - 2] == EQUALS then 1 else 0)
  }

  /** How many bytes are wanted, where that is not negative. */
  function Expected(s: Bytes): nat { if |s| < 4 then 0 else |s| / 4 * 3 - Padding(s) }

  function Decode(s: Bytes): Bytes {
    GroupsLength(s);
    Groups(s)[..Expected(s)]
  }

  lemma {:induction false} GroupsLength(s: Bytes)
    ensures |Groups(s)| == |s| / 4 * 3
  {
    if |s| >= 4 { GroupsLength(s[4..]); }
  }

  lemma {:induction false} EncodeLength(s: Bytes)
    ensures |Encode(s)| == (|s| + 2) / 3 * 4
  {
    hide Char, Join;
    if |s| >= 3 { EncodeLength(s[3..]); }
  }

  /** The symbols of a group stand for its bytes again. */
  lemma GroupBack(a: bv8, b: bv8, c: bv8, s: Bytes)
    requires |s| >= 4
    requires var t := Join(a, b, c);
             && s[0] == Char(t, 0) && s[1] == Char(t, 1)
             && (s[2] == Char(t, 2) || (s[2] == EQUALS && Sextet(t, 2) == 0))
             && (s[3] == Char(t, 3) || (s[3] == EQUALS && Sextet(t, 3) == 0))
    ensures Octet(Group(s), 0) == a && Octet(Group(s), 1) == b && Octet(Group(s), 2) == c
  {
    hide Join, Sextet, Merge, Octet, Symbol, Val;
    var t := Join(a, b, c);
    forall k: nat | k < 4 ensures Val(Char(t, k)) == Sextet(t, k) && Char(t, k) != EQUALS {
      SextetSmall(t, k);
      ValSymbol(Sextet(t, k));
    }
    MergeSextets(a, b, c);
    OctetsOfJoin(a, b, c);
  }

  lemma {:induction false} GroupsOfEncode(s: Bytes)
    ensures |s| <= |Groups(Encode(s))| && Groups(Encode(s))[..|s|] == s
  {
    hide Join, Sextet, Octet, Group, Char;
    var e := Encode(s);
    if |s| == 1 {
      LastSextet(s[0], 0);
      GroupBack(s[0], 0, 0, e);
      assert e[4..] == [];
    } else if |s| == 2 {
      LastSextet(s[0], s[1]);
      GroupBack(s[0], s[1], 0, e);
      assert e[4..] == [];
    } else if |s| >= 3 {
      GroupBack(s[0], s[1], s[2], e);
      assert e[4..] == Encode(s[3..]);
      GroupsOfEncode(s[3..]);
      var g := Groups(e[4..]);
      assert Groups(e) == [s[0], s[1], s[2]] + g;
      assert s == [s[0], s[1], s[2]] + s[3..];
    }
  }

  lemma CharNotEquals(t: bv32, k: nat)
    requires k < 4
    ensures Char(t, k) != EQUALS
  {
    hide Sextet, Symbol;
    SextetSmall(t, k);
    ValSymbol(Sextet(t, k));
  }

  lemma {:induction false} PaddingOfEncode(s: Bytes)
    ensures Padding(Encode(s)) == (if |s| % 3 == 1 then 2 else if |s| % 3 == 2 then 1 else 0)
  {
    hide Char, Join;
    var e := Encode(s);
    if |s| == 1 {
      assert e[2] == EQUALS && e[3] == EQUALS;
    } else if |s| == 2 {
      CharNotEquals(Join(s[0], s[1], 0), 2);
    } else if |s| >= 3 {
      PaddingOfEncode(s[3..]);
      EncodeLength(s[3..]);
      var t := Join(s[0], s[1], s[2]);
      CharNotEquals(t, 2);
      CharNotEquals(t, 3);
      assert e[4..] == Encode(s[3..]);
      if |s| > 3 { PaddingTail(e); }
    }
  }

  /** The padding of a longer text is that of its end. */
  lemma PaddingTail(e: Bytes)
    requires |e| >= 6
    ensures Padding(e) == Padding(e[4..])
  {
  }

  /** Decoding gives back every byte string. */
  lemma DecodeEncode(s: Bytes)
    ensures Decode(Encode(s)) == s
  {
    hide Encode, Groups, Padding;
    EncodeLength(s);
    PaddingOfEncode(s);
    GroupsOfEncode(s);
    if s == [] { EncodeNone(); }
  }

  lemma EncodeNone()
    ensures Encode([]) == [] && Padding([]) == 0
  {
  }
}
