/** The two loops of the coder, writing into a caller's buffer. */
module Base64Coder {
  import opened Base64
  import opened Widths

  /** What one round of the loop writes. */
  function Quad(s: Bytes, i: nat): Bytes
    requires i < |s|
  {
    var b: bv8 := if i + 1 < |s| then s[i + 1] else 0;
    var c: bv8 := if i + 2 < |s| then s[i + 2] else 0;
    var t := Join(s[i], b, c);
    [Char(t, 0), Char(t, 1), if i + 1 < |s| then Char(t, 2) else EQUALS, if i + 2 < |s| then Char(t, 3) else EQUALS]
  }

  lemma EncodeQuad(s: Bytes)
    requires s != []
    ensures Encode(s) == Quad(s, 0) + if |s| <= 3 then [] else Encode(s[3..])
  {
    hide Char, Join, Encode;
    EncodeUnfold(s);
    if |s| == 3 {
      assert s[3..] == [];
      EncodeNone();
    }
  }

  lemma EncodeUnfold(s: Bytes)
    requires s != []
    ensures |s| < 3 ==> Encode(s) == Quad(s, 0)
    ensures |s| >= 3 ==> Encode(s) == Quad(s, 0) + Encode(s[3..])
  {
    hide Char, Join;
    if |s| == 1 {
      assert Encode(s) == Quad(s, 0);
    } else if |s| == 2 {
      assert Encode(s) == Quad(s, 0);
    }
  }

  lemma QuadFrom(s: Bytes, i: nat)
    requires i < |s|
    ensures Quad(s, i) == Quad(s[i..], 0)
  {
    hide Char, Join;
  }

  /** base64_encode: the text, a zero, and its length. */
  method Base64Encode(src: Bytes, dst: array<bv8>) returns (j: nat)
    requires (|src| + 2) / 3 * 4 < dst.Length
    modifies dst
    ensures j == |Encode(src)| < dst.Length && dst[..j] == Encode(src) && dst[j] == 0
  {
    hide Encode, Char, Join, Quad;
    EncodeLength(src);
    EncodeNone();
    var i := 0;
    j := 0;
    ghost var k := 0;
    assert From(src, 0) == Encode(src) by { assert src[0..] == src; }
    while i < |src|
      invariant i == 3 * k && j == 4 * k && i <= |src| + 2 && j < dst.Length
      invariant dst[..j] + From(src, i) == Encode(src)
    {
      var b: bv8 := if i + 1 < |src| then src[i + 1] else 0;
      var c: bv8 := if i + 2 < |src| then src[i + 2] else 0;
      var triple := Join(src[i], b, c);
      FromQuad(src, i);
      WriteQuad(src, i, triple, dst, j);
      i := i + 3;
      j := j + 4;
      k := k + 1;
    }
    dst[j] := 0;
  }

  /** What is still to be written when the loop has come to place i. */
  function From(s: Bytes, i: nat): Bytes { if i < |s| then Encode(s[i..]) else [] }

  lemma FromQuad(s: Bytes, i: nat)
    requires i < |s|
    ensures From(s, i) == Quad(s, i) + From(s, i + 3)
  {
    hide Encode, Quad;
    QuadFrom(s, i);
    EncodeQuad(s[i..]);
    NextQuad(s, i);
  }

  lemma NextQuad(s: Bytes, i: nat)
    requires i < |s|
    ensures |s[i..]| > 3 ==> s[i..][3..] == s[i + 3..]
  {
  }

  method WriteQuad(src: Bytes, i: nat, triple: bv32, dst: array<bv8>, j: nat)
    requires i < |src| && j + 4 <= dst.Length
    requires triple == Join(src[i], if i + 1 < |src| then src[i + 1] else 0, if i + 2 < |src| then src[i + 2] else 0)
    modifies dst
    ensures dst[..j + 4] == old(dst[..j]) + Quad(src, i)
  {
    hide Char, Join;
    dst[j] := Char(triple, 0);
    dst[j + 1] := Char(triple, 1);
    dst[j + 2] := if i + 1 < |src| then Char(triple, 2) else EQUALS;
    dst[j + 3] := if i + 2 < |src| then Char(triple, 3) else EQUALS;
  }

  /** The bytes that the k-th group of four gives. */
  lemma {:induction false} GroupsAt(s: Bytes, k: nat, m: nat)
    requires 4 * k + 4 <= |s| && m < 3
    ensures 3 * k + m < |Groups(s)| && Groups(s)[3 * k + m] == Octet(Group(s[4 * k..]), m)
  {
    hide Group, Octet;
    if k == 0 {
      assert s[0..] == s;
    } else {
      GroupsAt(s[4..], k - 1, m);
      assert s[4..][4 * (k - 1)..] == s[4 * k..];
    }
  }

  /** base64_decode: the number of bytes written, into any buffer that has room for them. */
  method Base64Decode(src: Bytes, dst: array<bv8>) returns (j: nat)
    requires |src| < TWO32 && |Decode(src)| <= dst.Length
    modifies dst
    ensures j == |Decode(src)| <= dst.Length && dst[..j] == Decode(src)
  {
    hide Group, Octet, Groups, ValOrPad, Val;
    var n := |src|;
    var padding := 0;
    if n >= 1 && src[n - 1] == EQUALS { padding := padding + 1; }
    if n >= 2 && src[n - 2] == EQUALS { padding := padding + 1; }
    var expected := (n / 4 * 3 - padding) % TWO32;
    GroupsLength(src);
    assert n >= 4 ==> expected == Expected(src) == |Decode(src)|;
    var i := 0;
    j := 0;
    ghost var k := 0;
    while i + 3 < n
      invariant i == 4 * k && i <= n
      invariant j == Least(expected, 3 * k) && j <= |Groups(src)|
      invariant dst[..j] == Groups(src)[..j]
    {
      var triple := Merge(Val(src[i]), Val(src[i + 1]), ValOrPad(src[i + 2]), ValOrPad(src[i + 3]));
      GroupIs(src, i);
      GroupsAt(src, k, 0);
      GroupsAt(src, k, 1);
      GroupsAt(src, k, 2);
      j := WriteSome(dst, j, expected, Octet(triple, 0), Octet(triple, 1), Octet(triple, 2), Groups(src));
      i := i + 4;
      k := k + 1;
    }
    assert n >= 4 ==> j == Expected(src);
  }

  function Least(a: nat, b: nat): nat { if a <= b then a else b }

  lemma GroupIs(s: Bytes, i: nat)
    requires i + 4 <= |s|
    ensures Merge(Val(s[i]), Val(s[i + 1]), ValOrPad(s[i + 2]), ValOrPad(s[i + 3])) == Group(s[i..])
  {
    hide Merge, Val, ValOrPad;
  }

  /** Up to three bytes, as long as more are expected. */
  method WriteSome(dst: array<bv8>, at: nat, expected: nat, x: bv8, y: bv8, z: bv8, ghost all: Bytes) returns (j: nat)
    requires at <= dst.Length && at <= |all| && dst[..at] == all[..at]
    requires at < expected ==> at + 3 <= |all| && all[at] == x && all[at + 1] == y && all[at + 2] == z
    requires at < expected ==> Least(expected, at + 3) <= dst.Length
    modifies dst
    ensures j == if at < expected then Least(expected, at + 3) else at
    ensures j <= dst.Length && j <= |all| && dst[..j] == all[..j]
  {
    j := at;
    if j < expected { j := WriteOne(dst, j, x, all); }
    if j < expected { j := WriteOne(dst, j, y, all); }
    if j < expected { j := WriteOne(dst, j, z, all); }
  }

  method WriteOne(dst: array<bv8>, at: nat, x: bv8, ghost all: Bytes) returns (j: nat)
    requires at < dst.Length && at < |all| && all[at] == x && dst[..at] == all[..at]
    modifies dst
    ensures j == at + 1 && dst[..j] == all[..j]
  {
    dst[at] := x;
    assert dst[..at + 1] == dst[..at] + [x];
    assert all[..at + 1] == all[..at] + [x];
    j := at + 1;
  }
}
