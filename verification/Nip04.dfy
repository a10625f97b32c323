/** Encrypted direct messages: padding (section 6.3 of RFC 5652), cipher and Base64 put together. */
module Nip04 {
  import opened Options
  import opened Base64
  import opened Base64Coder
  import opened Widths

  const BLOCK := 16
  const PLAIN_MAX := 4096
  const COMBINED_MAX := 4112

  // ----- padding

  function Count(b: bv8): nat { b as nat }

  function PadByte(n: nat): bv8
    requires n <= BLOCK
  {
    n as bv8
  }

  function PadCount(len: nat): (n: nat)
    ensures 1 <= n <= BLOCK
  {
    BLOCK - len % BLOCK
  }

  function Repeated(n: nat, b: bv8): (s: Bytes)
    ensures |s| == n && forall i :: 0 <= i < n ==> s[i] == b
  {
    seq(n, _ => b)
  }

  function Pad(s: Bytes): Bytes { s + Repeated(PadCount(|s|), PadByte(PadCount(|s|))) }

  /** How many bytes pkcs7_unpad leaves: none where the padding is wrong. Where the text is shorter than its
      padding claims, the difference wraps around. */
  function Unpad(s: Bytes): nat {
    if s == [] then 0
    else
      var b := s[|s| - 1];
      var n := Count(b);
      if n == 0 || n > BLOCK then 0
      else if |s| < n then (|s| - n) % TWO32
      else if forall i :: |s| - n <= i < |s| ==> s[i] == b then |s| - n
      else 0
  }

  lemma CountPadByte(n: nat)
    requires n <= BLOCK
    ensures Count(PadByte(n)) == n
  {
  }

  lemma UnpadPad(s: Bytes)
    ensures |Pad(s)| % BLOCK == 0 && |s| < |Pad(s)| <= |s| + BLOCK
    ensures Unpad(Pad(s)) == |s| && Pad(s)[..|s|] == s
  {
    hide Count, PadByte;
    CountPadByte(PadCount(|s|));
  }

  method PadInPlace(buf: array<bv8>, len: nat) returns (padded: nat)
    requires len + PadCount(len) <= buf.Length
    modifies buf
    ensures padded == |Pad(old(buf[..len]))| <= buf.Length && buf[..padded] == Pad(old(buf[..len]))
  {
    hide PadByte;
    ghost var was := buf[..len];
    var pad := BLOCK - len % BLOCK;
    for i := 0 to pad
      invariant buf[..len] == was
      invariant forall j :: len <= j < len + i ==> buf[j] == PadByte(pad)
    {
      buf[len + i] := PadByte(pad);
    }
    padded := len + pad;
    assert buf[len..padded] == Repeated(pad, PadByte(pad));
    assert buf[..padded] == buf[..len] + buf[len..padded];
  }

  method UnpadLength(buf: array<bv8>, len: nat) returns (n: nat)
    requires len <= buf.Length < TWO32
    ensures n == Unpad(buf[..len])
  {
    hide Count;
    ghost var s := buf[..len];
    if len == 0 { return 0; }
    var b := buf[len - 1];
    var pad := Count(b);
    if pad == 0 || pad > BLOCK { return 0; }
    if len < pad { return (len - pad) % TWO32; }
    var i := len - pad;
    while i < len
      invariant len - pad <= i <= len
      invariant forall j :: len - pad <= j < i ==> s[j] == b
    {
      if buf[i] != b {
        assert s[i] != b;
        return 0;
      }
      i := i + 1;
    }
    return len - pad;
  }

  // ----- messages

  type Key = Bytes

  /** The cipher and the key agreement, which this model takes as given. */
  datatype Crypto = Crypto(
    enc: (Key, Bytes, Bytes) -> Bytes,
    dec: (Key, Bytes, Bytes) -> Bytes,
    shared: (Bytes, Bytes) -> Key,
    pub: Bytes -> Bytes)

  /** AES-CBC undoes itself on whole blocks, and both sides agree on the key. */
  ghost predicate Lawful(c: Crypto) {
    && (forall k, iv, m :: |m| % BLOCK == 0 ==> |c.enc(k, iv, m)| == |m| && c.dec(k, iv, c.enc(k, iv, m)) == m)
    && (forall k, iv, m :: |c.dec(k, iv, m)| == |m|)
    && (forall a, b :: c.shared(a, c.pub(b)) == c.shared(b, c.pub(a)))
  }

  function Sealed(c: Crypto, priv: Bytes, peer: Bytes, iv: Bytes, text: Bytes): Bytes {
    Encode(iv + c.enc(c.shared(priv, peer), iv, Pad(text)))
  }

  function Opened(c: Crypto, priv: Bytes, peer: Bytes, cipher: Bytes, max: nat): Option<Bytes> {
    var combined := Decode(cipher);
    if |combined| < 32 then None
    else
      var plain := c.dec(c.shared(priv, peer), combined[..16], combined[16..]);
      var n := Unpad(plain);
      if n == 0 || n >= max || n > |plain| then None else Some(plain[..n])
  }

  /** The padding: between one and sixteen bytes up to a multiple of sixteen, each of which tells how many they are. */
  lemma PadIs(s: Bytes)
    ensures var n := |Pad(s)| - |s|;
            && 1 <= n <= 16 && |Pad(s)| % 16 == 0 && Pad(s)[..|s|] == s
            && forall i :: |s| <= i < |Pad(s)| ==> Pad(s)[i] as nat == n
  {
    hide PadByte;
    UnpadPad(s);
    CountPadByte(PadCount(|s|));
  }

  /** What is sent: the vector, and behind it the padded text enciphered under the common key, all in Base64. */
  lemma SealedIs(c: Crypto, priv: Bytes, peer: Bytes, iv: Bytes, text: Bytes)
    ensures Decode(Sealed(c, priv, peer, iv, text)) == iv + c.enc(c.shared(priv, peer), iv, Pad(text))
    ensures Encode(Decode(Sealed(c, priv, peer, iv, text))) == Sealed(c, priv, peer, iv, text)
  {
    hide Encode, Decode;
    DecodeEncode(iv + c.enc(c.shared(priv, peer), iv, Pad(text)));
  }

  /** The receiver reads what the sender wrote exactly when it is not empty and fits. */
  lemma OpenSealed(c: Crypto, alice: Bytes, bob: Bytes, iv: Bytes, text: Bytes, max: nat)
    requires Lawful(c) && |iv| == 16
    ensures Opened(c, bob, c.pub(alice), Sealed(c, alice, c.pub(bob), iv, text), max)
         == if 1 <= |text| < max then Some(text) else None
  {
    hide Unpad, Pad, Encode, Decode;
    var key := c.shared(alice, c.pub(bob));
    var block := c.enc(key, iv, Pad(text));
    UnpadPad(text);
    DecodeEncode(iv + block);
    assert (iv + block)[..16] == iv && (iv + block)[16..] == block;
    assert c.dec(key, iv, block) == Pad(text);
  }

  // ----- the fixed buffers

  /** Text and padding, and the vector in front of them, stay within their buffers. */
  predicate EncryptFits(n: nat) { n + PadCount(n) <= PLAIN_MAX && BLOCK + n + PadCount(n) <= COMBINED_MAX }

  /** The decoded bytes, and what follows the vector, stay within their buffers. */
  predicate DecryptFits(cipher: Bytes) { |Decode(cipher)| <= COMBINED_MAX && |Decode(cipher)| - BLOCK <= PLAIN_MAX }

  /** That is so for texts of up to 4095 bytes and for no others. */
  lemma EncryptFitsIff(n: nat)
    ensures EncryptFits(n) <==> n <= 4095
  {
  }

  /** What one side can encrypt is exactly what the other side can take. */
  lemma DecryptFitsIff(c: Crypto, priv: Bytes, peer: Bytes, iv: Bytes, text: Bytes)
    requires Lawful(c) && |iv| == BLOCK
    ensures DecryptFits(Sealed(c, priv, peer, iv, text)) <==> EncryptFits(|text|)
  {
    hide Encode, Decode, Unpad;
    UnpadPad(text);
    DecodeEncode(iv + c.enc(c.shared(priv, peer), iv, Pad(text)));
  }

  /** nip04_encrypt, wherever it stays within its buffers and the caller's. */
  method Encrypt(c: Crypto, priv: Bytes, peer: Bytes, iv: Bytes, plaintext: Bytes, out: array<bv8>) returns (len: nat)
    requires Lawful(c) && |iv| == BLOCK
    requires EncryptFits(|plaintext|) && |Sealed(c, priv, peer, iv, plaintext)| < out.Length
    modifies out
    ensures len == |Sealed(c, priv, peer, iv, plaintext)|
    ensures out[..len] == Sealed(c, priv, peer, iv, plaintext) && out[len] == 0
  {
    hide Encode, Pad;
    UnpadPad(plaintext);
    var key := c.shared(priv, peer);
    var padded := new bv8[PLAIN_MAX](_ => 0);
    Fill(padded, plaintext);
    var paddedLen := PadInPlace(padded, |plaintext|);
    var block := c.enc(key, iv, padded[..paddedLen]);
    EncodeLength(iv + block);
    len := Base64Encode(iv + block, out);
  }

  /** memcpy to the start of a buffer */
  method Fill(buf: array<bv8>, s: Bytes)
    requires |s| <= buf.Length
    modifies buf
    ensures buf[..|s|] == s
  {
    for i := 0 to |s|
      invariant buf[..i] == s[..i]
    {
      buf[i] := s[i];
      assert buf[..i + 1] == buf[..i] + [s[i]];
    }
  }

  /** nip04_decrypt, wherever it stays within its buffers. */
  method Decrypt(c: Crypto, priv: Bytes, peer: Bytes, cipher: Bytes, plaintext: array<bv8>, max: nat) returns (len: int)
    requires Lawful(c)
    requires |cipher| < TWO32 && DecryptFits(cipher) && max <= plaintext.Length
    modifies plaintext
    ensures match Opened(c, priv, peer, cipher, max)
            case None => len == -1
            case Some(text) => len == |text| < max && plaintext[..len] == text && plaintext[len] == 0
  {
    hide Decode, Unpad;
    var combined := new bv8[COMBINED_MAX](_ => 0);
    var combinedLen := Base64Decode(cipher, combined);
    if combinedLen < 32 { return -1; }
    var iv := combined[..16];
    var ct := c.dec(c.shared(priv, peer), iv, combined[16..combinedLen]);
    assert combined[..combinedLen][16..] == combined[16..combinedLen];
    assert combined[..combinedLen][..16] == iv;
    var ctBuf := new bv8[PLAIN_MAX](_ => 0);
    Fill(ctBuf, ct);
    var n := UnpadLength(ctBuf, |ct|);
    UnpadAtMost(ct);
    if n == 0 || n >= max { return -1; }
    Fill(plaintext, ct[..n]);
    plaintext[n] := 0;
    return n;
  }

  lemma UnpadAtMost(s: Bytes)
    requires |s| >= BLOCK
    ensures Unpad(s) <= |s|
  {
  }
}
