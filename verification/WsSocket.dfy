/** The frames as the server's buffers hold them. */
module WsSocket {
  import opened Options
  import opened WsFrame
  import opened Widths

  /** ws_send_text computes the size before it writes. */
  function FrameLen(n: nat): nat { 6 + n + (if n > 125 then 2 else 0) + (if n > 65535 then 6 else 0) }

  lemma FrameLength(mask: Mask, msg: Bytes)
    ensures |Frame(mask, msg)| == FrameLen(|msg|)
  {
    hide Masked, Flagged, ByteOf;
  }

  method PutByte(frame: array<bv8>, pos: nat, b: bv8) returns (next: nat)
    requires pos < frame.Length
    modifies frame
    ensures next == pos + 1 && frame[..next] == old(frame[..pos]) + [b]
  {
    frame[pos] := b;
    next := pos + 1;
  }

  /** Shifting a size_t of this many bits by as many or more is undefined; the longest form shifts by 56. */
  predicate ShiftsDefined(len: nat, width: nat) { len > 65535 ==> 56 < width }

  /** On a target of 32 bits that is the case exactly up to 65535 bytes, on one of 64 bits always. */
  lemma ShiftsIff(len: nat)
    ensures ShiftsDefined(len, 32) <==> |LengthField(len)| < 9
    ensures ShiftsDefined(len, 64)
  {
    hide Flagged, ByteOf;
  }

  /** The second byte and the extended length. */
  method PutLength(frame: array<bv8>, at: nat, len: nat, ghost width: nat) returns (pos: nat)
    requires at + |LengthField(len)| <= frame.Length && ShiftsDefined(len, width)
    modifies frame
    ensures pos == at + |LengthField(len)| && frame[..pos] == old(frame[..at]) + LengthField(len)
  {
    hide ByteOf, Flagged, Big;
    pos := at;
    if len <= 125 {
      pos := PutByte(frame, pos, Flagged(ByteOf(len)));
    } else if len <= 65535 {
      pos := PutByte(frame, pos, Flagged(126));
      pos := PutTwo(frame, pos, len);
    } else {
      pos := PutByte(frame, pos, Flagged(127));
      pos := PutEight(frame, pos, len, width);
    }
  }

  method PutTwo(frame: array<bv8>, at: nat, len: nat) returns (pos: nat)
    requires at + 2 <= frame.Length
    modifies frame
    ensures pos == at + 2 && frame[..pos] == old(frame[..at]) + Big(len, 2)
  {
    hide ByteOf;
    TwoBytes(len);
    pos := PutByte(frame, at, ByteOf(len / 256));
    pos := PutByte(frame, pos, ByteOf(len));
  }

  method PutEight(frame: array<bv8>, at: nat, len: nat, ghost width: nat) returns (pos: nat)
    requires at + 8 <= frame.Length && 56 < width
    modifies frame
    ensures pos == at + 8 && frame[..pos] == old(frame[..at]) + Big(len, 8)
  {
    hide ByteOf, Big;
    pos := at;
    ghost var head := frame[..at];
    for i := 0 to 8
      invariant pos == at + i
      invariant frame[..pos] == head + Big(len, 8)[..i]
    {
      BigAt(len, 8, i);
      pos := PutByte(frame, pos, ByteOf(Shifted(len, 7 - i)));
    }
    assert Big(len, 8)[..8] == Big(len, 8);
  }

  lemma TwoBytes(n: nat)
    ensures Big(n, 2) == [ByteOf(n / 256), ByteOf(n)]
  {
    hide ByteOf;
    assert Big(n / 256, 1) == [ByteOf(n / 256)];
  }

  /** The frame that ws_send_text makes, where size_t has `width` bits: exactly as long as it computed. */
  method BuildFrame(msg: Bytes, mask: Mask, ghost width: nat) returns (frame: array<bv8>, total: nat)
    requires ShiftsDefined(|msg|, width)
    ensures fresh(frame) && total == FrameLen(|msg|) <= frame.Length
    ensures frame[..total] == Frame(mask, msg)
  {
    hide ByteOf, Flagged, Masked, LengthField;
    var len := |msg|;
    var frameLen := 6 + len;
    if len > 125 { frameLen := frameLen + 2; }
    if len > 65535 { frameLen := frameLen + 6; }
    frame := new bv8[frameLen + len](_ => 0);
    FrameLength(mask, msg);
    assert |Frame(mask, msg)| == 1 + |LengthField(len)| + 4 + len;
    var pos := PutByte(frame, 0, 0x81);
    pos := PutLength(frame, pos, len, width);
    ghost var head := frame[..pos];
    for i := 0 to 4
      invariant pos == |head| + i && frame[..pos] == head + mask[..i]
    {
      pos := PutByte(frame, pos, mask[i]);
    }
    assert mask[..4] == mask;
    PutMasked(frame, pos, msg, mask);
    total := pos + len;
  }

  method PutMasked(frame: array<bv8>, pos: nat, msg: Bytes, mask: Mask)
    requires pos + |msg| <= frame.Length
    modifies frame
    ensures frame[..pos + |msg|] == old(frame[..pos]) + Masked(mask, msg)
  {
    hide Xor, Masked;
    ghost var head, body := frame[..pos], Masked(mask, msg);
    for i := 0 to |msg|
      invariant frame[..pos + i] == head + body[..i]
    {
      MaskedAt(mask, msg, i);
      var next := PutByte(frame, pos + i, Xor(msg[i], mask[i % 4]));
      assert body[..i + 1] == body[..i] + [body[i]];
    }
    assert body[..|msg|] == body;
  }

  // ----- handing the frame to the connection

  /** What a connection answers when it is offered bytes again and again: how many it took, never more than it was
      offered, or a negative number. */
  predicate Plausible(answers: seq<int>, left: nat) {
    answers == [] || left == 0 || (answers[0] <= left && (answers[0] >= 0 ==> Plausible(answers[1..], left - answers[0])))
  }

  datatype Sending = Sent | Failed | Waiting

  /** How many bytes have gone out after these answers, and how the loop stands. */
  function Progress(answers: seq<int>, left: nat): (r: (nat, Sending))
    requires Plausible(answers, left)
    ensures r.0 <= left && (r.1.Sent? <==> r.0 == left)
  {
    if left == 0 then (0, Sent)
    else if answers == [] then (0, Waiting)
    else if answers[0] < 0 then (0, Failed)
    else
      var (n, end) := Progress(answers[1..], left - answers[0]);
      (answers[0] + n, end)
  }

  /** The write loop of ws_send_text, for as many calls as there are answers; wire is what the connection took. */
  method SendAll(frame: array<bv8>, total: nat, answers: seq<int>) returns (end: Sending, wire: Bytes)
    requires total <= frame.Length && Plausible(answers, total)
    ensures end == Progress(answers, total).1 && wire == frame[..Progress(answers, total).0]
  {
    wire := [];
    var written, i := 0, 0;
    while written < total && i < |answers|
      invariant written <= total && i <= |answers| && wire == frame[..written]
      invariant Plausible(answers[i..], total - written)
      invariant Progress(answers, total)
             == (written + Progress(answers[i..], total - written).0, Progress(answers[i..], total - written).1)
    {
      var w := answers[i];
      assert answers[i..][1..] == answers[i + 1..];
      if w < 0 { return Failed, wire; }
      wire := wire + frame[written..written + w];
      written := written + w;
      i := i + 1;
    }
    end := if written == total then Sent else Waiting;
  }

  /** What has arrived at the other end parses to the message exactly when the loop has come to its end. */
  lemma SentIff(mask: Mask, msg: Bytes, answers: seq<int>)
    requires |msg| < TWO64 && Plausible(answers, |Frame(mask, msg)|)
    ensures var (n, end) := Progress(answers, |Frame(mask, msg)|);
            Parse(Frame(mask, msg)[..n]) == if end.Sent? then Some(msg) else None
  {
    hide Frame, Parse;
    var frame := Frame(mask, msg);
    var (n, end) := Progress(answers, |frame|);
    if end.Sent? {
      ParseFrame(mask, msg, []);
      assert frame[..n] == frame + [];
    } else {
      ParsePart(mask, msg, n);
    }
  }

  // ----- parsing

  /** parse_ws_text_frame: the text with its terminating zero, or null. */
  method ParseWsTextFrame(buf: Bytes) returns (text: array?<bv8>)
    requires |buf| < 0x8000_0000 && !Wraps(buf)
    ensures text == null <==> Parse(buf) == None
    ensures text != null ==> fresh(text) && text[..] == Parse(buf).value + [0]
  {
    hide Low, Flag, Num, Value, Extension, Declared, Masked, Parse;
    var ok, masked, payloadLen, offset := ParseLength(buf);
    ParseIs(buf);
    TestIff(buf);
    if !ok { return null; }
    if masked { offset := offset + 4; }
    if (offset + payloadLen) % TWO64 > |buf| { return null; }
    text := new bv8[payloadLen + 1](_ => 0);
    CopyBody(buf, offset, payloadLen, masked, text);
    text[payloadLen] := 0;
    assert text[..] == text[..payloadLen] + [0];
  }

  lemma ParseIs(buf: Bytes)
    ensures Parse(buf).Some? <==> Complete(buf)
    ensures Parse(buf).Some? ==> Parse(buf).value == Body(buf, Start(buf), Declared(buf), Flag(buf[1]))
  {
    hide Flag, Declared, Extension, Masked;
  }

  /** A stretch of the buffer, with the mask in front of it taken off where there is one. */
  function Body(buf: Bytes, p: nat, n: nat, masked: bool): Bytes
    requires p + n <= |buf| && (masked ==> p >= 4)
  {
    if masked then Masked(buf[p - 4..p], buf[p..p + n]) else buf[p..p + n]
  }

  /** The first two bytes and what they ask for: the mask flag, the length, and where it ends. */
  method ParseLength(buf: Bytes) returns (ok: bool, masked: bool, payloadLen: nat, offset: nat)
    ensures ok <==> HasLength(buf)
    ensures ok ==> masked == Flag(buf[1]) && payloadLen == Declared(buf) && offset == 2 + Extension(buf)
  {
    hide Low, Flag, Num, Value;
    ok, masked, payloadLen, offset := false, false, 0, 2;
    if |buf| < 2 { return; }
    masked := Flag(buf[1]);
    payloadLen := Num(Low(buf[1]));
    MarkNum(buf[1]);
    if payloadLen == 126 {
      if |buf| < 4 { return; }
      payloadLen := Num(buf[2]) * 256 + Num(buf[3]);
      ValueTwo(buf[2..4]);
      offset := 4;
    } else if payloadLen == 127 {
      if |buf| < 10 { return; }
      payloadLen := EightBytes(buf);
      offset := 10;
    }
    ok := true;
  }

  lemma MarkNum(b: bv8)
    ensures Num(Low(b)) == 126 <==> Low(b) == 126
    ensures Num(Low(b)) == 127 <==> Low(b) == 127
  {
    hide Low;
    NumInjective(Low(b));
  }

  lemma NumInjective(b: bv8)
    ensures Num(b) == 126 <==> b == 126
    ensures Num(b) == 127 <==> b == 127
  {
  }

  lemma ValueTwo(s: Bytes)
    requires |s| == 2
    ensures Value(s) == Num(s[0]) * 256 + Num(s[1])
  {
    hide Num;
    assert Value(s[..1]) == Value([]) * 256 + Num(s[0]) by { assert s[..1][..0] == []; }
  }

  method EightBytes(buf: Bytes) returns (n: nat)
    requires |buf| >= 10
    ensures n == Value(buf[2..10])
  {
    hide Num;
    n := 0;
    for i := 0 to 8
      invariant n == Value(buf[2..2 + i])
    {
      assert buf[2..2 + i + 1][..i] == buf[2..2 + i];
      n := n * 256 + Num(buf[2 + i]);
    }
  }

  method CopyBody(buf: Bytes, offset: nat, n: nat, masked: bool, text: array<bv8>)
    requires offset + n <= |buf| && n < text.Length && (masked ==> offset >= 4)
    modifies text
    ensures text[..n] == Body(buf, offset, n, masked)
  {
    hide Xor, Masked;
    ghost var body := buf[offset..offset + n];
    if masked {
      var mask: Mask := [buf[offset - 4], buf[offset - 3], buf[offset - 2], buf[offset - 1]];
      assert mask == buf[offset - 4..offset];
      ghost var plain := Masked(mask, body);
      for i := 0 to n
        invariant text[..i] == plain[..i]
      {
        MaskedAt(mask, body, i);
        text[i] := Xor(buf[offset + i], mask[i % 4]);
        assert text[..i + 1] == text[..i] + [plain[i]];
      }
      assert plain[..n] == plain;
    } else {
      for i := 0 to n
        invariant text[..i] == body[..i]
      {
        text[i] := buf[offset + i];
        assert text[..i + 1] == text[..i] + [body[i]];
      }
      assert body[..n] == body;
    }
  }

  lemma MaskedAt(mask: Mask, s: Bytes, i: nat)
    requires i < |s|
    ensures Masked(mask, s)[i] == Xor(s[i], mask[i % 4])
  {
    hide Xor;
  }
}
