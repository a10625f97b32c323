/** The routines of the E-Hash relay on the buffers and structs they are given, and the chain of
    relays that unpack, forward and repack a packet. */
module EHashRelay {
  import opened EHashPacket

  // ----- ehash_packet_calc_crc

  method CalcCrc(buf: array?<bv8>, len: nat) returns (crc: bv16)
    requires buf != null ==> len <= buf.Length
    ensures crc == if buf == null then 0xFFFF else Crc(buf[..len])
  {
    hide ShiftCrc, LoadByte;
    crc := 0xFFFF;
    if buf == null || len == 0 {
      return;
    }
    for i := 0 to len
      invariant crc == Crc(buf[..i])
    {
      crc := LoadByte(crc, buf[i]);
      ghost var loaded := crc;
      for b := 0 to 8
        invariant crc == ShiftCrcN(loaded, b)
      {
        crc := ShiftCrc(crc);
      }
      assert buf[..i + 1][..i] == buf[..i];
    }
  }

  // ----- ehash_packet_pack

  /** put_u16_be at an offset of the buffer */
  method PutWord(out: array<bv8>, at: nat, v: bv16)
    requires at + 2 <= out.Length
    modifies out
    ensures out[..] == old(out[..at]) + PutU16(v) + old(out[at + 2..])
  {
    out[at] := (v >> 8) as bv8;
    out[at + 1] := (v & 0xFF) as bv8;
    assert out[at..at + 2] == PutU16(v);
    assert out[..] == out[..at] + out[at..at + 2] + out[at + 2..];
  }

  /** put_u32_be */
  method PutLong(out: array<bv8>, at: nat, v: bv32)
    requires at + 4 <= out.Length
    modifies out
    ensures out[..] == old(out[..at]) + PutU32(v) + old(out[at + 4..])
  {
    out[at] := (v >> 24) as bv8;
    out[at + 1] := ((v >> 16) & 0xFF) as bv8;
    out[at + 2] := ((v >> 8) & 0xFF) as bv8;
    out[at + 3] := (v & 0xFF) as bv8;
    assert out[at..at + 4] == PutU32(v);
    assert out[..] == out[..at] + out[at..at + 4] + out[at + 4..];
  }

  method PutHeader(out: array<bv8>, p: Packet)
    requires HEADER_SIZE <= out.Length
    modifies out
    ensures out[..HEADER_SIZE] == Header(p) && out[HEADER_SIZE..] == old(out[HEADER_SIZE..])
  {
    PutSizes(p.senderId, p.payloadLen);
    hide PutU16, PutU32;
    ghost var tail := out[HEADER_SIZE..];
    out[0] := p.msgType;
    out[1] := p.hopCount;
    out[2] := p.maxHops;
    ghost var s := out[..];
    PutLong(out, 3, p.senderId);
    assert out[..] == s[..3] + PutU32(p.senderId) + s[7..];
    PutWord(out, 7, p.payloadLen);
    assert out[..] == s[..3] + PutU32(p.senderId) + PutU16(p.payloadLen) + tail;
    assert s[..3] == [p.msgType, p.hopCount, p.maxHops];
  }

  /** memcpy of the payload behind the header; the payload pointer is an array and an offset */
  method PutPayload(out: array<bv8>, payload: array<bv8>, from: nat, n: nat)
    requires from + n <= payload.Length && HEADER_SIZE + n <= out.Length && payload != out
    modifies out
    ensures out[..HEADER_SIZE] == old(out[..HEADER_SIZE])
    ensures out[HEADER_SIZE..HEADER_SIZE + n] == payload[from..from + n]
    ensures out[HEADER_SIZE + n..] == old(out[HEADER_SIZE + n..])
  {
    ghost var was := out[..];
    for i := 0 to n
      invariant forall j :: HEADER_SIZE <= j < HEADER_SIZE + i ==> out[j] == payload[from + (j - HEADER_SIZE)]
      invariant forall j :: 0 <= j < out.Length && !(HEADER_SIZE <= j < HEADER_SIZE + i) ==> out[j] == was[j]
    {
      out[HEADER_SIZE + i] := payload[from + i];
    }
    PayloadPlaced(was, out[..], payload[..], HEADER_SIZE, from, n);
  }

  /** A stretch of one sequence replaced by a stretch of another, told by its three parts. */
  lemma PayloadPlaced<T>(was: seq<T>, now: seq<T>, payload: seq<T>, at: nat, from: nat, n: nat)
    requires |was| == |now| && at + n <= |was| && from + n <= |payload|
    requires forall i :: at <= i < at + n ==> now[i] == payload[from + (i - at)]
    requires forall i :: 0 <= i < |was| && !(at <= i < at + n) ==> now[i] == was[i]
    ensures now[..at] == was[..at] && now[at..at + n] == payload[from..from + n] && now[at + n..] == was[at + n..]
  {
  }

  /** The checksum over header and payload, written behind them. */
  method PutCrc(out: array<bv8>, n: nat, ghost p: Packet)
    requires n + CRC_SIZE <= out.Length && out[..n] == Header(p) + p.payload
    modifies out
    ensures out[..n + CRC_SIZE] == Wire(p) && out[n + CRC_SIZE..] == old(out[n + CRC_SIZE..])
  {
    WireParts(p);
    hide Crc, Header, PutU16;
    var crc := CalcCrc(out, n);
    PutWord(out, n, crc);
  }

  method Pack(msgType: bv8, hopCount: bv8, maxHops: bv8, senderId: bv32, payload: array?<bv8>, from: nat, payloadLen: bv16,
              out: array?<bv8>, bufSize: nat) returns (r: int)
    requires out != null ==> bufSize <= out.Length
    requires payload != null ==> from + Size(payloadLen) <= payload.Length && payload != out
    modifies if out == null then {} else {out}
    ensures r == if out == null || (payloadLen > 0 && payload == null) then InvalidArg.Code()
                 else if !IsValidType(msgType) then BadMsgType.Code()
                 else if bufSize < HEADER_SIZE + Size(payloadLen) + CRC_SIZE then BufferTooSmall.Code()
                 else HEADER_SIZE + Size(payloadLen) + CRC_SIZE
    ensures r > 0 ==> out[r..] == old(out[r..])
    ensures r > 0 ==> out[..r] == Wire(Packet(msgType, hopCount, maxHops, senderId, payloadLen,
                                              PayloadBytes(payload, from, Size(payloadLen))))
    ensures r < 0 && out != null ==> out[..] == old(out[..])
  {
    if out == null {
      return InvalidArg.Code();
    }
    if payloadLen > 0 && payload == null {
      return InvalidArg.Code();
    }
    if !IsValidType(msgType) {
      return BadMsgType.Code();
    }
    var needed := HEADER_SIZE + Size(payloadLen) + CRC_SIZE;
    if bufSize < needed {
      return BufferTooSmall.Code();
    }
    EmptyPayload(payloadLen);
    PackInto(Packet(msgType, hopCount, maxHops, senderId, payloadLen, []), payload, from, out);
    r := needed;
  }

  ghost function PayloadBytes(payload: array?<bv8>, from: nat, n: nat): Bytes
    requires payload != null ==> from + n <= payload.Length
    reads payload
  {
    if payload == null then [] else payload[from..from + n]
  }

  lemma Join<T>(a: seq<T>, h: nat, n: nat)
    requires h <= n <= |a|
    ensures a[..n] == a[..h] + a[h..n]
  {
  }

  /** The writing part of ehash_packet_pack, once the arguments are accepted. */
  method PackInto(h: Packet, payload: array?<bv8>, from: nat, out: array<bv8>)
    requires payload == null ==> Size(h.payloadLen) == 0
    requires payload != null ==> from + Size(h.payloadLen) <= payload.Length && payload != out
    requires HEADER_SIZE + Size(h.payloadLen) + CRC_SIZE <= out.Length
    modifies out
    ensures var n := Size(h.payloadLen);
            && out[..HEADER_SIZE + n + CRC_SIZE] == Wire(h.(payload := PayloadBytes(payload, from, n)))
            && out[HEADER_SIZE + n + CRC_SIZE..] == old(out[HEADER_SIZE + n + CRC_SIZE..])
  {
    hide Wire, Crc, Size;
    var n := Size(h.payloadLen);
    ghost var p := h.(payload := PayloadBytes(payload, from, n));
    SameHeader(h, p);
    PutHeader(out, h);
    hide Header;
    ghost var rest := out[HEADER_SIZE + n..];
    if n > 0 {
      PutPayload(out, payload, from, n);
    }
    assert out[HEADER_SIZE..HEADER_SIZE + n] == p.payload;
    Join(out[..], HEADER_SIZE, HEADER_SIZE + n);
    PutCrc(out, HEADER_SIZE + n, p);
  }

  lemma SameHeader(a: Packet, b: Packet)
    requires a.(payload := b.payload) == b
    ensures Header(a) == Header(b)
  {
  }

  // ----- ehash_packet_unpack

  /** The struct that ehash_packet_unpack fills.  The payload is not copied: it is the part of
      `buffer` that begins at `offset`. */
  class PacketStruct {
    var msgType: bv8
    var hopCount: bv8
    var maxHops: bv8
    var senderId: bv32
    var payloadLen: bv16
    var buffer: array?<bv8>
    var offset: nat

    ghost predicate Valid()
      reads this
    {
      if buffer == null then Size(payloadLen) == 0 else offset + Size(payloadLen) <= buffer.Length
    }

    ghost function Contents(): Packet
      requires Valid()
      reads this, buffer
    {
      Packet(msgType, hopCount, maxHops, senderId, payloadLen,
             if buffer == null then [] else buffer[offset..offset + Size(payloadLen)])
    }

    constructor ()
      ensures Valid()
    {
      payloadLen := 0;
      buffer := null;
    }
  }

  method ValidateCrc(buf: array?<bv8>, bufLen: nat) returns (ok: bool)
    requires buf != null ==> bufLen <= buf.Length
    ensures ok <==> buf != null && CrcMatches(buf[..bufLen])
  {
    hide Size, Crc, GetU16;
    if buf == null || bufLen < HEADER_SIZE + CRC_SIZE {
      return false;
    }
    Prefix(buf[..], bufLen);
    var payloadLen := GetU16(buf[7], buf[8]);
    var total := HEADER_SIZE + Size(payloadLen) + CRC_SIZE;
    if bufLen < total {
      return false;
    }
    var region := HEADER_SIZE + Size(payloadLen);
    var computed := CalcCrc(buf, region);
    var stored := GetU16(buf[region], buf[region + 1]);
    assert buf[..bufLen][..region] == buf[..region];
    ok := computed == stored;
  }

  method SetFields(packet: PacketStruct, msgType: bv8, hopCount: bv8, maxHops: bv8, senderId: bv32, len: bv16,
                   buf: array<bv8>)
    requires HEADER_SIZE + Size(len) <= buf.Length && IsValidType(msgType)
    modifies packet
    ensures packet.Valid() && (packet.buffer == null || packet.buffer == buf)
    ensures packet.Contents()
         == Packet(msgType, hopCount, maxHops, senderId, len, buf[..][HEADER_SIZE..HEADER_SIZE + Size(len)])
  {
    hide Size, IsValidType;
    packet.msgType := msgType;
    packet.hopCount := hopCount;
    packet.maxHops := maxHops;
    packet.senderId := senderId;
    packet.payloadLen := len;
    packet.buffer := if len > 0 then buf else null;
    packet.offset := HEADER_SIZE;
    EmptyPayload(len);
  }

  lemma SliceOfPrefix<T>(b: seq<T>, m: nat, i: nat, j: nat)
    requires i <= j <= m <= |b|
    ensures b[..m][i..j] == b[i..j]
  {
  }

  lemma LenOfPrefix(b: Bytes, m: nat)
    requires HEADER_SIZE <= m <= |b|
    ensures DeclaredLen(b[..m]) == GetU16(b[7], b[8])
  {
    hide GetU16;
  }

  /** The fields that a complete packet announces; the payload stays where it is. */
  method Extract(buf: array<bv8>, bufLen: nat, packet: PacketStruct)
    requires HEADER_SIZE <= bufLen <= buf.Length && IsValidType(buf[0])
    requires TotalSize(buf[..bufLen]) <= bufLen
    modifies packet
    ensures packet.Valid() && (packet.buffer == null || packet.buffer == buf)
    ensures var b := buf[..bufLen];
            packet.Contents() == Packet(b[0], b[1], b[2], GetU32(b[3], b[4], b[5], b[6]), DeclaredLen(b),
                                        b[HEADER_SIZE..HEADER_SIZE + Size(DeclaredLen(b))])
  {
    hide Size, GetU16, GetU32, IsValidType, DeclaredLen;
    Prefix(buf[..], bufLen);
    LenOfPrefix(buf[..], bufLen);
    var len := GetU16(buf[7], buf[8]);
    SliceOfPrefix(buf[..], bufLen, HEADER_SIZE, HEADER_SIZE + Size(len));
    SetFields(packet, buf[0], buf[1], buf[2], GetU32(buf[3], buf[4], buf[5], buf[6]), len, buf);
  }

  method Unpack(buf: array?<bv8>, bufLen: nat, packet: PacketStruct?) returns (r: int)
    requires buf != null ==> bufLen <= buf.Length
    modifies packet
    ensures r == if buf == null || packet == null then InvalidArg.Code()
                 else match Parse(buf[..bufLen]) case Ok(_) => 0 case Err(e) => e.Code()
    ensures r == 0 ==> packet.Valid() && Ok(packet.Contents()) == Parse(buf[..bufLen])
    ensures r == 0 ==> packet.buffer == null || packet.buffer == buf
    ensures r != 0 && packet != null ==> unchanged(packet)
  {
    hide Size, CrcMatches, GetU16, GetU32, IsValidType;
    if buf == null || packet == null {
      return InvalidArg.Code();
    }
    if bufLen < HEADER_SIZE {
      return InvalidPacket.Code();
    }
    Prefix(buf[..], bufLen);
    var payloadLen := GetU16(buf[7], buf[8]);
    if !IsValidType(buf[0]) {
      return BadMsgType.Code();
    }
    var total := HEADER_SIZE + Size(payloadLen) + CRC_SIZE;
    if bufLen < total {
      return InvalidPacket.Code();
    }
    assert buf[..bufLen][..total] == buf[..total];
    var ok := ValidateCrc(buf, total);
    if !ok {
      return CrcMismatch.Code();
    }
    Extract(buf, bufLen, packet);
    r := 0;
  }

  lemma EmptyPayload(n: bv16)
    ensures n > 0 <==> Size(n) > 0
  {
  }

  // ----- ehash_relay_forward

  /** The struct after one hop.  hop_count is an 8-bit counter: it wraps around after 255. */
  function Hopped(p: Packet, nextHopId: bv32): Packet {
    p.(hopCount := NextHop(p.hopCount), senderId := nextHopId)
  }

  function NextHop(h: bv8): bv8 { h + 1 }

  predicate Exceeds(h: bv8, m: bv8) { h > m }

  predicate Dropped(p: Packet) { Exceeds(p.hopCount, p.maxHops) }

  /** Counts the hop and names the new sender even when the packet is then dropped. */
  method Forward(packet: PacketStruct?, nextHopId: bv32) returns (r: int)
    requires packet != null ==> packet.Valid()
    modifies packet
    ensures packet != null ==> packet.buffer == old(packet.buffer) && packet.offset == old(packet.offset)
    ensures packet == null ==> r == InvalidArg.Code()
    ensures packet != null ==> packet.Valid() && packet.Contents() == Hopped(old(packet.Contents()), nextHopId)
    ensures packet != null ==> r == if Dropped(packet.Contents()) then MaxHops.Code() else 0
  {
    hide NextHop, Exceeds, Size;
    if packet == null {
      return InvalidArg.Code();
    }
    packet.hopCount := NextHop(packet.hopCount);
    packet.senderId := nextHopId;
    if Exceeds(packet.hopCount, packet.maxHops) {
      return MaxHops.Code();
    }
    r := 0;
  }

  // ----- a relay: unpack, forward, repack

  function RelayHop(bytes: Bytes, id: bv32): Result<Bytes> {
    match Parse(bytes)
    case Err(e) => Err(e)
    case Ok(p) => if Dropped(Hopped(p, id)) then Err(MaxHops) else Ok(Wire(Hopped(p, id)))
  }

  /** The three calls a relay makes, buffer to buffer. */
  method Relay(buf: array<bv8>, bufLen: nat, id: bv32, out: array<bv8>) returns (r: int)
    requires bufLen <= buf.Length && buf != out && bufLen <= out.Length
    modifies out
    ensures RelayHop(buf[..bufLen], id).Err? ==>
              r == RelayHop(buf[..bufLen], id).error.Code() && out[..] == old(out[..])
    ensures RelayHop(buf[..bufLen], id).Ok? ==>
              0 < r <= out.Length && out[..r] == RelayHop(buf[..bufLen], id).value && out[r..] == old(out[r..])
  {
    hide Parse, Wire, Dropped, Size, Hopped;
    var packet := new PacketStruct();
    r := Unpack(buf, bufLen, packet);
    if r != 0 {
      return;
    }
    ghost var p := packet.Contents();
    ParseFits(buf[..bufLen]);
    r := Forward(packet, id);
    if r != 0 {
      return;
    }
    HoppedKeeps(p, id);
    r := Repack(packet, out);
  }

  /** The packet that the struct describes, written anew. */
  method Repack(packet: PacketStruct, out: array<bv8>) returns (r: int)
    requires packet.Valid() && packet.buffer != out && IsValidType(packet.msgType)
    requires HEADER_SIZE + Size(packet.payloadLen) + CRC_SIZE <= out.Length
    modifies out
    ensures r == HEADER_SIZE + Size(packet.payloadLen) + CRC_SIZE
    ensures out[..r] == Wire(old(packet.Contents())) && out[r..] == old(out[r..])
  {
    hide Wire, Size;
    EmptyPayload(packet.payloadLen);
    r := Pack(packet.msgType, packet.hopCount, packet.maxHops, packet.senderId, packet.buffer, packet.offset,
              packet.payloadLen, out, out.Length);
  }

  lemma HoppedKeeps(p: Packet, id: bv32)
    ensures Hopped(p, id).msgType == p.msgType && Hopped(p, id).payloadLen == p.payloadLen
  {
  }

  lemma ParseFits(b: Bytes)
    requires Parse(b).Ok?
    ensures IsValidType(Parse(b).value.msgType)
    ensures HEADER_SIZE + Size(Parse(b).value.payloadLen) + CRC_SIZE <= |b|
  {
    ParseShows(b);
  }

  // ----- chains of relays

  /** What arrives after the relays with these identifiers, or why it was lost. */
  function Chain(bytes: Bytes, ids: seq<bv32>): Result<Bytes> {
    if ids == [] then Ok(bytes)
    else
      match Chain(bytes, ids[..|ids| - 1])
      case Err(e) => Err(e)
      case Ok(b) => RelayHop(b, ids[|ids| - 1])
  }

  function HopsAfter(n: nat): bv8 { if n == 0 then 0 else NextHop(HopsAfter(n - 1)) }

  /** The packet after n hops from its origin: only the hop count and the sender change. */
  function After(p: Packet, ids: seq<bv32>): Packet {
    p.(hopCount := HopsAfter(|ids|), senderId := if ids == [] then p.senderId else ids[|ids| - 1])
  }

  function Hops(h: bv8): nat { h as nat }

  lemma NextHopWraps(h: bv8)
    ensures Hops(NextHop(h)) == (Hops(h) + 1) % 256
  {
  }

  lemma ExceedsByHops(h: bv8, m: bv8)
    ensures Exceeds(h, m) <==> Hops(h) > Hops(m)
  {
  }

  lemma HopsRange(h: bv8)
    ensures Hops(h) <= 255 && Hops(0) == 0
  {
  }

  lemma {:induction false} HopsAfterWraps(n: nat)
    ensures Hops(HopsAfter(n)) == n % 256
  {
    hide NextHop, Hops;
    HopsRange(0);
    if n > 0 {
      HopsAfterWraps(n - 1);
      NextHopWraps(HopsAfter(n - 1));
    }
  }

  /** How far a packet travels: exactly max_hops relays forward it, each repacks it unchanged but
      for hop count and sender, and the next one drops it -- unless max_hops is 255, the one
      value that an 8-bit hop count never exceeds. */
  lemma {:induction false} ChainExact(p: Packet, ids: seq<bv32>)
    requires p.Valid() && p.hopCount == 0
    ensures Chain(Wire(p), ids) ==
            if |ids| <= Hops(p.maxHops) || Hops(p.maxHops) == 255 then Ok(Wire(After(p, ids))) else Err(MaxHops)
  {
    hide NextHop, Hops, Exceeds, Wire, Size, IsValidType, RelayHop;
    HopsRange(p.maxHops);
    if ids == [] {
      assert After(p, ids) == p;
    } else {
      var n := |ids| - 1;
      ChainExact(p, ids[..n]);
      if n <= Hops(p.maxHops) || Hops(p.maxHops) == 255 {
        OneHop(p, ids);
        HopsAfterWraps(n + 1);
        ExceedsByHops(HopsAfter(n + 1), p.maxHops);
      }
    }
  }

  /** What the last of these relays does with what the others leave. */
  lemma OneHop(p: Packet, ids: seq<bv32>)
    requires p.Valid() && p.hopCount == 0 && ids != []
    ensures var n := |ids| - 1;
            RelayHop(Wire(After(p, ids[..n])), ids[n]) ==
            if Exceeds(HopsAfter(n + 1), p.maxHops) then Err(MaxHops) else Ok(Wire(After(p, ids)))
  {
    hide NextHop, Exceeds, Wire, Size, IsValidType, Parse;
    var n := |ids| - 1;
    var q := After(p, ids[..n]);
    ParseWhole(q);
    assert Hopped(q, ids[n]) == After(p, ids);
  }

  lemma ParseWhole(p: Packet)
    requires p.Valid()
    ensures Parse(Wire(p)) == Ok(p)
  {
    ParseWire(p, []);
    hide Wire;
    assert Wire(p) + [] == Wire(p);
  }

  /** The wrap-around: with max_hops 255 a packet that has made 256 hops is on the wire again
      with hop count 0. */
  lemma NeverDropped(p: Packet, ids: seq<bv32>)
    requires p.Valid() && p.hopCount == 0 && p.maxHops == 255 && |ids| == 256
    ensures Chain(Wire(p), ids) == Ok(Wire(p.(senderId := ids[255])))
  {
    hide Wire, HopsAfter, Hops, Chain;
    ChainExact(p, ids);
    HopsAfterWraps(256);
    ZeroHops(HopsAfter(256));
    AllHops();
    assert After(p, ids) == p.(senderId := ids[255]);
  }

  lemma AllHops()
    ensures Hops(255) == 255
  {
  }

  lemma ZeroHops(h: bv8)
    requires Hops(h) == 0
    ensures h == 0
  {
  }
}
