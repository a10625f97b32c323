/** The bit bucket of the QR encoder: a byte array used either as a growing bit string or as
    a square grid of modules.  Everything above this module sees only `Bits()`. */
module BitBuckets {
  import opened BitStrings

  /** 1 << (7 - k): the mask for bit k, the most significant one first. */
  function MaskBit(k: nat): bv8
    requires k < 8
  {
    if k == 0 then 0x80 else if k == 1 then 0x40 else if k == 2 then 0x20 else if k == 3 then 0x10
    else if k == 4 then 0x08 else if k == 5 then 0x04 else if k == 6 then 0x02 else 0x01
  }

  predicate Bit(b: bv8, k: nat)
    requires k < 8
  {
    b & MaskBit(k) != 0
  }

  function SetMask(b: bv8, k: nat): bv8
    requires k < 8
  {
    b | MaskBit(k)
  }

  function ClearMask(b: bv8, k: nat): bv8
    requires k < 8
  {
    b & !MaskBit(k)
  }

  lemma BitSet(b: bv8, k: nat, j: nat)
    requires k < 8 && j < 8
    ensures Bit(SetMask(b, k), j) == (j == k || Bit(b, j))
  {
  }

  lemma BitCleared(b: bv8, k: nat, j: nat)
    requires k < 8 && j < 8
    ensures Bit(ClearMask(b, k), j) == (j != k && Bit(b, j))
  {
  }

  /** The bits are numbered from the most significant one. */
  lemma BitPlace(k: nat, j: nat)
    requires k < 8 && j < 8
    ensures var places: seq<bv8> := [0x80, 0x40, 0x20, 0x10, 0x08, 0x04, 0x02, 0x01]; Bit(places[k], j) == (j == k)
  {
  }

  lemma NoBits(j: nat)
    requires j < 8
    ensures !Bit(0, j)
  {
  }

  /** A byte is determined by its bits. */
  lemma SameBits(a: bv8, b: bv8)
    requires forall j :: 0 <= j < 8 ==> Bit(a, j) == Bit(b, j)
    ensures a == b
  {
    assert Bit(a, 0) == Bit(b, 0) && Bit(a, 1) == Bit(b, 1) && Bit(a, 2) == Bit(b, 2) && Bit(a, 3) == Bit(b, 3);
    assert Bit(a, 4) == Bit(b, 4) && Bit(a, 5) == Bit(b, 5) && Bit(a, 6) == Bit(b, 6) && Bit(a, 7) == Bit(b, 7);
  }

  /** The bits of a byte string, in order. */
  function BitsOf(bytes: seq<bv8>): (bits: seq<bool>)
    ensures |bits| == 8 * |bytes|
    ensures forall i :: 0 <= i < |bits| ==> bits[i] == Bit(bytes[i / 8], i % 8)
  {
    seq(8 * |bytes|, i requires 0 <= i < 8 * |bytes| => Bit(bytes[i / 8], i % 8))
  }

  lemma BitsOfSet(bytes: seq<bv8>, i: nat)
    requires i < 8 * |bytes|
    ensures BitsOf(bytes[i / 8 := SetMask(bytes[i / 8], i % 8)]) == BitsOf(bytes)[i := true]
    ensures BitsOf(bytes[i / 8 := ClearMask(bytes[i / 8], i % 8)]) == BitsOf(bytes)[i := false]
  {
    hide Bit, SetMask, ClearMask;
    forall j | 0 <= j < 8
      ensures Bit(SetMask(bytes[i / 8], i % 8), j) == (j == i % 8 || Bit(bytes[i / 8], j))
      ensures Bit(ClearMask(bytes[i / 8], i % 8), j) == (j != i % 8 && Bit(bytes[i / 8], j))
    {
      BitSet(bytes[i / 8], i % 8, j);
      BitCleared(bytes[i / 8], i % 8, j);
    }
    assert forall j :: 0 <= j < 8 * |bytes| && j != i ==> j / 8 != i / 8 || j % 8 != i % 8;
  }

  class BitBucket {
    var bitOffsetOrWidth: nat
    const data: array<bv8>

    ghost function Bits(): (bits: seq<bool>)
      reads data
      ensures |bits| == 8 * data.Length
    {
      BitsOf(data[..])
    }

    /** The bits appended so far. */
    ghost function Written(): (bits: seq<bool>)
      requires bitOffsetOrWidth <= 8 * data.Length
      reads this, data
    {
      Bits()[..bitOffsetOrWidth]
    }

    /** Nothing is set behind them. */
    ghost predicate Blank()
      reads this, data
    {
      forall k :: bitOffsetOrWidth <= k < |Bits()| ==> !Bits()[k]
    }

    /** Both initialisers hand over a zeroed buffer. */
    constructor (width: nat, capacityBytes: nat)
      ensures bitOffsetOrWidth == width && data.Length == capacityBytes && fresh(data)
      ensures forall i :: 0 <= i < |Bits()| ==> !Bits()[i]
    {
      bitOffsetOrWidth := width;
      data := new bv8[capacityBytes](_ => 0);
      new;
      forall j | 0 <= j < 8
        ensures !Bit(0, j)
      {
        NoBits(j);
      }
    }

    /** The cell (x, y) of a grid is this bit. */
    function Offset(x: nat, y: nat): nat
      reads this
    {
      y * bitOffsetOrWidth + x
    }

    method Put(offset: nat, on: bool)
      requires offset < 8 * data.Length
      modifies data
      ensures Bits() == old(Bits())[offset := on]
    {
      BitsOfSet(data[..], offset);
      hide SetMask, ClearMask, Bit;
      ghost var before := data[..];
      if on {
        data[offset / 8] := SetMask(data[offset / 8], offset % 8);
        assert data[..] == before[offset / 8 := SetMask(before[offset / 8], offset % 8)];
      } else {
        data[offset / 8] := ClearMask(data[offset / 8], offset % 8);
        assert data[..] == before[offset / 8 := ClearMask(before[offset / 8], offset % 8)];
      }
    }

    /** bb_appendBits: the bits of val are or-ed in behind the ones written so far. */
    method AppendBits(val: nat, length: nat)
      requires bitOffsetOrWidth + length <= 8 * data.Length
      modifies this`bitOffsetOrWidth, data
      ensures bitOffsetOrWidth == old(bitOffsetOrWidth) + length
      ensures forall k :: 0 <= k < |Bits()| ==>
                Bits()[k] == (old(Bits()[k]) || (old(bitOffsetOrWidth) <= k < bitOffsetOrWidth
                                                 && ToBits(val, length)[k - old(bitOffsetOrWidth)]))
      ensures old(Blank()) ==> Blank() && Written() == old(Written()) + ToBits(val, length)
    {
      hide Bit, SetMask, ClearMask, BitsOf, ToBits, ValBit;
      var offset := bitOffsetOrWidth;
      ghost var start := offset;
      var i := length - 1;
      while i >= 0
        invariant -1 <= i < length && offset == start + (length - 1 - i)
        invariant forall k :: 0 <= k < |Bits()| ==>
          Bits()[k] == (old(Bits()[k]) || (start <= k < offset && ToBits(val, length)[k - start]))
      {
        ToBitsAt(val, length, length - 1 - i);
        if ValBit(val, i) {
          BitsOfSet(data[..], offset);
          ghost var before := data[..];
          data[offset / 8] := SetMask(data[offset / 8], offset % 8);
          assert data[..] == before[offset / 8 := SetMask(before[offset / 8], offset % 8)];
        }
        i := i - 1;
        offset := offset + 1;
      }
      bitOffsetOrWidth := offset;
    }

    /** bb_setBit */
    method SetBit(x: nat, y: nat, on: bool)
      requires Offset(x, y) < 8 * data.Length
      modifies data
      ensures Bits() == old(Bits())[Offset(x, y) := on]
    {
      Put(y * bitOffsetOrWidth + x, on);
    }

    /** bb_getBit */
    method GetBit(x: nat, y: nat) returns (on: bool)
      requires Offset(x, y) < 8 * data.Length
      ensures on == Bits()[Offset(x, y)]
    {
      var offset := y * bitOffsetOrWidth + x;
      on := Bit(data[offset / 8], offset % 8);
    }

    /** bb_invertBit: flips the bit exactly when asked to. */
    method InvertBit(x: nat, y: nat, invert: bool)
      requires Offset(x, y) < 8 * data.Length
      modifies data
      ensures Bits() == old(Bits())[Offset(x, y) := old(Bits()[Offset(x, y)]) != invert]
    {
      var offset := y * bitOffsetOrWidth + x;
      var on := Bit(data[offset / 8], offset % 8);
      Put(offset, on != invert);
    }
  }
}
