/** Choosing the mask (clause 7.8.3 of ISO/IEC 18004:2015): every mask is applied, scored and
    taken off again, and the best one is applied for good. */
module QrMaskChoice {
  import opened BitBuckets
  import opened QrZigzag
  import opened QrMask
  import opened QrPenalty

  /** The finished symbol for one mask: format bits that name the mask, then the mask itself. */
  function Symbol(size: int, drawn: seq<bool>, isFunction: seq<bool>, ecc: bv32, mask: nat): (s: seq<bool>)
    requires Grid(size, drawn) && Grid(size, isFunction) && mask < 8
    ensures |s| == |drawn|
  {
    Masked(size, WithFormat(size, drawn, FormatWord(ecc, mask as bv32)), isFunction, mask)
  }

  /** All format modules are marked as function modules. */
  predicate FormatReserved(size: int, isFunction: seq<bool>) {
    size > 0 && FormatMarked(size, isFunction, 31) == isFunction
  }

  /** Drawing the format bits reserves their modules, and marking more function modules keeps them reserved. */
  lemma FormatBitsReserve(size: int, isFunction: seq<bool>, more: seq<bool>)
    requires size > 0 && |more| == |isFunction|
    requires forall p :: 0 <= p < |more| && FormatMarked(size, isFunction, 31)[p] ==> more[p]
    ensures FormatReserved(size, more)
  {
    hide FormatAt;
    assert forall p :: 0 <= p < |more| ==> FormatMarked(size, more, 31)[p] == more[p];
  }

  /** New format bits overwrite the old ones completely. */
  lemma FormatOverwrites(size: int, modules: seq<bool>, drawn: bv32, next: bv32)
    requires size > 0
    ensures WithFormat(size, WithFormat(size, modules, drawn), next) == WithFormat(size, modules, next)
  {
    hide WordBit, FormatAt;
  }

  /** Taking the mask off again leaves the codewords and the format bits of that mask. */
  lemma UndoSymbol(size: int, drawn: seq<bool>, isFunction: seq<bool>, ecc: bv32, mask: nat)
    requires Grid(size, drawn) && Grid(size, isFunction) && mask < 8
    ensures Masked(size, Symbol(size, drawn, isFunction, ecc, mask), isFunction, mask)
         == WithFormat(size, drawn, FormatWord(ecc, mask as bv32))
  {
    hide FormatWord, WithFormat, Masked;
    MaskInvolution(size, WithFormat(size, drawn, FormatWord(ecc, mask as bv32)), isFunction, mask);
  }

  function Score(size: int, drawn: seq<bool>, isFunction: seq<bool>, ecc: bv32, mask: nat): nat
    requires Grid(size, drawn) && Grid(size, isFunction) && mask < 8
  {
    Penalty(size, Symbol(size, drawn, isFunction, ecc, mask))
  }

  /** Among the first n masks this one has the least penalty, and is the first that has it. */
  predicate Best(size: int, drawn: seq<bool>, isFunction: seq<bool>, ecc: bv32, mask: nat, n: nat)
    requires Grid(size, drawn) && Grid(size, isFunction) && mask < 8 && n <= 8
  {
    forall m: nat :: m < n ==>
      if m < mask then Score(size, drawn, isFunction, ecc, mask) < Score(size, drawn, isFunction, ecc, m)
      else Score(size, drawn, isFunction, ecc, mask) <= Score(size, drawn, isFunction, ecc, m)
  }

  /** Draw the format bits and apply the mask. */
  method ApplyCandidate(modules: BitBucket, isFunction: BitBucket, ecc: bv32, i: nat, ghost drawn: seq<bool>, ghost last: bv32)
    requires isFunction.bitOffsetOrWidth == modules.bitOffsetOrWidth >= 21 && modules.data != isFunction.data
    requires Grid(modules.bitOffsetOrWidth, drawn) && Grid(modules.bitOffsetOrWidth, isFunction.Bits())
    requires FormatReserved(modules.bitOffsetOrWidth, isFunction.Bits()) && i < 8
    requires modules.Bits() == drawn || modules.Bits() == WithFormat(modules.bitOffsetOrWidth, drawn, last)
    modifies modules.data, isFunction.data
    ensures isFunction.Bits() == old(isFunction.Bits())
    ensures modules.Bits() == Symbol(modules.bitOffsetOrWidth, drawn, isFunction.Bits(), ecc, i)
  {
    hide FormatWord, Masked, WithFormat, FormatMarked;
    var size := modules.bitOffsetOrWidth;
    FormatOverwrites(size, drawn, last, FormatWord(ecc, i as bv32));
    DrawFormatBits(modules, isFunction, ecc, i as bv32);
    ApplyMask(modules, isFunction, i);
  }

  /** The loop body: apply, score and undo one mask. */
  method TryMask(modules: BitBucket, isFunction: BitBucket, ecc: bv32, i: nat, ghost drawn: seq<bool>, ghost last: bv32)
    returns (penalty: nat)
    requires isFunction.bitOffsetOrWidth == modules.bitOffsetOrWidth && modules.data != isFunction.data
    requires 21 <= modules.bitOffsetOrWidth <= 177
    requires Grid(modules.bitOffsetOrWidth, drawn) && Grid(modules.bitOffsetOrWidth, isFunction.Bits())
    requires FormatReserved(modules.bitOffsetOrWidth, isFunction.Bits()) && i < 8
    requires modules.Bits() == drawn || modules.Bits() == WithFormat(modules.bitOffsetOrWidth, drawn, last)
    modifies modules.data, isFunction.data
    ensures isFunction.Bits() == old(isFunction.Bits())
    ensures modules.Bits() == WithFormat(modules.bitOffsetOrWidth, drawn, FormatWord(ecc, i as bv32))
    ensures penalty == Score(modules.bitOffsetOrWidth, drawn, isFunction.Bits(), ecc, i) < 0x7FFF_FFFF
  {
    hide Symbol, Masked, WithFormat, FormatWord, Penalty, FormatReserved;
    var size := modules.bitOffsetOrWidth;
    ApplyCandidate(modules, isFunction, ecc, i, drawn, last);
    penalty := GetPenaltyScore(modules);
    PenaltyBound(size, modules.Bits());
    UndoSymbol(size, drawn, isFunction.Bits(), ecc, i);
    ApplyMask(modules, isFunction, i);
  }

  /** The last part of qrcode_initBytes. */
  method ChooseMask(modules: BitBucket, isFunction: BitBucket, ecc: bv32) returns (mask: nat)
    requires isFunction.bitOffsetOrWidth == modules.bitOffsetOrWidth && modules.data != isFunction.data
    requires 21 <= modules.bitOffsetOrWidth <= 177
    requires Grid(modules.bitOffsetOrWidth, modules.Bits()) && Grid(modules.bitOffsetOrWidth, isFunction.Bits())
    requires FormatReserved(modules.bitOffsetOrWidth, isFunction.Bits())
    modifies modules.data, isFunction.data
    ensures mask < 8 && isFunction.Bits() == old(isFunction.Bits())
    ensures modules.Bits() == Symbol(modules.bitOffsetOrWidth, old(modules.Bits()), isFunction.Bits(), ecc, mask)
    ensures Best(modules.bitOffsetOrWidth, old(modules.Bits()), isFunction.Bits(), ecc, mask, 8)
  {
    hide Symbol, Score, WithFormat, FormatWord, FormatReserved, Grid;
    var size := modules.bitOffsetOrWidth;
    ghost var drawn, fn, last := modules.Bits(), isFunction.Bits(), 0 as bv32;
    mask := 0;
    var minPenalty := 0x7FFF_FFFF;
    for i := 0 to 8
      invariant mask < 8 && (i == 0 || mask < i) && isFunction.Bits() == fn
      invariant modules.Bits() == drawn || modules.Bits() == WithFormat(size, drawn, last)
      invariant minPenalty == if i == 0 then 0x7FFF_FFFF else Score(size, drawn, fn, ecc, mask)
      invariant Best(size, drawn, fn, ecc, mask, i)
    {
      var penalty := TryMask(modules, isFunction, ecc, i, drawn, last);
      if penalty < minPenalty {
        mask := i;
        minPenalty := penalty;
      }
      last := FormatWord(ecc, i as bv32);
    }
    ApplyCandidate(modules, isFunction, ecc, mask, drawn, last);
  }
}
