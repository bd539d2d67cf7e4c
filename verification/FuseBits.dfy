/** The bit patterns of fuse words: a value under a mask, padding outside it. */
module FuseBits {

  const FUSE_PADDING: bv32 := 0x55555555
  const FUSE_IGNORE: bv32 := 0xa3badaac

  /** The low `width` bits of a word, all of them from width 32 on. */
  function Mask(width: bv32): bv32
    requires width < 64
  {
    if width >= 32 then 0xffff_ffff else (1 << width) - 1
  }

  /** (1ul << width) - 1 cut to 32 bits. */
  function ShiftedMask(width: bv32): bv32
    requires width < 64
  {
    ((((1 as bv64) << (width as bv64)) - 1) & 0xffff_ffff) as bv32
  }

  function Under(w: bv32, mask: bv32): bv32 {
    w & mask
  }

  function Outside(w: bv32, mask: bv32): bv32 {
    w & !mask
  }

  predicate Fits(mask: bv32, value: bv32) {
    Under(value, mask) == value
  }

  /** A word holds a value under a mask, and padding everywhere else. */
  predicate Holds(w: bv32, mask: bv32, value: bv32) {
    Under(w, mask) == value && Outside(w, mask) == Outside(FUSE_PADDING, mask)
  }

  lemma ShiftGivesMask(width: bv32)
    requires width < 64
    ensures ShiftedMask(width) == Mask(width)
  {
  }

  /** value < 2^width; every word is, from width 32 on. */
  predicate BelowPower(value: bv32, width: bv32) {
    width >= 32 || value < 1 << width
  }

  /** A value fits a narrow mask exactly when it is less than 2^width. */
  lemma FitsIffBelow(width: bv32, value: bv32)
    requires width < 64
    ensures Fits(Mask(width), value) <==> BelowPower(value, width)
  {
    if width >= 32 {
      FitsFullMask(value);
    }
  }

  lemma FitsFullMask(value: bv32)
    ensures Fits(0xffff_ffff, value)
  {
  }

  /** A value over the padding outside the mask. */
  function Padded(mask: bv32, value: bv32): bv32 {
    Outside(FUSE_PADDING, mask) | value
  }

  /** The word compiled for a value of a fuse. */
  function Compiled(width: bv32, value: bv32): bv32
    requires width < 64
  {
    Padded(Mask(width), value)
  }

  lemma NarrowMask(width: bv32)
    requires width < 32
    ensures Mask(width) & 0x8000_0000 == 0
  {
  }

  lemma WideMask(width: bv32)
    requires 32 <= width < 64
    ensures Mask(width) == 0xffff_ffff
  {
  }

  lemma TopBitOfPadding(mask: bv32, value: bv32)
    requires mask & 0x8000_0000 == 0 && Fits(mask, value)
    ensures Padded(mask, value) != FUSE_IGNORE
  {
  }

  lemma PaddedUnder(mask: bv32, value: bv32)
    requires Fits(mask, value)
    ensures Under(Padded(mask, value), mask) == value
  {
  }

  lemma PaddedOutside(mask: bv32, value: bv32)
    requires Fits(mask, value)
    ensures Outside(Padded(mask, value), mask) == Outside(FUSE_PADDING, mask)
  {
  }

  lemma FullWidth(mask: bv32, value: bv32)
    requires mask == 0xffff_ffff
    ensures Padded(mask, value) == value
  {
  }

  /** A compiled word looks like an ignored fuse only if the fuse is a full word
      wide and its value is the ignore pattern itself. */
  lemma CompiledIsIgnoreIff(width: bv32, value: bv32)
    requires width < 64 && Fits(Mask(width), value)
    ensures Compiled(width, value) == FUSE_IGNORE <==> width >= 32 && value == FUSE_IGNORE
  {
    var mask := Mask(width);
    if width < 32 {
      NarrowMask(width);
      TopBitOfPadding(mask, value);
    } else {
      WideMask(width);
      FullWidth(mask, value);
    }
  }

  /** A compiled word gives back the value under the mask, and holds padding
      everywhere else. */
  lemma CompiledHoldsValue(width: bv32, value: bv32)
    requires width < 64 && Fits(Mask(width), value)
    ensures Holds(Compiled(width, value), Mask(width), value)
  {
    PaddedUnder(Mask(width), value);
    PaddedOutside(Mask(width), value);
  }
}
