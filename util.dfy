/**
 * Index arithmetic of the hierarchy: which word holds an index at each layer,
 * and which bit of that word stands for it. The crate's `util` module is not
 * part of this model; these definitions follow how src/lib.rs uses `offsets`,
 * `offset` and `mask`, with the word width fixed at 64 bits.
 */
module Util {
  import opened Bits

  /** An index (`u32`). */
  type Index = x: nat | x < 0x1_0000_0000

  /** Base-two logarithm of the word width. */
  const BITS: nat := 6

  /** Shift of each layer: an index lives in word `id >> SHIFTk` of layer k-1. */
  const SHIFT0: nat := 0
  const SHIFT1: nat := SHIFT0 + BITS
  const SHIFT2: nat := SHIFT1 + BITS
  const SHIFT3: nat := SHIFT2 + BITS

  /** The largest index `valid_range` accepts: a set holds at most 1,048,576 indices. */
  const MAX_EID: nat := 0xF_FFFF

  /** `id.offset(shift)`: `id >> shift`, one halving per bit shifted out. */
  function Offset(id: nat, shift: nat): nat
  {
    if shift == 0 then id else Offset(id / 2, shift - 1)
  }

  /** Shifting by `a + b` is shifting by `a`, then by `b`. */
  lemma {:induction false} OffsetSplit(id: nat, a: nat, b: nat)
    ensures Offset(id, a + b) == Offset(Offset(id, a), b)
  {
    if a > 0 {
      OffsetSplit(id / 2, a - 1, b);
    }
  }

  /** Shifting by `BITS` divides by the word width. */
  lemma OffsetByBits(id: nat)
    ensures Offset(id, BITS) == id / WORD_BITS
  {
    var h1 := id / 2;
    var h2 := h1 / 2;
    var h3 := h2 / 2;
    var h4 := h3 / 2;
    var h5 := h4 / 2;
    assert Offset(id, 6) == Offset(h1, 5) == Offset(h2, 4) == Offset(h3, 3);
    assert Offset(h3, 3) == Offset(h4, 2) == Offset(h5, 1) == h5 / 2;
  }

  /** `id.row(shift)`: `(id >> shift) & 63`, the bit of its word that stands for `id >> shift`. */
  function Row(id: nat, shift: nat): Pos
  {
    Lo(Offset(id, shift))
  }

  /** `id.mask(shift)`: `1 << row`. */
  function Mask(id: nat, shift: nat): Word
  {
    BitMask(Row(id, shift))
  }

  /**
   * `offsets(id)`: the word of layer 0, 1 and 2 that holds `id`. Each is the
   * word index of the one before divided by the word width; for an index
   * `valid_range` accepts, the layer-2 word is one of the first four.
   */
  function Offsets(id: Index): (p: (nat, nat, nat))
    ensures p.0 == id / WORD_BITS && p.1 == p.0 / WORD_BITS && p.2 == p.1 / WORD_BITS
    ensures id <= MAX_EID ==> p.2 < 4
  {
    OffsetByBits(id);
    OffsetSplit(id, SHIFT1, BITS);
    OffsetByBits(Offset(id, SHIFT1));
    OffsetSplit(id, SHIFT2, BITS);
    OffsetByBits(Offset(id, SHIFT2));
    (Offset(id, SHIFT1), Offset(id, SHIFT2), Offset(id, SHIFT3))
  }

  /**
   * The offsets and rows of an index are its digits in base 64: the bit
   * position and the word position put back together give the index again
   * (`(p0 << SHIFT1) | row`), at every layer.
   */
  lemma IndexDigits(id: Index)
    ensures id == WORD_BITS * Offset(id, SHIFT1) + Row(id, SHIFT0) as int
    ensures Offset(id, SHIFT1) == WORD_BITS * Offset(id, SHIFT2) + Row(id, SHIFT1) as int
    ensures Offset(id, SHIFT2) == WORD_BITS * Offset(id, SHIFT3) + Row(id, SHIFT2) as int
  {
    var p := Offsets(id);
  }

  /** The word positions of an index at each layer, as `Offset` computes them. */
  lemma OffsetsOf(id: Index)
    ensures Offset(id, SHIFT1) == id / WORD_BITS
    ensures Offset(id, SHIFT2) == id / WORD_BITS / WORD_BITS
    ensures Offset(id, SHIFT3) == id / WORD_BITS / WORD_BITS / WORD_BITS
  {
    var p := Offsets(id);
  }

  /** The mask of an index at each layer selects the bit of its base-64 digit there. */
  lemma MasksOf(id: Index)
    ensures Mask(id, SHIFT0) == BitMask(Lo(id))
    ensures Mask(id, SHIFT1) == BitMask(Lo(id / WORD_BITS))
    ensures Mask(id, SHIFT2) == BitMask(Lo(id / WORD_BITS / WORD_BITS))
    ensures Mask(id, SHIFT3) == BitMask(Lo(id / WORD_BITS / WORD_BITS / WORD_BITS))
  {
    OffsetsOf(id);
  }
}
