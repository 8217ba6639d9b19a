/**
 * The word updates src/lib.rs writes with `offsets` and `mask`, read as the
 * layer operations of the hierarchy: `layer_k[p_k] |= id.mask(SHIFTk)` sets
 * bit `id >> SHIFTk` of layer k, and `&= !id.mask(SHIFTk)` clears it.
 */
module Updates {
  import opened Bits
  import opened Util
  import opened Hierarchy

  /** The test `contains` makes, `p0 < layer0.len() && layer0[p0] & id.mask(SHIFT0) != 0`, is membership. */
  lemma MaskTest0(v: seq<Word>, id: Index)
    ensures Offset(id, SHIFT1) == id / WORD_BITS
    ensures (Offset(id, SHIFT1) < |v| && And(v[Offset(id, SHIFT1)], Mask(id, SHIFT0)) != 0) == Member(v, id)
  {
    OffsetsOf(id);
    MasksOf(id);
    if id / WORD_BITS < |v| {
      MaskTest(v[id / WORD_BITS], Lo(id));
    }
  }

  /** `layer0[p0] |= id.mask(SHIFT0)` sets bit `id` of layer 0. */
  lemma MaskSet0(v: seq<Word>, id: Index)
    requires id / WORD_BITS < |v|
    ensures Offset(id, SHIFT1) == id / WORD_BITS
    ensures v[Offset(id, SHIFT1) := Or(v[Offset(id, SHIFT1)], Mask(id, SHIFT0))] == WithBit(v, id)
  {
    OffsetsOf(id);
    MasksOf(id);
  }

  /** The second `layer0[p0] |= mask` of `add` finds the bit set and changes nothing. */
  lemma MaskSet0Again(v: seq<Word>, id: Index)
    requires id / WORD_BITS < |v|
    ensures Offset(id, SHIFT1) == id / WORD_BITS
    ensures var u := WithBit(v, id);
      u[Offset(id, SHIFT1) := Or(u[Offset(id, SHIFT1)], Mask(id, SHIFT0))] == u
  {
    var u := WithBit(v, id);
    MaskSet0(u, id);
    WithBitTwice(v, id);
  }

  /** `layer1[p1] |= id.mask(SHIFT1)` sets bit `id >> 6` of layer 1. */
  lemma MaskSet1(v: seq<Word>, id: Index)
    requires id / WORD_BITS / WORD_BITS < |v|
    ensures Offset(id, SHIFT2) == id / WORD_BITS / WORD_BITS
    ensures v[Offset(id, SHIFT2) := Or(v[Offset(id, SHIFT2)], Mask(id, SHIFT1))] == WithBit(v, id / WORD_BITS)
  {
    OffsetsOf(id);
    MasksOf(id);
  }

  /** `layer2[p2] |= id.mask(SHIFT2)` sets bit `id >> 12` of layer 2. */
  lemma MaskSet2(v: seq<Word>, id: Index)
    requires id / WORD_BITS / WORD_BITS / WORD_BITS < |v|
    ensures Offset(id, SHIFT3) == id / WORD_BITS / WORD_BITS / WORD_BITS
    ensures v[Offset(id, SHIFT3) := Or(v[Offset(id, SHIFT3)], Mask(id, SHIFT2))] == WithBit(v, id / WORD_BITS / WORD_BITS)
  {
    OffsetsOf(id);
    MasksOf(id);
  }

  /** `layer3 |= id.mask(SHIFT3)` sets bit `id >> 18` of the top word. */
  lemma MaskSet3(x: Word, id: Index)
    ensures Or(x, Mask(id, SHIFT3)) == Or(x, BitMask(Lo(id / WORD_BITS / WORD_BITS / WORD_BITS)))
  {
    MasksOf(id);
  }

  /** `layer0[p0] &= !id.mask(SHIFT0)` clears bit `id` of layer 0. */
  lemma MaskClear0(v: seq<Word>, id: Index)
    requires id / WORD_BITS < |v|
    ensures Offset(id, SHIFT1) == id / WORD_BITS
    ensures v[Offset(id, SHIFT1) := AndNot(v[Offset(id, SHIFT1)], Mask(id, SHIFT0))] == WithoutBit(v, id)
  {
    OffsetsOf(id);
    MasksOf(id);
  }

  /** `layer1[p1] &= !id.mask(SHIFT1)` clears bit `id >> 6` of layer 1. */
  lemma MaskClear1(v: seq<Word>, id: Index)
    requires id / WORD_BITS / WORD_BITS < |v|
    ensures Offset(id, SHIFT2) == id / WORD_BITS / WORD_BITS
    ensures v[Offset(id, SHIFT2) := AndNot(v[Offset(id, SHIFT2)], Mask(id, SHIFT1))] == WithoutBit(v, id / WORD_BITS)
  {
    OffsetsOf(id);
    MasksOf(id);
  }

  /** `layer2[p2] &= !id.mask(SHIFT2)` clears bit `id >> 12` of layer 2. */
  lemma MaskClear2(v: seq<Word>, id: Index)
    requires id / WORD_BITS / WORD_BITS / WORD_BITS < |v|
    ensures Offset(id, SHIFT3) == id / WORD_BITS / WORD_BITS / WORD_BITS
    ensures v[Offset(id, SHIFT3) := AndNot(v[Offset(id, SHIFT3)], Mask(id, SHIFT2))] == WithoutBit(v, id / WORD_BITS / WORD_BITS)
  {
    OffsetsOf(id);
    MasksOf(id);
  }

  /** `layer3 &= !id.mask(SHIFT3)` clears bit `id >> 18` of the top word. */
  lemma MaskClear3(x: Word, id: Index)
    ensures AndNot(x, Mask(id, SHIFT3)) == AndNot(x, BitMask(Lo(id / WORD_BITS / WORD_BITS / WORD_BITS)))
  {
    MasksOf(id);
  }
}
