/**
 * The owned hierarchical bit set of src/lib.rs: four layers of 64-bit words,
 * where layer 0 holds one bit per index and each layer above holds one bit
 * per word of the layer below, set exactly when that word is nonzero.
 */
module HiBitSet {
  import opened Bits
  import opened Util
  import opened Hierarchy
  import opened Updates

  /**
   * `fill_up`: grow `v` with zero words until it has a word at position `to`;
   * a vector that already has one is left as it is. The result is the shortest
   * zero extension of `v` that reaches `to`, so it never shrinks `v`.
   */
  function FillUp(v: seq<Word>, to: nat): (r: seq<Word>)
    ensures to < |r| && ZeroExtension(r, v)
    ensures |r| == if to < |v| then |v| else to + 1
    ensures to < |v| ==> r == v
  {
    if |v| > to then v else v + seq(to + 1 - |v|, _ => 0)
  }

  /**
   * `extend(id)` on a well-formed set, for `id <= MAX_EID` (`valid_range`):
   * growing the three vectors to the words of `id` keeps the set well formed
   * and keeps every membership.
   */
  lemma ExtendPreserves(l3: Word, l2: seq<Word>, l1: seq<Word>, l0: seq<Word>, id: Index)
    requires Hierarchical(l3, l2, l1, l0) && id <= MAX_EID
    ensures Hierarchical(l3, FillUp(l2, id / WORD_BITS / WORD_BITS / WORD_BITS),
                         FillUp(l1, id / WORD_BITS / WORD_BITS), FillUp(l0, id / WORD_BITS))
    ensures forall i: Index :: Member(FillUp(l0, id / WORD_BITS), i) <==> Member(l0, i)
  {
    var p0 := id / WORD_BITS;
    var p1 := p0 / WORD_BITS;
    var p2 := p1 / WORD_BITS;
    var n2, n1, n0 := FillUp(l2, p2), FillUp(l1, p1), FillUp(l0, p0);
    SummarizesGrow([l3], l2, [l3], n2);
    SummarizesGrow(l2, l1, n2, n1);
    SummarizesGrow(l1, l0, n1, n0);
    forall i: Index
      ensures Member(n0, i) <==> Member(l0, i)
    {
      MemberZeroExtension(n0, l0, i);
    }
  }

  class BitSet {
    var layer3: Word
    var layer2: seq<Word>
    var layer1: seq<Word>
    var layer0: seq<Word>

    /** Every summary bit is set exactly when the word below it is nonzero, within capacity. */
    ghost predicate Valid()
      reads this
    {
      Hierarchical(layer3, layer2, layer1, layer0)
    }

    /** `new`: the empty set. */
    constructor ()
      ensures Valid()
      ensures layer3 == 0 && layer2 == [] && layer1 == [] && layer0 == []
      ensures forall i: Index :: !Contains(i)
    {
      layer3, layer2, layer1, layer0 := 0, [], [], [];
      EmptyHierarchical();
    }

    /** `with_capacity(max)`: an empty set whose layers already have the words of `max`. */
    constructor WithCapacity(max: Index)
      requires max <= MAX_EID
      ensures Valid() && layer3 == 0
      ensures |layer0| == max / WORD_BITS + 1 && forall i :: 0 <= i < |layer0| ==> layer0[i] == 0
      ensures |layer1| == max / WORD_BITS / WORD_BITS + 1 && forall i :: 0 <= i < |layer1| ==> layer1[i] == 0
      ensures |layer2| == max / WORD_BITS / WORD_BITS / WORD_BITS + 1 && forall i :: 0 <= i < |layer2| ==> layer2[i] == 0
      ensures forall i: Index :: !Contains(i)
    {
      layer3, layer2, layer1, layer0 := 0, [], [], [];
      new;
      EmptyHierarchical();
      Extend(max);
    }

    /**
     * `extend(id)`: grows `layer2`, `layer1` and `layer0` to the words of `id`,
     * zero-filling the new words; the set keeps its members.
     */
    method Extend(id: Index)
      requires Valid() && id <= MAX_EID
      modifies this
      ensures Valid()
      ensures layer3 == old(layer3)
      ensures layer2 == FillUp(old(layer2), id / WORD_BITS / WORD_BITS / WORD_BITS)
      ensures layer1 == FillUp(old(layer1), id / WORD_BITS / WORD_BITS)
      ensures layer0 == FillUp(old(layer0), id / WORD_BITS)
      ensures forall i: Index :: Contains(i) <==> old(Contains(i))
    {
      var p := Offsets(id);
      ExtendPreserves(layer3, layer2, layer1, layer0, id);
      layer2 := FillUp(layer2, p.2);
      layer1 := FillUp(layer1, p.1);
      layer0 := FillUp(layer0, p.0);
    }

    /**
     * `add_slow(id)`: sets the bits on the path of `id` in layers 1, 2 and 3.
     * The words it writes must exist.
     */
    method AddSlow(id: Index)
      requires id / WORD_BITS / WORD_BITS < |layer1| && id / WORD_BITS / WORD_BITS / WORD_BITS < |layer2|
      modifies this
      ensures layer0 == old(layer0)
      ensures layer1 == WithBit(old(layer1), id / WORD_BITS)
      ensures layer2 == WithBit(old(layer2), id / WORD_BITS / WORD_BITS)
      ensures layer3 == Or(old(layer3), BitMask(Lo(id / WORD_BITS / WORD_BITS / WORD_BITS)))
    {
      var p1, p2 := Offset(id, SHIFT2), Offset(id, SHIFT3);
      var l1, l2, l3 := layer1, layer2, layer3;
      MaskSet1(l1, id);
      MaskSet2(l2, id);
      MaskSet3(l3, id);
      l1 := l1[p1 := Or(l1[p1], Mask(id, SHIFT1))];
      l2 := l2[p2 := Or(l2[p2], Mask(id, SHIFT2))];
      l3 := Or(l3, Mask(id, SHIFT3));
      layer1, layer2, layer3 := l1, l2, l3;
    }

    /**
     * `add(id)`: puts `id` in the set and answers whether it was there
     * already. A missing word is first allocated by `extend`, which needs
     * `id <= MAX_EID`. The layers above change only when the layer-0 word
     * was zero, through `add_slow`; otherwise the bit is or-ed in a second
     * time, which changes nothing.
     */
    method Add(id: Index) returns (present: bool)
      requires Valid() && (id / WORD_BITS < |layer0| || id <= MAX_EID)
      modifies this
      ensures Valid()
      ensures present == old(Contains(id))
      ensures Contains(id)
      ensures forall i: Index :: Contains(i) <==> i == id || old(Contains(i))
      ensures var e0 := FillUp(old(layer0), id / WORD_BITS);
              layer0 == WithBit(e0, id) &&
              layer1 == (if e0[id / WORD_BITS] == 0 then WithBit(FillUp(old(layer1), id / WORD_BITS / WORD_BITS), id / WORD_BITS)
                         else FillUp(old(layer1), id / WORD_BITS / WORD_BITS)) &&
              layer2 == (if e0[id / WORD_BITS] == 0 then WithBit(FillUp(old(layer2), id / WORD_BITS / WORD_BITS / WORD_BITS), id / WORD_BITS / WORD_BITS)
                         else FillUp(old(layer2), id / WORD_BITS / WORD_BITS / WORD_BITS)) &&
              layer3 == (if e0[id / WORD_BITS] == 0 then Or(old(layer3), BitMask(Lo(id / WORD_BITS / WORD_BITS / WORD_BITS)))
                         else old(layer3))
    {
      OffsetsOf(id);
      ContainsMembers();
      var p0, mask := Offset(id, SHIFT1), Mask(id, SHIFT0);
      if p0 >= |layer0| {
        Extend(id);
      }
      ghost var g3, g2, g1, g0 := layer3, layer2, layer1, layer0;
      LengthInvariant(g3, g2, g1, g0, id);
      ContainsMembers();
      MembersWithBit(g0, id);
      if And(layer0[p0], mask) != 0 {
        ContainsMember(id);
        WithBitKeeps(g0, id);
        return true;
      }
      var old0 := layer0[p0];
      MaskSet0(layer0, id);
      layer0 := layer0[p0 := Or(layer0[p0], mask)];
      if old0 == 0 {
        AddSlowPreserves(g3, g2, g1, g0, id);
        AddSlow(id);
      } else {
        AddFastPreserves(g3, g2, g1, g0, id);
        MaskSet0Again(g0, id);
        layer0 := layer0[p0 := Or(layer0[p0], mask)];
      }
      ContainsMembers();
      return false;
    }

    /**
     * `remove(id)`: takes `id` out of the set and answers whether it was
     * there. An index whose word is not allocated is absent and changes
     * nothing. Otherwise the bit is cleared in layer 0, and the clear walks
     * up one layer only while the word just changed became zero.
     */
    method Remove(id: Index) returns (removed: bool)
      requires Valid()
      modifies this
      ensures Valid()
      ensures removed == old(Contains(id))
      ensures !Contains(id)
      ensures forall i: Index :: Contains(i) <==> i != id && old(Contains(i))
      ensures |old(layer0)| <= id / WORD_BITS ==> !removed
      ensures !removed ==> layer3 == old(layer3) && layer2 == old(layer2) && layer1 == old(layer1) && layer0 == old(layer0)
      ensures removed ==> id / WORD_BITS < |old(layer0)| && id / WORD_BITS / WORD_BITS < |old(layer1)|
                          && id / WORD_BITS / WORD_BITS / WORD_BITS < |old(layer2)|
      ensures removed ==> layer0 == WithoutBit(old(layer0), id)
      ensures removed ==> layer1 == if layer0[id / WORD_BITS] != 0 then old(layer1) else WithoutBit(old(layer1), id / WORD_BITS)
      ensures removed ==> layer2 == if layer0[id / WORD_BITS] != 0 || layer1[id / WORD_BITS / WORD_BITS] != 0 then old(layer2)
                                    else WithoutBit(old(layer2), id / WORD_BITS / WORD_BITS)
      ensures removed ==> layer3 == if layer0[id / WORD_BITS] != 0 || layer1[id / WORD_BITS / WORD_BITS] != 0
                                       || layer2[id / WORD_BITS / WORD_BITS / WORD_BITS] != 0 then old(layer3)
                                    else AndNot(old(layer3), BitMask(Lo(id / WORD_BITS / WORD_BITS / WORD_BITS)))
    {
      OffsetsOf(id);
      ContainsMembers();
      var p0, p1, p2 := Offset(id, SHIFT1), Offset(id, SHIFT2), Offset(id, SHIFT3);
      if p0 >= |layer0| {
        return false;
      }
      if And(layer0[p0], Mask(id, SHIFT0)) == 0 {
        return false;
      }
      ghost var l3, l2, l1, l0 := layer3, layer2, layer1, layer0;
      LengthInvariant(l3, l2, l1, l0, id);
      MembersWithoutBit(l0, id);
      MaskClear0(layer0, id);
      layer0 := layer0[p0 := AndNot(layer0[p0], Mask(id, SHIFT0))];
      ContainsMembers();
      if layer0[p0] != 0 {
        RemoveStopsAtLayer0(l3, l2, l1, l0, id);
        return true;
      }
      RemoveStopsAtLayer1(l3, l2, l1, l0, id);
      MaskClear1(layer1, id);
      layer1 := layer1[p1 := AndNot(layer1[p1], Mask(id, SHIFT1))];
      if layer1[p1] != 0 {
        return true;
      }
      RemoveStopsAtLayer2(l3, l2, l1, l0, id);
      MaskClear2(layer2, id);
      layer2 := layer2[p2 := AndNot(layer2[p2], Mask(id, SHIFT2))];
      if layer2[p2] != 0 {
        return true;
      }
      RemoveReachesLayer3(l3, l2, l1, l0, id);
      MaskClear3(layer3, id);
      layer3 := AndNot(layer3, Mask(id, SHIFT3));
      return true;
    }

    /** `contains(id)`: the layer-0 bit of `id`; an unallocated word holds no index. */
    function Contains(id: Index): (r: bool)
      reads this
    {
      var p0 := Offset(id, SHIFT1);
      p0 < |layer0| && And(layer0[p0], Mask(id, SHIFT0)) != 0
    }

    /** `contains` tests membership in layer 0. */
    lemma ContainsMember(id: Index)
      ensures Contains(id) == Member(layer0, id)
    {
      MaskTest0(layer0, id);
    }

    /** `contains` tests membership in layer 0, at every index. */
    lemma ContainsMembers()
      ensures forall i: Index :: Contains(i) == Member(layer0, i)
    {
      forall i: Index
        ensures Contains(i) == Member(layer0, i)
      {
        ContainsMember(i);
      }
    }

    /** `clear()`: empties every layer. */
    method Clear()
      modifies this
      ensures layer3 == 0 && layer2 == [] && layer1 == [] && layer0 == []
      ensures Valid()
      ensures forall i: Index :: !Contains(i)
    {
      layer0 := [];
      layer1 := [];
      layer2 := [];
      layer3 := 0;
      EmptyHierarchical();
    }

    /** `BitSetLike::layer3`: the top word. */
    function Layer3(): Word
      reads this
    {
      layer3
    }

    /** `BitSetLike::layer2(i)`: word `i` of layer 2, or 0 past its end. */
    function Layer2(i: nat): (r: Word)
      reads this
      ensures i < |layer2| ==> r == layer2[i]
      ensures |layer2| <= i ==> r == 0
    {
      if i < |layer2| then layer2[i] else 0
    }

    /** `BitSetLike::layer1(i)`: word `i` of layer 1, or 0 past its end. */
    function Layer1(i: nat): (r: Word)
      reads this
      ensures i < |layer1| ==> r == layer1[i]
      ensures |layer1| <= i ==> r == 0
    {
      if i < |layer1| then layer1[i] else 0
    }

    /** `BitSetLike::layer0(i)`: word `i` of layer 0, or 0 past its end. */
    function Layer0(i: nat): (r: Word)
      reads this
      ensures i < |layer0| ==> r == layer0[i]
      ensures |layer0| <= i ==> r == 0
    {
      if i < |layer0| then layer0[i] else 0
    }

    /**
     * The hierarchy as a `BitSetLike` reader sees it through the accessors: at
     * every position `i`, bit `i` of layers 1, 2 and 3 is set exactly when
     * word `i` of the layer below is nonzero.
     */
    lemma AccessorsSummarize(i: nat)
      requires Valid()
      ensures Bit(Layer1(i / WORD_BITS), Lo(i)) <==> Layer0(i) != 0
      ensures Bit(Layer2(i / WORD_BITS), Lo(i)) <==> Layer1(i) != 0
      ensures i < WORD_BITS ==> (Bit(Layer3(), Lo(i)) <==> Layer2(i) != 0)
    {
      LayerView(layer3, layer2, layer1, layer0, i);
    }

    /** The set is empty exactly when the top word is zero. */
    lemma EmptyIffLayer3Zero()
      requires Valid()
      ensures Layer3() == 0 <==> forall i: Index :: !Contains(i)
    {
      ContainsMembers();
      EmptyIffTopZero(layer3, layer2, layer1, layer0);
    }
  }

  /**
   * The `insert` scenario: adding each of `0..n` to a new set answers false,
   * adding it again answers true, and afterwards the set holds exactly `0..n`.
   */
  method InsertScenario(n: nat) returns (c: BitSet)
    requires n <= MAX_EID + 1
    ensures fresh(c) && c.Valid()
    ensures forall i: Index :: c.Contains(i) <==> i < n
  {
    c := new BitSet();
    var i := 0;
    while i < n
      invariant i <= n && c.Valid()
      invariant forall j: Index :: c.Contains(j) <==> j < i
    {
      var present := c.Add(i);
      assert !present;
      present := c.Add(i);
      assert present;
      i := i + 1;
    }
    i := 0;
    while i < n
      invariant i <= n
    {
      var member := c.Contains(i);
      assert member;
      i := i + 1;
    }
  }

  /**
   * The `remove` scenario: after adding `0..n`, each index is present, its
   * removal answers true, it is then absent, and a second removal answers
   * false. The set ends empty, with a zero top word.
   */
  method RemoveScenario(n: nat) returns (c: BitSet)
    requires n <= MAX_EID + 1
    ensures fresh(c) && c.Valid()
    ensures forall i: Index :: !c.Contains(i)
    ensures c.Layer3() == 0
  {
    c := new BitSet();
    var i := 0;
    while i < n
      invariant i <= n && c.Valid()
      invariant forall j: Index :: c.Contains(j) <==> j < i
    {
      var present := c.Add(i);
      assert !present;
      i := i + 1;
    }
    i := 0;
    while i < n
      invariant i <= n && c.Valid()
      invariant forall j: Index :: c.Contains(j) <==> i <= j < n
    {
      var member := c.Contains(i);
      assert member;
      var removed := c.Remove(i);
      assert removed;
      member := c.Contains(i);
      assert !member;
      removed := c.Remove(i);
      assert !removed;
      i := i + 1;
    }
    c.EmptyIffLayer3Zero();
  }
}
