/**
 * The layered view every `BitSetLike` value offers (src/lib.rs:165-203) and
 * the invariant that links each summary bit to the word below it.
 *
 * A layer is a vector of words read through its accessor, which answers 0 past
 * the end. Bit `n` of a layer is bit `n % 64` of its word `n / 64`. Bit `p` of
 * a summary layer is set exactly when word `p` of the layer below is nonzero.
 * Layer 3 is a single word and is treated as the one-word layer `[layer3]`.
 */
module Hierarchy {
  import opened Bits
  import opened Util

  /** A layer read through its accessor: `get(i).map(|&x| x).unwrap_or(0)`. */
  function At(v: seq<Word>, i: nat): Word
  {
    if i < |v| then v[i] else 0
  }

  /** Bit `n` of the layer `v`, read through its accessor. */
  predicate BitAt(v: seq<Word>, n: nat)
  {
    Bit(At(v, n / WORD_BITS), Lo(n))
  }

  /** `v` with bit `n` set: `v[n / 64] |= 1 << (n % 64)`. */
  function WithBit(v: seq<Word>, n: nat): seq<Word>
    requires n / WORD_BITS < |v|
  {
    v[n / WORD_BITS := Or(v[n / WORD_BITS], BitMask(Lo(n)))]
  }

  /** `v` with bit `n` cleared: `v[n / 64] &= !(1 << (n % 64))`. */
  function WithoutBit(v: seq<Word>, n: nat): seq<Word>
    requires n / WORD_BITS < |v|
  {
    v[n / WORD_BITS := AndNot(v[n / WORD_BITS], BitMask(Lo(n)))]
  }

  /** `w` is `v` followed by zero words only (what `Vec::resize(_, 0)` leaves). */
  ghost predicate ZeroExtension(w: seq<Word>, v: seq<Word>)
  {
    |v| <= |w| && w[..|v|] == v && forall i :: |v| <= i < |w| ==> w[i] == 0
  }

  /**
   * `upper` summarises `lower`: bit `p` of `upper` is set exactly when word `p`
   * of `lower` is nonzero, and `upper` is long enough to hold a bit for every
   * word of `lower`.
   */
  ghost predicate Summarizes(upper: seq<Word>, lower: seq<Word>)
  {
    |lower| <= WORD_BITS * |upper| &&
    forall p: nat {:trigger At(lower, p)} :: p < WORD_BITS * |upper| ==> (Bit(upper[p / WORD_BITS], Lo(p)) <==> At(lower, p) != 0)
  }

  /** Most words layer 0 can have: no layer grows past the word of MAX_EID. */
  const LAYER0_WORDS: nat := MAX_EID / WORD_BITS + 1

  /** The invariant of a `BitSet`: each layer summarises the one below, within capacity. */
  ghost predicate Hierarchical(l3: Word, l2: seq<Word>, l1: seq<Word>, l0: seq<Word>)
  {
    |l0| <= LAYER0_WORDS && Summarizes([l3], l2) && Summarizes(l2, l1) && Summarizes(l1, l0)
  }

  /** Membership: bit `id` of layer 0, read through the `layer0` accessor. */
  predicate Member(l0: seq<Word>, id: Index)
  {
    id / WORD_BITS < |l0| && Bit(l0[id / WORD_BITS], Lo(id))
  }

  /** The empty set, all layers empty and `layer3 == 0`, is well formed and has no member. */
  lemma EmptyHierarchical()
    ensures Hierarchical(0, [], [], [])
    ensures forall id: Index :: !Member([], id)
  {
    forall p: nat | p < WORD_BITS
      ensures !Bit([0 as Word][p / WORD_BITS], Lo(p))
    {
      ZeroHasNoBit(Lo(p));
    }
  }

  /**
   * The summary stays exact when word `k` below becomes `w` and the summary
   * word above it becomes `x`, if `x` differs from the old summary word only
   * in bit `k % 64`, which `x` has exactly when `w` is nonzero.
   */
  lemma SummarizesUpdate(upper: seq<Word>, lower: seq<Word>, k: nat, w: Word, x: Word)
    requires Summarizes(upper, lower) && k < |lower|
    requires Bit(x, Lo(k)) == (w != 0)
    requires forall j: Pos :: j != Lo(k) ==> Bit(x, j) == Bit(upper[k / WORD_BITS], j)
    ensures Summarizes(upper[k / WORD_BITS := x], lower[k := w])
  {
    var upper', lower' := upper[k / WORD_BITS := x], lower[k := w];
    forall p: nat | p < WORD_BITS * |upper'|
      ensures Bit(upper'[p / WORD_BITS], Lo(p)) <==> At(lower', p) != 0
    {
      if p != k {
        assert At(lower', p) == At(lower, p);
        if p / WORD_BITS == k / WORD_BITS {
        } else {
          assert upper'[p / WORD_BITS] == upper[p / WORD_BITS];
        }
      }
    }
  }

  /**
   * Setting bit `n` of a layer and, above it, the bit of word `n / 64`: the
   * word below now has a bit set, and the summary says so.
   */
  lemma SummarizesSet(upper: seq<Word>, lower: seq<Word>, n: nat)
    requires Summarizes(upper, lower) && n / WORD_BITS < |lower|
    ensures n / WORD_BITS / WORD_BITS < |upper|
    ensures Summarizes(WithBit(upper, n / WORD_BITS), WithBit(lower, n))
  {
    var k := n / WORD_BITS;
    var w, b := lower[k], Lo(n);
    var r := SetBit(w, b);
    assert WithBit(lower, n) == lower[k := r];
    var x, c := upper[k / WORD_BITS], Lo(k);
    var s := SetBit(x, c);
    SummarizesUpdate(upper, lower, k, r, s);
  }

  /** The top layer is a single word: setting bit `m` of it as a one-word layer. */
  lemma TopWithBit(x: Word, m: nat)
    requires m < WORD_BITS
    ensures WithBit([x], m) == [Or(x, BitMask(Lo(m)))]
  {
  }

  /** The top layer is a single word: clearing bit `m` of it as a one-word layer. */
  lemma TopWithoutBit(x: Word, m: nat)
    requires m < WORD_BITS
    ensures WithoutBit([x], m) == [AndNot(x, BitMask(Lo(m)))]
  {
  }

  /** Setting bit `n` of layer 2 and the bit of its word in the top word `layer3`. */
  lemma SummarizesSetTop(l3: Word, l2: seq<Word>, n: nat)
    requires Summarizes([l3], l2) && n / WORD_BITS < |l2|
    ensures Summarizes([Or(l3, BitMask(Lo(n / WORD_BITS)))], WithBit(l2, n))
  {
    TopWithBit(l3, n / WORD_BITS);
    SummarizesSet([l3], l2, n);
  }

  /** Setting bit `n` in a word that was already nonzero leaves the summary as it is. */
  lemma SummarizesKeepSet(upper: seq<Word>, lower: seq<Word>, n: nat)
    requires Summarizes(upper, lower) && n / WORD_BITS < |lower| && lower[n / WORD_BITS] != 0
    ensures Summarizes(upper, WithBit(lower, n))
  {
    var k := n / WORD_BITS;
    var w, b := lower[k], Lo(n);
    var r := SetBit(w, b);
    assert WithBit(lower, n) == lower[k := r];
    SummarizesKeep(upper, lower, k, r);
  }

  /**
   * Clearing bit `n` of a layer when that empties its word, and with it the
   * bit of word `n / 64` above: the summary stays exact.
   */
  lemma SummarizesClear(upper: seq<Word>, lower: seq<Word>, n: nat)
    requires Summarizes(upper, lower) && n / WORD_BITS < |lower|
    requires WithoutBit(lower, n)[n / WORD_BITS] == 0
    ensures n / WORD_BITS / WORD_BITS < |upper|
    ensures Summarizes(WithoutBit(upper, n / WORD_BITS), WithoutBit(lower, n))
  {
    var k := n / WORD_BITS;
    var x, c := upper[k / WORD_BITS], Lo(k);
    var s := ClearBit(x, c);
    SummarizesUpdate(upper, lower, k, 0, s);
    assert WithoutBit(lower, n) == lower[k := 0];
  }

  /** Clearing bit `n` of layer 2 when that empties its word, and the bit of that word in `layer3`. */
  lemma SummarizesClearTop(l3: Word, l2: seq<Word>, n: nat)
    requires Summarizes([l3], l2) && n / WORD_BITS < |l2|
    requires WithoutBit(l2, n)[n / WORD_BITS] == 0
    ensures Summarizes([AndNot(l3, BitMask(Lo(n / WORD_BITS)))], WithoutBit(l2, n))
  {
    SummarizesClear([l3], l2, n);
    TopWithoutBit(l3, n / WORD_BITS);
  }

  /** Clearing bit `n` in a word that stays nonzero leaves the summary as it is. */
  lemma SummarizesKeepClear(upper: seq<Word>, lower: seq<Word>, n: nat)
    requires Summarizes(upper, lower) && n / WORD_BITS < |lower| && lower[n / WORD_BITS] != 0
    requires WithoutBit(lower, n)[n / WORD_BITS] != 0
    ensures Summarizes(upper, WithoutBit(lower, n))
  {
    var k := n / WORD_BITS;
    var r := WithoutBit(lower, n)[k];
    SummarizesKeep(upper, lower, k, r);
    assert WithoutBit(lower, n) == lower[k := r];
  }

  /** The summary stays exact when a word below changes but stays zero or stays nonzero. */
  lemma SummarizesKeep(upper: seq<Word>, lower: seq<Word>, k: nat, w: Word)
    requires Summarizes(upper, lower) && k < |lower| && (w == 0 <==> lower[k] == 0)
    ensures Summarizes(upper, lower[k := w])
  {
    var lower' := lower[k := w];
    forall p: nat | p < WORD_BITS * |upper|
      ensures Bit(upper[p / WORD_BITS], Lo(p)) <==> At(lower', p) != 0
    {
      assert Bit(upper[p / WORD_BITS], Lo(p)) <==> At(lower, p) != 0;
    }
  }

  /** Growing both layers with zero words keeps the summary exact. */
  lemma SummarizesGrow(upper: seq<Word>, lower: seq<Word>, upper': seq<Word>, lower': seq<Word>)
    requires Summarizes(upper, lower)
    requires ZeroExtension(upper', upper) && ZeroExtension(lower', lower)
    requires |lower'| <= WORD_BITS * |upper'|
    ensures Summarizes(upper', lower')
  {
    forall p: nat | p < WORD_BITS * |upper'|
      ensures Bit(upper'[p / WORD_BITS], Lo(p)) <==> At(lower', p) != 0
    {
      if p < WORD_BITS * |upper| {
        assert upper'[p / WORD_BITS] == upper[p / WORD_BITS];
        assert At(lower', p) == At(lower, p) by {
          if p < |lower| {
            assert lower'[p] == lower'[..|lower|][p];
          }
        }
        assert Bit(upper[p / WORD_BITS], Lo(p)) <==> At(lower, p) != 0;
      } else {
        assert upper'[p / WORD_BITS] == 0;
        ZeroHasNoBit(Lo(p));
        assert At(lower', p) == 0;
      }
    }
  }

  /**
   * Read through the accessors, an exact summary answers for every position,
   * also past the end of either layer: bit `p` above is set exactly when word
   * `p` below is nonzero.
   */
  lemma SummaryBit(upper: seq<Word>, lower: seq<Word>, p: nat)
    requires Summarizes(upper, lower)
    ensures BitAt(upper, p) <==> At(lower, p) != 0
    ensures p < |lower| ==> p / WORD_BITS < |upper|
  {
    if p / WORD_BITS >= |upper| {
      ZeroHasNoBit(Lo(p));
    }
  }

  /**
   * The `BitSetLike` view of a well-formed set: at every position `i`,
   * `layer1`, `layer2` and `layer3` have bit `i` exactly when word `i` of the
   * layer below is nonzero.
   */
  lemma LayerView(l3: Word, l2: seq<Word>, l1: seq<Word>, l0: seq<Word>, i: nat)
    requires Hierarchical(l3, l2, l1, l0)
    ensures BitAt(l1, i) <==> At(l0, i) != 0
    ensures BitAt(l2, i) <==> At(l1, i) != 0
    ensures BitAt([l3], i) <==> At(l2, i) != 0
  {
    SummaryBit(l1, l0, i);
    SummaryBit(l2, l1, i);
    SummaryBit([l3], l2, i);
  }

  /**
   * The length invariant: when the layer-0 word of an index is allocated, so
   * are its layer-1 and layer-2 words, and its layer-3 bit is below the word
   * width.
   */
  lemma LengthInvariant(l3: Word, l2: seq<Word>, l1: seq<Word>, l0: seq<Word>, id: Index)
    requires Hierarchical(l3, l2, l1, l0) && id / WORD_BITS < |l0|
    ensures id / WORD_BITS / WORD_BITS < |l1|
    ensures id / WORD_BITS / WORD_BITS / WORD_BITS < |l2|
    ensures id / WORD_BITS / WORD_BITS / WORD_BITS < WORD_BITS
  {
  }

  /** Setting the bit of `id` adds `id` and no other index. */
  lemma MemberWithBit(l0: seq<Word>, id: Index, i: Index)
    requires id / WORD_BITS < |l0|
    ensures Member(WithBit(l0, id), i) <==> i == id || Member(l0, i)
  {
    var x := l0[id / WORD_BITS];
    var b := Lo(id);
    var r := SetBit(x, b);
    assert WithBit(l0, id) == l0[id / WORD_BITS := r];
    if i != id && i / WORD_BITS == id / WORD_BITS {
    }
  }

  /** Setting bit `n` replaces word `n / 64` by a word `r` that has the bit. */
  lemma WithBitWord(v: seq<Word>, n: nat) returns (r: Word)
    requires n / WORD_BITS < |v|
    ensures Bit(r, Lo(n)) && WithBit(v, n) == v[n / WORD_BITS := r]
  {
    var k := n / WORD_BITS;
    var w, b := v[k], Lo(n);
    r := SetBit(w, b);
    assert WithBit(v, n) == v[k := r];
  }

  /** Setting a bit that is already set changes nothing. */
  lemma WithBitKeeps(v: seq<Word>, n: nat)
    requires n / WORD_BITS < |v| && Bit(v[n / WORD_BITS], Lo(n))
    ensures WithBit(v, n) == v
  {
    var k := n / WORD_BITS;
    var w, b := v[k], Lo(n);
    SetIdempotent(w, b);
    assert WithBit(v, n) == v[k := w];
  }

  /** Setting the same bit twice is setting it once. */
  lemma WithBitTwice(v: seq<Word>, n: nat)
    requires n / WORD_BITS < |v|
    ensures WithBit(WithBit(v, n), n) == WithBit(v, n)
  {
    var r := WithBitWord(v, n);
    WithBitKeeps(v[n / WORD_BITS := r], n);
  }

  /** Setting bit `id` of layer 0 adds `id` to the members and changes no other membership. */
  lemma MembersWithBit(l0: seq<Word>, id: Index)
    requires id / WORD_BITS < |l0|
    ensures forall i: Index :: Member(WithBit(l0, id), i) <==> i == id || Member(l0, i)
  {
    forall i: Index
      ensures Member(WithBit(l0, id), i) <==> i == id || Member(l0, i)
    {
      MemberWithBit(l0, id, i);
    }
  }

  /** Clearing the bit of `id` removes `id` and no other index. */
  lemma MemberWithoutBit(l0: seq<Word>, id: Index, i: Index)
    requires id / WORD_BITS < |l0|
    ensures Member(WithoutBit(l0, id), i) <==> i != id && Member(l0, i)
  {
    var x := l0[id / WORD_BITS];
    var b := Lo(id);
    var r := ClearBit(x, b);
    assert WithoutBit(l0, id) == l0[id / WORD_BITS := r];
    if i != id && i / WORD_BITS == id / WORD_BITS {
    }
  }

  /** Clearing bit `id` of layer 0 removes `id` from the members and changes no other membership. */
  lemma MembersWithoutBit(l0: seq<Word>, id: Index)
    requires id / WORD_BITS < |l0|
    ensures forall i: Index :: Member(WithoutBit(l0, id), i) <==> i != id && Member(l0, i)
  {
    forall i: Index
      ensures Member(WithoutBit(l0, id), i) <==> i != id && Member(l0, i)
    {
      MemberWithoutBit(l0, id, i);
    }
  }

  /** Zero words appended to layer 0 hold no index. */
  lemma MemberZeroExtension(w: seq<Word>, v: seq<Word>, i: Index)
    requires ZeroExtension(w, v)
    ensures Member(w, i) <==> Member(v, i)
  {
    var p := i / WORD_BITS;
    if p < |v| {
      assert w[p] == w[..|v|][p];
    } else if p < |w| {
      ZeroHasNoBit(Lo(i));
    }
  }

  /** Every index of a well-formed set is at most MAX_EID. */
  lemma MemberInRange(l3: Word, l2: seq<Word>, l1: seq<Word>, l0: seq<Word>, id: Index)
    requires Hierarchical(l3, l2, l1, l0) && Member(l0, id)
    ensures id <= MAX_EID
  {
  }

  /**
   * The summary bits on the path of an index in the set are set: bit `p0` of
   * layer 1, bit `p1` of layer 2 and bit `p2` of layer 3, where `p0`, `p1`
   * and `p2` are the word positions of the index in layers 0, 1 and 2.
   */
  lemma MemberLiftsUp(l3: Word, l2: seq<Word>, l1: seq<Word>, l0: seq<Word>, id: Index)
    requires Hierarchical(l3, l2, l1, l0) && Member(l0, id)
    ensures BitAt(l1, id / WORD_BITS)
    ensures BitAt(l2, id / WORD_BITS / WORD_BITS)
    ensures BitAt([l3], id / WORD_BITS / WORD_BITS / WORD_BITS)
  {
    var p0 := id / WORD_BITS;
    var p1 := p0 / WORD_BITS;
    BitNonzero(At(l0, p0), Lo(id));
    SummaryBit(l1, l0, p0);
    BitNonzero(At(l1, p1), Lo(p0));
    SummaryBit(l2, l1, p1);
    BitNonzero(At(l2, p1 / WORD_BITS), Lo(p1));
    SummaryBit([l3], l2, p1 / WORD_BITS);
  }

  /** In a well-formed set, layer 3 is zero exactly when the set is empty. */
  lemma EmptyIffTopZero(l3: Word, l2: seq<Word>, l1: seq<Word>, l0: seq<Word>)
    requires Hierarchical(l3, l2, l1, l0)
    ensures l3 == 0 <==> forall id: Index :: !Member(l0, id)
  {
    if l3 == 0 {
      forall id: Index
        ensures !Member(l0, id)
      {
        if Member(l0, id) {
          MemberLiftsUp(l3, l2, l1, l0, id);
          ZeroHasNoBit(Lo(id / WORD_BITS / WORD_BITS / WORD_BITS));
        }
      }
    } else {
      var id := SomeMember(l3, l2, l1, l0);
    }
  }

  /** A nonzero layer 3 leads, through one set bit per layer, to an index in the set. */
  lemma SomeMember(l3: Word, l2: seq<Word>, l1: seq<Word>, l0: seq<Word>) returns (id: Index)
    requires Hierarchical(l3, l2, l1, l0) && l3 != 0
    ensures Member(l0, id)
  {
    var b3 := LowestSetBit(l3);
    var p2 := Descend([l3], l2, 0, b3);
    var w2 := l2[p2];
    var b2 := LowestSetBit(w2);
    var p1 := Descend(l2, l1, p2, b2);
    var w1 := l1[p1];
    var b1 := LowestSetBit(w1);
    var p0 := Descend(l1, l0, p1, b1);
    var w0 := l0[p0];
    var b0 := LowestSetBit(w0);
    id := IndexOf(l0, p0, b0);
  }

  /** Bit `b` of word `p` of layer 0 stands for the index `64 * p + b`. */
  lemma IndexOf(l0: seq<Word>, p: nat, b: Pos) returns (id: Index)
    requires p < |l0| <= LAYER0_WORDS && Bit(l0[p], b)
    ensures id == WORD_BITS * p + b as int && Member(l0, id)
  {
    id := WORD_BITS * p + b as int;
  }

  /** A set bit `b` of summary word `j` names a nonzero word `64 * j + b` below. */
  lemma Descend(upper: seq<Word>, lower: seq<Word>, j: nat, b: Pos) returns (p: nat)
    requires Summarizes(upper, lower) && j < |upper| && Bit(upper[j], b)
    ensures p == WORD_BITS * j + b as int
    ensures p < |lower| && lower[p] != 0
  {
    p := WORD_BITS * j + b as int;
    assert At(lower, p) != 0;
  }

  /** `add` when the layer-0 word of `id` was already nonzero: setting its bit keeps the set well formed. */
  lemma AddFastPreserves(l3: Word, l2: seq<Word>, l1: seq<Word>, l0: seq<Word>, id: Index)
    requires Hierarchical(l3, l2, l1, l0) && id / WORD_BITS < |l0| && l0[id / WORD_BITS] != 0
    ensures Hierarchical(l3, l2, l1, WithBit(l0, id))
  {
    SummarizesKeepSet(l1, l0, id);
  }

  /**
   * `add` when the layer-0 word of `id` was zero: with the bits `add_slow`
   * sets on the path in layers 1, 2 and 3, the set stays well formed, and the
   * words `add_slow` writes exist.
   */
  lemma AddSlowPreserves(l3: Word, l2: seq<Word>, l1: seq<Word>, l0: seq<Word>, id: Index)
    requires Hierarchical(l3, l2, l1, l0) && id / WORD_BITS < |l0| && l0[id / WORD_BITS] == 0
    ensures id / WORD_BITS / WORD_BITS < |l1| && id / WORD_BITS / WORD_BITS / WORD_BITS < |l2|
    ensures Hierarchical(Or(l3, BitMask(Lo(id / WORD_BITS / WORD_BITS / WORD_BITS))),
                         WithBit(l2, id / WORD_BITS / WORD_BITS),
                         WithBit(l1, id / WORD_BITS),
                         WithBit(l0, id))
  {
    var p0 := id / WORD_BITS;
    var p1 := p0 / WORD_BITS;
    SummarizesSet(l1, l0, id);
    SummarizesSet(l2, l1, p0);
    SummarizesSetTop(l3, l2, p1);
  }

  /*
   * `remove` clears the bit of `id` in layer 0 and then walks up: it clears
   * the bit of a word in the layer above only when the word it just changed
   * became zero, and stops at the first word that stays nonzero. Each lemma
   * below is the invariant for one place where that walk stops.
   */

  /** `remove` stops at layer 0: the word of `id` keeps another bit. */
  lemma RemoveStopsAtLayer0(l3: Word, l2: seq<Word>, l1: seq<Word>, l0: seq<Word>, id: Index)
    requires Hierarchical(l3, l2, l1, l0) && Member(l0, id)
    requires WithoutBit(l0, id)[id / WORD_BITS] != 0
    ensures Hierarchical(l3, l2, l1, WithoutBit(l0, id))
  {
    BitNonzero(l0[id / WORD_BITS], Lo(id));
    SummarizesKeepClear(l1, l0, id);
  }

  /** `remove` stops at layer 1: the word of `id` became zero, its layer-1 word keeps another bit. */
  lemma RemoveStopsAtLayer1(l3: Word, l2: seq<Word>, l1: seq<Word>, l0: seq<Word>, id: Index)
    requires Hierarchical(l3, l2, l1, l0) && Member(l0, id)
    requires WithoutBit(l0, id)[id / WORD_BITS] == 0
    ensures id / WORD_BITS / WORD_BITS < |l1|
    ensures WithoutBit(l1, id / WORD_BITS)[id / WORD_BITS / WORD_BITS] != 0 ==>
      Hierarchical(l3, l2, WithoutBit(l1, id / WORD_BITS), WithoutBit(l0, id))
  {
    var p0 := id / WORD_BITS;
    MemberLiftsUp(l3, l2, l1, l0, id);
    SummarizesClear(l1, l0, id);
    BitNonzero(l1[p0 / WORD_BITS], Lo(p0));
    if WithoutBit(l1, p0)[p0 / WORD_BITS] != 0 {
      SummarizesKeepClear(l2, l1, p0);
    }
  }

  /** `remove` stops at layer 2: the words of `id` in layers 0 and 1 became zero, its layer-2 word keeps another bit. */
  lemma RemoveStopsAtLayer2(l3: Word, l2: seq<Word>, l1: seq<Word>, l0: seq<Word>, id: Index)
    requires Hierarchical(l3, l2, l1, l0) && Member(l0, id)
    requires WithoutBit(l0, id)[id / WORD_BITS] == 0
    requires id / WORD_BITS / WORD_BITS < |l1| && WithoutBit(l1, id / WORD_BITS)[id / WORD_BITS / WORD_BITS] == 0
    ensures id / WORD_BITS / WORD_BITS / WORD_BITS < |l2|
    ensures WithoutBit(l2, id / WORD_BITS / WORD_BITS)[id / WORD_BITS / WORD_BITS / WORD_BITS] != 0 ==>
      Hierarchical(l3, WithoutBit(l2, id / WORD_BITS / WORD_BITS), WithoutBit(l1, id / WORD_BITS), WithoutBit(l0, id))
  {
    var p0 := id / WORD_BITS;
    var p1 := p0 / WORD_BITS;
    MemberLiftsUp(l3, l2, l1, l0, id);
    SummarizesClear(l1, l0, id);
    SummarizesClear(l2, l1, p0);
    BitNonzero(l2[p1 / WORD_BITS], Lo(p1));
    if WithoutBit(l2, p1)[p1 / WORD_BITS] != 0 {
      SummarizesKeepClear([l3], l2, p1);
    }
  }

  /** `remove` reaches layer 3: the words of `id` in layers 0, 1 and 2 all became zero. */
  lemma RemoveReachesLayer3(l3: Word, l2: seq<Word>, l1: seq<Word>, l0: seq<Word>, id: Index)
    requires Hierarchical(l3, l2, l1, l0) && Member(l0, id)
    requires WithoutBit(l0, id)[id / WORD_BITS] == 0
    requires id / WORD_BITS / WORD_BITS < |l1| && WithoutBit(l1, id / WORD_BITS)[id / WORD_BITS / WORD_BITS] == 0
    requires id / WORD_BITS / WORD_BITS / WORD_BITS < |l2|
    requires WithoutBit(l2, id / WORD_BITS / WORD_BITS)[id / WORD_BITS / WORD_BITS / WORD_BITS] == 0
    ensures Hierarchical(AndNot(l3, BitMask(Lo(id / WORD_BITS / WORD_BITS / WORD_BITS))),
                         WithoutBit(l2, id / WORD_BITS / WORD_BITS),
                         WithoutBit(l1, id / WORD_BITS),
                         WithoutBit(l0, id))
  {
    var p0 := id / WORD_BITS;
    var p1 := p0 / WORD_BITS;
    SummarizesClear(l1, l0, id);
    SummarizesClear(l2, l1, p0);
    SummarizesClearTop(l3, l2, p1);
  }
}
