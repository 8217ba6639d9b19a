# hibitset `BitSet`, modelled in Dafny

This project models the owned hierarchical bit set of the `hibitset` crate
(`BitSet` in src/lib.rs) and its `BitSetLike` layer accessors.

A `BitSet` holds indices (`u32`) in four layers of 64-bit words:

- Layer 0 has one bit per index: index `id` is bit `id % 64` of word `id / 64`.
- Layer 1 has one bit per word of layer 0. That bit is set exactly when the
  word is nonzero. Layer 2 summarises layer 1 the same way.
- Layer 3 is a single word summarising layer 2.

The set holds at most 1,048,576 indices (`MAX_EID = 2^20 - 1`).

The model has five modules:

- `Bits` (bits.dfy): machine words and the bit operations the set uses.
  - A word is the number it represents, below 2^64.
  - Words are numbers rather than `bv64` values. Bit-vector reasoning over whole layers is very costly for the solver, while the digit-wise definitions keep the proofs about `add` and `remove` small. The bit lemmas fix the meaning of every bit, so the two readings agree.
  - `|`, `&` and `& !` are defined digit by digit.
  - Lemmas prove what each operation does to every bit. For example, `w | (1 << k)` sets bit `k` and no other bit.
- `Util` (util.dfy): the index arithmetic.
  - `offset` is `id >> shift`, defined as repeated halving.
  - `row` is `offset & 63`, and `mask` is `1 << row`.
  - `offsets` gives the word positions of an index in layers 0, 1 and 2.
- `Hierarchy` (hierarchy.dfy): the layered view and its invariant.
  - `Summarizes(upper, lower)` says each summary bit is set exactly when the word below it is nonzero.
  - `Hierarchical` says the three summaries hold and layer 0 stays within capacity.
  - `Member` is the bit of an index in layer 0.
  - Lemmas show that the writes `add`, `add_slow` and `remove` make keep the invariant, and that `remove`'s upward walk may stop where it does.
- `Updates` (updates.dfy): links the `offsets`/`mask` word updates the source writes to setting or clearing a bit of a layer.
- `HiBitSet` (hibitset.dfy): the `BitSet` class.
  - Its fields `layer3`, `layer2`, `layer1` and `layer0` are updated in place by `Extend`, `AddSlow`, `Add`, `Remove` and `Clear`.
  - `fill_up` is the function `FillUp`.
  - `contains` and the accessors are functions.
  - Two scenario methods follow the crate's `insert` and `remove` tests.

`Extend`, `Add`, `Remove` and `Clear` keep the invariant `Valid()`. Each state-changing method states its whole new state in terms of the old one, and what it answers.

src/lib.rs takes `Index`, `offsets`, `offset`, `mask`, `SHIFT0..3` and `MAX_EID` from the crate's `util` module (src/lib.rs:14, 20). src/util.rs is not part of this model; util.dfy reconstructs those items from how src/lib.rs uses them. The names `BITS` (util.dfy:14) and `Row` (util.dfy:54) belong to this reconstruction; src/lib.rs names neither. The reconstruction reads:

- `offset(s)` is `id >> s`.
- `row(s)` is `(id >> s) & 63`.
- `mask(s)` is `1 << row(s)`.
- `BITS` is 6, and the word width is 64.

With this reading, `add_slow` writes bit `(id >> 6) & 63` of `layer1[id >> 12]`, and that is the bit that stands for the layer-0 word `id >> 6`. The hierarchy invariant depends on this. A reading of `mask(SHIFTk)` as `1 << ((id >> SHIFT(k-1)) & 63)` would break it.

## Model

| member | source | states |
|---|---|---|
| Bits.SetBit | src/lib.rs:100-106 | `w \| (1 << k)` sets bit `k`, leaves every other bit as it was and gives a nonzero word |
| Bits.ClearBit | src/lib.rs:130-145 | `w & !(1 << k)` clears bit `k` and leaves every other bit as it was |
| Bits.MaskTest | src/lib.rs:95 | `w & (1 << k) != 0` holds exactly when bit `k` of `w` is set |
| Bits.SetIdempotent | src/lib.rs:104-107 | or-ing in a bit that is already set gives back the same word |
| Bits.BitOr | src/lib.rs:100-106 | a bit of `a \| b` is set exactly when it is set in `a` or in `b` |
| Bits.BitAnd | src/lib.rs:153 | a bit of `a & b` is set exactly when it is set in both |
| Bits.BitAndNot | src/lib.rs:130 | a bit of `a & !m` is set exactly when it is set in `a` and clear in `m` |
| Bits.BitOfPow2 | src/lib.rs:89 | `1 << j` has bit `j` set and no other bit |
| Bits.LowestSetBit | src/lib.rs:179-181 | a nonzero word has a set bit, the lowest one, with every bit below it clear; this is the bit `SomeMember` descends through to show that a nonzero `layer3` means a nonempty set |
| Bits.OrBelow | src/lib.rs:100 | or-ing two numbers of `n` bits gives a number of `n` bits, so `\|=` keeps a word a word |
| Bits.And | src/lib.rs:153 | `a & b` never exceeds `a` |
| Bits.AndNot | src/lib.rs:130 | `a & !m` never exceeds `a` |
| Util.Offsets | src/lib.rs:60 | the layer-0, 1 and 2 words of `id` are `id / 64`, then `/ 64` again at each layer; below `MAX_EID` the layer-2 word is one of the first four |
| Util.IndexDigits | src/lib.rs:78-83 | each layer's word position and row are the base-64 digits of the position one layer down |
| Util.OffsetsOf | src/lib.rs:89 | `id.offset(SHIFTk)` is `id` divided by 64, k times |
| Util.MasksOf | src/lib.rs:80-82 | `id.mask(SHIFTk)` selects the bit of the position `id >> SHIFTk` within its word |
| Hierarchy.EmptyHierarchical | src/lib.rs:37-40 | the all-empty layers with `layer3 == 0` satisfy the invariant and hold no index |
| Hierarchy.SummarizesUpdate | src/lib.rs:170-173 | changing a word below and only its bit above keeps the summary exact when the bit records whether the word is nonzero |
| Hierarchy.SummarizesSet | src/lib.rs:78-83 | setting a bit below and the bit of its word above keeps the summary exact |
| Hierarchy.SummarizesSetTop | src/lib.rs:82 | the same for layer 2 and the single top word |
| Hierarchy.SummarizesKeepSet | src/lib.rs:102-107 | setting a bit in a word that was already nonzero needs no change above |
| Hierarchy.SummarizesClear | src/lib.rs:134-142 | clearing the last bit of a word and the bit of that word above keeps the summary exact |
| Hierarchy.SummarizesClearTop | src/lib.rs:144-145 | the same for layer 2 and the top word |
| Hierarchy.SummarizesKeepClear | src/lib.rs:130-133 | clearing a bit in a word that stays nonzero needs no change above |
| Hierarchy.SummarizesKeep | src/lib.rs:170-173 | a word below that stays zero, or stays nonzero, needs no change above |
| Hierarchy.SummarizesGrow | src/lib.rs:67-73 | appending zero words to both layers keeps the summary exact |
| Hierarchy.SummaryBit | src/lib.rs:235-248 | read through the accessors, a summary bit is set exactly when the word below is nonzero, also past the end of either layer |
| Hierarchy.LayerView | src/lib.rs:165-193 | in a well-formed set, layers 1, 2 and 3 summarise layers 0, 1 and 2 at every position |
| Hierarchy.LengthInvariant | src/lib.rs:78-83 | when the layer-0 word of `id` exists, so do its layer-1 and layer-2 words, and its layer-3 bit is below 64 |
| Hierarchy.MemberWithBit | src/lib.rs:102 | setting the bit of `id` in layer 0 adds `id` and no other index |
| Hierarchy.MembersWithBit | src/lib.rs:102 | the same, for all indices at once |
| Hierarchy.WithBitWord | src/lib.rs:102 | setting a bit replaces the word by one that has the bit |
| Hierarchy.WithBitKeeps | src/lib.rs:95-97 | setting a bit that is already set changes nothing |
| Hierarchy.WithBitTwice | src/lib.rs:102-107 | setting the same bit twice is setting it once |
| Hierarchy.MemberWithoutBit | src/lib.rs:130 | clearing the bit of `id` in layer 0 removes `id` and no other index |
| Hierarchy.MembersWithoutBit | src/lib.rs:130 | the same, for all indices at once |
| Hierarchy.MemberZeroExtension | src/lib.rs:67-73 | zero words appended to layer 0 hold no index |
| Hierarchy.MemberInRange | src/lib.rs:26-27 | every index of a well-formed set is at most `MAX_EID` |
| Hierarchy.MemberLiftsUp | src/lib.rs:170-173 | the summary bits on the path of a member are set in layers 1, 2 and 3 |
| Hierarchy.EmptyIffTopZero | src/lib.rs:179-181 | in a well-formed set, `layer3` is zero exactly when no index is in the set |
| Hierarchy.SomeMember | src/lib.rs:195-202 | from a nonzero `layer3`, one set bit per layer leads down to an index in the set |
| Hierarchy.IndexOf | src/lib.rs:170 | bit `b` of layer-0 word `p` stands for index `64 * p + b` |
| Hierarchy.Descend | src/lib.rs:171-173 | a set bit `b` of summary word `j` names the nonzero word `64 * j + b` below |
| Hierarchy.AddFastPreserves | src/lib.rs:99-107 | `add` on a nonzero layer-0 word keeps the invariant without touching the layers above |
| Hierarchy.AddSlowPreserves | src/lib.rs:76-83 | `add` on a zero layer-0 word, followed by `add_slow`'s three writes, keeps the invariant; the words written exist |
| Hierarchy.RemoveStopsAtLayer0 | src/lib.rs:130-133 | `remove` may stop when the layer-0 word stays nonzero |
| Hierarchy.RemoveStopsAtLayer1 | src/lib.rs:135-138 | `remove` may stop when the layer-1 word stays nonzero |
| Hierarchy.RemoveStopsAtLayer2 | src/lib.rs:140-143 | `remove` may stop when the layer-2 word stays nonzero |
| Hierarchy.RemoveReachesLayer3 | src/lib.rs:144-146 | clearing all the way up to `layer3` keeps the invariant |
| Updates.MaskTest0 | src/lib.rs:151-154 | the test `contains` makes is membership in layer 0 |
| Updates.MaskSet0 | src/lib.rs:102 | `layer0[p0] \|= id.mask(SHIFT0)` sets bit `id` of layer 0 |
| Updates.MaskSet0Again | src/lib.rs:105-107 | the second `layer0[p0] \|= mask` in `add` changes nothing |
| Updates.MaskSet1 | src/lib.rs:80 | `layer1[p1] \|= id.mask(SHIFT1)` sets bit `id >> 6` of layer 1 |
| Updates.MaskSet2 | src/lib.rs:81 | `layer2[p2] \|= id.mask(SHIFT2)` sets bit `id >> 12` of layer 2 |
| Updates.MaskSet3 | src/lib.rs:82 | `layer3 \|= id.mask(SHIFT3)` sets bit `id >> 18` of the top word |
| Updates.MaskClear0 | src/lib.rs:130 | `layer0[p0] &= !id.mask(SHIFT0)` clears bit `id` of layer 0 |
| Updates.MaskClear1 | src/lib.rs:135 | `layer1[p1] &= !id.mask(SHIFT1)` clears bit `id >> 6` of layer 1 |
| Updates.MaskClear2 | src/lib.rs:140 | `layer2[p2] &= !id.mask(SHIFT2)` clears bit `id >> 12` of layer 2 |
| Updates.MaskClear3 | src/lib.rs:145 | `layer3 &= !id.mask(SHIFT3)` clears bit `id >> 18` of the top word |
| HiBitSet.FillUp | src/lib.rs:67-73 | the result reaches position `to`, never shrinks the vector, keeps its words and adds only zeros; an already long enough vector is returned as it is |
| HiBitSet.ExtendPreserves | src/lib.rs:57-65 | growing the three vectors to the words of `id` keeps the invariant and every membership |
| HiBitSet.BitSet.constructor | src/lib.rs:37-40 | `new` gives a well-formed set with empty layers and no index |
| HiBitSet.BitSet.WithCapacity | src/lib.rs:42-55 | `with_capacity(max)` needs `max <= MAX_EID` and gives an empty, well-formed set whose layers have all-zero words up to those of `max` |
| HiBitSet.BitSet.Extend | src/lib.rs:57-65 | `extend(id)` needs `id <= MAX_EID`, fills the three vectors up to the words of `id`, keeps `layer3`, the invariant and every membership |
| HiBitSet.BitSet.AddSlow | src/lib.rs:75-83 | `add_slow(id)` sets the bit of `id`'s path in layers 1, 2 and 3, and changes nothing else |
| HiBitSet.BitSet.Add | src/lib.rs:85-109 | `add(id)` answers whether `id` was present, leaves it present and every other index as it was, keeps the invariant; the new layers are the filled-up old ones with the bit of `id` set, and the summary bits on its path are set exactly when its layer-0 word was zero |
| HiBitSet.BitSet.Remove | src/lib.rs:111-147 | `remove(id)` answers whether `id` was present, leaves it absent and every other index as it was, keeps the invariant; an absent or unallocated index changes nothing; otherwise the upper layers lose the bit of `id`'s path up to the first word that stays nonzero |
| HiBitSet.BitSet.ContainsMember | src/lib.rs:149-154 | `contains(id)` is the bit of `id` in layer 0, false past the end of `layer0` |
| HiBitSet.BitSet.ContainsMembers | src/lib.rs:149-154 | the same, at every index |
| HiBitSet.BitSet.Clear | src/lib.rs:156-162 | `clear` empties every layer and sets `layer3` to 0; the set is well formed and holds no index |
| HiBitSet.BitSet.Layer2 | src/lib.rs:235-238 | `layer2(i)` is word `i` of layer 2, or 0 past its end |
| HiBitSet.BitSet.Layer1 | src/lib.rs:240-243 | `layer1(i)` is word `i` of layer 1, or 0 past its end |
| HiBitSet.BitSet.Layer0 | src/lib.rs:245-248 | `layer0(i)` is word `i` of layer 0, or 0 past its end |
| HiBitSet.BitSet.AccessorsSummarize | src/lib.rs:229-249 | through the accessors, bit `i` of layers 1, 2 and 3 is set exactly when word `i` of the layer below is nonzero |
| HiBitSet.BitSet.EmptyIffLayer3Zero | src/lib.rs:179-181 | the set is empty exactly when `layer3()` is 0 |
| HiBitSet.InsertScenario | src/lib.rs:255-266 | adding each of `0..n` answers false, adding it again answers true, and the set ends holding exactly `0..n` |
| HiBitSet.RemoveScenario | src/lib.rs:281-293 | after adding `0..n`, each index is present, removing it answers true, it is then absent, a second removal answers false; the set ends empty with `layer3() == 0` |

## Left out

- `AtomicBitSet` (re-exported at src/lib.rs:16) is not part of this model. It is a separate fixed-capacity set with its own atomic layer words, meant for lock-free concurrent mutation, and its code is not in src/lib.rs.
- `BitIter` (src/lib.rs:17) and the `BitSetAnd`/`BitSetOr`/`BitSetNot` combinators (src/lib.rs:18) are not part of this model. Each reads a set only through the accessors modelled here.
- The `BitSetLike for &T` forwarding (src/lib.rs:205-227) is left out. It only delegates to the accessors.
- The `iter` method of the trait (src/lib.rs:195-202) is left out with `BitIter`; `Hierarchy.SomeMember` shows the descent it relies on.
- Panics become preconditions. `valid_range` panics when an index exceeds `MAX_EID`, so `extend` and `with_capacity` require `id <= MAX_EID`, and `add` requires it when it has to extend. Indexing a missing word in `add_slow` becomes its precondition on the lengths.
- The platform word width is fixed at 64 bits (`usize` on a 64-bit target), so this model's `BITS` is 6. A build with 32-bit words is not modelled.
- The text of the crate's `util` module is not part of this model. util.dfy reconstructs `offsets`, `offset`, `mask` and the constants as described above.
- `Vec` allocation, capacity and reallocation are not modelled. A vector is a sequence, and `resize(to + 1, 0)` appends zero words.
- `fill_up` mutates its vector argument in place. Here it is the function `FillUp`, whose result `Extend` stores back into the field.
- `x &= !m` is modelled as `AndNot(x, m)`. `!m` on its own, the 64-bit complement, is never used apart from that and is not modelled separately.
- The derives (`Clone`, `Debug`, `Default`) are left out. `Default` is the `new` constructor.
- The `#[inline]` and `#[inline(never)]` attributes are left out. They affect only performance. The split into `add` and `add_slow` is modelled: `Add` calls `AddSlow` only when the old layer-0 word was 0.
- HiBitSet.BitSet.Layer3: no contract of its own, because it only returns the field; what the top word means is stated by `AccessorsSummarize` and `EmptyIffLayer3Zero`.
