/**
 * Single machine words used as bit vectors: the `usize` words every layer of
 * the hierarchy is made of, fixed here at 64 bits.
 *
 * A word is the number it represents, below 2^64. Bit `k` of a word is the
 * k-th binary digit, and `|`, `&` and `& !` are defined digit by digit from
 * the lowest one. Everything about individual bits is proved in this module;
 * the layers above use the contracts of `SetBit`, `ClearBit`, `MaskTest`,
 * `SetIdempotent` and `LowestSetBit`.
 */
module Bits {
  /** Number of bits in a word. */
  const WORD_BITS: nat := 64

  /** A machine word (`usize` on a 64-bit target). */
  type Word = w: nat | w < 0x1_0000_0000_0000_0000

  /** A bit position inside a word. */
  type Pos = k: nat | k < WORD_BITS

  /** `2^n`. */
  function Pow2(n: nat): (r: nat)
    ensures r > 0
  {
    if n == 0 then 1 else 2 * Pow2(n - 1)
  }

  /** A word has 64 bits: `2^64` is one past the largest word. */
  lemma Pow2Word()
    ensures Pow2(WORD_BITS) == 0x1_0000_0000_0000_0000
  {
    Pow2Add(32, 32);
    Pow2HalfWord();
  }

  /** `2^32`. */
  lemma Pow2HalfWord()
    ensures Pow2(32) == 0x1_0000_0000
  {
    Pow2Add(16, 16);
    Pow2QuarterWord();
  }

  /** `2^16`. */
  lemma Pow2QuarterWord()
    ensures Pow2(16) == 0x1_0000
  {
    assert Pow2(4) == 16;
    Pow2Add(4, 4);
    Pow2Add(8, 8);
  }

  /** `2^(a + b) == 2^a * 2^b`. */
  lemma {:induction false} Pow2Add(a: nat, b: nat)
    ensures Pow2(a + b) == Pow2(a) * Pow2(b)
  {
    if a > 0 {
      Pow2Add(a - 1, b);
    }
  }

  /** Powers of two grow with the exponent. */
  lemma {:induction false} Pow2Below(k: nat, n: nat)
    requires k < n
    ensures Pow2(k) < Pow2(n)
  {
    if k + 1 < n {
      Pow2Below(k, n - 1);
    }
  }

  /** `n & 63`: the position of number `n` within its word. */
  function Lo(n: nat): Pos
  {
    n % WORD_BITS
  }

  /** Whether bit `k` of `w` is set: `(w >> k) & 1 == 1`. */
  predicate Bit(w: nat, k: nat)
  {
    if k == 0 then w % 2 == 1 else Bit(w / 2, k - 1)
  }

  /** `1 << k`. */
  function BitMask(k: Pos): Word
  {
    Pow2Word();
    Pow2Below(k, WORD_BITS);
    Pow2(k)
  }

  /** `a | b` on numbers of any size, digit by digit. */
  function OrBits(a: nat, b: nat): nat
    decreases a + b
  {
    if a == 0 && b == 0 then 0
    else 2 * OrBits(a / 2, b / 2) + (if a % 2 == 1 || b % 2 == 1 then 1 else 0)
  }

  /** Or-ing two numbers below `2^n` gives a number below `2^n`. */
  lemma {:induction false} OrBelow(a: nat, b: nat, n: nat)
    requires a < Pow2(n) && b < Pow2(n)
    ensures OrBits(a, b) < Pow2(n)
    decreases n
  {
    if n > 0 && !(a == 0 && b == 0) {
      OrBelow(a / 2, b / 2, n - 1);
    }
  }

  /** `a | b` on words. */
  function Or(a: Word, b: Word): Word
  {
    Pow2Word();
    OrBelow(a, b, WORD_BITS);
    OrBits(a, b)
  }

  /** `a & b`: the result never exceeds `a`. */
  function And(a: Word, b: Word): (r: Word)
    ensures r <= a
    decreases a
  {
    if a == 0 then 0
    else 2 * And(a / 2, b / 2) + (if a % 2 == 1 && b % 2 == 1 then 1 else 0)
  }

  /** `a & !m`: the bits of `a` outside `m`; the result never exceeds `a`. */
  function AndNot(a: Word, m: Word): (r: Word)
    ensures r <= a
    decreases a
  {
    if a == 0 then 0
    else 2 * AndNot(a / 2, m / 2) + (if a % 2 == 1 && m % 2 == 0 then 1 else 0)
  }

  /** The zero word has no bit set. */
  lemma {:induction false} ZeroHasNoBit(k: nat)
    ensures !Bit(0, k)
  {
    if k > 0 {
      ZeroHasNoBit(k - 1);
    }
  }

  /** A number with a bit set is nonzero. */
  lemma BitNonzero(w: nat, k: nat)
    requires Bit(w, k)
    ensures w != 0
  {
  }

  /** `2^j` has bit `j` and no other. */
  lemma {:induction false} BitOfPow2(j: nat, k: nat)
    ensures Bit(Pow2(j), k) <==> j == k
  {
    if j > 0 && k > 0 {
      BitOfPow2(j - 1, k - 1);
    } else if k > 0 {
      ZeroHasNoBit(k - 1);
    }
  }

  /** A bit of `a | b` is set exactly when it is set in `a` or in `b`. */
  lemma {:induction false} BitOr(a: nat, b: nat, k: nat)
    ensures Bit(OrBits(a, b), k) <==> Bit(a, k) || Bit(b, k)
  {
    if a == 0 && b == 0 {
      ZeroHasNoBit(k);
    } else if k > 0 {
      BitOr(a / 2, b / 2, k - 1);
    }
  }

  /** A bit of `a & b` is set exactly when it is set in both. */
  lemma {:induction false} BitAnd(a: Word, b: Word, k: nat)
    ensures Bit(And(a, b), k) <==> Bit(a, k) && Bit(b, k)
  {
    if a == 0 {
      ZeroHasNoBit(k);
    } else if k > 0 {
      BitAnd(a / 2, b / 2, k - 1);
    }
  }

  /** A bit of `a & !m` is set exactly when it is set in `a` and clear in `m`. */
  lemma {:induction false} BitAndNot(a: Word, m: Word, k: nat)
    ensures Bit(AndNot(a, m), k) <==> Bit(a, k) && !Bit(m, k)
  {
    if a == 0 {
      ZeroHasNoBit(k);
    } else if k > 0 {
      BitAndNot(a / 2, m / 2, k - 1);
    }
  }

  /** `w & (1 << k) != 0` tests bit `k` of `w`. */
  lemma {:induction false} MaskTest(w: Word, k: Pos)
    ensures And(w, BitMask(k)) != 0 <==> Bit(w, k)
  {
    var r := And(w, BitMask(k));
    BitAnd(w, BitMask(k), k);
    BitOfPow2(k, k);
    if r != 0 {
      var n := LowestSetBit(r);
      BitAnd(w, BitMask(k), n);
      BitOfPow2(k, n);
    } else {
      ZeroHasNoBit(k);
    }
  }

  /** `w | (1 << k)`: bit `k` is set afterwards, no other bit changes, and the word is nonzero. */
  lemma SetBit(w: Word, k: Pos) returns (r: Word)
    ensures r == Or(w, BitMask(k))
    ensures Bit(r, k) && r != 0
    ensures forall j: Pos :: j != k ==> Bit(r, j) == Bit(w, j)
  {
    r := Or(w, BitMask(k));
    BitOr(w, BitMask(k), k);
    BitOfPow2(k, k);
    BitNonzero(r, k);
    forall j: Pos | j != k
      ensures Bit(r, j) == Bit(w, j)
    {
      BitOr(w, BitMask(k), j);
      BitOfPow2(k, j);
    }
  }

  /** `w & !(1 << k)`: bit `k` is clear afterwards and no other bit changes. */
  lemma ClearBit(w: Word, k: Pos) returns (r: Word)
    ensures r == AndNot(w, BitMask(k))
    ensures !Bit(r, k)
    ensures forall j: Pos :: j != k ==> Bit(r, j) == Bit(w, j)
  {
    r := AndNot(w, BitMask(k));
    BitAndNot(w, BitMask(k), k);
    BitOfPow2(k, k);
    forall j: Pos | j != k
      ensures Bit(r, j) == Bit(w, j)
    {
      BitAndNot(w, BitMask(k), j);
      BitOfPow2(k, j);
    }
  }

  /** Or-ing in zero changes nothing. */
  lemma {:induction false} OrZero(w: nat)
    ensures OrBits(w, 0) == w
  {
    if w != 0 {
      OrZero(w / 2);
    }
  }

  /** Setting a bit that is already set changes nothing. */
  lemma {:induction false} SetIdempotent(w: nat, k: nat)
    requires Bit(w, k)
    ensures OrBits(w, Pow2(k)) == w
  {
    BitNonzero(w, k);
    if k == 0 {
      OrZero(w / 2);
    } else {
      SetIdempotent(w / 2, k - 1);
    }
  }

  /**
   * A nonzero word has a set bit: the lowest one. The descent from a nonzero
   * `layer3` to an index in the set takes one such bit per layer.
   */
  lemma LowestSetBit(w: Word) returns (k: Pos)
    requires w != 0
    ensures Bit(w, k)
    ensures forall j: nat :: j < k ==> !Bit(w, j)
  {
    Pow2Word();
    k := LowestBitBelow(w, WORD_BITS);
  }

  /** A nonzero number below `2^n` has its lowest set bit below `n`. */
  lemma {:induction false} LowestBitBelow(w: nat, n: nat) returns (k: nat)
    requires 0 < w < Pow2(n)
    ensures k < n && Bit(w, k)
    ensures forall j: nat :: j < k ==> !Bit(w, j)
  {
    if w % 2 == 1 {
      k := 0;
    } else {
      var i := LowestBitBelow(w / 2, n - 1);
      k := i + 1;
      forall j: nat | j < k
        ensures !Bit(w, j)
      {
        if j > 0 {
          assert !Bit(w / 2, j - 1);
        }
      }
    }
  }
}
