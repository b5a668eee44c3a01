/**
 * Unsigned machine words as natural numbers.
 *
 * A W-bit value of the C++ sources (std::uint8_t ... std::uint64_t) is a
 * `nat` below Pow2(W).  The operators `&`, `|`, `^`, `<<` on such values are
 * defined here bit by bit (least significant bit first), and `Bit(x, i)` reads
 * bit i.  Everything the term algebra needs about these operators is proved
 * here once, position by position, and then carried over to whole words by
 * the extensionality lemma `BitsEqual`.
 */
module Bits {

  /** The widths of the unsigned types the sources are instantiated with (8, 16, 32 and 64 bits). */
  type Width = w: nat | w == 8 || w == 16 || w == 32 || w == 64 witness 8

  function Pow2(n: nat): (r: nat)
    ensures r >= 1
  {
    if n == 0 then 1 else 2 * Pow2(n - 1)
  }

  /** The value has the width of an unsigned W-bit integer type. */
  predicate IsWord(w: nat, x: int)
  {
    0 <= x < Pow2(w)
  }

  /** Bit i of x; bit 0 is the least significant one. */
  predicate Bit(x: nat, i: nat)
  {
    if i == 0 then x % 2 == 1 else Bit(x / 2, i - 1)
  }

  /** x & y */
  function And(x: nat, y: nat): nat
    decreases x + y
  {
    if x == 0 && y == 0 then 0
    else (if x % 2 == 1 && y % 2 == 1 then 1 else 0) + 2 * And(x / 2, y / 2)
  }

  /** x | y */
  function Or(x: nat, y: nat): nat
    decreases x + y
  {
    if x == 0 && y == 0 then 0
    else (if x % 2 == 1 || y % 2 == 1 then 1 else 0) + 2 * Or(x / 2, y / 2)
  }

  /** x ^ y */
  function Xor(x: nat, y: nat): nat
    decreases x + y
  {
    if x == 0 && y == 0 then 0
    else (if x % 2 != y % 2 then 1 else 0) + 2 * Xor(x / 2, y / 2)
  }

  /** x << s (no truncation: the callers only shift inside the width) */
  function Shl(x: nat, s: nat): nat
  {
    if s == 0 then x else 2 * Shl(x, s - 1)
  }

  /** The number of set bits. */
  function PopCount(x: nat): nat
  {
    if x == 0 then 0 else x % 2 + PopCount(x / 2)
  }

  /** The position of the lowest set bit of a non-zero value. */
  function LowestSetBit(x: nat): nat
    requires x > 0
  {
    if x % 2 == 1 then 0 else 1 + LowestSetBit(x / 2)
  }

  /** The number of set bits of x among the positions below k, counted position by position. */
  function CountBitsBelow(x: nat, k: nat): nat
  {
    if k == 0 then 0 else CountBitsBelow(x, k - 1) + (if Bit(x, k - 1) then 1 else 0)
  }

  /** The number of clear bits of x among the positions below k. */
  function ZerosBelow(x: nat, k: nat): nat
  {
    if k == 0 then 0 else ZerosBelow(x, k - 1) + (if Bit(x, k - 1) then 0 else 1)
  }

  /** The number of positions below k at which x and y differ. */
  function CountDiffering(x: nat, y: nat, k: nat): nat
  {
    if k == 0 then 0 else CountDiffering(x, y, k - 1) + (if Bit(x, k - 1) != Bit(y, k - 1) then 1 else 0)
  }

  // ---------------------------------------------------------------------
  // Reading single bits

  lemma BitZero(i: nat)
    ensures !Bit(0, i)
  {
  }

  lemma {:induction false} BitHalf(x: nat, i: nat)
    ensures Bit(x / 2, i) == Bit(x, i + 1)
  {
  }

  lemma {:induction false} BitPow2(p: nat, i: nat)
    ensures Bit(Pow2(p), i) <==> i == p
  {
    if p == 0 {
      if i > 0 {
        BitZero(i - 1);
      }
    } else if i > 0 {
      BitPow2(p - 1, i - 1);
    }
  }

  /** A word has no bit at or above its width. */
  lemma {:induction false} BitAbove(w: nat, x: nat, i: nat)
    requires IsWord(w, x) && i >= w
    ensures !Bit(x, i)
  {
    if w == 0 {
      BitZero(i);
    } else {
      BitAbove(w - 1, x / 2, i - 1);
    }
  }

  /** Two naturals with the same bits are equal. */
  lemma {:induction false} BitsEqual(x: nat, y: nat)
    requires forall i: nat :: Bit(x, i) == Bit(y, i)
    ensures x == y
    decreases x + y
  {
    if x != 0 || y != 0 {
      assert Bit(x, 0) == Bit(y, 0);
      forall i: nat
        ensures Bit(x / 2, i) == Bit(y / 2, i)
      {
        assert Bit(x, i + 1) == Bit(y, i + 1);
      }
      BitsEqual(x / 2, y / 2);
    }
  }

  /** Two words of one width with the same bits below that width are equal. */
  lemma WordsEqual(w: nat, x: nat, y: nat)
    requires IsWord(w, x) && IsWord(w, y)
    requires forall i: nat :: i < w ==> Bit(x, i) == Bit(y, i)
    ensures x == y
  {
    forall i: nat
      ensures Bit(x, i) == Bit(y, i)
    {
      if i >= w {
        BitAbove(w, x, i);
        BitAbove(w, y, i);
      }
    }
    BitsEqual(x, y);
  }

  /** A natural with no bit at or above w is a w-bit word. */
  lemma {:induction false} WordOfBits(w: nat, x: nat)
    requires forall i: nat :: i >= w ==> !Bit(x, i)
    ensures IsWord(w, x)
  {
    if w == 0 {
      forall i: nat
        ensures Bit(x, i) == Bit(0, i)
      {
        BitZero(i);
      }
      BitsEqual(x, 0);
    } else {
      forall i: nat | i >= w - 1
        ensures !Bit(x / 2, i)
      {
        BitHalf(x, i);
      }
      WordOfBits(w - 1, x / 2);
    }
  }

  // ---------------------------------------------------------------------
  // The operators, bit by bit

  lemma {:induction false} BitAnd(x: nat, y: nat, i: nat)
    ensures Bit(And(x, y), i) == (Bit(x, i) && Bit(y, i))
    decreases i
  {
    if x == 0 && y == 0 {
      BitZero(i);
    } else if i > 0 {
      BitAnd(x / 2, y / 2, i - 1);
    }
  }

  lemma {:induction false} BitOr(x: nat, y: nat, i: nat)
    ensures Bit(Or(x, y), i) == (Bit(x, i) || Bit(y, i))
    decreases i
  {
    if x == 0 && y == 0 {
      BitZero(i);
    } else if i > 0 {
      BitOr(x / 2, y / 2, i - 1);
    }
  }

  lemma {:induction false} BitXor(x: nat, y: nat, i: nat)
    ensures Bit(Xor(x, y), i) == (Bit(x, i) != Bit(y, i))
    decreases i
  {
    if x == 0 && y == 0 {
      BitZero(i);
    } else if i > 0 {
      BitXor(x / 2, y / 2, i - 1);
    }
  }

  lemma {:induction false} BitShl(x: nat, s: nat, i: nat)
    ensures Bit(Shl(x, s), i) == (i >= s && Bit(x, i - s))
  {
    if s > 0 {
      if i == 0 {
      } else {
        BitShl(x, s - 1, i - 1);
      }
    }
  }

  lemma {:induction false} ShlOne(s: nat)
    ensures Shl(1, s) == Pow2(s)
  {
    if s > 0 {
      ShlOne(s - 1);
    }
  }

  lemma AndBits(x: nat, y: nat)
    ensures forall i: nat :: Bit(And(x, y), i) == (Bit(x, i) && Bit(y, i))
  {
    forall i: nat
      ensures Bit(And(x, y), i) == (Bit(x, i) && Bit(y, i))
    {
      BitAnd(x, y, i);
    }
  }

  lemma OrBits(x: nat, y: nat)
    ensures forall i: nat :: Bit(Or(x, y), i) == (Bit(x, i) || Bit(y, i))
  {
    forall i: nat
      ensures Bit(Or(x, y), i) == (Bit(x, i) || Bit(y, i))
    {
      BitOr(x, y, i);
    }
  }

  lemma XorBits(x: nat, y: nat)
    ensures forall i: nat :: Bit(Xor(x, y), i) == (Bit(x, i) != Bit(y, i))
  {
    forall i: nat
      ensures Bit(Xor(x, y), i) == (Bit(x, i) != Bit(y, i))
    {
      BitXor(x, y, i);
    }
  }

  /** `&`, `|` and `^` of two W-bit words are W-bit words. */
  lemma OpsAreWords(w: nat, x: nat, y: nat)
    requires IsWord(w, x) && IsWord(w, y)
    ensures IsWord(w, And(x, y)) && IsWord(w, Or(x, y)) && IsWord(w, Xor(x, y))
  {
    forall i: nat | i >= w
      ensures !Bit(And(x, y), i) && !Bit(Or(x, y), i) && !Bit(Xor(x, y), i)
    {
      BitAbove(w, x, i);
      BitAbove(w, y, i);
      BitAnd(x, y, i);
      BitOr(x, y, i);
      BitXor(x, y, i);
    }
    WordOfBits(w, And(x, y));
    WordOfBits(w, Or(x, y));
    WordOfBits(w, Xor(x, y));
  }

  lemma AndCommutes(x: nat, y: nat)
    ensures And(x, y) == And(y, x)
  {
    AndBits(x, y);
    AndBits(y, x);
    BitsEqual(And(x, y), And(y, x));
  }

  lemma XorCommutes(x: nat, y: nat)
    ensures Xor(x, y) == Xor(y, x)
  {
    XorBits(x, y);
    XorBits(y, x);
    BitsEqual(Xor(x, y), Xor(y, x));
  }

  // ---------------------------------------------------------------------
  // Population count

  lemma {:induction false} PopCountWord(w: nat, x: nat)
    requires IsWord(w, x)
    ensures PopCount(x) <= w
  {
    if w > 0 && x > 0 {
      PopCountWord(w - 1, x / 2);
    }
  }

  lemma {:induction false} PopCountZero(x: nat)
    ensures PopCount(x) == 0 <==> x == 0
  {
    if x > 0 && x % 2 == 0 {
      PopCountZero(x / 2);
    }
  }

  lemma {:induction false} CountBitsBelowStep(x: nat, k: nat)
    ensures CountBitsBelow(x, k + 1) == x % 2 + CountBitsBelow(x / 2, k)
  {
    if k > 0 {
      CountBitsBelowStep(x, k - 1);
      BitHalf(x, k - 1);
    }
  }

  /** The recursive count equals the position-by-position count over the whole width. */
  lemma {:induction false} PopCountCountsPositions(w: nat, x: nat)
    requires IsWord(w, x)
    ensures PopCount(x) == CountBitsBelow(x, w)
  {
    if w > 0 {
      PopCountCountsPositions(w - 1, x / 2);
      CountBitsBelowStep(x, w - 1);
    }
  }

  lemma {:induction false} CountBitsBelowPointwise(x: nat, y: nat, k: nat)
    requires forall i: nat :: i < k ==> Bit(x, i) == Bit(y, i)
    ensures CountBitsBelow(x, k) == CountBitsBelow(y, k)
  {
    if k > 0 {
      CountBitsBelowPointwise(x, y, k - 1);
    }
  }

  lemma {:induction false} CountDifferingIsXor(x: nat, y: nat, k: nat)
    ensures CountDiffering(x, y, k) == CountBitsBelow(Xor(x, y), k)
  {
    if k > 0 {
      CountDifferingIsXor(x, y, k - 1);
      BitXor(x, y, k - 1);
    }
  }

  /** popcount(x ^ y) counts the positions where x and y differ. */
  lemma PopCountXorCountsDifferences(w: nat, x: nat, y: nat)
    requires IsWord(w, x) && IsWord(w, y)
    ensures PopCount(Xor(x, y)) == CountDiffering(x, y, w)
  {
    OpsAreWords(w, x, y);
    PopCountCountsPositions(w, Xor(x, y));
    CountDifferingIsXor(x, y, w);
  }

  /** popcount(x ^ y) + 2 popcount(x & y) == popcount(x) + popcount(y) */
  lemma {:induction false} PopCountXorAnd(x: nat, y: nat)
    ensures PopCount(Xor(x, y)) + 2 * PopCount(And(x, y)) == PopCount(x) + PopCount(y)
    decreases x + y
  {
    if x != 0 || y != 0 {
      PopCountXorAnd(x / 2, y / 2);
      var c := if x % 2 != y % 2 then 1 else 0;
      var a := if x % 2 == 1 && y % 2 == 1 then 1 else 0;
      assert Xor(x, y) == c + 2 * Xor(x / 2, y / 2);
      assert And(x, y) == a + 2 * And(x / 2, y / 2);
      PopCountStep(c, Xor(x / 2, y / 2));
      PopCountStep(a, And(x / 2, y / 2));
      PopCountStep(x % 2, x / 2);
      PopCountStep(y % 2, y / 2);
    }
  }

  lemma PopCountStep(b: nat, z: nat)
    requires b < 2
    ensures PopCount(b + 2 * z) == b + PopCount(z)
  {
  }

  /** popcount(x & y) <= popcount(y), with equality exactly when y's bits all lie in x. */
  lemma {:induction false} PopCountAndLe(x: nat, y: nat)
    ensures PopCount(And(x, y)) <= PopCount(y)
    ensures PopCount(And(x, y)) == PopCount(y) <==> And(x, y) == y
    decreases x + y
  {
    if x != 0 || y != 0 {
      PopCountAndLe(x / 2, y / 2);
      var a := if x % 2 == 1 && y % 2 == 1 then 1 else 0;
      assert And(x, y) == a + 2 * And(x / 2, y / 2);
      PopCountStep(a, And(x / 2, y / 2));
      PopCountStep(y % 2, y / 2);
    }
  }

  lemma PopCountDouble(z: nat)
    ensures PopCount(2 * z) == PopCount(z)
  {
    PopCountStep(0, z);
  }

  lemma {:induction false} PopCountPow2(p: nat)
    ensures PopCount(Pow2(p)) == 1
  {
    if p > 0 {
      PopCountPow2(p - 1);
      PopCountDouble(Pow2(p - 1));
    }
  }

  lemma {:induction false} LowestSetBitIsSet(x: nat)
    requires x > 0
    ensures Bit(x, LowestSetBit(x))
    ensures forall i: nat :: i < LowestSetBit(x) ==> !Bit(x, i)
  {
    if x % 2 == 0 {
      LowestSetBitIsSet(x / 2);
      forall i: nat | i < LowestSetBit(x)
        ensures !Bit(x, i)
      {
        if i > 0 {
          BitHalf(x, i - 1);
        }
      }
    }
  }

  /** A value with exactly one set bit is the power of two at that bit. */
  lemma {:induction false} PopCountOne(x: nat)
    ensures PopCount(x) == 1 <==> x > 0 && x == Pow2(LowestSetBit(x))
  {
    if x > 0 {
      if x % 2 == 1 {
        PopCountZero(x / 2);
      } else {
        PopCountOne(x / 2);
      }
      if x == Pow2(LowestSetBit(x)) {
        PopCountPow2(LowestSetBit(x));
      }
    }
  }

  /** x & (x - 1) clears exactly the lowest set bit of a non-zero x. */
  lemma {:induction false} ClearLowestSetBit(x: nat)
    requires x > 0
    ensures And(x, x - 1) == x - Pow2(LowestSetBit(x))
    ensures PopCount(And(x, x - 1)) == PopCount(x) - 1
  {
    if x % 2 == 1 {
      assert x == 1 + 2 * (x / 2) && (x - 1) / 2 == x / 2;
      AndSelf(x / 2);
      assert And(x, x - 1) == 2 * And(x / 2, (x - 1) / 2);
      PopCountStep(0, x / 2);
      PopCountStep(1, x / 2);
    } else {
      assert x == 0 + 2 * (x / 2) && (x - 1) / 2 == x / 2 - 1;
      ClearLowestSetBit(x / 2);
      assert Pow2(LowestSetBit(x)) == 2 * Pow2(LowestSetBit(x / 2));
      assert And(x, x - 1) == 2 * And(x / 2, x / 2 - 1);
      PopCountStep(0, And(x / 2, x / 2 - 1));
      PopCountStep(0, x / 2);
    }
  }

  lemma {:induction false} AndSelf(x: nat)
    ensures And(x, x) == x
  {
    if x > 0 {
      AndSelf(x / 2);
    }
  }

  /** Setting the bits of d where x has none adds d to x. */
  lemma {:induction false} OrDisjoint(x: nat, d: nat)
    requires And(x, d) == 0
    ensures Or(x, d) == x + d
    decreases x + d
  {
    if x != 0 || d != 0 {
      assert And(x, d) == (if x % 2 == 1 && d % 2 == 1 then 1 else 0) + 2 * And(x / 2, d / 2);
      OrDisjoint(x / 2, d / 2);
    }
  }

  lemma {:induction false} AndZero(y: nat)
    ensures And(0, y) == 0
  {
    if y > 0 {
      AndZero(y / 2);
    }
  }

  /** 2^w - 1 has exactly the bits below w set. */
  lemma {:induction false} AllOnesBits(w: nat, i: nat)
    ensures Bit(Pow2(w) - 1, i) <==> i < w
  {
    if w == 0 {
      BitZero(i);
    } else if i > 0 {
      assert (Pow2(w) - 1) / 2 == Pow2(w - 1) - 1;
      AllOnesBits(w - 1, i - 1);
    }
  }

  /** 2^i is a w-bit word when i < w. */
  lemma Pow2Word(w: nat, i: nat)
    requires i < w
    ensures IsWord(w, Pow2(i))
  {
    forall q: nat | q >= w
      ensures !Bit(Pow2(i), q)
    {
      BitPow2(i, q);
    }
    WordOfBits(w, Pow2(i));
  }

  /** `x & (1 << p)` is non-zero exactly when bit p of x is set. */
  lemma AndPow2(x: nat, p: nat)
    ensures And(x, Pow2(p)) != 0 <==> Bit(x, p)
  {
    AndBits(x, Pow2(p));
    BitPow2(p, p);
    BitZero(p);
    if !Bit(x, p) {
      forall q: nat
        ensures Bit(And(x, Pow2(p)), q) == Bit(0, q)
      {
        BitPow2(p, q);
        BitZero(q);
      }
      BitsEqual(And(x, Pow2(p)), 0);
    }
  }
}
