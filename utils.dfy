/**
 * The bit utilities of Src/utils.hpp (whose first 78 lines are also
 * Src/popcount.hpp, word for word): the population count with its portable
 * fallback loop and its per-compiler dispatch, and the helpers `not_`, `xor_`,
 * `and_`, `_or` that give the result of a bitwise operator in the type of the
 * first operand instead of the promoted `int`.
 */
module Utils {
  import opened Bits

  /** Conversion of an integer to the unsigned W-bit type: reduction modulo 2^W. */
  function Truncate(w: nat, v: int): (r: nat)
    ensures IsWord(w, r)
    ensures IsWord(w, v) ==> r == v
  {
    var d := Pow2(w);
    ModRange(v, d);
    v % d
  }

  lemma ModRange(v: int, d: int)
    requires d > 0
    ensures 0 <= v % d < d
    ensures 0 <= v < d ==> v % d == v
  {
  }

  /**
   * not_(x): `~x` is computed on the promoted operand (for the narrow types
   * an `int`, where `~x == -x - 1`) and cast back to the operand's type.
   * For the 32- and 64-bit types there is no promotion, and the complement
   * inside the type gives the same value.
   */
  function NotW(w: nat, x: nat): (r: nat)
    requires IsWord(w, x)
    ensures IsWord(w, r)
    ensures r == Pow2(w) - 1 - x
    ensures forall i: nat :: Bit(r, i) == (i < w && !Bit(x, i))
  {
    var r := Truncate(w, -(x as int) - 1);
    assert r == Pow2(w) - 1 - x by {
      ModOfNegative(-(x as int) - 1, Pow2(w));
    }
    ComplementBits(w, x, r);
    r
  }

  lemma ModOfNegative(v: int, d: int)
    requires d > 0 && -d <= v < 0
    ensures v % d == v + d
  {
  }

  lemma {:induction false} ComplementBits(w: nat, x: nat, y: nat)
    requires IsWord(w, x) && y == Pow2(w) - 1 - x
    ensures forall i: nat :: Bit(y, i) == (i < w && !Bit(x, i))
  {
    if w == 0 {
      forall i: nat
        ensures !Bit(0, i)
      {
        BitZero(i);
      }
    } else {
      assert y / 2 == Pow2(w - 1) - 1 - x / 2;
      ComplementBits(w - 1, x / 2, y / 2);
      forall i: nat
        ensures Bit(y, i) == (i < w && !Bit(x, i))
      {
        if i > 0 {
          BitHalf(y, i - 1);
          BitHalf(x, i - 1);
        }
      }
    }
  }

  /** xor_(lhs, rhs): the second operand is converted to the first one's type, and so is the result. */
  function XorW(w: nat, lhs: nat, rhs: int): (r: nat)
    requires IsWord(w, lhs)
    ensures IsWord(w, r)
    ensures forall i: nat :: Bit(r, i) == (Bit(lhs, i) != Bit(Truncate(w, rhs), i))
  {
    OpsAreWords(w, lhs, Truncate(w, rhs));
    XorBits(lhs, Truncate(w, rhs));
    Truncate(w, Xor(lhs, Truncate(w, rhs)))
  }

  /** and_(lhs, rhs) */
  function AndW(w: nat, lhs: nat, rhs: int): (r: nat)
    requires IsWord(w, lhs)
    ensures IsWord(w, r)
    ensures forall i: nat :: Bit(r, i) == (Bit(lhs, i) && Bit(Truncate(w, rhs), i))
  {
    OpsAreWords(w, lhs, Truncate(w, rhs));
    AndBits(lhs, Truncate(w, rhs));
    Truncate(w, And(lhs, Truncate(w, rhs)))
  }

  /** _or(lhs, rhs) */
  function OrW(w: nat, lhs: nat, rhs: int): (r: nat)
    requires IsWord(w, lhs)
    ensures IsWord(w, r)
    ensures forall i: nat :: Bit(r, i) == (Bit(lhs, i) || Bit(Truncate(w, rhs), i))
  {
    OpsAreWords(w, lhs, Truncate(w, rhs));
    OrBits(lhs, Truncate(w, rhs));
    Truncate(w, Or(lhs, Truncate(w, rhs)))
  }

  /** On two operands of the same type the helpers are the plain operators. */
  lemma HelpersOnWords(w: nat, x: nat, y: nat)
    requires IsWord(w, x) && IsWord(w, y)
    ensures XorW(w, x, y) == Xor(x, y)
    ensures AndW(w, x, y) == And(x, y)
    ensures OrW(w, x, y) == Or(x, y)
  {
    OpsAreWords(w, x, y);
  }

  /** A negative argument converted to the unsigned type keeps its low W bits: `v + 2^W`. */
  lemma TruncateNegative(w: nat, v: int)
    requires -(Pow2(w) as int) <= v < 0
    ensures Truncate(w, v) == v + Pow2(w)
  {
    ModOfNegative(v, Pow2(w));
  }

  /**
   * detail::_fallback_popcount for an unsigned type: Kernighan's loop, where
   * each `value &= value - 1` clears the lowest set bit.
   */
  method FallbackPopCount(w: Width, value: nat) returns (count: int)
    requires IsWord(w, value)
    ensures count == PopCount(value)
    ensures 0 <= count <= w
  {
    var v := value;
    count := 0;
    while v != 0
      invariant count >= 0
      invariant count + PopCount(v) == PopCount(value)
      decreases v
    {
      ClearLowestSetBit(v);
      v := And(v, v - 1);
      count := count + 1;
    }
    PopCountWord(w, value);
  }

  /** The value of a signed W-bit type. */
  predicate IsSignedWord(w: nat, x: int)
  {
    w > 0 && -(Pow2(w - 1) as int) <= x < Pow2(w - 1)
  }

  /**
   * detail::_fallback_popcount for a signed type, and the signed branch of
   * `popcount`: the argument is cast to the unsigned type of the same width
   * and its bits are counted.
   */
  method FallbackPopCountSigned(w: Width, value: int) returns (count: int)
    requires IsSignedWord(w, value)
    ensures count == PopCount(Truncate(w, value))
    ensures 0 <= count <= w
  {
    count := FallbackPopCount(w, Truncate(w, value));
  }

  /** The count of a negative signed value, through its two's complement pattern. */
  lemma SignedNegativeCount(w: Width, value: int)
    requires IsSignedWord(w, value) && value < 0
    ensures PopCount(Truncate(w, value)) == w - PopCount(-value - 1)
  {
    TruncateNegative(w, value);
    assert Truncate(w, value) == NotW(w, -value - 1);
    PopCountOfComplement(w, -value - 1);
  }

  /** Complementing a W-bit word turns its k set bits into W - k. */
  lemma PopCountOfComplement(w: nat, x: nat)
    requires IsWord(w, x)
    ensures PopCount(NotW(w, x)) == w - PopCount(x)
  {
    var y := NotW(w, x);
    PopCountCountsPositions(w, x);
    PopCountCountsPositions(w, y);
    CountOfComplement(w, x, y, w);
  }

  lemma {:induction false} CountOfComplement(w: nat, x: nat, y: nat, k: nat)
    requires k <= w
    requires forall i: nat :: i < w ==> Bit(y, i) == !Bit(x, i)
    ensures CountBitsBelow(y, k) == k - CountBitsBelow(x, k)
  {
    if k > 0 {
      CountOfComplement(w, x, y, k - 1);
    }
  }

  /** The compilers whose intrinsics `popcount` selects. */
  datatype Toolchain = Msvc | GccOrClang | OtherCompiler

  /**
   * The width of the parameter of the intrinsic that `popcount` selects for
   * an unsigned W-bit argument: `__popcnt16`, `__popcnt`, `__popcnt64` under
   * MSVC; `__builtin_popcount` (unsigned int), `__builtin_popcountl`
   * (unsigned long, 64 bits on an LP64 target) and `__builtin_popcountll`
   * under GCC and Clang.  Other compilers call the fallback loop on the
   * argument's own type.
   */
  function IntrinsicWidth(c: Toolchain, w: Width): (r: nat)
    ensures r >= w
  {
    match c
    case Msvc => if w <= 16 then 16 else if w <= 32 then 32 else 64
    case GccOrClang => if w <= 16 then 32 else 64
    case OtherCompiler => w
  }

  lemma {:induction false} Pow2Monotone(a: nat, b: nat)
    requires a <= b
    ensures Pow2(a) <= Pow2(b)
  {
    if a < b {
      Pow2Monotone(a, b - 1);
    }
  }

  /**
   * `popcount` on an unsigned W-bit value: the value, converted to the
   * parameter type of the selected intrinsic (or kept, for the fallback),
   * has its set bits counted.  Every branch gives the fallback loop's
   * result, since the conversion only widens.
   */
  function Popcount(c: Toolchain, w: Width, value: nat): (r: int)
    requires IsWord(w, value)
    ensures r == PopCount(value)
    ensures 0 <= r <= w
  {
    Pow2Monotone(w, IntrinsicWidth(c, w));
    PopCountWord(w, value);
    PopCount(Truncate(IntrinsicWidth(c, w), value))
  }
}
