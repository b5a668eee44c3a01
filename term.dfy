/**
 * The ternary cube `term<T>` of Src/term.hpp: a pair (bits, mask) over a
 * W-bit unsigned type.  A mask bit 1 fixes its position to the value of the
 * same bit of `bits`; a mask bit 0 is a don't-care ("wildcard") position.
 * Terms are values: the operations below build new terms and never change one.
 *
 * The string constructor, `to_string` and `explode` loop over positions and
 * are modelled as methods in the modules TermText and TermExplode.
 */
module Terms {
  import opened Bits
  import opened Utils
  import opened Options

  datatype Term = Term(bits: nat, mask: nat)

  /** Both fields hold values of the W-bit type. */
  predicate WordTerm(w: nat, t: Term)
  {
    IsWord(w, t.bits) && IsWord(w, t.mask)
  }

  /** What every constructor establishes: `bits & ~mask == 0`. */
  predicate Valid(w: nat, t: Term)
  {
    WordTerm(w, t) && And(t.bits, NotW(w, t.mask)) == 0
  }

  /** Position p is fixed by t's mask. */
  predicate Fixed(t: Term, p: nat)
  {
    Bit(t.mask, p)
  }

  /** The concrete W-bit value v matches t at every fixed position. */
  predicate Matches(w: nat, t: Term, v: nat)
  {
    forall p: nat :: p < w && Fixed(t, p) ==> Bit(v, p) == Bit(t.bits, p)
  }

  /** Every wildcard position of b is a wildcard position of a. */
  predicate WildcardsWithin(w: nat, b: Term, a: Term)
  {
    forall p: nat :: p < w && !Fixed(b, p) ==> !Fixed(a, p)
  }

  /** Every W-bit value that b contains, a contains. */
  ghost predicate CoversAll(w: nat, a: Term, b: Term)
    requires WordTerm(w, a) && WordTerm(w, b)
  {
    forall v: nat :: IsWord(w, v) && Contains(w, b, v) ==> Contains(w, a, v)
  }

  // ---------------------------------------------------------------------
  // Construction

  /** term(bits, mask): the mask is stored as given and the bits are masked by it. */
  function MakeTerm(w: nat, bits: nat, mask: nat): (t: Term)
    requires IsWord(w, bits) && IsWord(w, mask)
    ensures Valid(w, t) && t.mask == mask
    ensures forall p: nat :: Bit(t.bits, p) == (Bit(bits, p) && Bit(mask, p))
  {
    var t := Term(And(bits, mask), mask);
    AndBits(bits, mask);
    OpsAreWords(w, bits, mask);
    ValidIff(w, t);
    t
  }

  /** term(): the default arguments `0` and `~0` fix every position to 0. */
  function DefaultTerm(w: nat): (t: Term)
    ensures Valid(w, t) && t.bits == 0 && t.mask == Pow2(w) - 1
    ensures forall p: nat :: p < w ==> Fixed(t, p)
    ensures CardLog2(w, t) == 0
  {
    DefaultTermFacts(w, NotW(w, 0));
    MakeTerm(w, 0, NotW(w, 0))
  }

  lemma DefaultTermFacts(w: nat, m: nat)
    requires m == NotW(w, 0)
    ensures var t := MakeTerm(w, 0, m);
      t.bits == 0 && t.mask == Pow2(w) - 1 &&
      (forall p: nat :: p < w ==> Fixed(t, p)) &&
      CardLog2(w, t) == 0
  {
    var t := MakeTerm(w, 0, m);
    AndZero(m);
    assert t.mask == Pow2(w) - 1;
    forall p: nat | p < w
      ensures Fixed(t, p)
    {
      AllOnesBits(w, p);
    }
    CardLog2NoWildcard(w, t);
  }

  /** Valid is the position-wise statement that every set bit is a fixed position. */
  lemma ValidIff(w: nat, t: Term)
    requires WordTerm(w, t)
    ensures Valid(w, t) ==> forall p: nat :: Bit(t.bits, p) ==> Bit(t.mask, p)
    ensures (forall p: nat :: Bit(t.bits, p) ==> Bit(t.mask, p)) ==> Valid(w, t)
  {
    if Valid(w, t) {
      ValidSetBitsFixed(w, t);
    }
    if forall p: nat :: Bit(t.bits, p) ==> Bit(t.mask, p) {
      SetBitsFixedValid(w, t);
    }
  }

  lemma ValidSetBitsFixed(w: nat, t: Term)
    requires Valid(w, t)
    ensures forall p: nat :: Bit(t.bits, p) ==> Bit(t.mask, p)
  {
    var n := NotW(w, t.mask);
    forall p: nat | Bit(t.bits, p)
      ensures Bit(t.mask, p)
    {
      BitZero(p);
      BitAnd(t.bits, n, p);
      if p >= w {
        BitAbove(w, t.bits, p);
      }
    }
  }

  lemma SetBitsFixedValid(w: nat, t: Term)
    requires WordTerm(w, t)
    requires forall p: nat :: Bit(t.bits, p) ==> Bit(t.mask, p)
    ensures Valid(w, t)
  {
    var n := NotW(w, t.mask);
    forall p: nat
      ensures Bit(And(t.bits, n), p) == Bit(0, p)
    {
      BitZero(p);
      BitAnd(t.bits, n, p);
    }
    BitsEqual(And(t.bits, n), 0);
  }

  lemma ValidBits(w: nat, t: Term, p: nat)
    requires Valid(w, t) && Bit(t.bits, p)
    ensures Fixed(t, p) && p < w
  {
    ValidIff(w, t);
    if p >= w {
      BitAbove(w, t.bits, p);
    }
  }

  /** A valid term's bits are already masked. */
  lemma MaskedBits(w: nat, t: Term)
    requires Valid(w, t)
    ensures And(t.bits, t.mask) == t.bits
  {
    AndBits(t.bits, t.mask);
    ValidIff(w, t);
    BitsEqual(And(t.bits, t.mask), t.bits);
  }

  // ---------------------------------------------------------------------
  // Wildcards and cardinality

  /** inv_mask(): the wildcard positions, `~mask` cast back to the W-bit type. */
  function InvMask(w: nat, t: Term): (r: nat)
    requires IsWord(w, t.mask)
    ensures IsWord(w, r)
    ensures forall p: nat :: Bit(r, p) == (p < w && !Fixed(t, p))
  {
    NotW(w, t.mask)
  }

  /** cardlog2(): the number of wildcard positions. */
  function CardLog2(w: nat, t: Term): (r: nat)
    requires IsWord(w, t.mask)
    ensures r <= w
    ensures r == w - PopCount(t.mask)
    ensures r == ZerosBelow(t.mask, w)
  {
    PopCountWord(w, InvMask(w, t));
    PopCountOfComplement(w, t.mask);
    PopCountCountsPositions(w, InvMask(w, t));
    ZerosAreComplementBits(w, t.mask, InvMask(w, t), w);
    PopCount(InvMask(w, t))
  }

  lemma {:induction false} ZerosAreComplementBits(w: nat, m: nat, y: nat, k: nat)
    requires k <= w
    requires forall p: nat :: Bit(y, p) == (p < w && !Bit(m, p))
    ensures ZerosBelow(m, k) == CountBitsBelow(y, k)
  {
    if k > 0 {
      ZerosAreComplementBits(w, m, y, k - 1);
    }
  }

  lemma CardLog2NoWildcard(w: nat, t: Term)
    requires IsWord(w, t.mask)
    requires forall p: nat :: p < w ==> Fixed(t, p)
    ensures CardLog2(w, t) == 0
  {
    forall p: nat | p < w
      ensures Bit(t.mask, p)
    {
      assert Fixed(t, p);
    }
    NoZerosBelow(t.mask, w);
  }

  lemma {:induction false} NoZerosBelow(m: nat, k: nat)
    requires forall p: nat :: p < k ==> Bit(m, p)
    ensures ZerosBelow(m, k) == 0
  {
    if k > 0 {
      NoZerosBelow(m, k - 1);
    }
  }

  /**
   * cardinality(): `1 << cardlog2()`.  For the 8- and 16-bit types the shift
   * is done in `int` and cannot overflow; for the 32- and 64-bit types a
   * shift by the full width is undefined, which the precondition excludes.
   */
  function Cardinality(w: Width, t: Term): (r: nat)
    requires IsWord(w, t.mask)
    requires w <= 16 || CardLog2(w, t) < w
    ensures r == Pow2(CardLog2(w, t))
  {
    ShlOne(CardLog2(w, t));
    Shl(1, CardLog2(w, t))
  }

  // ---------------------------------------------------------------------
  // Containment

  /** contains(value): `and_(b, mask) == bits`. */
  function Contains(w: nat, t: Term, v: nat): bool
    requires WordTerm(w, t) && IsWord(w, v)
  {
    AndW(w, v, t.mask) == t.bits
  }

  /** A valid term contains exactly the values that match it at every fixed position. */
  lemma ContainsIff(w: nat, t: Term, v: nat)
    requires Valid(w, t) && IsWord(w, v)
    ensures Contains(w, t, v) <==> Matches(w, t, v)
  {
    var r := AndW(w, v, t.mask);
    assert forall p: nat :: Bit(r, p) == (Bit(v, p) && Bit(t.mask, p));
    ValidIff(w, t);
    if Matches(w, t, v) {
      forall p: nat | p < w
        ensures Bit(r, p) == Bit(t.bits, p)
      {
      }
      WordsEqual(w, r, t.bits);
    }
  }

  /** superset_of: the cardinality test, the popcount-of-xor test on the wildcard masks, and agreement on this term's fixed bits. */
  function SupersetOf(w: nat, a: Term, b: Term): bool
    requires WordTerm(w, a) && WordTerm(w, b)
  {
    var carddiff := CardLog2(w, a) as int - CardLog2(w, b);
    if carddiff <= 0 then false
    else
      var maskdiff := PopCount(XorW(w, InvMask(w, a), InvMask(w, b)));
      if maskdiff != carddiff then false
      else And(a.bits, a.mask) == And(b.bits, a.mask)
  }

  /** subset_of(b): b.superset_of(*this). */
  function SubsetOf(w: nat, a: Term, b: Term): bool
    requires WordTerm(w, a) && WordTerm(w, b)
  {
    SupersetOf(w, b, a)
  }

  /** contains(term): equal, or a strict superset. */
  function ContainsTerm(w: nat, a: Term, b: Term): bool
    requires WordTerm(w, a) && WordTerm(w, b)
  {
    a == b || SupersetOf(w, a, b)
  }

  /**
   * What the tests of superset_of encode: a has strictly more wildcards, every
   * wildcard of b is a wildcard of a (the popcount of the xor of the wildcard
   * masks equals the difference of their popcounts exactly then), and the two
   * agree on a's fixed bits.
   */
  lemma SupersetOfIff(w: nat, a: Term, b: Term)
    requires WordTerm(w, a) && WordTerm(w, b)
    ensures SupersetOf(w, a, b) <==>
      CardLog2(w, a) > CardLog2(w, b) &&
      WildcardsWithin(w, b, a) &&
      And(a.bits, a.mask) == And(b.bits, a.mask)
  {
    var A, B := InvMask(w, a), InvMask(w, b);
    HelpersOnWords(w, A, B);
    PopCountXorAnd(A, B);
    PopCountAndLe(A, B);
    AndBits(A, B);
    if And(A, B) == B {
      forall p: nat | p < w && !Fixed(b, p)
        ensures !Fixed(a, p)
      {
        assert Bit(B, p);
        assert Bit(And(A, B), p);
      }
    }
    if WildcardsWithin(w, b, a) {
      forall p: nat
        ensures Bit(And(A, B), p) == Bit(B, p)
      {
      }
      BitsEqual(And(A, B), B);
    }
  }

  /** Soundness: a superset contains every value its subset contains. */
  lemma SupersetOfSound(w: nat, a: Term, b: Term)
    requires Valid(w, a) && Valid(w, b) && SupersetOf(w, a, b)
    ensures CoversAll(w, a, b)
  {
    SupersetOfIff(w, a, b);
    forall v: nat | IsWord(w, v) && Contains(w, b, v)
      ensures Contains(w, a, v)
    {
      ContainsIff(w, b, v);
      ContainsIff(w, a, v);
      forall p: nat | p < w && Fixed(a, p)
        ensures Bit(v, p) == Bit(a.bits, p)
      {
        assert Fixed(b, p);
        AgreeOnFixed(w, a, b, p);
      }
    }
  }

  /** Agreement of the masked bits, read at one fixed position of a. */
  lemma AgreeOnFixed(w: nat, a: Term, b: Term, p: nat)
    requires Valid(w, a) && And(a.bits, a.mask) == And(b.bits, a.mask) && Fixed(a, p)
    ensures Bit(a.bits, p) == Bit(b.bits, p)
  {
    BitAnd(a.bits, a.mask, p);
    BitAnd(b.bits, a.mask, p);
  }

  /** The fixed positions of a strict superset are fewer: its mask is a proper sub-mask. */
  lemma FewerFixed(w: nat, a: Term, b: Term)
    requires WordTerm(w, a) && WordTerm(w, b)
    requires forall p: nat :: Fixed(a, p) ==> Fixed(b, p)
    requires a.mask != b.mask
    ensures CardLog2(w, a) > CardLog2(w, b)
  {
    AndBits(b.mask, a.mask);
    forall p: nat
      ensures Bit(And(b.mask, a.mask), p) == Bit(a.mask, p)
    {
      assert Fixed(a, p) ==> Fixed(b, p);
    }
    BitsEqual(And(b.mask, a.mask), a.mask);
    PopCountAndLe(b.mask, a.mask);
    PopCountAndLe(a.mask, b.mask);
    AndCommutes(a.mask, b.mask);
  }

  /**
   * contains(term) is containment of the sets of covered values: a contains b
   * exactly when every W-bit value in b is in a.
   */
  lemma ContainsTermIff(w: nat, a: Term, b: Term)
    requires Valid(w, a) && Valid(w, b)
    ensures ContainsTerm(w, a, b) <==> CoversAll(w, a, b)
  {
    if SupersetOf(w, a, b) {
      SupersetOfSound(w, a, b);
    }
    if CoversAll(w, a, b) && a != b {
      // a's fixed positions are fixed in b: otherwise flip such a position in b.bits
      forall p: nat | Fixed(a, p)
        ensures Fixed(b, p)
      {
        if !Fixed(b, p) {
          if p >= w {
            BitAbove(w, a.mask, p);
          }
          var v := CounterExample(w, a, b, p);
          assert false;
        }
      }
      // and they agree on a's fixed bits: b.bits itself is in b
      ContainsIff(w, b, b.bits);
      ContainsIff(w, a, b.bits);
      forall p: nat
        ensures Bit(And(a.bits, a.mask), p) == Bit(And(b.bits, a.mask), p)
      {
        BitAnd(a.bits, a.mask, p);
        BitAnd(b.bits, a.mask, p);
        if Fixed(a, p) && p >= w {
          BitAbove(w, a.mask, p);
        }
      }
      BitsEqual(And(a.bits, a.mask), And(b.bits, a.mask));
      MaskedBits(w, a);
      MaskedBits(w, b);
      FewerFixed(w, a, b);
      assert WildcardsWithin(w, b, a);
      SupersetOfIff(w, a, b);
    }
  }

  /** A value in b but not in a, when p is fixed in a and a wildcard of b. */
  lemma CounterExample(w: nat, a: Term, b: Term, p: nat) returns (v: nat)
    requires Valid(w, a) && Valid(w, b)
    requires p < w && Fixed(a, p) && !Fixed(b, p)
    ensures IsWord(w, v) && Contains(w, b, v) && !Contains(w, a, v)
  {
    var flip := Pow2(p);
    assert IsWord(w, flip) by {
      forall i: nat | i >= w
        ensures !Bit(flip, i)
      {
        BitPow2(p, i);
      }
      WordOfBits(w, flip);
    }
    v := if Bit(a.bits, p) then b.bits else Xor(b.bits, flip);
    OpsAreWords(w, b.bits, flip);
    assert !Bit(b.bits, p) by {
      ValidIff(w, b);
    }
    forall i: nat
      ensures Bit(v, i) == (Bit(b.bits, i) != (i == p && !Bit(a.bits, p)))
    {
      BitXor(b.bits, flip, i);
      BitPow2(p, i);
    }
    ContainsIff(w, b, v);
    ContainsIff(w, a, v);
    assert Bit(v, p) != Bit(a.bits, p);
  }

  // ---------------------------------------------------------------------
  // The relational operators

  /** operator ==: equal masks and equal bits. */
  function Equal(a: Term, b: Term): (r: bool)
    ensures r <==> a == b
  {
    a.mask == b.mask && a.bits == b.bits
  }

  /** operator != */
  function NotEqual(a: Term, b: Term): (r: bool)
    ensures r <==> a != b
  {
    !Equal(a, b)
  }

  /** operator <: subset_of. */
  function Less(w: nat, a: Term, b: Term): bool
    requires WordTerm(w, a) && WordTerm(w, b)
  {
    SubsetOf(w, a, b)
  }

  /** operator >: superset_of. */
  function Greater(w: nat, a: Term, b: Term): bool
    requires WordTerm(w, a) && WordTerm(w, b)
  {
    SupersetOf(w, a, b)
  }

  /** operator <= */
  function LessEq(w: nat, a: Term, b: Term): bool
    requires WordTerm(w, a) && WordTerm(w, b)
  {
    Equal(a, b) || Less(w, a, b)
  }

  /** operator >= */
  function GreaterEq(w: nat, a: Term, b: Term): bool
    requires WordTerm(w, a) && WordTerm(w, b)
  {
    Equal(a, b) || Greater(w, a, b)
  }

  /** superset_of never holds of a term and itself, nor in both directions. */
  lemma SupersetOfAsymmetric(w: nat, a: Term, b: Term)
    requires WordTerm(w, a) && WordTerm(w, b)
    ensures !SupersetOf(w, a, a)
    ensures SupersetOf(w, a, b) ==> !SupersetOf(w, b, a)
  {
    SupersetOfIff(w, a, a);
    SupersetOfIff(w, a, b);
    SupersetOfIff(w, b, a);
  }

  lemma SupersetOfTransitive(w: nat, a: Term, b: Term, c: Term)
    requires WordTerm(w, a) && WordTerm(w, b) && WordTerm(w, c)
    requires SupersetOf(w, a, b) && SupersetOf(w, b, c)
    ensures SupersetOf(w, a, c)
  {
    SupersetOfIff(w, a, b);
    SupersetOfIff(w, b, c);
    forall p: nat
      ensures Bit(And(a.bits, a.mask), p) == Bit(And(c.bits, a.mask), p)
    {
      BitAnd(a.bits, a.mask, p);
      BitAnd(b.bits, a.mask, p);
      BitAnd(c.bits, a.mask, p);
      BitAnd(b.bits, b.mask, p);
      BitAnd(c.bits, b.mask, p);
      if Fixed(a, p) {
        if p >= w {
          BitAbove(w, a.mask, p);
        }
        assert Fixed(b, p);
      }
    }
    BitsEqual(And(a.bits, a.mask), And(c.bits, a.mask));
    SupersetOfIff(w, a, c);
  }

  /** `<` is a strict partial order, and `<=` the partial order it induces. */
  lemma OrderLaws(w: nat, a: Term, b: Term, c: Term)
    requires WordTerm(w, a) && WordTerm(w, b) && WordTerm(w, c)
    ensures !Less(w, a, a)
    ensures Less(w, a, b) ==> !Less(w, b, a) && Greater(w, b, a)
    ensures Less(w, a, b) && Less(w, b, c) ==> Less(w, a, c)
    ensures LessEq(w, a, a)
    ensures LessEq(w, a, b) && LessEq(w, b, a) ==> a == b
    ensures LessEq(w, a, b) && LessEq(w, b, c) ==> LessEq(w, a, c)
    ensures GreaterEq(w, a, b) <==> LessEq(w, b, a)
  {
    SupersetOfAsymmetric(w, a, b);
    SupersetOfAsymmetric(w, b, a);
    if Less(w, a, b) && Less(w, b, c) {
      SupersetOfTransitive(w, c, b, a);
    }
  }

  /** The order is not total: two distinct values with every position fixed are incomparable. */
  lemma OrderNotTotal(w: nat)
    requires w >= 1
    ensures var a, b := Term(0, Pow2(w) - 1), Term(1, Pow2(w) - 1);
      WordTerm(w, a) && WordTerm(w, b) && !LessEq(w, a, b) && !LessEq(w, b, a)
  {
    var a, b := Term(0, Pow2(w) - 1), Term(1, Pow2(w) - 1);
    assert Pow2(w) == 2 * Pow2(w - 1);
    assert WordTerm(w, a) && WordTerm(w, b);
    assert CardLog2(w, a) == CardLog2(w, b);
  }

  // ---------------------------------------------------------------------
  // distance, combine, absorb

  /** a and b (with a's mask) differ at the fixed position p and agree at every other fixed position. */
  ghost predicate DiffersOnlyAt(w: nat, a: Term, b: Term, p: nat)
  {
    p < w && Fixed(a, p) && Bit(a.bits, p) != Bit(b.bits, p) &&
    forall q: nat :: q != p && Fixed(a, q) ==> Bit(a.bits, q) == Bit(b.bits, q)
  }

  /** The masked bits of a term: `and_(bits, mask)`. */
  function Masked(w: nat, t: Term): (r: nat)
    requires WordTerm(w, t)
    ensures IsWord(w, r)
  {
    AndW(w, t.bits, t.mask)
  }

  lemma MaskedValid(w: nat, t: Term)
    requires Valid(w, t)
    ensures Masked(w, t) == t.bits
  {
    MaskedBits(w, t);
    HelpersOnWords(w, t.bits, t.mask);
  }

  /**
   * distance(a, b) AS WRITTEN: a value only when the masks DIFFER, and then
   * the popcount of the xor of the masked bits.
   */
  function Distance(w: nat, a: Term, b: Term): (r: Option<nat>)
    requires WordTerm(w, a) && WordTerm(w, b)
    ensures r.Some? <==> a.mask != b.mask
    ensures r.Some? ==> r.value == CountDiffering(Masked(w, a), Masked(w, b), w) && r.value <= w
  {
    if a.mask != b.mask then
      HelpersOnWords(w, Masked(w, a), Masked(w, b));
      PopCountXorCountsDifferences(w, Masked(w, a), Masked(w, b));
      PopCountWord(w, XorW(w, Masked(w, a), Masked(w, b)));
      Some(PopCount(XorW(w, Masked(w, a), Masked(w, b))))
    else None
  }

  lemma {:induction false} CountDifferingSymmetric(x: nat, y: nat, k: nat)
    ensures CountDiffering(x, y, k) == CountDiffering(y, x, k)
  {
    if k > 0 {
      CountDifferingSymmetric(x, y, k - 1);
    }
  }

  lemma DistanceSymmetric(w: nat, a: Term, b: Term)
    requires WordTerm(w, a) && WordTerm(w, b)
    ensures Distance(w, a, b) == Distance(w, b, a)
  {
    CountDifferingSymmetric(Masked(w, a), Masked(w, b), w);
  }

  /**
   * The inverted test: a pair that combine merges (equal masks, one
   * differing bit) never has a distance, so a caller that asks for distance 1
   * before merging never merges.
   */
  lemma DistanceMissingForMergeablePairs(w: Width, a: Term, b: Term)
    requires Valid(w, a) && Valid(w, b) && Combine(w, a, b).Some?
    ensures Distance(w, a, b) == None
    ensures Distance(w, a, a) == None
  {
  }

  /** The concrete pair "11011101" and "11010101": mergeable, yet without a distance. */
  lemma DistanceMissingExample()
    ensures var a, b := Term(0xDD, 0xFF), Term(0xD5, 0xFF);
      Valid(8, a) && Valid(8, b) && Combine(8, a, b).Some? && Distance(8, a, b) == None
  {
    var a, b := Term(0xDD, 0xFF), Term(0xD5, 0xFF);
    ValidIff(8, a);
    ValidIff(8, b);
    CombineIff(8, a, b);
    assert DiffersOnlyAt(8, a, b, 3) by {
      BitsOfLiteralsDD_D5();
    }
  }

  lemma BitsOfLiteralsDD_D5()
    ensures forall q: nat :: Fixed(Term(0xDD, 0xFF), q) ==> q < 8
    ensures forall q: nat :: q < 8 ==> Fixed(Term(0xDD, 0xFF), q)
    ensures forall q: nat :: q != 3 && q < 8 ==> Bit(0xDD, q) == Bit(0xD5, q)
    ensures Bit(0xDD, 3) && !Bit(0xD5, 3)
  {
    forall q: nat | Fixed(Term(0xDD, 0xFF), q)
      ensures q < 8
    {
      if q >= 8 {
        BitAbove(8, 0xFF, q);
      }
    }
  }

  /** The distance the merge pass evidently intends: defined exactly when the masks are EQUAL. */
  function IntendedDistance(w: nat, a: Term, b: Term): (r: Option<nat>)
    requires WordTerm(w, a) && WordTerm(w, b)
    ensures r.Some? <==> a.mask == b.mask
    ensures r.Some? ==> r.value == CountDiffering(Masked(w, a), Masked(w, b), w) && r.value <= w
  {
    if a.mask == b.mask then
      HelpersOnWords(w, Masked(w, a), Masked(w, b));
      PopCountXorCountsDifferences(w, Masked(w, a), Masked(w, b));
      PopCountWord(w, XorW(w, Masked(w, a), Masked(w, b)));
      Some(PopCount(XorW(w, Masked(w, a), Masked(w, b))))
    else None
  }

  /** With the intended distance, "distance 1" is exactly the condition under which combine merges. */
  lemma CombineIffIntendedDistanceOne(w: Width, a: Term, b: Term)
    requires Valid(w, a) && Valid(w, b)
    ensures Combine(w, a, b).Some? <==> IntendedDistance(w, a, b) == Some(1)
  {
  }

  /**
   * combine(a, b): a merged term when the masks are equal and the masked bits
   * differ in exactly one position, which becomes a wildcard.
   */
  function Combine(w: Width, a: Term, b: Term): Option<Term>
    requires WordTerm(w, a) && WordTerm(w, b)
  {
    var aa := Masked(w, a);
    var bb := Masked(w, b);
    var m0 := XorW(w, aa, bb);
    var mm := AndW(w, a.mask, NotW(w, m0));
    if a.mask == b.mask && PopCount(m0) == 1 then Some(MakeTerm(w, a.bits, mm)) else None
  }

  /** For valid terms with equal masks, the xor of the masked bits has set exactly the positions where they differ. */
  lemma MergeDiff(w: Width, a: Term, b: Term)
    requires Valid(w, a) && Valid(w, b) && a.mask == b.mask
    ensures Masked(w, a) == a.bits && Masked(w, b) == b.bits
    ensures forall q: nat :: Bit(XorW(w, a.bits, b.bits), q) == (Bit(a.bits, q) != Bit(b.bits, q))
  {
    MaskedValid(w, a);
    MaskedValid(w, b);
  }

  /** With one differing position p, the xor of the masked bits is 2^p. */
  lemma MergeDiffAt(w: Width, a: Term, b: Term, p: nat)
    requires Valid(w, a) && Valid(w, b) && a.mask == b.mask && DiffersOnlyAt(w, a, b, p)
    ensures XorW(w, a.bits, b.bits) == Pow2(p)
  {
    MergeDiff(w, a, b);
    var m0 := XorW(w, a.bits, b.bits);
    forall q: nat
      ensures Bit(m0, q) == Bit(Pow2(p), q)
    {
      BitPow2(p, q);
      if q != p && !Fixed(a, q) {
        if Bit(a.bits, q) {
          ValidBits(w, a, q);
        }
        if Bit(b.bits, q) {
          ValidBits(w, b, q);
        }
      }
    }
    BitsEqual(m0, Pow2(p));
  }

  /** combine succeeds exactly for equal masks whose fixed bits differ in exactly one position. */
  lemma CombineIff(w: Width, a: Term, b: Term)
    requires Valid(w, a) && Valid(w, b)
    ensures Combine(w, a, b).Some? <==> a.mask == b.mask && exists p: nat :: DiffersOnlyAt(w, a, b, p)
  {
    if a.mask == b.mask {
      MergeDiff(w, a, b);
      var m0 := XorW(w, a.bits, b.bits);
      PopCountOne(m0);
      if PopCount(m0) == 1 {
        var p := LowestSetBit(m0);
        forall q: nat
          ensures Bit(m0, q) <==> q == p
        {
          BitPow2(p, q);
        }
        if p >= w {
          BitAbove(w, m0, p);
        }
        if Bit(a.bits, p) {
          ValidBits(w, a, p);
        } else {
          ValidBits(w, b, p);
        }
        assert DiffersOnlyAt(w, a, b, p);
      }
      if exists p: nat :: DiffersOnlyAt(w, a, b, p) {
        var p: nat :| DiffersOnlyAt(w, a, b, p);
        MergeDiffAt(w, a, b, p);
        PopCountPow2(p);
      }
    }
  }

  /** The merged term is a with the one differing position p turned into a wildcard. */
  lemma CombineAt(w: Width, a: Term, b: Term, p: nat)
    requires Valid(w, a) && Valid(w, b) && a.mask == b.mask && DiffersOnlyAt(w, a, b, p)
    ensures Combine(w, a, b).Some?
    ensures var c := Combine(w, a, b).value;
      Valid(w, c) &&
      (forall q: nat :: Fixed(c, q) == (Fixed(a, q) && q != p)) &&
      (forall q: nat :: Bit(c.bits, q) == (Bit(a.bits, q) && q != p))
  {
    MergeDiff(w, a, b);
    MergeDiffAt(w, a, b, p);
    PopCountPow2(p);
    var c := Combine(w, a, b).value;
    forall q: nat
      ensures Fixed(c, q) == (Fixed(a, q) && q != p)
    {
      BitPow2(p, q);
      if Fixed(a, q) && q >= w {
        BitAbove(w, a.mask, q);
      }
    }
    forall q: nat
      ensures Bit(c.bits, q) == (Bit(a.bits, q) && q != p)
    {
      if Bit(a.bits, q) {
        ValidBits(w, a, q);
      }
    }
  }

  /** The merged mask is a's with the differing position p cleared: one wildcard more. */
  lemma CombineCardLog2(w: Width, a: Term, b: Term, p: nat)
    requires Valid(w, a) && Valid(w, b) && Combine(w, a, b).Some? && DiffersOnlyAt(w, a, b, p)
    ensures CardLog2(w, Combine(w, a, b).value) == CardLog2(w, a) + 1
  {
    CombineAt(w, a, b, p);
    var c := Combine(w, a, b).value;
    XorBits(c.mask, Pow2(p));
    AndBits(c.mask, Pow2(p));
    forall q: nat
      ensures Bit(Xor(c.mask, Pow2(p)), q) == Bit(a.mask, q)
      ensures Bit(And(c.mask, Pow2(p)), q) == Bit(0, q)
    {
      BitPow2(p, q);
      BitZero(q);
      assert Fixed(c, q) == (Fixed(a, q) && q != p);
      assert q == p ==> Fixed(a, q);
    }
    BitsEqual(Xor(c.mask, Pow2(p)), a.mask);
    BitsEqual(And(c.mask, Pow2(p)), 0);
    PopCountXorAnd(c.mask, Pow2(p));
    PopCountPow2(p);
  }

  /** The merged term has one more wildcard and is a strict superset of both inputs. */
  lemma CombineWidens(w: Width, a: Term, b: Term)
    requires Valid(w, a) && Valid(w, b) && Combine(w, a, b).Some?
    ensures var c := Combine(w, a, b).value;
      CardLog2(w, c) == CardLog2(w, a) + 1 &&
      SupersetOf(w, c, a) && SupersetOf(w, c, b)
  {
    CombineIff(w, a, b);
    var p: nat :| DiffersOnlyAt(w, a, b, p);
    CombineAt(w, a, b, p);
    CombineCardLog2(w, a, b, p);
    var c := Combine(w, a, b).value;
    // the superset tests
    forall q: nat
      ensures Bit(And(c.bits, c.mask), q) == Bit(And(a.bits, c.mask), q)
      ensures Bit(And(c.bits, c.mask), q) == Bit(And(b.bits, c.mask), q)
    {
      BitAnd(c.bits, c.mask, q);
      BitAnd(a.bits, c.mask, q);
      BitAnd(b.bits, c.mask, q);
    }
    BitsEqual(And(c.bits, c.mask), And(a.bits, c.mask));
    BitsEqual(And(c.bits, c.mask), And(b.bits, c.mask));
    SupersetOfIff(w, c, a);
    SupersetOfIff(w, c, b);
  }

  /** The merged term covers exactly the values of the two inputs together. */
  lemma CombineCoversUnion(w: Width, a: Term, b: Term, v: nat)
    requires Valid(w, a) && Valid(w, b) && Combine(w, a, b).Some? && IsWord(w, v)
    ensures Contains(w, Combine(w, a, b).value, v) <==> Contains(w, a, v) || Contains(w, b, v)
  {
    CombineIff(w, a, b);
    var p: nat :| DiffersOnlyAt(w, a, b, p);
    CombineAt(w, a, b, p);
    var c := Combine(w, a, b).value;
    ContainsIff(w, a, v);
    ContainsIff(w, b, v);
    ContainsIff(w, c, v);
    if Matches(w, c, v) {
      if Bit(v, p) == Bit(a.bits, p) {
        assert Matches(w, a, v);
      } else {
        assert Matches(w, b, v);
      }
    }
  }

  /** combine does not depend on the order of its arguments. */
  lemma CombineCommutes(w: Width, a: Term, b: Term)
    requires WordTerm(w, a) && WordTerm(w, b)
    ensures Combine(w, a, b) == Combine(w, b, a)
  {
    var aa, bb := Masked(w, a), Masked(w, b);
    HelpersOnWords(w, aa, bb);
    HelpersOnWords(w, bb, aa);
    XorCommutes(aa, bb);
    var m0 := XorW(w, aa, bb);
    if a.mask == b.mask && PopCount(m0) == 1 {
      var mm := AndW(w, a.mask, NotW(w, m0));
      var ca, cb := MakeTerm(w, a.bits, mm), MakeTerm(w, b.bits, mm);
      forall q: nat
        ensures Bit(ca.bits, q) == Bit(cb.bits, q)
      {
      }
      BitsEqual(ca.bits, cb.bits);
    }
  }

  /** absorb(a, b): whichever of the two contains the other, a first. */
  function Absorb(w: nat, a: Term, b: Term): Option<Term>
    requires WordTerm(w, a) && WordTerm(w, b)
  {
    if ContainsTerm(w, a, b) then Some(a)
    else if ContainsTerm(w, b, a) then Some(b)
    else None
  }

  /**
   * absorb succeeds exactly when one term's values include the other's; it
   * then returns one of the two, a term covering both, and a whenever a
   * covers b.
   */
  lemma AbsorbSpec(w: nat, a: Term, b: Term)
    requires Valid(w, a) && Valid(w, b)
    ensures Absorb(w, a, b).Some? <==> CoversAll(w, a, b) || CoversAll(w, b, a)
    ensures CoversAll(w, a, b) ==> Absorb(w, a, b) == Some(a)
    ensures Absorb(w, a, b).Some? ==>
      var c := Absorb(w, a, b).value;
      (c == a || c == b) && CoversAll(w, c, a) && CoversAll(w, c, b)
  {
    ContainsTermIff(w, a, b);
    ContainsTermIff(w, b, a);
  }
}
