/**
 * `term::explode` (Src/term.hpp): the enumeration of the concrete values a
 * term covers.  The method builds the table of wildcard offsets and then,
 * for each counter value below cardinality(), deposits the counter's bits
 * into the wildcard positions, lowest first.  The generator's output is
 * collected as a sequence.
 *
 * Scatter is the value the i-th step yields, defined position by position
 * from the lowest bit up; Gather is its inverse on the covered values.
 */
module TermExplode {
  import opened Bits
  import opened Utils
  import opened Terms

  /**
   * The k-bit value whose fixed positions (by mask) hold the bits of `bits`
   * and whose wildcard positions hold the bits of i, the lowest wildcard
   * taking the lowest bit of i.
   */
  function Scatter(mask: nat, bits: nat, i: nat, k: nat): (r: nat)
    ensures IsWord(k, r)
  {
    if k == 0 then 0
    else if mask % 2 == 1 then bits % 2 + 2 * Scatter(mask / 2, bits / 2, i, k - 1)
    else i % 2 + 2 * Scatter(mask / 2, bits / 2, i / 2, k - 1)
  }

  /** The bits of v at the wildcard positions below k, packed from the lowest. */
  function Gather(mask: nat, v: nat, k: nat): (r: nat)
    ensures IsWord(ZerosBelow(mask, k), r)
  {
    if k == 0 then 0
    else
      ZerosBelowHalf(mask, k - 1);
      if mask % 2 == 1 then Gather(mask / 2, v / 2, k - 1)
      else v % 2 + 2 * Gather(mask / 2, v / 2, k - 1)
  }

  /** Counting the clear bits below p + 1 looks at bit 0 and then at the halved value. */
  lemma {:induction false} ZerosBelowHalf(mask: nat, p: nat)
    ensures ZerosBelow(mask, p + 1) == (if mask % 2 == 1 then 0 else 1) + ZerosBelow(mask / 2, p)
  {
    if p > 0 {
      ZerosBelowHalf(mask, p - 1);
      BitHalf(mask, p - 1);
    }
  }

  lemma {:induction false} ZerosBelowMonotone(mask: nat, p: nat, q: nat)
    requires p <= q
    ensures ZerosBelow(mask, p) <= ZerosBelow(mask, q)
    decreases q
  {
    if p < q {
      ZerosBelowMonotone(mask, p, q - 1);
    }
  }

  lemma ZerosBelowAtMost(mask: nat, p: nat)
    ensures ZerosBelow(mask, p) <= p
  {
  }

  /** A wildcard below k has a rank below the number of wildcards below k. */
  lemma WildcardRankBelow(mask: nat, p: nat, k: nat)
    requires !Bit(mask, p) && p < k
    ensures ZerosBelow(mask, p) < ZerosBelow(mask, k)
  {
    ZerosBelowMonotone(mask, p + 1, k);
  }

  /** Bit p of Scatter: the fixed bit at a fixed position, the bit of i of the position's rank at a wildcard. */
  lemma {:induction false} ScatterBit(mask: nat, bits: nat, i: nat, k: nat, p: nat)
    ensures Bit(Scatter(mask, bits, i, k), p) ==
      (p < k && (if Bit(mask, p) then Bit(bits, p) else Bit(i, ZerosBelow(mask, p))))
  {
    var r := Scatter(mask, bits, i, k);
    if k == 0 {
      BitZero(p);
    } else if p > 0 {
      BitHalf(r, p - 1);
      BitHalf(mask, p - 1);
      BitHalf(bits, p - 1);
      ZerosBelowHalf(mask, p - 1);
      if mask % 2 == 1 {
        assert r / 2 == Scatter(mask / 2, bits / 2, i, k - 1);
        ScatterBit(mask / 2, bits / 2, i, k - 1, p - 1);
      } else {
        assert r / 2 == Scatter(mask / 2, bits / 2, i / 2, k - 1);
        ScatterBit(mask / 2, bits / 2, i / 2, k - 1, p - 1);
        BitHalf(i, ZerosBelow(mask / 2, p - 1));
      }
    }
  }

  /** Scatter is strictly increasing in the counter, over the counter values that fit the wildcards. */
  lemma {:induction false} ScatterAscending(mask: nat, bits: nat, i: nat, j: nat, k: nat)
    requires i < j < Pow2(ZerosBelow(mask, k))
    ensures Scatter(mask, bits, i, k) < Scatter(mask, bits, j, k)
  {
    if k > 0 {
      ZerosBelowHalf(mask, k - 1);
      if mask % 2 == 1 {
        ScatterAscending(mask / 2, bits / 2, i, j, k - 1);
      } else if i / 2 < j / 2 {
        ScatterAscending(mask / 2, bits / 2, i / 2, j / 2, k - 1);
      }
    }
  }

  /** Gather undoes Scatter: a value that agrees with bits at the fixed positions is the scatter of its gathered wildcard bits. */
  lemma {:induction false} ScatterGather(mask: nat, bits: nat, v: nat, k: nat)
    requires IsWord(k, v)
    requires forall p: nat :: p < k && Bit(mask, p) ==> Bit(v, p) == Bit(bits, p)
    ensures Scatter(mask, bits, Gather(mask, v, k), k) == v
  {
    if k > 0 {
      forall p: nat | p < k - 1 && Bit(mask / 2, p)
        ensures Bit(v / 2, p) == Bit(bits / 2, p)
      {
        BitHalf(mask, p);
        BitHalf(v, p);
        BitHalf(bits, p);
      }
      assert v == v % 2 + 2 * (v / 2) && v / 2 < Pow2(k - 1);
      ScatterGather(mask / 2, bits / 2, v / 2, k - 1);
      var g' := Gather(mask / 2, v / 2, k - 1);
      if mask % 2 == 1 {
        assert Bit(v, 0) == Bit(bits, 0);
        assert v % 2 == bits % 2;
      } else {
        var g := v % 2 + 2 * g';
        assert g % 2 == v % 2 && g / 2 == g';
      }
    }
  }

  /** The i-th value explode yields. */
  function ExplodeAt(w: nat, t: Term, i: nat): nat
  {
    Scatter(t.mask, t.bits, i, w)
  }

  /** Every yielded value is in the term. */
  lemma ExplodeContained(w: nat, t: Term, i: nat)
    requires Valid(w, t)
    ensures IsWord(w, ExplodeAt(w, t, i)) && Contains(w, t, ExplodeAt(w, t, i))
  {
    var v := ExplodeAt(w, t, i);
    forall p: nat | p < w && Fixed(t, p)
      ensures Bit(v, p) == Bit(t.bits, p)
    {
      ScatterBit(t.mask, t.bits, i, w, p);
    }
    ContainsIff(w, t, v);
  }

  /** The values come out strictly ascending, hence distinct. */
  lemma ExplodeAscending(w: nat, t: Term, i: nat, j: nat)
    requires IsWord(w, t.mask) && i < j < Pow2(CardLog2(w, t))
    ensures ExplodeAt(w, t, i) < ExplodeAt(w, t, j)
  {
    ScatterAscending(t.mask, t.bits, i, j, w);
  }

  /** Every value the term contains is yielded, at the index of its gathered wildcard bits. */
  lemma ExplodeComplete(w: nat, t: Term, v: nat)
    requires Valid(w, t) && IsWord(w, v) && Contains(w, t, v)
    ensures Gather(t.mask, v, w) < Pow2(CardLog2(w, t))
    ensures ExplodeAt(w, t, Gather(t.mask, v, w)) == v
  {
    ContainsIff(w, t, v);
    ScatterGather(t.mask, t.bits, v, w);
  }

  /**
   * The values yielded for the counters below 2^cardlog2 are exactly the
   * W-bit values the term contains.
   */
  lemma ExplodeCoversExactly(w: nat, t: Term, v: nat)
    requires Valid(w, t) && IsWord(w, v)
    ensures Contains(w, t, v) <==> exists i: nat :: i < Pow2(CardLog2(w, t)) && ExplodeAt(w, t, i) == v
  {
    if Contains(w, t, v) {
      ExplodeComplete(w, t, v);
    }
    if exists i: nat :: i < Pow2(CardLog2(w, t)) && ExplodeAt(w, t, i) == v {
      var i: nat :| i < Pow2(CardLog2(w, t)) && ExplodeAt(w, t, i) == v;
      ExplodeContained(w, t, i);
    }
  }

  /** xs[j] + j is the position of the j-th lowest wildcard below `below`. */
  ghost predicate OffsetsOf(mask: nat, xs: seq<nat>, below: nat)
  {
    forall j :: 0 <= j < |xs| ==>
      xs[j] + j < below && !Bit(mask, xs[j] + j) && ZerosBelow(mask, xs[j] + j) == j
  }

  /** Before the j-th deposit of counter i: the fixed bits, and the counter bits of the wildcards of rank below j. */
  ghost predicate DepositedBelow(w: nat, t: Term, i: nat, v: nat, j: nat)
  {
    forall p: nat :: Bit(v, p) ==
      (Bit(t.bits, p) || (p < w && !Bit(t.mask, p) && ZerosBelow(t.mask, p) < j && Bit(i, ZerosBelow(t.mask, p))))
  }

  /**
   * The first loop of explode(): for each wildcard position i, lowest
   * first, the entry `i - xs.size()`, its position less the number of
   * wildcards below it.
   */
  method WildcardOffsets(w: nat, t: Term) returns (xs: seq<nat>)
    requires IsWord(w, t.mask)
    ensures |xs| == CardLog2(w, t)
    ensures OffsetsOf(t.mask, xs, w)
  {
    xs := [];
    var i := 0;
    while i < w
      invariant 0 <= i <= w
      invariant |xs| == ZerosBelow(t.mask, i)
      invariant OffsetsOf(t.mask, xs, i)
    {
      var m := Shl(1, i);
      ShlOne(i);
      AndPow2(t.mask, i);
      if And(t.mask, m) == 0 {
        ZerosBelowAtMost(t.mask, i);
        xs := xs + [i - |xs|];
      }
      i := i + 1;
    }
  }

  /**
   * explode(): `xs` holds, for each wildcard in ascending order, its
   * position minus the number of wildcards below it; then for each counter
   * i below cardinality(), `v &= mask` keeps the fixed bits and the inner
   * loop ORs bit j of i into position `xs[j] + j`.
   */
  method Explode(w: nat, t: Term) returns (vs: seq<nat>)
    requires Valid(w, t) && CardLog2(w, t) < w
    ensures |vs| == Pow2(CardLog2(w, t))
    ensures forall i :: 0 <= i < |vs| ==> vs[i] == ExplodeAt(w, t, i)
    ensures forall i :: 0 <= i < |vs| ==> IsWord(w, vs[i]) && Contains(w, t, vs[i])
    ensures forall i, j :: 0 <= i < j < |vs| ==> vs[i] < vs[j]
  {
    var n := Pow2(CardLog2(w, t));
    var xs := WildcardOffsets(w, t);
    vs := [];
    var v := t.bits;
    var m := 1;
    CounterFits(w, t);
    forall p: nat | Bit(t.bits, p)
      ensures Bit(t.mask, p)
    {
      ValidBits(w, t, p);
    }
    var i := 0;
    while i < n
      invariant 0 <= i <= n
      invariant |vs| == i
      invariant forall k :: 0 <= k < i ==> vs[k] == ExplodeAt(w, t, k)
      invariant IsWord(w, v)
      invariant forall p: nat :: Bit(v, p) && Bit(t.mask, p) <==> Bit(t.bits, p)
    {
      KeepFixed(w, t, v);
      v := AndW(w, v, t.mask);
      var j := 0;
      while j < |xs|
        invariant 0 <= j <= |xs|
        invariant IsWord(w, v)
        invariant DepositedBelow(w, t, i, v, j)
      {
        DepositStep(w, t, xs, i, v, j);
        m := AndW(w, i, Shl(1, j));
        v := OrW(w, v, Shl(m, xs[j]));
        j := j + 1;
      }
      Deposited(w, t, i, v);
      AppendValue(w, t, vs, v);
      vs := vs + [v];
      i := i + 1;
    }
    ExplodedValues(w, t, vs);
  }

  lemma AppendValue(w: nat, t: Term, vs: seq<nat>, v: nat)
    requires forall k :: 0 <= k < |vs| ==> vs[k] == ExplodeAt(w, t, k)
    requires v == ExplodeAt(w, t, |vs|)
    ensures forall k :: 0 <= k < |vs| + 1 ==> (vs + [v])[k] == ExplodeAt(w, t, k)
  {
  }

  /** The values of the first 2^cardlog2 counters: each in the term, strictly ascending. */
  lemma ExplodedValues(w: nat, t: Term, vs: seq<nat>)
    requires Valid(w, t) && |vs| == Pow2(CardLog2(w, t))
    requires forall i :: 0 <= i < |vs| ==> vs[i] == ExplodeAt(w, t, i)
    ensures forall i :: 0 <= i < |vs| ==> IsWord(w, vs[i]) && Contains(w, t, vs[i])
    ensures forall i, j :: 0 <= i < j < |vs| ==> vs[i] < vs[j]
  {
    forall i | 0 <= i < |vs|
      ensures IsWord(w, vs[i]) && Contains(w, t, vs[i])
    {
      ExplodeContained(w, t, i);
    }
    forall i, j | 0 <= i < j < |vs|
      ensures vs[i] < vs[j]
    {
      ExplodeAscending(w, t, i, j);
    }
  }

  /** The counter stays below 2^W: cardinality() is at most 2^(W-1). */
  lemma CounterFits(w: nat, t: Term)
    requires IsWord(w, t.mask) && CardLog2(w, t) < w
    ensures Pow2(CardLog2(w, t)) < Pow2(w)
  {
    Pow2Monotone(CardLog2(w, t), w - 1);
  }

  /** `v &= mask` leaves exactly the fixed bits, when v agrees with them. */
  lemma KeepFixed(w: nat, t: Term, v: nat)
    requires Valid(w, t) && IsWord(w, v)
    requires forall p: nat :: Bit(v, p) && Bit(t.mask, p) <==> Bit(t.bits, p)
    ensures AndW(w, v, t.mask) == t.bits
  {
    var r := AndW(w, v, t.mask);
    forall p: nat
      ensures Bit(r, p) == Bit(t.bits, p)
    {
      if Bit(t.bits, p) {
        ValidBits(w, t, p);
      }
    }
    BitsEqual(r, t.bits);
  }

  /** s has no bit set except possibly pos, which is set exactly when b holds. */
  ghost predicate OnlyBit(s: nat, pos: nat, b: bool)
  {
    forall q: nat :: Bit(s, q) == (q == pos && b)
  }

  /** `(i & (1 << j)) << off` has at most the one bit off + j, set when bit j of i is. */
  lemma ShiftedCounterBit(w: nat, i: nat, j: nat, off: nat)
    requires IsWord(w, i) && off + j < w
    ensures IsWord(w, Pow2(j)) && Shl(1, j) == Pow2(j)
    ensures var s := Shl(AndW(w, i, Shl(1, j)), off);
      IsWord(w, s) && OnlyBit(s, off + j, Bit(i, j))
  {
    ShlOne(j);
    Pow2Word(w, j);
    var m := AndW(w, i, Shl(1, j));
    var s := Shl(m, off);
    forall q: nat
      ensures Bit(s, q) == (q == off + j && Bit(i, j))
    {
      BitShl(m, off, q);
      if q >= off {
        BitPow2(j, q - off);
      }
    }
    WordOfBits(w, s);
  }

  /** OR of two W-bit words, bit by bit. */
  lemma OrWordsBits(w: nat, v: nat, s: nat)
    requires IsWord(w, v) && IsWord(w, s)
    ensures forall p: nat :: Bit(OrW(w, v, s), p) == (Bit(v, p) || Bit(s, p))
  {
  }

  /** The new bit at position p after depositing bit j of i at `pos`, the j-th wildcard. */
  lemma DepositedAt(w: nat, t: Term, xs: seq<nat>, j: nat, p: nat)
    requires OffsetsOf(t.mask, xs, w) && j < |xs|
    ensures (p < w && !Bit(t.mask, p) && ZerosBelow(t.mask, p) == j) == (p == xs[j] + j)
  {
    var pos := xs[j] + j;
    OffsetAt(t.mask, xs, w, j);
    if p < w && !Bit(t.mask, p) && ZerosBelow(t.mask, p) == j {
      if p < pos {
        WildcardRankBelow(t.mask, p, pos);
      } else if pos < p {
        WildcardRankBelow(t.mask, pos, p);
      }
    }
  }

  /** One step of the inner loop: bit j of i lands at the j-th wildcard position. */
  lemma DepositStep(w: nat, t: Term, xs: seq<nat>, i: nat, v: nat, j: nat)
    requires IsWord(w, v) && IsWord(w, i)
    requires OffsetsOf(t.mask, xs, w) && j < |xs|
    requires DepositedBelow(w, t, i, v, j)
    ensures IsWord(w, Pow2(j)) && Shl(1, j) == Pow2(j)
    ensures var v' := OrW(w, v, Shl(AndW(w, i, Shl(1, j)), xs[j]));
      IsWord(w, v') && DepositedBelow(w, t, i, v', j + 1)
  {
    ShiftedCounterBit(w, i, j, xs[j]);
    var s := Shl(AndW(w, i, Shl(1, j)), xs[j]);
    DepositOne(w, t, xs, i, v, j, s);
  }

  lemma OffsetAt(mask: nat, xs: seq<nat>, below: nat, j: nat)
    requires OffsetsOf(mask, xs, below) && j < |xs|
    ensures xs[j] + j < below && !Bit(mask, xs[j] + j) && ZerosBelow(mask, xs[j] + j) == j
  {
  }

  /** Or-ing in the single bit j of i at the j-th wildcard extends the deposit by one rank. */
  lemma DepositOne(w: nat, t: Term, xs: seq<nat>, i: nat, v: nat, j: nat, s: nat)
    requires IsWord(w, v) && IsWord(w, s)
    requires OffsetsOf(t.mask, xs, w) && j < |xs|
    requires DepositedBelow(w, t, i, v, j)
    requires OnlyBit(s, xs[j] + j, Bit(i, j))
    ensures IsWord(w, OrW(w, v, s)) && DepositedBelow(w, t, i, OrW(w, v, s), j + 1)
  {
    var v' := OrW(w, v, s);
    OrWordsBits(w, v, s);
    forall p: nat
      ensures Bit(v', p) ==
        (Bit(t.bits, p) || (p < w && !Bit(t.mask, p) && ZerosBelow(t.mask, p) < j + 1 && Bit(i, ZerosBelow(t.mask, p))))
    {
      DepositedAt(w, t, xs, j, p);
    }
  }

  /** After the inner loop every wildcard below W has received its counter bit: v is the i-th value. */
  lemma Deposited(w: nat, t: Term, i: nat, v: nat)
    requires Valid(w, t) && IsWord(w, v)
    requires DepositedBelow(w, t, i, v, ZerosBelow(t.mask, w))
    ensures v == ExplodeAt(w, t, i)
    ensures forall p: nat :: Bit(v, p) && Bit(t.mask, p) <==> Bit(t.bits, p)
  {
    var e := ExplodeAt(w, t, i);
    forall p: nat
      ensures Bit(v, p) == Bit(e, p)
    {
      ScatterBit(t.mask, t.bits, i, w, p);
      if Bit(t.bits, p) {
        ValidBits(w, t, p);
      }
      if p < w && !Bit(t.mask, p) {
        WildcardRankBelow(t.mask, p, w);
      }
    }
    BitsEqual(v, e);
    forall p: nat | Bit(t.bits, p)
      ensures Bit(t.mask, p)
    {
      ValidBits(w, t, p);
    }
  }
}
