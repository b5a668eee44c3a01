/**
 * The textual form of a term (Src/term.hpp): the constructor from a string of
 * '0', '1' and '*' characters, `to_string`, and the `_t8`.. `_t64` literal
 * operators.  Both conversions are loops in the source and are methods here,
 * proved equal to the position-wise definitions Parse and Render.
 */
module TermText {
  import opened Bits
  import opened Utils
  import opened Terms

  /** The wildcard character `wlc`. */
  const Wildcard: char := '*'

  /** The k-th character of s counted from the right (k = 0 is the last one). */
  function FromRight(s: string, k: nat): char
    requires k < |s|
  {
    s[|s| - 1 - k]
  }

  /**
   * The number whose bit k, for k below n, is set exactly when the k-th
   * character of s from the right is c.
   */
  function Select(s: string, c: char, n: nat): (r: nat)
    ensures IsWord(n, r)
    ensures forall k: nat :: Bit(r, k) <==> k < n && k < |s| && FromRight(s, k) == c
  {
    if n == 0 || |s| == 0 then
      forall k: nat
        ensures !Bit(0, k)
      {
        BitZero(k);
      }
      0
    else
      var rest := Select(s[..|s| - 1], c, n - 1);
      var r := (if s[|s| - 1] == c then 1 else 0) + 2 * rest;
      forall k: nat
        ensures Bit(r, k) <==> k < n && k < |s| && FromRight(s, k) == c
      {
        if k > 0 {
          BitHalf(r, k - 1);
          assert r / 2 == rest;
          if k - 1 < |s| - 1 {
            assert FromRight(s[..|s| - 1], k - 1) == FromRight(s, k);
          }
        }
      }
      r
  }

  /**
   * What the string constructor computes: the rightmost W characters are
   * read, a '1' sets its bit, a '*' makes its position a wildcard, and every
   * other position (a '0', any other character, or a position left of the
   * string) stays fixed at 0.
   */
  function Parse(w: nat, s: string): (t: Term)
    ensures Valid(w, t)
    ensures forall k: nat :: Bit(t.bits, k) <==> k < w && k < |s| && FromRight(s, k) == '1'
    ensures forall k: nat :: Fixed(t, k) <==> k < w && !(k < |s| && FromRight(s, k) == Wildcard)
  {
    var ones := Select(s, '1', w);
    var stars := Select(s, Wildcard, w);
    var t := Term(ones, NotW(w, stars));
    forall k: nat | Bit(t.bits, k)
      ensures Bit(t.mask, k)
    {
    }
    ValidIff(w, t);
    t
  }

  /** The character `to_string` writes for position p. */
  function CharAt(t: Term, p: nat): char
  {
    if Fixed(t, p) then (if Bit(t.bits, p) then '1' else '0') else Wildcard
  }

  /** The characters of the textual form. */
  predicate IsDigit(c: char)
  {
    c == '0' || c == '1' || c == Wildcard
  }

  /** What `to_string` computes: W characters, the most significant position first. */
  function Render(w: nat, t: Term): (s: string)
    ensures |s| == w
    ensures forall k :: 0 <= k < w ==> IsDigit(s[k])
    ensures forall p: nat :: p < w ==> FromRight(s, p) == CharAt(t, p)
  {
    seq(w, k requires 0 <= k < w => CharAt(t, w - 1 - k))
  }

  /**
   * The string constructor: starting from term(), the i-th character from the
   * right, for i below min(|dgt|, W), sets, clears or frees bit i.
   */
  method ParseTerm(w: nat, dgt: string) returns (t: Term)
    ensures t == Parse(w, dgt)
  {
    var d := DefaultTerm(w);
    var bits, mask := d.bits, d.mask;
    var len := if |dgt| < w then |dgt| else w;
    var i := 0;
    while i < len
      invariant 0 <= i <= len
      invariant IsWord(w, bits) && IsWord(w, mask)
      invariant forall k: nat :: Bit(bits, k) <==> k < i && FromRight(dgt, k) == '1'
      invariant forall k: nat :: Bit(mask, k) <==> k < w && !(k < i && FromRight(dgt, k) == Wildcard)
    {
      var m := Shl(1, i);
      ShlOne(i);
      var c := dgt[|dgt| - i - 1];
      assert FromRight(dgt, i) == c;
      if c == '1' {
        SetBit(w, bits, i);
        bits := OrW(w, bits, m);
      } else if c == '0' {
        ClearBit(w, bits, i);
        bits := AndW(w, bits, NotW(w, m));
      } else if c == Wildcard {
        ClearBit(w, mask, i);
        mask := AndW(w, mask, NotW(w, m));
      }
      i := i + 1;
    }
    t := Term(bits, mask);
    var p := Parse(w, dgt);
    forall k: nat
      ensures Bit(t.bits, k) == Bit(p.bits, k)
      ensures Bit(t.mask, k) == Bit(p.mask, k)
    {
      assert Fixed(p, k) == Bit(p.mask, k);
    }
    BitsEqual(t.bits, p.bits);
    BitsEqual(t.mask, p.mask);
  }

  /** `bits |= 1 << i` sets bit i and no other. */
  lemma SetBit(w: nat, x: nat, i: nat)
    requires IsWord(w, x) && i < w
    ensures forall k: nat :: Bit(OrW(w, x, Pow2(i)), k) <==> Bit(x, k) || k == i
  {
    Pow2Word(w, i);
    forall k: nat
      ensures Bit(OrW(w, x, Pow2(i)), k) <==> Bit(x, k) || k == i
    {
      BitPow2(i, k);
    }
  }

  /** `x &= ~(1 << i)` clears bit i and no other. */
  lemma ClearBit(w: nat, x: nat, i: nat)
    requires IsWord(w, x) && i < w
    ensures IsWord(w, Pow2(i))
    ensures forall k: nat :: Bit(AndW(w, x, NotW(w, Pow2(i))), k) <==> Bit(x, k) && k != i
  {
    Pow2Word(w, i);
    forall k: nat
      ensures Bit(AndW(w, x, NotW(w, Pow2(i))), k) <==> Bit(x, k) && k != i
    {
      BitPow2(i, k);
      if k >= w {
        BitAbove(w, x, k);
      }
    }
  }

  /** to_string: one character per position, from position W-1 down to 0. */
  method ToString(w: Width, t: Term) returns (buff: string)
    ensures buff == Render(w, t)
  {
    buff := [];
    var i := w;
    while i > 0
      invariant 0 <= i <= w
      invariant |buff| == w - i
      invariant forall k :: 0 <= k < |buff| ==> buff[k] == CharAt(t, w - 1 - k)
    {
      var m := Shl(1, i - 1);
      ShlOne(i - 1);
      AndPow2(t.mask, i - 1);
      AndPow2(t.bits, i - 1);
      var c := if And(t.mask, m) != 0 then (if And(t.bits, m) != 0 then '1' else '0') else Wildcard;
      assert c == CharAt(t, i - 1);
      buff := buff + [c];
      i := i - 1;
    }
  }

  /** Rendering a valid term and parsing the text gives the term back. */
  lemma ParseRender(w: nat, t: Term)
    requires Valid(w, t)
    ensures Parse(w, Render(w, t)) == t
  {
    var s := Render(w, t);
    var p := Parse(w, s);
    forall k: nat
      ensures Bit(p.bits, k) == Bit(t.bits, k)
      ensures Bit(p.mask, k) == Bit(t.mask, k)
    {
      assert Fixed(p, k) == Bit(p.mask, k);
      if k < w {
        assert FromRight(s, k) == CharAt(t, k);
        if Bit(t.bits, k) {
          ValidBits(w, t, k);
        }
      } else {
        BitAbove(w, t.bits, k);
        BitAbove(w, t.mask, k);
      }
    }
    BitsEqual(p.bits, t.bits);
    BitsEqual(p.mask, t.mask);
  }

  /**
   * Parsing a well-formed string of at most W characters and rendering the
   * term gives the string back, padded on the left with '0' to W characters.
   */
  lemma RenderParse(w: nat, s: string)
    requires |s| <= w && forall k :: 0 <= k < |s| ==> IsDigit(s[k])
    ensures Render(w, Parse(w, s)) == seq(w - |s|, _ => '0') + s
  {
    var t := Parse(w, s);
    var r := Render(w, t);
    var e := seq(w - |s|, _ => '0') + s;
    forall k | 0 <= k < w
      ensures r[k] == e[k]
    {
      var p := w - 1 - k;
      assert FromRight(r, p) == CharAt(t, p);
      if p < |s| {
        assert e[k] == FromRight(s, p);
        assert IsDigit(FromRight(s, p));
      }
    }
  }

  /** In particular a well-formed string of exactly W characters survives the round trip. */
  lemma RenderParseExact(w: nat, s: string)
    requires |s| == w && forall k :: 0 <= k < |s| ==> IsDigit(s[k])
    ensures Render(w, Parse(w, s)) == s
  {
    RenderParse(w, s);
    assert seq(w - |s|, _ => '0') + s == s;
  }

  /** Only the rightmost W characters are read. */
  lemma ParseRightmost(w: nat, s: string)
    requires |s| > w
    ensures Parse(w, s) == Parse(w, s[|s| - w..])
  {
    var a, b := Parse(w, s), Parse(w, s[|s| - w..]);
    forall k: nat
      ensures Bit(a.bits, k) == Bit(b.bits, k)
      ensures Bit(a.mask, k) == Bit(b.mask, k)
    {
      assert Fixed(a, k) == Bit(a.mask, k);
      assert Fixed(b, k) == Bit(b.mask, k);
      if k < w {
        assert FromRight(s[|s| - w..], k) == FromRight(s, k);
      }
    }
    BitsEqual(a.bits, b.bits);
    BitsEqual(a.mask, b.mask);
  }

  /** The number of positions p below n, among the characters of s, whose character from the right is c. */
  function CountFromRight(s: string, c: char, n: nat): nat
  {
    if n == 0 then 0
    else CountFromRight(s, c, n - 1) + (if n - 1 < |s| && FromRight(s, n - 1) == c then 1 else 0)
  }

  /** cardlog2 of a parsed term is the number of '*' among the characters read. */
  lemma ParseCardLog2(w: nat, s: string)
    ensures CardLog2(w, Parse(w, s)) == CountFromRight(s, Wildcard, w)
  {
    var t := Parse(w, s);
    WildcardsCounted(w, s, t, w);
  }

  lemma {:induction false} WildcardsCounted(w: nat, s: string, t: Term, n: nat)
    requires n <= w && t == Parse(w, s)
    ensures ZerosBelow(t.mask, n) == CountFromRight(s, Wildcard, n)
  {
    if n > 0 {
      WildcardsCounted(w, s, t, n - 1);
      assert Fixed(t, n - 1) == Bit(t.mask, n - 1);
    }
  }

  /** On the first n characters, each character of s1 is a wildcard or equals the character of s2. */
  predicate Refines(s1: string, s2: string, n: nat)
    requires n <= |s1| && n <= |s2|
  {
    n == 0 || (Refines(s1, s2, n - 1) && (s1[n - 1] == Wildcard || s1[n - 1] == s2[n - 1]))
  }

  lemma {:induction false} RefinesIff(s1: string, s2: string, n: nat)
    requires n <= |s1| && n <= |s2|
    ensures Refines(s1, s2, n) <==> forall k :: 0 <= k < n ==> s1[k] == Wildcard || s1[k] == s2[k]
  {
    if n > 0 {
      RefinesIff(s1, s2, n - 1);
    }
  }

  /** contains(term) read on the text of two terms of the same width. */
  predicate TextContains(s1: string, s2: string)
    requires |s1| == |s2|
  {
    s1 == s2 ||
    (CountFromRight(s1, Wildcard, |s1|) > CountFromRight(s2, Wildcard, |s2|) && Refines(s1, s2, |s1|))
  }

  /**
   * For well-formed strings of W characters, a.contains(b) holds exactly when
   * the texts are equal, or a's text has more '*' and agrees with b's text
   * wherever it has no '*'.
   */
  lemma ContainsTermText(w: nat, s1: string, s2: string)
    requires |s1| == w && |s2| == w
    requires forall k :: 0 <= k < w ==> IsDigit(s1[k]) && IsDigit(s2[k])
    ensures ContainsTerm(w, Parse(w, s1), Parse(w, s2)) <==> TextContains(s1, s2)
  {
    var a, b := Parse(w, s1), Parse(w, s2);
    SupersetOfIff(w, a, b);
    ParseCardLog2(w, s1);
    ParseCardLog2(w, s2);
    RefinesIff(s1, s2, w);
    if a == b {
      RenderParseExact(w, s1);
      RenderParseExact(w, s2);
    }
    if Refines(s1, s2, w) {
      RefinesAgrees(w, s1, s2);
    }
    if WildcardsWithin(w, b, a) && And(a.bits, a.mask) == And(b.bits, a.mask) {
      AgreesRefines(w, s1, s2);
    }
  }

  /** A refining string pair parses to terms that agree on the first's fixed bits. */
  lemma RefinesAgrees(w: nat, s1: string, s2: string)
    requires |s1| == w && |s2| == w
    requires forall k :: 0 <= k < w ==> IsDigit(s1[k]) && IsDigit(s2[k])
    requires Refines(s1, s2, w)
    ensures WildcardsWithin(w, Parse(w, s2), Parse(w, s1))
    ensures And(Parse(w, s1).bits, Parse(w, s1).mask) == And(Parse(w, s2).bits, Parse(w, s1).mask)
  {
    RefinesIff(s1, s2, w);
    AgreeingWildcards(w, s1, s2);
    AgreeingFixedBits(w, s1, s2);
  }

  /** Where the second pattern has '*', so has the first. */
  lemma AgreeingWildcards(w: nat, s1: string, s2: string)
    requires |s1| == w && |s2| == w
    requires forall k :: 0 <= k < w ==> s1[k] == Wildcard || s1[k] == s2[k]
    ensures WildcardsWithin(w, Parse(w, s2), Parse(w, s1))
  {
    var a, b := Parse(w, s1), Parse(w, s2);
    forall p: nat | p < w && !Fixed(b, p)
      ensures !Fixed(a, p)
    {
      assert FromRight(s1, p) == s1[w - 1 - p];
    }
  }

  /** Where the first pattern has no '*', the two parsed bits agree. */
  lemma AgreeingFixedBits(w: nat, s1: string, s2: string)
    requires |s1| == w && |s2| == w
    requires forall k :: 0 <= k < w ==> s1[k] == Wildcard || s1[k] == s2[k]
    ensures And(Parse(w, s1).bits, Parse(w, s1).mask) == And(Parse(w, s2).bits, Parse(w, s1).mask)
  {
    var a, b := Parse(w, s1), Parse(w, s2);
    forall p: nat
      ensures Bit(And(a.bits, a.mask), p) == Bit(And(b.bits, a.mask), p)
    {
      BitAnd(a.bits, a.mask, p);
      BitAnd(b.bits, a.mask, p);
      assert Fixed(a, p) == Bit(a.mask, p);
      if p < w {
        assert FromRight(s1, p) == s1[w - 1 - p];
        assert FromRight(s2, p) == s2[w - 1 - p];
      }
    }
    BitsEqual(And(a.bits, a.mask), And(b.bits, a.mask));
  }

  /** Terms that agree on the first's fixed bits come from a refining string pair. */
  lemma AgreesRefines(w: nat, s1: string, s2: string)
    requires |s1| == w && |s2| == w
    requires forall k :: 0 <= k < w ==> IsDigit(s1[k]) && IsDigit(s2[k])
    requires WildcardsWithin(w, Parse(w, s2), Parse(w, s1))
    requires And(Parse(w, s1).bits, Parse(w, s1).mask) == And(Parse(w, s2).bits, Parse(w, s1).mask)
    ensures Refines(s1, s2, w)
  {
    var a, b := Parse(w, s1), Parse(w, s2);
    forall k | 0 <= k < w
      ensures s1[k] == Wildcard || s1[k] == s2[k]
    {
      var p := w - 1 - k;
      assert FromRight(s1, p) == s1[k];
      assert FromRight(s2, p) == s2[k];
      if s1[k] != Wildcard {
        assert Fixed(a, p);
        AgreeOnFixed(w, a, b, p);
      }
    }
    RefinesIff(s1, s2, w);
  }

  /** The literal operator `_t8`: the 8-bit term of the string. */
  method T8(dgt: string) returns (t: Term)
    ensures t == Parse(8, dgt)
  {
    t := ParseTerm(8, dgt);
  }

  /** `_t16` */
  method T16(dgt: string) returns (t: Term)
    ensures t == Parse(16, dgt)
  {
    t := ParseTerm(16, dgt);
  }

  /** `_t32` */
  method T32(dgt: string) returns (t: Term)
    ensures t == Parse(32, dgt)
  {
    t := ParseTerm(32, dgt);
  }

  /** `_t64` */
  method T64(dgt: string) returns (t: Term)
    ensures t == Parse(64, dgt)
  {
    t := ParseTerm(64, dgt);
  }
}
