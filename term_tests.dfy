/**
 * The assertions of `test_term` (Src/main.cpp), stated about the model: the
 * 8-bit literals a to f, their rendering, their wildcard counts, and the
 * containment relations asserted between them.  The width is a parameter
 * fixed to 8 by the precondition, which keeps the verifier from evaluating
 * the bit-level definitions on literal arguments; one lemma per wildcard
 * count and per containment keeps each proof small.
 */
module TermTests {
  import opened Terms
  import opened TermText

  /** a.to_string() == "*101*101", and so on for b to f. */
  lemma TestToString(w: nat)
    requires w == 8
    ensures Render(w, Parse(w, "*101*101")) == "*101*101"
    ensures Render(w, Parse(w, "110*110*")) == "110*110*"
    ensures Render(w, Parse(w, "*10*110*")) == "*10*110*"
    ensures Render(w, Parse(w, "*11*110*")) == "*11*110*"
    ensures Render(w, Parse(w, "**0*110*")) == "**0*110*"
    ensures Render(w, Parse(w, "10011100")) == "10011100"
  {
    RenderParseExact(w, "*101*101");
    RenderParseExact(w, "110*110*");
    RenderParseExact(w, "*10*110*");
    RenderParseExact(w, "*11*110*");
    RenderParseExact(w, "**0*110*");
    RenderParseExact(w, "10011100");
  }

  /** a.cardlog2() == 2, for a = "*101*101"_t8 */
  lemma TestCardLog2A(w: nat)
    requires w == 8
    ensures CardLog2(w, Parse(w, "*101*101")) == 2
  {
    ParseCardLog2(w, "*101*101");
    WildcardsA();
  }

  /** b.cardlog2() == 2, for b = "110*110*"_t8 */
  lemma TestCardLog2B(w: nat)
    requires w == 8
    ensures CardLog2(w, Parse(w, "110*110*")) == 2
  {
    ParseCardLog2(w, "110*110*");
    WildcardsB();
  }

  /** c.cardlog2() == 3, for c = "*10*110*"_t8 */
  lemma TestCardLog2C(w: nat)
    requires w == 8
    ensures CardLog2(w, Parse(w, "*10*110*")) == 3
  {
    ParseCardLog2(w, "*10*110*");
    WildcardsC();
  }

  /** d.cardlog2() == 3, for d = "*11*110*"_t8 */
  lemma TestCardLog2D(w: nat)
    requires w == 8
    ensures CardLog2(w, Parse(w, "*11*110*")) == 3
  {
    ParseCardLog2(w, "*11*110*");
    WildcardsD();
  }

  /** e.cardlog2() == 4, for e = "**0*110*"_t8 */
  lemma TestCardLog2E(w: nat)
    requires w == 8
    ensures CardLog2(w, Parse(w, "**0*110*")) == 4
  {
    ParseCardLog2(w, "**0*110*");
    WildcardsE();
  }

  /** f.cardlog2() == 0, for f = "10011100"_t8 */
  lemma TestCardLog2F(w: nat)
    requires w == 8
    ensures CardLog2(w, Parse(w, "10011100")) == 0
  {
    ParseCardLog2(w, "10011100");
    WildcardsF();
  }

  /** a.contains(b) == false */
  lemma TestContainsAB(w: nat)
    requires w == 8
    ensures !ContainsTerm(w, Parse(w, "*101*101"), Parse(w, "110*110*"))
  {
    ContainsTermText(w, "*101*101", "110*110*");
    WildcardsA();
    WildcardsB();
  }

  /** b.contains(a) == false */
  lemma TestContainsBA(w: nat)
    requires w == 8
    ensures !ContainsTerm(w, Parse(w, "110*110*"), Parse(w, "*101*101"))
  {
    ContainsTermText(w, "110*110*", "*101*101");
    WildcardsB();
    WildcardsA();
  }

  /** b.contains(c) == false */
  lemma TestContainsBC(w: nat)
    requires w == 8
    ensures !ContainsTerm(w, Parse(w, "110*110*"), Parse(w, "*10*110*"))
  {
    ContainsTermText(w, "110*110*", "*10*110*");
    WildcardsB();
    WildcardsC();
  }

  /** c.contains(b) == true */
  lemma TestContainsCB(w: nat)
    requires w == 8
    ensures ContainsTerm(w, Parse(w, "*10*110*"), Parse(w, "110*110*"))
  {
    ContainsTermText(w, "*10*110*", "110*110*");
    WildcardsC();
    WildcardsB();
    RefinesCB();
  }

  /** d.contains(b) == false */
  lemma TestContainsDB(w: nat)
    requires w == 8
    ensures !ContainsTerm(w, Parse(w, "*11*110*"), Parse(w, "110*110*"))
  {
    ContainsTermText(w, "*11*110*", "110*110*");
    WildcardsD();
    WildcardsB();
    RefinesIff("*11*110*", "110*110*", 8);
    assert "*11*110*"[2] != Wildcard && "*11*110*"[2] != "110*110*"[2];
  }

  /** e.contains(b) == true */
  lemma TestContainsEB(w: nat)
    requires w == 8
    ensures ContainsTerm(w, Parse(w, "**0*110*"), Parse(w, "110*110*"))
  {
    ContainsTermText(w, "**0*110*", "110*110*");
    WildcardsE();
    WildcardsB();
    RefinesEB();
  }

  /** e.contains(f) == true */
  lemma TestContainsEF(w: nat)
    requires w == 8
    ensures ContainsTerm(w, Parse(w, "**0*110*"), Parse(w, "10011100"))
  {
    ContainsTermText(w, "**0*110*", "10011100");
    WildcardsE();
    WildcardsF();
    RefinesEF();
  }

  /** d.contains(f) == false */
  lemma TestContainsDF(w: nat)
    requires w == 8
    ensures !ContainsTerm(w, Parse(w, "*11*110*"), Parse(w, "10011100"))
  {
    ContainsTermText(w, "*11*110*", "10011100");
    WildcardsD();
    WildcardsF();
    RefinesIff("*11*110*", "10011100", 8);
    assert "*11*110*"[1] != Wildcard && "*11*110*"[1] != "10011100"[1];
  }

  // The number of wildcards of each literal.

  lemma WildcardsA()
    ensures CountFromRight("*101*101", Wildcard, 8) == 2
  {
  }

  lemma WildcardsB()
    ensures CountFromRight("110*110*", Wildcard, 8) == 2
  {
  }

  lemma WildcardsC()
    ensures CountFromRight("*10*110*", Wildcard, 8) == 3
  {
  }

  lemma WildcardsD()
    ensures CountFromRight("*11*110*", Wildcard, 8) == 3
  {
  }

  lemma WildcardsE()
    ensures CountFromRight("**0*110*", Wildcard, 8) == 4
  {
  }

  lemma WildcardsF()
    ensures CountFromRight("10011100", Wildcard, 8) == 0
  {
  }

  // The positive containments, character by character.

  lemma RefinesCB()
    ensures Refines("*10*110*", "110*110*", 8)
  {
  }

  lemma RefinesEB()
    ensures Refines("**0*110*", "110*110*", 8)
  {
  }

  lemma RefinesEF()
    ensures Refines("**0*110*", "10011100", 8)
  {
  }
}
