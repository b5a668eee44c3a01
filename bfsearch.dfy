/**
 * `bfsearch<T>::find_solution` (Src/bfsearch.hpp): the search for a set of
 * implicants that covers a list of minterms.  A node is a permutation of
 * the implicants whose first `used` entries are selected, together with the
 * minterms those selected implicants leave uncovered.  The fringe is a
 * priority queue ordered by `node_less`; a node equal (same selected
 * prefix) to one already expanded is skipped; a node with nothing left
 * uncovered is the answer.
 *
 * The priority queue is a sequence from which an element that no other
 * element exceeds under `node_less` is removed; which of several such
 * elements `std::priority_queue` returns is left open.  The set of expanded
 * nodes is the set of their selected prefixes: two nodes are `node_equal`
 * exactly when their prefixes are equal, and `node_hash` depends on the
 * prefix alone.
 */
module BestFirstSearch {
  import opened Bits
  import opened Terms
  import opened Options

  /** node: the permuted implicants, the still uncovered minterms, the length of the selected prefix. */
  datatype Node = Node(impl: seq<Term>, term: seq<nat>, used: nat)

  predicate AllWords(w: nat, ts: seq<nat>)
  {
    forall v :: v in ts ==> IsWord(w, v)
  }

  predicate AllTerms(w: nat, impl: seq<Term>)
  {
    forall t :: t in impl ==> WordTerm(w, t)
  }

  /** Every minterm of ts is contained in some implicant of sel. */
  predicate Covers(w: nat, sel: seq<Term>, ts: seq<nat>)
    requires AllTerms(w, sel) && AllWords(w, ts)
  {
    forall v :: v in ts ==> exists t :: t in sel && Contains(w, t, v)
  }

  // ---------------------------------------------------------------------
  // Removing the covered minterms

  /** The minterms of ts that t does not contain, in their order. */
  function RemoveCovered(w: nat, ts: seq<nat>, t: Term): (r: seq<nat>)
    requires WordTerm(w, t) && AllWords(w, ts)
    ensures AllWords(w, r) && |r| <= |ts|
    ensures forall v :: v in r <==> v in ts && !Contains(w, t, v)
  {
    if ts == [] then []
    else
      var last := ts[|ts| - 1];
      assert ts == ts[..|ts| - 1] + [last];
      var r := RemoveCovered(w, ts[..|ts| - 1], t);
      if Contains(w, t, last) then r else r + [last]
  }

  /**
   * The loop at the heart of an expansion: the child's list keeps the
   * parent's minterms that the newly selected implicant does not contain.
   */
  method RemainingTerms(w: nat, ts: seq<nat>, t: Term) returns (term: seq<nat>)
    requires WordTerm(w, t) && AllWords(w, ts)
    ensures term == RemoveCovered(w, ts, t)
  {
    term := [];
    var k := 0;
    while k < |ts|
      invariant 0 <= k <= |ts|
      invariant term == RemoveCovered(w, ts[..k], t)
    {
      assert ts[..k + 1][..k] == ts[..k];
      if !Contains(w, t, ts[k]) {
        term := term + [ts[k]];
      }
      k := k + 1;
    }
    assert ts[..|ts|] == ts;
  }

  /** The minterms of ts that no implicant of sel contains: what a node with prefix sel has left. */
  function Uncovered(w: nat, ts: seq<nat>, sel: seq<Term>): (r: seq<nat>)
    requires AllWords(w, ts) && AllTerms(w, sel)
    ensures AllWords(w, r) && |r| <= |ts|
  {
    if sel == [] then ts
    else
      var last := sel[|sel| - 1];
      assert sel == sel[..|sel| - 1] + [last];
      RemoveCovered(w, Uncovered(w, ts, sel[..|sel| - 1]), last)
  }

  /** A minterm is left exactly when no implicant of sel contains it. */
  lemma {:induction false} UncoveredMembers(w: nat, ts: seq<nat>, sel: seq<Term>)
    requires AllWords(w, ts) && AllTerms(w, sel)
    ensures forall v :: v in Uncovered(w, ts, sel) <==> v in ts && forall t :: t in sel ==> !Contains(w, t, v)
  {
    if sel != [] {
      var init := sel[..|sel| - 1];
      assert sel == init + [sel[|sel| - 1]];
      UncoveredMembers(w, ts, init);
    }
  }

  /** Selecting one more implicant removes the minterms it contains. */
  lemma UncoveredStep(w: nat, ts: seq<nat>, sel: seq<Term>, t: Term)
    requires AllWords(w, ts) && AllTerms(w, sel) && WordTerm(w, t)
    ensures AllTerms(w, sel + [t])
    ensures Uncovered(w, ts, sel + [t]) == RemoveCovered(w, Uncovered(w, ts, sel), t)
  {
    assert (sel + [t])[..|sel|] == sel;
  }

  /** Nothing is left uncovered exactly when the selected implicants cover the minterms. */
  lemma UncoveredEmptyIff(w: nat, ts: seq<nat>, sel: seq<Term>)
    requires AllWords(w, ts) && AllTerms(w, sel)
    ensures Uncovered(w, ts, sel) == [] <==> Covers(w, sel, ts)
  {
    var r := Uncovered(w, ts, sel);
    UncoveredMembers(w, ts, sel);
    if r != [] {
      assert r[0] in r;
    }
  }

  // ---------------------------------------------------------------------
  // The node relations

  /** node_equal: the same `used`, and the same first `used` implicants. */
  method NodeEqual(lhs: Node, rhs: Node) returns (r: bool)
    requires lhs.used == rhs.used ==> lhs.used <= |lhs.impl| && rhs.used <= |rhs.impl|
    ensures r <==> lhs.used == rhs.used && lhs.impl[..lhs.used] == rhs.impl[..rhs.used]
  {
    if lhs.used != rhs.used {
      return false;
    }
    var i := 0;
    while i < lhs.used
      invariant 0 <= i <= lhs.used
      invariant forall j :: 0 <= j < i ==> lhs.impl[j] == rhs.impl[j]
    {
      if NotEqual(lhs.impl[i], rhs.impl[i]) {
        assert lhs.impl[..lhs.used][i] != rhs.impl[..rhs.used][i];
        return false;
      }
      i := i + 1;
    }
    return true;
  }

  /** node_less: fewer uncovered minterms first, then fewer selected implicants. */
  predicate NodeLess(lhs: Node, rhs: Node)
  {
    if |lhs.term| == |rhs.term| then lhs.used < rhs.used
    else |lhs.term| < |rhs.term|
  }

  /** node_less is a strict weak order, as std::priority_queue requires: its incomparability is equality of both keys. */
  lemma NodeLessStrictWeakOrder(a: Node, b: Node, c: Node)
    ensures !NodeLess(a, a)
    ensures NodeLess(a, b) ==> !NodeLess(b, a)
    ensures NodeLess(a, b) && NodeLess(b, c) ==> NodeLess(a, c)
    ensures !NodeLess(a, b) && !NodeLess(b, a) <==> |a.term| == |b.term| && a.used == b.used
  {
  }

  /** fringe[k] is a node that `top()` may return: no node of the fringe is greater. */
  predicate IsTop(fringe: seq<Node>, k: int)
  {
    0 <= k < |fringe| && forall j :: 0 <= j < |fringe| ==> !NodeLess(fringe[k], fringe[j])
  }

  /** A non-empty fringe has a top. */
  lemma {:induction false} TopExists(fringe: seq<Node>)
    requires fringe != []
    ensures exists k :: IsTop(fringe, k)
  {
    if |fringe| > 1 {
      var init := fringe[..|fringe| - 1];
      TopExists(init);
      var k :| IsTop(init, k);
      var last := |fringe| - 1;
      if NodeLess(fringe[k], fringe[last]) {
        forall j | 0 <= j < |fringe|
          ensures !NodeLess(fringe[last], fringe[j])
        {
          if j < last {
            assert init[j] == fringe[j];
            NodeLessStrictWeakOrder(fringe[last], fringe[j], fringe[k]);
            NodeLessStrictWeakOrder(fringe[k], fringe[last], fringe[j]);
          }
        }
        assert IsTop(fringe, last);
      } else {
        forall j | 0 <= j < |fringe|
          ensures !NodeLess(fringe[k], fringe[j])
        {
          if j < last {
            assert init[j] == fringe[j];
          }
        }
        assert IsTop(fringe, k);
      }
    } else {
      assert IsTop(fringe, 0);
    }
  }

  /**
   * The queue pops the node with the most uncovered minterms, so a node
   * with none left comes out only once every node in the fringe has none.
   */
  lemma GoalsPoppedLast(fringe: seq<Node>, k: int)
    requires IsTop(fringe, k)
    ensures forall j :: 0 <= j < |fringe| ==> |fringe[j].term| <= |fringe[k].term|
    ensures fringe[k].term == [] ==> forall j :: 0 <= j < |fringe| ==> fringe[j].term == []
  {
  }

  /**
   * Among goals node_less compares used, so a popped goal has the most
   * implicants selected of all goals in the fringe.
   */
  lemma GoalPoppedDeepest(fringe: seq<Node>, k: int)
    requires IsTop(fringe, k) && fringe[k].term == []
    ensures forall j :: 0 <= j < |fringe| && fringe[j].term == [] ==> fringe[j].used <= fringe[k].used
  {
  }

  // ---------------------------------------------------------------------
  // Sequence facts used by the search

  /** swap(impl[u], impl[i]) with i >= u permutes impl and keeps its first u entries. */
  lemma SwapFacts(s: seq<Term>, u: nat, i: nat)
    requires u <= i < |s|
    ensures var s' := s[u := s[i]][i := s[u]];
      |s'| == |s| && multiset(s') == multiset(s) && s'[u] == s[i] && s'[..u + 1] == s[..u] + [s[i]]
  {
    var s' := s[u := s[i]][i := s[u]];
    assert s'[..u + 1] == s[..u] + [s[i]];
  }

  /** A prefix draws its elements from the whole. */
  lemma PrefixMultiset(s: seq<Term>, k: nat)
    requires k <= |s|
    ensures multiset(s[..k]) <= multiset(s)
    ensures forall t :: t in s[..k] ==> t in s
  {
    assert s == s[..k] + s[k..];
  }

  /** Removing position k keeps every other element and adds none. */
  lemma RemoveAtMembers(s: seq<Node>, k: int)
    requires 0 <= k < |s|
    ensures forall x :: x in s[..k] + s[k + 1..] ==> x in s
    ensures forall x :: x in s && x != s[k] ==> x in s[..k] + s[k + 1..]
  {
    assert s == s[..k] + [s[k]] + s[k + 1..];
  }

  // ---------------------------------------------------------------------
  // Termination measure

  /** a * b, by repeated addition, so that the measure stays in linear arithmetic. */
  function Times(a: nat, b: nat): (r: nat)
    ensures a > 0 ==> r >= b
  {
    if a == 0 then 0 else Times(a - 1, b) + b
  }

  /**
   * A bound on the pops a node of used u may still cause when there are n
   * implicants: itself, and at most n - u children, each with used u + 1.
   */
  function Weight(n: nat, u: nat): (r: nat)
    ensures r >= 1
    decreases n - u
  {
    if u >= n then 1 else 1 + Times(n - u, Weight(n, u + 1))
  }

  function SumWeight(n: nat, fringe: seq<Node>): nat
  {
    if fringe == [] then 0
    else SumWeight(n, fringe[..|fringe| - 1]) + Weight(n, fringe[|fringe| - 1].used)
  }

  lemma SumWeightAppend(n: nat, fringe: seq<Node>, x: Node)
    ensures SumWeight(n, fringe + [x]) == SumWeight(n, fringe) + Weight(n, x.used)
  {
    assert (fringe + [x])[..|fringe|] == fringe;
  }

  /** An expansion replaces a node of used u by n - u nodes of used u + 1, and weighs less. */
  lemma ExpansionShrinks(n: nat, u: nat)
    requires u <= n
    ensures Times(n - u, Weight(n, u + 1)) < Weight(n, u)
  {
  }

  lemma {:induction false} SumWeightConcat(n: nat, s: seq<Node>, t: seq<Node>)
    ensures SumWeight(n, s + t) == SumWeight(n, s) + SumWeight(n, t)
    decreases |t|
  {
    if t == [] {
      assert s + t == s;
    } else {
      var init := t[..|t| - 1];
      assert s + t == (s + init) + [t[|t| - 1]];
      SumWeightAppend(n, s + init, t[|t| - 1]);
      SumWeightConcat(n, s, init);
    }
  }

  /** Nodes that all have used u weigh Weight(n, u) each. */
  lemma {:induction false} SumWeightUniform(n: nat, s: seq<Node>, u: nat)
    requires forall j :: 0 <= j < |s| ==> s[j].used == u
    ensures SumWeight(n, s) == Times(|s|, Weight(n, u))
  {
    if s != [] {
      SumWeightUniform(n, s[..|s| - 1], u);
    }
  }

  /** n - u children of used u + 1 weigh less than the node of used u they replace. */
  lemma ExpandWeight(n: nat, fringe: seq<Node>, kids: seq<Node>, u: nat)
    requires u <= n && |kids| == n - u
    requires forall j :: 0 <= j < |kids| ==> kids[j].used == u + 1
    ensures SumWeight(n, fringe + kids) < SumWeight(n, fringe) + Weight(n, u)
  {
    SumWeightConcat(n, fringe, kids);
    SumWeightUniform(n, kids, u + 1);
    ExpansionShrinks(n, u);
  }

  lemma {:induction false} SumWeightRemove(n: nat, fringe: seq<Node>, k: int)
    requires 0 <= k < |fringe|
    ensures SumWeight(n, fringe) == SumWeight(n, fringe[..k] + fringe[k + 1..]) + Weight(n, fringe[k].used)
  {
    var last := |fringe| - 1;
    if k < last {
      var init := fringe[..last];
      SumWeightRemove(n, init, k);
      assert fringe[..k] + fringe[k + 1..] == (init[..k] + init[k + 1..]) + [fringe[last]];
      SumWeightAppend(n, init[..k] + init[k + 1..], fringe[last]);
    } else {
      assert fringe[..k] + fringe[k + 1..] == fringe[..last];
    }
  }

  // ---------------------------------------------------------------------
  // The search

  /**
   * What every node in the fringe satisfies: its implicants are a
   * permutation of the input, and its minterm list is what its selected
   * prefix leaves uncovered.
   */
  predicate NodeOk(w: nat, terms: seq<nat>, implicants: seq<Term>, n: Node)
    requires AllWords(w, terms)
  {
    multiset(n.impl) == multiset(implicants) && |n.impl| == |implicants| &&
    AllTerms(w, n.impl) &&
    n.used <= |n.impl| &&
    n.term == Uncovered(w, terms, n.impl[..n.used])
  }

  /** With every implicant selected, a coverable input leaves nothing uncovered. */
  lemma FullPrefixIsGoal(w: nat, terms: seq<nat>, implicants: seq<Term>, n: Node)
    requires AllWords(w, terms) && AllTerms(w, implicants)
    requires NodeOk(w, terms, implicants, n) && n.used == |n.impl|
    requires Covers(w, implicants, terms)
    ensures n.term == []
  {
    assert n.impl[..n.used] == n.impl;
    forall v | v in terms
      ensures exists t :: t in n.impl && Contains(w, t, v)
    {
      var t :| t in implicants && Contains(w, t, v);
      assert t in multiset(n.impl);
    }
    UncoveredEmptyIff(w, terms, n.impl);
  }

  /** A goal node's prefix: drawn from the input, and covering every minterm. */
  lemma GoalPrefix(w: nat, terms: seq<nat>, implicants: seq<Term>, n: Node)
    requires AllWords(w, terms) && AllTerms(w, implicants)
    requires NodeOk(w, terms, implicants, n) && n.term == []
    ensures multiset(n.impl[..n.used]) <= multiset(implicants)
    ensures forall t :: t in n.impl[..n.used] ==> t in implicants
    ensures Covers(w, n.impl[..n.used], terms)
    ensures Covers(w, implicants, terms)
  {
    var sel := n.impl[..n.used];
    PrefixMultiset(n.impl, n.used);
    forall t | t in sel
      ensures t in implicants
    {
      assert t in multiset(n.impl);
    }
    UncoveredEmptyIff(w, terms, sel);
    forall v | v in terms
      ensures exists t :: t in implicants && Contains(w, t, v)
    {
      var t :| t in sel && Contains(w, t, v);
      assert t in implicants;
    }
  }

  /** The child that pushing with `swap(impl[u], impl[i])` creates. */
  lemma ChildOk(w: nat, terms: seq<nat>, implicants: seq<Term>, curr: Node, i: nat, child: Node)
    requires AllWords(w, terms)
    requires NodeOk(w, terms, implicants, curr) && curr.used <= i < |curr.impl|
    requires child.impl == curr.impl[curr.used := curr.impl[i]][i := curr.impl[curr.used]]
    requires child.used == curr.used + 1
    requires AllTerms(w, [child.impl[curr.used]])
    requires child.term == RemoveCovered(w, curr.term, child.impl[curr.used])
    ensures NodeOk(w, terms, implicants, child)
  {
    var u := curr.used;
    SwapFacts(curr.impl, u, i);
    forall t | t in child.impl
      ensures WordTerm(w, t)
    {
      assert t in multiset(curr.impl);
    }
    PrefixMultiset(curr.impl, u);
    UncoveredStep(w, terms, curr.impl[..u], curr.impl[i]);
  }

  /** The fringe after an expansion: the old nodes, then the children. */
  lemma ExpandedFringe(w: nat, terms: seq<nat>, implicants: seq<Term>, curr: Node, fringe: seq<Node>, kids: seq<Node>)
    requires AllWords(w, terms) && NodeOk(w, terms, implicants, curr)
    requires |kids| == |curr.impl| - curr.used
    requires forall j :: 0 <= j < |kids| ==>
      NodeOk(w, terms, implicants, kids[j]) && kids[j].used == curr.used + 1
    ensures (fringe + kids)[..|fringe|] == fringe
    ensures forall j :: |fringe| <= j < |fringe + kids| ==>
      NodeOk(w, terms, implicants, (fringe + kids)[j]) && (fringe + kids)[j].used == curr.used + 1
    ensures SumWeight(|implicants|, fringe + kids) < SumWeight(|implicants|, fringe) + Weight(|implicants|, curr.used)
    ensures forall x :: x in fringe ==> x in fringe + kids
    ensures forall x :: x in fringe + kids ==>
      x in fringe || (NodeOk(w, terms, implicants, x) && x.used == curr.used + 1)
    ensures curr.used < |curr.impl| ==> exists x :: x in fringe + kids && x.used == curr.used + 1
  {
    var out := fringe + kids;
    assert out[..|fringe|] == fringe;
    forall j | |fringe| <= j < |out|
      ensures out[j] == kids[j - |fringe|]
    {
    }
    forall x | x in out
      ensures x in fringe || (NodeOk(w, terms, implicants, x) && x.used == curr.used + 1)
    {
      var j :| 0 <= j < |out| && out[j] == x;
      if j >= |fringe| {
        assert x == kids[j - |fringe|];
      }
    }
    if curr.used < |curr.impl| {
      assert out[|fringe|] in out;
    }
    ExpandWeight(|implicants|, fringe, kids, curr.used);
  }

  /**
   * The expansion of a non-goal node: for each i from used on, a child
   * with impl[used] and impl[i] swapped, used one larger, and the minterms
   * that the newly selected implicant leaves, is pushed onto the fringe.
   */
  method Expand(w: nat, terms: seq<nat>, implicants: seq<Term>, curr: Node, fringe: seq<Node>)
    returns (out: seq<Node>)
    requires AllWords(w, terms) && NodeOk(w, terms, implicants, curr)
    ensures |out| == |fringe| + |curr.impl| - curr.used && out[..|fringe|] == fringe
    ensures forall j :: |fringe| <= j < |out| ==>
      NodeOk(w, terms, implicants, out[j]) && out[j].used == curr.used + 1
    ensures SumWeight(|implicants|, out) < SumWeight(|implicants|, fringe) + Weight(|implicants|, curr.used)
    ensures forall x :: x in fringe ==> x in out
    ensures forall x :: x in out ==> x in fringe || (NodeOk(w, terms, implicants, x) && x.used == curr.used + 1)
    ensures curr.used < |curr.impl| ==> exists x :: x in out && x.used == curr.used + 1
  {
    var u := curr.used;
    var c_impl := curr.impl;
    out := fringe;
    ghost var kids: seq<Node> := [];
    var i := u;
    while i < |c_impl|
      invariant u <= i <= |c_impl|
      invariant |kids| == i - u && out == fringe + kids
      invariant forall j :: 0 <= j < |kids| ==>
        NodeOk(w, terms, implicants, kids[j]) && kids[j].used == u + 1
    {
      var impl := c_impl;
      impl := impl[u := c_impl[i]][i := c_impl[u]];
      assert impl[u] in curr.impl;
      var term := RemainingTerms(w, curr.term, impl[u]);
      var child := Node(impl, term, u + 1);
      ChildOk(w, terms, implicants, curr, i, child);
      out := out + [child];
      kids := kids + [child];
      i := i + 1;
    }
    ExpandedFringe(w, terms, implicants, curr, fringe, kids);
  }

  /**
   * `top()` then `pop()`: a greatest node leaves the fringe; the others stay.
   * n is the number of implicants, for the termination measure.
   */
  method Pop(ghost n: nat, fringe: seq<Node>) returns (curr: Node, rest: seq<Node>)
    requires fringe != []
    ensures exists k :: IsTop(fringe, k) && curr == fringe[k] && rest == fringe[..k] + fringe[k + 1..]
    ensures curr in fringe
    ensures SumWeight(n, fringe) == SumWeight(n, rest) + Weight(n, curr.used)
    ensures forall x :: x in rest ==> x in fringe
    ensures forall x :: x in fringe && x != curr ==> x in rest
  {
    TopExists(fringe);
    var k :| IsTop(fringe, k);
    curr := fringe[k];
    rest := fringe[..k] + fringe[k + 1..];
    SumWeightRemove(n, fringe, k);
    RemoveAtMembers(fringe, k);
  }

  /**
   * find_solution: the first node popped with no uncovered minterm gives
   * its selected prefix; a fringe that runs empty gives nothing.
   *
   * The result is present exactly when every minterm is contained in some
   * implicant; it then covers every minterm and is drawn from the
   * implicants without repetition beyond theirs.
   */
  method FindSolution(w: nat, terms: seq<nat>, implicants: seq<Term>) returns (r: Option<seq<Term>>)
    requires AllWords(w, terms) && AllTerms(w, implicants)
    ensures r.Some? <==> Covers(w, implicants, terms)
    ensures r.Some? ==> multiset(r.value) <= multiset(implicants) && |r.value| <= |implicants|
    ensures r.Some? ==> (forall t :: t in r.value ==> t in implicants) && Covers(w, r.value, terms)
    ensures terms == [] ==> r == Some([])
  {
    var root := Node(implicants, terms, 0);
    assert root.impl[..0] == [];
    var fringe := [root];
    var expanded: set<seq<Term>> := {};
    ghost var n := |implicants|;
    ghost var coverable := Covers(w, implicants, terms);
    // the length of the longest prefix expanded so far
    ghost var depth: int := -1;
    while fringe != []
      invariant forall x :: x in fringe ==> NodeOk(w, terms, implicants, x)
      invariant forall x :: x in fringe ==> x.used <= depth + 1
      invariant forall p :: p in expanded ==> |p| <= depth
      invariant expanded == {} ==> fringe == [root] && depth == -1
      invariant terms == [] ==> expanded == {}
      invariant coverable && expanded != {} ==> exists x :: x in fringe && x.used == depth + 1
      decreases SumWeight(n, fringe)
    {
      ghost var before := fringe;
      var curr;
      curr, fringe := Pop(n, fringe);
      if curr.term != [] {
        var u := curr.used;
        var key := curr.impl[..u];
        if key in expanded {
          assert u <= depth;
          assert coverable ==> exists x :: x in before && x.used == depth + 1 && x != curr;
          continue;
        }
        ghost var wasEmpty := expanded == {};
        expanded := expanded + {key};
        if coverable && u == |curr.impl| {
          FullPrefixIsGoal(w, terms, implicants, curr);
        }
        if u == depth + 1 {
          depth := u;
        } else {
          assert !wasEmpty;
          assert coverable ==> exists x :: x in before && x.used == depth + 1 && x != curr;
        }
        fringe := Expand(w, terms, implicants, curr, fringe);
        continue;
      }
      GoalPrefix(w, terms, implicants, curr);
      return Some(curr.impl[..curr.used]);
    }
    return None;
  }
}
