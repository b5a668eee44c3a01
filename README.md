# QMsolver core in Dafny

This project models the core of QMsolver, a Quine–McCluskey minimiser of
Boolean functions written in C++ templates over the unsigned types
`uint8_t` … `uint64_t`, and proves properties of that model.

- **Bits, Utils** (`bits.dfy`, `utils.dfy`) model `Src/utils.hpp`. Its first 78 lines are also
  `Src/popcount.hpp`, word for word, so one model serves both files.
  - W-bit values are natural numbers below 2^W, with the bitwise operators
    defined bit by bit.
  - `_fallback_popcount` is Kernighan's loop, proved to count the set bits.
  - Signed arguments are counted through their same-width unsigned pattern.
  - Every branch of the per-compiler `popcount` dispatch gives the same count.
  - `not_`, `xor_`, `and_` and `_or` return the result in the first operand's
    type: `not_` is `~x` on the promoted operand cast back, which is
    2^W − 1 − x.
- **Terms** (`term.dfy`) is the ternary cube `term<T>`: a `(bits, mask)` pair.
  A mask bit of 1 fixes a position; 0 makes it a wildcard. The module covers:
  - the normalising constructor, `inv_mask`, `cardlog2` and `cardinality`;
  - both `contains`, `superset_of` and `subset_of`;
  - the six relational operators built on containment;
  - the free functions `distance`, `combine` and `absorb`.
  Containment is proved equivalent to inclusion of the sets of covered
  values. `combine` is proved to merge exactly the pairs with equal masks
  that differ in one fixed position. Its result covers exactly the union of
  the two inputs.
- **TermText** (`term_text.dfy`) models the string constructor and
  `to_string` as loops. They are proved equal to the functions `Parse` and
  `Render`, which round-trip. It also models the `_t8` … `_t64` literals.
- **TermTests** (`term_tests.dfy`) proves the assertions of `test_term`
  (Src/main.cpp) about the model.
- **TermExplode** (`term_explode.dfy`) models `explode` as a method that
  returns the generator's output as a sequence. The i-th value is `bits`
  with bit j of i placed at the j-th lowest wildcard. The values are exactly
  the W-bit values the term contains, and they strictly ascend.
- **BestFirstSearch** (`bfsearch.dfy`) models `bfsearch<T>::find_solution`.
  - **State.** The `std::priority_queue` is a sequence, and each pop removes
    a node that no other node exceeds under `node_less`. The
    `unordered_set` of expanded nodes is the set of their selected
    prefixes.
  - **Result.** The method is proved to terminate. When every minterm is
    contained in some implicant, a goal node is popped before the queue
    runs empty, and the returned prefix is a cover drawn from the
    implicants. A result is only ever a cover, so otherwise the queue runs
    empty. There the source has no `return` and control falls off the end
    of a function returning `std::optional`, which is undefined behaviour;
    the model returns `None` in its place.
  - **Search order.** `node_less` with `std::priority_queue` pops the node
    with the MOST uncovered minterms. So a goal node comes out only when
    every node in the fringe is a goal (`GoalsPoppedLast`), and the
    returned cover need not be minimal.

The width W is a parameter throughout. Where the C++ depends on the
concrete type (integer promotion of the 8- and 16-bit types, the intrinsic
chosen, `cardinality` for a full-width wildcard count), W is restricted to
8, 16, 32 or 64 (`Bits.Width`).

## Model

| member | source | states |
|---|---|---|
| Bits.ClearLowestSetBit | Src/utils.hpp:13-14 | `value & (value - 1)` removes exactly the lowest set bit, so the popcount drops by one |
| Bits.PopCountWord | Src/utils.hpp:12-15 | a W-bit value has at most W set bits |
| Bits.PopCountXorCountsDifferences | Src/term.hpp:184 | the popcount of an xor is the number of positions where the operands differ |
| Bits.PopCountXorAnd | Src/term.hpp:76 | popcount(x ^ y) + 2·popcount(x & y) = popcount(x) + popcount(y), the identity behind the mask test of superset_of |
| Bits.PopCountOne | Src/term.hpp:184 | popcount(m) == 1 exactly when m is a single power of two |
| Utils.Truncate | Src/utils.hpp:87 | the cast to the W-bit type is reduction modulo 2^W and keeps a W-bit value |
| Utils.NotW | Src/utils.hpp:84-88 | not_(x) is 2^W − 1 − x, a W-bit value whose bit i is set exactly for i < W with bit i of x clear |
| Utils.XorW | Src/utils.hpp:90-94 | xor_ converts the second operand to the first's type and each result bit is the xor of the operands' bits |
| Utils.AndW | Src/utils.hpp:96-100 | and_ converts the second operand and each result bit is the and of the operands' bits |
| Utils.OrW | Src/utils.hpp:102-106 | _or converts the second operand and each result bit is the or of the operands' bits |
| Utils.HelpersOnWords | Src/utils.hpp:90-106 | on two operands of the same type the helpers are the plain bitwise operators |
| Utils.TruncateNegative | Src/utils.hpp:19-20 | a negative value cast to the unsigned type is the value plus 2^W |
| Utils.FallbackPopCount | Src/utils.hpp:8-16 | the loop terminates and returns the set-bit count, between 0 and W |
| Utils.FallbackPopCountSigned | Src/utils.hpp:17-21 | a signed argument is counted as its unsigned same-width reinterpretation |
| Utils.SignedNegativeCount | Src/utils.hpp:55-59 | a negative signed value has W minus popcount(−v − 1) set bits |
| Utils.PopCountOfComplement | Src/utils.hpp:84-88 | not_ turns k set bits of a W-bit value into W − k |
| Utils.IntrinsicWidth | Src/utils.hpp:41-46 | the parameter type of the intrinsic each compiler selects is at least as wide as the argument |
| Utils.Popcount | Src/utils.hpp:29-78 | every branch of the dispatch (MSVC, GCC/Clang, fallback) returns the set-bit count of the argument |
| Terms.MakeTerm | Src/term.hpp:33-38 | term(bits, mask) stores the mask as given, keeps exactly the bits set in both, and is normalised (bits & ~mask == 0) |
| Terms.DefaultTerm | Src/term.hpp:33-38 | the default term is normalised with bits 0, every position fixed and no wildcard |
| Terms.ValidIff | Src/term.hpp:36 | bits & ~mask == 0 holds exactly when every set bit is a fixed position |
| Terms.MaskedBits | Src/term.hpp:36 | a normalised term's bits are unchanged by masking |
| Terms.InvMask | Src/term.hpp:46-49 | inv_mask has set exactly the wildcard positions below W |
| Terms.CardLog2 | Src/term.hpp:51-54 | cardlog2 is the number of zero bits of the mask below W, hence between 0 and W |
| Terms.CardLog2NoWildcard | Src/term.hpp:51-54 | a term with every position fixed has cardlog2 0 |
| Terms.Cardinality | Src/term.hpp:40-44 | cardinality is 2^cardlog2 |
| Terms.ContainsIff | Src/term.hpp:56-59 | contains(v) holds exactly when v agrees with the term at every fixed position |
| Terms.SupersetOfIff | Src/term.hpp:71-80 | superset_of holds exactly when a has more wildcards, every wildcard of b is one of a, and they agree on a's fixed bits |
| Terms.SupersetOfSound | Src/term.hpp:71-80 | every value b contains, a superset a contains |
| Terms.FewerFixed | Src/term.hpp:71-80 | a proper sub-mask of fixed positions has more wildcards |
| Terms.ContainsTermIff | Src/term.hpp:61-64 | contains(term) holds exactly when every value of b is a value of a (so it is reflexive) |
| Terms.CounterExample | Src/term.hpp:61-64 | a position fixed in a and free in b gives a value in b but not in a |
| Terms.Equal | Src/term.hpp:129-132 | == compares both fields, which is equality of terms |
| Terms.NotEqual | Src/term.hpp:134-137 | != is the negation of == |
| Terms.SupersetOfAsymmetric | Src/term.hpp:71-80 | superset_of is irreflexive and never holds in both directions |
| Terms.SupersetOfTransitive | Src/term.hpp:71-80 | superset_of is transitive |
| Terms.OrderLaws | Src/term.hpp:139-157 | < (subset_of) is a strict partial order with > its converse, and <= is the partial order it induces, with >= its converse |
| Terms.OrderNotTotal | Src/term.hpp:139-157 | two distinct fully fixed terms are incomparable, so the order is not total |
| Terms.MaskedValid | Src/term.hpp:179-180 | and_(bits, mask) of a normalised term is its bits |
| Terms.Distance | Src/term.hpp:164-173 | distance is present exactly when the masks differ, and is then the number of positions where the masked bits differ |
| Terms.DistanceSymmetric | Src/term.hpp:164-173 | distance(a, b) == distance(b, a) |
| Terms.DistanceMissingForMergeablePairs | Src/term.hpp:168-172 | a pair that combine merges, or a term with itself, has no distance |
| Terms.DistanceMissingExample | Src/term.hpp:168-172 | the pair 11011101, 11010101 merges under combine yet has no distance |
| Terms.IntendedDistance | Src/term.hpp:164-173 | the distance for equal masks, counting the differing fixed positions |
| Terms.CombineIffIntendedDistanceOne | Src/term.hpp:175-187 | combine merges exactly the pairs at intended distance 1 |
| Terms.MergeDiff | Src/term.hpp:179-181 | for equal masks, the xor of the masked bits is set exactly where the bits differ |
| Terms.MergeDiffAt | Src/term.hpp:181-184 | with a single differing position p, the xor is 2^p |
| Terms.CombineIff | Src/term.hpp:175-187 | combine is present exactly when the masks are equal and the bits differ in exactly one fixed position |
| Terms.CombineAt | Src/term.hpp:182-185 | the merged term is normalised and is a with the differing position made a wildcard |
| Terms.CombineCardLog2 | Src/term.hpp:175-187 | the merged term has exactly one wildcard more than the inputs |
| Terms.CombineWidens | Src/term.hpp:175-187 | the merged term has one more wildcard and is a strict superset of both inputs |
| Terms.CombineCoversUnion | Src/term.hpp:175-187 | the merged term contains exactly the values of either input |
| Terms.CombineCommutes | Src/term.hpp:175-187 | combine(a, b) == combine(b, a) |
| Terms.AbsorbSpec | Src/term.hpp:190-199 | absorb is present exactly when one term covers the other, gives a whenever a covers b, and returns one of the two covering both |
| TermText.Select | Src/term.hpp:20-29 | the positions, counted from the right end of the string and below the width, that hold a given character |
| TermText.Parse | Src/term.hpp:17-31 | the parsed term is normalised, has a '1' bit exactly where the k-th character from the right is '1', and is fixed except where it is '*' |
| TermText.ParseTerm | Src/term.hpp:17-31 | the string constructor's loop over the rightmost min(size, W) characters yields Parse |
| TermText.SetBit | Src/term.hpp:26 | the or-assignment of `m` into bits sets exactly bit i, leaving the others |
| TermText.ClearBit | Src/term.hpp:27-28 | the and-assignment of `~m` clears exactly bit i, leaving the others |
| TermText.Render | Src/term.hpp:82-94 | to_string's text has W characters from {'0','1','*'}, most significant first |
| TermText.ToString | Src/term.hpp:82-94 | the to_string loop from the top bit down builds Render |
| TermText.ParseRender | Src/term.hpp:82-94 | term(t.to_string()) == t for every normalised t |
| TermText.RenderParse | Src/term.hpp:17-31 | a pattern of at most W characters parses and renders back padded with '0' on the left |
| TermText.RenderParseExact | Src/term.hpp:17-31 | a pattern of exactly W characters renders back unchanged |
| TermText.ParseRightmost | Src/term.hpp:20 | only the rightmost W characters are read |
| TermText.ParseCardLog2 | Src/term.hpp:51-54 | the parsed term's cardlog2 counts the '*' among the rightmost W characters |
| TermText.WildcardsCounted | Src/term.hpp:28 | each '*' clears one mask bit, so the zero mask bits below n count the '*' among the rightmost n characters |
| TermText.RefinesIff | Src/term.hpp:61-64 | the positionwise reading of "every position is '*' in the first pattern or equal to the second" |
| TermText.RefinesAgrees | Src/term.hpp:61-64 | patterns that agree wherever the first is not '*' parse to terms that agree on the first's fixed bits and whose wildcards lie within the first's |
| TermText.AgreesRefines | Src/term.hpp:61-64 | conversely, such parsed terms come from patterns that agree wherever the first is not '*' |
| TermText.ContainsTermText | Src/term.hpp:61-64 | on patterns of W characters, contains(term) holds exactly when the patterns are equal or the first has more '*' and agrees wherever it is not '*' |
| TermText.T8 | Src/term.hpp:201-204 | the `_t8` literal parses its text as an 8-bit term |
| TermText.T16 | Src/term.hpp:206-209 | the `_t16` literal parses its text as a 16-bit term |
| TermText.T32 | Src/term.hpp:211-214 | the `_t32` literal parses its text as a 32-bit term |
| TermText.T64 | Src/term.hpp:216-219 | the `_t64` literal parses its text as a 64-bit term |
| TermTests.TestToString | Src/main.cpp:66-71 | the six literals render back to their text |
| TermTests.TestCardLog2A | Src/main.cpp:73 | cardlog2 of *101*101 is 2 |
| TermTests.TestCardLog2B | Src/main.cpp:74 | cardlog2 of 110*110* is 2 |
| TermTests.TestCardLog2C | Src/main.cpp:75 | cardlog2 of *10*110* is 3 |
| TermTests.TestCardLog2D | Src/main.cpp:76 | cardlog2 of *11*110* is 3 |
| TermTests.TestCardLog2E | Src/main.cpp:77 | cardlog2 of **0*110* is 4 |
| TermTests.TestCardLog2F | Src/main.cpp:78 | cardlog2 of 10011100 is 0 |
| TermTests.TestContainsAB | Src/main.cpp:80 | *101*101 does not contain 110*110* |
| TermTests.TestContainsBA | Src/main.cpp:81 | 110*110* does not contain *101*101 |
| TermTests.TestContainsBC | Src/main.cpp:83 | 110*110* does not contain *10*110* |
| TermTests.TestContainsCB | Src/main.cpp:84 | *10*110* contains 110*110* |
| TermTests.TestContainsDB | Src/main.cpp:85 | *11*110* does not contain 110*110* |
| TermTests.TestContainsEB | Src/main.cpp:86 | **0*110* contains 110*110* |
| TermTests.TestContainsEF | Src/main.cpp:87 | **0*110* contains 10011100 |
| TermTests.TestContainsDF | Src/main.cpp:88 | *11*110* does not contain 10011100 |
| TermExplode.Gather | Src/term.hpp:96-127 | the packed wildcard bits of a value fit in cardlog2 bits |
| TermExplode.ScatterBit | Src/term.hpp:115-124 | bit p of the i-th value is the fixed bit at a fixed position and bit (rank of p) of i at a wildcard |
| TermExplode.ScatterAscending | Src/term.hpp:115-124 | a larger counter gives a larger value |
| TermExplode.ScatterGather | Src/term.hpp:115-124 | a value agreeing with the fixed bits is the value of its packed wildcard bits |
| TermExplode.ZerosBelowMonotone | Src/term.hpp:104-111 | the count of wildcards below a position grows with the position |
| TermExplode.WildcardRankBelow | Src/term.hpp:104-111 | a wildcard below k has a rank below the number of wildcards below k, so ranks are distinct |
| TermExplode.ExplodeContained | Src/term.hpp:96-127 | every yielded value is contained in the term |
| TermExplode.ExplodeAscending | Src/term.hpp:96-127 | the values come out strictly ascending, hence distinct |
| TermExplode.ExplodeComplete | Src/term.hpp:96-127 | every value the term contains is yielded, at the index of its packed wildcard bits |
| TermExplode.ExplodeCoversExactly | Src/term.hpp:96-127 | a W-bit value is contained in the term exactly when some counter below 2^cardlog2 yields it |
| TermExplode.WildcardOffsets | Src/term.hpp:104-111 | xs has one entry per wildcard, and entry j plus j is the position of the j-th lowest wildcard |
| TermExplode.CounterFits | Src/term.hpp:99-100 | under cardlog2 < W the counter bound 2^cardlog2 fits the W-bit type |
| TermExplode.KeepFixed | Src/term.hpp:117 | `v &= mask` of the previous value leaves exactly bits |
| TermExplode.ShiftedCounterBit | Src/term.hpp:121-122 | `(i & (1 << j)) << xs[j]` has at most bit xs[j] + j set, exactly when bit j of i is |
| TermExplode.DepositOne | Src/term.hpp:121-123 | or-ing in a value whose only possible bit is bit j of i at the j-th wildcard extends the deposit to the wildcards of rank j |
| TermExplode.DepositStep | Src/term.hpp:119-123 | each inner step puts bit j of i at the j-th wildcard and keeps the value a W-bit word |
| TermExplode.Deposited | Src/term.hpp:124 | after the inner loop the yielded value is the i-th value and still agrees with bits on the fixed positions |
| TermExplode.ExplodedValues | Src/term.hpp:96-127 | the yielded values are each in the term and strictly ascending |
| TermExplode.Explode | Src/term.hpp:96-127 | explode yields 2^cardlog2 (that is, cardinality()) values, the i-th being the i-th value, each in the term, strictly ascending |
| BestFirstSearch.RemoveCovered | Src/bfsearch.hpp:129-131 | the minterms kept are exactly those of the list that the implicant does not contain, in their order |
| BestFirstSearch.RemainingTerms | Src/bfsearch.hpp:129-131 | the filtering loop over curr.term builds RemoveCovered |
| BestFirstSearch.UncoveredMembers | Src/bfsearch.hpp:127-137 | a minterm is left exactly when no selected implicant contains it |
| BestFirstSearch.UncoveredStep | Src/bfsearch.hpp:127-137 | selecting one more implicant removes the minterms it contains from the parent's list |
| BestFirstSearch.UncoveredEmptyIff | Src/bfsearch.hpp:114 | an empty list means the selected implicants cover every minterm |
| BestFirstSearch.NodeEqual | Src/bfsearch.hpp:41-54 | node_equal holds exactly when used is equal and the first used implicants are elementwise equal |
| BestFirstSearch.NodeLessStrictWeakOrder | Src/bfsearch.hpp:56-66 | node_less is a strict weak order whose incomparable nodes have equal uncovered count and equal used |
| BestFirstSearch.TopExists | Src/bfsearch.hpp:112-113 | a non-empty queue has a greatest node to pop |
| BestFirstSearch.Pop | Src/bfsearch.hpp:112-113 | top() then pop() removes one greatest node, keeps every other node, and lowers the fringe's weight by exactly that node's weight |
| BestFirstSearch.GoalPoppedDeepest | Src/bfsearch.hpp:56-66 | among the goals in the fringe, the popped goal has the most implicants selected |
| BestFirstSearch.GoalsPoppedLast | Src/bfsearch.hpp:102 | the popped node has the most uncovered minterms, so a goal is popped only when every node in the fringe is a goal |
| BestFirstSearch.SwapFacts | Src/bfsearch.hpp:126-128 | swap(impl[u], impl[i]) with i ≥ u permutes impl, keeps its first u entries and brings impl[i] to position u |
| BestFirstSearch.PrefixMultiset | Src/bfsearch.hpp:141-145 | the returned prefix is drawn from the node's implicants |
| BestFirstSearch.Weight | Src/bfsearch.hpp:124-138 | each node weighs at least one, so the fringe's total weight bounds the remaining pops |
| BestFirstSearch.ExpansionShrinks | Src/bfsearch.hpp:124-138 | the impl.size() − u children of a node weigh less than it does |
| BestFirstSearch.ExpandWeight | Src/bfsearch.hpp:124-138 | appending those children to a fringe gives less weight than the fringe plus the expanded node |
| BestFirstSearch.FullPrefixIsGoal | Src/bfsearch.hpp:124 | with every implicant selected, a coverable input leaves nothing uncovered, so a node with nothing to push is a goal |
| BestFirstSearch.GoalPrefix | Src/bfsearch.hpp:141-145 | a goal's prefix is drawn from the implicants and covers every minterm |
| BestFirstSearch.ChildOk | Src/bfsearch.hpp:126-137 | a child keeps a permutation of the implicants and the minterms its prefix leaves uncovered |
| BestFirstSearch.ExpandedFringe | Src/bfsearch.hpp:123-138 | the old fringe followed by correct children of used + 1 keeps every old node, adds only such children, and weighs less than the old fringe with the parent |
| BestFirstSearch.Expand | Src/bfsearch.hpp:123-138 | one child per i ≥ used is pushed after the old nodes, each with used + 1 and a correct list, and the new fringe weighs less than the old fringe with the expanded node |
| BestFirstSearch.FindSolution | Src/bfsearch.hpp:96-159 | the search terminates; it returns a cover exactly when every minterm is in some implicant; the cover is a sub-multiset of the implicants; empty terms give an empty cover |

## Left out

- Compiler intrinsics (`__popcnt*`, `__builtin_popcount*`): each is modelled by the set-bit count of its argument, widened to its parameter type.
- `std::hash<term<T>>` (Src/term.hpp:221-231) and `node_hash` (Src/bfsearch.hpp:29-39): the standard hash is not visible. The expanded set is modelled as a set of selected prefixes. This is what `node_equal` compares, and `node_hash` reads nothing else.
- The coroutine machinery of `explode` (`std::experimental::generator`): its laziness and restartability are not modelled. The yielded values become a finite sequence.
- TermExplode.Explode: requires `cardlog2() < W`. With every position a wildcard, the 8- and 16-bit loops never end, because `cardinality()` is promoted to `int` and `value_type i < n` always holds. For 32 and 64 bits the shift by the full width is undefined.
- TermExplode.Explode: takes the width as a natural number and yields 2^cardlog2 values. `Terms.Cardinality`, which needs the width to be one of the four types, states that this is `cardinality()`.
- Terms.Contains, Terms.ContainsTerm, Terms.SubsetOf, Terms.SupersetOf, Terms.Combine, Terms.Absorb, Terms.Less, Terms.Greater, Terms.LessEq, Terms.GreaterEq, BestFirstSearch.NodeLess and TermText.CharAt carry no contract of their own. Their properties are the lemmas in the table: ContainsIff and ContainsTermIff, SupersetOfIff, SupersetOfSound and OrderLaws, the Combine* lemmas, AbsorbSpec, NodeLessStrictWeakOrder and GoalsPoppedLast, and Render/ParseRender.
- TermText.Parse, TermText.ParseTerm and TermText.T8 to TermText.T64: the text is a sequence of characters, whereas the source's `std::string_view` counts and indexes bytes (Src/term.hpp:20, 24). The two readings agree when every character takes one byte. A multi-byte character shifts the positions and the `min(size, W)` count in the source but not in the model.
- `best_solution` (Src/bfsearch.hpp:101, 120-122): it is never assigned, so the pruning test never fires and the model omits it.
- The commented-out code (Src/bfsearch.hpp:67-93, 147-158). This covers the recursive `find_solution` and the `best_solution` bookkeeping.
- BestFirstSearch.FindSolution: does not state that the returned cover is minimal, and does not fix which goal is returned. The queue pops the node with the most uncovered minterms, and among goals the one with the largest `used` (GoalPoppedDeepest), so the cover returned is one with the most implicants among the goals then in the queue; `std::priority_queue` leaves the order among equal nodes unspecified.
- BestFirstSearch.FindSolution: `None` stands in for the undefined fall-off at the end of `find_solution` (Src/bfsearch.hpp:110-159) when the queue runs empty. The source promises nothing for an input that no implicant set covers; the model's `r.Some? <==> Covers(...)` states its completeness for coverable inputs, with this stand-in for the rest.
- Src/solver.hpp is not part of this model. It is incomplete: it uses an undeclared `implicants` and an undefined `merge`, and returns the constant 1.
- Src/main.cpp: argument parsing reads stdin, which is I/O. Only the assertions of `test_term` are modelled, as TermTests. The `g` and `h` literals there have no assertion.

## Findings

| source | as written | input that shows it | evidently intended | confidence | as-written member | corrected member |
|---|---|---|---|---|---|---|
| Src/term.hpp:168 | `distance` returns a value only when the masks differ (`a.mask != b.mask`) | a = 11011101, b = 11010101 (mask 0xFF): combine merges them, but distance(a, b) is empty, so the merge step of Src/solver.hpp:40-41, which asks for distance 1, never merges | a value when the masks are equal, so that distance 1 is exactly the condition under which combine merges | not executed | Terms.DistanceMissingExample | Terms.CombineIffIntendedDistanceOne |
