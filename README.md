# Verified models of the Programmazione II exercises

The repository is a collection of small Java exercises from a second programming course:
abstract data types whose doc comments give an abstraction function (AF), a representation
invariant (repOk) and the exceptions each method raises, and a few numeric and array
routines. This project models the operations of those classes in Dafny and proves what
their doc comments promise. Where the code does something else, the model follows the
code and proves the discrepancy as well.

Java exceptions become an error variant of the result (`Result`, `Status` and `Option` in
module `Exceptions`). Classes whose methods update fields are Dafny classes with `modifies`
clauses. Immutable value classes (the polynomials, `Punto`) are values, and each of their loops
is a method proved against a function. The AF and the repOk of a class are a ghost function
`AF()`/`Contents()` and a predicate `Valid()`/`RepOk()`.

## What is modelled

- **Bounded circular queue** (`BoundedQueue`, e05/06 `IntQueue`).
  - A class over an `array<int>` with `head`, `tail` and the empty sentinel `head == -1`.
  - `Contents()` is the AF: the slots from `head` around to before `tail`.
  - `enqueue`, `dequeue`, `size`, `isFull`, `isEmpty` and `equals` are proved against it, and `RepOk` is kept.
- **Unbounded queues** (`UnboundedQueue` for e04/02 and t10/04, `QueueElements` for the `elements()` generator of t10/04).
- **Dense polynomials**.
  - `DensePoly` (e03/02) stores an int array with entry d the coefficient of x^d.
  - `PolyDegrees` (t10/01) adds repOk, `equals`/`hashCode` and the `degrees()` generator.
  - Both are specified coefficient-wise through `Coeff`, with `Conv` the product's coefficient.
- **Sparse polynomials**.
  - `SparseTerms` holds the term-list machinery shared by the four variants.
  - `Polinomio` (e03/03), `PolyRepOk` (e04/05), `PolyCorrectness` (e05/05) and `PolyTerms` (t10/02) are the variants.
  - The variants differ in three details of `add`, captured by a `Variant` value:
    - how `list.remove(existent)` picks the element it drops: by identity, or by the `equals` of `Monomio`/`Term`, under which all zero-coefficient terms are equal;
    - whether a zero term of `this` without a partner is copied;
    - whether the private constructor raises on an empty list.
  - Each Java loop (`add`'s nested loops, `mul`'s accumulation, `minus`, `coeff`, `degree`, `repOK`, `equals`, `sortByDegree`) is a method proved equal to a recursive function.
  - The coefficient-wise laws are proved about those functions.
- **Rationals** (`Rational`, e05/01 `Razionale`): the sign normalisation, Euclid's `mcd` loop with Java's truncating `%`, `reduce`, and the arithmetic operations, stated on the real value num/den.
- **Integer sets**.
  - `IntSetBasic` (e03/01), `IntSetRepOk` (e04/03) and `IntSetCorrectness` (e05/03) are ArrayList sets with swap-with-last removal.
  - `IntSetRepOk` also has the in-place exchange sort, the sorting `hashCode` and `repOK`.
  - `LinkedIntSet` is the LinkedList set of e06/02 with its iterator.
  - `MaxMinIntSet` (e06/02) caches the maximum and the minimum.
  - `IntSetSpec` holds the list functions they share.
- **Key-unique maps** (`Nodo`, `SimpleMap`, `Mappa`, and `NodeSet` for the set of entries they share, all e05/02). The AF of a map is a Dafny `map` built from a set of key-unique entries.
- **Ordered int list** (`OrderedChain`, `OrderedWalks`, `OrderedIntList`, t10/05).
  - The doubly linked list with its sentinel node 0 is modelled by the ascending sequence `chain` of node values.
  - A walk along the links is a cursor over positions; -1 stands for a null link.
  - `add`, `remove`, `isIn`, `empty`, `repOk`, `equals`, `hashCode` and the two iterators are proved against `AF()`, the stored integers in ascending order.
- **Astronomical simulation** (`Punto`, `CorpoCeleste`, `SistemaAstronomico`, e07/04).
  - `CorpoCeleste` models the abstract class and its subclasses `Pianeta` and `StellaFissa` as one class with a constant `kind`.
  - The system's nested interaction loop is proved to call `interact` once for every pair i < j in row-major order.
- **Small routines**:
  - `Kaprekar` (e01/06), with the exchange sort it shares with `Saltapicchio` and e04/03 in `ExchangeSort`;
  - `Lychrel` (e02/02);
  - `Saltapicchio` (t04/06);
  - `Tartaglia` (t04/04);
  - `ProvaDelNove` (t04/05);
  - `Trasposizione` (t04/08);
  - `Pegi` (t04/01);
  - `TicoTaco` (t04/02).
  
  `Decimal` (decimal digits and strings) and `JavaInt` (int wrap-around, `Integer.toString`, `String.hashCode`, the `Integer` cache) are shared helpers.

### Where the code and its documentation disagree

The model follows the code in each of these cases:

- e01/06 `intToArray` stores the digits least significant first; its doc says the original order.
- t04/06 `isFullSequence` checks for `[len, …, 1]`, where len is the number of differences; its doc says len−1 down to 1.
- t10/02 `sortByDegree` keeps positive coefficients; its doc says non-zero.
- e05/02 `SimpleMap.get` raises IllegalArgumentException for a missing key; its doc says it returns null.
- e06/02 `IntSet.choose` returns the first element; its doc says the last.
- e03/02 `Poly(c, n)` with c = 0 stores an array of degree n (Poly.java:26-31); its doc at lines 20-21 says the zero polynomial.
- The sparse `coeff` returns 0 for a negative degree (e03/03 Polinomio.java:56-65, e04/05 Poly.java:69-77, e05/05 Poly.java:98-106, t10/02 Poly.java:131-139); the docs (e03/03 Polinomio.java:53-54, e04/05 Poly.java:66-67, e05/05 Poly.java:91-92, t10/02 Poly.java:124-125) say IllegalArgumentException.
- e05/02 `SimpleMap.remove` is void (SimpleMap.java:96); its doc at lines 84-85 says it returns the removed value, or null.
- The other disagreements are bugs, listed under "## Findings".

## Model

| member | source | states |
|---|---|---|
| `BoundedQueue.IntQueue.constructor` | e05/06-intqueue_correctness/IntQueue.java:53-59 | a new queue of capacity n has head -1, tail 0, an empty abstract sequence, and satisfies repOK |
| `BoundedQueue.IntQueue.IsFull` | e05/06-intqueue_correctness/IntQueue.java:120-122 | the queue is full exactly when its abstract sequence fills the capacity |
| `BoundedQueue.IntQueue.IsEmpty` | e05/06-intqueue_correctness/IntQueue.java:129-131 | the queue is empty exactly when its abstract sequence is empty |
| `BoundedQueue.IntQueue.Size` | e05/06-intqueue_correctness/IntQueue.java:143-149 | the three-case size formula (0 when empty, capacity when head meets tail, otherwise the distance mod capacity) is the length of the AF's sequence, and never exceeds the capacity |
| `BoundedQueue.IntQueue.Enqueue` | e05/06-intqueue_correctness/IntQueue.java:76-85 | a full queue raises FullException and nothing changes; otherwise the abstract sequence gains x at the back, an empty queue first sets head to 0, tail advances modulo the capacity, only slot tail is written, and repOK is kept |
| `BoundedQueue.IntQueue.Dequeue` | e05/06-intqueue_correctness/IntQueue.java:100-113 | an empty queue raises EmptyException; otherwise the front element is returned and dropped from the abstract sequence, removing the last element resets to head -1 and tail 0, and repOK is kept |
| `BoundedQueue.IntQueue.Equals` | e05/06-intqueue_correctness/IntQueue.java:166-178 | true exactly when both queues have the same capacity and the same abstract sequence |
| `BoundedQueue.SlotIsMod` | e05/06-intqueue_correctness/IntQueue.java:24-27 | the wrap-around slot used for the i-th element is (head + i) mod capacity, as the AF writes it |
| `BoundedQueue.AbsAt` | e05/06-intqueue_correctness/IntQueue.java:24-27 | element i of the abstract sequence is the array entry at slot (head + i) mod capacity |
| `BoundedQueue.SameSlotsAbs` | e05/06-intqueue_correctness/IntQueue.java:171-177 | comparing the first n slots of two equally long queues position by position decides equality of their abstract sequences, both ways |
| `BoundedQueue.EnqueueContents` | e05/06-intqueue_correctness/IntQueue.java:79-82 | writing x at tail and advancing tail extends the abstract sequence by exactly x |
| `BoundedQueue.DequeueContents` | e05/06-intqueue_correctness/IntQueue.java:101-108 | advancing head past the front drops just the front element of the abstract sequence |
| `UnboundedQueue.Queue.constructor` | e04/02-intqueue_unbounded/UnboundedQueue.java:33-36 | a new queue is empty |
| `UnboundedQueue.Queue.Size` | e04/02-intqueue_unbounded/UnboundedQueue.java:41-43 | the number of queued elements |
| `UnboundedQueue.Queue.Enqueue` | e04/02-intqueue_unbounded/UnboundedQueue.java:53-57 | n is appended at the back, the rest unchanged |
| `UnboundedQueue.Queue.Dequeue` | e04/02-intqueue_unbounded/UnboundedQueue.java:73-77 | an empty queue raises EmptyException and is unchanged; otherwise the front element is returned and the others keep their order |
| `UnboundedQueue.FifoOrder` | e04/02-intqueue_unbounded/UnboundedQueue.java:9-15 | enqueueing x1..xk into an empty queue and then dequeueing k times yields x1..xk in that order and leaves the queue empty |
| `QueueElements.QueueElementsGenerator.constructor` | t10/04-intqueue_unbounded_elements/UnboundedQueue.java:45-47 | the generator starts before the front of the queue |
| `QueueElements.QueueElementsGenerator.HasNext` | t10/04-intqueue_unbounded_elements/UnboundedQueue.java:59-61 | true exactly while elements of the live queue remain to be yielded from the current position |
| `QueueElements.QueueElementsGenerator.Next` | t10/04-intqueue_unbounded_elements/UnboundedQueue.java:64-66 | the element at the current position, front first, then one step on; past the end IndexOutOfBoundsException |
| `QueueElements.Elements` | t10/04-intqueue_unbounded_elements/UnboundedQueue.java:59-61 | drawing from the generator while hasNext holds yields the queue's contents front to back |
| `DensePoly.Coeff` | e03/02-poly/Poly.java:135-139 | the abstraction every DensePoly contract is stated through: the entry p[d] for 0 ≤ d ≤ degree, and 0 for any other d, negative d included |
| `DensePoly.Degree` | e03/02-poly/Poly.java:55-57 | the array's length − 1, with every coefficient above it 0 |
| `DensePoly.Zero` | e03/02-poly/Poly.java:15-17 | Poly() has degree 0 and every coefficient 0 |
| `DensePoly.Monomial` | e03/02-poly/Poly.java:26-31 | NegativeExponentException exactly for n < 0; otherwise degree n, even for c = 0, with coefficient c at n and 0 elsewhere |
| `DensePoly.Make` | e03/02-poly/Poly.java:37-41 | the private constructor rejects exactly the empty array and keeps any other |
| `DensePoly.Add` | e03/02-poly/Poly.java:65-87 | every coefficient of the result is the sum of the operands' coefficients, the result has no trailing zero unless it has one entry, and it is no longer than the longer operand |
| `DensePoly.Minus` | e03/02-poly/Poly.java:124-130 | every coefficient is negated and the length is kept |
| `DensePoly.Sub` | e03/02-poly/Poly.java:95-98 | every coefficient is the difference of the operands' coefficients, trimmed |
| `DensePoly.Mul` | e03/02-poly/Poly.java:106-118 | the coefficient of x^k is the sum of p[i]·q[k−i] over all i, trimmed |
| `DensePoly.TrimmedUnique` | e03/02-poly/Poly.java:75-84 | two trimmed arrays with the same coefficients are the same array, so trimming gives a canonical form |
| `DensePoly.ConvCommutes` | e03/02-poly/Poly.java:108-109 | the product coefficient does not depend on which operand is the smaller, as the swap at these lines requires |
| `DensePoly.ConvSnoc` | e03/02-poly/Poly.java:112-116 | adding one more entry b to q adds b times the matching coefficient of p to each product coefficient |
| `PolyDegrees.Make` | t10/01-poly_degrees/Poly.java:107-118 | the private constructor accepts exactly the non-empty arrays that satisfy repOk and raises IllegalArgumentException otherwise |
| `PolyDegrees.MonomialRepOk` | t10/01-poly_degrees/Poly.java:74-94 | Poly(c, n) as its doc promises it: NegativeExponentException for n < 0, otherwise a polynomial satisfying repOk with coefficient c at n and 0 elsewhere |
| `PolyDegrees.ZeroMonomialBreaksRepOk` | t10/01-poly_degrees/Poly.java:87-94 | Poly(0, 2) as written stores [0, 0, 0], which fails repOk, so the private constructor would reject it |
| `PolyDegrees.Add` | t10/01-poly_degrees/Poly.java:156-179 | the coefficient-wise sum, and the result satisfies repOk |
| `PolyDegrees.Minus` | t10/01-poly_degrees/Poly.java:233-239 | raises IllegalArgumentException exactly when the operand fails repOk; otherwise every coefficient is negated and repOk holds |
| `PolyDegrees.Sub` | t10/01-poly_degrees/Poly.java:193-197 | raises exactly when q fails repOk; otherwise the coefficient-wise difference, satisfying repOk |
| `PolyDegrees.Mul` | t10/01-poly_degrees/Poly.java:210-223 | the product coefficients are the convolution sums, and the result satisfies repOk |
| `PolyDegrees.Equals` | t10/01-poly_degrees/Poly.java:261-271 | true exactly when the degrees and all coefficients agree |
| `PolyDegrees.HashCode` | t10/01-poly_degrees/Poly.java:274-279 | the hash is the 31·h + c fold over the coefficients in Java int arithmetic, a function of the array alone, so equal polynomials hash alike |
| `PolyDegrees.NextNonZero` | t10/01-poly_degrees/Poly.java:51-56 | the first position at or after i with a non-zero coefficient, or the end |
| `PolyDegrees.NonZeroFromNext` | t10/01-poly_degrees/Poly.java:51-56 | the non-zero degrees from i on are the next non-zero degree followed by the non-zero degrees after it |
| `PolyDegrees.DegreesGenerator.constructor` | t10/01-poly_degrees/Poly.java:27-29 | the generator starts at index -1 over the polynomial |
| `PolyDegrees.DegreesGenerator.HasNext` | t10/01-poly_degrees/Poly.java:44-48 | when it holds, an index remains below the array's end; when it fails, no degree with a non-zero coefficient is left |
| `PolyDegrees.DegreesGenerator.Next` | t10/01-poly_degrees/Poly.java:51-56 | past the degree NoSuchElementException; otherwise the next degree with a non-zero coefficient, and NoSuchElementException when the rest are zero |
| `PolyDegrees.Degrees` | t10/01-poly_degrees/Poly.java:44-56 | draining degrees() yields exactly the degrees with non-zero coefficient in increasing order, and raises NoSuchElementException exactly when the last entry is zero, as for the zero polynomial after hasNext held |
| `SparseTerms.MakeTerm` | e05/05-poly_sparse_correctness/Poly.java:301-307 | the Monomio/Term constructor raises IllegalArgumentException exactly for a negative degree and otherwise stores c and d |
| `SparseTerms.NegateTerm` | e05/05-poly_sparse_correctness/Poly.java:385-388 | the negated term has the same degree and the opposite coefficient |
| `SparseTerms.AddSimilar` | e05/05-poly_sparse_correctness/Poly.java:361-366 | raises IllegalArgumentException exactly for terms of different degree; otherwise the term contributes the sum of the two at every degree |
| `SparseTerms.Zero` | e05/05-poly_sparse_correctness/Poly.java:36-40 | Poly() is a valid polynomial of degree 0 whose coefficients are all 0 |
| `SparseTerms.Monomial` | e05/05-poly_sparse_correctness/Poly.java:54-60 | NegativeExponentException exactly for n < 0; otherwise a valid polynomial of degree n, even when c = 0, with coefficient c at n and 0 elsewhere |
| `SparseTerms.Construct` | e05/05-poly_sparse_correctness/Poly.java:79-87 | the private constructor raises on an empty list exactly in the variants whose constructor does, and otherwise keeps the coefficients and the distinct degrees; an empty list becomes 0x^0 |
| `SparseTerms.CoeffOf` | e05/05-poly_sparse_correctness/Poly.java:98-107 | IllegalArgumentException exactly when d exceeds the degree; otherwise the coefficient stored for d, 0 when there is none |
| `SparseTerms.StoredIsSum` | e05/05-poly_sparse_correctness/Poly.java:98-107 | for distinct degrees, the coefficient coeff finds is the polynomial's coefficient (the sum over its terms) |
| `SparseTerms.DegreeOf` | e05/05-poly_sparse_correctness/Poly.java:115-121 | the largest stored degree, 0 for an empty list, and itself a stored degree when positive |
| `SparseTerms.MaxDegreeIsMax` | e05/05-poly_sparse_correctness/Poly.java:115-121 | no term has a degree above MaxDegree, which is 0 or a stored degree |
| `SparseTerms.RepOk` | e05/05-poly_sparse_correctness/Poly.java:241-253 | the nested loop of repOK reports true exactly when the degrees are pairwise distinct |
| `SparseTerms.StepLoop` | e05/05-poly_sparse_correctness/Poly.java:146-155 | the inner loop of add, which merges one term of this into q's list, computes Step |
| `SparseTerms.MergeLoop` | e05/05-poly_sparse_correctness/Poly.java:143-157 | the outer loop of add computes Merge |
| `SparseTerms.AddTerms` | e05/05-poly_sparse_correctness/Poly.java:138-159 | add computes AddSpec for the variant |
| `SparseTerms.StepSum` | e05/05-poly_sparse_correctness/Poly.java:146-155 | merging one term adds its contribution to every degree, whichever element remove drops |
| `SparseTerms.MergeSum` | e05/05-poly_sparse_correctness/Poly.java:143-157 | the merged list's coefficient at every degree is the sum of both operands' |
| `SparseTerms.AddSpecSum` | e05/05-poly_sparse_correctness/Poly.java:138-159 | when add does not raise, its result is the coefficient-wise sum in every variant |
| `SparseTerms.MergeIdentity` | e03/03-poly_sparse/Polinomio.java:89-109 | with removal by identity, merging lists of distinct degrees gives distinct degrees |
| `SparseTerms.MergeAgrees` | e04/05-poly_sparse_repok/Poly.java:306-313 | removal by equals drops the same term as removal by identity while at most one zero term is present |
| `SparseTerms.AddSpecIdentity` | e03/03-poly_sparse/Polinomio.java:89-109 | with removal by identity, add of two lists with distinct degrees returns distinct degrees |
| `SparseTerms.AddSpecEquals` | e05/05-poly_sparse_correctness/Poly.java:138-159 | with removal by equals, add keeps the degrees distinct and at most one zero term, under the conditions that make it agree with removal by identity |
| `SparseTerms.AddSpecKept` | e05/05-poly_sparse_correctness/Poly.java:138-159 | a merged list with distinct degrees survives the private constructor with distinct degrees |
| `SparseTerms.SumPresent` | e05/05-poly_sparse_correctness/Poly.java:241-253 | in a list with distinct degrees and no zero terms, every stored degree has a non-zero coefficient |
| `SparseTerms.CancelledMergeEmpty` | e05/05-poly_sparse_correctness/Poly.java:146-158 | when every coefficient cancels, the merged list is empty |
| `SparseTerms.EmptyMergeCancels` | e05/05-poly_sparse_correctness/Poly.java:146-158 | an empty merged list means every coefficient of the sum is 0 |
| `SparseTerms.AddSpecRaises` | e05/05-poly_sparse_correctness/Poly.java:79-87 | for valid operands without zero terms, add raises exactly when the variant's constructor raises and the operands cancel |
| `SparseTerms.AddSpecRaisesOnZero` | e05/05-poly_sparse_correctness/Poly.java:79-87 | add raises only when the sum is the zero polynomial |
| `SparseTerms.NegateLoop` | e05/05-poly_sparse_correctness/Poly.java:215-222 | minus's loop builds the list of negated terms |
| `SparseTerms.NegateSum` | e05/05-poly_sparse_correctness/Poly.java:215-222 | the negated list has the opposite coefficient at every degree |
| `SparseTerms.NegateDegrees` | e05/05-poly_sparse_correctness/Poly.java:215-222 | negation keeps the degrees, their distinctness, the absence of zero terms, and the degree |
| `SparseTerms.RowSum` | e05/05-poly_sparse_correctness/Poly.java:192-196 | the products of one term with all of q contribute PairSum at every degree |
| `SparseTerms.ProductsSum` | e05/05-poly_sparse_correctness/Poly.java:188-199 | the list of all pairwise term products has the convolution coefficients |
| `SparseTerms.MulFoldAppend` | e05/05-poly_sparse_correctness/Poly.java:191-197 | accumulating over two lists of terms in turn is accumulating over their concatenation |
| `SparseTerms.AddRow` | e05/05-poly_sparse_correctness/Poly.java:192-196 | the inner loop of mul adds the products of one term with all of q to the accumulator |
| `SparseTerms.MulTerms` | e05/05-poly_sparse_correctness/Poly.java:188-199 | mul computes MulSpec, the accumulation of all pairwise products starting from Poly(0, 0) |
| `SparseTerms.MulFoldSum` | e05/05-poly_sparse_correctness/Poly.java:191-197 | the accumulator gains the coefficients of every term added, when no add raises |
| `SparseTerms.MulSpecSum` | e05/05-poly_sparse_correctness/Poly.java:188-199 | when mul does not raise, its coefficient at d is the convolution sum |
| `SparseTerms.MulFoldTotal` | e03/03-poly_sparse/Polinomio.java:128-138 | a variant whose constructor accepts the empty list never raises in mul |
| `SparseTerms.MulFoldError` | e05/05-poly_sparse_correctness/Poly.java:188-199 | the only exception mul can raise is the constructor's IllegalArgumentException |
| `SparseTerms.MulFoldDistinct` | e03/03-poly_sparse/Polinomio.java:128-138 | with removal by identity the product keeps distinct degrees |
| `SparseTerms.MulFoldDistinctEquals` | t10/02-poly_sparse_terms/Poly.java:240-251 | with removal by equals, every add of mul merges a one-term list, so the product keeps distinct degrees whether or not zero terms are copied |
| `SparseTerms.MergeFrontAgrees` | e04/05-poly_sparse_repok/Poly.java:142-152 | when only the front of the accumulator can share a degree with the terms merged in, removal by equals drops the same term as removal by identity |
| `SparseTerms.EqualsLoop` | e05/05-poly_sparse_correctness/Poly.java:256-270 | equals as written: the degrees must agree, and the coefficients are compared only at degrees stored in both |
| `SparseTerms.EqualsIgnoresUnsharedDegrees` | e05/05-poly_sparse_correctness/Poly.java:256-270 | x^2 + 3 and x^2 are reported equal, although their constant coefficients are 3 and 0 |
| `SparseTerms.EqualsByDegree` | e05/05-poly_sparse_correctness/Poly.java:256-270 | the corrected equals compares coeff at every degree up to either degree, and for valid polynomials that is exactly coefficient-wise equality |
| `SparseTerms.AgreeingStoredIsEqual` | e05/05-poly_sparse_correctness/Poly.java:98-107 | agreeing stored coefficients up to both degrees means the polynomials are equal |
| `Polinomio.Add` | e03/03-poly_sparse/Polinomio.java:89-109 | the coefficient-wise sum; operands with distinct degrees give a result with distinct degrees and no cancelled degree; it never raises, an empty merge becoming 0x^0 |
| `Polinomio.Minus` | e03/03-poly_sparse/Polinomio.java:144-151 | every coefficient negated, the degrees kept |
| `Polinomio.Sub` | e03/03-poly_sparse/Polinomio.java:117-120 | add(q.minus()): the coefficient-wise difference, with distinct degrees kept |
| `Polinomio.Mul` | e03/03-poly_sparse/Polinomio.java:128-138 | the coefficient at d is the sum of c1·c2 over all term pairs with d1 + d2 = d, with distinct degrees |
| `PolyRepOk.Add` | e04/05-poly_sparse_repok/Poly.java:102-123 | the coefficient-wise sum; with distinct degrees and the zero-term conditions under which remove-by-equals drops the right term, the result satisfies repOK |
| `PolyRepOk.Minus` | e04/05-poly_sparse_repok/Poly.java:158-165 | every coefficient negated, the degrees and repOK kept |
| `PolyRepOk.Sub` | e04/05-poly_sparse_repok/Poly.java:131-134 | add(q.minus()): the coefficient-wise difference |
| `PolyRepOk.Mul` | e04/05-poly_sparse_repok/Poly.java:142-152 | the convolution coefficients, with distinct degrees, so the product satisfies repOK |
| `PolyRepOk.RemoveByEqualsBreaksRepOk` | e04/05-poly_sparse_repok/Poly.java:306-313 | 0x^3 add 0x^5 is [0x^5, 0x^3]; adding 2x^3 to that, remove by equals drops the zero term 0x^5 instead of its partner 0x^3, and the sum holds degree 3 twice, failing repOK |
| `PolyCorrectness.Add` | e05/05-poly_sparse_correctness/Poly.java:138-159 | raises IllegalArgumentException only when every coefficient cancels, and for valid operands exactly then; otherwise the coefficient-wise sum with distinct degrees |
| `PolyCorrectness.Minus` | e05/05-poly_sparse_correctness/Poly.java:215-222 | every coefficient negated; degrees, distinctness and the absence of zero terms kept |
| `PolyCorrectness.Sub` | e05/05-poly_sparse_correctness/Poly.java:172-175 | raises only when p and q are the same polynomial, and for valid operands exactly then; otherwise the coefficient-wise difference |
| `PolyCorrectness.SameIffCancel` | e05/05-poly_sparse_correctness/Poly.java:172-175 | p + (−q) cancels completely exactly when p and q are the same polynomial |
| `PolyCorrectness.Mul` | e05/05-poly_sparse_correctness/Poly.java:188-199 | the convolution coefficients with distinct degrees, so the product satisfies repOK, or IllegalArgumentException |
| `PolyCorrectness.CancellationRaises` | e05/05-poly_sparse_correctness/Poly.java:79-87 | x^2 + (−x^2), Poly() + Poly() and Poly() · Poly() all raise IllegalArgumentException |
| `PolyTerms.Add` | t10/02-poly_sparse_terms/Poly.java:190-211 | raises only on complete cancellation, and for valid operands exactly then; otherwise the coefficient-wise sum, with unpartnered zero terms of this dropped |
| `PolyTerms.Minus` | t10/02-poly_sparse_terms/Poly.java:267-274 | every coefficient negated, degrees and validity kept |
| `PolyTerms.Sub` | t10/02-poly_sparse_terms/Poly.java:224-227 | raises only when p and q are the same polynomial; otherwise the coefficient-wise difference with distinct degrees |
| `PolyTerms.CancelIffSame` | t10/02-poly_sparse_terms/Poly.java:224-227 | p + (−q) cancels completely exactly when p and q are the same polynomial |
| `PolyTerms.Mul` | t10/02-poly_sparse_terms/Poly.java:240-251 | the convolution coefficients with distinct degrees, or IllegalArgumentException |
| `PolyTerms.PositiveUpToFacts` | t10/02-poly_sparse_terms/Poly.java:151-159 | the kept terms are in increasing degree and have positive coefficients |
| `PolyTerms.PositiveUpToEmpty` | t10/02-poly_sparse_terms/Poly.java:151-159 | nothing is kept exactly when no degree up to the bound has a positive coefficient |
| `PolyTerms.PositiveOfDistinct` | t10/02-poly_sparse_terms/Poly.java:151-159 | for distinct degrees, the kept polynomial has each positive coefficient and 0 elsewhere |
| `PolyTerms.PositiveTerms` | t10/02-poly_sparse_terms/Poly.java:153-157 | the loop over the degrees 0..degree() collects the terms with positive coefficient |
| `PolyTerms.SortByDegree` | t10/02-poly_sparse_terms/Poly.java:151-159 | raises IllegalArgumentException exactly when no coefficient is positive; otherwise the positive terms in increasing degree, with every other coefficient 0 |
| `PolyTerms.TermsGenerator.constructor` | t10/02-poly_sparse_terms/Poly.java:39-41 | the generator starts at the first of the sorted terms |
| `PolyTerms.TermsGenerator.HasNext` | t10/02-poly_sparse_terms/Poly.java:44-46 | true exactly while sorted terms remain, and then the next term's degree exceeds every degree already yielded |
| `PolyTerms.TermsGenerator.Next` | t10/02-poly_sparse_terms/Poly.java:49-55 | the next term, of a higher degree than every term before it; NoSuchElementException once exhausted |
| `PolyTerms.TermsOf` | t10/02-poly_sparse_terms/Poly.java:31-33 | terms() raises exactly when sortByDegree does, and otherwise iterates its terms from the start |
| `PolyTerms.AllTerms` | t10/02-poly_sparse_terms/Poly.java:44-55 | draining terms() yields the positive terms in increasing degree |
| `PolyTerms.SubOfItselfRaises` | t10/02-poly_sparse_terms/Poly.java:112-120 | x^2 − x^2 raises IllegalArgumentException |
| `Rational.JavaRem` | e05/01-rational/Razionale.java:157-170 | Java's `%`: the magnitude is \|a\| mod \|b\| and the sign is the dividend's |
| `Rational.JavaDiv` | e05/01-rational/Razionale.java:142-144 | Java's `/`: the magnitude is \|a\| div \|b\|, truncating towards zero |
| `Rational.JavaDivExact` | e05/01-rational/Razionale.java:142-144 | dividing by an exact divisor loses nothing |
| `Rational.GcdDivides` | e05/01-rational/Razionale.java:154-171 | the gcd divides both arguments and is 0 only for (0, 0) |
| `Rational.GcdGreatest` | e05/01-rational/Razionale.java:154-171 | every common divisor divides the gcd |
| `Rational.DividedByGcd` | e05/01-rational/Razionale.java:138-148 | dividing both numbers by their gcd leaves coprime numbers |
| `Rational.EuclidIsGcd` | e05/01-rational/Razionale.java:157-170 | Euclid's loop with Java's `%` ends with ± the gcd, for arguments of any sign |
| `Rational.McdIsGcd` | e05/01-rational/Razionale.java:154-171 | mcd's magnitude is the gcd, and it is non-negative for non-negative arguments |
| `Rational.McdOf` | e05/01-rational/Razionale.java:154-171 | mcd is 0 exactly for (0, 0) |
| `Rational.Mcd` | e05/01-rational/Razionale.java:154-171 | the loop computes McdOf, whose magnitude is the gcd of the magnitudes |
| `Rational.ReduceFacts` | e05/01-rational/Razionale.java:138-148 | dividing num and den by an mcd keeps the value and leaves coprime parts with a non-zero denominator, positive when the signs of den and mcd agree |
| `Rational.SignedNumValue` | e05/01-rational/Razionale.java:38-39 | moving the sign to the numerator keeps the value, and gives a non-negative numerator when n·d ≥ 0 |
| `Rational.Razionale.Init` | e05/01-rational/Razionale.java:34-43 | the stored fraction equals n/d, it is reduced to coprime parts, den > 0 when n·d ≥ 0, and num and den are the code's exact quotients |
| `Rational.Create` | e05/01-rational/Razionale.java:34-43 | the constructor raises ZeroDivisorException exactly for d = 0; otherwise a reduced fraction of value n/d |
| `Rational.Razionale.Reduce` | e05/01-rational/Razionale.java:138-148 | the value is kept, num and den become coprime, and den stays positive for a non-negative num |
| `Rational.Razionale.ReduceAbs` | e05/01-rational/Razionale.java:138-148 | reduce with the gcd of the magnitudes: the value is kept, num and den coprime, and den stays positive for every num |
| `Rational.NegativeNumeratorMovesSign` | e05/01-rational/Razionale.java:38-42 | for Razionale(−1, 2), mcd returns −1 and the stored denominator becomes −2 |
| `Rational.Razionale.Add` | e05/01-rational/Razionale.java:55-61 | a new reduced rational whose value is this + s |
| `Rational.Razionale.Sub` | e05/01-rational/Razionale.java:71-76 | as written: the value is this + s, which differs from this − s whenever s ≠ 0, and both operands keep their values; s itself is reduced in place, its fields divided by their mcd and left coprime |
| `Rational.Razionale.SubNegating` | e05/01-rational/Razionale.java:64-69 | sub as its doc states it: a new rational whose value is this − s |
| `Rational.Razionale.Mul` | e05/01-rational/Razionale.java:86-90 | a new reduced rational whose value is this · s |
| `Rational.Razionale.Reciproco` | e05/01-rational/Razionale.java:120-124 | raises ZeroDivisorException exactly for the value 0; otherwise the value 1/this |
| `Rational.Razionale.Div` | e05/01-rational/Razionale.java:103-110 | raises ZeroDivisorException exactly when s is 0; otherwise the value this / s |
| `Rational.Razionale.HashCode` | e05/01-rational/Razionale.java:187-194 | 31·num + den wrapped to a Java int |
| `Rational.Razionale.Equals` | e05/01-rational/Razionale.java:179-184 | true exactly when the stored num and den agree; equal rationals have equal values and equal hashCodes |
| `Rational.AddFractions` | e05/01-rational/Razionale.java:55-61 | (d·a + c·b)/(b·d) is a/b + c/d |
| `Rational.MulFractions` | e05/01-rational/Razionale.java:86-90 | (a·c)/(b·d) is (a/b)·(c/d) |
| `IntSetSpec.IndexOf` | e03/01-intset/IntSet.java:38-49 | the first position of x, or −1 exactly when x is absent |
| `IntSetSpec.InsertedFacts` | e03/01-intset/IntSet.java:29-32 | inserting adds x to the elements, never a duplicate, and grows the list only when x was absent |
| `IntSetSpec.SwapRemovedFacts` | e03/01-intset/IntSet.java:38-49 | swap-with-last removal drops one occurrence of x and keeps everything else; without duplicates the elements lose exactly x |
| `IntSetSpec.RemovedFirstFacts` | e06/02-maxminintset/IntSet.java:60-63 | removing the first occurrence drops one x and keeps the rest; without duplicates the elements lose exactly x |
| `IntSetSpec.DistinctCard` | e03/01-intset/IntSet.java:65-67 | a list without duplicates is as long as its set of elements |
| `IntSetSpec.SameSizeSubset` | e05/03-intset_correctness/IntSet.java:142-152 | two duplicate-free lists of the same size, one's elements inside the other's, hold the same elements |
| `IntSetSpec.SameSetSameMultiset` | e04/03-intset_repok/IntSet.java:143-150 | duplicate-free lists of the same elements are permutations of each other |
| `IntSetBasic.IntSet.constructor` | e03/01-intset/IntSet.java:21-23 | a new set is empty |
| `IntSetBasic.IntSet.Insert` | e03/01-intset/IntSet.java:29-32 | x is added to the set, appended only when absent, and no duplicate appears |
| `IntSetBasic.IntSet.Remove` | e03/01-intset/IntSet.java:38-49 | x's slot takes the last element and the last slot goes; one x leaves, all other elements stay, an absent x changes nothing |
| `IntSetBasic.IntSet.Choose` | e03/01-intset/IntSet.java:56-60 | EmptyException exactly on the empty set; otherwise the last list element, a member |
| `IntSetBasic.IntSet.Size` | e03/01-intset/IntSet.java:65-67 | the number of members |
| `IntSetBasic.IntSet.Contains` | e03/01-intset/IntSet.java:72-74 | true exactly for members |
| `IntSetRepOk.PermutationKeepsDistinct` | e04/03-intset_repok/IntSet.java:93-104 | reordering the list keeps it free of duplicates |
| `IntSetRepOk.SortedAdjacent` | e04/03-intset_repok/IntSet.java:156-165 | a sorted list is free of duplicates exactly when no two neighbours are equal |
| `IntSetRepOk.SortedSetsEqual` | e04/03-intset_repok/IntSet.java:143-150 | two sorted duplicate-free lists of the same elements are the same list, so sorting before hashing makes equal sets hash alike |
| `IntSetRepOk.IntSet.constructor` | e04/03-intset_repok/IntSet.java:28-30 | a new set is empty |
| `IntSetRepOk.IntSet.Insert` | e04/03-intset_repok/IntSet.java:36-40 | x is added, appended only when absent |
| `IntSetRepOk.IntSet.Remove` | e04/03-intset_repok/IntSet.java:46-54 | swap-with-last removal of x; other elements stay, absent x changes nothing |
| `IntSetRepOk.IntSet.Get` | e04/03-intset_repok/IntSet.java:60-62 | IndexOutOfBoundsException exactly for an index out of range; otherwise the element at that position |
| `IntSetRepOk.IntSet.Choose` | e04/03-intset_repok/IntSet.java:69-73 | EmptyException exactly on the empty set; otherwise the last element |
| `IntSetRepOk.IntSet.Size` | e04/03-intset_repok/IntSet.java:78-80 | the number of members |
| `IntSetRepOk.IntSet.Contains` | e04/03-intset_repok/IntSet.java:85-87 | true exactly for members |
| `IntSetRepOk.IntSet.Exchange` | e04/03-intset_repok/IntSet.java:97-101 | one compare-and-swap of sort: entries i and j are swapped exactly when they are out of order |
| `IntSetRepOk.IntSet.SortPass` | e04/03-intset_repok/IntSet.java:95-102 | one pass of the outer loop permutes the list so that the first i + 1 entries are sorted and entry i is no larger than any later one |
| `IntSetRepOk.IntSet.Sort` | e04/03-intset_repok/IntSet.java:93-104 | the list is permuted in place into ascending order; the set and repOK are unchanged |
| `IntSetRepOk.IntSet.Equals` | e04/03-intset_repok/IntSet.java:124-140 | true exactly when the sizes match and every element of o is in this set; for valid sets that is set equality |
| `IntSetRepOk.IntSet.HashCode` | e04/03-intset_repok/IntSet.java:143-150 | sorts the list as a side effect and hashes the string of the sorted elements, which depends on the set alone |
| `IntSetRepOk.IntSet.RepOK` | e04/03-intset_repok/IntSet.java:156-165 | sorts, then fails when two neighbours are the same Integer object: a list without duplicates passes, and with every element in the Integer cache it passes exactly when it had no duplicates |
| `IntSetCorrectness.SumOfPermutation` | e05/03-intset_correctness/IntSet.java:142-152 | reordering a list keeps the sum of its elements |
| `IntSetCorrectness.ListHashOrderDependent` | e05/03-intset_correctness/IntSet.java:155-161 | the sets {1, 2} stored as [1, 2] and as [2, 1] are equal but hash to 1955 and 1985 |
| `IntSetCorrectness.EqualSetsEqualHash` | e05/03-intset_correctness/IntSet.java:142-161 | the order-free hash gives equal sets equal hashes |
| `IntSetCorrectness.IntSet.constructor` | e05/03-intset_correctness/IntSet.java:33-35 | a new set is empty |
| `IntSetCorrectness.IntSet.Insert` | e05/03-intset_correctness/IntSet.java:50-54 | a no-op when x is present, otherwise x is appended |
| `IntSetCorrectness.IntSet.Remove` | e05/03-intset_correctness/IntSet.java:69-77 | swap-with-last removal; all other members stay |
| `IntSetCorrectness.IntSet.Get` | e05/03-intset_correctness/IntSet.java:86-88 | IndexOutOfBoundsException exactly out of range; otherwise the element at that position |
| `IntSetCorrectness.IntSet.Choose` | e05/03-intset_correctness/IntSet.java:98-102 | EmptyException exactly on the empty set; otherwise the last element |
| `IntSetCorrectness.IntSet.Size` | e05/03-intset_correctness/IntSet.java:110-112 | the number of members |
| `IntSetCorrectness.IntSet.Contains` | e05/03-intset_correctness/IntSet.java:120-122 | true exactly for members |
| `IntSetCorrectness.IntSet.Equals` | e05/03-intset_correctness/IntSet.java:142-152 | true exactly when the sizes match and every member of this set is in o; for valid sets that is set equality |
| `IntSetCorrectness.IntSet.HashCode` | e05/03-intset_correctness/IntSet.java:155-161 | the hash folds 31·h + x over the list in stored order, starting from the size |
| `IntSetCorrectness.IntSet.OrderFreeHashCode` | e05/03-intset_correctness/IntSet.java:155-161 | a hashCode consistent with equals: every duplicate-free list of the same members gives the same hash |
| `LinkedIntSet.IntSet.constructor` | e06/02-maxminintset/IntSet.java:25-27 | a new set is empty |
| `LinkedIntSet.IntSet.Insert` | e06/02-maxminintset/IntSet.java:42-45 | x is appended only when contains(x) is false |
| `LinkedIntSet.IntSet.Remove` | e06/02-maxminintset/IntSet.java:60-63 | the first x is removed and the others keep their order |
| `LinkedIntSet.IntSet.Choose` | e06/02-maxminintset/IntSet.java:73-77 | EmptyException exactly on the empty set; otherwise the first element, a member |
| `LinkedIntSet.IntSet.Size` | e06/02-maxminintset/IntSet.java:85-87 | the number of members |
| `LinkedIntSet.IntSet.Contains` | e06/02-maxminintset/IntSet.java:95-97 | true exactly for members |
| `LinkedIntSet.Iterator.constructor` | e06/02-maxminintset/IntSet.java:100-104 | the iterator starts at the first element |
| `LinkedIntSet.Iterator.HasNext` | e06/02-maxminintset/IntSet.java:106-108 | true exactly while index < size |
| `LinkedIntSet.Iterator.Next` | e06/02-maxminintset/IntSet.java:111-113 | the elements in stored order, then IndexOutOfBoundsException |
| `MaxMinIntSet.MaxOf` | e06/02-maxminintset/MaxMinIntSet.java:35-42 | the largest element of a non-empty list, itself an element |
| `MaxMinIntSet.MinOf` | e06/02-maxminintset/MaxMinIntSet.java:45-52 | the smallest element of a non-empty list, itself an element |
| `MaxMinIntSet.MaxOfSnoc` | e06/02-maxminintset/MaxMinIntSet.java:24-25 | appending x makes the maximum x when x is larger, and keeps it otherwise |
| `MaxMinIntSet.MinOfSnoc` | e06/02-maxminintset/MaxMinIntSet.java:26-27 | appending x makes the minimum x when x is smaller, and keeps it otherwise |
| `MaxMinIntSet.MaxMinIntSet.constructor` | e06/02-maxminintset/MaxMinIntSet.java:19-20 | an empty set with max Integer.MIN_VALUE and min Integer.MAX_VALUE |
| `MaxMinIntSet.MaxMinIntSet.Insert` | e06/02-maxminintset/MaxMinIntSet.java:23-29 | max rises to x when x is larger, min falls to x when smaller, then x is inserted; the cache invariant is kept |
| `MaxMinIntSet.MaxMinIntSet.Largest` | e06/02-maxminintset/MaxMinIntSet.java:35-42 | the loop over the iterator finds the maximum of the non-empty set |
| `MaxMinIntSet.MaxMinIntSet.Smallest` | e06/02-maxminintset/MaxMinIntSet.java:45-52 | the loop over the iterator finds the minimum of the non-empty set |
| `MaxMinIntSet.MaxMinIntSet.Remove` | e06/02-maxminintset/MaxMinIntSet.java:32-54 | removing the cached max (min) of a set that stays non-empty recomputes it as the new maximum (minimum); other removals leave both; the invariant is kept unless the set becomes empty |
| `MaxMinIntSet.KeepsExtremes` | e06/02-maxminintset/MaxMinIntSet.java:34-44 | removing an element other than the maximum (minimum) leaves the maximum (minimum) as it was |
| `MaxMinIntSet.MaxMinIntSet.Max` | e06/02-maxminintset/MaxMinIntSet.java:56-58 | while the invariant holds on a non-empty set, the cached max is its largest member |
| `MaxMinIntSet.MaxMinIntSet.Min` | e06/02-maxminintset/MaxMinIntSet.java:60-62 | while the invariant holds on a non-empty set, the cached min is its smallest member |
| `MaxMinIntSet.StaleMaximum` | e06/02-maxminintset/MaxMinIntSet.java:32-54 | insert 5, remove 5, insert 3: max() reports 5 for the set {3} |
| `MaxMinIntSet.MaxMinIntSet.RemoveResetting` | e06/02-maxminintset/MaxMinIntSet.java:32-54 | remove with max and min reset when the set empties keeps the invariant on every call |
| `MaxMinIntSet.ResetMaximum` | e06/02-maxminintset/MaxMinIntSet.java:22-54 | with the reset, the same calls report the maximum 3 |
| `NodeSet.AsMap` | e05/02-simplemap/SimpleMap.java:14-15 | the map a key-unique set of entries stands for: its keys, each to its entry's value |
| `NodeSet.KeysCard` | e05/02-simplemap/SimpleMap.java:117-119 | a key-unique set has as many entries as keys |
| `NodeSet.WithoutFacts` | e05/02-simplemap/SimpleMap.java:96-108 | dropping the entries with key k keeps keys unique and removes k from the map |
| `NodeSet.PutKeys` | e05/02-simplemap/SimpleMap.java:70-78 | put adds k to the keys |
| `NodeSet.PutFacts` | e05/02-simplemap/SimpleMap.java:70-78 | put keeps keys unique, maps k to v with other keys unchanged, and grows the set exactly when k was absent |
| `Nodo.Nodo.constructor` | e05/02-simplemap/Nodo.java:45-49 | the node holds the given key and value |
| `Nodo.Nodo.GetKey` | e05/02-simplemap/Nodo.java:55-57 | the stored key |
| `Nodo.Nodo.GetValue` | e05/02-simplemap/Nodo.java:63-65 | the stored value |
| `Nodo.Nodo.SetValue` | e05/02-simplemap/Nodo.java:81-84 | the value is replaced; the key is a constant |
| `Nodo.Nodo.Equals` | e05/02-simplemap/Nodo.java:87-95 | two nodes are equal exactly when their keys are, whatever their values |
| `Nodo.Nodo.HashCode` | e05/02-simplemap/Nodo.java:111-113 | the hash depends on the key alone, so nodes equal by key hash alike |
| `SimpleMap.SimpleMap.constructor` | e05/02-simplemap/SimpleMap.java:40-43 | a new map is empty |
| `SimpleMap.SimpleMap.Put` | e05/02-simplemap/SimpleMap.java:70-78 | afterwards key maps to value and every other key is unchanged; the size grows by one exactly when key was absent |
| `SimpleMap.SimpleMap.Remove` | e05/02-simplemap/SimpleMap.java:96-108 | key's entry is deleted and nothing else; an absent key changes nothing |
| `SimpleMap.SimpleMap.Size` | e05/02-simplemap/SimpleMap.java:117-119 | the number of keys |
| `SimpleMap.SimpleMap.ContainsKey` | e05/02-simplemap/SimpleMap.java:128-133 | true exactly when some entry has key k |
| `SimpleMap.SimpleMap.Get` | e05/02-simplemap/SimpleMap.java:144-150 | key's value; IllegalArgumentException exactly when key is absent |
| `SimpleMap.SimpleMap.Equals` | e05/02-simplemap/SimpleMap.java:179-191 | for valid maps, true exactly when they are the same map |
| `Mappa.Mappa.constructor` | e05/02-simplemap/Mappa.java:34-37 | a new map is empty |
| `Mappa.Mappa.Copy` | e05/02-simplemap/Mappa.java:47-51 | the copy holds the same entries, hence the same map |
| `Mappa.Mappa.Put` | e05/02-simplemap/Mappa.java:65-73 | any previous entry of key is replaced, so keys stay unique and key maps to value |
| `Mappa.Mappa.Remove` | e05/02-simplemap/Mappa.java:86-107 | returns key's value and removes its entry, or None (null) and no change when key is absent |
| `Mappa.Mappa.Size` | e05/02-simplemap/Mappa.java:113-115 | the number of keys |
| `Mappa.Mappa.Get` | e05/02-simplemap/Mappa.java:121-136 | key's value, or None (null) exactly when key is absent |
| `Mappa.Mappa.Equals` | e05/02-simplemap/Mappa.java:163-188 | for valid maps, true exactly when they are the same map |
| `OrderedChain.SentinelIsOnlyZero` | t10/05-orderedintlist/OrderedIntList.java:344-348 | the sentinel of an ascending chain is its only 0-valued node |
| `OrderedChain.StoredFacts` | t10/05-orderedintlist/OrderedIntList.java:182-200 | the stored integers are the chain without its sentinel: ascending, one fewer, exactly the non-zero values |
| `OrderedChain.AscendingUnique` | t10/05-orderedintlist/OrderedIntList.java:318-332 | two ascending lists with the same elements are the same list |
| `OrderedChain.SplicedAscending` | t10/05-orderedintlist/OrderedIntList.java:117-146 | linking n between a smaller and a larger neighbour keeps the chain ascending |
| `OrderedChain.SplicedMembers` | t10/05-orderedintlist/OrderedIntList.java:117-146 | such an n was not stored before, and afterwards the values are the old ones plus n |
| `OrderedChain.UnlinkedFacts` | t10/05-orderedintlist/OrderedIntList.java:157-173 | unlinking a node removes exactly its value and keeps the chain ascending |
| `OrderedWalks.IsInCall` | t10/05-orderedintlist/OrderedIntList.java:182-200 | one call of isIn: false for 0, true exactly at the node holding n, otherwise a recursive call one step right when n is larger and one step left when smaller |
| `OrderedWalks.IsInNeverAnswers` | t10/05-orderedintlist/OrderedIntList.java:182-200 | for an absent n strictly between the smallest and largest node values, isIn never reaches an answer |
| `OrderedWalks.IsInCycles` | t10/05-orderedintlist/OrderedIntList.java:191-197 | on the chain [0, 5] isIn(3) goes from the sentinel to 5 and back again |
| `OrderedWalks.FirstListEl` | t10/05-orderedintlist/OrderedIntList.java:211-219 | the walk to the leftmost node ends on a node, or −1 (null) for an empty chain |
| `OrderedWalks.LastListEl` | t10/05-orderedintlist/OrderedIntList.java:229-234 | the walk right ends at the rightmost node |
| `OrderedWalks.FirstFromSentinel` | t10/05-orderedintlist/OrderedIntList.java:211-219 | firstListEl from the sentinel is position 0 when negatives exist, otherwise the node right of the sentinel, or null for an empty list |
| `OrderedWalks.AheadRight` | t10/05-orderedintlist/OrderedIntList.java:251-263 | right of the sentinel smallToBig yields the rest of the chain in order |
| `OrderedWalks.AheadLeft` | t10/05-orderedintlist/OrderedIntList.java:251-263 | left of the sentinel smallToBig skips the sentinel when positives follow, and yields it last when none do |
| `OrderedWalks.UnshowAscending` | t10/05-orderedintlist/OrderedIntList.java:241-265 | what smallToBig shows still determines the stored integers |
| `OrderedWalks.LastSign` | t10/05-orderedintlist/OrderedIntList.java:241-265 | the chain ends in its sentinel exactly when the list holds only negatives |
| `OrderedWalks.SmallToBigYields` | t10/05-orderedintlist/OrderedIntList.java:241-265 | smallToBig yields the stored integers in ascending order, followed by the sentinel 0 when all are negative |
| `OrderedWalks.BehindLeft` | t10/05-orderedintlist/OrderedIntList.java:286-298 | left of the sentinel bigToSmall yields the chain down to its start |
| `OrderedWalks.BehindRight` | t10/05-orderedintlist/OrderedIntList.java:286-298 | right of the sentinel bigToSmall yields the chain reversed, skipping the sentinel |
| `OrderedWalks.BehindStep` | t10/05-orderedintlist/OrderedIntList.java:286-298 | one next() of bigToSmall right of the sentinel: the current value, then one step left, skipping the sentinel |
| `OrderedWalks.BehindFromLast` | t10/05-orderedintlist/OrderedIntList.java:272-300 | starting from the rightmost node, the sentinel is yielded first exactly when it is the rightmost node of a non-trivial chain |
| `OrderedWalks.BigToSmallYields` | t10/05-orderedintlist/OrderedIntList.java:272-300 | bigToSmall yields the stored integers in descending order, preceded by the sentinel 0 when all are negative |
| `OrderedWalks.AheadHidingFrom` | t10/05-orderedintlist/OrderedIntList.java:251-263 | the corrected next() skips the sentinel wherever it is |
| `OrderedWalks.SmallToBigHidingYields` | t10/05-orderedintlist/OrderedIntList.java:241-265 | the corrected smallToBig yields exactly the stored integers in ascending order |
| `OrderedWalks.BehindHidingFrom` | t10/05-orderedintlist/OrderedIntList.java:286-298 | the corrected bigToSmall next() skips the sentinel wherever it is |
| `OrderedWalks.BehindHidingFromStart` | t10/05-orderedintlist/OrderedIntList.java:272-300 | the corrected bigToSmall from its start yields the chain without the sentinel, reversed |
| `OrderedWalks.BigToSmallHidingYields` | t10/05-orderedintlist/OrderedIntList.java:272-300 | the corrected bigToSmall yields exactly the stored integers in descending order |
| `OrderedIntList.ListHashStep` | t10/05-orderedintlist/OrderedIntList.java:335-342 | one loop step of hashCode extends the hash of a prefix by one element |
| `OrderedIntList.ShownAgree` | t10/05-orderedintlist/OrderedIntList.java:318-332 | two lists show the same ascending sequence exactly when they store the same integers |
| `OrderedIntList.EqualListsHashAlike` | t10/05-orderedintlist/OrderedIntList.java:335-342 | lists storing the same integers have the same hashCode |
| `OrderedIntList.OrderedIntList.constructor` | t10/05-orderedintlist/OrderedIntList.java:36-38 | a new list is the lone sentinel and stores nothing |
| `OrderedIntList.OrderedIntList.Empty` | t10/05-orderedintlist/OrderedIntList.java:97-99 | true exactly when nothing is stored |
| `OrderedIntList.OrderedIntList.Add` | t10/05-orderedintlist/OrderedIntList.java:112-149 | DuplicateException exactly when n is stored or is 0, with the list unchanged; otherwise n joins the stored integers, all earlier ones remain, and the chain stays ascending |
| `OrderedIntList.OrderedIntList.LinkAt` | t10/05-orderedintlist/OrderedIntList.java:130-145 | linking a new node between its neighbours adds exactly n and keeps the chain ascending |
| `OrderedIntList.OrderedIntList.AddWalk` | t10/05-orderedintlist/OrderedIntList.java:117-146 | add's recursion from the sentinel stops at the node where n belongs: among the positives for n > 0, the negatives for n < 0 |
| `OrderedIntList.OrderedIntList.Remove` | t10/05-orderedintlist/OrderedIntList.java:156-174 | an absent n outside the range of node values, the sentinel 0 included, changes nothing (in the model also an absent n inside that range, see Left out); otherwise n's node is unlinked, n is no longer stored and every other integer remains |
| `OrderedIntList.RemoveNeverReturns` | t10/05-orderedintlist/OrderedIntList.java:156-159 | remove begins with isIn, so for an absent n strictly between the smallest and largest node values the call from the sentinel never reaches an answer |
| `OrderedIntList.OrderedIntList.IsIn` | t10/05-orderedintlist/OrderedIntList.java:182-200 | isIn as its doc intends it: true exactly when n is stored, terminating by walking away from the sentinel in one direction only |
| `OrderedIntList.OrderedIntList.WalkUp` | t10/05-orderedintlist/OrderedIntList.java:188-192 | the walk right from the sentinel reaches n's node when n > 0 is stored |
| `OrderedIntList.OrderedIntList.WalkDown` | t10/05-orderedintlist/OrderedIntList.java:193-197 | the walk left from the sentinel reaches n's node when n < 0 is stored |
| `OrderedIntList.OrderedIntList.RepOk` | t10/05-orderedintlist/OrderedIntList.java:344-348 | repOk holds, since a node without neighbours is the lone sentinel 0 |
| `OrderedIntList.OrderedIntList.SmallToBig` | t10/05-orderedintlist/OrderedIntList.java:241-265 | a fresh iterator that will yield what smallToBig shows for the stored integers |
| `OrderedIntList.OrderedIntList.BigToSmall` | t10/05-orderedintlist/OrderedIntList.java:272-300 | a fresh iterator that will yield what bigToSmall shows for the stored integers |
| `OrderedIntList.OrderedIntList.Equals` | t10/05-orderedintlist/OrderedIntList.java:318-332 | true only for lists storing the same integers, and true for all such lists whose values lie in the Integer cache |
| `OrderedIntList.InStep` | t10/05-orderedintlist/OrderedIntList.java:322-330 | the lockstep loop of equals: true only when both iterators yield the same values, and true for those when they lie in the Integer cache |
| `OrderedIntList.OrderedIntList.HashCode` | t10/05-orderedintlist/OrderedIntList.java:335-342 | the hash folds over what smallToBig shows, so it depends only on the stored integers |
| `OrderedIntList.SmallToBigIterator.constructor` | t10/05-orderedintlist/OrderedIntList.java:241-245 | the iterator's cache starts at firstListEl of the sentinel |
| `OrderedIntList.SmallToBigIterator.HasNext` | t10/05-orderedintlist/OrderedIntList.java:246-248 | true exactly while values remain to be yielded |
| `OrderedIntList.SmallToBigIterator.Next` | t10/05-orderedintlist/OrderedIntList.java:251-263 | the next value to be yielded and one step on; NoSuchElementException once exhausted, with nothing changed |
| `OrderedIntList.BigToSmallIterator.constructor` | t10/05-orderedintlist/OrderedIntList.java:272-276 | the iterator's cache starts at lastListEl of the sentinel |
| `OrderedIntList.BigToSmallIterator.HasNext` | t10/05-orderedintlist/OrderedIntList.java:277-283 | true exactly while values remain to be yielded |
| `OrderedIntList.BigToSmallIterator.Next` | t10/05-orderedintlist/OrderedIntList.java:286-298 | the next value to be yielded and one step on; NoSuchElementException once exhausted |
| `Punto.Somma` | e07/04-astro/Punto.java:36-40 | as written: the x and y components are the sums (the third is characterised by SommaIgnoresZ) |
| `Punto.Sottrazione` | e07/04-astro/Punto.java:50-54 | as written: the x and y components are the differences |
| `Punto.SommaIgnoresZ` | e07/04-astro/Punto.java:36-40 | somma agrees with the sum the doc describes exactly when the z components add up to what the y components do |
| `Punto.SommaSottrazioneRoundTrip` | e07/04-astro/Punto.java:36-54 | sottrazione undoes somma exactly when p's z equals its y |
| `Punto.SommaCounterexample` | e07/04-astro/Punto.java:36-40 | (0,0,1) somma (0,0,1) is the origin, whereas the documented sum is (0,0,2) |
| `Punto.Plus` | e07/04-astro/Punto.java:28-35 | the documented sum, which subtracting q undoes |
| `Punto.PlusLaws` | e07/04-astro/Punto.java:28-49 | the documented sum is commutative and associative with the origin as unit, and the documented difference is its inverse |
| `Punto.Norma` | e07/04-astro/Punto.java:60-65 | the norm \|x\| + \|y\| + \|z\| is non-negative, 0 exactly at the origin, and no smaller than any component's magnitude |
| `Punto.NormaTriangle` | e07/04-astro/Punto.java:60-65 | the norm of a sum is at most the sum of the norms, and opposite points have equal norms |
| `Punto.Equals` | e07/04-astro/Punto.java:111-116 | true exactly when all three coordinates agree |
| `Punto.HashCode` | e07/04-astro/Punto.java:100-105 | the hash is a Java int |
| `Punto.EqualsHashAlike` | e07/04-astro/Punto.java:100-116 | equal points have equal hashCodes |
| `CorpoCeleste.Simulated` | e07/04-astro/CorpoCeleste.java:40-43 | the new position is the old position plus the speed; name, kind and speed are unchanged, and a fixed star does not move |
| `CorpoCeleste.SpeedSet` | e07/04-astro/StellaFissa.java:20-22 | a planet stores the given speed, a fixed star always stores (0,0,0), and nothing else changes |
| `CorpoCeleste.AxisStep` | e07/04-astro/Pianeta.java:31-33 | the step on one axis is +1 exactly when this coordinate is the smaller, −1 otherwise, including for equal coordinates |
| `CorpoCeleste.StepFacts` | e07/04-astro/Pianeta.java:31-33 | the step between equal points is (−1,−1,−1), and on an axis where they differ it changes sign when the roles swap |
| `CorpoCeleste.Interaction` | e07/04-astro/Pianeta.java:26-43 | interact changes no position, name or kind; a fixed star's own speed stays (0,0,0) and the invariant is kept for both bodies |
| `CorpoCeleste.PlanetsKeepSpeedSum` | e07/04-astro/Pianeta.java:35-42 | an interaction of two planets leaves the sum of their speeds unchanged |
| `CorpoCeleste.InteractionAttracts` | e07/04-astro/Pianeta.java:35-39 | the other planet's speed moves by one towards this body on every axis |
| `CorpoCeleste.SelfInteraction` | e07/04-astro/Pianeta.java:26-43 | a planet interacting with itself loses (1,1,1) of speed; a fixed star is unchanged |
| `CorpoCeleste.Energy` | e07/04-astro/CorpoCeleste.java:131-133 | the energy, kinetic times potential, is 0 exactly when the body is at rest or at the origin |
| `CorpoCeleste.CorpoCeleste.Pianeta` | e07/04-astro/Pianeta.java:12-14 | a planet with the given name, position and speed |
| `CorpoCeleste.CorpoCeleste.StellaFissa` | e07/04-astro/StellaFissa.java:10-12 | a fixed star with the given name and position, at rest |
| `CorpoCeleste.CorpoCeleste.Simulate` | e07/04-astro/CorpoCeleste.java:40-43 | the body's fields become Simulated of the old ones |
| `CorpoCeleste.CorpoCeleste.SetCoordinate` | e07/04-astro/CorpoCeleste.java:70-72 | only the position changes, to the given point |
| `CorpoCeleste.CorpoCeleste.SetSpeed` | e07/04-astro/CorpoCeleste.java:83-85 | the speed becomes the given point for a planet and stays zero for a fixed star |
| `CorpoCeleste.CorpoCeleste.GetCoordinate` | e07/04-astro/CorpoCeleste.java:93-95 | a point equal to the position |
| `CorpoCeleste.CorpoCeleste.GetSpeed` | e07/04-astro/CorpoCeleste.java:103-105 | a point equal to the speed |
| `CorpoCeleste.CorpoCeleste.EnergiaCinetica` | e07/04-astro/CorpoCeleste.java:112-114 | the norm of the speed: non-negative and 0 exactly at rest |
| `CorpoCeleste.CorpoCeleste.EnergiaPotenziale` | e07/04-astro/CorpoCeleste.java:121-123 | the norm of the position: non-negative and 0 exactly at the origin |
| `CorpoCeleste.CorpoCeleste.GetEnergia` | e07/04-astro/CorpoCeleste.java:131-133 | kinetic times potential energy, non-negative |
| `CorpoCeleste.CorpoCeleste.GetNome` | e07/04-astro/CorpoCeleste.java:140-142 | the body's name |
| `CorpoCeleste.CorpoCeleste.Interact` | e07/04-astro/Pianeta.java:26-43 | NullPointerException for null with nothing changed; otherwise both bodies take the values Interaction gives |
| `SistemaAstronomico.RowMembers` | e07/04-astro/SistemaAstronomico.java:29-31 | the inner loop runs over the pairs (i, j) with a ≤ j < b |
| `SistemaAstronomico.RowsBeforeMembers` | e07/04-astro/SistemaAstronomico.java:28-32 | the first i rows of the double loop visit exactly the pairs with first index below i and second above the first |
| `SistemaAstronomico.InteractionsExactlyOnce` | e07/04-astro/SistemaAstronomico.java:27-33 | updateSpeed visits every pair i < j of bodies exactly once, in row-major order |
| `SistemaAstronomico.SweepKeeps` | e07/04-astro/SistemaAstronomico.java:27-33 | the interactions change no position, name or kind, and keep every body valid |
| `SistemaAstronomico.SweepKeepsSpeedSum` | e07/04-astro/SistemaAstronomico.java:27-33 | in a system of planets the interactions keep the sum of all speeds |
| `SistemaAstronomico.Moved` | e07/04-astro/SistemaAstronomico.java:42-46 | move simulates every body once |
| `SistemaAstronomico.MovedStarsStay` | e07/04-astro/SistemaAstronomico.java:42-46 | fixed stars do not move |
| `SistemaAstronomico.TotalEnergyZero` | e07/04-astro/SistemaAstronomico.java:35-40 | the total energy is 0 exactly when every body is at rest or at the origin |
| `SistemaAstronomico.CompareToFacts` | e07/04-astro/SistemaAstronomico.java:48-58 | name comparison is antisymmetric and 0 exactly for equal names |
| `SistemaAstronomico.InsertOrdered` | e07/04-astro/SistemaAstronomico.java:48-58 | inserting a body into a name-ordered list keeps it ordered |
| `SistemaAstronomico.SortByName` | e07/04-astro/SistemaAstronomico.java:48-58 | the sorted list is a permutation of the bodies in ascending name order, without duplicates when there were none |
| `SistemaAstronomico.InsertNamed` | e07/04-astro/SistemaAstronomico.java:48-58 | insertion goes in front of the bodies with the same name and passes only bodies with other names |
| `SistemaAstronomico.SortByNameStable` | e07/04-astro/SistemaAstronomico.java:48-58 | the sort is stable, as `Collections.sort` is: for every name, the bodies with that name keep their relative order |
| `SistemaAstronomico.InteractPair` | e07/04-astro/SistemaAstronomico.java:30-31 | body i interacts with body j as InteractAt describes |
| `SistemaAstronomico.InteractRow` | e07/04-astro/SistemaAstronomico.java:29-31 | the inner loop performs the interactions of row i on top of the earlier rows |
| `SistemaAstronomico.InteractAll` | e07/04-astro/SistemaAstronomico.java:27-33 | the double loop performs the interactions of every pair i < j in row-major order |
| `SistemaAstronomico.SimulateAt` | e07/04-astro/SistemaAstronomico.java:44-45 | simulating body k changes body k alone |
| `SistemaAstronomico.SimulateAll` | e07/04-astro/SistemaAstronomico.java:42-46 | every body is simulated once |
| `SistemaAstronomico.SistemaAstronomico.constructor` | e07/04-astro/SistemaAstronomico.java:16-20 | the system holds the given name and bodies |
| `SistemaAstronomico.SistemaAstronomico.UpdateStatus` | e07/04-astro/SistemaAstronomico.java:22-25 | all interactions, then all moves |
| `SistemaAstronomico.SistemaAstronomico.UpdateSpeed` | e07/04-astro/SistemaAstronomico.java:27-33 | the bodies take the values of all pairwise interactions i < j in row-major order |
| `SistemaAstronomico.SistemaAstronomico.Move` | e07/04-astro/SistemaAstronomico.java:42-46 | every body moves by its speed once |
| `SistemaAstronomico.SistemaAstronomico.TotalEnergy` | e07/04-astro/SistemaAstronomico.java:35-40 | the sum of the bodies' energies |
| `SistemaAstronomico.SistemaAstronomico.NameSortedIterator` | e07/04-astro/SistemaAstronomico.java:48-58 | the bodies are permuted in place into ascending name order and iterated |
| `SistemaAstronomico.SistemaAstronomico.Iterator` | e07/04-astro/SistemaAstronomico.java:61-63 | the same as nameSortedIterator |
| `ExchangeSort.Misplaced` | e01/06-kaprekar/Kaprekar.java:35-37 | the swap condition: a pair is out of order for the chosen direction |
| `ExchangeSort.SortedMeans` | e01/06-kaprekar/Kaprekar.java:31-42 | sorted means ascending when reverse is false and descending when true |
| `ExchangeSort.SwapPermutes` | e01/06-kaprekar/Kaprekar.java:37-39 | a swap permutes the array |
| `ExchangeSort.StepOf` | e01/06-kaprekar/Kaprekar.java:35-39 | one compare-and-swap permutes the array |
| `ExchangeSort.InsertStep` | e01/06-kaprekar/Kaprekar.java:34-40 | a compare-and-swap with earlier entry j keeps the inner loop's invariant |
| `ExchangeSort.PivotStep` | e01/06-kaprekar/Kaprekar.java:34-40 | at j = i the prefix up to i is sorted and entry i bounds the rest |
| `ExchangeSort.SwapIfMisplaced` | e01/06-kaprekar/Kaprekar.java:35-39 | the array becomes StepOf of its old contents |
| `ExchangeSort.Pass` | e01/06-kaprekar/Kaprekar.java:33-40 | one outer iteration permutes the array, sorts the prefix up to i and leaves entry i no worse than any later one |
| `ExchangeSort.Sort` | e01/06-kaprekar/Kaprekar.java:31-42 | the array is permuted in place into ascending order (reverse false) or descending order (reverse true) |
| `ExchangeSort.SortingUnique` | e01/06-kaprekar/Kaprekar.java:31-42 | any two sorted permutations of the same array are equal, so the sort's result is determined |
| `Decimal.NumDigitsBounds` | e01/06-kaprekar/Kaprekar.java:64-73 | a number with k digits lies between 10^(k−1) and 10^k |
| `Decimal.DigitsRoundTrip` | e01/06-kaprekar/Kaprekar.java:49-58 | the digits least significant first give back the number |
| `Decimal.DigitAt` | e01/06-kaprekar/Kaprekar.java:49-58 | digit i is (n / 10^i) mod 10 |
| `Decimal.DigitSumFacts` | t04/05-prova_del_nove/ProvaDelNoveCopy.java:39-52 | the digit sum is congruent to n mod 9, smaller than n from 10 on, and 0 only for 0 |
| `Decimal.NatStringRoundTrip` | e02/02-lychrel/Lychrel.java:9-11 | the decimal string of n reads back as n |
| `Kaprekar.ContaCifre` | e01/06-kaprekar/Kaprekar.java:64-73 | the number of decimal digits of \|n\|, 0 exactly for 0 |
| `Kaprekar.ArrayOf` | e01/06-kaprekar/Kaprekar.java:49-58 | as many decimal digits as contaCifre counts, each in 0..9 |
| `Kaprekar.ArrayOfDigits` | e01/06-kaprekar/Kaprekar.java:49-58 | for n ≥ 0 entry i is (n / 10^i) mod 10, least significant first; a negative n gives zeros |
| `Kaprekar.ArrayOfRoundTrip` | e01/06-kaprekar/Kaprekar.java:49-58 | read least significant first, the array is n again |
| `Kaprekar.IntToArray` | e01/06-kaprekar/Kaprekar.java:49-58 | a new array holding ArrayOf(n) |
| `Kaprekar.FillDigits` | e01/06-kaprekar/Kaprekar.java:53-57 | the loop fills the array with the digits of n, least significant first |
| `Kaprekar.IntArrayToInt` | e01/06-kaprekar/Kaprekar.java:80-88 | the sum of a[i]·10^(len−1−i), 0 for the empty array |
| `Kaprekar.ValueMsbOfDigits` | e01/06-kaprekar/Kaprekar.java:80-88 | reading n's digits most significant first gives n |
| `Kaprekar.ValueMsbBound` | e01/06-kaprekar/Kaprekar.java:80-88 | k digits make a number below 10^k |
| `Kaprekar.DescendingIsLargest` | e01/06-kaprekar/Kaprekar.java:21-22 | the digits sorted in descending order make the largest number formed from them |
| `Kaprekar.KaprekarStep` | e01/06-kaprekar/Kaprekar.java:19-23 | the step is the descending-digit number minus the ascending-digit number, never negative |
| `Kaprekar.KaprekarConstant` | e01/06-kaprekar/Kaprekar.java:19-20 | 6174 is a fixed point of the step: 7641 − 1467 |
| `Lychrel.LychrelStep` | e02/02-lychrel/Lychrel.java:44-50 | the step's only exception is the NumberFormatException of Long.parseLong |
| `Lychrel.AddLong` | e02/02-lychrel/Lychrel.java:44-50 | long addition: the sum whenever it fits, wrapped modulo 2^64 otherwise |
| `Lychrel.FromLongToString` | e02/02-lychrel/Lychrel.java:9-11 | a minus sign exactly for negative n, then decimal digits |
| `Lychrel.ParseRoundTrip` | e02/02-lychrel/Lychrel.java:9-11 | parsing the decimal string of n gives back n |
| `Lychrel.ParseLong` | e02/02-lychrel/Lychrel.java:44-50 | Long.parseLong accepts an optional sign followed by digits and otherwise raises NumberFormatException |
| `Lychrel.Reverse` | e02/02-lychrel/Lychrel.java:30-37 | the same length, with character i taken from position len−1−i |
| `Lychrel.ReverseInvolution` | e02/02-lychrel/Lychrel.java:30-37 | reversing twice gives back the string |
| `Lychrel.IsPalindrome` | e02/02-lychrel/Lychrel.java:17-24 | true exactly when every character equals its mirror |
| `Lychrel.PalindromeIsReverseFixpoint` | e02/02-lychrel/Lychrel.java:17-24 | a palindrome is a string equal to its reverse, and strings up to length 1 are palindromes |
| `Lychrel.NegativeStepRaises` | e02/02-lychrel/Lychrel.java:44-50 | for negative n the reversed string ends in '-' and the step raises NumberFormatException |
| `Lychrel.StepAddsReversal` | e02/02-lychrel/Lychrel.java:44-50 | for n ≥ 0 the step is n plus the value of its reversed digits, raising when that value does not fit a long |
| `Lychrel.CharsValue` | e02/02-lychrel/Lychrel.java:44-50 | the digit characters of a digit list read back as its value |
| `Saltapicchio.Countdown` | t04/06-saltapicchio/Saltapicchio.java:37-42 | [n, n−1, …, 1] |
| `Saltapicchio.CountdownUnique` | t04/06-saltapicchio/Saltapicchio.java:37-42 | a descending list with the elements 1..n is the countdown itself |
| `Saltapicchio.IsFullSequence` | t04/06-saltapicchio/Saltapicchio.java:36-43 | sorts the array in place into descending order and is true exactly when it holds each of 1..len once |
| `Saltapicchio.AbsDiffs` | t04/06-saltapicchio/Saltapicchio.java:21-28 | the absolute differences of consecutive elements |
| `Saltapicchio.IsSaltapicchio` | t04/06-saltapicchio/Saltapicchio.java:19-29 | true for arrays of length ≤ 1, and otherwise exactly when the absolute differences are a permutation of 1..n−1 |
| `Tartaglia.Row` | t04/04-tartaglia/Tartaglia.java:24-25 | row n of Pascal's triangle holds the binomial coefficients C(n, k) |
| `Tartaglia.NextLine` | t04/04-tartaglia/Tartaglia.java:27-35 | one longer, 1 at both ends, each inner entry the sum of the two above |
| `Tartaglia.NextRow` | t04/04-tartaglia/Tartaglia.java:27-35 | the next line of row n is row n + 1 |
| `Tartaglia.NexLineTartaglia` | t04/04-tartaglia/Tartaglia.java:27-35 | a new array holding NextLine of the previous one, which is left unchanged |
| `Tartaglia.GetTartagliaLine` | t04/04-tartaglia/Tartaglia.java:15-21 | [1] for line ≤ 1, otherwise line entries, entry k being C(line−1, k) |
| `ProvaDelNove.DigitalRootFacts` | t04/05-prova_del_nove/ProvaDelNoveCopy.java:39-52 | for n ≥ 0 the repeated digit sum is a digit, 0 exactly for 0, and congruent to n mod 9 |
| `ProvaDelNove.SameRoot` | t04/05-prova_del_nove/ProvaDelNoveCopy.java:39-52 | positive numbers have the same repeated digit sum exactly when they are congruent mod 9 |
| `ProvaDelNove.SommaCifreRicorsiva` | t04/05-prova_del_nove/ProvaDelNoveCopy.java:39-52 | the loop and recursion compute the repeated digit sum |
| `ProvaDelNove.ProvaDelNove` | t04/05-prova_del_nove/ProvaDelNoveCopy.java:25-30 | for positive factors the check passes exactly when r is positive and congruent to their product mod 9 |
| `ProvaDelNove.AcceptsCongruent` | t04/05-prova_del_nove/ProvaDelNoveCopy.java:25-30 | the comparison of repeated digit sums is a test of congruence mod 9 |
| `ProvaDelNove.TrueProductAccepted` | t04/05-prova_del_nove/ProvaDelNoveCopy.java:25-30 | every true product passes the check |
| `ProvaDelNove.FalsePositive` | t04/05-prova_del_nove/ProvaDelNoveCopy.java:25-30 | 2 · 3 = 15 passes the check although it is false |
| `Trasposizione.Rows` | t04/08-trasponi_matrice/Trasposizione.java:35-43 | the rows of the input matrix as values |
| `Trasposizione.Transpose` | t04/08-trasponi_matrice/Trasposizione.java:36-41 | m[0].length rows of m.length entries, entry (j, i) being m[i][j], 0 where row i is shorter |
| `Trasposizione.TransposeTwice` | t04/08-trasponi_matrice/Trasposizione.java:35-43 | transposing a rectangular matrix twice gives it back |
| `Trasposizione.Trasponi` | t04/08-trasponi_matrice/Trasposizione.java:35-43 | ArrayIndexOutOfBoundsException exactly for an empty matrix or one with a row longer than row 0; otherwise a new matrix holding the transpose |
| `Pegi.Fascia` | t04/01-fasce_pegi/Pegi.java:12-26 | "fascia 3" below 7 (negative ages included), "fascia 7" for 7–11, "fascia 12" for 12–15, "fascia 16" for 16–17 and "fascia 18" from 18 |
| `Pegi.BandBelowAge` | t04/01-fasce_pegi/Pegi.java:12-26 | the band never exceeds an age of at least 3, and an older age never gets a lower band |
| `Pegi.BandIsLargestBelow` | t04/01-fasce_pegi/Pegi.java:12-26 | the band is the largest PEGI age not above the age |
| `TicoTaco.LabelMeans` | t04/02-ticotaco/TicoTaco.java:14-21 | "Tico Taco" exactly for multiples of 21, "Tico" for the other multiples of 3, "Taco" for the other multiples of 7, otherwise the number itself |
| `TicoTaco.MultipleOf21` | t04/02-ticotaco/TicoTaco.java:14-15 | divisible by both 3 and 7 is divisible by 21 |
| `TicoTaco.TicoTaco` | t04/02-ticotaco/TicoTaco.java:12-24 | one line for each of 1..max in increasing order, none when max < 1, each the label of its number |

## Left out

- Java `int` and `long` overflow: integers are unbounded, except where the arithmetic is written out (every hashCode, through `Wrap32`, and `Lychrel.AddLong`). In the source, overflow can also hit the places below and the ones on the next three lines:
  - Razionale's `n*d` and its products;
  - the polynomial coefficient products;
  - `Punto.norma` at Integer.MIN_VALUE;
  - `getEnergia`'s product and `totalEnergy`'s sum.
- TicoTaco.TicoTaco: for max = Integer.MAX_VALUE the int counter of TicoTaco.java:13 wraps after the last number and the loop never ends; the model returns max lines.
- Tartaglia.NexLineTartaglia: the int entries wrap from line 35 of the triangle on (C(34, 17) = 2333606220 exceeds 2^31 − 1, Tartaglia.java:32); the model holds the true binomial coefficients.
- Tartaglia.GetTartagliaLine: the same wrap-around from line 35 on; the model returns the true binomial coefficients.
- OrderedIntList.OrderedIntList.Remove: the source's remove begins with the looping isIn (line 157), so for an absent n strictly between the smallest and largest node values, the sentinel 0 included (e.g. 3 in {5}), it never returns (RemoveNeverReturns); the model tests presence with the terminating IsIn, returns, and leaves the list unchanged.
- SistemaAstronomico.SistemaAstronomico: Valid() requires the bodies to be distinct objects, while the Java constructor accepts any list (lines 16-20); with a body listed twice the source runs interact(p, p) and moves p twice. The Java also keeps the caller's list itself (line 18), so the Collections.sort of line 50 reorders the caller's list too; the model's sequence field does not capture that sharing.
- Null arguments and every NullPointerException path (`Objects.requireNonNull` in the constructors, setters and operations); Dafny references and values are never null. The one exception is `interact`, whose argument is nullable in the model.
- `assert repOK()` statements are not modelled: Java runs with assertions off. The invariants are ghost predicates instead. In particular, e05/03's `repOK`, which always returns false, is not modelled.
- `toString`, the `main` methods and test drivers, the console drawings (e01/03–05) and Collatz (t04/03): they are output only.
- The printing loops `passiDiKaprekar` and `lychrelSequence`. The Kaprekar loop does not terminate from any input whose step sequence reaches 0, repdigits among them (2111 → 999 → 0 → 0 …), so only their step functions are modelled.
- `GenericSet` (e07/01): it implements an interface that is not part of this model, and its iterator is a stub.
- `getClass()`/`instanceof` checks in the `equals` methods: the model compares objects of the same class only. The `println` inside `Mappa.equals` is left out.
- The boxed `!=` of the two `UnboundedQueue.equals` methods (e04/02:104-118, t10/04:144-158), for the reason below. These two methods are not modelled.
- UnboundedQueue.Queue: the `repOk` checks of both queue classes (e04/02 UnboundedQueue.java:79-85, t10/04 UnboundedQueue.java:119-125) are not modelled. They check that no element is null, which cannot happen for the model's `int` elements, so they always hold.
- OrderedIntList.OrderedIntList.Equals: compares boxed Integers with `!=` (line 327), so two equal lists compare equal for certain only when their values lie in the Integer cache −128..127. The contract proves soundness for all lists and completeness for cached values only.
- OrderedIntList.InStep: the same Integer-cache restriction as equals.
- IntSetRepOk.IntSet.RepOK: the same Integer-cache restriction for the `==` of line 161; outside the cache, equal neighbours are different objects and the check can pass a list with duplicates.
- Exact `hashCode` bit values are modelled only as far as consistency with `equals` needs:
  - Punto.HashCode: states only that the result is a Java int; agreement on equal points is proved by EqualsHashAlike.
  - PolyDegrees.HashCode: is stated against the fold function Hash; its consistency with equals is that Hash depends on the array alone.
- BoundedQueue.IntQueue.constructor: requires a capacity n > 0. With 0 the source breaks its own invariant (`tail < 0` fails) and `enqueue` indexes out of bounds; a negative n raises NegativeArraySizeException.
- `Collections.sort` in `nameSortedIterator` is specified by its contract (a sorted permutation, through insertion on values), not by its algorithm. Name comparison is by Dafny characters, not UTF-16 code units.
- Strings in general are sequences of Dafny characters (Unicode scalar values), not of UTF-16 code units: `charAt`, `length` and `compareTo` in names, in `Lychrel.Reverse` and `Lychrel.IsPalindrome` work on a different unit for characters outside the Basic Multilingual Plane. The Lychrel strings are decimal digits, where the two agree.
- OrderedIntList: the linked nodes are modelled by the sequence of their values. Aliasing of node objects between lists, and `Builder`, are not modelled. The iterators do not detect concurrent modification, as in the source. After a modification the model's iterator follows positions in the chain, not nodes: with the chain [0, 5, 10], the cache on 5 and then add(3), the model yields 3 where Java yields 5.
- CorpoCeleste.CorpoCeleste: the abstract class and its two subclasses are one class with a constant `kind`. Dynamic dispatch is the branch on `kind`.
- The iterators of e06/02, t10/01, t10/02, t10/04 and t10/05 are classes with their mutable index or cache. Java's `Iterator` interface is not modelled.

## Findings

| source | as written | input that shows it | evidently intended | confidence | as-written member | corrected member |
|---|---|---|---|---|---|---|
| e05/01-rational/Razionale.java:71-76 | `sub` returns `add(s)` without negating s | 1/2 sub 1/2 gives 1 | this − s, as the doc at lines 64-69 says | high, not executed | `Rational.Razionale.Sub` | `Rational.Razionale.SubNegating` |
| e05/01-rational/Razionale.java:38-42 | `mcd` of a negative numerator is negative, and dividing by it moves the sign to the denominator | `new Razionale(-1, 2)` stores num 1, den −2 | den > 0, as the doc at lines 10-12 says | high, not executed | `Rational.NegativeNumeratorMovesSign` | `Rational.Razionale.ReduceAbs` |
| e07/04-astro/Punto.java:36-54 | the third component of `somma` and `sottrazione` uses y instead of z | (0,0,1) somma (0,0,1) gives (0,0,0) | componentwise sum and difference, as the docs at lines 33 and 47 say | high, not executed | `Punto.SommaCounterexample` | `Punto.PlusLaws` |
| e04/05-poly_sparse_repok/Poly.java:306-313 | `list.remove(existent)` uses `Monomio.equals`, under which every zero monomial equals every other, so it can drop the wrong element | q = 0x^3 add 0x^5 = [0x^5, 0x^3]; then 2x^3 add q holds degree 3 twice | remove the very term that was found | high, not executed | `PolyRepOk.RemoveByEqualsBreaksRepOk` | `SparseTerms.AddSpecIdentity` |
| e05/05-poly_sparse_correctness/Poly.java:79-87 | the private constructor raises on an empty list, so `add` raises when the sum is zero | x^2 add −x^2, also Poly() add Poly() | the zero polynomial 0x^0, as e03/03 does | high, not executed | `PolyCorrectness.CancellationRaises` | `Polinomio.Add` |
| t10/02-poly_sparse_terms/Poly.java:112-120 | the same raising constructor | x^2 sub x^2 | the zero polynomial | high, not executed | `PolyTerms.SubOfItselfRaises` | `Polinomio.Sub` |
| t10/01-poly_degrees/Poly.java:87-94 | `Poly(0, n)` with n > 0 stores n + 1 zeros, which fail repOk | `new Poly(0, 2)` stores [0, 0, 0] | the zero polynomial, as the doc at lines 76-77 says | high, not executed | `PolyDegrees.ZeroMonomialBreaksRepOk` | `PolyDegrees.MonomialRepOk` |
| e05/05-poly_sparse_correctness/Poly.java:256-270 | `equals` compares coefficients only at degrees stored in both polynomials | x^2 + 3 equals x^2 | equality of every coefficient | high, not executed | `SparseTerms.EqualsIgnoresUnsharedDegrees` | `SparseTerms.EqualsByDegree` |
| e05/03-intset_correctness/IntSet.java:155-161 | `hashCode` folds over the list in stored order, while `equals` is set equality | {1, 2} inserted as 1, 2 and as 2, 1 hash to 1955 and 1985 | equal sets hash alike | high, not executed | `IntSetCorrectness.ListHashOrderDependent` | `IntSetCorrectness.IntSet.OrderFreeHashCode` |
| e06/02-maxminintset/MaxMinIntSet.java:32-54 | a removal that empties the set leaves max and min at stale values | insert 5, remove 5, insert 3: max() is 5 | max and min of the current set, as the invariant at lines 11-13 says | high, not executed | `MaxMinIntSet.StaleMaximum` | `MaxMinIntSet.MaxMinIntSet.RemoveResetting` |
| t10/05-orderedintlist/OrderedIntList.java:182-200 | `isIn` recurses in both directions, so an absent value strictly between the smallest and largest node values, the sentinel 0 included, bounces between two nodes | add(5), then isIn(3), or remove(3), which calls isIn(3) first (line 157): the recursion never ends | false for an absent value, and no change from remove | high, not executed | `OrderedWalks.IsInCycles` | `OrderedIntList.OrderedIntList.IsIn` |
| t10/05-orderedintlist/OrderedIntList.java:241-265 | `smallToBig` skips the sentinel except when it is the last node, so it yields 0 last when every element is negative | add(−1): smallToBig yields −1, 0 | the stored integers only | high, not executed | `OrderedWalks.SmallToBigYields` | `OrderedWalks.SmallToBigHidingYields` |
| t10/05-orderedintlist/OrderedIntList.java:272-300 | `bigToSmall` yields the sentinel 0 first when every element is negative | add(−1): bigToSmall yields 0, −1 | the stored integers only | high, not executed | `OrderedWalks.BigToSmallYields` | `OrderedWalks.BigToSmallHidingYields` |
