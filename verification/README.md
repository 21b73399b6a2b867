# Polynomials with integer coefficients, dense and sparse

A Dafny model of a small Java library of univariate polynomials with integer
coefficients. A polynomial is held in one of two canonical forms:

- **dense**: an array indexed by exponent, with no trailing zero slot;
- **sparse**: a list of terms `(coef, exp)` with strictly ascending exponents
  and no zero coefficient. Exponents may be negative.

The model has these parts:

- **Data and meaning.** `Term`, the dense array as `seq<int>`, the sparse list
  as `seq<Term>`, and a `Polynomial` datatype with one variant per class. Each
  polynomial has a ghost meaning: its coefficient at every exponent
  (`Polynomials.Coeff`).
- **Operations.** Each operation is specified against that meaning:
  - queries, constructors and `wellFormed`;
  - the two-cursor sparse merge and its tail helper;
  - pointwise dense addition with `truncate`;
  - the two cross-representation folds;
  - scaling, `subtract` and `minus`;
  - `toString` and `equals`.
- **Canonicity.** Both forms are canonical: two well-formed values with the same
  meaning are identical (`Sparse.Canonical`, `Dense.Canonical`,
  `Polynomials.Unique`). So the algebraic laws hold as equalities of
  representations, not only of meanings.
- **Renderings and equality.** `equals` between a dense and a sparse polynomial
  compares their `toString` texts. The model proves:
  - the sparse text is injective;
  - the dense text matches the sparse text on arrays of a conventional shape,
    so there the cross comparison is value equality;
  - outside that shape it is not, with concrete counterexamples (see Findings).
- **Test values.** The concrete values the unit tests expect are restated as
  lemmas in module `Scenarios`.

Modules, one per file:

- `Java`: exceptions, `Result`, nullable references, and the argument of
  `equals(Object)`.
- `Decimal`: Java's `"" + int` rendering, plus a reader used to prove it
  injective.
- `Terms`: `Term.java`.
- `Sparse`: `SparsePolynomial.java`.
- `Dense`: `DensePolynomial.java`.
- `Polynomials`: dispatch, the cross-representation additions, and the
  derived operations of `AbstractPolynomial.java`.
- `Rendering`: what the texts say about equality; the findings and their
  corrections.
- `Scenarios`: the test values.

## Model

| member | source | states |
|---|---|---|
| Decimal.IntToString | Term.java:78 | Java's decimal text of an int: never empty, a leading minus exactly for negative values, digits elsewhere |
| Decimal.ParseNatRoundTrip | Term.java:78 | reading the digits of a natural number back gives the number |
| Decimal.ParseIntRoundTrip | Term.java:78 | reading the decimal text of any int back gives the int |
| Decimal.IntToStringInjective | Term.java:78 | distinct ints have distinct decimal texts |
| Terms.TermEquals | Term.java:47-70 | a term equals an object exactly when the object is a term with the same coefficient and exponent; false for null and for other classes |
| Terms.TermToString | Term.java:76-87 | the text of a term is nonempty, holds no blank and no plus sign, and contains `x` exactly when the exponent is nonzero |
| Terms.TermRoundTrip | Term.java:76-87 | the four rendering cases lose nothing: reading the text back gives the term |
| Terms.TermToStringInjective | Term.java:76-87 | distinct terms render as distinct texts |
| Sparse.CheckWellFormed | SparsePolynomial.java:309-341 | the check accepts exactly the lists with nonzero coefficients and pairwise strictly ascending exponents, the empty list included |
| Sparse.CheckPairs | SparsePolynomial.java:328-340 | the adjacent-pair loop from position i accepts exactly when the rest has nonzero coefficients and strictly ascending adjacent exponents |
| Sparse.AdjacentToPairwise | SparsePolynomial.java:325-333 | ascending adjacent exponents make all exponents pairwise ascending, so the adjacent check enforces uniqueness |
| Sparse.CoeffOfAppend | SparsePolynomial.java:147 | appending terms to a well-formed list adds their coefficients to the meaning |
| Sparse.Canonical | SparsePolynomial.java:15-19 | two well-formed lists with the same coefficient at every exponent are the same list |
| Sparse.Monomial | SparsePolynomial.java:34-43 | the single-term constructor gives a well-formed list that is empty exactly for coefficient 0 and carries the coefficient at the exponent only, negative exponents included |
| Sparse.IsZero | SparsePolynomial.java:97-99 | zero exactly for the empty list, which on a well-formed list means every coefficient is 0 |
| Sparse.MinExponent | SparsePolynomial.java:57-62 | 0 for zero; otherwise a nonzero exponent no higher than any other nonzero one |
| Sparse.MaxExponent | SparsePolynomial.java:68-73 | 0 for zero; otherwise a nonzero exponent no lower than any other nonzero one |
| Sparse.GetCoeff | SparsePolynomial.java:80-91 | on a well-formed list the early-exit scan returns the coefficient at the exponent, 0 when there is no term for it |
| Sparse.AddRemainingTerms | SparsePolynomial.java:188-195 | appending the rest of one operand after the merged prefix keeps the list well-formed and adds the rest's coefficients |
| Sparse.MergeFrom | SparsePolynomial.java:139-174 | the merge loop, given operands that lie above the partial sum, produces a well-formed list |
| Sparse.MergeFromSum | SparsePolynomial.java:139-174 | the merge loop's result has, at every exponent, the partial sum's coefficient plus both operands' |
| Sparse.AddSparse | SparsePolynomial.java:122-178 | a zero operand gives the other one back; otherwise the result is well-formed with the summed coefficients, and cancelled exponents are absent |
| Sparse.Scale | SparsePolynomial.java:224-228 | the term-wise product keeps the length and each exponent, multiplying each coefficient |
| Sparse.ScaleCoeff | SparsePolynomial.java:224-228 | the term-wise product multiplies the coefficient at every exponent |
| Sparse.Multiply | SparsePolynomial.java:214-232 | zero stays zero, factor 0 gives the empty list, otherwise the same exponents with scaled coefficients; well-formedness is kept |
| Sparse.Join | SparsePolynomial.java:294-299 | the joined text contains a blank exactly when there is more than one term |
| Sparse.ToString | SparsePolynomial.java:286-303 | on a well-formed list the text is "0" exactly for zero |
| Sparse.TermsMatch | SparsePolynomial.java:266-277 | the receiver-driven walk answers true exactly when the receiver's terms are a prefix of the argument's, and throws NoSuchElementException exactly when the argument is a proper prefix of the receiver |
| Sparse.Equals | SparsePolynomial.java:260-277 | identical lists are equal; exactly one empty side is unequal; true exactly for a prefix of equal emptiness; throws exactly for a nonempty argument that is a proper prefix of the receiver |
| Dense.WellFormed | DensePolynomial.java:221-236 | `wellFormed()`: the array is empty or its last slot is nonzero, so no trailing zero slot is stored |
| Dense.Coeff | DensePolynomial.java:77-84 | `getCoeff(exp)`: the slot at exponent e when 0 <= e < length, and 0 for every other exponent, negative ones included; this is also the meaning of the array at e |
| Dense.Canonical | DensePolynomial.java:222-236 | two well-formed arrays with the same coefficient at every exponent are the same array |
| Dense.AllZeroFrom | DensePolynomial.java:95-101 | the scan from slot i answers true exactly when every slot from i on is 0 |
| Dense.IsZero | DensePolynomial.java:91-103 | zero exactly when every coefficient is 0, which on a well-formed array means the array is empty |
| Dense.FirstNonzeroFrom | DensePolynomial.java:49-56 | the loop finds the first nonzero slot at or after i when there is one |
| Dense.MinExponent | DensePolynomial.java:45-57 | 0 for zero; otherwise the lowest exponent with a nonzero coefficient |
| Dense.MaxExponent | DensePolynomial.java:64-69 | 0 for zero; on a well-formed array the highest exponent with a nonzero coefficient |
| Dense.Monomial | DensePolynomial.java:27-38 | the constructor, where it succeeds, gives a well-formed array of length exponent+1 carrying the coefficient at the exponent only, or the empty array for coefficient 0 |
| Dense.New | DensePolynomial.java:27-38 | for unbounded exponents, the constructor succeeds exactly for coefficient 0 or a nonnegative exponent; otherwise it throws NegativeArraySizeException below -1 and ArrayIndexOutOfBoundsException at -1 |
| Dense.HighestNonzero | DensePolynomial.java:175-181 | the downward scan stops at a nonzero slot with only zeros above it |
| Dense.Truncate | DensePolynomial.java:173-189 | the truncated array is a nonempty well-formed prefix, everything dropped is 0, and no coefficient changes |
| Dense.AddDense | DensePolynomial.java:137-167 | a zero operand gives the other one back; otherwise the result is well-formed with the summed coefficients |
| Dense.Multiply | DensePolynomial.java:197-213 | zero stays zero, factor 0 gives zero, otherwise the same length with scaled coefficients; well-formedness is kept |
| Dense.SlotsMatch | DensePolynomial.java:275-280 | the slot loop from i answers true exactly when the two arrays agree from i on |
| Dense.Equals | DensePolynomial.java:269-281 | two dense values compare equal exactly when the arrays are equal |
| Dense.Piece | DensePolynomial.java:294-307 | the text one nonzero slot inserts at the front: the bare coefficient at slot 0, the coefficient and `x` at slot 1 with " + " only when slot 0 is nonzero, and otherwise the coefficient, `x^`, the exponent and " + "; nothing for a zero slot |
| Dense.Build | DensePolynomial.java:292-310 | the builder after slots 0 to n-1: each slot's piece is put in front of the earlier ones, so the highest slot comes first |
| Dense.ToString | DensePolynomial.java:287-313 | zero renders "0", and on a well-formed array only zero does |
| Polynomials.Unique | SparsePolynomial.java:15-19 | within one representation, two valid polynomials with the same meaning are identical |
| Polynomials.SameValueIsEquality | DensePolynomial.java:240-245 | within one representation, having the same coefficients is being equal |
| Polynomials.WellFormed | AbstractPolynomial.java:78-83 | the dispatched check accepts exactly the valid polynomials |
| Polynomials.IsZero | AbstractPolynomial.java:32-39 | on a valid polynomial, zero exactly when every coefficient is 0, that is when it is the zero of its representation |
| Polynomials.GetCoeff | AbstractPolynomial.java:23-30 | on a valid polynomial, the coefficient at the exponent |
| Polynomials.MinExponent | AbstractPolynomial.java:9-14 | 0 for zero; otherwise the lowest exponent with a nonzero coefficient |
| Polynomials.MaxExponent | AbstractPolynomial.java:16-21 | 0 for zero; otherwise the highest exponent with a nonzero coefficient |
| Polynomials.FoldSlots | DensePolynomial.java:120-124 | folding the slots from i into a sparse sum adds the coefficients at exponents i and above and keeps it well-formed |
| Polynomials.DenseAddSparse | DensePolynomial.java:117-127 | dense plus sparse is a well-formed sparse list with the summed coefficients, negative exponents included |
| Polynomials.FoldRange | SparsePolynomial.java:111-113 | folding the exponents from e to hi adds exactly the coefficients in that range |
| Polynomials.SparseAddDense | SparsePolynomial.java:105-117 | sparse plus a non-sparse operand is a well-formed sparse list with the summed coefficients |
| Polynomials.AddPoly | AbstractPolynomial.java:41-47 | the sum is valid, dense exactly when both operands are, with the summed coefficients |
| Polynomials.Add | DensePolynomial.java:113-130 | a null operand throws NullPointerException, and only a null operand does; otherwise the valid sum |
| Polynomials.Multiply | AbstractPolynomial.java:49-55 | same representation, zero stays itself, factor 0 gives the zero of the representation, every coefficient scaled |
| Polynomials.Minus | AbstractPolynomial.java:74-76 | same representation, every coefficient negated, the negation of zero is zero |
| Polynomials.Subtract | AbstractPolynomial.java:63-66 | a null operand throws before the addition; otherwise the valid coefficient-wise difference, dense exactly when both operands are |
| Polynomials.ToString | SparsePolynomial.java:286-292 | a valid polynomial renders "0" exactly when it is zero |
| Polynomials.Equals | DensePolynomial.java:247-281 | null throws for a dense receiver and is unequal for a sparse one; foreign objects are unequal; the other representation is compared by text; dense against dense is value equality; sparse values of different zeroness are unequal |
| Polynomials.AddCommutes | DensePolynomialTest.java:60 | p + q and q + p are the same polynomial |
| Polynomials.AddAssociates | AbstractPolynomial.java:41-47 | (p + q) + s and p + (q + s) are the same polynomial |
| Polynomials.AddZero | SparsePolynomial.java:122-129 | adding zero keeps the value, and keeps the polynomial itself unless a dense polynomial meets a sparse zero |
| Polynomials.AddInverse | DensePolynomialTest.java:62 | p plus minus p is the zero of p's representation |
| Polynomials.SubtractSelf | AbstractPolynomial.java:63-66 | p minus p is the zero of p's representation |
| Polynomials.MultiplyByOne | DensePolynomialTest.java:117 | multiplying by 1 gives p back |
| Polynomials.MultiplyComposes | AbstractPolynomial.java:49-55 | scaling by f and then g is scaling by f times g |
| Polynomials.MinusInvolutive | AbstractPolynomial.java:74-76 | minus minus p is p |
| Rendering.SplitAtSeparator | SparsePolynomial.java:296-299 | a text made of a blank-free head, " + " and a rest determines the head and the rest |
| Rendering.JoinInjective | SparsePolynomial.java:294-299 | distinct nonempty term lists join to distinct texts |
| Rendering.SparseToStringInjective | SparsePolynomial.java:286-303 | distinct well-formed sparse polynomials render differently |
| Rendering.SparseOf | DensePolynomial.java:121-124 | the nonzero slots below n as a well-formed term list: empty exactly when those slots are all zero, and each term carries its slot's coefficient and index |
| Rendering.SparseOfCoeff | DensePolynomial.java:121-124 | the term list of the slots below n has the array's coefficient at each of those exponents and 0 elsewhere |
| Rendering.ConversionIsSparseOf | DensePolynomial.java:117-127 | a dense array plus the sparse zero gives exactly the array's nonzero slots as terms |
| Rendering.ReverseConversionIsSparseOf | SparsePolynomial.java:105-117 | the sparse zero plus a well-formed dense array gives the same term list |
| Rendering.PieceIsIntended | DensePolynomial.java:294-307 | on a conventional array every slot's piece is the corrected piece: the term, with a separator exactly when a lower nonzero slot exists |
| Rendering.BuildIsIntended | DensePolynomial.java:292-310 | on a conventional array the builder's text after any number of slots is the corrected builder's |
| Rendering.BuildMatchesJoin | DensePolynomial.java:292-310 | on a conventional array the dense builder produces the sparse join of the same slots |
| Rendering.DenseRendersAsSparse | DensePolynomial.java:287-313 | a well-formed conventional array renders exactly as the sparse polynomial with the same coefficients |
| Rendering.RenderingsMatchIffSameValue | DensePolynomial.java:259-268 | for a conventional dense array and a well-formed term list, the two texts are equal exactly when the polynomials are |
| Rendering.CrossEqualsIsSemantic | DensePolynomial.java:259-268 | with a conventional dense operand, cross-representation equals in either direction is value equality |
| Rendering.TrailingSeparator | DensePolynomial.java:305-307 | as written, 2x^2 renders "2x^2 + " densely and "2x^2" sparsely, so equals answers false on equal values |
| Rendering.UnitCoefficientMismatch | DensePolynomial.java:305-307 | as written, x^2 + 1 renders "1x^2 + 1" densely and "x^2 + 1" sparsely, so equals answers false on equal values |
| Rendering.IntendedBuildMatchesJoin | DensePolynomial.java:292-310 | the corrected builder produces the sparse join of the nonzero slots, highest first, for every array |
| Rendering.IntendedToString | DensePolynomial.java:283-313 | the corrected dense text is, for every well-formed array, the sparse text of the same polynomial |
| Rendering.IntendedCrossEqualsIsSemantic | DensePolynomial.java:259-268 | with the corrected text, comparing dense and sparse texts is value equality for all valid operands |
| Rendering.PrefixComparesEqual | SparsePolynomial.java:266-277 | as written, 1 equals 2x + 1, and 2x + 1 compared with 1 throws NoSuchElementException |
| Rendering.IntendedSparseEquals | SparsePolynomial.java:236-278 | the corrected sparse comparison is value equality for well-formed lists |
| Rendering.IntendedEquals | DensePolynomial.java:240-281 | with both corrections, equals between any two valid polynomials is value equality; null and foreign objects are answered as written |
| Scenarios.OnePlusXToMinus100 | DensePolynomialTest.java:64 | dense 1 plus sparse x^-100 is the sparse list [x^-100, 1], with lowest exponent -100 |
| Scenarios.OnePlusXToMinus100Renders | DensePolynomialTest.java:65 | that list renders "1 + x^-100" |
| Scenarios.FourXSquaredDense | DensePolynomialTest.java:17 | 4x^2 + 4x + 1 built densely is [1, 4, 4] |
| Scenarios.FourXSquaredDenseRenders | DensePolynomialTest.java:145 | [1, 4, 4] renders "4x^2 + 4x + 1" |
| Scenarios.FourXSquaredSparse | DensePolynomialTest.java:165 | 4x^2 + 4x + 1 built sparsely over a dense 1 is the matching term list |
| Scenarios.FourXSquaredEqualsAcross | DensePolynomialTest.java:165 | the dense and sparse 4x^2 + 4x + 1 compare equal |
| Scenarios.MinusTwoXMinusOne | DensePolynomialTest.java:16 | dense -2x plus dense -1 is [-1, -2] |
| Scenarios.MinusTwoXMinusOneRenders | DensePolynomialTest.java:144 | [-1, -2] renders "-2x + -1" |
| Scenarios.MinusTwoXMinusOneSparse | SparsePolynomialTest.java:16 | sparse -2x plus sparse -1 is the list [-1, -2x] |
| Scenarios.MinusTwoXMinusOneSparseRenders | SparsePolynomialTest.java:113 | that list renders "-2x + -1" |
| Scenarios.DenseSubtractAndCancel | DensePolynomialTest.java:125 | (2x + 1) - 1 is 2x, and (2x + 1) + (-2x) is 1 |
| Scenarios.TwoXMinusTwoXIsZero | DensePolynomialTest.java:108 | 2x + (-2x) is zero in both representations and renders "0" |
| Scenarios.ZeroQueries | DensePolynomialTest.java:39-48 | the zero built from coefficient 0 is empty, with exponents 0 and coefficient 0 |
| Scenarios.CoefficientQueries | DensePolynomialTest.java:24-33 | x^100 carries 1 only at 100, with both exponents 100; x^-100 carries 1 at -100 |
| Scenarios.EqualityCorners | DensePolynomialTest.java:152-164 | null throws for dense and is unequal for sparse; an Integer is unequal; null operands of add and subtract throw; zero differs from 2x |
| Scenarios.IterationOrder | SparsePolynomialTest.java:49-58 | the terms of sparse 2x + 1 come lowest exponent first |
| Scenarios.TermRenderings | Term.java:76-87 | "1x", "x^-100", "-1x^3" and "-7" for the corresponding terms |
| Scenarios.DenseScaling | DensePolynomialTest.java:114-119 | (2x + 1) times 2 is 4x + 2, and minus (2x + 1) is -2x - 1 |

## Left out

- The `main` method of `DensePolynomial` only prints to the console.
- The JUnit classes are not modelled as such. The values they expect are
  restated in `Scenarios`.
- Object identity:
  - The `o == this` shortcuts of `equals` are modelled as value equality.
  - Returning the receiver rather than a copy is not distinguished; values
    are immutable here.
  - `instanceof` and `getClass` tests are modelled by the datatype variant
    and by the `Unrelated` argument.
- Java's 32-bit `int`: coefficients and exponents are unbounded integers,
  and decimal text is produced for the unbounded value. Wrap-around is not
  modelled. In Java it has four outcomes that the model does not show:
  - A sum that wraps to 0 does not break the invariant. The sparse merge
    drops it by its `newCoeff != 0` test (SparsePolynomial.java:146). The
    dense sum removes it by its `isZero`/`truncate` step
    (DensePolynomial.java:159-163).
  - A sparse product that wraps to 0 is stored as a term
    (SparsePolynomial.java:226-227), which breaks the invariant.
  - A dense product whose top slot wraps to 0 throws. The constructor call
    at DensePolynomial.java:204 gets coefficient 0 and builds an empty
    array, and the store at line 207 raises
    ArrayIndexOutOfBoundsException. For example, 65536 multiplied by 65536
    throws in Java, while `Dense.Multiply([65536], 65536)` is
    `[4294967296]`.
  - A dense constructor call with a nonzero coefficient and exponent
    `Integer.MAX_VALUE` throws NegativeArraySizeException. There,
    `exponent+1` at DensePolynomial.java:34 wraps to `Integer.MIN_VALUE`.
    The model's `Dense.New(1, 2147483647)` succeeds.
- Dense.New: does not model the NegativeArraySizeException that Java throws
  for a nonzero coefficient at exponent `Integer.MAX_VALUE`, because
  exponents are unbounded integers here.
- A `null` coefficient array, which `wellFormed()` rejects, cannot arise:
  a sequence is never null.
- `LinkedList`, `Iterator` and `nextTerm` are replaced by sequences and
  recursion:
  - `hasNext`/`next` become indexing;
  - a `null` from `nextTerm` becomes an empty remainder.
- The runtime `assert wellFormed()` statements become postconditions.
- Performance is not modelled. The sparse-plus-dense fold costs time
  proportional to the exponent range; the model keeps only its result.
- The `Polynomial` interface is not part of this model.
  `AbstractPolynomial` and the two-variant datatype stand in for it. A third
  implementation, which would make the dense class's cast fail, is not
  modelled.
- The `Term` getters are the datatype's field destructors. The constructor
  storing its two arguments is therefore immediate and has no separate lemma.
- Sparse.Equals: no lemma claims that it decides value equality, because it
  does not (see Findings). Its contract states exactly when it answers true
  or throws.
- Polynomials.Equals: for a dense and a sparse operand it is related to value
  equality only for conventional dense arrays (`Rendering.CrossEqualsIsSemantic`),
  because the dense text differs elsewhere (see Findings).

## Findings

| source | as written | input that shows it | evidently intended | confidence | as-written member | corrected member |
|---|---|---|---|---|---|---|
| DensePolynomial.java:305-307 | a nonzero slot at exponent 2 or more is always followed by " + ", even when it is the lowest nonzero slot | the dense 2x^2, array [0, 0, 2], renders "2x^2 + ", while the sparse 2x^2 renders "2x^2"; equals between them answers false | no separator after the lowest nonzero term, as in the sparse text | high, not executed | Rendering.TrailingSeparator | Rendering.IntendedToString |
| DensePolynomial.java:306 | a coefficient of 1 is printed at exponent 2 or more | the dense x^2 + 1, array [1, 0, 1], renders "1x^2 + 1", while a term renders "x^2" (Term.java:83-85), so the sparse text is "x^2 + 1"; equals between them answers false | each slot rendered as its term, so both forms produce the same text | high, not executed | Rendering.UnitCoefficientMismatch | Rendering.IntendedToString |
| SparsePolynomial.java:268-275 | the comparison loop walks only the receiver's terms and never checks that the argument is used up | the sparse 1 equals the sparse 2x + 1; the sparse 2x + 1 compared with 1 throws NoSuchElementException | equal exactly when both lists hold the same terms | high, not executed | Rendering.PrefixComparesEqual | Rendering.IntendedSparseEquals |

`Rendering.IntendedEquals` combines both corrections. For valid operands it
decides value equality in every combination of representations.
