/** The concrete polynomials of the repository's unit tests, as facts about the
    model: each lemma states what the corresponding test expects, derived from
    the contracts and the canonical forms rather than by evaluation. */
module Scenarios {
  import opened Java
  import opened Terms
  import opened Decimal
  import Sparse
  import Dense
  import opened Polynomials
  import Rendering

  /** `new DensePolynomial(c, e)`. */
  function DenseMono(c: int, e: int): (p: Polynomial)
    requires c != 0 ==> e >= 0
    ensures Valid(p) && p.DensePoly?
    ensures forall k :: Coeff(p, k) == if k == e then c else 0
  {
    DensePoly(Dense.Monomial(c, e))
  }

  /** `new SparsePolynomial(c, e)`. */
  function SparseMono(c: int, e: int): (p: Polynomial)
    ensures Valid(p) && p.SparsePoly?
    ensures forall k :: Coeff(p, k) == if k == e then c else 0
  {
    SparsePoly(Sparse.Monomial(c, e))
  }

  /** A valid polynomial is the dense array a once its coefficients are a's. */
  lemma IsDense(p: Polynomial, a: seq<int>)
    requires Valid(p) && p.DensePoly? && Dense.WellFormed(a)
    requires forall e :: Coeff(p, e) == Dense.Coeff(a, e)
    ensures p == DensePoly(a)
  {
    Unique(p, DensePoly(a));
  }

  /** A valid polynomial is the sparse list ts once its coefficients are ts's. */
  lemma IsSparse(p: Polynomial, ts: seq<Term>)
    requires Valid(p) && p.SparsePoly? && Sparse.WellFormed(ts)
    requires forall e :: Coeff(p, e) == Sparse.CoeffOf(ts, e)
    ensures p == SparsePoly(ts)
  {
    Unique(p, SparsePoly(ts));
  }

  /** Dense 1 plus sparse x^-100 is the sparse 1 + x^-100, whose lowest exponent is -100. */
  lemma OnePlusXToMinus100()
    ensures AddPoly(DenseMono(1, 0), SparseMono(1, -100)) == SparsePoly([Term(1, -100), Term(1, 0)])
    ensures MinExponent(SparsePoly([Term(1, -100), Term(1, 0)])) == -100
  {
    var ts := [Term(1, -100), Term(1, 0)];
    Sparse.CoeffOfCons(ts);
    Sparse.CoeffOfSingle(Term(1, 0));
    assert ts[1..] == [Term(1, 0)];
    IsSparse(AddPoly(DenseMono(1, 0), SparseMono(1, -100)), ts);
  }

  /** The sparse 1 + x^-100 renders highest exponent first: "1 + x^-100". */
  lemma OnePlusXToMinus100Renders()
    ensures ToString(SparsePoly([Term(1, -100), Term(1, 0)])) == "1 + x^-100"
  {
    var ts := [Term(1, -100), Term(1, 0)];
    TermRenderings();
    assert TermToString(Term(1, 0)) == "1";
    assert ts[..1] == [Term(1, -100)];
  }

  /** 4x^2 + (4x + 1) built densely is [1, 4, 4]. */
  lemma FourXSquaredDense()
    ensures AddPoly(DenseMono(4, 2), AddPoly(DenseMono(4, 1), DenseMono(1, 0))) == DensePoly([1, 4, 4])
  {
    IsDense(AddPoly(DenseMono(4, 2), AddPoly(DenseMono(4, 1), DenseMono(1, 0))), [1, 4, 4]);
  }

  /** The dense [1, 4, 4] renders "4x^2 + 4x + 1". */
  lemma FourXSquaredDenseRenders()
    ensures ToString(DensePoly([1, 4, 4])) == "4x^2 + 4x + 1"
  {
    var a := [1, 4, 4];
    assert IntToString(4) == "4" && IntToString(2) == "2" && IntToString(1) == "1";
    assert Dense.Build(a, 1) == "1";
    assert Dense.Build(a, 2) == "4x + 1";
    assert Dense.Build(a, 3) == "4x^2 + 4x + 1";
  }

  /** The coefficients of the sparse 1 + 4x + 4x^2. */
  lemma FourXSquaredTerms(e: int)
    ensures Sparse.CoeffOf([Term(1, 0), Term(4, 1), Term(4, 2)], e)
            == if e == 0 then 1 else if e == 1 || e == 2 then 4 else 0
  {
    var ts := [Term(1, 0), Term(4, 1), Term(4, 2)];
    Sparse.CoeffOfCons(ts);
    Sparse.CoeffOfCons(ts[1..]);
    Sparse.CoeffOfSingle(Term(4, 2));
    assert ts[1..][1..] == [Term(4, 2)];
  }

  /** 4x^2 + (4x + 1) built sparsely over a dense 1 is the term list for the same
      polynomial. */
  lemma FourXSquaredSparse()
    ensures AddPoly(SparseMono(4, 2), AddPoly(SparseMono(4, 1), DenseMono(1, 0)))
            == SparsePoly([Term(1, 0), Term(4, 1), Term(4, 2)])
  {
    var ts := [Term(1, 0), Term(4, 1), Term(4, 2)];
    var inner := AddPoly(SparseMono(4, 1), DenseMono(1, 0));
    var p := AddPoly(SparseMono(4, 2), inner);
    forall e ensures Coeff(p, e) == Sparse.CoeffOf(ts, e) {
      FourXSquaredTerms(e);
    }
    IsSparse(p, ts);
  }

  /** The dense [1, 4, 4] and the sparse 1 + 4x + 4x^2 compare equal across
      representations. */
  lemma FourXSquaredEqualsAcross()
    ensures Equals(DensePoly([1, 4, 4]), Instance(SparsePoly([Term(1, 0), Term(4, 1), Term(4, 2)]))) == Ok(true)
  {
    var a := [1, 4, 4];
    var ts := [Term(1, 0), Term(4, 1), Term(4, 2)];
    forall e ensures Coeff(DensePoly(a), e) == Coeff(SparsePoly(ts), e) {
      FourXSquaredTerms(e);
    }
    Rendering.CrossEqualsIsSemantic(a, ts);
  }

  /** Dense -2x plus dense -1 is [-1, -2]. */
  lemma MinusTwoXMinusOne()
    ensures AddPoly(DenseMono(-2, 1), DenseMono(-1, 0)) == DensePoly([-1, -2])
  {
    IsDense(AddPoly(DenseMono(-2, 1), DenseMono(-1, 0)), [-1, -2]);
  }

  /** The dense [-1, -2] renders "-2x + -1". */
  lemma MinusTwoXMinusOneRenders()
    ensures ToString(DensePoly([-1, -2])) == "-2x + -1"
  {
    assert IntToString(-1) == "-1" && IntToString(-2) == "-2";
    assert Dense.Build([-1, -2], 1) == "-1";
  }

  /** Sparse -2x plus sparse -1 is the term list [-1, -2x]. */
  lemma MinusTwoXMinusOneSparse()
    ensures AddPoly(SparseMono(-2, 1), SparseMono(-1, 0)) == SparsePoly([Term(-1, 0), Term(-2, 1)])
  {
    var ts := [Term(-1, 0), Term(-2, 1)];
    Sparse.CoeffOfCons(ts);
    Sparse.CoeffOfSingle(Term(-2, 1));
    assert ts[1..] == [Term(-2, 1)];
    IsSparse(AddPoly(SparseMono(-2, 1), SparseMono(-1, 0)), ts);
  }

  /** The sparse [-1, -2x] renders "-2x + -1", as the dense form does. */
  lemma MinusTwoXMinusOneSparseRenders()
    ensures ToString(SparsePoly([Term(-1, 0), Term(-2, 1)])) == "-2x + -1"
  {
    var ts := [Term(-1, 0), Term(-2, 1)];
    assert IntToString(-1) == "-1" && IntToString(-2) == "-2";
    assert TermToString(Term(-1, 0)) == "-1";
    assert TermToString(Term(-2, 1)) == "-2x";
    assert ts[..1] == [Term(-1, 0)];
  }

  /** (2x + 1) - 1 is 2x, and (2x + 1) + (-2x) is 1, in the dense representation. */
  lemma DenseSubtractAndCancel()
    ensures Subtract(DensePoly([1, 2]), Ref(DenseMono(1, 0))) == Ok(DensePoly([0, 2]))
    ensures AddPoly(DensePoly([1, 2]), DenseMono(-2, 1)) == DenseMono(1, 0)
  {
    var r := Subtract(DensePoly([1, 2]), Ref(DenseMono(1, 0)));
    IsDense(r.value, [0, 2]);
    IsDense(AddPoly(DensePoly([1, 2]), DenseMono(-2, 1)), [1]);
    IsDense(DenseMono(1, 0), [1]);
  }

  /** 2x + (-2x) is zero and renders "0", in either representation. */
  lemma TwoXMinusTwoXIsZero()
    ensures IsZero(AddPoly(DenseMono(2, 1), DenseMono(-2, 1)))
    ensures IsZero(AddPoly(SparseMono(2, 1), SparseMono(-2, 1)))
    ensures ToString(AddPoly(DenseMono(2, 1), DenseMono(-2, 1))) == "0"
  {
    var d := AddPoly(DenseMono(2, 1), DenseMono(-2, 1));
    var s := AddPoly(SparseMono(2, 1), SparseMono(-2, 1));
    assert forall e :: Coeff(d, e) == 0;
    assert forall e :: Coeff(s, e) == 0;
  }

  /** The zero built as `new DensePolynomial(0, 5)`: no coefficient anywhere, and
      both exponent queries answer 0. */
  lemma ZeroQueries()
    ensures DenseMono(0, 5) == DensePoly([]) && SparseMono(0, 5) == SparsePoly([])
    ensures MinExponent(DenseMono(0, 5)) == 0 && MaxExponent(DenseMono(0, 5)) == 0
    ensures GetCoeff(DenseMono(0, 5), 0) == 0 && GetCoeff(SparseMono(0, 5), 0) == 0
  {
  }

  /** Coefficient queries on x^100 and x^-100: the one exponent carries 1 and
      every other exponent, far above, below or negative, answers 0. */
  lemma CoefficientQueries()
    ensures GetCoeff(DenseMono(1, 100), 100) == 1
    ensures GetCoeff(DenseMono(1, 100), 10) == 0 && GetCoeff(DenseMono(1, 100), -1000) == 0
    ensures MaxExponent(DenseMono(1, 100)) == 100 && MinExponent(DenseMono(1, 100)) == 100
    ensures GetCoeff(SparseMono(1, -100), -100) == 1 && MaxExponent(SparseMono(1, -100)) == -100
    ensures GetCoeff(SparseMono(1, 100), 1000) == 0
  {
    assert Coeff(DenseMono(1, 100), 100) == 1;
    assert Coeff(SparseMono(1, -100), -100) == 1;
  }

  /** The equality corner cases: a null argument throws for a dense receiver and
      is unequal for a sparse one, an Integer is unequal to both, a null operand
      of `add` or `subtract` throws, and zero differs from 2x. */
  lemma EqualityCorners()
    ensures Equals(DenseMono(0, 5), NullObject) == Throws(NullPointerException)
    ensures Equals(SparseMono(0, 5), NullObject) == Ok(false)
    ensures Equals(DenseMono(0, 5), Unrelated) == Ok(false) && Equals(SparseMono(0, 5), Unrelated) == Ok(false)
    ensures Add(DenseMono(0, 5), Null) == Throws(NullPointerException)
    ensures Subtract(DenseMono(0, 5), Null) == Throws(NullPointerException)
    ensures Equals(DenseMono(0, 5), Instance(DenseMono(2, 1))) == Ok(false)
    ensures Equals(SparseMono(0, 5), Instance(SparseMono(2, 1))) == Ok(false)
  {
    assert Coeff(DenseMono(2, 1), 1) == 2;
  }

  /** The iterator of sparse 2x + 1 yields 1 first and then 2x. */
  lemma IterationOrder()
    ensures AddPoly(SparseMono(2, 1), SparseMono(1, 0)).terms == [Term(1, 0), Term(2, 1)]
  {
    var ts := [Term(1, 0), Term(2, 1)];
    Sparse.CoeffOfCons(ts);
    Sparse.CoeffOfSingle(Term(2, 1));
    assert ts[1..] == [Term(2, 1)];
    IsSparse(AddPoly(SparseMono(2, 1), SparseMono(1, 0)), ts);
  }

  /** Term renderings: exponent 1 keeps a coefficient of 1 ("1x"), coefficient 1
      is dropped at any other nonzero exponent, negative ones included
      ("x^-100"), and a coefficient of -1 is kept ("-1x^3"). */
  lemma TermRenderings()
    ensures TermToString(Term(1, 1)) == "1x"
    ensures TermToString(Term(1, -100)) == "x^-100"
    ensures TermToString(Term(-1, 3)) == "-1x^3"
    ensures TermToString(Term(-7, 0)) == "-7"
  {
    assert IntToString(1) == "1" && IntToString(3) == "3" && IntToString(7) == "7";
    assert NatToString(100) == "100";
  }

  /** (2x + 1) times 2 is 4x + 2, and minus (2x + 1) is -2x - 1, densely. */
  lemma DenseScaling()
    ensures Multiply(DensePoly([1, 2]), 2) == AddPoly(DenseMono(4, 1), DenseMono(2, 0))
    ensures Minus(DensePoly([1, 2])) == AddPoly(DenseMono(-2, 1), DenseMono(-1, 0))
  {
    IsDense(Multiply(DensePoly([1, 2]), 2), [2, 4]);
    IsDense(AddPoly(DenseMono(4, 1), DenseMono(2, 0)), [2, 4]);
    IsDense(Minus(DensePoly([1, 2])), [-1, -2]);
    IsDense(AddPoly(DenseMono(-2, 1), DenseMono(-1, 0)), [-1, -2]);
  }
}
