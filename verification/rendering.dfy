/** What the string renderings say about equality. `equals` between a dense and a
    sparse polynomial compares their renderings, so it decides equality of
    values exactly when (1) the sparse rendering loses no information and (2) the
    dense rendering of a value is the sparse rendering of the same value. The
    first always holds; the second holds only for dense arrays of a conventional
    shape, and the rest of this module pins down where and why it fails. */
module Rendering {
  import opened Java
  import opened Terms
  import opened Decimal
  import Sparse
  import Dense
  import opened Polynomials

  /*************************************************************************
   * The sparse rendering is injective
   *************************************************************************/

  /** Two texts of the shape `a + " + " + rest` whose heads contain no blank
      agree on their heads and on their rests. */
  lemma SplitAtSeparator(a: string, r1: string, b: string, r2: string)
    requires ' ' !in a && ' ' !in b
    requires a + " + " + r1 == b + " + " + r2
    ensures a == b && r1 == r2
  {
    var s := a + " + " + r1;
    var k := IndexOf(s, ' ');
    assert s[|a|] == ' ' && forall j :: 0 <= j < |a| ==> s[j] == a[j];
    assert k == |a|;
    assert s[|b|] == ' ' && forall j :: 0 <= j < |b| ==> s[j] == b[j];
    assert k == |b|;
    assert a == s[..k] == b;
    assert r1 == s[k + 3..] == r2;
  }

  /** A list of two or more terms joins as its last term, a separator, and the
      join of the rest. */
  lemma JoinUnfold(ts: seq<Term>)
    requires |ts| > 1
    ensures Sparse.Join(ts) == TermToString(ts[|ts| - 1]) + " + " + Sparse.Join(ts[..|ts| - 1])
    ensures ' ' !in TermToString(ts[|ts| - 1])
  {
  }

  /** A nonempty sequence is its front followed by its last element. */
  lemma FrontAndLast(ts: seq<Term>)
    requires ts != []
    ensures ts == ts[..|ts| - 1] + [ts[|ts| - 1]]
  {
  }

  /** Distinct nonempty term lists are joined into distinct texts. */
  lemma {:induction false} JoinInjective(ts: seq<Term>, us: seq<Term>)
    requires ts != [] && us != []
    requires Sparse.Join(ts) == Sparse.Join(us)
    ensures ts == us
    decreases |ts|
  {
    if |ts| == 1 {
      assert |us| == 1;
      TermToStringInjective(ts[0], us[0]);
      assert ts == [ts[0]] && us == [us[0]];
    } else {
      assert |us| > 1;
      JoinUnfold(ts);
      JoinUnfold(us);
      FrontAndLast(ts);
      FrontAndLast(us);
      var t, u := ts[|ts| - 1], us[|us| - 1];
      var ti, ui := ts[..|ts| - 1], us[..|us| - 1];
      SplitAtSeparator(TermToString(t), Sparse.Join(ti), TermToString(u), Sparse.Join(ui));
      TermToStringInjective(t, u);
      JoinInjective(ti, ui);
      assert ts == ti + [t] == ui + [u] == us;
    }
  }

  /** Well-formed sparse polynomials with the same rendering are the same. */
  lemma SparseToStringInjective(ts: seq<Term>, us: seq<Term>)
    requires Sparse.WellFormed(ts) && Sparse.WellFormed(us)
    requires Sparse.ToString(ts) == Sparse.ToString(us)
    ensures ts == us
  {
    if ts != [] {
      assert us != [];
      JoinInjective(ts, us);
    }
  }

  /*************************************************************************
   * Dense arrays as sparse lists
   *************************************************************************/

  /** The nonzero slots of a below n as sparse terms, lowest exponent first. */
  function SparseOf(a: seq<int>, n: nat): (ts: seq<Term>)
    requires n <= |a|
    ensures Sparse.WellFormed(ts)
    ensures ts == [] <==> forall j :: 0 <= j < n ==> a[j] == 0
    ensures forall k :: 0 <= k < |ts| ==> 0 <= ts[k].exp < n && ts[k].coef == a[ts[k].exp]
    decreases n
  {
    if n == 0 then []
    else
      var lower := SparseOf(a, n - 1);
      if a[n - 1] == 0 then lower
      else
        var t := Term(a[n - 1], n - 1);
        Sparse.AppendWellFormed(lower, [t]);
        lower + [t]
  }

  /** SparseOf carries exactly the array's coefficients below n. */
  lemma {:induction false} SparseOfCoeff(a: seq<int>, n: nat)
    requires n <= |a|
    ensures forall e :: Sparse.CoeffOf(SparseOf(a, n), e) == if 0 <= e < n then a[e] else 0
    decreases n
  {
    if n > 0 {
      SparseOfCoeff(a, n - 1);
      var lower := SparseOf(a, n - 1);
      if a[n - 1] != 0 {
        var t := Term(a[n - 1], n - 1);
        assert SparseOf(a, n) == lower + [t];
        Sparse.CoeffOfAppend(lower, [t]);
        Sparse.CoeffOfSingle(t);
      }
    }
  }

  /** SparseOf over the whole array has the dense polynomial's coefficients. */
  lemma SparseOfMeaning(a: seq<int>)
    ensures forall e :: Sparse.CoeffOf(SparseOf(a, |a|), e) == Dense.Coeff(a, e)
  {
    SparseOfCoeff(a, |a|);
  }

  /** Adding a dense polynomial to the sparse zero produces exactly its nonzero
      slots as terms. */
  lemma ConversionIsSparseOf(a: seq<int>)
    ensures DenseAddSparse(a, Sparse.Zero) == SparseOf(a, |a|)
  {
    var s := SparseOf(a, |a|);
    var r := DenseAddSparse(a, Sparse.Zero);
    SparseOfMeaning(a);
    forall e ensures Sparse.CoeffOf(r, e) == Sparse.CoeffOf(s, e) {
      assert Sparse.CoeffOf(Sparse.Zero, e) == 0;
    }
    Sparse.Canonical(r, s);
  }

  /** Adding the sparse zero to a dense polynomial produces the same terms. */
  lemma ReverseConversionIsSparseOf(a: seq<int>)
    requires Dense.WellFormed(a)
    ensures SparseAddDense(Sparse.Zero, a) == SparseOf(a, |a|)
  {
    var s := SparseOf(a, |a|);
    var r := SparseAddDense(Sparse.Zero, a);
    SparseOfMeaning(a);
    forall e ensures Sparse.CoeffOf(r, e) == Sparse.CoeffOf(s, e) {
      assert Sparse.CoeffOf(Sparse.Zero, e) == 0;
    }
    Sparse.Canonical(r, s);
  }

  /*************************************************************************
   * Where the dense rendering agrees with the sparse one
   *************************************************************************/

  /** Dense arrays whose rendering matches the sparse rendering: zero, or lowest
      nonzero slot at exponent 0 or 1, and no coefficient 1 at exponent 2 or
      more. */
  predicate ConventionalShape(a: seq<int>) {
    && (|a| == 0 || a[0] != 0 || (|a| > 1 && a[1] != 0))
    && (forall i :: 2 <= i < |a| ==> a[i] != 1)
  }

  lemma {:induction false} BuildAllZero(a: seq<int>, n: nat)
    requires n <= |a| && forall j :: 0 <= j < n ==> a[j] == 0
    ensures Dense.Build(a, n) == ""
    decreases n
  {
    if n > 0 {
      BuildAllZero(a, n - 1);
    }
  }

  /** Joining one more term on top puts it in front, followed by a separator. */
  lemma JoinSnoc(lower: seq<Term>, t: Term)
    requires lower != []
    ensures Sparse.Join(lower + [t]) == TermToString(t) + " + " + Sparse.Join(lower)
  {
    assert (lower + [t])[..|lower + [t]| - 1] == lower;
  }

  /** One step of SparseOf: a nonzero slot adds its term on top. */
  lemma SparseOfStep(a: seq<int>, n: nat)
    requires 0 < n <= |a| && a[n - 1] != 0
    ensures SparseOf(a, n) == SparseOf(a, n - 1) + [Term(a[n - 1], n - 1)]
  {
  }

  /** A zero slot adds nothing, neither to SparseOf nor to the dense builder. */
  lemma SkipZeroSlot(a: seq<int>, n: nat)
    requires 0 < n <= |a| && a[n - 1] == 0
    ensures SparseOf(a, n) == SparseOf(a, n - 1)
    ensures Dense.Build(a, n) == Dense.Build(a, n - 1)
    ensures IntendedBuild(a, n) == IntendedBuild(a, n - 1)
  {
    assert Dense.Piece(a, n - 1) == "";
    assert IntendedPiece(a, n - 1) == "";
  }

  /** On a conventional array every slot renders as the intended rendering
      renders it: the lowest nonzero slot sits at exponent 0 or 1, the only places
      where the class leaves the separator out, and no coefficient above is 1, so
      no term loses its coefficient. */
  lemma PieceIsIntended(a: seq<int>, i: nat)
    requires i < |a| && ConventionalShape(a)
    ensures Dense.Piece(a, i) == IntendedPiece(a, i)
  {
    if a[i] != 0 {
      var m := Dense.MinExponent(a);
      assert Dense.Coeff(a, i) != 0;
      if a[0] != 0 {
        assert Dense.Coeff(a, 0) != 0;
        assert m == 0;
      } else {
        assert Dense.Coeff(a, 1) != 0;
        assert m == 1;
      }
      if i >= 2 {
        assert a[i] != 1;
      }
    }
  }

  /** On a conventional array the dense builder and the intended one agree. */
  lemma {:induction false} BuildIsIntended(a: seq<int>, n: nat)
    requires n <= |a| && ConventionalShape(a)
    ensures Dense.Build(a, n) == IntendedBuild(a, n)
    decreases n
  {
    if n > 0 {
      BuildIsIntended(a, n - 1);
      PieceIsIntended(a, n - 1);
    }
  }

  /** On a conventional array the dense builder produces the sparse join of the
      same slots. */
  lemma BuildMatchesJoin(a: seq<int>, n: nat)
    requires n <= |a| && ConventionalShape(a) && SparseOf(a, n) != []
    ensures Dense.Build(a, n) == Sparse.Join(SparseOf(a, n))
  {
    BuildIsIntended(a, n);
    IntendedBuildMatchesJoin(a, n);
  }

  /** A well-formed array of conventional shape renders exactly as the sparse
      polynomial with the same coefficients. */
  lemma DenseRendersAsSparse(a: seq<int>)
    requires Dense.WellFormed(a) && ConventionalShape(a)
    ensures Dense.ToString(a) == Sparse.ToString(SparseOf(a, |a|))
  {
    if a != [] {
      BuildMatchesJoin(a, |a|);
    }
  }

  /** For a dense array of conventional shape, its rendering and that of a
      well-formed term list coincide exactly when the two denote the same
      polynomial. */
  lemma RenderingsMatchIffSameValue(a: seq<int>, ts: seq<Term>)
    requires Dense.WellFormed(a) && Sparse.WellFormed(ts) && ConventionalShape(a)
    ensures Sparse.ToString(ts) == Dense.ToString(a) <==> SameValue(DensePoly(a), SparsePoly(ts))
  {
    var s := SparseOf(a, |a|);
    SparseOfMeaning(a);
    DenseRendersAsSparse(a);
    if Sparse.ToString(ts) == Dense.ToString(a) {
      SparseToStringInjective(ts, s);
      assert SameValue(DensePoly(a), SparsePoly(ts));
    }
    if SameValue(DensePoly(a), SparsePoly(ts)) {
      forall e ensures Sparse.CoeffOf(s, e) == Sparse.CoeffOf(ts, e) {
        assert Coeff(DensePoly(a), e) == Coeff(SparsePoly(ts), e);
      }
      Sparse.Canonical(s, ts);
      assert Sparse.ToString(ts) == Dense.ToString(a);
    }
  }

  /** For a dense operand of conventional shape, `equals` across representations,
      in either direction, is exactly equality of the polynomials denoted. */
  lemma CrossEqualsIsSemantic(a: seq<int>, ts: seq<Term>)
    requires Dense.WellFormed(a) && Sparse.WellFormed(ts) && ConventionalShape(a)
    ensures Equals(DensePoly(a), Instance(SparsePoly(ts)))
            == Ok(SameValue(DensePoly(a), SparsePoly(ts)))
    ensures Equals(SparsePoly(ts), Instance(DensePoly(a)))
            == Ok(SameValue(DensePoly(a), SparsePoly(ts)))
  {
    RenderingsMatchIffSameValue(a, ts);
    assert ToString(DensePoly(a)) == Dense.ToString(a);
    assert ToString(SparsePoly(ts)) == Sparse.ToString(ts);
  }

  /*************************************************************************
   * Where it does not: the dense rendering as written
   *************************************************************************/

  /** A dense polynomial whose lowest nonzero exponent is 2 or more renders with
      a trailing separator, so it never equals the sparse polynomial with the
      same coefficient: 2x^2 renders as "2x^2 + " densely and "2x^2" sparsely. */
  lemma TrailingSeparator()
    ensures Dense.ToString([0, 0, 2]) == "2x^2 + "
    ensures Sparse.ToString([Term(2, 2)]) == "2x^2"
    ensures SameValue(DensePoly([0, 0, 2]), SparsePoly([Term(2, 2)]))
    ensures Equals(DensePoly([0, 0, 2]), Instance(SparsePoly([Term(2, 2)]))) == Ok(false)
  {
    assert IntToString(2) == "2";
    assert Dense.Build([0, 0, 2], 2) == "" by {
      BuildAllZero([0, 0, 2], 2);
    }
    assert Dense.Piece([0, 0, 2], 2) == "2x^2 + ";
    Sparse.CoeffOfSingle(Term(2, 2));
  }

  /** A coefficient of 1 at exponent 2 or more renders as "1x^n" densely but as
      "x^n" in a term, so x^2 + 1 has two different renderings. */
  lemma UnitCoefficientMismatch()
    ensures Dense.ToString([1, 0, 1]) == "1x^2 + 1"
    ensures Sparse.ToString([Term(1, 0), Term(1, 2)]) == "x^2 + 1"
    ensures SameValue(DensePoly([1, 0, 1]), SparsePoly([Term(1, 0), Term(1, 2)]))
    ensures Equals(DensePoly([1, 0, 1]), Instance(SparsePoly([Term(1, 0), Term(1, 2)]))) == Ok(false)
  {
    var a := [1, 0, 1];
    assert IntToString(1) == "1" && IntToString(2) == "2";
    assert Dense.Build(a, 1) == "1";
    assert Dense.Build(a, 2) == "1";
    assert Dense.Build(a, 3) == "1x^2 + 1";
    var ts := [Term(1, 0), Term(1, 2)];
    assert ts[..1] == [Term(1, 0)];
    assert Sparse.Join(ts) == "x^2" + " + " + "1";
    Sparse.CoeffOfCons(ts);
    Sparse.CoeffOfSingle(Term(1, 0));
    Sparse.CoeffOfSingle(Term(1, 2));
    assert ts[1..] == [Term(1, 2)];
  }

  /** The rendering the dense class evidently intends: each nonzero slot rendered
      as its term, joined by " + " from the highest exponent down, with no
      separator after the lowest one. */
  function IntendedPiece(a: seq<int>, i: nat): string
    requires i < |a|
  {
    if a[i] == 0 then ""
    else if i == Dense.MinExponent(a) then TermToString(Term(a[i], i))
    else TermToString(Term(a[i], i)) + " + "
  }

  function IntendedBuild(a: seq<int>, n: nat): string
    requires n <= |a|
  {
    if n == 0 then "" else IntendedPiece(a, n - 1) + IntendedBuild(a, n - 1)
  }

  lemma {:induction false} IntendedBuildAllZero(a: seq<int>, n: nat)
    requires n <= |a| && forall j :: 0 <= j < n ==> a[j] == 0
    ensures IntendedBuild(a, n) == ""
    decreases n
  {
    if n > 0 {
      IntendedBuildAllZero(a, n - 1);
    }
  }

  /** The lowest nonzero slot starts the intended rendering. */
  lemma IntendedFirstSlot(a: seq<int>, n: nat)
    requires 0 < n <= |a| && a[n - 1] != 0
    requires SparseOf(a, n - 1) == [] && IntendedBuild(a, n - 1) == ""
    ensures IntendedBuild(a, n) == Sparse.Join(SparseOf(a, n))
  {
    var t := Term(a[n - 1], n - 1);
    SparseOfStep(a, n);
    assert SparseOf(a, n) == [t];
    var m := Dense.MinExponent(a);
    assert Dense.Coeff(a, n - 1) != 0;
    assert m == n - 1 by {
      assert Dense.Coeff(a, m) != 0;
      assert m <= n - 1;
    }
  }

  /** Every nonzero slot above the lowest one is joined on top of the slots
      below it. */
  lemma IntendedNextSlot(a: seq<int>, n: nat)
    requires 0 < n <= |a| && a[n - 1] != 0
    requires SparseOf(a, n - 1) != [] && IntendedBuild(a, n - 1) == Sparse.Join(SparseOf(a, n - 1))
    ensures IntendedBuild(a, n) == Sparse.Join(SparseOf(a, n))
  {
    var lower := SparseOf(a, n - 1);
    var t := Term(a[n - 1], n - 1);
    SparseOfStep(a, n);
    assert Dense.Coeff(a, lower[0].exp) != 0 && lower[0].exp < n - 1;
    assert IntendedPiece(a, n - 1) == TermToString(t) + " + ";
    JoinSnoc(lower, t);
  }

  lemma {:induction false} IntendedBuildMatchesJoin(a: seq<int>, n: nat)
    requires n <= |a| && SparseOf(a, n) != []
    ensures IntendedBuild(a, n) == Sparse.Join(SparseOf(a, n))
    decreases n
  {
    if a[n - 1] == 0 {
      assert IntendedBuild(a, n) == Sparse.Join(SparseOf(a, n)) by {
        SkipZeroSlot(a, n);
        IntendedBuildMatchesJoin(a, n - 1);
      }
    } else if SparseOf(a, n - 1) == [] {
      assert IntendedBuild(a, n) == Sparse.Join(SparseOf(a, n)) by {
        IntendedBuildAllZero(a, n - 1);
        IntendedFirstSlot(a, n);
      }
    } else {
      assert IntendedBuild(a, n) == Sparse.Join(SparseOf(a, n)) by {
        IntendedBuildMatchesJoin(a, n - 1);
        IntendedNextSlot(a, n);
      }
    }
  }

  /** `toString()` as evidently intended: for every well-formed array it is the
      sparse rendering of the same polynomial. */
  function IntendedToString(a: seq<int>): (s: string)
    ensures Dense.WellFormed(a) ==> s == Sparse.ToString(SparseOf(a, |a|))
  {
    if Dense.IsZero(a) then "0"
    else
      assert Dense.WellFormed(a) ==> IntendedBuild(a, |a|) == Sparse.Join(SparseOf(a, |a|)) by {
        if Dense.WellFormed(a) { IntendedBuildMatchesJoin(a, |a|); }
      }
      IntendedBuild(a, |a|)
  }

  /** With the intended rendering, comparing texts is comparing polynomials for
      every pair of well-formed dense and sparse operands. */
  lemma IntendedCrossEqualsIsSemantic(a: seq<int>, ts: seq<Term>)
    requires Dense.WellFormed(a) && Sparse.WellFormed(ts)
    ensures (IntendedToString(a) == Sparse.ToString(ts)) == SameValue(DensePoly(a), SparsePoly(ts))
  {
    var s := SparseOf(a, |a|);
    SparseOfCoeff(a, |a|);
    if IntendedToString(a) == Sparse.ToString(ts) {
      SparseToStringInjective(ts, s);
    }
    if SameValue(DensePoly(a), SparsePoly(ts)) {
      forall e ensures Sparse.CoeffOf(s, e) == Sparse.CoeffOf(ts, e) {
        assert Coeff(DensePoly(a), e) == Coeff(SparsePoly(ts), e);
      }
      Sparse.Canonical(s, ts);
    }
  }

  /*************************************************************************
   * Sparse equality walks only the receiver
   *************************************************************************/

  /** A receiver whose terms are a proper prefix of the argument's compares equal
      to it, and the argument compared the other way round runs its iterator off
      the end: 1 "equals" 2x + 1, while 2x + 1 against 1 throws. */
  lemma PrefixComparesEqual()
    ensures !SameValue(SparsePoly([Term(1, 0)]), SparsePoly([Term(1, 0), Term(2, 1)]))
    ensures Equals(SparsePoly([Term(1, 0)]), Instance(SparsePoly([Term(1, 0), Term(2, 1)]))) == Ok(true)
    ensures Equals(SparsePoly([Term(1, 0), Term(2, 1)]), Instance(SparsePoly([Term(1, 0)])))
            == Throws(NoSuchElementException)
  {
    assert [Term(1, 0)] <= [Term(1, 0), Term(2, 1)];
    assert Coeff(SparsePoly([Term(1, 0)]), 1) == 0;
    assert Coeff(SparsePoly([Term(1, 0), Term(2, 1)]), 1) == 2;
  }

  /** Sparse `equals` as evidently intended: the walk runs only over lists of the
      same length, and then it decides equality of the polynomials. */
  function IntendedSparseEquals(ts: seq<Term>, us: seq<Term>): (r: bool)
    ensures Sparse.WellFormed(ts) && Sparse.WellFormed(us) ==>
              (r <==> SameValue(SparsePoly(ts), SparsePoly(us)))
  {
    var wellFormed := Sparse.WellFormed(ts) && Sparse.WellFormed(us);
    assert wellFormed ==> (SameValue(SparsePoly(ts), SparsePoly(us)) <==> ts == us) by {
      if wellFormed { SameValueIsEquality(SparsePoly(ts), SparsePoly(us)); }
    }
    if |ts| != |us| then false
    else Sparse.TermsMatch(ts, us) == Ok(true)
  }

  /*************************************************************************
   * Equality with both corrections
   *************************************************************************/

  /** `equals(o)` with the intended dense rendering and the intended sparse walk:
      the null and foreign-object answers are those of the classes as written,
      and between any two valid polynomials, of either representation, the
      answer is whether they denote the same polynomial. */
  function IntendedEquals(p: Polynomial, o: Object<Polynomial>): (r: Result<bool>)
    ensures o == NullObject ==> r == if p.DensePoly? then Throws(NullPointerException) else Ok(false)
    ensures o == Unrelated ==> r == Ok(false)
    ensures Valid(p) && o.Instance? && Valid(o.value) ==> r == Ok(SameValue(p, o.value))
  {
    match o
    case NullObject => if p.DensePoly? then Throws(NullPointerException) else Ok(false)
    case Unrelated => Ok(false)
    case Instance(q) =>
      var valid := Valid(p) && Valid(q);
      match (p, q)
      case (DensePoly(a), DensePoly(b)) =>
        assert valid ==> (SameValue(p, q) <==> p == q) by {
          if valid { SameValueIsEquality(p, q); }
        }
        Ok(Dense.Equals(a, b))
      case (DensePoly(a), SparsePoly(us)) =>
        assert valid ==> ((Sparse.ToString(us) == IntendedToString(a)) == SameValue(p, q)) by {
          if valid { IntendedCrossEqualsIsSemantic(a, us); }
        }
        Ok(Sparse.ToString(us) == IntendedToString(a))
      case (SparsePoly(ts), DensePoly(b)) =>
        assert valid ==> ((Sparse.ToString(ts) == IntendedToString(b)) == SameValue(p, q)) by {
          if valid {
            IntendedCrossEqualsIsSemantic(b, ts);
            assert SameValue(q, p) == SameValue(p, q);
          }
        }
        Ok(Sparse.ToString(ts) == IntendedToString(b))
      case (SparsePoly(ts), SparsePoly(us)) => Ok(IntendedSparseEquals(ts, us))
  }
}
