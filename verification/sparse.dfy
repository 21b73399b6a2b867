/** The sparse representation: the nonzero terms of a polynomial, in strictly
    ascending order of exponent. Exponents may be negative. */
module Sparse {
  import opened Java
  import opened Terms

  /*************************************************************************
   * Invariant and meaning
   *************************************************************************/

  /** The class invariant: no zero coefficient, exponents strictly ascending
      (hence no exponent twice). The empty list is the zero polynomial. */
  predicate WellFormed(ts: seq<Term>) {
    && (forall i :: 0 <= i < |ts| ==> ts[i].coef != 0)
    && (forall i, j :: 0 <= i < j < |ts| ==> ts[i].exp < ts[j].exp)
  }

  /** The coefficient a term list denotes at exponent e: that of the first term
      with exponent e, or 0 when there is none. This is the reference meaning
      every operation is specified against; it does not rely on sortedness. */
  ghost function CoeffOf(ts: seq<Term>, e: int): int {
    if ts == [] then 0 else if ts[0].exp == e then ts[0].coef else CoeffOf(ts[1..], e)
  }

  /** Every exponent of a comes before every exponent of b (given that both
      are sorted, comparing the last of a with the first of b suffices). */
  predicate Precedes(a: seq<Term>, b: seq<Term>) {
    a == [] || b == [] || a[|a| - 1].exp < b[0].exp
  }

  /** `wellFormed()` as the class computes it: the first coefficient is nonzero,
      then each adjacent pair ascends and its second coefficient is nonzero. */
  function CheckWellFormed(ts: seq<Term>): (ok: bool)
    ensures ok <==> WellFormed(ts)
  {
    if ts == [] then true
    else if ts[0].coef == 0 then false
    else
      var ok := CheckPairs(ts, 0);
      assert ok ==> WellFormed(ts) by {
        if ok { AdjacentToPairwise(ts); }
      }
      ok
  }

  /** The loop of `wellFormed()` from position i (the `current` term) onward. */
  function CheckPairs(ts: seq<Term>, i: nat): (ok: bool)
    requires i < |ts|
    ensures ok <==> && (forall k :: i < k < |ts| ==> ts[k].coef != 0)
                    && (forall k :: i <= k < |ts| - 1 ==> ts[k].exp < ts[k + 1].exp)
    decreases |ts| - i
  {
    if i == |ts| - 1 then true
    else if ts[i].exp >= ts[i + 1].exp then false
    else if ts[i + 1].coef == 0 then false
    else CheckPairs(ts, i + 1)
  }

  lemma {:induction false} AdjacentToPairwise(ts: seq<Term>)
    requires forall k :: 0 <= k < |ts| - 1 ==> ts[k].exp < ts[k + 1].exp
    ensures forall i, j :: 0 <= i < j < |ts| ==> ts[i].exp < ts[j].exp
  {
    if |ts| > 1 {
      var tl := ts[1..];
      assert forall k :: 0 <= k < |tl| - 1 ==> tl[k].exp < tl[k + 1].exp by {
        forall k | 0 <= k < |tl| - 1 ensures tl[k].exp < tl[k + 1].exp {
          assert tl[k] == ts[k + 1] && tl[k + 1] == ts[k + 2];
        }
      }
      AdjacentToPairwise(tl);
      forall i, j | 0 <= i < j < |ts| ensures ts[i].exp < ts[j].exp {
        if i == 0 {
          if j > 1 {
            assert tl[0].exp < tl[j - 1].exp;
          }
        } else {
          assert tl[i - 1].exp < tl[j - 1].exp;
        }
      }
    }
  }

  /*************************************************************************
   * Facts about the meaning
   *************************************************************************/

  lemma CoeffOfAbsent(ts: seq<Term>, e: int)
    requires forall k :: 0 <= k < |ts| ==> ts[k].exp != e
    ensures CoeffOf(ts, e) == 0
  {
    if ts != [] {
      CoeffOfAbsent(ts[1..], e);
    }
  }

  lemma {:induction false} CoeffOfAt(ts: seq<Term>, k: nat)
    requires WellFormed(ts) && k < |ts|
    ensures CoeffOf(ts, ts[k].exp) == ts[k].coef
  {
    if k > 0 {
      CoeffOfAt(ts[1..], k - 1);
    }
  }

  /** Concatenating two lists whose exponents are disjoint adds their meanings. */
  lemma {:induction false} CoeffOfAppend(a: seq<Term>, b: seq<Term>)
    requires WellFormed(a + b)
    ensures forall e :: CoeffOf(a + b, e) == CoeffOf(a, e) + CoeffOf(b, e)
  {
    if a != [] {
      assert (a + b)[1..] == a[1..] + b;
      CoeffOfAppend(a[1..], b);
      forall e ensures CoeffOf(a + b, e) == CoeffOf(a, e) + CoeffOf(b, e) {
        if a[0].exp == e {
          forall k | 0 <= k < |b| ensures b[k].exp != e {
            assert (a + b)[0].exp < (a + b)[|a| + k].exp;
          }
          CoeffOfAbsent(b, e);
        } else {
          assert CoeffOf(a + b, e) == CoeffOf(a[1..] + b, e);
        }
      }
    } else {
      assert a + b == b;
    }
  }

  lemma CoeffOfSingle(t: Term)
    ensures forall e :: CoeffOf([t], e) == if e == t.exp then t.coef else 0
  {
    assert [t][1..] == [];
  }

  lemma CoeffOfCons(ts: seq<Term>)
    requires WellFormed(ts) && ts != []
    ensures forall e :: CoeffOf(ts, e) == CoeffOf([ts[0]], e) + CoeffOf(ts[1..], e)
  {
    assert [ts[0]] + ts[1..] == ts;
    CoeffOfAppend([ts[0]], ts[1..]);
  }

  lemma AppendWellFormed(a: seq<Term>, b: seq<Term>)
    requires WellFormed(a) && WellFormed(b) && Precedes(a, b)
    ensures WellFormed(a + b)
  {
    var ab := a + b;
    forall i, j | 0 <= i < j < |ab| ensures ab[i].exp < ab[j].exp {
      if i < |a| && |a| <= j {
        assert a[i].exp <= a[|a| - 1].exp;
        assert b[0].exp <= b[j - |a|].exp;
      }
    }
  }

  /** The support of a well-formed nonzero list runs from its first exponent to
      its last, and both ends carry a nonzero coefficient. */
  lemma SupportBounds(ts: seq<Term>)
    requires WellFormed(ts) && ts != []
    ensures CoeffOf(ts, ts[0].exp) != 0 && CoeffOf(ts, ts[|ts| - 1].exp) != 0
    ensures forall e :: CoeffOf(ts, e) != 0 ==> ts[0].exp <= e <= ts[|ts| - 1].exp
  {
    CoeffOfAt(ts, 0);
    CoeffOfAt(ts, |ts| - 1);
    forall e | e < ts[0].exp || ts[|ts| - 1].exp < e ensures CoeffOf(ts, e) == 0 {
      forall k | 0 <= k < |ts| ensures ts[k].exp != e {
        assert ts[0].exp <= ts[k].exp <= ts[|ts| - 1].exp;
      }
      CoeffOfAbsent(ts, e);
    }
  }

  /** Two well-formed lists with the same meaning are the same list: the sparse
      form is canonical. */
  lemma {:induction false} Canonical(xs: seq<Term>, ys: seq<Term>)
    requires WellFormed(xs) && WellFormed(ys)
    requires forall e :: CoeffOf(xs, e) == CoeffOf(ys, e)
    ensures xs == ys
  {
    if xs == [] && ys != [] {
      SupportBounds(ys);
      assert false;
    } else if xs != [] && ys == [] {
      SupportBounds(xs);
      assert false;
    } else if xs != [] {
      SupportBounds(xs);
      SupportBounds(ys);
      assert CoeffOf(ys, xs[0].exp) != 0 && CoeffOf(xs, ys[0].exp) != 0;
      CoeffOfCons(xs);
      CoeffOfCons(ys);
      Canonical(xs[1..], ys[1..]);
      assert xs == [xs[0]] + xs[1..];
      assert ys == [ys[0]] + ys[1..];
    }
  }

  /*************************************************************************
   * Construction and queries
   *************************************************************************/

  /** The zero polynomial. */
  const Zero: seq<Term> := []

  /** `SparsePolynomial(coeff, exponent)`: no term at all for a zero coefficient,
      otherwise that single term, whatever the sign of the exponent. */
  function Monomial(coeff: int, exponent: int): (ts: seq<Term>)
    ensures WellFormed(ts)
    ensures ts == [] <==> coeff == 0
    ensures forall e :: CoeffOf(ts, e) == if e == exponent then coeff else 0
  {
    if coeff == 0 then [] else [Term(coeff, exponent)]
  }

  /** The first term of a nonempty well-formed list is a nonzero coefficient of
      its meaning. */
  lemma HeadIsNonzero(ts: seq<Term>)
    requires ts != []
    ensures WellFormed(ts) ==> CoeffOf(ts, ts[0].exp) != 0
  {
    if WellFormed(ts) {
      CoeffOfAt(ts, 0);
    }
  }

  /** `isZero()`: the term list is empty. */
  function IsZero(ts: seq<Term>): (z: bool)
    ensures z <==> ts == []
    ensures WellFormed(ts) ==> (z <==> forall e :: CoeffOf(ts, e) == 0)
  {
    if |ts| == 0 then true
    else
      HeadIsNonzero(ts);
      false
  }

  /** `getMinExponent()`: the lowest exponent with a nonzero coefficient, 0 for zero. */
  function MinExponent(ts: seq<Term>): (m: int)
    ensures ts == [] ==> m == 0
    ensures WellFormed(ts) && ts != [] ==>
              CoeffOf(ts, m) != 0 && forall e :: CoeffOf(ts, e) != 0 ==> m <= e
  {
    if IsZero(ts) then 0
    else
      assert WellFormed(ts) ==> CoeffOf(ts, ts[0].exp) != 0 && forall e :: CoeffOf(ts, e) != 0 ==> ts[0].exp <= e by {
        if WellFormed(ts) { SupportBounds(ts); }
      }
      ts[0].exp
  }

  /** `getMaxExponent()`: the highest exponent with a nonzero coefficient, 0 for zero. */
  function MaxExponent(ts: seq<Term>): (m: int)
    ensures ts == [] ==> m == 0
    ensures WellFormed(ts) && ts != [] ==>
              CoeffOf(ts, m) != 0 && forall e :: CoeffOf(ts, e) != 0 ==> e <= m
  {
    if IsZero(ts) then 0
    else
      var last := ts[|ts| - 1].exp;
      assert WellFormed(ts) ==> CoeffOf(ts, last) != 0 && forall e :: CoeffOf(ts, e) != 0 ==> e <= last by {
        if WellFormed(ts) { SupportBounds(ts); }
      }
      last
  }

  /** `getCoeff(exp)`: walks the terms in order and gives up at the first exponent
      above `exp`; on a well-formed list that early exit never misses a term. */
  function GetCoeff(ts: seq<Term>, exp: int): (c: int)
    ensures WellFormed(ts) ==> c == CoeffOf(ts, exp)
  {
    if ts == [] then 0
    else if ts[0].exp == exp then ts[0].coef
    else if ts[0].exp > exp then
      assert WellFormed(ts) ==> CoeffOf(ts, exp) == 0 by {
        if WellFormed(ts) { SupportBounds(ts); }
      }
      0
    else GetCoeff(ts[1..], exp)
  }

  /*************************************************************************
   * Addition: the two-cursor merge
   *************************************************************************/

  /** `addRemainingTerms`: copies the rest of one operand, starting with its
      current term, onto the end of the partial sum. Its precondition is that
      the rest lies strictly above everything already in the sum. */
  function AddRemainingTerms(sp: seq<Term>, rest: seq<Term>): (r: seq<Term>)
    requires WellFormed(sp) && WellFormed(rest) && Precedes(sp, rest)
    requires rest != []
    ensures r == sp + rest
    ensures WellFormed(r)
    ensures forall e :: CoeffOf(r, e) == CoeffOf(sp, e) + CoeffOf(rest, e)
    decreases |rest|
  {
    AppendWellFormed(sp, [rest[0]]);
    var sp' := sp + [rest[0]];
    CoeffOfAppend(sp, [rest[0]]);
    CoeffOfCons(rest);
    if |rest| == 1 then
      sp'
    else
      assert sp' + rest[1..] == sp + rest;
      AddRemainingTerms(sp', rest[1..])
  }

  /** Putting a nonzero term above the partial sum keeps it well formed, and the
      result precedes exactly the lists that start above that term. */
  lemma Push(sp: seq<Term>, t: Term)
    requires WellFormed(sp) && Precedes(sp, [t]) && t.coef != 0
    ensures WellFormed(sp + [t])
    ensures forall zs: seq<Term> :: Precedes(sp + [t], zs) <==> zs == [] || t.exp < zs[0].exp
  {
    AppendWellFormed(sp, [t]);
  }

  /** Dropping the head of a well-formed list keeps it well formed, and what is
      left starts above the dropped head. */
  lemma Pop(xs: seq<Term>)
    requires WellFormed(xs) && xs != []
    ensures WellFormed(xs[1..])
    ensures |xs| > 1 ==> xs[0].exp < xs[1..][0].exp
  {
  }

  /** The loop of `addSparse` with partial sum sp and cursors at the heads of
      xs and ys: equal exponents are summed and the term is kept only when the
      sum is nonzero; otherwise the lower term is copied and only its cursor
      moves. When one side runs out the other's remaining terms are appended. */
  function MergeFrom(sp: seq<Term>, xs: seq<Term>, ys: seq<Term>): (r: seq<Term>)
    requires WellFormed(sp) && WellFormed(xs) && WellFormed(ys)
    requires Precedes(sp, xs) && Precedes(sp, ys)
    ensures WellFormed(r)
    decreases |xs| + |ys|
  {
    if xs == [] || ys == [] then
      if xs != [] then AddRemainingTerms(sp, xs)
      else if ys != [] then AddRemainingTerms(sp, ys)
      else sp
    else
      var x, y := xs[0], ys[0];
      Pop(xs);
      Pop(ys);
      if x.exp == y.exp then
        var c := x.coef + y.coef;
        if c != 0 then
          Push(sp, Term(c, x.exp));
          MergeFrom(sp + [Term(c, x.exp)], xs[1..], ys[1..])
        else
          MergeFrom(sp, xs[1..], ys[1..])
      else if x.exp > y.exp then
        Push(sp, y);
        MergeFrom(sp + [y], xs, ys[1..])
      else
        Push(sp, x);
        MergeFrom(sp + [x], xs[1..], ys)
  }

  /** The coefficient of a well-formed list at e: its head's, plus the rest's. */
  lemma CoeffOfHead(ts: seq<Term>, e: int)
    requires WellFormed(ts) && ts != []
    ensures CoeffOf(ts, e) == (if e == ts[0].exp then ts[0].coef else 0) + CoeffOf(ts[1..], e)
  {
    CoeffOfCons(ts);
    CoeffOfSingle(ts[0]);
  }

  /** Appending one term on top adds its coefficient at its exponent. */
  lemma CoeffOfSnoc(sp: seq<Term>, t: Term, e: int)
    requires WellFormed(sp + [t])
    ensures CoeffOf(sp + [t], e) == CoeffOf(sp, e) + (if e == t.exp then t.coef else 0)
  {
    CoeffOfAppend(sp, [t]);
    CoeffOfSingle(t);
  }

  /** At every exponent, the merge adds the coefficients of the partial sum and
      of both remainders. The three ways the loop can advance are proved by the
      three lemmas that follow, which call back into this one. */
  lemma {:induction false} MergeFromSumAt(sp: seq<Term>, xs: seq<Term>, ys: seq<Term>, e: int)
    requires WellFormed(sp) && WellFormed(xs) && WellFormed(ys)
    requires Precedes(sp, xs) && Precedes(sp, ys)
    ensures CoeffOf(MergeFrom(sp, xs, ys), e) == CoeffOf(sp, e) + CoeffOf(xs, e) + CoeffOf(ys, e)
    decreases |xs| + |ys|, 1
  {
    if xs == [] || ys == [] {
    } else if xs[0].exp == ys[0].exp && xs[0].coef + ys[0].coef != 0 {
      MergeSumAtKeepSum(sp, xs, ys, e);
    } else if xs[0].exp == ys[0].exp {
      MergeSumAtCancel(sp, xs, ys, e);
    } else if xs[0].exp > ys[0].exp {
      MergeSumAtTakeRight(sp, xs, ys, e);
    } else {
      MergeSumAtTakeLeft(sp, xs, ys, e);
    }
  }

  /** Equal exponents with a nonzero sum: the summed term is kept. */
  lemma {:induction false} MergeSumAtKeepSum(sp: seq<Term>, xs: seq<Term>, ys: seq<Term>, e: int)
    requires WellFormed(sp) && WellFormed(xs) && WellFormed(ys)
    requires Precedes(sp, xs) && Precedes(sp, ys)
    requires xs != [] && ys != [] && xs[0].exp == ys[0].exp && xs[0].coef + ys[0].coef != 0
    ensures CoeffOf(MergeFrom(sp, xs, ys), e) == CoeffOf(sp, e) + CoeffOf(xs, e) + CoeffOf(ys, e)
    decreases |xs| + |ys|, 0
  {
    var t := Term(xs[0].coef + ys[0].coef, xs[0].exp);
    Pop(xs);
    Pop(ys);
    Push(sp, t);
    MergeFromSumAt(sp + [t], xs[1..], ys[1..], e);
    CoeffOfHead(xs, e);
    CoeffOfHead(ys, e);
    CoeffOfSnoc(sp, t, e);
  }

  /** Equal exponents whose coefficients cancel: neither term is kept. */
  lemma {:induction false} MergeSumAtCancel(sp: seq<Term>, xs: seq<Term>, ys: seq<Term>, e: int)
    requires WellFormed(sp) && WellFormed(xs) && WellFormed(ys)
    requires Precedes(sp, xs) && Precedes(sp, ys)
    requires xs != [] && ys != [] && xs[0].exp == ys[0].exp && xs[0].coef + ys[0].coef == 0
    ensures CoeffOf(MergeFrom(sp, xs, ys), e) == CoeffOf(sp, e) + CoeffOf(xs, e) + CoeffOf(ys, e)
    decreases |xs| + |ys|, 0
  {
    Pop(xs);
    Pop(ys);
    MergeFromSumAt(sp, xs[1..], ys[1..], e);
    CoeffOfHead(xs, e);
    CoeffOfHead(ys, e);
  }

  /** The right operand's term is lower: it is copied and only its cursor moves. */
  lemma {:induction false} MergeSumAtTakeRight(sp: seq<Term>, xs: seq<Term>, ys: seq<Term>, e: int)
    requires WellFormed(sp) && WellFormed(xs) && WellFormed(ys)
    requires Precedes(sp, xs) && Precedes(sp, ys)
    requires xs != [] && ys != [] && xs[0].exp > ys[0].exp
    ensures CoeffOf(MergeFrom(sp, xs, ys), e) == CoeffOf(sp, e) + CoeffOf(xs, e) + CoeffOf(ys, e)
    decreases |xs| + |ys|, 0
  {
    var y := ys[0];
    Pop(ys);
    Push(sp, y);
    MergeFromSumAt(sp + [y], xs, ys[1..], e);
    CoeffOfHead(ys, e);
    CoeffOfSnoc(sp, y, e);
  }

  /** The left operand's term is lower: it is copied and only its cursor moves. */
  lemma {:induction false} MergeSumAtTakeLeft(sp: seq<Term>, xs: seq<Term>, ys: seq<Term>, e: int)
    requires WellFormed(sp) && WellFormed(xs) && WellFormed(ys)
    requires Precedes(sp, xs) && Precedes(sp, ys)
    requires xs != [] && ys != [] && xs[0].exp < ys[0].exp
    ensures CoeffOf(MergeFrom(sp, xs, ys), e) == CoeffOf(sp, e) + CoeffOf(xs, e) + CoeffOf(ys, e)
    decreases |xs| + |ys|, 0
  {
    var x := xs[0];
    Pop(xs);
    Push(sp, x);
    MergeFromSumAt(sp + [x], xs[1..], ys, e);
    CoeffOfHead(xs, e);
    CoeffOfSnoc(sp, x, e);
  }

  /** The merge adds the meanings of the partial sum and of both remainders. */
  lemma MergeFromSum(sp: seq<Term>, xs: seq<Term>, ys: seq<Term>)
    requires WellFormed(sp) && WellFormed(xs) && WellFormed(ys)
    requires Precedes(sp, xs) && Precedes(sp, ys)
    ensures forall e :: CoeffOf(MergeFrom(sp, xs, ys), e)
                        == CoeffOf(sp, e) + CoeffOf(xs, e) + CoeffOf(ys, e)
  {
    forall e ensures CoeffOf(MergeFrom(sp, xs, ys), e) == CoeffOf(sp, e) + CoeffOf(xs, e) + CoeffOf(ys, e) {
      MergeFromSumAt(sp, xs, ys, e);
    }
  }

  /** `addSparse`: the sum of two sparse polynomials. A zero operand gives the
      other operand back; otherwise the merge yields a well-formed list whose
      coefficient at every exponent is the sum of the operands' (so exponents
      whose coefficients cancel are absent). */
  function AddSparse(p: seq<Term>, q: seq<Term>): (r: seq<Term>)
    requires WellFormed(p) && WellFormed(q)
    ensures WellFormed(r)
    ensures q == [] ==> r == p
    ensures p == [] ==> r == q
    ensures forall e :: CoeffOf(r, e) == CoeffOf(p, e) + CoeffOf(q, e)
  {
    if IsZero(q) then p
    else if IsZero(p) then q
    else
      MergeFromSum([], p, q);
      MergeFrom([], p, q)
  }

  /*************************************************************************
   * Multiplication by a scalar
   *************************************************************************/

  /** Each term with its coefficient multiplied by f, in the same order. */
  function Scale(ts: seq<Term>, f: int): (r: seq<Term>)
    ensures |r| == |ts|
    ensures forall i :: 0 <= i < |ts| ==> r[i] == Term(ts[i].coef * f, ts[i].exp)
  {
    if ts == [] then [] else [Term(ts[0].coef * f, ts[0].exp)] + Scale(ts[1..], f)
  }

  lemma {:induction false} ScaleCoeff(ts: seq<Term>, f: int, e: int)
    ensures CoeffOf(Scale(ts, f), e) == f * CoeffOf(ts, e)
  {
    if ts != [] {
      assert Scale(ts, f)[1..] == Scale(ts[1..], f);
      ScaleCoeff(ts[1..], f, e);
    }
  }

  /** `multiply(factor)`: zero stays zero, a zero factor gives zero, and otherwise
      every coefficient is multiplied by the factor with the exponents kept. */
  function Multiply(ts: seq<Term>, factor: int): (r: seq<Term>)
    ensures ts == [] ==> r == ts
    ensures factor == 0 ==> r == []
    ensures factor != 0 ==> |r| == |ts| && forall i :: 0 <= i < |ts| ==> r[i].exp == ts[i].exp
    ensures forall e :: CoeffOf(r, e) == factor * CoeffOf(ts, e)
    ensures WellFormed(ts) ==> WellFormed(r)
  {
    if IsZero(ts) then ts
    else if factor == 0 then []
    else
      var r := Scale(ts, factor);
      assert forall e :: CoeffOf(r, e) == factor * CoeffOf(ts, e) by {
        forall e ensures CoeffOf(r, e) == factor * CoeffOf(ts, e) {
          ScaleCoeff(ts, factor, e);
        }
      }
      r
  }

  /*************************************************************************
   * Rendering and equality
   *************************************************************************/

  /** The terms rendered highest exponent first and joined by " + ": the class
      walks the list upward and inserts each term at the front. */
  function Join(ts: seq<Term>): (s: string)
    requires ts != []
    ensures ' ' in s <==> |ts| > 1
    decreases |ts|
  {
    if |ts| == 1 then TermToString(ts[0])
    else TermToString(ts[|ts| - 1]) + " + " + Join(ts[..|ts| - 1])
  }

  /** `toString()`: "0" for the zero polynomial, otherwise the joined terms. */
  function ToString(ts: seq<Term>): (s: string)
    ensures WellFormed(ts) ==> (s == "0" <==> ts == [])
  {
    if ts == [] then "0"
    else
      var s := Join(ts);
      if |ts| == 1 && ts[0].exp == 0 then
        assert Decimal.IntToString(0) == "0";
        assert WellFormed(ts) ==> s != "0";
        s
      else
        assert s != "0" by {
          if |ts| == 1 { assert 'x' in s; }
          else { assert ' ' in s; }
        }
        s
  }

  /** The iterator walk at the end of `equals`: each term of the receiver is
      compared with the next term of the argument, and the walk stops when the
      receiver runs out. It answers true exactly when the receiver's list is a
      prefix of the argument's, and it throws (the argument's iterator runs off
      its end) exactly when the argument's list is a proper prefix of the
      receiver's. */
  function TermsMatch(ts: seq<Term>, us: seq<Term>): (r: Result<bool>)
    ensures r == Ok(true) <==> ts <= us
    ensures r.Throws? <==> us < ts
    ensures r.Throws? ==> r.exception == NoSuchElementException
  {
    if ts == [] then Ok(true)
    else if us == [] then Throws(NoSuchElementException)
    else if !TermEquals(ts[0], Instance(us[0])) then Ok(false)
    else TermsMatch(ts[1..], us[1..])
  }

  /** `equals` between two sparse polynomials: false when exactly one is zero,
      otherwise the iterator walk. Identical lists compare equal. */
  function Equals(ts: seq<Term>, us: seq<Term>): (r: Result<bool>)
    ensures ts == us ==> r == Ok(true)
    ensures (ts == []) != (us == []) ==> r == Ok(false)
    ensures r == Ok(true) <==> ts <= us && (ts == [] <==> us == [])
    ensures r.Throws? <==> us != [] && us < ts
  {
    if IsZero(us) != IsZero(ts) then Ok(false) else TermsMatch(ts, us)
  }
}
