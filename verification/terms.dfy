/** A term of a polynomial: one coefficient and one exponent, as in 2x^3.
    The constructor `Term(coef, exp)` stores exactly its two arguments and the
    destructors `.coef` and `.exp` are the class's two getters. */
module Terms {
  import opened Java
  import opened Decimal

  datatype Term = Term(coef: int, exp: int)

  /** `Term.equals(Object)`: true exactly for another term with the same two fields;
      false for null and for an object of any other class. */
  function TermEquals(t: Term, o: Object<Term>): (r: bool)
    ensures r <==> o == Instance(t)
  {
    match o
    case NullObject => false
    case Unrelated => false
    case Instance(u) => t.coef == u.coef && t.exp == u.exp
  }

  /** `Term.toString()`: exponent 0 gives the bare coefficient, exponent 1 gives
      the coefficient followed by `x` (so `1x`), coefficient 1 at any other
      exponent drops the coefficient (`x^-100`), and every other term is
      coefficient, `x^`, exponent (`-1x^3`). */
  function TermToString(t: Term): (s: string)
    ensures |s| > 0
    ensures forall k :: 0 <= k < |s| ==> s[k] != ' ' && s[k] != '+'
    ensures 'x' in s <==> t.exp != 0
  {
    if t.exp == 0 then
      IntToString(t.coef)
    else if t.exp == 1 then
      IntToString(t.coef) + "x"
    else if t.coef == 1 then
      "x^" + IntToString(t.exp)
    else
      IntToString(t.coef) + "x^" + IntToString(t.exp)
  }

  /** Position of the first occurrence of c in s, or |s| when there is none. */
  function IndexOf(s: string, c: char): (k: nat)
    ensures k <= |s|
    ensures k < |s| ==> s[k] == c
    ensures forall j :: 0 <= j < k ==> s[j] != c
  {
    if |s| == 0 then 0 else if s[0] == c then 0 else 1 + IndexOf(s[1..], c)
  }

  /** Reads a rendered term back: what precedes the `x` is the coefficient (1 when
      nothing does), what follows `x^` is the exponent (1 when only `x` is there),
      and a term without `x` is a constant. */
  function ParseTerm(s: string): Term {
    var k := IndexOf(s, 'x');
    if k == |s| then
      Term(ParseInt(s), 0)
    else
      var coef := if k == 0 then 1 else ParseInt(s[..k]);
      var rest := s[k + 1..];
      if rest == "" then Term(coef, 1) else Term(coef, ParseInt(rest[1..]))
  }

  /** Behind a prefix without `x`, an `x` is found right after the prefix. */
  lemma IndexOfAfter(c: string, rest: string)
    requires 'x' !in c && |rest| > 0 && rest[0] == 'x'
    ensures IndexOf(c + rest, 'x') == |c|
  {
    assert (c + rest)[|c|] == 'x';
  }

  /** A constant renders as its coefficient's digits alone. */
  lemma ConstantRoundTrip(t: Term)
    requires t.exp == 0
    ensures ParseTerm(TermToString(t)) == t
  {
    ParseIntRoundTrip(t.coef);
    assert IndexOf(TermToString(t), 'x') == |TermToString(t)|;
  }

  /** Exponent 1 renders as the coefficient followed by `x`. */
  lemma LinearRoundTrip(t: Term)
    requires t.exp == 1
    ensures ParseTerm(TermToString(t)) == t
  {
    var c := IntToString(t.coef);
    ParseIntRoundTrip(t.coef);
    assert 'x' !in c;
    IndexOfAfter(c, "x");
    assert (c + "x")[..|c|] == c;
    assert (c + "x")[|c| + 1..] == "";
  }

  /** Coefficient 1 at any other exponent renders as `x^` and the exponent. */
  lemma UnitRoundTrip(t: Term)
    requires t.exp != 0 && t.exp != 1 && t.coef == 1
    ensures ParseTerm(TermToString(t)) == t
  {
    var e := IntToString(t.exp);
    ParseIntRoundTrip(t.exp);
    assert IndexOf("x^" + e, 'x') == 0;
    assert ("x^" + e)[1..][1..] == e;
  }

  /** Every other term renders as coefficient, `x^`, exponent. */
  lemma GeneralRoundTrip(t: Term)
    requires t.exp != 0 && t.exp != 1 && t.coef != 1
    ensures ParseTerm(TermToString(t)) == t
  {
    var c := IntToString(t.coef);
    var e := IntToString(t.exp);
    var s := c + "x^" + e;
    ParseIntRoundTrip(t.coef);
    ParseIntRoundTrip(t.exp);
    assert 'x' !in c;
    assert s == c + ("x^" + e);
    IndexOfAfter(c, "x^" + e);
    assert s[..|c|] == c;
    assert s[|c| + 1..][1..] == e;
  }

  /** The rendering of a term loses nothing: reading it back gives the term. */
  lemma TermRoundTrip(t: Term)
    ensures ParseTerm(TermToString(t)) == t
  {
    if t.exp == 0 {
      ConstantRoundTrip(t);
    } else if t.exp == 1 {
      LinearRoundTrip(t);
    } else if t.coef == 1 {
      UnitRoundTrip(t);
    } else {
      GeneralRoundTrip(t);
    }
  }

  /** Distinct terms render as distinct strings. */
  lemma TermToStringInjective(t: Term, u: Term)
    requires TermToString(t) == TermToString(u)
    ensures t == u
  {
    TermRoundTrip(t);
    TermRoundTrip(u);
  }
}
