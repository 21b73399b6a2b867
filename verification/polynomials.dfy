/** The two representations behind one interface: queries and arithmetic that
    dispatch on the representation of each operand, the cross-representation
    additions, and the operations the abstract base class derives from `add`
    and `multiply`. */
module Polynomials {
  import opened Java
  import opened Terms
  import Sparse
  import Dense

  datatype Polynomial = DensePoly(slots: seq<int>) | SparsePoly(terms: seq<Term>)

  /** The class invariant of whichever representation p uses. */
  predicate Valid(p: Polynomial) {
    match p
    case DensePoly(a) => Dense.WellFormed(a)
    case SparsePoly(ts) => Sparse.WellFormed(ts)
  }

  /** The meaning of p: its coefficient at exponent e. */
  ghost function Coeff(p: Polynomial, e: int): int {
    match p
    case DensePoly(a) => Dense.Coeff(a, e)
    case SparsePoly(ts) => Sparse.CoeffOf(ts, e)
  }

  /** p and q denote the same polynomial, whatever their representations. */
  ghost predicate SameValue(p: Polynomial, q: Polynomial) {
    forall e :: Coeff(p, e) == Coeff(q, e)
  }

  /** The zero polynomial in the representation of p. */
  function ZeroLike(p: Polynomial): Polynomial {
    if p.DensePoly? then DensePoly(Dense.Zero) else SparsePoly(Sparse.Zero)
  }

  /** Within one representation a polynomial has exactly one valid form. */
  lemma Unique(p: Polynomial, q: Polynomial)
    requires Valid(p) && Valid(q) && p.DensePoly? == q.DensePoly?
    requires SameValue(p, q)
    ensures p == q
  {
    if p.DensePoly? {
      forall e ensures Dense.Coeff(p.slots, e) == Dense.Coeff(q.slots, e) {
        assert Coeff(p, e) == Coeff(q, e);
      }
      Dense.Canonical(p.slots, q.slots);
    } else {
      forall e ensures Sparse.CoeffOf(p.terms, e) == Sparse.CoeffOf(q.terms, e) {
        assert Coeff(p, e) == Coeff(q, e);
      }
      Sparse.Canonical(p.terms, q.terms);
    }
  }

  /** Within one representation, denoting the same polynomial is being equal. */
  lemma SameValueIsEquality(p: Polynomial, q: Polynomial)
    requires Valid(p) && Valid(q) && p.DensePoly? == q.DensePoly?
    ensures SameValue(p, q) <==> p == q
  {
    if SameValue(p, q) {
      Unique(p, q);
    }
  }

  /*************************************************************************
   * Queries
   *************************************************************************/

  /** `wellFormed()`, dispatched to the representation's own check. */
  function WellFormed(p: Polynomial): (ok: bool)
    ensures ok <==> Valid(p)
  {
    match p
    case DensePoly(a) => Dense.WellFormed(a)
    case SparsePoly(ts) => Sparse.CheckWellFormed(ts)
  }

  /** `isZero()`: on a valid polynomial, every coefficient is 0. */
  function IsZero(p: Polynomial): (z: bool)
    ensures Valid(p) ==> (z <==> forall e :: Coeff(p, e) == 0)
    ensures Valid(p) ==> (z <==> p == ZeroLike(p))
  {
    match p
    case DensePoly(a) =>
      assert ZeroLike(p) == DensePoly([]);
      assert forall e :: Coeff(p, e) == Dense.Coeff(a, e);
      Dense.IsZero(a)
    case SparsePoly(ts) =>
      assert ZeroLike(p) == SparsePoly([]);
      assert forall e :: Coeff(p, e) == Sparse.CoeffOf(ts, e);
      Sparse.IsZero(ts)
  }

  /** `getCoeff(exp)`: on a valid polynomial, the coefficient at exp. */
  function GetCoeff(p: Polynomial, exp: int): (c: int)
    ensures Valid(p) ==> c == Coeff(p, exp)
  {
    match p
    case DensePoly(a) => Dense.Coeff(a, exp)
    case SparsePoly(ts) => Sparse.GetCoeff(ts, exp)
  }

  /** `getMinExponent()`: the lowest exponent with a nonzero coefficient, 0 for zero. */
  function MinExponent(p: Polynomial): (m: int)
    requires Valid(p)
    ensures IsZero(p) ==> m == 0
    ensures !IsZero(p) ==> Coeff(p, m) != 0 && forall e :: Coeff(p, e) != 0 ==> m <= e
  {
    match p
    case DensePoly(a) => Dense.MinExponent(a)
    case SparsePoly(ts) => Sparse.MinExponent(ts)
  }

  /** `getMaxExponent()`: the highest exponent with a nonzero coefficient, 0 for zero. */
  function MaxExponent(p: Polynomial): (m: int)
    requires Valid(p)
    ensures IsZero(p) ==> m == 0
    ensures !IsZero(p) ==> Coeff(p, m) != 0 && forall e :: Coeff(p, e) != 0 ==> e <= m
  {
    match p
    case DensePoly(a) => Dense.MaxExponent(a)
    case SparsePoly(ts) => Sparse.MaxExponent(ts)
  }

  /*************************************************************************
   * Cross-representation addition
   *************************************************************************/

  /** The loop of `DensePolynomial.add` for a sparse operand, from slot i: each
      slot becomes a one-term sparse polynomial that is added to the sparse
      partial sum. */
  function FoldSlots(a: seq<int>, i: nat, acc: seq<Term>): (r: seq<Term>)
    requires i <= |a| && Sparse.WellFormed(acc)
    ensures Sparse.WellFormed(r)
    ensures forall e :: Sparse.CoeffOf(r, e)
                        == Sparse.CoeffOf(acc, e) + (if i <= e then Dense.Coeff(a, e) else 0)
    decreases |a| - i
  {
    if i == |a| then acc
    else FoldSlots(a, i + 1, Sparse.AddSparse(acc, Sparse.Monomial(a[i], i)))
  }

  /** `DensePolynomial.add` with a sparse operand: the result is sparse, since the
      operand may hold negative exponents, and its coefficients are the sums. */
  function DenseAddSparse(a: seq<int>, ts: seq<Term>): (r: seq<Term>)
    requires Sparse.WellFormed(ts)
    ensures Sparse.WellFormed(r)
    ensures forall e :: Sparse.CoeffOf(r, e) == Dense.Coeff(a, e) + Sparse.CoeffOf(ts, e)
  {
    FoldSlots(a, 0, ts)
  }

  /** The loop of `SparsePolynomial.add` for a non-sparse operand, from exponent e
      up to hi: each exponent's coefficient becomes a one-term sparse polynomial
      that is added to the partial sum. */
  function FoldRange(acc: seq<Term>, b: seq<int>, e: int, hi: int): (r: seq<Term>)
    requires Sparse.WellFormed(acc)
    ensures Sparse.WellFormed(r)
    ensures forall k :: Sparse.CoeffOf(r, k)
                        == Sparse.CoeffOf(acc, k) + (if e <= k <= hi then Dense.Coeff(b, k) else 0)
    decreases if e <= hi then hi - e + 1 else 0
  {
    if e > hi then acc
    else FoldRange(Sparse.AddSparse(acc, Sparse.Monomial(Dense.Coeff(b, e), e)), b, e + 1, hi)
  }

  /** `SparsePolynomial.add` with a dense operand: the receiver is copied by adding
      it to zero, then one term per exponent from the operand's lowest to its
      highest exponent is added. The result is sparse with the summed coefficients. */
  function SparseAddDense(ts: seq<Term>, b: seq<int>): (r: seq<Term>)
    requires Sparse.WellFormed(ts) && Dense.WellFormed(b)
    ensures Sparse.WellFormed(r)
    ensures forall e :: Sparse.CoeffOf(r, e) == Sparse.CoeffOf(ts, e) + Dense.Coeff(b, e)
  {
    var start := Sparse.AddSparse(Sparse.Zero, ts);
    FoldRange(start, b, Dense.MinExponent(b), Dense.MaxExponent(b))
  }

  /*************************************************************************
   * Arithmetic
   *************************************************************************/

  /** `add(q)` for a non-null q: dense plus dense stays dense, anything involving
      a sparse operand comes out sparse, and the coefficients are summed. */
  function AddPoly(p: Polynomial, q: Polynomial): (r: Polynomial)
    requires Valid(p) && Valid(q)
    ensures Valid(r)
    ensures r.DensePoly? <==> p.DensePoly? && q.DensePoly?
    ensures forall e :: Coeff(r, e) == Coeff(p, e) + Coeff(q, e)
  {
    match (p, q)
    case (DensePoly(a), DensePoly(b)) => DensePoly(Dense.AddDense(a, b))
    case (DensePoly(a), SparsePoly(us)) => SparsePoly(DenseAddSparse(a, us))
    case (SparsePoly(ts), SparsePoly(us)) => SparsePoly(Sparse.AddSparse(ts, us))
    case (SparsePoly(ts), DensePoly(b)) => SparsePoly(SparseAddDense(ts, b))
  }

  /** `add(q)`: a null operand throws (explicitly in the dense class, on the first
      use of q in the sparse one); otherwise the sum. */
  function Add(p: Polynomial, q: Ref<Polynomial>): (r: Result<Polynomial>)
    requires Valid(p) && (q.Ref? ==> Valid(q.deref))
    ensures q.Null? <==> r == Throws(NullPointerException)
    ensures r.Ok? ==> Valid(r.value) && forall e :: Coeff(r.value, e) == Coeff(p, e) + Coeff(q.deref, e)
  {
    match q
    case Null => Throws(NullPointerException)
    case Ref(q) => Ok(AddPoly(p, q))
  }

  /** `multiply(factor)`: zero stays the same value, and every coefficient is
      multiplied by the factor in the same representation. */
  function Multiply(p: Polynomial, factor: int): (r: Polynomial)
    ensures r.DensePoly? == p.DensePoly?
    ensures Valid(p) ==> Valid(r)
    ensures IsZero(p) ==> r == p
    ensures Valid(p) && factor == 0 ==> r == ZeroLike(p)
    ensures forall e :: Coeff(r, e) == factor * Coeff(p, e)
  {
    match p
    case DensePoly(a) => DensePoly(Dense.Multiply(a, factor))
    case SparsePoly(ts) => SparsePoly(Sparse.Multiply(ts, factor))
  }

  /** `minus()`, derived as `multiply(-1)`: every coefficient negated, in the same
      representation; the negation of zero is zero. */
  function Minus(p: Polynomial): (r: Polynomial)
    ensures r.DensePoly? == p.DensePoly?
    ensures Valid(p) ==> Valid(r)
    ensures IsZero(p) ==> r == p
    ensures forall e :: Coeff(r, e) == -Coeff(p, e)
  {
    Multiply(p, -1)
  }

  /** `subtract(q)`, derived as `add(q.multiply(-1))`: a null q throws before the
      addition starts; otherwise the coefficient-wise difference, sparse as soon
      as either operand is. */
  function Subtract(p: Polynomial, q: Ref<Polynomial>): (r: Result<Polynomial>)
    requires Valid(p) && (q.Ref? ==> Valid(q.deref))
    ensures q.Null? <==> r == Throws(NullPointerException)
    ensures r.Ok? ==> && Valid(r.value)
                      && (r.value.DensePoly? <==> p.DensePoly? && q.deref.DensePoly?)
                      && forall e :: Coeff(r.value, e) == Coeff(p, e) - Coeff(q.deref, e)
  {
    match q
    case Null => Throws(NullPointerException)
    case Ref(q) => Add(p, Ref(Multiply(q, -1)))
  }

  /*************************************************************************
   * Rendering and equality
   *************************************************************************/

  /** `toString()` of either representation. */
  function ToString(p: Polynomial): (s: string)
    ensures Valid(p) ==> (s == "0" <==> IsZero(p))
  {
    match p
    case DensePoly(a) => Dense.ToString(a)
    case SparsePoly(ts) => Sparse.ToString(ts)
  }

  /** `equals(o)`. A null argument throws for a dense receiver and is unequal for
      a sparse one; an object that is not a polynomial is unequal; a polynomial
      of the other representation is compared by its rendering; a polynomial of
      the same representation is compared by the representation's own walk. */
  function Equals(p: Polynomial, o: Object<Polynomial>): (r: Result<bool>)
    ensures o == NullObject ==> r == if p.DensePoly? then Throws(NullPointerException) else Ok(false)
    ensures o == Unrelated ==> r == Ok(false)
    ensures o == Instance(p) ==> r == Ok(true)
    ensures o.Instance? && o.value.DensePoly? != p.DensePoly? ==> r == Ok(ToString(p) == ToString(o.value))
    ensures Valid(p) && o.Instance? && Valid(o.value) && p.DensePoly? && o.value.DensePoly? ==>
              r == Ok(SameValue(p, o.value))
    ensures p.SparsePoly? && o.Instance? && o.value.SparsePoly? && IsZero(p) != IsZero(o.value) ==>
              r == Ok(false)
  {
    match o
    case NullObject => if p.DensePoly? then Throws(NullPointerException) else Ok(false)
    case Unrelated => Ok(false)
    case Instance(q) =>
      match (p, q)
      case (DensePoly(a), DensePoly(b)) =>
        assert Valid(p) && Valid(q) ==> (SameValue(p, q) <==> p == q) by {
          if Valid(p) && Valid(q) { SameValueIsEquality(p, q); }
        }
        Ok(Dense.Equals(a, b))
      case (DensePoly(a), SparsePoly(us)) => Ok(Sparse.ToString(us) == Dense.ToString(a))
      case (SparsePoly(ts), DensePoly(b)) => Ok(Sparse.ToString(ts) == Dense.ToString(b))
      case (SparsePoly(ts), SparsePoly(us)) => Sparse.Equals(ts, us)
  }

  /*************************************************************************
   * Algebraic laws
   *************************************************************************/

  /** Addition commutes exactly: both orders give the same representation and,
      the result being canonical, the same value of it. */
  lemma AddCommutes(p: Polynomial, q: Polynomial)
    requires Valid(p) && Valid(q)
    ensures AddPoly(p, q) == AddPoly(q, p)
  {
    Unique(AddPoly(p, q), AddPoly(q, p));
  }

  /** Addition associates exactly. */
  lemma AddAssociates(p: Polynomial, q: Polynomial, s: Polynomial)
    requires Valid(p) && Valid(q) && Valid(s)
    ensures AddPoly(AddPoly(p, q), s) == AddPoly(p, AddPoly(q, s))
  {
    Unique(AddPoly(AddPoly(p, q), s), AddPoly(p, AddPoly(q, s)));
  }

  /** Adding a zero polynomial keeps the value; it keeps the polynomial itself
      unless a dense polynomial meets a sparse zero, which turns it sparse. */
  lemma AddZero(p: Polynomial, z: Polynomial)
    requires Valid(p) && Valid(z) && IsZero(z)
    ensures SameValue(AddPoly(p, z), p) && SameValue(AddPoly(z, p), p)
    ensures p.SparsePoly? || z.DensePoly? ==> AddPoly(p, z) == p && AddPoly(z, p) == p
  {
    AddCommutes(p, z);
    if p.SparsePoly? || z.DensePoly? {
      Unique(AddPoly(p, z), p);
    }
  }

  /** A polynomial plus its negation is the zero polynomial of its representation. */
  lemma AddInverse(p: Polynomial)
    requires Valid(p)
    ensures AddPoly(p, Minus(p)) == ZeroLike(p)
    ensures IsZero(AddPoly(p, Minus(p)))
  {
    Unique(AddPoly(p, Minus(p)), ZeroLike(p));
  }

  /** Subtracting a polynomial from itself gives zero. */
  lemma SubtractSelf(p: Polynomial)
    requires Valid(p)
    ensures Subtract(p, Ref(p)) == Ok(ZeroLike(p))
  {
    Unique(Subtract(p, Ref(p)).value, ZeroLike(p));
  }

  /** Multiplying by 1 gives the same polynomial back. */
  lemma MultiplyByOne(p: Polynomial)
    requires Valid(p)
    ensures Multiply(p, 1) == p
  {
    Unique(Multiply(p, 1), p);
  }

  /** Scaling twice is scaling once by the product of the factors. */
  lemma MultiplyComposes(p: Polynomial, f: int, g: int)
    requires Valid(p)
    ensures Multiply(Multiply(p, f), g) == Multiply(p, f * g)
  {
    var q := Multiply(p, f);
    var r := Multiply(q, g);
    var s := Multiply(p, f * g);
    forall e ensures Coeff(r, e) == Coeff(s, e) {
      var c := Coeff(p, e);
      assert Coeff(r, e) == g * Coeff(q, e) == g * (f * c);
      assert Coeff(s, e) == (f * g) * c;
      ProductsRegroup(f, g, c);
    }
    Unique(r, s);
  }

  lemma ProductsRegroup(f: int, g: int, c: int)
    ensures g * (f * c) == (f * g) * c
  {
  }

  /** Negating twice gives the same polynomial back. */
  lemma MinusInvolutive(p: Polynomial)
    requires Valid(p)
    ensures Minus(Minus(p)) == p
  {
    Unique(Minus(Minus(p)), p);
  }
}
