/** The dense representation: slot i holds the coefficient of x^i, from exponent 0
    up to the degree, with no trailing zero slot. */
module Dense {
  import opened Java
  import opened Decimal

  /*************************************************************************
   * Invariant and meaning
   *************************************************************************/

  /** `wellFormed()`: the array is empty (the zero polynomial) or its last slot
      is nonzero. */
  predicate WellFormed(a: seq<int>) {
    |a| == 0 || a[|a| - 1] != 0
  }

  /** `getCoeff(exp)`: the slot for an exponent inside the array, 0 for every
      other exponent, negative ones included. It is also the meaning of a dense
      polynomial at exponent e. */
  function Coeff(a: seq<int>, e: int): int {
    if 0 <= e < |a| then a[e] else 0
  }

  /** Two well-formed arrays with the same meaning are the same array: the dense
      form is canonical. */
  lemma Canonical(a: seq<int>, b: seq<int>)
    requires WellFormed(a) && WellFormed(b)
    requires forall e :: Coeff(a, e) == Coeff(b, e)
    ensures a == b
  {
    if |a| > 0 {
      assert Coeff(b, |a| - 1) == Coeff(a, |a| - 1) != 0;
    }
    if |b| > 0 {
      assert Coeff(a, |b| - 1) == Coeff(b, |b| - 1) != 0;
    }
    forall i | 0 <= i < |a| ensures a[i] == b[i] {
      assert Coeff(a, i) == Coeff(b, i);
    }
  }

  /*************************************************************************
   * Queries
   *************************************************************************/

  /** The scan in `isZero()` from slot i onward. */
  function AllZeroFrom(a: seq<int>, i: nat): (z: bool)
    requires i <= |a|
    ensures z <==> forall j :: i <= j < |a| ==> a[j] == 0
    decreases |a| - i
  {
    if i == |a| then true else if a[i] != 0 then false else AllZeroFrom(a, i + 1)
  }

  /** `isZero()`: the array is empty or every slot is 0. On a well-formed array
      that is the same as being empty. */
  function IsZero(a: seq<int>): (z: bool)
    ensures z <==> forall e :: Coeff(a, e) == 0
    ensures WellFormed(a) ==> (z <==> |a| == 0)
  {
    if |a| == 0 then true
    else
      var z := AllZeroFrom(a, 0);
      assert forall j :: 0 <= j < |a| ==> Coeff(a, j) == a[j];
      z
  }

  /** The loop of `getMinExponent()` from slot i: the first nonzero slot, or the
      initial 0 when there is none. */
  function FirstNonzeroFrom(a: seq<int>, i: nat): (m: nat)
    requires i <= |a|
    ensures !AllZeroFrom(a, i) ==> i <= m < |a| && a[m] != 0 && AllZeroFrom(a[..m], i)
    decreases |a| - i
  {
    if i == |a| then 0 else if a[i] != 0 then i else FirstNonzeroFrom(a, i + 1)
  }

  /** `getMinExponent()`: the lowest exponent with a nonzero coefficient, 0 for zero. */
  function MinExponent(a: seq<int>): (m: int)
    ensures IsZero(a) ==> m == 0
    ensures !IsZero(a) ==> Coeff(a, m) != 0 && forall e :: Coeff(a, e) != 0 ==> m <= e
  {
    if IsZero(a) then 0
    else
      var m := FirstNonzeroFrom(a, 0);
      assert forall j :: 0 <= j < m ==> a[..m][j] == a[j];
      m
  }

  /** `getMaxExponent()`: the highest exponent with a nonzero coefficient (the last
      slot of a well-formed array), 0 for zero. */
  function MaxExponent(a: seq<int>): (m: int)
    ensures IsZero(a) ==> m == 0
    ensures WellFormed(a) && !IsZero(a) ==>
              Coeff(a, m) != 0 && forall e :: Coeff(a, e) != 0 ==> e <= m
  {
    if IsZero(a) then 0 else |a| - 1
  }

  /*************************************************************************
   * Construction
   *************************************************************************/

  /** The zero polynomial. */
  const Zero: seq<int> := []

  /** `DensePolynomial(coeff, exponent)` where it succeeds: the empty array for a
      zero coefficient, otherwise exponent+1 slots holding coeff at the top and 0
      below. */
  function Monomial(coeff: int, exponent: int): (a: seq<int>)
    requires coeff != 0 ==> exponent >= 0
    ensures WellFormed(a)
    ensures coeff == 0 ==> a == []
    ensures coeff != 0 ==> |a| == exponent + 1
    ensures forall e :: Coeff(a, e) == if e == exponent then coeff else 0
  {
    if coeff == 0 then [] else seq(exponent + 1, i => if i == exponent then coeff else 0)
  }

  /** `DensePolynomial(coeff, exponent)` for every argument pair: with a nonzero
      coefficient, an exponent below -1 asks for an array of negative size, and
      exponent -1 builds an empty array and then stores into slot -1. */
  function New(coeff: int, exponent: int): (r: Result<seq<int>>)
    ensures r.Ok? <==> coeff == 0 || exponent >= 0
    ensures r.Ok? ==> WellFormed(r.value)
                      && forall e :: Coeff(r.value, e) == if e == exponent then coeff else 0
    ensures coeff != 0 && exponent < -1 ==> r == Throws(NegativeArraySizeException)
    ensures coeff != 0 && exponent == -1 ==> r == Throws(ArrayIndexOutOfBoundsException)
  {
    if coeff == 0 then Ok([])
    else if exponent + 1 < 0 then Throws(NegativeArraySizeException)
    else if exponent < 0 then Throws(ArrayIndexOutOfBoundsException)
    else Ok(seq(exponent + 1, i => if i == exponent then coeff else 0))
  }

  /*************************************************************************
   * Addition
   *************************************************************************/

  /** The downward scan in `truncate()` from slot i: the highest nonzero slot at
      or below i. */
  function HighestNonzero(a: seq<int>, i: nat): (k: nat)
    requires i < |a|
    requires !AllZeroFrom(a[..i + 1], 0)
    ensures k <= i && a[k] != 0
    ensures forall j :: k < j <= i ==> a[j] == 0
    decreases i
  {
    if a[i] != 0 then i
    else
      assert a[..i + 1][..i] == a[..i];
      assert !AllZeroFrom(a[..i], 0) by {
        var j :| 0 <= j < i + 1 && a[..i + 1][j] != 0;
        assert j < i && a[..i][j] != 0;
      }
      HighestNonzero(a, i - 1)
  }

  /** `truncate()`: keeps exactly the slots up to the highest nonzero one, which
      restores the no-trailing-zero invariant without changing any coefficient. */
  function Truncate(a: seq<int>): (r: seq<int>)
    requires !IsZero(a)
    ensures WellFormed(r) && r != []
    ensures |r| <= |a| && r == a[..|r|]
    ensures forall j :: |r| <= j < |a| ==> a[j] == 0
    ensures forall e :: Coeff(r, e) == Coeff(a, e)
  {
    assert a[..|a|] == a;
    var k := HighestNonzero(a, |a| - 1);
    a[..k + 1]
  }

  function Max(x: int, y: int): int {
    if x < y then y else x
  }

  /** `addDense`: a zero operand gives the other operand back; otherwise slots are
      summed over the longer length, an all-zero sum collapses to the empty
      array, and anything else is truncated. The result is well-formed and its
      coefficient at every exponent is the sum of the operands'. */
  function AddDense(a: seq<int>, b: seq<int>): (r: seq<int>)
    requires WellFormed(a) && WellFormed(b)
    ensures WellFormed(r)
    ensures IsZero(b) ==> r == a
    ensures IsZero(a) ==> r == b
    ensures forall e :: Coeff(r, e) == Coeff(a, e) + Coeff(b, e)
  {
    if IsZero(b) then a
    else if IsZero(a) then b
    else
      var m := Max(|a|, |b|);
      var sum := seq(m, c requires 0 <= c < m => Coeff(a, c) + Coeff(b, c));
      assert forall e :: Coeff(sum, e) == Coeff(a, e) + Coeff(b, e);
      if IsZero(sum) then [] else Truncate(sum)
  }

  /*************************************************************************
   * Multiplication by a scalar
   *************************************************************************/

  /** `multiply(factor)`: zero stays zero, a zero factor gives the empty array, and
      otherwise every slot is multiplied by the factor over the same length. */
  function Multiply(a: seq<int>, factor: int): (r: seq<int>)
    ensures IsZero(a) ==> r == a
    ensures factor == 0 ==> IsZero(r)
    ensures factor != 0 ==> |r| == |a|
    ensures forall e :: Coeff(r, e) == factor * Coeff(a, e)
    ensures WellFormed(a) ==> WellFormed(r)
  {
    if IsZero(a) then a
    else if factor == 0 then []
    else seq(|a|, i requires 0 <= i < |a| => a[i] * factor)
  }

  /*************************************************************************
   * Equality and rendering
   *************************************************************************/

  /** The slot-by-slot loop of `equals` from slot i, for arrays of equal length. */
  function SlotsMatch(a: seq<int>, b: seq<int>, i: nat): (r: bool)
    requires |a| == |b| && i <= |a|
    ensures r <==> a[i..] == b[i..]
    decreases |a| - i
  {
    if i == |a| then true
    else if b[i] != a[i] then false
    else
      assert a[i..] == [a[i]] + a[i + 1..] && b[i..] == [b[i]] + b[i + 1..];
      SlotsMatch(a, b, i + 1)
  }

  /** `equals` between two dense polynomials: same length and same slots. */
  function Equals(a: seq<int>, b: seq<int>): (r: bool)
    ensures r <==> a == b
  {
    if |b| != |a| then false
    else
      assert a[0..] == a && b[0..] == b;
      SlotsMatch(a, b, 0)
  }

  /** What `toString()` inserts at the front for slot i: nothing for a zero slot;
      the bare coefficient at exponent 0; at exponent 1 the coefficient and `x`,
      followed by " + " only when slot 0 is nonzero; above that the coefficient,
      `x^`, the exponent and always " + ". */
  function Piece(a: seq<int>, i: nat): string
    requires i < |a|
  {
    if a[i] == 0 then ""
    else if i == 0 then IntToString(a[i])
    else if i == 1 then
      if a[i - 1] == 0 then IntToString(a[i]) + "x" else IntToString(a[i]) + "x" + " + "
    else IntToString(a[i]) + "x^" + IntToString(i) + " + "
  }

  /** The builder of `toString()` after slots 0 .. n-1: each piece went in front of
      the previous ones, so the highest slot comes first. */
  function Build(a: seq<int>, n: nat): string
    requires n <= |a|
  {
    if n == 0 then "" else Piece(a, n - 1) + Build(a, n - 1)
  }

  /** `toString()`: "0" for zero, otherwise the pieces from the highest slot down. */
  function ToString(a: seq<int>): (s: string)
    ensures IsZero(a) ==> s == "0"
    ensures WellFormed(a) ==> (s == "0" <==> |a| == 0)
  {
    if IsZero(a) then "0"
    else
      var s := Build(a, |a|);
      if |a| == 1 then
        assert Build(a, 0) == "" && Piece(a, 0) == IntToString(a[0]);
        assert s == IntToString(a[0]);
        assert IntToString(0) == "0";
        assert s != "0";
        s
      else
        assert WellFormed(a) ==> |Piece(a, |a| - 1)| >= 2;
        s
  }
}
