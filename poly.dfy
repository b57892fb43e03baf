/**
 * PolyFieldUnivElt of shamirshare.py: a polynomial object over a
 * coefficient field, holding its coefficient list (lowest degree first),
 * with trimming, addition, multiplication, in-place division by a
 * constant and Horner evaluation; and PolyFieldUniv.fit, Lagrange
 * interpolation built from those operations.
 */
module Poly {
  import opened Errors
  import opened Fields
  import opened PolyLists
  import opened Lagrange

  /** __trimlist__: deletes zeros from the end of the list while there are any. */
  method TrimList(thelist: seq<int>) returns (r: seq<int>)
    ensures r == Trim(thelist)
  {
    r := thelist;
    while |r| > 0 && r[|r| - 1] == 0
      invariant Trim(r) == Trim(thelist)
      decreases |r|
    {
      r := r[..|r| - 1];
    }
  }

  /** Each coefficient divided by the nonzero constant d. */
  function DivList(F: Field, c: seq<int>, d: int): (r: seq<int>)
    requires WellFormed(F) && Elts(F, c) && Elt(F, d) && d != 0
    ensures |r| == |c| && Elts(F, r)
  {
    seq(|c|, i requires 0 <= i < |c| => Div(F, c[i], d).value)
  }

  /** Dividing every coefficient by d divides the value by d. */
  lemma HornerDivList(F: Field, c: seq<int>, d: int, x: int)
    requires WellFormed(F) && Elts(F, c) && Elt(F, d) && d != 0 && Elt(F, x)
    ensures Horner(F, DivList(F, c, d), x) == Div(F, Horner(F, c, x), d).value
  {
    var i := Inv(F, d).value;
    forall k: nat ensures Pad(F, DivList(F, c, d), k) == Mul(F, Pad(F, c, k), i) {
      if k < |c| {
        DivIsMulInv(F, c[k], d);
      } else {
        MulOneZero(F, i);
      }
    }
    HornerScale(F, DivList(F, c, d), c, i, x);
    DivIsMulInv(F, Horner(F, c, x), d);
  }

  /** The trimmed sum that add returns evaluates to the sum of the values. */
  lemma HornerTrimAdd(F: Field, a: seq<int>, b: seq<int>, x: int)
    requires WellFormed(F) && Elts(F, a) && Elts(F, b) && Elt(F, x)
    ensures Elts(F, Trim(AddLists(F, a, b)))
    ensures Horner(F, Trim(AddLists(F, a, b)), x) == Fields.Add(F, Horner(F, a, x), Horner(F, b, x))
  {
    HornerTrim(F, AddLists(F, a, b), x);
    HornerAddLists(F, a, b, x);
  }

  /** The trimmed product that mul returns evaluates to the product of the values. */
  lemma HornerTrimMul(F: Field, a: seq<int>, b: seq<int>, x: int)
    requires WellFormed(F) && Elts(F, a) && Elts(F, b) && Elt(F, x)
    ensures Elts(F, Trim(MulLists(F, a, b)))
    ensures Horner(F, Trim(MulLists(F, a, b)), x) == Fields.Mul(F, Horner(F, a, x), Horner(F, b, x))
  {
    HornerTrim(F, MulLists(F, a, b), x);
    HornerMulLists(F, a, b, x);
  }

  class PolyElt {
    /** The coefficient field (the polynomial ring's coeffring). */
    const field: Field
    /** Coefficients, lowest degree first. */
    var coeffs: seq<int>

    ghost predicate Valid()
      reads this
    {
      WellFormed(field) && Elts(field, coeffs)
    }

    /**
     * PolyFieldUnivElt(ring, list): trailing zeros are trimmed from the
     * raw list first, then every entry is coerced into the field.
     */
    constructor (F: Field, cs: seq<int>)
      requires WellFormed(F) && AllCoercible(F, cs)
      ensures Valid() && field == F
      ensures coeffs == CoerceAll(F, cs[..|Trim(cs)|])
      ensures Elts(F, cs) && Trim(cs) == cs ==> coeffs == cs
    {
      field := F;
      var t := TrimList(cs);
      TrimCorrect(cs);
      coeffs := CoerceAll(F, t);
    }

    /** PolyFieldUnivElt(ring, c) for a field element c: the constant polynomial, untrimmed. */
    constructor Constant(F: Field, c: int)
      requires WellFormed(F) && Elt(F, c)
      ensures Valid() && field == F
      ensures coeffs == [c]
    {
      field := F;
      coeffs := [c];
    }

    /**
     * add: the padded sums, trimmed (HornerTrimAdd: as a function of x
     * the result is the sum of the two polynomials).
     */
    method Add(summand: PolyElt) returns (r: PolyElt)
      requires Valid() && summand.Valid() && summand.field == field
      ensures fresh(r) && r.Valid() && r.field == field
      ensures r.coeffs == Trim(AddLists(field, coeffs, summand.coeffs))
    {
      var thecoeffs := AddLists(field, coeffs, summand.coeffs);
      thecoeffs := TrimList(thecoeffs);
      TrimPad(field, AddLists(field, coeffs, summand.coeffs));
      r := new PolyElt(field, thecoeffs);
    }

    /**
     * mul: coefficient d of the product is the convolution sum over
     * i in [max(0, d-len1+1), min(d+1, len2)), for d up to polydeg, and
     * the list is trimmed (HornerTrimMul: as a function of x the result
     * is the product).
     */
    method Mul(multand: PolyElt) returns (r: PolyElt)
      requires Valid() && multand.Valid() && multand.field == field
      ensures fresh(r) && r.Valid() && r.field == field
      ensures r.coeffs == Trim(MulLists(field, coeffs, multand.coeffs))
    {
      var n := Max(0, |coeffs| + |multand.coeffs| - 1);
      var thelist := seq(n, _ => 0);
      for d := 0 to n
        invariant |thelist| == n
        invariant forall k :: 0 <= k < d ==> thelist[k] == Conv(field, coeffs, multand.coeffs, k)
        invariant forall k :: d <= k < n ==> thelist[k] == 0
      {
        thelist := thelist[d := Conv(field, coeffs, multand.coeffs, d)];
      }
      assert thelist == MulLists(field, coeffs, multand.coeffs);
      thelist := TrimList(thelist);
      TrimPad(field, MulLists(field, coeffs, multand.coeffs));
      r := new PolyElt(field, thelist);
    }

    /**
     * div (and idiv, whose body is the same) by a constant of the
     * coefficient field: dividing by a zero constant
     * raises ZeroDivisionError and leaves the coefficients alone;
     * otherwise every coefficient is divided in place and the object
     * itself is returned.
     */
    method Div(divisor: int) returns (r: Result<PolyElt>)
      requires Valid() && Elt(field, divisor)
      modifies this
      ensures Valid()
      ensures divisor == 0 ==> r == Err(ZeroDivisionError) && coeffs == old(coeffs)
      ensures divisor != 0 ==> r == Ok(this) && coeffs == DivList(field, old(coeffs), divisor)
    {
      if divisor == 0 {
        return Err(ZeroDivisionError);
      }
      for i := 0 to |coeffs|
        invariant |coeffs| == |old(coeffs)| && Elts(field, coeffs)
        invariant forall k :: 0 <= k < i ==> coeffs[k] == Fields.Div(field, old(coeffs)[k], divisor).value
        invariant forall k :: i <= k < |coeffs| ==> coeffs[k] == old(coeffs)[k]
      {
        coeffs := coeffs[i := Fields.Div(field, coeffs[i], divisor).value];
      }
      return Ok(this);
    }

    /**
     * eval by Horner's rule from the top coefficient down.  The value is
     * the sum of c_k * x^k; an empty coefficient list raises IndexError,
     * because the top coefficient is read before anything else.
     */
    method Eval(xvalue: int) returns (r: Result<int>)
      requires Valid() && Coercible(field, xvalue)
      ensures |coeffs| == 0 ==> r == Err(IndexError)
      ensures |coeffs| > 0 ==> r == Ok(PowerSum(field, coeffs, Coerce(field, xvalue), |coeffs|))
    {
      if |coeffs| == 0 {
        return Err(IndexError);
      }
      var x := Coerce(field, xvalue);
      var polydeg := |coeffs| - 1;
      var theval := coeffs[polydeg];
      MulOneZero(field, x);
      AddZero(field, theval);
      assert theval == Horner(field, coeffs[polydeg..], x);
      var theindex := polydeg;
      while theindex > 0
        invariant 0 <= theindex <= polydeg
        invariant theval == Horner(field, coeffs[theindex..], x)
      {
        theindex := theindex - 1;
        assert coeffs[theindex..][1..] == coeffs[theindex + 1..];
        theval := Fields.Add(field, Fields.Mul(field, theval, x), coeffs[theindex]);
      }
      assert coeffs[0..] == coeffs;
      HornerIsPowerSum(field, coeffs, x);
      return Ok(theval);
    }

    /**
     * Evaluation as evidently intended: Horner's rule with the empty list
     * taken as the zero polynomial, whose value is 0.
     */
    method EvalTotal(xvalue: int) returns (r: int)
      requires Valid() && Coercible(field, xvalue)
      ensures r == PowerSum(field, coeffs, Coerce(field, xvalue), |coeffs|)
      ensures |coeffs| == 0 ==> r == 0
    {
      var x := Coerce(field, xvalue);
      var theval := 0;
      var theindex := |coeffs|;
      while theindex > 0
        invariant 0 <= theindex <= |coeffs|
        invariant theval == Horner(field, coeffs[theindex..], x)
      {
        theindex := theindex - 1;
        assert coeffs[theindex..][1..] == coeffs[theindex + 1..];
        theval := Fields.Add(field, Fields.Mul(field, theval, x), coeffs[theindex]);
      }
      assert coeffs[0..] == coeffs;
      HornerIsPowerSum(field, coeffs, x);
      return theval;
    }
  }

  // ------------------------------------------------------------ fit

  /** The x values of the points, coerced into the field. */
  function Xs(F: Field, points: seq<(int, int)>): (r: seq<int>)
    requires WellFormed(F) && PointsCoercible(F, points)
    ensures |r| == |points| && Elts(F, r)
  {
    seq(|points|, k requires 0 <= k < |points| => Coerce(F, points[k].0))
  }

  /** The y values of the points, coerced into the field. */
  function Ys(F: Field, points: seq<(int, int)>): (r: seq<int>)
    requires WellFormed(F) && PointsCoercible(F, points)
    ensures |r| == |points| && Elts(F, r)
  {
    seq(|points|, k requires 0 <= k < |points| => Coerce(F, points[k].1))
  }

  predicate PointsCoercible(F: Field, points: seq<(int, int)>) {
    forall k :: 0 <= k < |points| ==> Coercible(F, points[k].0) && Coercible(F, points[k].1)
  }

  /** The factor (x - c) as the list [-c, 1]. */
  function Factor(F: Field, c: int): (r: seq<int>)
    requires WellFormed(F) && Elt(F, c)
    ensures |r| == 2 && Elts(F, r)
  {
    ConstantsAreElts(F);
    [Neg(F, c), 1]
  }

  lemma HornerFactor(F: Field, c: int, x: int)
    requires WellFormed(F) && Elt(F, c) && Elt(F, x)
    ensures Horner(F, Factor(F, c), x) == Sub(F, x, c)
  {
    ConstantsAreElts(F);
    var f := Factor(F, c);
    assert f[1..] == [1];
    assert Horner(F, [1], x) == 1 by {
      MulOneZero(F, x);
      AddZero(F, 1);
    }
    MulOneZero(F, x);
    AddNeg(F, x, c);
  }

  /** theterm after the inner loop has run over i < m: the product of the factors for i != j. */
  function Term(F: Field, xs: seq<int>, j: nat, m: nat): (r: seq<int>)
    requires WellFormed(F) && Elts(F, xs) && m <= |xs|
    ensures Elts(F, r)
  {
    ConstantsAreElts(F);
    if m == 0 then [1]
    else if m - 1 == j then Term(F, xs, j, m - 1)
    else
      TrimElts(F, MulLists(F, Term(F, xs, j, m - 1), Factor(F, xs[m - 1])));
      Trim(MulLists(F, Term(F, xs, j, m - 1), Factor(F, xs[m - 1])))
  }

  lemma FactorTrimmed(F: Field, c: int)
    requires WellFormed(F) && Elt(F, c)
    ensures Trim(Factor(F, c)) == Factor(F, c)
  {}

  lemma TermNext(F: Field, xs: seq<int>, j: nat, i: nat)
    requires WellFormed(F) && Elts(F, xs) && i < |xs|
    ensures Term(F, xs, j, i + 1) ==
            if i == j then Term(F, xs, j, i) else Trim(MulLists(F, Term(F, xs, j, i), Factor(F, xs[i])))
  {}

  /** Multiplying in one factor multiplies the value by (x - xs[m-1]). */
  lemma TermStep(F: Field, xs: seq<int>, j: nat, m: nat, x: int)
    requires WellFormed(F) && Elts(F, xs) && 0 < m <= |xs| && m - 1 != j && Elt(F, x)
    ensures Horner(F, Term(F, xs, j, m), x) ==
            Fields.Mul(F, Horner(F, Term(F, xs, j, m - 1), x), Sub(F, x, xs[m - 1]))
  {
    var t := Term(F, xs, j, m - 1);
    var f := Factor(F, xs[m - 1]);
    HornerTrim(F, MulLists(F, t, f), x);
    HornerMulLists(F, t, f, x);
    HornerFactor(F, xs[m - 1], x);
  }

  /** As a function of x, theterm is the basis product. */
  lemma TermValue(F: Field, xs: seq<int>, j: nat, m: nat, x: int)
    requires WellFormed(F) && Elts(F, xs) && m <= |xs| && Elt(F, x)
    ensures Horner(F, Term(F, xs, j, m), x) == Basis(F, xs, j, m, x)
  {
    HornerOne(F, x);
    for i := 0 to m
      invariant Horner(F, Term(F, xs, j, i), x) == Basis(F, xs, j, i, x)
    {
      TermValueStep(F, xs, j, i + 1, x);
    }
  }

  lemma HornerOne(F: Field, x: int)
    requires WellFormed(F) && Elt(F, x)
    ensures Elt(F, 1) && Horner(F, [1], x) == 1
  {
    ConstantsAreElts(F);
    MulOneZero(F, x);
    AddZero(F, 1);
  }

  lemma TermValueStep(F: Field, xs: seq<int>, j: nat, m: nat, x: int)
    requires WellFormed(F) && Elts(F, xs) && 0 < m <= |xs| && Elt(F, x)
    requires Horner(F, Term(F, xs, j, m - 1), x) == Basis(F, xs, j, m - 1, x)
    ensures Horner(F, Term(F, xs, j, m), x) == Basis(F, xs, j, m, x)
  {
    if m - 1 != j {
      TermStep(F, xs, j, m, x);
    }
  }


  /** theterm has at most one coefficient per factor multiplied in, plus one. */
  lemma {:induction false} TermLength(F: Field, xs: seq<int>, j: nat, m: nat)
    requires WellFormed(F) && Elts(F, xs) && m <= |xs|
    ensures |Term(F, xs, j, m)| <= if j < m then m else m + 1
  {
    if m > 0 {
      TermLength(F, xs, j, m - 1);
    }
  }

  /**
   * The summand y_j * theterm / theprod, or the ZeroDivisionError that
   * dividing by a zero theprod raises.
   */
  function Summand(F: Field, xs: seq<int>, ys: seq<int>, j: nat): (r: Result<seq<int>>)
    requires WellFormed(F) && Elts(F, xs) && Elts(F, ys) && |xs| == |ys| && j < |xs|
    ensures r.Err? <==> Weight(F, xs, j) == 0
    ensures r.Err? ==> r.error == ZeroDivisionError
    ensures r.Ok? ==> Elts(F, r.value)
  {
    var w := Weight(F, xs, j);
    if w == 0 then Err(ZeroDivisionError) else Ok(DivList(F, Scaled(F, xs, ys, j), w))
  }

  /** The j-th basis numerator times y_j, trimmed as the product method leaves it. */
  function Scaled(F: Field, xs: seq<int>, ys: seq<int>, j: nat): (r: seq<int>)
    requires WellFormed(F) && Elts(F, xs) && Elts(F, ys) && |xs| == |ys| && j < |xs|
    ensures Elts(F, r)
  {
    var scaled := MulLists(F, Term(F, xs, j, |xs|), [ys[j]]);
    TrimElts(F, scaled);
    Trim(scaled)
  }

  /** Each summand, as a function of x, is basis_j(x) * (y_j / weight_j). */
  lemma SummandValue(F: Field, xs: seq<int>, ys: seq<int>, j: nat, x: int)
    requires IsField(F) && Elts(F, xs) && Elts(F, ys) && |xs| == |ys| && j < |xs| && Elt(F, x)
    requires Weight(F, xs, j) != 0
    ensures Horner(F, Summand(F, xs, ys, j).value, x) == LagrangeTerm(F, xs, ys, j, x)
  {
    var term := Term(F, xs, j, |xs|);
    var scaled := MulLists(F, term, [ys[j]]);
    var w := Weight(F, xs, j);
    TrimPad(F, scaled);
    HornerDivList(F, Trim(scaled), w, x);
    HornerTrim(F, scaled, x);
    HornerMulLists(F, term, [ys[j]], x);
    assert Horner(F, [ys[j]], x) == ys[j] by {
      MulOneZero(F, x);
      AddZero(F, ys[j]);
    }
    TermValue(F, xs, j, |xs|, x);
    MulDivAssociative(F, Basis(F, xs, j, |xs|, x), ys[j], w);
  }

  /** A summand has no more coefficients than there are points. */
  lemma SummandLength(F: Field, xs: seq<int>, ys: seq<int>, j: nat)
    requires WellFormed(F) && Elts(F, xs) && Elts(F, ys) && |xs| == |ys| && j < |xs|
    ensures Summand(F, xs, ys, j).Ok? ==> |Summand(F, xs, ys, j).value| <= |xs|
  {
    TermLength(F, xs, j, |xs|);
  }

  /** The summands of fit, in the order its outer loop adds them. */
  function Summands(F: Field, xs: seq<int>, ys: seq<int>): (r: seq<Result<seq<int>>>)
    requires WellFormed(F) && Elts(F, xs) && Elts(F, ys) && |xs| == |ys|
    ensures |r| == |xs| && PartsOk(F, r)
  {
    seq(|xs|, j requires 0 <= j < |xs| => Summand(F, xs, ys, j))
  }

  predicate PartsOk(F: Field, parts: seq<Result<seq<int>>>) {
    forall j :: 0 <= j < |parts| ==> parts[j].Ok? ==> Elts(F, parts[j].value)
  }

  /**
   * thepoly after the outer loop has added parts[0..k): each addition is
   * __addlists__ followed by trimming, and the first failing part's
   * error ends the loop.
   */
  function Accumulate(F: Field, parts: seq<Result<seq<int>>>, k: nat): (r: Result<seq<int>>)
    requires WellFormed(F) && PartsOk(F, parts) && k <= |parts|
    ensures r.Ok? ==> Elts(F, r.value)
  {
    if k == 0 then Ok([])
    else
      match Accumulate(F, parts, k - 1)
      case Err(e) => Err(e)
      case Ok(p) =>
        match parts[k - 1]
        case Err(e) => Err(e)
        case Ok(s) =>
          TrimElts(F, AddLists(F, p, s));
          Ok(Trim(AddLists(F, p, s)))
  }

  /** The accumulation fails exactly when some part failed, with that part's error. */
  lemma {:induction false} AccumulateErr(F: Field, parts: seq<Result<seq<int>>>, k: nat)
    requires WellFormed(F) && PartsOk(F, parts) && k <= |parts|
    ensures Accumulate(F, parts, k).Err? <==> exists j :: 0 <= j < k && parts[j].Err?
    ensures Accumulate(F, parts, k).Err? ==> exists j :: 0 <= j < k && parts[j] == Accumulate(F, parts, k)
  {
    if k > 0 {
      AccumulateErr(F, parts, k - 1);
    }
  }

  /** The values of parts[0..k) at x, added up from 0 (a failed part counts as 0). */
  function SumValues(F: Field, parts: seq<Result<seq<int>>>, k: nat, x: int): (r: int)
    requires WellFormed(F) && PartsOk(F, parts) && k <= |parts| && Elt(F, x)
    ensures Elt(F, r)
  {
    if k == 0 then 0
    else Fields.Add(F, SumValues(F, parts, k - 1, x),
                       if parts[k - 1].Ok? then Horner(F, parts[k - 1].value, x) else 0)
  }

  /** When every part succeeds, the accumulated polynomial evaluates to the sum of their values. */
  lemma {:induction false} AccumulateValue(F: Field, parts: seq<Result<seq<int>>>, k: nat, x: int)
    requires WellFormed(F) && PartsOk(F, parts) && k <= |parts| && Elt(F, x)
    requires forall j :: 0 <= j < k ==> parts[j].Ok?
    ensures Accumulate(F, parts, k).Ok?
    ensures Horner(F, Accumulate(F, parts, k).value, x) == SumValues(F, parts, k, x)
  {
    if k > 0 {
      AccumulateValue(F, parts, k - 1, x);
      var p := Accumulate(F, parts, k - 1).value;
      var s := parts[k - 1].value;
      HornerTrim(F, AddLists(F, p, s), x);
      HornerAddLists(F, p, s, x);
    }
  }

  /** Adding parts of at most n coefficients gives at most n coefficients. */
  lemma {:induction false} AccumulateLength(F: Field, parts: seq<Result<seq<int>>>, k: nat, n: nat)
    requires WellFormed(F) && PartsOk(F, parts) && k <= |parts|
    requires forall j :: 0 <= j < k ==> parts[j].Ok? ==> |parts[j].value| <= n
    ensures Accumulate(F, parts, k).Ok? ==> |Accumulate(F, parts, k).value| <= n
  {
    if k > 0 {
      AccumulateLength(F, parts, k - 1, n);
    }
  }

  /** The accumulated polynomial is trimmed: empty or with a nonzero top coefficient. */
  lemma AccumulateTrimmed(F: Field, parts: seq<Result<seq<int>>>, k: nat)
    requires WellFormed(F) && PartsOk(F, parts) && k <= |parts|
    ensures Accumulate(F, parts, k).Ok? ==> Trim(Accumulate(F, parts, k).value) == Accumulate(F, parts, k).value
  {
    if k > 0 {
      AccumulateNext(F, parts, k - 1);
      var prev := Accumulate(F, parts, k - 1);
      if prev.Ok? && parts[k - 1].Ok? {
        TrimPad(F, AddLists(F, prev.value, parts[k - 1].value));
      }
    }
  }

  lemma AccumulateNext(F: Field, parts: seq<Result<seq<int>>>, k: nat)
    requires WellFormed(F) && PartsOk(F, parts) && k < |parts|
    ensures Accumulate(F, parts, k + 1) ==
      match Accumulate(F, parts, k)
      case Err(e) => Err(e)
      case Ok(p) =>
        match parts[k]
        case Err(e) => Err(e)
        case Ok(s) => Ok(Trim(AddLists(F, p, s)))
  {}

  lemma SummandIs(F: Field, xs: seq<int>, ys: seq<int>, j: nat)
    requires WellFormed(F) && Elts(F, xs) && Elts(F, ys) && |xs| == |ys| && j < |xs|
    ensures Weight(F, xs, j) != 0 ==>
      Summand(F, xs, ys, j) == Ok(DivList(F, Scaled(F, xs, ys, j), Weight(F, xs, j)))
    ensures Scaled(F, xs, ys, j) == Trim(MulLists(F, Term(F, xs, j, |xs|), [ys[j]]))
  {}

  /** What fit(points) returns or raises. */
  function FitSpec(F: Field, points: seq<(int, int)>): (r: Result<seq<int>>)
    requires WellFormed(F) && PointsCoercible(F, points)
  {
    var xs, ys := Xs(F, points), Ys(F, points);
    Accumulate(F, Summands(F, xs, ys), |points|)
  }

  /** For distinct nodes the summands of fit add up to the Lagrange sum. */
  lemma SummandsValue(F: Field, xs: seq<int>, ys: seq<int>, x: int)
    requires IsField(F) && Elts(F, xs) && Elts(F, ys) && |xs| == |ys| && Elt(F, x)
    requires Distinct(xs)
    ensures SumValues(F, Summands(F, xs, ys), |xs|, x) == LagrangeSum(F, xs, ys, |xs|, x)
  {
    var parts := Summands(F, xs, ys);
    DistinctWeights(F, xs);
    forall j | 0 <= j < |xs|
      ensures parts[j].Ok? && Horner(F, parts[j].value, x) == LagrangeTerm(F, xs, ys, j, x)
    {
      SummandValue(F, xs, ys, j, x);
    }
    SumValuesLagrange(F, xs, ys, parts, |xs|, x);
  }

  /** Parts whose values are the Lagrange terms add up to the Lagrange sum. */
  lemma SumValuesLagrange(F: Field, xs: seq<int>, ys: seq<int>, parts: seq<Result<seq<int>>>, k: nat, x: int)
    requires IsField(F) && Elts(F, xs) && Elts(F, ys) && |xs| == |ys| && Elt(F, x) && Distinct(xs)
    requires forall j :: 0 <= j < |xs| ==> Weight(F, xs, j) != 0
    requires PartsOk(F, parts) && k <= |parts| && k <= |xs|
    requires forall j :: 0 <= j < k ==> parts[j].Ok? && Horner(F, parts[j].value, x) == LagrangeTerm(F, xs, ys, j, x)
    ensures SumValues(F, parts, k, x) == LagrangeSum(F, xs, ys, k, x)
  {
    for i := 0 to k
      invariant SumValues(F, parts, i, x) == LagrangeSum(F, xs, ys, i, x)
    {
      assert parts[i].Ok? && Horner(F, parts[i].value, x) == LagrangeTerm(F, xs, ys, i, x);
    }
  }

  /**
   * fit raises ZeroDivisionError exactly when two points share an x
   * value (after coercion into the field), and otherwise returns a
   * polynomial.
   */
  lemma FitErrIffDuplicate(F: Field, points: seq<(int, int)>)
    requires IsField(F) && PointsCoercible(F, points)
    ensures FitSpec(F, points).Err? <==> !Distinct(Xs(F, points))
    ensures FitSpec(F, points).Err? ==> FitSpec(F, points).error == ZeroDivisionError
  {
    var xs, ys := Xs(F, points), Ys(F, points);
    var parts := Summands(F, xs, ys);
    AccumulateErr(F, parts, |points|);
    DistinctWeights(F, xs);
    if !Distinct(xs) {
      var j :| 0 <= j < |xs| && Weight(F, xs, j) == 0;
      assert parts[j].Err?;
    }
  }

  /**
   * The interpolation identity: for points with distinct x values, fit
   * returns a polynomial p with p(x_m) == y_m at every point.
   */
  lemma FitInterpolates(F: Field, points: seq<(int, int)>, m: nat)
    requires IsField(F) && PointsCoercible(F, points) && m < |points|
    requires Distinct(Xs(F, points))
    ensures FitSpec(F, points).Ok?
    ensures Horner(F, FitSpec(F, points).value, Xs(F, points)[m]) == Ys(F, points)[m]
  {
    var xs, ys := Xs(F, points), Ys(F, points);
    var parts := Summands(F, xs, ys);
    DistinctWeights(F, xs);
    AccumulateValue(F, parts, |points|, xs[m]);
    SummandsValue(F, xs, ys, xs[m]);
    LagrangeInterpolates(F, xs, ys, m);
  }

  /** fit's result is trimmed and has at most one coefficient per point: degree at most n - 1. */
  lemma FitShape(F: Field, points: seq<(int, int)>)
    requires WellFormed(F) && PointsCoercible(F, points)
    ensures FitSpec(F, points).Ok? ==> |FitSpec(F, points).value| <= |points|
    ensures FitSpec(F, points).Ok? ==> Trim(FitSpec(F, points).value) == FitSpec(F, points).value
  {
    var xs, ys := Xs(F, points), Ys(F, points);
    var parts := Summands(F, xs, ys);
    forall j | 0 <= j < |points|
      ensures parts[j].Ok? ==> |parts[j].value| <= |points|
    {
      SummandLength(F, xs, ys, j);
    }
    AccumulateLength(F, parts, |points|, |points|);
    AccumulateTrimmed(F, parts, |points|);
  }

  /**
   * Shares that are all zero fit the zero polynomial, whose coefficient
   * list trims to empty: over GF(13) the single share 1 --> 0 gives [],
   * on which PolyElt.Eval raises IndexError where EvalTotal gives 0.
   */
  lemma ZeroShareFit()
    ensures PointsCoercible(PrimeField(13), [(1, 0)])
    ensures FitSpec(PrimeField(13), [(1, 0)]) == Ok([])
  {
    var F, points := PrimeField(13), [(1, 0)];
    var xs, ys := [1], [0];
    assert Xs(F, points) == xs;
    assert Ys(F, points) == ys;
    assert Term(F, xs, 0, 1) == [1];
    assert Weight(F, xs, 0) == 1;
    assert Conv(F, [1], [0], 0) == 0;
    assert MulLists(F, [1], [0]) == [0];
    assert Scaled(F, xs, ys, 0) == [];
    assert Summand(F, xs, ys, 0) == Ok([]);
    assert Summands(F, xs, ys) == [Ok([])];
    assert AddLists(F, [], []) == [];
    assert Accumulate(F, [Ok([])], 1) == Ok([]);
    assert FitSpec(F, points) == Accumulate(F, Summands(F, xs, ys), 1);
  }

  /**
   * One turn of the inner loop of fit: for i != j, theterm is multiplied
   * by the factor (x - x_i) and theprod by (x_j - x_i).
   */
  method TermStepAt(F: Field, xvals: seq<int>, j: nat, i: nat, term: PolyElt, prod: int)
    returns (theterm: PolyElt, theprod: int)
    requires WellFormed(F) && Elts(F, xvals) && j < |xvals| && i < |xvals|
    requires term.Valid() && term.field == F && term.coeffs == Term(F, xvals, j, i)
    requires prod == Basis(F, xvals, j, i, xvals[j])
    ensures theterm.Valid() && theterm.field == F
    ensures theterm.coeffs == Term(F, xvals, j, i + 1)
    ensures theprod == Basis(F, xvals, j, i + 1, xvals[j])
  {
    TermNext(F, xvals, j, i);
    BasisNext(F, xvals, j, i, xvals[j]);
    theterm, theprod := term, prod;
    if i != j {
      FactorTrimmed(F, xvals[i]);
      var factor := new PolyElt(F, Factor(F, xvals[i]));
      theterm := term.Mul(factor);
      theprod := Fields.Mul(F, prod, Sub(F, xvals[j], xvals[i]));
    }
  }

  /** Before the inner loop: theterm is the polynomial 1 and theprod is 1. */
  method StartTerm(F: Field, xvals: seq<int>, j: nat) returns (theterm: PolyElt, theprod: int)
    requires WellFormed(F) && Elts(F, xvals) && j < |xvals|
    ensures theterm.Valid() && theterm.field == F
    ensures theterm.coeffs == Term(F, xvals, j, 0) == [1]
    ensures theprod == Basis(F, xvals, j, 0, xvals[j]) == 1
  {
    ConstantsAreElts(F);
    theterm := new PolyElt(F, [1]);
    theprod := Coerce(F, 1);
  }

  /**
   * The inner loop of fit: theterm collects the factors (x - x_i) and
   * theprod the differences (x_j - x_i), for every i != j.
   */
  method BuildTerm(F: Field, xvals: seq<int>, j: nat) returns (theterm: PolyElt, theprod: int)
    requires WellFormed(F) && Elts(F, xvals) && j < |xvals|
    ensures theterm.Valid() && theterm.field == F
    ensures theterm.coeffs == Term(F, xvals, j, |xvals|)
    ensures theprod == Weight(F, xvals, j)
  {
    theterm, theprod := StartTerm(F, xvals, j);
    for i := 0 to |xvals|
      invariant theprod == Basis(F, xvals, j, i, xvals[j])
      invariant theterm.Valid() && theterm.field == F && theterm.coeffs == Term(F, xvals, j, i)
    {
      theterm, theprod := TermStepAt(F, xvals, j, i, theterm, theprod);
    }
  }

  /** Once the accumulation has failed, later parts do not change the error. */
  lemma {:induction false} AccumulateErrStays(F: Field, parts: seq<Result<seq<int>>>, k: nat, n: nat)
    requires WellFormed(F) && PartsOk(F, parts) && k <= n <= |parts|
    requires Accumulate(F, parts, k).Err?
    ensures Accumulate(F, parts, n) == Accumulate(F, parts, k)
    decreases n - k
  {
    if k < n {
      AccumulateNext(F, parts, k);
      AccumulateErrStays(F, parts, k + 1, n);
    }
  }

  /**
   * The summand of point j as fit builds it: theterm * y_j, divided in
   * place by theprod, which raises ZeroDivisionError when theprod is zero.
   */
  method SummandPoly(F: Field, xvals: seq<int>, yvals: seq<int>, j: nat) returns (r: Result<PolyElt>)
    requires WellFormed(F) && Elts(F, xvals) && Elts(F, yvals) && |xvals| == |yvals| && j < |xvals|
    ensures r.Err? <==> Summand(F, xvals, yvals, j).Err?
    ensures r.Err? ==> r.error == ZeroDivisionError
    ensures r.Ok? ==> fresh(r.value) && r.value.Valid() && r.value.field == F
    ensures r.Ok? ==> r.value.coeffs == Summand(F, xvals, yvals, j).value
  {
    var theterm, theprod := BuildTerm(F, xvals, j);
    var yconst := new PolyElt.Constant(F, yvals[j]);
    var scaled := theterm.Mul(yconst);
    SummandIs(F, xvals, yvals, j);
    r := scaled.Div(theprod);
  }

  /**
   * One turn of the outer loop of fit: the summand of point j is added
   * to thepoly, or its division by a zero theprod raises.
   */
  method AddSummand(F: Field, xvals: seq<int>, yvals: seq<int>, j: nat, thepoly: PolyElt)
    returns (r: Result<PolyElt>)
    requires WellFormed(F) && Elts(F, xvals) && Elts(F, yvals) && |xvals| == |yvals| && j < |xvals|
    requires thepoly.Valid() && thepoly.field == F
    requires Accumulate(F, Summands(F, xvals, yvals), j) == Ok(thepoly.coeffs)
    ensures r.Err? ==> r.error == ZeroDivisionError
    ensures r.Err? ==> Accumulate(F, Summands(F, xvals, yvals), j + 1) == Err(ZeroDivisionError)
    ensures r.Ok? ==> fresh(r.value) && r.value.Valid() && r.value.field == F
    ensures r.Ok? ==> Accumulate(F, Summands(F, xvals, yvals), j + 1) == Ok(r.value.coeffs)
  {
    ghost var parts := Summands(F, xvals, yvals);
    var quotient := SummandPoly(F, xvals, yvals, j);
    assert parts[j] == Summand(F, xvals, yvals, j);
    AccumulateNext(F, parts, j);
    if quotient.Err? {
      return Err(quotient.error);
    }
    var sum := thepoly.Add(quotient.value);
    return Ok(sum);
  }

  /**
   * PolyFieldUniv.fit: for each point j, y_j * theterm / theprod is added
   * to thepoly; a zero theprod raises ZeroDivisionError.
   */
  method Fit(F: Field, thepoints: seq<(int, int)>) returns (r: Result<PolyElt>)
    requires WellFormed(F) && PointsCoercible(F, thepoints)
    ensures r.Err? <==> FitSpec(F, thepoints).Err?
    ensures r.Err? ==> r.error == ZeroDivisionError
    ensures r.Ok? ==> fresh(r.value) && r.value.Valid() && r.value.field == F &&
                      r.value.coeffs == FitSpec(F, thepoints).value
  {
    var thepoly := new PolyElt(F, []);
    var xvals := Xs(F, thepoints);
    var yvals := Ys(F, thepoints);
    ghost var parts := Summands(F, xvals, yvals);
    var ptslen := |xvals|;
    for j := 0 to ptslen
      invariant fresh(thepoly) && thepoly.Valid() && thepoly.field == F
      invariant Accumulate(F, parts, j) == Ok(thepoly.coeffs)
    {
      var next := AddSummand(F, xvals, yvals, j, thepoly);
      if next.Err? {
        AccumulateErrStays(F, parts, j + 1, ptslen);
        return Err(next.error);
      }
      thepoly := next.value;
    }
    return Ok(thepoly);
  }
}
