/**
 * The list-based interpolation of shamirshare2.py: fit keeps theterm and
 * thepoly as buffers of exactly n coefficients and updates them in place,
 * multiplying theterm by (x - x_j) with a synthetic-multiplication loop;
 * eval is Horner's rule on a plain list.
 */
module Shamir2 {
  import opened Errors
  import opened Fields
  import opened PolyLists
  import opened Lagrange
  import opened Poly

  /** The first n coefficients of c, with zeros past its end. */
  function Padded(F: Field, c: seq<int>, n: nat): (r: seq<int>)
    requires WellFormed(F) && Elts(F, c)
    ensures |r| == n && Elts(F, r)
  {
    seq(n, k requires 0 <= k => Pad(F, c, k))
  }

  lemma PadPadded(F: Field, c: seq<int>, n: nat, k: nat)
    requires WellFormed(F) && Elts(F, c)
    ensures Pad(F, Padded(F, c, n), k) == if k < n then Pad(F, c, k) else 0
  {}

  /** thepoly[k] + theterm[k] * q at every k: the last loop of fit's outer turn. */
  function AddTimes(F: Field, p: seq<int>, t: seq<int>, q: int): (r: seq<int>)
    requires WellFormed(F) && Elts(F, p) && Elts(F, t) && |p| == |t| && Elt(F, q)
    ensures |r| == |p| && Elts(F, r)
  {
    seq(|p|, k requires 0 <= k < |p| => Fields.Add(F, p[k], Fields.Mul(F, t[k], q)))
  }

  // ------------------------------------------------ multiplying by (x - c)

  lemma NegMulZero(F: Field, c: int)
    requires WellFormed(F) && Elt(F, c)
    ensures Elt(F, 0) && Neg(F, Fields.Mul(F, 0, c)) == 0
  {
    ConstantsAreElts(F);
    MulOneZero(F, c);
    AddNeg(F, 0, 0);
    AddZero(F, Neg(F, 0));
  }

  lemma FactorLow(F: Field, a: seq<int>, c: int, d: nat)
    requires WellFormed(F) && Elts(F, a) && Elt(F, c) && d < |a|
    ensures Conv(F, a, Factor(F, c), d) ==
            Fields.Add(F, Neg(F, Fields.Mul(F, a[d], c)), if d == 0 then 0 else a[d - 1])
  {
    var f := Factor(F, c);
    ConstantsAreElts(F);
    MulNeg(F, a[d], c);
    var m := Fields.Mul(F, a[d], f[0]);
    assert ConvSum(F, a, f, d, 0, 1) == Fields.Add(F, 0, m);
    AddZero(F, m);
    if d == 0 {
      assert Conv(F, a, f, d) == ConvSum(F, a, f, d, 0, 1);
    } else {
      assert Conv(F, a, f, d) == Fields.Add(F, ConvSum(F, a, f, d, 0, 1), Fields.Mul(F, a[d - 1], f[1]));
      MulOneZero(F, a[d - 1]);
    }
  }

  lemma FactorTop(F: Field, a: seq<int>, c: int)
    requires WellFormed(F) && Elts(F, a) && Elt(F, c) && 0 < |a|
    ensures Conv(F, a, Factor(F, c), |a|) == Fields.Add(F, Neg(F, Fields.Mul(F, 0, c)), a[|a| - 1])
  {
    var f := Factor(F, c);
    var d := |a|;
    NegMulZero(F, c);
    assert Conv(F, a, f, d) == Fields.Add(F, ConvSum(F, a, f, d, 1, 1), Fields.Mul(F, a[d - 1], f[1]));
    MulOneZero(F, a[d - 1]);
    AddZero(F, a[d - 1]);
  }

  lemma FactorBeyond(F: Field, a: seq<int>, c: int, d: nat)
    requires WellFormed(F) && Elts(F, a) && Elt(F, c) && (|a| < d || d == |a| == 0)
    ensures Conv(F, a, Factor(F, c), d) ==
            Fields.Add(F, Neg(F, Fields.Mul(F, 0, c)), if d == 0 then 0 else Pad(F, a, d - 1))
  {
    NegMulZero(F, c);
    AddZero(F, 0);
  }

  /**
   * Coefficient d of (x - c) * a is a[d-1] - c * a[d], written as the
   * loop computes it: -(a[d] * c) + a[d-1].
   */
  lemma FactorCoefficient(F: Field, a: seq<int>, c: int, d: nat)
    requires WellFormed(F) && Elts(F, a) && Elt(F, c)
    ensures Pad(F, MulLists(F, a, Factor(F, c)), d) ==
            Fields.Add(F, Neg(F, Fields.Mul(F, Pad(F, a, d), c)), if d == 0 then 0 else Pad(F, a, d - 1))
  {
    MulListsPad(F, a, Factor(F, c), d);
    if d < |a| {
      FactorLow(F, a, c, d);
    } else if d == |a| && d > 0 {
      FactorTop(F, a, c);
    } else {
      FactorBeyond(F, a, c, d);
    }
  }

  /**
   * The buffer before turn k of the k loop (k = n-1 first): below k the
   * old coefficients, at k the old one times -c (untouched at the top),
   * above k the product's coefficients.
   */
  function Partial(F: Field, t: seq<int>, c: int, k: nat): (r: seq<int>)
    requires WellFormed(F) && Elts(F, t) && Elt(F, c) && k < |t|
    ensures |r| == |t| && Elts(F, r)
  {
    seq(|t|, m requires 0 <= m < |t| => PartialAt(F, t, c, k, m))
  }

  function PartialAt(F: Field, t: seq<int>, c: int, k: nat, m: nat): (r: int)
    requires WellFormed(F) && Elts(F, t) && Elt(F, c) && k < |t| && m < |t|
    ensures Elt(F, r)
  {
    if m < k then t[m]
    else if m == k then (if k == |t| - 1 then t[k] else Neg(F, Fields.Mul(F, t[k], c)))
    else Pad(F, MulLists(F, t, Factor(F, c)), m)
  }

  /** Turn k puts coefficient k of the product in place and readies k - 1. */
  lemma PartialStep(F: Field, t: seq<int>, c: int, k: nat)
    requires WellFormed(F) && Elts(F, t) && Elt(F, c) && 0 < k < |t| && t[|t| - 1] == 0
    ensures var p := Partial(F, t, c, k);
            p[k := Fields.Add(F, p[k], p[k - 1])][k - 1 := Neg(F, Fields.Mul(F, p[k - 1], c))] ==
            Partial(F, t, c, k - 1)
  {
    FactorCoefficient(F, t, c, k);
    NegMulZero(F, c);
  }

  /** Before the first turn the buffer is untouched. */
  lemma PartialStart(F: Field, t: seq<int>, c: int)
    requires WellFormed(F) && Elts(F, t) && Elt(F, c) && 0 < |t|
    ensures Partial(F, t, c, |t| - 1) == t
  {}

  /** After the last turn coefficient 0 is -(t[0] * c): the buffer holds the product. */
  lemma PartialEnd(F: Field, t: seq<int>, c: int)
    requires WellFormed(F) && Elts(F, t) && Elt(F, c) && 0 < |t| && t[|t| - 1] == 0
    ensures Partial(F, t, c, 0) == Padded(F, MulLists(F, t, Factor(F, c)), |t|)
  {
    FactorCoefficient(F, t, c, 0);
    NegMulZero(F, c);
    AddZero(F, Neg(F, Fields.Mul(F, t[0], c)));
  }

  /**
   * The k loop of fit, for k from n-1 down to 1: theterm[k] += theterm[k-1]
   * and theterm[k-1] = -(theterm[k-1] * c).  With a zero top coefficient
   * (theterm has degree below n-1) the buffer ends up holding the first n
   * coefficients of (x - c) * theterm.
   */
  method MulFactor(F: Field, theterm: array<int>, c: int)
    requires WellFormed(F) && Elts(F, theterm[..]) && Elt(F, c)
    requires theterm.Length > 0 && theterm[theterm.Length - 1] == 0
    modifies theterm
    ensures theterm[..] == Padded(F, MulLists(F, old(theterm[..]), Factor(F, c)), theterm.Length)
  {
    ghost var t := theterm[..];
    PartialStart(F, t, c);
    var k := theterm.Length - 1;
    while k > 0
      invariant 0 <= k < theterm.Length
      invariant theterm[..] == Partial(F, t, c, k)
    {
      PartialStep(F, t, c, k);
      theterm[k] := Fields.Add(F, theterm[k], theterm[k - 1]);
      theterm[k - 1] := Neg(F, Fields.Mul(F, theterm[k - 1], c));
      k := k - 1;
    }
    PartialEnd(F, t, c);
  }

  // --------------------------------------------------------- one point's term

  /** Coefficient d of (x - c) * a depends only on coefficients d and d - 1 of a. */
  lemma FactorAgree(F: Field, a: seq<int>, b: seq<int>, c: int, d: nat)
    requires WellFormed(F) && Elts(F, a) && Elts(F, b) && Elt(F, c)
    requires Pad(F, a, d) == Pad(F, b, d)
    requires d > 0 ==> Pad(F, a, d - 1) == Pad(F, b, d - 1)
    ensures Pad(F, MulLists(F, a, Factor(F, c)), d) == Pad(F, MulLists(F, b, Factor(F, c)), d)
  {
    FactorCoefficient(F, a, c, d);
    FactorCoefficient(F, b, c, d);
  }

  /** Below n, the padded t has t's coefficients, so the products agree there. */
  lemma PaddedFactorAt(F: Field, t: seq<int>, c: int, n: nat, k: nat)
    requires WellFormed(F) && Elts(F, t) && Elt(F, c) && k < n
    ensures Pad(F, MulLists(F, Padded(F, t, n), Factor(F, c)), k) == Pad(F, MulLists(F, t, Factor(F, c)), k)
  {
    PadPadded(F, t, n, k);
    if k > 0 {
      PadPadded(F, t, n, k - 1);
    }
    FactorAgree(F, Padded(F, t, n), t, c, k);
  }

  /** Lists with the same first n coefficients pad to the same n coefficients. */
  lemma PaddedSame(F: Field, a: seq<int>, b: seq<int>, n: nat)
    requires WellFormed(F) && Elts(F, a) && Elts(F, b)
    requires forall k :: 0 <= k < n ==> Pad(F, a, k) == Pad(F, b, k)
    ensures Padded(F, a, n) == Padded(F, b, n)
  {}

  /** Multiplying the padded list t by (x - c) pads the trimmed product. */
  lemma PaddedTimesFactor(F: Field, t: seq<int>, c: int, n: nat)
    requires WellFormed(F) && Elts(F, t) && Elt(F, c)
    ensures Elts(F, Trim(MulLists(F, t, Factor(F, c))))
    ensures Padded(F, MulLists(F, Padded(F, t, n), Factor(F, c)), n) ==
            Padded(F, Trim(MulLists(F, t, Factor(F, c))), n)
  {
    var m := MulLists(F, t, Factor(F, c));
    var mp := MulLists(F, Padded(F, t, n), Factor(F, c));
    TrimPad(F, m);
    forall k | 0 <= k < n
      ensures Pad(F, mp, k) == Pad(F, Trim(m), k)
    {
      PaddedFactorAt(F, t, c, n, k);
    }
    PaddedSame(F, mp, Trim(m), n);
  }

  /**
   * theterm of fit after the j loop has run over j < m, as the buffer
   * holds it: it starts as [1, 0, ..., 0] and, for every j != i, the k
   * loop multiplies it by (x - x_j).
   */
  function TermBuffer(F: Field, xs: seq<int>, i: nat, m: nat): (r: seq<int>)
    requires WellFormed(F) && Elts(F, xs) && i < |xs| && m <= |xs|
    ensures |r| == |xs| && Elts(F, r)
  {
    ConstantsAreElts(F);
    if m == 0 then Padded(F, [1], |xs|)
    else if m - 1 == i then TermBuffer(F, xs, i, m - 1)
    else Padded(F, MulLists(F, TermBuffer(F, xs, i, m - 1), Factor(F, xs[m - 1])), |xs|)
  }

  lemma TermBufferStep(F: Field, xs: seq<int>, i: nat, j: nat)
    requires WellFormed(F) && Elts(F, xs) && i < |xs| && j < |xs|
    requires TermBuffer(F, xs, i, j) == Padded(F, Term(F, xs, i, j), |xs|)
    ensures TermBuffer(F, xs, i, j + 1) == Padded(F, Term(F, xs, i, j + 1), |xs|)
  {
    TermNext(F, xs, i, j);
    if i != j {
      PaddedTimesFactor(F, Term(F, xs, i, j), xs[j], |xs|);
    }
  }

  /**
   * The buffer holds the first fit's theterm, padded with zeros: the two
   * ways of multiplying in the factors (x - x_j) agree.
   */
  lemma TermBufferIsTerm(F: Field, xs: seq<int>, i: nat, m: nat)
    requires WellFormed(F) && Elts(F, xs) && i < |xs| && m <= |xs|
    ensures TermBuffer(F, xs, i, m) == Padded(F, Term(F, xs, i, m), |xs|)
  {
    assert Term(F, xs, i, 0) == [1];
    for j := 0 to m
      invariant TermBuffer(F, xs, i, j) == Padded(F, Term(F, xs, i, j), |xs|)
    {
      TermBufferStep(F, xs, i, j);
    }
  }

  /**
   * Before a factor (x - x_j), j != i, is multiplied in, at most n - 2
   * factors are in the term, so the top coefficient is still zero.
   */
  lemma TermBufferRoom(F: Field, xs: seq<int>, i: nat, j: nat)
    requires WellFormed(F) && Elts(F, xs) && i < |xs| && j < |xs| && i != j
    ensures var t := TermBuffer(F, xs, i, j); 0 < |t| && t[|t| - 1] == 0
  {
    TermBufferIsTerm(F, xs, i, j);
    TermLength(F, xs, i, j);
  }

  /** Multiplying in the factor (x - x_j), j != i, is one step of the buffer function. */
  lemma TermBufferNext(F: Field, xs: seq<int>, i: nat, j: nat)
    requires WellFormed(F) && Elts(F, xs) && i < |xs| && j < |xs| && i != j
    ensures TermBuffer(F, xs, i, j + 1) == Padded(F, MulLists(F, TermBuffer(F, xs, i, j), Factor(F, xs[j])), |xs|)
  {}

  /**
   * The buffer t before the factor (x - x_j), j != i, is multiplied in:
   * its top coefficient is zero, and the product is the next buffer.
   */
  lemma TermFactorReady(F: Field, xs: seq<int>, i: nat, j: nat, t: seq<int>)
    requires WellFormed(F) && Elts(F, xs) && i < |xs| && j < |xs| && i != j
    requires t == TermBuffer(F, xs, i, j)
    ensures Elts(F, t) && Elt(F, xs[j]) && |t| > 0 && t[|t| - 1] == 0
    ensures TermBuffer(F, xs, i, j + 1) == Padded(F, MulLists(F, t, Factor(F, xs[j])), |t|)
  {
    TermBufferRoom(F, xs, i, j);
    TermBufferNext(F, xs, i, j);
  }

  /** MulFactor with the product named in advance: theterm ends up holding u. */
  method MulFactorInto(F: Field, theterm: array<int>, c: int, ghost u: seq<int>)
    requires WellFormed(F) && Elts(F, theterm[..]) && Elt(F, c)
    requires |theterm[..]| > 0 && theterm[..][|theterm[..]| - 1] == 0
    requires u == Padded(F, MulLists(F, theterm[..], Factor(F, c)), |theterm[..]|)
    modifies theterm
    ensures theterm[..] == u
  {
    MulFactor(F, theterm, c);
  }

  /** For j != i, the k loop multiplies theterm in place by (x - x_j). */
  method MulTermFactor(F: Field, xvals: seq<int>, i: nat, j: nat, theterm: array<int>)
    requires WellFormed(F) && Elts(F, xvals) && i < |xvals| && j < |xvals| && i != j
    requires theterm[..] == TermBuffer(F, xvals, i, j)
    modifies theterm
    ensures theterm[..] == TermBuffer(F, xvals, i, j + 1)
  {
    TermFactorReady(F, xvals, i, j, theterm[..]);
    MulFactorInto(F, theterm, xvals[j], TermBuffer(F, xvals, i, j + 1));
  }

  /**
   * One turn of the j loop of fit: for j != i, theterm is multiplied in
   * place by (x - x_j) and theprod by (x_i - x_j).
   */
  method TermStep(F: Field, xvals: seq<int>, i: nat, j: nat, theterm: array<int>, prod: int)
    returns (theprod: int)
    requires WellFormed(F) && Elts(F, xvals) && i < |xvals| && j < |xvals|
    requires theterm[..] == TermBuffer(F, xvals, i, j)
    requires prod == Basis(F, xvals, i, j, xvals[i])
    modifies theterm
    ensures theterm[..] == TermBuffer(F, xvals, i, j + 1)
    ensures theprod == Basis(F, xvals, i, j + 1, xvals[i])
  {
    BasisNext(F, xvals, i, j, xvals[i]);
    theprod := prod;
    if i != j {
      MulTermFactor(F, xvals, i, j, theterm);
      theprod := Fields.Mul(F, prod, Sub(F, xvals[i], xvals[j]));
    }
  }

  /** theterm = [1] + (n-1) * [0]: the constant polynomial 1 in a buffer of n coefficients. */
  method NewTerm(F: Field, n: nat) returns (theterm: array<int>)
    requires WellFormed(F) && 0 < n
    ensures fresh(theterm) && Elts(F, [1])
    ensures theterm[..] == Padded(F, [1], n)
  {
    ConstantsAreElts(F);
    theterm := new int[n](k => if k == 0 then 1 else 0);
    assert theterm[..] == Padded(F, [1], n);
  }

  /**
   * theterm starts as [1, 0, ..., 0] and theprod as 1; the j loop leaves
   * the basis numerator of point i in theterm and its weight in theprod.
   */
  method BuildTerm(F: Field, xvals: seq<int>, i: nat, theterm: array<int>) returns (theprod: int)
    requires WellFormed(F) && Elts(F, xvals) && i < |xvals|
    requires theterm[..] == TermBuffer(F, xvals, i, 0)
    modifies theterm
    ensures theterm[..] == TermBuffer(F, xvals, i, |xvals|)
    ensures theprod == Weight(F, xvals, i)
  {
    theprod := 1;
    for j := 0 to |xvals|
      invariant theterm[..] == TermBuffer(F, xvals, i, j)
      invariant theprod == Basis(F, xvals, i, j, xvals[i])
    {
      theprod := TermStep(F, xvals, i, j, theterm, theprod);
    }
  }

  // ------------------------------------------------------------ the points

  /**
   * thepoly of fit after the outer loop has run over i < m: n zeros to
   * start with, then theterm * (y_i / theprod) added for each point, or
   * the ZeroDivisionError of the first division by a zero theprod.
   */
  function PolyBuffer(F: Field, xs: seq<int>, ys: seq<int>, m: nat): (r: Result<seq<int>>)
    requires WellFormed(F) && Elts(F, xs) && Elts(F, ys) && |xs| == |ys| && m <= |xs|
    ensures r.Ok? ==> |r.value| == |xs| && Elts(F, r.value)
    ensures r.Err? ==> r.error == ZeroDivisionError
  {
    if m == 0 then Ok(Padded(F, [], |xs|))
    else
      match PolyBuffer(F, xs, ys, m - 1)
      case Err(e) => Err(e)
      case Ok(p) =>
        match Fields.Div(F, ys[m - 1], Weight(F, xs, m - 1))
        case Err(e) => Err(e)
        case Ok(q) => Ok(AddTimes(F, p, TermBuffer(F, xs, m - 1, |xs|), q))
  }

  lemma {:induction false} PolyBufferErrStays(F: Field, xs: seq<int>, ys: seq<int>, k: nat, m: nat)
    requires WellFormed(F) && Elts(F, xs) && Elts(F, ys) && |xs| == |ys| && k <= m <= |xs|
    requires PolyBuffer(F, xs, ys, k).Err?
    ensures PolyBuffer(F, xs, ys, m) == PolyBuffer(F, xs, ys, k)
    decreases m - k
  {
    if k < m {
      PolyBufferErrStays(F, xs, ys, k + 1, m);
    }
  }

  /** The coefficients of one point's summand in the first fit, one by one. */
  lemma ConvSingle(F: Field, a: seq<int>, y: int, k: nat)
    requires WellFormed(F) && Elts(F, a) && Elt(F, y)
    ensures Conv(F, a, [y], k) == Fields.Mul(F, Pad(F, a, k), y)
  {
    ConstantsAreElts(F);
    MulOneZero(F, y);
    if k < |a| {
      assert Conv(F, a, [y], k) == Fields.Add(F, ConvSum(F, a, [y], k, 0, 0), Fields.Mul(F, a[k], y));
      AddZero(F, Fields.Mul(F, a[k], y));
    }
  }

  lemma DivZero(F: Field, w: int)
    requires WellFormed(F) && Elt(F, w) && w != 0
    ensures Elt(F, 0) && Fields.Div(F, 0, w) == Ok(0)
  {
    ConstantsAreElts(F);
    DivIsMulInv(F, 0, w);
    MulOneZero(F, Inv(F, w).value);
  }

  /**
   * Coefficient k of the first fit's summand (y_i * theterm) / theprod is
   * theterm[k] * (y_i / theprod), as the second fit computes it.
   */
  lemma SummandCoefficient(F: Field, xs: seq<int>, ys: seq<int>, i: nat, k: nat)
    requires WellFormed(F) && Elts(F, xs) && Elts(F, ys) && |xs| == |ys| && i < |xs|
    requires Weight(F, xs, i) != 0
    ensures Pad(F, Summand(F, xs, ys, i).value, k) ==
            Fields.Mul(F, Pad(F, Term(F, xs, i, |xs|), k), Fields.Div(F, ys[i], Weight(F, xs, i)).value)
  {
    var t := Term(F, xs, i, |xs|);
    var w := Weight(F, xs, i);
    var m := MulLists(F, t, [ys[i]]);
    SummandIs(F, xs, ys, i);
    TrimPad(F, m);
    MulListsPad(F, t, [ys[i]], k);
    ConvSingle(F, t, ys[i], k);
    MulDivAssociative(F, Pad(F, t, k), ys[i], w);
    if k >= |Trim(m)| {
      DivZero(F, w);
    }
  }

  /** One more point keeps the buffer equal to the first fit's thepoly, padded. */
  lemma PolyBufferStep(F: Field, xs: seq<int>, ys: seq<int>, m: nat)
    requires WellFormed(F) && Elts(F, xs) && Elts(F, ys) && |xs| == |ys| && m < |xs|
    requires PolyBuffer(F, xs, ys, m).Ok? && Accumulate(F, Summands(F, xs, ys), m).Ok?
    requires PolyBuffer(F, xs, ys, m).value == Padded(F, Accumulate(F, Summands(F, xs, ys), m).value, |xs|)
    ensures PolyBuffer(F, xs, ys, m + 1).Ok? <==> Accumulate(F, Summands(F, xs, ys), m + 1).Ok?
    ensures PolyBuffer(F, xs, ys, m + 1).Ok? ==>
      PolyBuffer(F, xs, ys, m + 1).value == Padded(F, Accumulate(F, Summands(F, xs, ys), m + 1).value, |xs|)
  {
    var n := |xs|;
    var parts := Summands(F, xs, ys);
    AccumulateNext(F, parts, m);
    assert parts[m] == Summand(F, xs, ys, m);
    var w := Weight(F, xs, m);
    if w != 0 {
      var p := Accumulate(F, parts, m).value;
      var s := Summand(F, xs, ys, m).value;
      var q := Fields.Div(F, ys[m], w).value;
      TermBufferIsTerm(F, xs, m, n);
      TrimPad(F, AddLists(F, p, s));
      AddListsPad(F, p, s);
      var next := AddTimes(F, PolyBuffer(F, xs, ys, m).value, TermBuffer(F, xs, m, n), q);
      forall k | 0 <= k < n
        ensures next[k] == Pad(F, Trim(AddLists(F, p, s)), k)
      {
        SummandCoefficient(F, xs, ys, m, k);
      }
      assert next == Padded(F, Trim(AddLists(F, p, s)), n);
    }
  }

  /**
   * The two fits agree: the buffer fails exactly when the first fit
   * fails, and otherwise holds the first fit's thepoly padded to n.
   */
  lemma PolyBufferIsAccumulate(F: Field, xs: seq<int>, ys: seq<int>, m: nat)
    requires WellFormed(F) && Elts(F, xs) && Elts(F, ys) && |xs| == |ys| && m <= |xs|
    ensures PolyBuffer(F, xs, ys, m).Ok? <==> Accumulate(F, Summands(F, xs, ys), m).Ok?
    ensures PolyBuffer(F, xs, ys, m).Ok? ==>
      PolyBuffer(F, xs, ys, m).value == Padded(F, Accumulate(F, Summands(F, xs, ys), m).value, |xs|)
  {
    var parts := Summands(F, xs, ys);
    for i := 0 to m
      invariant PolyBuffer(F, xs, ys, i).Ok? <==> Accumulate(F, parts, i).Ok?
      invariant PolyBuffer(F, xs, ys, i).Ok? ==>
        PolyBuffer(F, xs, ys, i).value == Padded(F, Accumulate(F, parts, i).value, |xs|)
    {
      if PolyBuffer(F, xs, ys, i).Ok? {
        PolyBufferStep(F, xs, ys, i);
      } else {
        AccumulateNext(F, parts, i);
      }
    }
  }

  /** The last loop of an outer turn: thepoly[k] += theterm[k] * theprod, in place. */
  method AddScaled(F: Field, thepoly: array<int>, theterm: array<int>, theprod: int)
    requires WellFormed(F) && thepoly != theterm && thepoly.Length == theterm.Length
    requires Elts(F, thepoly[..]) && Elts(F, theterm[..]) && Elt(F, theprod)
    modifies thepoly
    ensures thepoly[..] == AddTimes(F, old(thepoly[..]), theterm[..], theprod)
  {
    ghost var start := thepoly[..];
    for k := 0 to thepoly.Length
      invariant forall m :: 0 <= m < k ==>
        thepoly[m] == Fields.Add(F, start[m], Fields.Mul(F, theterm[m], theprod))
      invariant forall m :: k <= m < thepoly.Length ==> thepoly[m] == start[m]
    {
      thepoly[k] := Fields.Add(F, thepoly[k], Fields.Mul(F, theterm[k], theprod));
    }
    assert thepoly[..] == AddTimes(F, start, theterm[..], theprod);
  }

  /**
   * One more point from the buffer p: point i's term t and weight w give
   * either the ZeroDivisionError that then stays, or p + t * (y_i / w).
   */
  lemma PolyBufferNext(F: Field, xs: seq<int>, ys: seq<int>, i: nat, p: seq<int>, t: seq<int>, w: int)
    requires WellFormed(F) && Elts(F, xs) && Elts(F, ys) && |xs| == |ys| && i < |xs|
    requires PolyBuffer(F, xs, ys, i) == Ok(p) && t == TermBuffer(F, xs, i, |xs|) && w == Weight(F, xs, i)
    ensures Elts(F, p) && Elts(F, t) && |p| == |t| && Elt(F, ys[i]) && Elt(F, w)
    ensures Fields.Div(F, ys[i], w).Err? ==> PolyBuffer(F, xs, ys, |xs|) == Err(Fields.Div(F, ys[i], w).error)
    ensures Fields.Div(F, ys[i], w).Ok? ==>
      PolyBuffer(F, xs, ys, i + 1) == Ok(AddTimes(F, p, t, Fields.Div(F, ys[i], w).value))
  {
    if Fields.Div(F, ys[i], w).Err? {
      PolyBufferErrStays(F, xs, ys, i + 1, |xs|);
    }
  }

  /** AddScaled with the sum named in advance: thepoly ends up holding u. */
  method AddScaledInto(F: Field, thepoly: array<int>, theterm: array<int>, theprod: int, ghost u: seq<int>)
    requires WellFormed(F) && thepoly != theterm && thepoly.Length == theterm.Length
    requires Elts(F, thepoly[..]) && Elts(F, theterm[..]) && Elt(F, theprod)
    requires u == AddTimes(F, thepoly[..], theterm[..], theprod)
    modifies thepoly
    ensures thepoly[..] == u
  {
    AddScaled(F, thepoly, theterm, theprod);
  }

  /** One turn of fit's outer loop: build point i's term and add its share to thepoly. */
  method AddPoint(F: Field, xvals: seq<int>, yvals: seq<int>, i: nat, thepoly: array<int>)
    returns (r: Result<()>)
    requires WellFormed(F) && Elts(F, xvals) && Elts(F, yvals) && |xvals| == |yvals| && i < |xvals|
    requires PolyBuffer(F, xvals, yvals, i) == Ok(thepoly[..])
    modifies thepoly
    ensures r.Ok? ==> PolyBuffer(F, xvals, yvals, i + 1) == Ok(thepoly[..])
    ensures r.Err? ==> PolyBuffer(F, xvals, yvals, |xvals|) == Err(r.error)
  {
    var theterm := NewTerm(F, |xvals|);
    var theprod := BuildTerm(F, xvals, i, theterm);
    PolyBufferNext(F, xvals, yvals, i, thepoly[..], theterm[..], theprod);
    var q := Fields.Div(F, yvals[i], theprod);
    if q.Err? {
      return Err(q.error);
    }
    AddScaledInto(F, thepoly, theterm, q.value, AddTimes(F, thepoly[..], theterm[..], q.value));
    return Ok(());
  }

  /**
   * fit's outer loop over the points, on a buffer of n zeros: it stops at
   * the first ZeroDivisionError, which is then what the buffer function
   * gives for all n points.
   */
  method Interpolate(F: Field, xvals: seq<int>, yvals: seq<int>, thepoly: array<int>)
    returns (r: Result<()>)
    requires WellFormed(F) && Elts(F, xvals) && Elts(F, yvals) && |xvals| == |yvals|
    requires PolyBuffer(F, xvals, yvals, 0) == Ok(thepoly[..])
    modifies thepoly
    ensures r.Ok? ==> PolyBuffer(F, xvals, yvals, |xvals|) == Ok(thepoly[..])
    ensures r.Err? ==> PolyBuffer(F, xvals, yvals, |xvals|) == Err(r.error)
  {
    for i := 0 to |xvals|
      invariant PolyBuffer(F, xvals, yvals, i) == Ok(thepoly[..])
    {
      r := AddPoint(F, xvals, yvals, i, thepoly);
      if r.Err? {
        return;
      }
    }
    return Ok(());
  }

  /** The field fit works in: the one given, else the field of the first y value. */
  function FitField(thefield: Option<Field>, yfield: Field): Field
  {
    if thefield.Some? then thefield.value else yfield
  }

  /** What fit of shamirshare2.py returns, as a function of the points. */
  function Fit2Spec(F: Field, thepoints: seq<(int, int)>): (r: Result<seq<int>>)
    requires WellFormed(F) && PointsCoercible(F, thepoints)
    ensures r.Ok? ==> |r.value| == |thepoints| && Elts(F, r.value)
  {
    PolyBuffer(F, Xs(F, thepoints), Ys(F, thepoints), |thepoints|)
  }

  /**
   * fit(thepoints, thefield): with no field given the field is that of the
   * first y value, so an empty list of points raises IndexError; otherwise
   * the n coefficients of the interpolating polynomial, or
   * ZeroDivisionError.  yfield is the field the y values belong to.
   */
  method Fit(thepoints: seq<(int, int)>, thefield: Option<Field>, yfield: Field)
    returns (r: Result<seq<int>>)
    requires WellFormed(FitField(thefield, yfield))
    requires PointsCoercible(FitField(thefield, yfield), thepoints)
    ensures thefield.None? && |thepoints| == 0 ==> r == Err(IndexError)
    ensures thefield.Some? || |thepoints| > 0 ==> r == Fit2Spec(FitField(thefield, yfield), thepoints)
  {
    if thefield.None? && |thepoints| == 0 {
      return Err(IndexError);
    }
    var F := FitField(thefield, yfield);
    var ptslen := |thepoints|;
    var xvals := Xs(F, thepoints);
    var yvals := Ys(F, thepoints);
    var thepoly := NewPoly(F, ptslen);
    var res := Interpolate(F, xvals, yvals, thepoly);
    if res.Err? {
      return Err(res.error);
    }
    return Ok(thepoly[..]);
  }

  /** thepoly = n * [0]. */
  method NewPoly(F: Field, n: nat) returns (thepoly: array<int>)
    requires WellFormed(F)
    ensures fresh(thepoly)
    ensures thepoly[..] == Padded(F, [], n)
  {
    thepoly := new int[n](k => 0);
    assert thepoly[..] == Padded(F, [], n);
  }

  // ------------------------------------------------------------ what fit promises

  lemma {:induction false} TrimPadded(F: Field, c: seq<int>, n: nat)
    requires WellFormed(F) && Elts(F, c) && |c| <= n && Trim(c) == c
    ensures Trim(Padded(F, c, n)) == c
    decreases n - |c|
  {
    if |c| < n {
      var p := Padded(F, c, n);
      assert p[n - 1] == 0;
      assert p[..n - 1] == Padded(F, c, n - 1);
      TrimPadded(F, c, n - 1);
    } else {
      assert Padded(F, c, n) == c;
    }
  }

  /**
   * The two fits agree: the list fit fails exactly when the polynomial
   * fit does, and otherwise returns the same coefficients padded with
   * zeros to n, which trimming takes back off.
   */
  lemma FitsAgree(F: Field, thepoints: seq<(int, int)>)
    requires WellFormed(F) && PointsCoercible(F, thepoints)
    ensures Fit2Spec(F, thepoints).Ok? <==> FitSpec(F, thepoints).Ok?
    ensures Fit2Spec(F, thepoints).Ok? ==>
      Fit2Spec(F, thepoints).value == Padded(F, FitSpec(F, thepoints).value, |thepoints|) &&
      Trim(Fit2Spec(F, thepoints).value) == FitSpec(F, thepoints).value
  {
    PolyBufferIsAccumulate(F, Xs(F, thepoints), Ys(F, thepoints), |thepoints|);
    FitShape(F, thepoints);
    if FitSpec(F, thepoints).Ok? {
      TrimPadded(F, FitSpec(F, thepoints).value, |thepoints|);
    }
  }

  /** The list fit raises ZeroDivisionError exactly when two x values coincide. */
  lemma Fit2ErrIffDuplicate(F: Field, thepoints: seq<(int, int)>)
    requires IsField(F) && PointsCoercible(F, thepoints)
    ensures Fit2Spec(F, thepoints).Err? <==> !Distinct(Xs(F, thepoints))
    ensures Fit2Spec(F, thepoints).Err? ==> Fit2Spec(F, thepoints).error == ZeroDivisionError
  {
    FitsAgree(F, thepoints);
    FitErrIffDuplicate(F, thepoints);
  }

  /** For distinct x values the list fit passes through every point. */
  lemma Fit2Interpolates(F: Field, thepoints: seq<(int, int)>, m: nat)
    requires IsField(F) && PointsCoercible(F, thepoints) && m < |thepoints|
    requires Distinct(Xs(F, thepoints))
    ensures Fit2Spec(F, thepoints).Ok?
    ensures Horner(F, Fit2Spec(F, thepoints).value, Xs(F, thepoints)[m]) == Ys(F, thepoints)[m]
  {
    FitsAgree(F, thepoints);
    FitInterpolates(F, thepoints, m);
    var c := FitSpec(F, thepoints).value;
    forall k: nat ensures Pad(F, Padded(F, c, |thepoints|), k) == Pad(F, c, k) {
      PadPadded(F, c, |thepoints|, k);
      FitShape(F, thepoints);
    }
    HornerPadded(F, Padded(F, c, |thepoints|), c, Xs(F, thepoints)[m]);
  }

  // ------------------------------------------------------------ eval

  /**
   * eval(poly, xvalue) by Horner's rule from the top coefficient down; an
   * empty list raises IndexError, since its top coefficient is read first.
   */
  method Eval(F: Field, poly: seq<int>, xvalue: int) returns (r: Result<int>)
    requires WellFormed(F) && Elts(F, poly) && Coercible(F, xvalue)
    ensures |poly| == 0 ==> r == Err(IndexError)
    ensures |poly| > 0 ==> r == Ok(PowerSum(F, poly, Coerce(F, xvalue), |poly|))
  {
    if |poly| == 0 {
      return Err(IndexError);
    }
    var x := Coerce(F, xvalue);
    var polydeg := |poly| - 1;
    var theval := poly[polydeg];
    MulOneZero(F, x);
    AddZero(F, theval);
    assert theval == Horner(F, poly[polydeg..], x);
    var theindex := polydeg;
    while theindex > 0
      invariant 0 <= theindex <= polydeg
      invariant theval == Horner(F, poly[theindex..], x)
    {
      theindex := theindex - 1;
      assert poly[theindex..][1..] == poly[theindex + 1..];
      theval := Fields.Add(F, Fields.Mul(F, theval, x), poly[theindex]);
    }
    assert poly[0..] == poly;
    HornerIsPowerSum(F, poly, x);
    return Ok(theval);
  }
}
