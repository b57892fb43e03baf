/**
 * Why a threshold of shares gives back the secret: a coefficient list of
 * length at most n that vanishes at n distinct points is all zeros, so two
 * polynomials of degree below n that agree at n distinct points have the
 * same coefficients, and fit returns exactly the polynomial the shares
 * were taken from, whichever n shares are used.
 */
module Recovery {
  import opened Errors
  import opened Fields
  import opened PolyLists
  import opened Lagrange
  import Poly
  import Shamir2

  // ------------------------------------------------ division by (x - r)

  /**
   * The quotient of c by (x - r) in synthetic division: coefficient k is
   * the value at r of c's coefficients from k + 1 on.
   */
  function Quotient(F: Field, c: seq<int>, r: int): (q: seq<int>)
    requires WellFormed(F) && Elts(F, c) && Elt(F, r)
    ensures |q| == if |c| == 0 then 0 else |c| - 1
    ensures Elts(F, q)
    decreases |c|
  {
    if |c| <= 1 then [] else [Horner(F, c[1..], r)] + Quotient(F, c[1..], r)
  }

  lemma {:induction false} QuotientCoefficient(F: Field, c: seq<int>, r: int, k: nat)
    requires WellFormed(F) && Elts(F, c) && Elt(F, r) && k + 1 < |c|
    ensures Quotient(F, c, r)[k] == Horner(F, c[k + 1..], r)
    decreases k
  {
    if k > 0 {
      QuotientCoefficient(F, c[1..], r, k - 1);
      assert c[1..][k..] == c[k + 1..];
    }
  }

  /** (x - r) + r == x. */
  lemma SubAddBack(F: Field, x: int, r: int)
    requires Elt(F, x) && Elt(F, r)
    ensures Add(F, Sub(F, x, r), r) == x
  {
    var n := Neg(F, r);
    AddNeg(F, x, r);
    AddNeg(F, r, r);
    AddAssociative(F, x, n, r);
    AddCommutative(F, n, r);
    AddZero(F, x);
  }

  /**
   * One step of synthetic division: with d = x - r,
   * (a * x + t) * d + (t * r + c0) == (a * d + t) * x + c0.
   */
  lemma DivisionStep(F: Field, a: int, t: int, x: int, r: int, c0: int)
    requires Elt(F, a) && Elt(F, t) && Elt(F, x) && Elt(F, r) && Elt(F, c0)
    ensures Add(F, Mul(F, Add(F, Mul(F, a, x), t), Sub(F, x, r)), Add(F, Mul(F, t, r), c0)) ==
            Add(F, Mul(F, Add(F, Mul(F, a, Sub(F, x, r)), t), x), c0)
  {
    var d := Sub(F, x, r);
    var p := Mul(F, Mul(F, a, x), d);
    var p' := Mul(F, Mul(F, a, d), x);
    var td, tr, tx := Mul(F, t, d), Mul(F, t, r), Mul(F, t, x);
    calc {
      Add(F, Mul(F, Add(F, Mul(F, a, x), t), d), Add(F, tr, c0));
      == { MulDistributiveRight(F, Mul(F, a, x), t, d); }
      Add(F, Add(F, p, td), Add(F, tr, c0));
      == { AddAssociative(F, p, td, Add(F, tr, c0)); AddAssociative(F, td, tr, c0); }
      Add(F, p, Add(F, Add(F, td, tr), c0));
      == { MulDistributive(F, t, d, r); SubAddBack(F, x, r); }
      Add(F, p, Add(F, tx, c0));
      == { MulAssociative(F, a, x, d); MulCommutative(F, x, d); MulAssociative(F, a, d, x); }
      Add(F, p', Add(F, tx, c0));
      == { AddAssociative(F, p', tx, c0); }
      Add(F, Add(F, p', tx), c0);
      == { MulDistributiveRight(F, Mul(F, a, d), t, x); }
      Add(F, Mul(F, Add(F, Mul(F, a, d), t), x), c0);
    }
  }

  /** Division with remainder: c(x) == q(x) * (x - r) + c(r). */
  lemma {:induction false} QuotientValue(F: Field, c: seq<int>, r: int, x: int)
    requires WellFormed(F) && Elts(F, c) && Elt(F, r) && Elt(F, x)
    ensures Horner(F, c, x) == Add(F, Mul(F, Horner(F, Quotient(F, c, r), x), Sub(F, x, r)), Horner(F, c, r))
    decreases |c|
  {
    var d := Sub(F, x, r);
    MulOneZero(F, d);
    if |c| <= 1 {
      MulOneZero(F, x);
      MulOneZero(F, r);
      AddZero(F, Horner(F, c, r));
    } else {
      var t := c[1..];
      var qt := Quotient(F, t, r);
      var q := Quotient(F, c, r);
      assert q[1..] == qt;
      QuotientValue(F, t, r, x);
      DivisionStep(F, Horner(F, qt, x), Horner(F, t, r), x, r, c[0]);
    }
  }

  // ------------------------------------------------------- counting roots

  /** A coefficient list all of whose entries are 0. */
  predicate AllZero(c: seq<int>) {
    forall k :: 0 <= k < |c| ==> c[k] == 0
  }

  /** The value at r of c's coefficients from k on is c[k] once the later ones vanish there. */
  lemma HornerSuffix(F: Field, c: seq<int>, r: int, k: nat)
    requires WellFormed(F) && Elts(F, c) && Elt(F, r) && k < |c|
    requires Horner(F, c[k + 1..], r) == 0
    ensures Horner(F, c[k..], r) == c[k]
  {
    assert c[k..][1..] == c[k + 1..];
    MulOneZero(F, r);
    AddZero(F, c[k]);
  }

  /** If c vanishes at r and its quotient is zero, so do all of c's suffixes at r. */
  lemma SuffixZero(F: Field, c: seq<int>, r: int, k: nat)
    requires WellFormed(F) && Elts(F, c) && Elt(F, r) && k <= |c|
    requires Horner(F, c, r) == 0 && AllZero(Quotient(F, c, r))
    ensures Horner(F, c[k..], r) == 0
  {
    if k == 0 {
      assert c[k..] == c;
    } else if k == |c| {
      assert c[k..] == [];
    } else {
      QuotientCoefficient(F, c, r, k - 1);
    }
  }

  /** If c vanishes at r and its quotient by (x - r) is zero, c is zero. */
  lemma ZeroQuotient(F: Field, c: seq<int>, r: int)
    requires WellFormed(F) && Elts(F, c) && Elt(F, r)
    requires Horner(F, c, r) == 0 && AllZero(Quotient(F, c, r))
    ensures AllZero(c)
  {
    forall k | 0 <= k < |c|
      ensures c[k] == 0
    {
      SuffixZero(F, c, r, k);
      SuffixZero(F, c, r, k + 1);
      HornerSuffix(F, c, r, k);
    }
  }

  /** Where c vanishes at r and at x != r, the quotient vanishes at x. */
  lemma QuotientRoot(F: Field, c: seq<int>, r: int, x: int)
    requires IsField(F) && Elts(F, c) && Elt(F, r) && Elt(F, x) && x != r
    requires Horner(F, c, r) == 0 && Horner(F, c, x) == 0
    ensures Horner(F, Quotient(F, c, r), x) == 0
  {
    IsFieldWellFormed(F);
    var v := Horner(F, Quotient(F, c, r), x);
    QuotientValue(F, c, r, x);
    AddZero(F, Mul(F, v, Sub(F, x, r)));
    SubZero(F, x, r);
    NoZeroDivisors(F, v, Sub(F, x, r));
  }

  /**
   * A polynomial with at most n coefficients that vanishes at n distinct
   * points has every coefficient 0.
   */
  lemma {:induction false} RootCount(F: Field, c: seq<int>, xs: seq<int>)
    requires IsField(F) && Elts(F, c) && Elts(F, xs) && Distinct(xs) && |c| <= |xs|
    requires forall i :: 0 <= i < |xs| ==> Horner(F, c, xs[i]) == 0
    ensures AllZero(c)
    decreases |c|
  {
    IsFieldWellFormed(F);
    if |c| > 0 {
      var r := xs[0];
      var rest := xs[1..];
      var q := Quotient(F, c, r);
      forall i | 0 <= i < |rest|
        ensures Horner(F, q, rest[i]) == 0
      {
        assert rest[i] == xs[i + 1] && xs[i + 1] != r;
        QuotientRoot(F, c, r, rest[i]);
      }
      RootCount(F, q, rest);
      ZeroQuotient(F, c, r);
    }
  }

  // ------------------------------------------------- equal coefficients

  /** Multiplying by -1 negates. */
  lemma NegOneTimes(F: Field, v: int)
    requires WellFormed(F) && Elt(F, v)
    ensures Mul(F, Neg(F, 1), v) == Neg(F, v)
  {
    ConstantsAreElts(F);
    MulNeg(F, v, 1);
    MulOneZero(F, v);
    MulCommutative(F, v, Neg(F, 1));
  }

  /** u + (-v) is zero exactly when u == v. */
  lemma AddNegZero(F: Field, u: int, v: int)
    requires Elt(F, u) && Elt(F, v)
    ensures Add(F, u, Neg(F, v)) == 0 <==> u == v
  {
    AddNeg(F, u, v);
    SubZero(F, u, v);
  }

  /** The coefficientwise difference a - b, written with the list operations of fit. */
  function Difference(F: Field, a: seq<int>, b: seq<int>): (d: seq<int>)
    requires WellFormed(F) && Elts(F, a) && Elts(F, b)
    ensures Elts(F, d) && |d| == if |a| < |b| then |b| else |a|
  {
    ConstantsAreElts(F);
    AddLists(F, a, ScaleList(F, Neg(F, 1), b))
  }

  lemma DifferenceValue(F: Field, a: seq<int>, b: seq<int>, x: int)
    requires WellFormed(F) && Elts(F, a) && Elts(F, b) && Elt(F, x)
    ensures Horner(F, Difference(F, a, b), x) == Add(F, Horner(F, a, x), Neg(F, Horner(F, b, x)))
  {
    ConstantsAreElts(F);
    HornerAddLists(F, a, ScaleList(F, Neg(F, 1), b), x);
    ScaleListValue(F, Neg(F, 1), b, x);
    NegOneTimes(F, Horner(F, b, x));
  }

  lemma DifferencePad(F: Field, a: seq<int>, b: seq<int>, k: nat)
    requires WellFormed(F) && Elts(F, a) && Elts(F, b)
    ensures Pad(F, Difference(F, a, b), k) == Add(F, Pad(F, a, k), Neg(F, Pad(F, b, k)))
  {
    ConstantsAreElts(F);
    AddListsPad(F, a, ScaleList(F, Neg(F, 1), b));
    PadScaleList(F, Neg(F, 1), b, k);
    NegOneTimes(F, Pad(F, b, k));
    MulOneZero(F, Neg(F, 1));
  }

  /** Where a and b take the same value, a - b vanishes. */
  lemma DifferenceRoot(F: Field, a: seq<int>, b: seq<int>, x: int)
    requires WellFormed(F) && Elts(F, a) && Elts(F, b) && Elt(F, x)
    requires Horner(F, a, x) == Horner(F, b, x)
    ensures Horner(F, Difference(F, a, b), x) == 0
  {
    DifferenceValue(F, a, b, x);
    AddNegZero(F, Horner(F, a, x), Horner(F, b, x));
  }

  /** When every coefficient of a - b is zero, a and b have the same coefficients. */
  lemma ZeroDifference(F: Field, a: seq<int>, b: seq<int>)
    requires WellFormed(F) && Elts(F, a) && Elts(F, b) && AllZero(Difference(F, a, b))
    ensures forall k: nat :: Pad(F, a, k) == Pad(F, b, k)
  {
    forall k: nat
      ensures Pad(F, a, k) == Pad(F, b, k)
    {
      DifferencePad(F, a, b, k);
      AddNegZero(F, Pad(F, a, k), Pad(F, b, k));
    }
  }

  /** Root counting applied to a - b. */
  lemma DifferenceVanishes(F: Field, a: seq<int>, b: seq<int>, xs: seq<int>)
    requires IsField(F) && Elts(F, a) && Elts(F, b) && Elts(F, xs) && Distinct(xs)
    requires |a| <= |xs| && |b| <= |xs|
    requires forall i :: 0 <= i < |xs| ==> Horner(F, a, xs[i]) == Horner(F, b, xs[i])
    ensures WellFormed(F) && AllZero(Difference(F, a, b))
  {
    IsFieldWellFormed(F);
    var d := Difference(F, a, b);
    forall i | 0 <= i < |xs|
      ensures Horner(F, d, xs[i]) == 0
    {
      DifferenceRoot(F, a, b, xs[i]);
    }
    RootCount(F, d, xs);
  }

  /**
   * Two polynomials with at most n coefficients each that take the same
   * values at n distinct points have the same coefficients.
   */
  lemma Agreement(F: Field, a: seq<int>, b: seq<int>, xs: seq<int>)
    requires IsField(F) && Elts(F, a) && Elts(F, b) && Elts(F, xs) && Distinct(xs)
    requires |a| <= |xs| && |b| <= |xs|
    requires forall i :: 0 <= i < |xs| ==> Horner(F, a, xs[i]) == Horner(F, b, xs[i])
    ensures forall k: nat :: Pad(F, a, k) == Pad(F, b, k)
  {
    IsFieldWellFormed(F);
    DifferenceVanishes(F, a, b, xs);
    ZeroDifference(F, a, b);
  }

  /** A trimmed list ends in a nonzero coefficient, where a shorter list has none. */
  lemma LongerDiffers(F: Field, a: seq<int>, b: seq<int>)
    requires WellFormed(F) && Elts(F, a) && Elts(F, b) && Trim(b) == b && |a| < |b|
    ensures Pad(F, a, |b| - 1) != Pad(F, b, |b| - 1)
  {
    TrimCorrect(b);
  }

  /** Trimmed lists with the same coefficients are the same list. */
  lemma TrimmedEqual(F: Field, a: seq<int>, b: seq<int>)
    requires WellFormed(F) && Elts(F, a) && Elts(F, b) && Trim(a) == a && Trim(b) == b
    requires forall k: nat :: Pad(F, a, k) == Pad(F, b, k)
    ensures a == b
  {
    TrimCorrect(a);
    TrimCorrect(b);
    if |a| < |b| {
      LongerDiffers(F, a, b);
      assert false;
    } else if |b| < |a| {
      LongerDiffers(F, b, a);
      assert false;
    }
    forall k | 0 <= k < |a|
      ensures a[k] == b[k]
    {
      assert Pad(F, a, k) == Pad(F, b, k);
    }
  }

  // ------------------------------------------------------ fit is unique

  /**
   * fit returns the polynomial the shares came from: when q has at most
   * n coefficients after trimming and takes the n y values at the n
   * distinct x values, fit gives exactly trimmed q.
   */
  lemma FitRecovers(F: Field, q: seq<int>, points: seq<(int, int)>)
    requires IsField(F) && Poly.PointsCoercible(F, points) && Elts(F, q)
    requires Distinct(Poly.Xs(F, points)) && |Trim(q)| <= |points|
    requires forall i :: 0 <= i < |points| ==> Horner(F, q, Poly.Xs(F, points)[i]) == Poly.Ys(F, points)[i]
    ensures Poly.FitSpec(F, points) == Ok(Trim(q))
  {
    IsFieldWellFormed(F);
    var xs, ys := Poly.Xs(F, points), Poly.Ys(F, points);
    var t := Trim(q);
    TrimPad(F, q);
    if |points| == 0 {
      return;
    }
    Poly.FitInterpolates(F, points, 0);
    Poly.FitShape(F, points);
    var r := Poly.FitSpec(F, points).value;
    forall i | 0 <= i < |xs|
      ensures Horner(F, r, xs[i]) == Horner(F, t, xs[i])
    {
      Poly.FitInterpolates(F, points, i);
      HornerTrim(F, q, xs[i]);
    }
    Agreement(F, r, t, xs);
    TrimmedEqual(F, r, t);
  }

  /** The shares of q at the x values xs: the points (x, q(x)). */
  function Shares(F: Field, q: seq<int>, xs: seq<int>): (points: seq<(int, int)>)
    requires WellFormed(F) && Elts(F, q) && Elts(F, xs)
    ensures |points| == |xs|
  {
    seq(|xs|, i requires 0 <= i < |xs| => (xs[i], Horner(F, q, xs[i])))
  }

  /**
   * Secret recovery: any n shares at distinct x values of a polynomial q
   * of degree below n fit to q itself, so its value at 0, the secret, is
   * what every such set of shares gives back.
   */
  lemma SharesRecover(F: Field, q: seq<int>, xs: seq<int>)
    requires IsField(F) && Elts(F, q) && Elts(F, xs) && Distinct(xs) && |Trim(q)| <= |xs|
    ensures Poly.PointsCoercible(F, Shares(F, q, xs))
    ensures Poly.FitSpec(F, Shares(F, q, xs)) == Ok(Trim(q))
    ensures Horner(F, Trim(q), 0) == Horner(F, q, 0)
  {
    IsFieldWellFormed(F);
    ConstantsAreElts(F);
    var points := Shares(F, q, xs);
    assert Poly.PointsCoercible(F, points);
    assert Poly.Xs(F, points) == xs;
    FitRecovers(F, q, points);
    HornerTrim(F, q, 0);
  }

  /** The same for the list fit of shamirshare2.py: its n coefficients are q's first n, zeros past q's end. */
  lemma Fit2Recovers(F: Field, q: seq<int>, points: seq<(int, int)>)
    requires IsField(F) && Poly.PointsCoercible(F, points) && Elts(F, q)
    requires Distinct(Poly.Xs(F, points)) && |Trim(q)| <= |points|
    requires forall i :: 0 <= i < |points| ==> Horner(F, q, Poly.Xs(F, points)[i]) == Poly.Ys(F, points)[i]
    ensures Shamir2.Fit2Spec(F, points) == Ok(Shamir2.Padded(F, q, |points|))
  {
    IsFieldWellFormed(F);
    FitRecovers(F, q, points);
    Shamir2.FitsAgree(F, points);
    PaddedTrim(F, q, |points|);
  }

  /** Trailing zeros make no difference to the padded buffer. */
  lemma PaddedTrim(F: Field, q: seq<int>, n: nat)
    requires WellFormed(F) && Elts(F, q)
    ensures Elts(F, Trim(q)) && Shamir2.Padded(F, Trim(q), n) == Shamir2.Padded(F, q, n)
  {
    TrimPad(F, q);
  }
}
