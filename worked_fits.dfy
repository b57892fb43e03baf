/**
 * The fits of the worked key splits, exactly: by the uniqueness of the
 * interpolating polynomial, fit of the documented shares returns the
 * documented coefficient list, whichever set of enough users the shares
 * come from, so every such set gives back the same secret.
 */
module WorkedFits {
  import opened Errors
  import opened Fields
  import opened PolyLists
  import opened Lagrange
  import Poly
  import Shamir2
  import Recovery
  import opened WorkedExamples

  // ------------------------------------------------------------- primality

  lemma Prime13()
    ensures IsField(PrimeField(13))
  {
  }

  lemma Prime101()
    ensures IsField(PrimeField(101))
  {
  }

  // ------------------------------------------- fits of three and four shares

  // Small helpers that state a fact about each index of a short literal
  // list, so the lemmas about the examples need not enumerate indices.

  lemma CoercibleThree(F: Field, points: seq<(int, int)>)
    requires |points| == 3
    requires Coercible(F, points[0].0) && Coercible(F, points[0].1)
    requires Coercible(F, points[1].0) && Coercible(F, points[1].1)
    requires Coercible(F, points[2].0) && Coercible(F, points[2].1)
    ensures Poly.PointsCoercible(F, points)
  {
  }

  lemma CoercibleFour(F: Field, points: seq<(int, int)>)
    requires |points| == 4
    requires Coercible(F, points[0].0) && Coercible(F, points[0].1)
    requires Coercible(F, points[1].0) && Coercible(F, points[1].1)
    requires Coercible(F, points[2].0) && Coercible(F, points[2].1)
    requires Coercible(F, points[3].0) && Coercible(F, points[3].1)
    ensures Poly.PointsCoercible(F, points)
  {
  }

  lemma EltsThree(F: Field, c: seq<int>)
    requires |c| == 3 && Elt(F, c[0]) && Elt(F, c[1]) && Elt(F, c[2])
    ensures Elts(F, c)
  {
  }

  lemma EltsFour(F: Field, c: seq<int>)
    requires |c| == 4 && Elt(F, c[0]) && Elt(F, c[1]) && Elt(F, c[2]) && Elt(F, c[3])
    ensures Elts(F, c)
  {
  }

  lemma DistinctThree(xs: seq<int>)
    requires |xs| == 3 && xs[0] != xs[1] && xs[0] != xs[2] && xs[1] != xs[2]
    ensures Distinct(xs)
  {
  }

  lemma DistinctFour(xs: seq<int>)
    requires |xs| == 4 && xs[0] != xs[1] && xs[0] != xs[2] && xs[0] != xs[3]
    requires xs[1] != xs[2] && xs[1] != xs[3] && xs[2] != xs[3]
    ensures Distinct(xs)
  {
  }

  /**
   * A list of n coefficients, the last nonzero, that takes the n shares at
   * their n distinct x values is what fit returns for them.
   */
  lemma FitOfThree(F: Field, q: seq<int>, points: seq<(int, int)>)
    requires IsField(F) && Poly.PointsCoercible(F, points) && |points| == 3
    requires |q| == 3 && q[2] != 0 && Elt(F, q[0]) && Elt(F, q[1]) && Elt(F, q[2])
    requires var xs := Poly.Xs(F, points); xs[0] != xs[1] && xs[0] != xs[2] && xs[1] != xs[2]
    requires Elts(F, q) ==>
      forall i :: 0 <= i < 3 ==> Horner(F, q, Poly.Xs(F, points)[i]) == Poly.Ys(F, points)[i]
    ensures Poly.FitSpec(F, points) == Ok(q)
  {
    IsFieldWellFormed(F);
    EltsThree(F, q);
    DistinctThree(Poly.Xs(F, points));
    Recovery.FitRecovers(F, q, points);
  }

  lemma FitOfFour(F: Field, q: seq<int>, points: seq<(int, int)>)
    requires IsField(F) && Poly.PointsCoercible(F, points) && |points| == 4
    requires |q| == 4 && q[3] != 0 && Elt(F, q[0]) && Elt(F, q[1]) && Elt(F, q[2]) && Elt(F, q[3])
    requires var xs := Poly.Xs(F, points);
      xs[0] != xs[1] && xs[0] != xs[2] && xs[0] != xs[3] && xs[1] != xs[2] && xs[1] != xs[3] && xs[2] != xs[3]
    requires Elts(F, q) ==>
      forall i :: 0 <= i < 4 ==> Horner(F, q, Poly.Xs(F, points)[i]) == Poly.Ys(F, points)[i]
    ensures Poly.FitSpec(F, points) == Ok(q)
  {
    IsFieldWellFormed(F);
    EltsFour(F, q);
    DistinctFour(Poly.Xs(F, points));
    Recovery.FitRecovers(F, q, points);
  }

  // ------------------------------------------------ GF(2^8): 3-of-7 split

  /** An entry of the first split table is a share of 0xc7 + 0x34 x + 0xb6 x^2. */
  lemma AesSplitSharesAt(points: seq<(int, int)>, k: nat)
    requires Poly.PointsCoercible(AesField, points) && k < |points|
    requires 0 <= points[k].0 <= 7 && points[k].1 == AesShare(points[k].0)
    ensures Horner(AesField, [0xc7, 0x34, 0xb6], Poly.Xs(AesField, points)[k]) == Poly.Ys(AesField, points)[k]
  {
    AesSplitExample(points[k].0);
  }

  /** Three entries of the first split table are shares of 0xc7 + 0x34 x + 0xb6 x^2. */
  lemma AesSplitShares(points: seq<(int, int)>)
    requires |points| == 3
    requires 0 <= points[0].0 <= 7 && points[0].1 == AesShare(points[0].0)
    requires 0 <= points[1].0 <= 7 && points[1].1 == AesShare(points[1].0)
    requires 0 <= points[2].0 <= 7 && points[2].1 == AesShare(points[2].0)
    ensures Poly.PointsCoercible(AesField, points)
    ensures forall i :: 0 <= i < 3 ==>
      Horner(AesField, [0xc7, 0x34, 0xb6], Poly.Xs(AesField, points)[i]) == Poly.Ys(AesField, points)[i]
  {
    CoercibleThree(AesField, points);
    forall i | 0 <= i < 3
      ensures 0 <= points[i].0 <= 7 && points[i].1 == AesShare(points[i].0)
    {
      if i == 0 {
      } else if i == 1 {
      } else {
      }
    }
    forall i | 0 <= i < 3
      ensures Horner(AesField, [0xc7, 0x34, 0xb6], Poly.Xs(AesField, points)[i]) == Poly.Ys(AesField, points)[i]
    {
      AesSplitSharesAt(points, i);
    }
  }

  /** An entry of the second split table is a share of 0xab + 0x6e x + 0x80 x^2. */
  lemma AesResplitSharesAt(points: seq<(int, int)>, k: nat)
    requires Poly.PointsCoercible(AesField, points) && k < |points|
    requires 0 <= points[k].0 <= 7 && points[k].1 == AesResplitShare(points[k].0)
    ensures Horner(AesField, [0xab, 0x6e, 0x80], Poly.Xs(AesField, points)[k]) == Poly.Ys(AesField, points)[k]
  {
    AesResplitExample(points[k].0);
  }

  /** Three entries of the second split table are shares of 0xab + 0x6e x + 0x80 x^2. */
  lemma AesResplitShares(points: seq<(int, int)>)
    requires |points| == 3
    requires 0 <= points[0].0 <= 7 && points[0].1 == AesResplitShare(points[0].0)
    requires 0 <= points[1].0 <= 7 && points[1].1 == AesResplitShare(points[1].0)
    requires 0 <= points[2].0 <= 7 && points[2].1 == AesResplitShare(points[2].0)
    ensures Poly.PointsCoercible(AesField, points)
    ensures forall i :: 0 <= i < 3 ==>
      Horner(AesField, [0xab, 0x6e, 0x80], Poly.Xs(AesField, points)[i]) == Poly.Ys(AesField, points)[i]
  {
    CoercibleThree(AesField, points);
    forall i | 0 <= i < 3
      ensures 0 <= points[i].0 <= 7 && points[i].1 == AesResplitShare(points[i].0)
    {
      if i == 0 {
      } else if i == 1 {
      } else {
      }
    }
    forall i | 0 <= i < 3
      ensures Horner(AesField, [0xab, 0x6e, 0x80], Poly.Xs(AesField, points)[i]) == Poly.Ys(AesField, points)[i]
    {
      AesResplitSharesAt(points, i);
    }
  }

  /**
   * fit of the chosen shares (1, 0x45), (2, 0x41), (3, 0xc3) is exactly
   * 0xc7 + 0x34 x + 0xb6 x^2, whose value at 0 is the secret 0xc7.
   */
  lemma AesFit()
    ensures Poly.PointsCoercible(AesField, [(1, 0x45), (2, 0x41), (3, 0xc3)]) &&
      Poly.FitSpec(AesField, [(1, 0x45), (2, 0x41), (3, 0xc3)]) == Ok([0xc7, 0x34, 0xb6])
    ensures Horner(AesField, [0xc7, 0x34, 0xb6], 0) == 0xc7
  {
    AesSplitShares([(1, 0x45), (2, 0x41), (3, 0xc3)]);
    FitOfThree(AesField, [0xc7, 0x34, 0xb6], [(1, 0x45), (2, 0x41), (3, 0xc3)]);
    AesSplitExample(0);
  }

  /**
   * Users 2, 4 and 7 recover the same polynomial from their shares
   * (2, 0x41), (4, 0x82), (7, 0x86), and so the same secret 0xc7.
   */
  lemma AesRefit()
    ensures Poly.PointsCoercible(AesField, [(2, 0x41), (4, 0x82), (7, 0x86)]) &&
      Poly.FitSpec(AesField, [(2, 0x41), (4, 0x82), (7, 0x86)]) == Ok([0xc7, 0x34, 0xb6])
  {
    AesSplitShares([(2, 0x41), (4, 0x82), (7, 0x86)]);
    FitOfThree(AesField, [0xc7, 0x34, 0xb6], [(2, 0x41), (4, 0x82), (7, 0x86)]);
  }

  /**
   * Splitting the given secret 0xab: fit of (0, 0xab), (1, 0x45), (2, 0x41)
   * is exactly 0xab + 0x6e x + 0x80 x^2.
   */
  lemma AesResplitFit()
    ensures Poly.PointsCoercible(AesField, [(0, 0xab), (1, 0x45), (2, 0x41)]) &&
      Poly.FitSpec(AesField, [(0, 0xab), (1, 0x45), (2, 0x41)]) == Ok([0xab, 0x6e, 0x80])
  {
    AesResplitShares([(0, 0xab), (1, 0x45), (2, 0x41)]);
    FitOfThree(AesField, [0xab, 0x6e, 0x80], [(0, 0xab), (1, 0x45), (2, 0x41)]);
  }

  // ------------------------------------------------ GF(13): 4-of-5 split

  /**
   * fit of (1, 3), (2, 6), (3, -2), (4, 0) over GF(13) is exactly
   * 7 + 6x + 6x^2 + 10x^3; -2 enters the field as 11.
   */
  lemma PrimeFit()
    ensures Poly.FitSpec(PrimeField(13), [(1, 3), (2, 6), (3, -2), (4, 0)]) == Ok([7, 6, 6, 10])
  {
    var F := PrimeField(13);
    var points := [(1, 3), (2, 6), (3, -2), (4, 0)];
    CoercibleFour(F, points);
    var xs, ys := Poly.Xs(F, points), Poly.Ys(F, points);
    forall i | 0 <= i < 4
      ensures Horner(F, [7, 6, 6, 10], xs[i]) == ys[i]
    {
      if i == 0 {
        PrimeFitExample(xs[0]);
      } else if i == 1 {
        PrimeFitExample(xs[1]);
      } else if i == 2 {
        PrimeFitExample(xs[2]);
      } else {
        PrimeFitExample(xs[3]);
      }
    }
    Prime13();
    FitOfFour(F, [7, 6, 6, 10], points);
  }

  // ------------------------------------------------ GF(101): 3-of-5 split

  /** The n coefficients of a list of n are the list itself. */
  lemma PaddedSelf(F: Field, c: seq<int>)
    requires WellFormed(F) && Elts(F, c)
    ensures Shamir2.Padded(F, c, |c|) == c
  {}

  /** The list fit of 1 --> 35, 2 --> 92, 3 --> 11 over GF(101) is exactly [42, 62, 32]. */
  lemma Gf101Fit()
    ensures Shamir2.Fit2Spec(PrimeField(101), [(1, 35), (2, 92), (3, 11)]) == Ok([42, 62, 32])
  {
    var F := PrimeField(101);
    var points := [(1, 35), (2, 92), (3, 11)];
    CoercibleThree(F, points);
    var xs, ys := Poly.Xs(F, points), Poly.Ys(F, points);
    forall i | 0 <= i < 3
      ensures Horner(F, [42, 62, 32], xs[i]) == ys[i]
    {
      if i == 0 {
        Gf101FitExample(xs[0]);
      } else if i == 1 {
        Gf101FitExample(xs[1]);
      } else {
        Gf101FitExample(xs[2]);
      }
    }
    Prime101();
    Recovery.Fit2Recovers(F, [42, 62, 32], points);
    PaddedSelf(F, [42, 62, 32]);
  }

  /** Users 1, 4 and 5 recover the same list [42, 62, 32], whose value at 0 is the secret 42. */
  lemma Gf101Refit()
    ensures Shamir2.Fit2Spec(PrimeField(101), [(1, 35), (4, 95), (5, 41)]) == Ok([42, 62, 32])
    ensures Horner(PrimeField(101), [42, 62, 32], 0) == 42
  {
    var F := PrimeField(101);
    var points := [(1, 35), (4, 95), (5, 41)];
    CoercibleThree(F, points);
    var xs, ys := Poly.Xs(F, points), Poly.Ys(F, points);
    forall i | 0 <= i < 3
      ensures Horner(F, [42, 62, 32], xs[i]) == ys[i]
    {
      if i == 0 {
        Gf101FitExample(xs[0]);
      } else if i == 1 {
        Gf101NewSharesExample(xs[1]);
      } else {
        Gf101NewSharesExample(xs[2]);
      }
    }
    Prime101();
    Recovery.Fit2Recovers(F, [42, 62, 32], points);
    PaddedSelf(F, [42, 62, 32]);
    Gf101FitExample(0);
  }
}
