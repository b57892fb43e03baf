/**
 * The Lagrange basis shared by both fit routines: for nodes xs and an
 * index j, the product of (x - xs[i]) over i != j, and the weighted sum
 * of y_j * basis_j(x) / basis_j(xs[j]) that both routines build up.
 */
module Lagrange {
  import opened Errors
  import opened Fields

  predicate Distinct(xs: seq<int>) {
    forall i, j :: 0 <= i < j < |xs| ==> xs[i] != xs[j]
  }

  /**
   * (x - xs[0]) * ... * (x - xs[m-1]) with the factor for index j left
   * out, multiplied from 1 in index order as the fit loops do.
   */
  function Basis(F: Field, xs: seq<int>, j: nat, m: nat, x: int): (r: int)
    requires WellFormed(F) && Elts(F, xs) && m <= |xs| && Elt(F, x)
    ensures Elt(F, r)
  {
    if m == 0 then 1
    else if m - 1 == j then Basis(F, xs, j, m - 1, x)
    else Mul(F, Basis(F, xs, j, m - 1, x), Sub(F, x, xs[m - 1]))
  }

  /** One more index: the factor for index i is multiplied in unless i is j. */
  lemma BasisNext(F: Field, xs: seq<int>, j: nat, i: nat, x: int)
    requires WellFormed(F) && Elts(F, xs) && i < |xs| && Elt(F, x)
    ensures Basis(F, xs, j, i + 1, x) ==
            if i == j then Basis(F, xs, j, i, x) else Mul(F, Basis(F, xs, j, i, x), Sub(F, x, xs[i]))
  {}

  /** A basis product vanishes exactly at the nodes it has a factor for. */
  lemma {:induction false} BasisZero(F: Field, xs: seq<int>, j: nat, m: nat, x: int)
    requires IsField(F) && Elts(F, xs) && m <= |xs| && Elt(F, x)
    ensures Basis(F, xs, j, m, x) == 0 <==> Hits(xs, j, m, x)
  {
    IsFieldWellFormed(F);
    if m > 0 {
      BasisZero(F, xs, j, m - 1, x);
      if m - 1 != j {
        var b, s := Basis(F, xs, j, m - 1, x), Sub(F, x, xs[m - 1]);
        assert Basis(F, xs, j, m, x) == Mul(F, b, s);
        NoZeroDivisors(F, b, s);
        SubZero(F, x, xs[m - 1]);
      }
    }
  }

  /** Some node among xs[0..m), other than xs[j], equals x. */
  predicate Hits(xs: seq<int>, j: nat, m: nat, x: int)
    requires m <= |xs|
  {
    m > 0 && (Hits(xs, j, m - 1, x) || (m - 1 != j && xs[m - 1] == x))
  }

  lemma {:induction false} HitsIff(xs: seq<int>, j: nat, m: nat, x: int)
    requires m <= |xs|
    ensures Hits(xs, j, m, x) <==> exists i :: 0 <= i < m && i != j && xs[i] == x
  {
    if m > 0 {
      HitsIff(xs, j, m - 1, x);
    }
  }

  /** The denominator of basis j: its product evaluated at its own node. */
  function Weight(F: Field, xs: seq<int>, j: nat): (r: int)
    requires WellFormed(F) && Elts(F, xs) && j < |xs|
    ensures Elt(F, r)
  {
    Basis(F, xs, j, |xs|, xs[j])
  }

  /** A weight is zero exactly when another node repeats xs[j]. */
  lemma WeightZero(F: Field, xs: seq<int>, j: nat)
    requires IsField(F) && Elts(F, xs) && j < |xs|
    ensures Weight(F, xs, j) == 0 <==> exists i :: 0 <= i < |xs| && i != j && xs[i] == xs[j]
  {
    IsFieldWellFormed(F);
    BasisZero(F, xs, j, |xs|, xs[j]);
    HitsIff(xs, j, |xs|, xs[j]);
  }

  /** Some node other than j repeats xs[j] exactly when the nodes are not distinct. */
  lemma DistinctWeights(F: Field, xs: seq<int>)
    requires IsField(F) && Elts(F, xs)
    ensures Distinct(xs) <==> forall j :: 0 <= j < |xs| ==> Weight(F, xs, j) != 0
  {
    IsFieldWellFormed(F);
    forall j | 0 <= j < |xs| {
      WeightZero(F, xs, j);
    }
    if !Distinct(xs) {
      var i, j :| 0 <= i < j < |xs| && xs[i] == xs[j];
      assert Weight(F, xs, j) == 0;
    }
  }

  /**
   * The interpolating value at x: the sum over j < k of
   * basis_j(x) * (y_j / weight_j), accumulated from 0 in index order.
   */
  function LagrangeSum(F: Field, xs: seq<int>, ys: seq<int>, k: nat, x: int): (r: int)
    requires IsField(F) && Elts(F, xs) && Elts(F, ys) && |xs| == |ys| && k <= |xs| && Elt(F, x)
    requires Distinct(xs)
    ensures Elt(F, r)
  {
    DistinctWeights(F, xs);
    if k == 0 then 0
    else Add(F, LagrangeSum(F, xs, ys, k - 1, x), LagrangeTerm(F, xs, ys, k - 1, x))
  }

  /** The j-th summand at x: basis_j(x) * (y_j / weight_j). */
  function LagrangeTerm(F: Field, xs: seq<int>, ys: seq<int>, j: nat, x: int): (r: int)
    requires IsField(F) && Elts(F, xs) && Elts(F, ys) && |xs| == |ys| && j < |xs| && Elt(F, x)
    requires Weight(F, xs, j) != 0
    ensures Elt(F, r)
  {
    IsFieldWellFormed(F);
    Mul(F, Basis(F, xs, j, |xs|, x), Div(F, ys[j], Weight(F, xs, j)).value)
  }

  /**
   * Interpolation: over the first k summands the value at node m is y_m
   * when basis m is among them and 0 otherwise.
   */
  lemma {:induction false} LagrangeSumAtNode(F: Field, xs: seq<int>, ys: seq<int>, k: nat, m: nat)
    requires IsField(F) && Elts(F, xs) && Elts(F, ys) && |xs| == |ys| && k <= |xs| && m < |xs|
    requires Distinct(xs)
    ensures LagrangeSum(F, xs, ys, k, xs[m]) == if m < k then ys[m] else 0
  {
    IsFieldWellFormed(F);
    DistinctWeights(F, xs);
    if k > 0 {
      LagrangeSumAtNode(F, xs, ys, k - 1, m);
      var j := k - 1;
      var q := Div(F, ys[j], Weight(F, xs, j)).value;
      var prev := LagrangeSum(F, xs, ys, j, xs[m]);
      if m == j {
        DivCorrect(F, ys[j], Weight(F, xs, j));
        MulCommutative(F, Weight(F, xs, j), q);
        AddZero(F, ys[m]);
      } else {
        BasisZero(F, xs, j, |xs|, xs[m]);
        HitsIff(xs, j, |xs|, xs[m]);
        MulOneZero(F, q);
        AddZero(F, prev);
      }
    }
  }

  /** The full sum takes the value y_m at every node x_m. */
  lemma LagrangeInterpolates(F: Field, xs: seq<int>, ys: seq<int>, m: nat)
    requires IsField(F) && Elts(F, xs) && Elts(F, ys) && |xs| == |ys| && m < |xs|
    requires Distinct(xs)
    ensures LagrangeSum(F, xs, ys, |xs|, xs[m]) == ys[m]
  {
    LagrangeSumAtNode(F, xs, ys, |xs|, m);
  }
}
