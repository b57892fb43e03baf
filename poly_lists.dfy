/**
 * Polynomials as lists of coefficients over a field, lowest degree first,
 * as shamirshare.py stores them in PolyFieldUnivElt.coeffs: trimming,
 * padded addition, the convolution product and Horner evaluation, with
 * the laws that make evaluation a ring homomorphism.
 */
module PolyLists {
  import opened Fields

  /** Coefficient i of c, or 0 past its end (the padding of __addlists__). */
  function Pad(F: Field, c: seq<int>, i: nat): (r: int)
    requires WellFormed(F) && Elts(F, c)
    ensures Elt(F, r)
    ensures i >= |c| ==> r == 0
  {
    if i < |c| then c[i] else 0
  }

  /** c without its constant coefficient, the empty list staying empty. */
  function Drop1(c: seq<int>): (r: seq<int>)
    ensures |r| == if |c| == 0 then 0 else |c| - 1
    ensures forall i :: 0 <= i < |r| ==> r[i] == c[i + 1]
  {
    if |c| == 0 then [] else c[1..]
  }

  lemma PadDrop1(F: Field, c: seq<int>, i: nat)
    requires WellFormed(F) && Elts(F, c)
    ensures Elts(F, Drop1(c)) && Pad(F, Drop1(c), i) == Pad(F, c, i + 1)
  {}

  // ------------------------------------------------------------ trimming

  /** __trimlist__: c without its trailing zero coefficients. */
  function Trim(c: seq<int>): (r: seq<int>)
    ensures |r| <= |c|
    decreases |c|
  {
    if |c| > 0 && c[|c| - 1] == 0 then Trim(c[..|c| - 1]) else c
  }

  /**
   * Only zeros at the top are removed, and what is left is empty or ends
   * in a nonzero coefficient.
   */
  lemma {:induction false} TrimCorrect(c: seq<int>)
    ensures Trim(c) == c[..|Trim(c)|]
    ensures forall i :: |Trim(c)| <= i < |c| ==> c[i] == 0
    ensures |Trim(c)| > 0 ==> Trim(c)[|Trim(c)| - 1] != 0
    decreases |c|
  {
    if |c| > 0 && c[|c| - 1] == 0 {
      TrimCorrect(c[..|c| - 1]);
    }
  }

  /** Trimming keeps only coefficients that were there, so they stay field elements. */
  lemma TrimElts(F: Field, c: seq<int>)
    requires WellFormed(F) && Elts(F, c)
    ensures Elts(F, Trim(c))
  {
    TrimCorrect(c);
  }

  /** Trimming keeps every padded coefficient, so it is idempotent. */
  lemma TrimPad(F: Field, c: seq<int>)
    requires WellFormed(F) && Elts(F, c)
    ensures Elts(F, Trim(c))
    ensures forall i: nat :: Pad(F, Trim(c), i) == Pad(F, c, i)
    ensures Trim(Trim(c)) == Trim(c)
  {
    TrimCorrect(c);
  }

  // ------------------------------------------------------------ addition

  /**
   * __addlists__: coefficientwise sums, the shorter list padded with 0.
   * (Python adds a missing coefficient as `0 + c`, which GF8elt and GFpelt
   * evaluate as c + 0.)
   */
  function AddLists(F: Field, a: seq<int>, b: seq<int>): (r: seq<int>)
    requires WellFormed(F) && Elts(F, a) && Elts(F, b)
    ensures |r| == if |a| < |b| then |b| else |a|
    ensures Elts(F, r)
  {
    seq(if |a| < |b| then |b| else |a|, i requires 0 <= i => Add(F, Pad(F, a, i), Pad(F, b, i)))
  }

  lemma AddListsPad(F: Field, a: seq<int>, b: seq<int>)
    requires WellFormed(F) && Elts(F, a) && Elts(F, b)
    ensures forall i: nat :: Pad(F, AddLists(F, a, b), i) == Add(F, Pad(F, a, i), Pad(F, b, i))
  {
    forall i: nat
      ensures Pad(F, AddLists(F, a, b), i) == Add(F, Pad(F, a, i), Pad(F, b, i))
    {
      if i >= |AddLists(F, a, b)| {
        AddZero(F, 0);
      }
    }
  }

  // ------------------------------------------------------------ product

  /**
   * The generator summed in PolyFieldUnivElt.mul for coefficient d: the
   * terms a[d-i] * b[i] for i in [lo, hi), added in order from Python's
   * starting integer 0.
   */
  function ConvSum(F: Field, a: seq<int>, b: seq<int>, d: nat, lo: nat, hi: nat): (r: int)
    requires WellFormed(F) && Elts(F, a) && Elts(F, b)
    requires d - lo < |a| && hi <= |b| && hi <= d + 1
    ensures Elt(F, r)
    decreases hi
  {
    if hi <= lo then 0
    else Add(F, ConvSum(F, a, b, d, lo, hi - 1), Mul(F, a[d - (hi - 1)], b[hi - 1]))
  }

  function Max(x: int, y: int): int { if x < y then y else x }
  function Min(x: int, y: int): int { if x < y then x else y }

  /** Coefficient d of the product: i ranges over max(0, d-len(a)+1) .. min(d+1, len(b)). */
  function Conv(F: Field, a: seq<int>, b: seq<int>, d: nat): (r: int)
    requires WellFormed(F) && Elts(F, a) && Elts(F, b)
    ensures Elt(F, r)
  {
    ConvSum(F, a, b, d, Max(0, d - |a| + 1), Min(d + 1, |b|))
  }

  /** The list thelist of PolyFieldUnivElt.mul, of length polydeg + 1, before trimming. */
  function MulLists(F: Field, a: seq<int>, b: seq<int>): (r: seq<int>)
    requires WellFormed(F) && Elts(F, a) && Elts(F, b)
    ensures |r| == Max(0, |a| + |b| - 1)
    ensures Elts(F, r)
  {
    seq(Max(0, |a| + |b| - 1), d requires 0 <= d => Conv(F, a, b, d))
  }

  /** Past the end of the product every convolution sum is empty. */
  lemma MulListsPad(F: Field, a: seq<int>, b: seq<int>, d: nat)
    requires WellFormed(F) && Elts(F, a) && Elts(F, b)
    ensures Pad(F, MulLists(F, a, b), d) == Conv(F, a, b, d)
  {}

  /** The terms of a sum for a[0] :: a' are those of a' one degree lower. */
  lemma {:induction false} ConvSumShift(F: Field, a: seq<int>, b: seq<int>, d: nat, lo: nat, h: nat)
    requires WellFormed(F) && Elts(F, a) && Elts(F, b) && |a| > 0 && d > 0
    requires d - lo < |a| && h <= |b| && h <= d
    ensures ConvSum(F, a, b, d, lo, h) == ConvSum(F, a[1..], b, d - 1, lo, h)
    decreases h
  {
    if h > lo {
      ConvSumShift(F, a, b, d, lo, h - 1);
      assert a[d - (h - 1)] == a[1..][d - 1 - (h - 1)];
    }
  }

  /**
   * Coefficient d of (a[0] :: a') * b is a[0] * b[d] plus coefficient d-1
   * of a' * b: the product obeys a * b == a[0] * b + x * (a' * b).
   */
  lemma ConvStepZero(F: Field, a: seq<int>, b: seq<int>)
    requires WellFormed(F) && Elts(F, a) && Elts(F, b) && |a| > 0
    ensures Conv(F, a, b, 0) == if 0 < |b| then Mul(F, a[0], b[0]) else 0
  {
    assert Max(0, 0 - |a| + 1) == 0;
    if 0 < |b| {
      assert Min(0 + 1, |b|) == 1;
      assert ConvSum(F, a, b, 0, 0, 1) == Add(F, 0, Mul(F, a[0], b[0]));
      AddZero(F, Mul(F, a[0], b[0]));
    } else {
      assert Min(0 + 1, |b|) == 0;
    }
  }

  lemma ConvStepLow(F: Field, a: seq<int>, b: seq<int>, d: nat)
    requires WellFormed(F) && Elts(F, a) && Elts(F, b) && |a| > 0 && 0 < d < |b|
    ensures Conv(F, a, b, d) == Add(F, Conv(F, a[1..], b, d - 1), Mul(F, a[0], b[d]))
  {
    var lo := Max(0, d - |a| + 1);
    assert Conv(F, a, b, d) == Add(F, ConvSum(F, a, b, d, lo, d), Mul(F, a[0], b[d]));
    ConvSumShift(F, a, b, d, lo, d);
  }

  lemma ConvStepHigh(F: Field, a: seq<int>, b: seq<int>, d: nat)
    requires WellFormed(F) && Elts(F, a) && Elts(F, b) && |a| > 0 && 0 < d && |b| <= d
    ensures Conv(F, a, b, d) == Conv(F, a[1..], b, d - 1)
  {
    var lo := Max(0, d - |a| + 1);
    if lo <= |b| {
      ConvSumShift(F, a, b, d, lo, |b|);
    }
  }

  /**
   * Coefficient d of (a[0] :: a') * b is a[0] * b[d] plus coefficient d-1
   * of a' * b: the product obeys a * b == a[0] * b + x * (a' * b).
   */
  lemma ConvStep(F: Field, a: seq<int>, b: seq<int>, d: nat)
    requires WellFormed(F) && Elts(F, a) && Elts(F, b) && |a| > 0
    ensures Conv(F, a, b, d) ==
            Add(F, if d < |b| then Mul(F, a[0], b[d]) else 0,
                   if d == 0 then 0 else Conv(F, a[1..], b, d - 1))
  {
    var prev := if d == 0 then 0 else Conv(F, a[1..], b, d - 1);
    var t := if d < |b| then Mul(F, a[0], b[d]) else 0;
    AddZero(F, prev);
    AddZero(F, t);
    if d == 0 {
      ConvStepZero(F, a, b);
    } else if d < |b| {
      ConvStepLow(F, a, b, d);
      AddCommutative(F, prev, t);
    } else {
      ConvStepHigh(F, a, b, d);
    }
  }

  // ------------------------------------------------------------ evaluation

  /**
   * The value eval's loop computes: starting from the top coefficient,
   * theval = theval * x + c[k] for each lower k.  The empty list has
   * value 0 here; eval itself fails on it.
   */
  function Horner(F: Field, c: seq<int>, x: int): (r: int)
    requires WellFormed(F) && Elts(F, c) && Elt(F, x)
    ensures Elt(F, r)
    decreases |c|
  {
    if |c| == 0 then 0 else Add(F, Mul(F, Horner(F, c[1..], x), x), c[0])
  }

  /** Every list, the empty one too, splits as c[0] + (rest) * x. */
  lemma HornerHead(F: Field, c: seq<int>, x: int)
    requires WellFormed(F) && Elts(F, c) && Elt(F, x)
    ensures Elts(F, Drop1(c))
    ensures Horner(F, c, x) == Add(F, Mul(F, Horner(F, Drop1(c), x), x), Pad(F, c, 0))
  {
    if |c| == 0 {
      MulOneZero(F, x);
      AddZero(F, 0);
    }
  }

  /** A list whose coefficients are all zero has value zero. */
  lemma {:induction false} HornerZeros(F: Field, c: seq<int>, x: int)
    requires WellFormed(F) && Elts(F, c) && Elt(F, x)
    requires forall i: nat :: Pad(F, c, i) == 0
    ensures Horner(F, c, x) == 0
    decreases |c|
  {
    if |c| > 0 {
      forall i: nat ensures Pad(F, Drop1(c), i) == 0 {
        PadDrop1(F, c, i);
      }
      HornerZeros(F, Drop1(c), x);
      HornerHead(F, c, x);
      MulOneZero(F, x);
      AddZero(F, 0);
    }
  }

  /** Evaluation is additive in the coefficients. */
  lemma {:induction false} HornerLinear(F: Field, c: seq<int>, a: seq<int>, b: seq<int>, x: int)
    requires WellFormed(F) && Elts(F, c) && Elts(F, a) && Elts(F, b) && Elt(F, x)
    requires forall i: nat :: Pad(F, c, i) == Add(F, Pad(F, a, i), Pad(F, b, i))
    ensures Horner(F, c, x) == Add(F, Horner(F, a, x), Horner(F, b, x))
    decreases |a| + |b| + |c|
  {
    if |a| + |b| + |c| == 0 {
      AddZero(F, 0);
    } else {
      var a', b', c' := Drop1(a), Drop1(b), Drop1(c);
      forall i: nat ensures Pad(F, c', i) == Add(F, Pad(F, a', i), Pad(F, b', i)) {
        PadDrop1(F, a, i);
        PadDrop1(F, b, i);
        PadDrop1(F, c, i);
      }
      HornerLinear(F, c', a', b', x);
      HornerHead(F, a, x);
      HornerHead(F, b, x);
      HornerHead(F, c, x);
      var A, B := Horner(F, a', x), Horner(F, b', x);
      MulDistributiveRight(F, A, B, x);
      AddSwap(F, Mul(F, A, x), Mul(F, B, x), Pad(F, a, 0), Pad(F, b, 0));
    }
  }

  /** Scaling every coefficient by k scales the value by k. */
  lemma {:induction false} HornerScale(F: Field, c: seq<int>, a: seq<int>, k: int, x: int)
    requires WellFormed(F) && Elts(F, c) && Elts(F, a) && Elt(F, k) && Elt(F, x)
    requires forall i: nat :: Pad(F, c, i) == Mul(F, Pad(F, a, i), k)
    ensures Horner(F, c, x) == Mul(F, Horner(F, a, x), k)
    decreases |a| + |c|
  {
    if |a| + |c| == 0 {
      MulOneZero(F, k);
    } else {
      var a', c' := Drop1(a), Drop1(c);
      forall i: nat ensures Pad(F, c', i) == Mul(F, Pad(F, a', i), k) {
        PadDrop1(F, a, i);
        PadDrop1(F, c, i);
      }
      HornerScale(F, c', a', k, x);
      HornerHead(F, a, x);
      HornerHead(F, c, x);
      var A := Horner(F, a', x);
      // (A * k) * x + a0 * k == (A * x + a0) * k
      MulAssociative(F, A, k, x);
      MulCommutative(F, k, x);
      MulAssociative(F, A, x, k);
      MulDistributiveRight(F, Mul(F, A, x), Pad(F, a, 0), k);
    }
  }

  /** Lists with the same padded coefficients have the same value. */
  lemma HornerPadded(F: Field, c: seq<int>, a: seq<int>, x: int)
    requires WellFormed(F) && Elts(F, c) && Elts(F, a) && Elt(F, x)
    requires forall i: nat :: Pad(F, c, i) == Pad(F, a, i)
    ensures Horner(F, c, x) == Horner(F, a, x)
  {
    var z: seq<int> := [];
    forall i: nat ensures Pad(F, c, i) == Add(F, Pad(F, a, i), Pad(F, z, i)) {
      AddZero(F, Pad(F, a, i));
    }
    HornerLinear(F, c, a, z, x);
    AddZero(F, Horner(F, a, x));
  }

  /** Trailing zeros do not change the value. */
  lemma HornerTrim(F: Field, c: seq<int>, x: int)
    requires WellFormed(F) && Elts(F, c) && Elt(F, x)
    ensures Elts(F, Trim(c)) && Horner(F, Trim(c), x) == Horner(F, c, x)
  {
    TrimPad(F, c);
    HornerPadded(F, Trim(c), c, x);
  }

  /** Shifting the coefficients up one place multiplies the value by x. */
  lemma HornerShift(F: Field, c: seq<int>, a: seq<int>, x: int)
    requires WellFormed(F) && Elts(F, c) && Elts(F, a) && Elt(F, x)
    requires Pad(F, c, 0) == 0 && forall i: nat :: Pad(F, c, i + 1) == Pad(F, a, i)
    ensures Horner(F, c, x) == Mul(F, Horner(F, a, x), x)
  {
    forall i: nat ensures Pad(F, Drop1(c), i) == Pad(F, a, i) {
      PadDrop1(F, c, i);
    }
    HornerPadded(F, Drop1(c), a, x);
    HornerHead(F, c, x);
    AddZero(F, Mul(F, Horner(F, a, x), x));
  }

  /** The value of __addlists__(a, b) is the sum of the values. */
  lemma HornerAddLists(F: Field, a: seq<int>, b: seq<int>, x: int)
    requires WellFormed(F) && Elts(F, a) && Elts(F, b) && Elt(F, x)
    ensures Horner(F, AddLists(F, a, b), x) == Add(F, Horner(F, a, x), Horner(F, b, x))
  {
    AddListsPad(F, a, b);
    HornerLinear(F, AddLists(F, a, b), a, b, x);
  }

  /** The first coefficient's share of a product: a0 * b, coefficientwise. */
  function ScaleList(F: Field, k: int, b: seq<int>): (r: seq<int>)
    requires WellFormed(F) && Elt(F, k) && Elts(F, b)
    ensures |r| == |b| && Elts(F, r)
  {
    seq(|b|, i requires 0 <= i < |b| => Mul(F, k, b[i]))
  }

  lemma ScaleListValue(F: Field, k: int, b: seq<int>, x: int)
    requires WellFormed(F) && Elt(F, k) && Elts(F, b) && Elt(F, x)
    ensures Horner(F, ScaleList(F, k, b), x) == Mul(F, k, Horner(F, b, x))
  {
    var s := ScaleList(F, k, b);
    forall i: nat ensures Pad(F, s, i) == Mul(F, Pad(F, b, i), k) {
      if i < |b| {
        MulCommutative(F, k, b[i]);
      } else {
        MulOneZero(F, k);
      }
    }
    HornerScale(F, s, b, k, x);
    MulCommutative(F, k, Horner(F, b, x));
  }

  lemma MulListsPadSplit(F: Field, a: seq<int>, b: seq<int>, i: nat)
    requires WellFormed(F) && Elts(F, a) && Elts(F, b) && |a| > 0
    ensures Pad(F, MulLists(F, a, b), i) ==
            Add(F, Pad(F, ScaleList(F, a[0], b), i), Pad(F, [0] + MulLists(F, a[1..], b), i))
  {
    MulListsPad(F, a, b, i);
    ConvStep(F, a, b, i);
    PadScaleList(F, a[0], b, i);
    PadShifted(F, MulLists(F, a[1..], b), i);
    if i > 0 {
      MulListsPad(F, a[1..], b, i - 1);
    }
  }

  lemma PadScaleList(F: Field, k: int, b: seq<int>, i: nat)
    requires WellFormed(F) && Elt(F, k) && Elts(F, b)
    ensures Pad(F, ScaleList(F, k, b), i) == if i < |b| then Mul(F, k, b[i]) else 0
  {}

  lemma PadShifted(F: Field, c: seq<int>, i: nat)
    requires WellFormed(F) && Elts(F, c)
    ensures Elts(F, [0] + c)
    ensures Pad(F, [0] + c, i) == if i == 0 then 0 else Pad(F, c, i - 1)
  {
    ConstantsAreElts(F);
  }

  /** (a0 :: a') * b splits as a0 * b plus x * (a' * b), coefficient by coefficient. */
  lemma MulListsSplit(F: Field, a: seq<int>, b: seq<int>, x: int)
    requires WellFormed(F) && Elts(F, a) && Elts(F, b) && Elt(F, x) && |a| > 0
    ensures Horner(F, MulLists(F, a, b), x) ==
            Add(F, Mul(F, a[0], Horner(F, b, x)), Mul(F, Horner(F, MulLists(F, a[1..], b), x), x))
  {
    var m := MulLists(F, a, b);
    var m' := MulLists(F, a[1..], b);
    var s := ScaleList(F, a[0], b);
    var t := [0] + m';
    forall i: nat ensures Pad(F, m, i) == Add(F, Pad(F, s, i), Pad(F, t, i)) {
      MulListsPadSplit(F, a, b, i);
    }
    HornerLinear(F, m, s, t, x);
    ScaleListValue(F, a[0], b, x);
    HornerShift(F, t, m', x);
  }

  /** (ha' * x + a0) * hb == a0 * hb + (ha' * hb) * x */
  lemma MulStepAlgebra(F: Field, ha': int, a0: int, hb: int, x: int)
    requires WellFormed(F) && Elt(F, ha') && Elt(F, a0) && Elt(F, hb) && Elt(F, x)
    ensures Mul(F, Add(F, Mul(F, ha', x), a0), hb) == Add(F, Mul(F, a0, hb), Mul(F, Mul(F, ha', hb), x))
  {
    MulDistributiveRight(F, Mul(F, ha', x), a0, hb);
    MulAssociative(F, ha', x, hb);
    MulCommutative(F, x, hb);
    MulAssociative(F, ha', hb, x);
    AddCommutative(F, Mul(F, a0, hb), Mul(F, Mul(F, ha', hb), x));
  }

  /** The value of the convolution product is the product of the values. */
  lemma {:induction false} HornerMulLists(F: Field, a: seq<int>, b: seq<int>, x: int)
    requires WellFormed(F) && Elts(F, a) && Elts(F, b) && Elt(F, x)
    ensures Horner(F, MulLists(F, a, b), x) == Mul(F, Horner(F, a, x), Horner(F, b, x))
    decreases |a|
  {
    var m := MulLists(F, a, b);
    if |a| == 0 {
      forall i: nat ensures Pad(F, m, i) == 0 {
        MulListsPad(F, a, b, i);
      }
      HornerZeros(F, m, x);
      MulOneZero(F, Horner(F, b, x));
    } else {
      MulListsSplit(F, a, b, x);
      HornerMulLists(F, a[1..], b, x);
      MulStepAlgebra(F, Horner(F, a[1..], x), a[0], Horner(F, b, x), x);
    }
  }

  /** eval(p, 0) is the constant coefficient. */
  lemma HornerAtZero(F: Field, c: seq<int>)
    requires WellFormed(F) && Elts(F, c) && |c| > 0
    ensures Horner(F, c, 0) == c[0]
  {
    MulOneZero(F, Horner(F, c[1..], 0));
    AddZero(F, c[0]);
  }

  // ------------------------------------------------ the sum of c_k * x^k

  function Pow(F: Field, x: int, k: nat): (r: int)
    requires WellFormed(F) && Elt(F, x)
    ensures Elt(F, r)
  {
    if k == 0 then 1 else Mul(F, Pow(F, x, k - 1), x)
  }

  /** c[0] * x^0 + ... + c[n-1] * x^(n-1). */
  function PowerSum(F: Field, c: seq<int>, x: int, n: nat): (r: int)
    requires WellFormed(F) && Elts(F, c) && Elt(F, x) && n <= |c|
    ensures Elt(F, r)
  {
    if n == 0 then 0 else Add(F, PowerSum(F, c, x, n - 1), Mul(F, c[n - 1], Pow(F, x, n - 1)))
  }

  /** Peeling off the constant term: the sum for c is c[0] + x * (the sum for c[1..]). */
  lemma {:induction false} PowerSumHead(F: Field, c: seq<int>, x: int, n: nat)
    requires WellFormed(F) && Elts(F, c) && Elt(F, x) && 0 < n <= |c|
    ensures PowerSum(F, c, x, n) == Add(F, Mul(F, PowerSum(F, c[1..], x, n - 1), x), c[0])
  {
    if n == 1 {
      MulOneZero(F, c[0]);
      MulOneZero(F, x);
      AddZero(F, c[0]);
    } else {
      PowerSumHead(F, c, x, n - 1);
      var s' := PowerSum(F, c[1..], x, n - 2);
      var e := Mul(F, c[n - 1], Pow(F, x, n - 2));
      assert c[1..][n - 2] == c[n - 1];
      // ((s' * x) + c0) + c[n-1] * (x^(n-2) * x) == ((s' + e) * x) + c0
      MulAssociative(F, c[n - 1], Pow(F, x, n - 2), x);
      MulDistributiveRight(F, s', e, x);
      AddAssociative(F, Mul(F, s', x), c[0], Mul(F, e, x));
      AddCommutative(F, c[0], Mul(F, e, x));
      AddAssociative(F, Mul(F, s', x), Mul(F, e, x), c[0]);
    }
  }

  /** Horner's rule computes the sum of c_k * x^k. */
  lemma {:induction false} HornerIsPowerSum(F: Field, c: seq<int>, x: int)
    requires WellFormed(F) && Elts(F, c) && Elt(F, x)
    ensures Horner(F, c, x) == PowerSum(F, c, x, |c|)
    decreases |c|
  {
    if |c| > 0 {
      HornerIsPowerSum(F, c[1..], x);
      PowerSumHead(F, c, x, |c|);
    }
  }
}
