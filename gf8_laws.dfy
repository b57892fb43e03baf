/**
 * The laws of GF(2^8) multiplication as GF8elt.mul computes it.  The product
 * is first shown equal to a shift-and-add form, where multiplying by x is
 * XTime; commutativity, associativity and distributivity then follow from
 * the fact that both sides are additive in each argument, so that it suffices
 * to compare them on the bytes x^0 .. x^7.
 */
module GF8Laws {
  import opened Bits
  import opened GF8

  /** Multiplication by x: shift left, and replace x^8 by x^4 + x^3 + x + 1. */
  function XTime(y: bv8): bv8 { if y & 0x80 != 0 then (y << 1) ^ 0x1b else y << 1 }

  /** y * x^k. */
  function XPow(y: bv8, k: nat): bv8 { Iterate(XTime, y, k) }

  /** The shift-and-add product of a and b: the sum of b * x^i over the set coefficients i of a. */
  function ShiftAdd(a: bv8, b: bv8): bv8 { IterSum(a, XTime, b, 8) }

  // ---------------------------------------------------------------- addition

  /** GF8elt.add, __neg__ and __sub__ make the bytes an abelian group in which every element is its own negative. */
  lemma AddGroup(a: bv8, b: bv8, c: bv8)
    ensures Add(a, b) == Add(b, a)
    ensures Add(Add(a, b), c) == Add(a, Add(b, c))
    ensures Add(a, 0) == a
    ensures Add(a, Neg(a)) == 0
    ensures Sub(a, b) == Add(a, Neg(b))
    ensures Sub(Add(a, b), b) == a
  {
  }

  /** A sum of bytes is zero exactly when they are equal. */
  lemma AddZeroIff(a: bv8, b: bv8)
    ensures Sub(a, b) == 0 <==> a == b
  {
  }

  /** The worked example: 0x7b + 0xf5 == 0x8e. */
  lemma AddExample()
    ensures Add(0x7b, 0xf5) == 0x8e
  {
  }

  // ------------------------------------------------------------ XTime, XPow

  lemma XTimeXor(y: bv8, z: bv8)
    ensures XTime(y ^ z) == XTime(y) ^ XTime(z)
  {
    if y & 0x80 != 0 {
      if z & 0x80 != 0 { assert (y ^ z) & 0x80 == 0; } else { assert (y ^ z) & 0x80 != 0; }
    } else {
      if z & 0x80 != 0 { assert (y ^ z) & 0x80 != 0; } else { assert (y ^ z) & 0x80 == 0; }
    }
  }

  /** Multiplication by x distributes over addition. */
  lemma XTimeAdditive()
    ensures Additive(XTime)
  {
    forall y: bv8, z: bv8 ensures XTime(Xor(y, z)) == Xor(XTime(y), XTime(z)) {
      XTimeXor(y, z);
    }
  }

  lemma UnitNext0(i: nat) requires i == 0 ensures Unit(i + 1) == XTime(Unit(i)) {}
  lemma UnitNext1(i: nat) requires i == 1 ensures Unit(i + 1) == XTime(Unit(i)) {}
  lemma UnitNext2(i: nat) requires i == 2 ensures Unit(i + 1) == XTime(Unit(i)) {}
  lemma UnitNext3(i: nat) requires i == 3 ensures Unit(i + 1) == XTime(Unit(i)) {}
  lemma UnitNext4(i: nat) requires i == 4 ensures Unit(i + 1) == XTime(Unit(i)) {}
  lemma UnitNext5(i: nat) requires i == 5 ensures Unit(i + 1) == XTime(Unit(i)) {}
  lemma UnitNext6(i: nat) requires i == 6 ensures Unit(i + 1) == XTime(Unit(i)) {}

  lemma UnitNext(i: nat)
    requires i < 7
    ensures Unit(i + 1) == XTime(Unit(i))
  {
    if i == 0 { UnitNext0(i); }
    else if i == 1 { UnitNext1(i); }
    else if i == 2 { UnitNext2(i); }
    else if i == 3 { UnitNext3(i); }
    else if i == 4 { UnitNext4(i); }
    else if i == 5 { UnitNext5(i); }
    else { UnitNext6(i); }
  }

  /** The byte x^i is 1 multiplied by x, i times. */
  lemma {:induction false} UnitIsPow(i: nat)
    requires i < 8
    ensures Unit(i) == XPow(1, i)
  {
    if i > 0 {
      UnitIsPow(i - 1);
      UnitNext(i - 1);
    }
  }

  // ---------------------------------------------------- shift-and-add laws

  /** Multiplying by x^i is multiplying by x, i times. */
  lemma ShiftAddUnit(i: nat, b: bv8)
    requires i < 8
    ensures ShiftAdd(Unit(i), b) == XPow(b, i)
  {
    IterSumUnit(i, XTime, b, 8);
  }

  lemma ShiftAddLeftAdditive(b: bv8)
    ensures Additive(x => ShiftAdd(x, b))
  {
    forall x: bv8, y: bv8 ensures ShiftAdd(Xor(x, y), b) == Xor(ShiftAdd(x, b), ShiftAdd(y, b)) {
      IterSumAdditiveLeft(x, y, XTime, b, 8);
    }
  }

  lemma ShiftAddRightAdditive(a: bv8)
    ensures Additive(y => ShiftAdd(a, y))
  {
    XTimeAdditive();
    forall x: bv8, y: bv8 ensures ShiftAdd(a, Xor(x, y)) == Xor(ShiftAdd(a, x), ShiftAdd(a, y)) {
      IterSumAdditiveRight(a, XTime, x, y, 8);
    }
  }

  /** x^j * x^i == x^i * x^j. */
  lemma ShiftAddUnitsCommute(i: nat, j: nat)
    requires i < 8 && j < 8
    ensures ShiftAdd(Unit(j), Unit(i)) == ShiftAdd(Unit(i), Unit(j))
  {
    ShiftAddUnit(j, Unit(i));
    ShiftAddUnit(i, Unit(j));
    UnitIsPow(i);
    UnitIsPow(j);
    IterateCompose(XTime, 1, i, j);
    IterateCompose(XTime, 1, j, i);
    assert i + j == j + i;
  }

  lemma ShiftAddUnitCommutes(i: nat, b: bv8)
    requires i < 8
    ensures ShiftAdd(b, Unit(i)) == ShiftAdd(Unit(i), b)
  {
    ShiftAddLeftAdditive(Unit(i));
    ShiftAddRightAdditive(Unit(i));
    forall j: nat | j < 8
      ensures (x => ShiftAdd(x, Unit(i)))(Unit(j)) == (y => ShiftAdd(Unit(i), y))(Unit(j))
    {
      ShiftAddUnitsCommute(i, j);
    }
    AdditiveAgree(x => ShiftAdd(x, Unit(i)), y => ShiftAdd(Unit(i), y), b);
  }

  lemma ShiftAddCommutative(a: bv8, b: bv8)
    ensures ShiftAdd(a, b) == ShiftAdd(b, a)
  {
    ShiftAddLeftAdditive(b);
    ShiftAddRightAdditive(b);
    forall i: nat | i < 8
      ensures (x => ShiftAdd(x, b))(Unit(i)) == (y => ShiftAdd(b, y))(Unit(i))
    {
      ShiftAddUnitCommutes(i, b);
    }
    AdditiveAgree(x => ShiftAdd(x, b), y => ShiftAdd(b, y), a);
  }

  lemma ShiftAddXTime(w: bv8, c: bv8)
    ensures ShiftAdd(XTime(w), c) == XTime(ShiftAdd(w, c))
  {
    XTimeAdditive();
    ShiftAddCommutative(XTime(w), c);
    IterSumCommute(c, XTime, w, 8);
    ShiftAddCommutative(c, w);
  }

  lemma {:induction false} ShiftAddXPow(w: bv8, c: bv8, i: nat)
    ensures ShiftAdd(XPow(w, i), c) == XPow(ShiftAdd(w, c), i)
  {
    if i > 0 {
      ShiftAddXPow(w, c, i - 1);
      ShiftAddXTime(XPow(w, i - 1), c);
    }
  }

  lemma ShiftAddTwiceAdditive(b: bv8, c: bv8)
    ensures Additive(x => ShiftAdd(ShiftAdd(x, b), c))
  {
    forall x: bv8, y: bv8 ensures ShiftAdd(ShiftAdd(Xor(x, y), b), c) == Xor(ShiftAdd(ShiftAdd(x, b), c), ShiftAdd(ShiftAdd(y, b), c)) {
      IterSumAdditiveLeft(x, y, XTime, b, 8);
      IterSumAdditiveLeft(ShiftAdd(x, b), ShiftAdd(y, b), XTime, c, 8);
    }
  }

  lemma ShiftAddAssociativeUnit(i: nat, b: bv8, c: bv8)
    requires i < 8
    ensures ShiftAdd(ShiftAdd(Unit(i), b), c) == ShiftAdd(Unit(i), ShiftAdd(b, c))
  {
    ShiftAddUnit(i, b);
    ShiftAddXPow(b, c, i);
    ShiftAddUnit(i, ShiftAdd(b, c));
  }

  lemma ShiftAddAssociative(a: bv8, b: bv8, c: bv8)
    ensures ShiftAdd(ShiftAdd(a, b), c) == ShiftAdd(a, ShiftAdd(b, c))
  {
    ShiftAddTwiceAdditive(b, c);
    ShiftAddLeftAdditive(ShiftAdd(b, c));
    forall i: nat | i < 8
      ensures (x => ShiftAdd(ShiftAdd(x, b), c))(Unit(i)) == (x => ShiftAdd(x, ShiftAdd(b, c)))(Unit(i))
    {
      ShiftAddAssociativeUnit(i, b, c);
    }
    AdditiveAgree(x => ShiftAdd(ShiftAdd(x, b), c), x => ShiftAdd(x, ShiftAdd(b, c)), a);
  }

  lemma ShiftAddDistributive(a: bv8, b: bv8, c: bv8)
    ensures ShiftAdd(a, b ^ c) == ShiftAdd(a, b) ^ ShiftAdd(a, c)
  {
    XTimeAdditive();
    IterSumAdditiveRight(a, XTime, b, c, 8);
  }

  lemma ShiftAddOne(b: bv8)
    ensures ShiftAdd(1, b) == b
  {
    ShiftAddUnit(0, b);
  }

  lemma ShiftAddZero(b: bv8)
    ensures ShiftAdd(0, b) == 0
  {
    ShiftAddLeftAdditive(b);
    AdditiveZero(x => ShiftAdd(x, b));
  }

  // ------------------------------------------------ __reduceGF8 and XTime

  lemma FeedbackXor(u: bv16, v: bv16, i: nat)
    requires i < 8
    ensures Feedback(u ^ v, i) == Xor(Feedback(u, i), Feedback(v, i))
  {
    Bit16Xor(u, v, 8 + i);
  }

  lemma FeedbackLowStep(v: bv16, n: nat)
    requires 0 < n <= 8
    ensures FeedbackLow(v, n) == Xor(FeedbackLow(v, n - 1), Feedback(v, n - 1))
  {
  }

  lemma {:induction false} FeedbackLowXor(u: bv16, v: bv16, n: nat)
    requires n <= 8
    ensures FeedbackLow(u ^ v, n) == Xor(FeedbackLow(u, n), FeedbackLow(v, n))
  {
    if n > 0 {
      FeedbackLowXor(u, v, n - 1);
      FeedbackLowStep(u ^ v, n);
      FeedbackLowStep(u, n);
      FeedbackLowStep(v, n);
      FeedbackXor(u, v, n - 1);
      XorSwap(FeedbackLow(u, n - 1), FeedbackLow(v, n - 1), Feedback(u, n - 1), Feedback(v, n - 1));
    }
  }

  lemma LowByteXor(u: bv16, v: bv16)
    ensures ((u ^ v) & 0xff) as bv8 == Xor((u & 0xff) as bv8, (v & 0xff) as bv8)
  {
  }

  lemma ReduceIs(v: bv16)
    ensures Reduce(v) == Xor((v & 0xff) as bv8, FeedbackLow(v, 8))
  {
  }

  /** Reduction distributes over addition. */
  lemma ReduceXor(u: bv16, v: bv16)
    ensures Reduce(u ^ v) == Xor(Reduce(u), Reduce(v))
  {
    ReduceIs(u ^ v);
    ReduceIs(u);
    ReduceIs(v);
    LowByteXor(u, v);
    FeedbackLowXor(u, v, 8);
    XorSwap((u & 0xff) as bv8, (v & 0xff) as bv8, FeedbackLow(u, 8), FeedbackLow(v, 8));
  }

  lemma {:induction false} FeedbackLowOfByte(b: bv8, n: nat)
    requires n <= 8
    ensures FeedbackLow(b as bv16, n) == 0
  {
    if n > 0 {
      FeedbackLowOfByte(b, n - 1);
      Bit16OfByte(b, 8 + n - 1);
    }
  }

  /** A word without high coefficients is already reduced. */
  lemma ReduceOfByte(b: bv8)
    ensures Reduce(b as bv16) == b
  {
    FeedbackLowOfByte(b, 8);
  }

  lemma FeedbackUnroll1(v: bv16) ensures FeedbackLow(v, 1) == Xor(0, Feedback(v, 0)) { FeedbackLowStep(v, 1); }
  lemma FeedbackUnroll2(v: bv16) ensures FeedbackLow(v, 2) == Xor(Xor(0, Feedback(v, 0)), Feedback(v, 1)) { FeedbackLowStep(v, 2); FeedbackUnroll1(v); }
  lemma FeedbackUnroll3(v: bv16) ensures FeedbackLow(v, 3) == Xor(Xor(Xor(0, Feedback(v, 0)), Feedback(v, 1)), Feedback(v, 2)) { FeedbackLowStep(v, 3); FeedbackUnroll2(v); }
  lemma FeedbackUnroll4(v: bv16) ensures FeedbackLow(v, 4) == Xor(Xor(Xor(Xor(0, Feedback(v, 0)), Feedback(v, 1)), Feedback(v, 2)), Feedback(v, 3)) { FeedbackLowStep(v, 4); FeedbackUnroll3(v); }
  lemma FeedbackUnroll5(v: bv16) ensures FeedbackLow(v, 5) == Xor(Xor(Xor(Xor(Xor(0, Feedback(v, 0)), Feedback(v, 1)), Feedback(v, 2)), Feedback(v, 3)), Feedback(v, 4)) { FeedbackLowStep(v, 5); FeedbackUnroll4(v); }
  lemma FeedbackUnroll6(v: bv16) ensures FeedbackLow(v, 6) == Xor(Xor(Xor(Xor(Xor(Xor(0, Feedback(v, 0)), Feedback(v, 1)), Feedback(v, 2)), Feedback(v, 3)), Feedback(v, 4)), Feedback(v, 5)) { FeedbackLowStep(v, 6); FeedbackUnroll5(v); }
  lemma FeedbackUnroll7(v: bv16) ensures FeedbackLow(v, 7) == Xor(Xor(Xor(Xor(Xor(Xor(Xor(0, Feedback(v, 0)), Feedback(v, 1)), Feedback(v, 2)), Feedback(v, 3)), Feedback(v, 4)), Feedback(v, 5)), Feedback(v, 6)) { FeedbackLowStep(v, 7); FeedbackUnroll6(v); }
  lemma FeedbackUnroll8(v: bv16) ensures FeedbackLow(v, 8) == Xor(Xor(Xor(Xor(Xor(Xor(Xor(Xor(0, Feedback(v, 0)), Feedback(v, 1)), Feedback(v, 2)), Feedback(v, 3)), Feedback(v, 4)), Feedback(v, 5)), Feedback(v, 6)), Feedback(v, 7)) { FeedbackLowStep(v, 8); FeedbackUnroll7(v); }

  lemma ReduceUnitStep0() ensures Reduce(Unit16(1)) == XTime(Reduce(Unit16(0))) { FeedbackUnroll8(Unit16(1)); FeedbackUnroll8(Unit16(0)); }
  lemma ReduceUnitStep1() ensures Reduce(Unit16(2)) == XTime(Reduce(Unit16(1))) { FeedbackUnroll8(Unit16(2)); FeedbackUnroll8(Unit16(1)); }
  lemma ReduceUnitStep2() ensures Reduce(Unit16(3)) == XTime(Reduce(Unit16(2))) { FeedbackUnroll8(Unit16(3)); FeedbackUnroll8(Unit16(2)); }
  lemma ReduceUnitStep3() ensures Reduce(Unit16(4)) == XTime(Reduce(Unit16(3))) { FeedbackUnroll8(Unit16(4)); FeedbackUnroll8(Unit16(3)); }
  lemma ReduceUnitStep4() ensures Reduce(Unit16(5)) == XTime(Reduce(Unit16(4))) { FeedbackUnroll8(Unit16(5)); FeedbackUnroll8(Unit16(4)); }
  lemma ReduceUnitStep5() ensures Reduce(Unit16(6)) == XTime(Reduce(Unit16(5))) { FeedbackUnroll8(Unit16(6)); FeedbackUnroll8(Unit16(5)); }
  lemma ReduceUnitStep6() ensures Reduce(Unit16(7)) == XTime(Reduce(Unit16(6))) { FeedbackUnroll8(Unit16(7)); FeedbackUnroll8(Unit16(6)); }
  lemma ReduceUnitStep7() ensures Reduce(Unit16(8)) == XTime(Reduce(Unit16(7))) { FeedbackUnroll8(Unit16(8)); FeedbackUnroll8(Unit16(7)); }
  lemma ReduceUnitStep8() ensures Reduce(Unit16(9)) == XTime(Reduce(Unit16(8))) { FeedbackUnroll8(Unit16(9)); FeedbackUnroll8(Unit16(8)); }
  lemma ReduceUnitStep9() ensures Reduce(Unit16(10)) == XTime(Reduce(Unit16(9))) { FeedbackUnroll8(Unit16(10)); FeedbackUnroll8(Unit16(9)); }
  lemma ReduceUnitStep10() ensures Reduce(Unit16(11)) == XTime(Reduce(Unit16(10))) { FeedbackUnroll8(Unit16(11)); FeedbackUnroll8(Unit16(10)); }
  lemma ReduceUnitStep11() ensures Reduce(Unit16(12)) == XTime(Reduce(Unit16(11))) { FeedbackUnroll8(Unit16(12)); FeedbackUnroll8(Unit16(11)); }
  lemma ReduceUnitStep12() ensures Reduce(Unit16(13)) == XTime(Reduce(Unit16(12))) { FeedbackUnroll8(Unit16(13)); FeedbackUnroll8(Unit16(12)); }
  lemma ReduceUnitStep13() ensures Reduce(Unit16(14)) == XTime(Reduce(Unit16(13))) { FeedbackUnroll8(Unit16(14)); FeedbackUnroll8(Unit16(13)); }

  /** Reducing x^(p+1) is multiplying the reduction of x^p by x. */
  lemma ReduceUnitStep(p: nat)
    requires p < 14
    ensures Reduce(Unit16(p + 1)) == XTime(Reduce(Unit16(p)))
  {
    if p == 0 { ReduceUnitStep0(); }
    else if p == 1 { ReduceUnitStep1(); }
    else if p == 2 { ReduceUnitStep2(); }
    else if p == 3 { ReduceUnitStep3(); }
    else if p == 4 { ReduceUnitStep4(); }
    else if p == 5 { ReduceUnitStep5(); }
    else if p == 6 { ReduceUnitStep6(); }
    else if p == 7 { ReduceUnitStep7(); }
    else if p == 8 { ReduceUnitStep8(); }
    else if p == 9 { ReduceUnitStep9(); }
    else if p == 10 { ReduceUnitStep10(); }
    else if p == 11 { ReduceUnitStep11(); }
    else if p == 12 { ReduceUnitStep12(); }
    else { ReduceUnitStep13(); }
  }

  /** x^p reduces to 1 multiplied by x, p times. */
  lemma {:induction false} ReduceUnit(p: nat)
    requires p < 15
    ensures Reduce(Unit16(p)) == XPow(1, p)
  {
    if p == 0 {
      ReduceOfByte(1);
    } else {
      ReduceUnit(p - 1);
      ReduceUnitStep(p - 1);
    }
  }

  lemma ShiftUnit0(j: nat, i: nat) requires j < 8 && i == 0 ensures (Unit(j) as bv16) << i == Unit16(i + j) { }
  lemma ShiftUnit1(j: nat, i: nat) requires j < 8 && i == 1 ensures (Unit(j) as bv16) << i == Unit16(i + j) { }
  lemma ShiftUnit2(j: nat, i: nat) requires j < 8 && i == 2 ensures (Unit(j) as bv16) << i == Unit16(i + j) { }
  lemma ShiftUnit3(j: nat, i: nat) requires j < 8 && i == 3 ensures (Unit(j) as bv16) << i == Unit16(i + j) { }
  lemma ShiftUnit4(j: nat, i: nat) requires j < 8 && i == 4 ensures (Unit(j) as bv16) << i == Unit16(i + j) { }
  lemma ShiftUnit5(j: nat, i: nat) requires j < 8 && i == 5 ensures (Unit(j) as bv16) << i == Unit16(i + j) { }
  lemma ShiftUnit6(j: nat, i: nat) requires j < 8 && i == 6 ensures (Unit(j) as bv16) << i == Unit16(i + j) { }
  lemma ShiftUnit7(j: nat, i: nat) requires j < 8 && i == 7 ensures (Unit(j) as bv16) << i == Unit16(i + j) { }

  /** The byte x^j, shifted left by i, is the word x^(i+j). */
  lemma ShiftUnit(j: nat, i: nat)
    requires j < 8 && i < 8
    ensures (Unit(j) as bv16) << i == Unit16(i + j)
  {
    if i == 0 { ShiftUnit0(j, i); }
    else if i == 1 { ShiftUnit1(j, i); }
    else if i == 2 { ShiftUnit2(j, i); }
    else if i == 3 { ShiftUnit3(j, i); }
    else if i == 4 { ShiftUnit4(j, i); }
    else if i == 5 { ShiftUnit5(j, i); }
    else if i == 6 { ShiftUnit6(j, i); }
    else { ShiftUnit7(j, i); }
  }

  lemma ShiftXor(b: bv8, c: bv8, i: nat) requires i < 8 ensures ((b ^ c) as bv16) << i == ((b as bv16) << i) ^ ((c as bv16) << i) { }

  /** b * x^i, reduced. */
  function ReduceShifted(b: bv8, i: nat): bv8 requires i < 8 { Reduce((b as bv16) << i) }

  lemma ReduceShiftAdditive(i: nat)
    requires i < 8
    ensures Additive(x => ReduceShifted(x, i))
  {
    forall x: bv8, y: bv8 ensures ReduceShifted(Xor(x, y), i) == Xor(ReduceShifted(x, i), ReduceShifted(y, i)) {
      ShiftXor(x, y, i);
      ReduceXor((x as bv16) << i, (y as bv16) << i);
    }
  }

  lemma ReduceShiftedUnit(j: nat, i: nat)
    requires j < 8 && i < 8
    ensures ReduceShifted(Unit(j), i) == Reduce(Unit16(i + j))
  {
    ShiftUnit(j, i);
  }

  lemma XPowUnit(j: nat, i: nat)
    requires j < 8 && i < 8
    ensures XPow(Unit(j), i) == XPow(1, i + j)
  {
    UnitIsPow(j);
    IterateCompose(XTime, 1, j, i);
  }

  lemma ReduceShiftUnit(j: nat, i: nat)
    requires j < 8 && i < 8
    ensures ReduceShifted(Unit(j), i) == XPow(Unit(j), i)
  {
    ReduceShiftedUnit(j, i);
    ReduceUnit(i + j);
    XPowUnit(j, i);
  }

  lemma XPowAdditive(i: nat)
    ensures Additive(x => XPow(x, i))
  {
    XTimeAdditive();
    forall x: bv8, y: bv8 ensures XPow(Xor(x, y), i) == Xor(XPow(x, i), XPow(y, i)) {
      IterateAdditive(XTime, x, y, i);
    }
  }

  lemma ReduceShiftedIsXPow(b: bv8, i: nat)
    requires i < 8
    ensures ReduceShifted(b, i) == XPow(b, i)
  {
    ReduceShiftAdditive(i);
    XPowAdditive(i);
    forall j: nat | j < 8
      ensures (x => ReduceShifted(x, i))(Unit(j)) == (x => XPow(x, i))(Unit(j))
    {
      ReduceShiftUnit(j, i);
    }
    AdditiveAgree(x => ReduceShifted(x, i), x => XPow(x, i), b);
  }

  /** Reducing b * x^i gives b multiplied by x, i times. */
  lemma ReduceShift(b: bv8, i: nat)
    requires i < 8
    ensures Reduce((b as bv16) << i) == XPow(b, i)
  {
    ReduceShiftedIsXPow(b, i);
  }

  // ------------------------------------------------- GF8elt.mul is a field product

  lemma ReduceZero()
    ensures Reduce(0) == 0
  {
    ReduceOfByte(0);
  }

  lemma ReduceTerm(a: bv8, b: bv8, i: nat)
    requires i < 8
    ensures Reduce(Term(a, b as bv16, i)) == Pick(a, i, XPow(b, i))
  {
    if Bit(a, i) {
      ReduceShift(b, i);
    } else {
      ReduceZero();
    }
  }

  lemma {:induction false} ReduceClmulLow(a: bv8, b: bv8, n: nat)
    requires n <= 8
    ensures Reduce(ClmulLow(a, b as bv16, n)) == IterSum(a, XTime, b, n)
  {
    if n == 0 {
      ReduceZero();
    } else {
      ReduceClmulLow(a, b, n - 1);
      ReduceXor(ClmulLow(a, b as bv16, n - 1), Term(a, b as bv16, n - 1));
      ReduceTerm(a, b, n - 1);
    }
  }

  /** The product GF8elt.mul computes is the shift-and-add product. */
  lemma ProductIsShiftAdd(a: bv8, b: bv8)
    ensures Product(a, b) == ShiftAdd(a, b)
  {
    ReduceClmulLow(a, b, 8);
  }

  /** GF8elt.mul is commutative. */
  lemma MulCommutative(a: bv8, b: bv8)
    ensures Product(a, b) == Product(b, a)
  {
    ProductIsShiftAdd(a, b);
    ProductIsShiftAdd(b, a);
    ShiftAddCommutative(a, b);
  }

  /** GF8elt.mul is associative. */
  lemma MulAssociative(a: bv8, b: bv8, c: bv8)
    ensures Product(Product(a, b), c) == Product(a, Product(b, c))
  {
    ProductIsShiftAdd(a, b);
    ProductIsShiftAdd(b, c);
    ProductIsShiftAdd(Product(a, b), c);
    ProductIsShiftAdd(a, Product(b, c));
    ShiftAddAssociative(a, b, c);
  }

  /** GF8elt.mul distributes over GF8elt.add. */
  lemma MulDistributive(a: bv8, b: bv8, c: bv8)
    ensures Product(a, Add(b, c)) == Add(Product(a, b), Product(a, c))
  {
    ProductIsShiftAdd(a, b);
    ProductIsShiftAdd(a, c);
    ProductIsShiftAdd(a, b ^ c);
    ShiftAddDistributive(a, b, c);
  }

  /** 1 is the multiplicative identity and 0 annihilates. */
  lemma MulIdentity(b: bv8)
    ensures Product(1, b) == b && Product(b, 1) == b
    ensures Product(0, b) == 0 && Product(b, 0) == 0
  {
    ProductIsShiftAdd(1, b);
    ShiftAddOne(b);
    ProductIsShiftAdd(0, b);
    ShiftAddZero(b);
    MulCommutative(1, b);
    MulCommutative(0, b);
  }

  /** The worked example of FIPS-197 section 4.2: {57} * {83} = {c1}. */
  lemma MulExample()
    ensures Product(0x57, 0x83) == 0xc1
  {
    ProductIsShiftAdd(0x57, 0x83);
  }
}
