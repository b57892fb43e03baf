/**
 * Bits of bytes and 16-bit words read as coefficients of polynomials over
 * GF(2), and maps on bytes that preserve exclusive or ("additive" maps).  An
 * additive map is fixed by its values on the eight bytes x^0 .. x^7, which is
 * how the laws of GF(2^8) multiplication are reduced to small cases.
 */
module Bits {
  /** Units[i] is the byte x^i, that is 1 << i. */
  const Units: seq<bv8> := [0x01, 0x02, 0x04, 0x08, 0x10, 0x20, 0x40, 0x80]

  /** Units16[i] is the 16-bit word x^i. */
  const Units16: seq<bv16> := [0x0001, 0x0002, 0x0004, 0x0008, 0x0010, 0x0020, 0x0040, 0x0080,
                               0x0100, 0x0200, 0x0400, 0x0800, 0x1000, 0x2000, 0x4000, 0x8000]

  /** Masks[n] is the byte whose bits 0 .. n-1 are set. */
  const Masks: seq<bv8> := [0x00, 0x01, 0x03, 0x07, 0x0f, 0x1f, 0x3f, 0x7f, 0xff]

  function Unit(i: nat): bv8 requires i < 8 { Units[i] }

  function Unit16(i: nat): bv16 requires i < 16 { Units16[i] }

  /** Coefficient i of a byte. */
  function Bit(a: bv8, i: nat): bool requires i < 8 { a & Unit(i) != 0 }

  /** Coefficient i of a 16-bit word. */
  function Bit16(v: bv16, i: nat): bool requires i < 16 { v & Unit16(i) != 0 }

  /** Exclusive or, named so that quantifiers can mention it. */
  function Xor(x: bv8, y: bv8): bv8 { x ^ y }

  /** y if coefficient i of a is set, otherwise 0. */
  function Pick(a: bv8, i: nat, y: bv8): bv8 requires i < 8 { if Bit(a, i) then y else 0 }

  /** The sum over the set coefficients i < n of a of f(x^i). */
  function Span(a: bv8, f: bv8 -> bv8, n: nat): bv8 requires n <= 8 {
    if n == 0 then 0 else Xor(Span(a, f, n - 1), Pick(a, n - 1, f(Unit(n - 1))))
  }

  /** The set coefficients i < n of a, each as x^i; Low(a, 8) is a itself. */
  function Low(a: bv8, n: nat): bv8 requires n <= 8 {
    if n == 0 then 0 else Xor(Low(a, n - 1), Pick(a, n - 1, Unit(n - 1)))
  }

  /** f preserves exclusive or. */
  ghost predicate Additive(f: bv8 -> bv8) {
    forall x: bv8, y: bv8 {:trigger f(Xor(x, y))} :: f(Xor(x, y)) == Xor(f(x), f(y))
  }

  lemma BitXor0(a: bv8, b: bv8, i: nat) requires i == 0 ensures Bit(a ^ b, i) == (Bit(a, i) != Bit(b, i)) {}
  lemma BitXor1(a: bv8, b: bv8, i: nat) requires i == 1 ensures Bit(a ^ b, i) == (Bit(a, i) != Bit(b, i)) {}
  lemma BitXor2(a: bv8, b: bv8, i: nat) requires i == 2 ensures Bit(a ^ b, i) == (Bit(a, i) != Bit(b, i)) {}
  lemma BitXor3(a: bv8, b: bv8, i: nat) requires i == 3 ensures Bit(a ^ b, i) == (Bit(a, i) != Bit(b, i)) {}
  lemma BitXor4(a: bv8, b: bv8, i: nat) requires i == 4 ensures Bit(a ^ b, i) == (Bit(a, i) != Bit(b, i)) {}
  lemma BitXor5(a: bv8, b: bv8, i: nat) requires i == 5 ensures Bit(a ^ b, i) == (Bit(a, i) != Bit(b, i)) {}
  lemma BitXor6(a: bv8, b: bv8, i: nat) requires i == 6 ensures Bit(a ^ b, i) == (Bit(a, i) != Bit(b, i)) {}
  lemma BitXor7(a: bv8, b: bv8, i: nat) requires i == 7 ensures Bit(a ^ b, i) == (Bit(a, i) != Bit(b, i)) {}

  /** Coefficients of a sum are sums of coefficients. */
  lemma BitXor(a: bv8, b: bv8, i: nat)
    requires i < 8
    ensures Bit(a ^ b, i) == (Bit(a, i) != Bit(b, i))
  {
    if i == 0 { BitXor0(a, b, i); }
    else if i == 1 { BitXor1(a, b, i); }
    else if i == 2 { BitXor2(a, b, i); }
    else if i == 3 { BitXor3(a, b, i); }
    else if i == 4 { BitXor4(a, b, i); }
    else if i == 5 { BitXor5(a, b, i); }
    else if i == 6 { BitXor6(a, b, i); }
    else { BitXor7(a, b, i); }
  }

  lemma Bit16Xor8(v: bv16, w: bv16) ensures Bit16(v ^ w, 8) == (Bit16(v, 8) != Bit16(w, 8)) {}
  lemma Bit16Xor9(v: bv16, w: bv16) ensures Bit16(v ^ w, 9) == (Bit16(v, 9) != Bit16(w, 9)) {}
  lemma Bit16Xor10(v: bv16, w: bv16) ensures Bit16(v ^ w, 10) == (Bit16(v, 10) != Bit16(w, 10)) {}
  lemma Bit16Xor11(v: bv16, w: bv16) ensures Bit16(v ^ w, 11) == (Bit16(v, 11) != Bit16(w, 11)) {}
  lemma Bit16Xor12(v: bv16, w: bv16) ensures Bit16(v ^ w, 12) == (Bit16(v, 12) != Bit16(w, 12)) {}
  lemma Bit16Xor13(v: bv16, w: bv16) ensures Bit16(v ^ w, 13) == (Bit16(v, 13) != Bit16(w, 13)) {}
  lemma Bit16Xor14(v: bv16, w: bv16) ensures Bit16(v ^ w, 14) == (Bit16(v, 14) != Bit16(w, 14)) {}
  lemma Bit16Xor15(v: bv16, w: bv16) ensures Bit16(v ^ w, 15) == (Bit16(v, 15) != Bit16(w, 15)) {}

  /** The same for the high byte of 16-bit words. */
  lemma Bit16Xor(v: bv16, w: bv16, i: nat)
    requires 8 <= i < 16
    ensures Bit16(v ^ w, i) == (Bit16(v, i) != Bit16(w, i))
  {
    if i == 8 { Bit16Xor8(v, w); }
    else if i == 9 { Bit16Xor9(v, w); }
    else if i == 10 { Bit16Xor10(v, w); }
    else if i == 11 { Bit16Xor11(v, w); }
    else if i == 12 { Bit16Xor12(v, w); }
    else if i == 13 { Bit16Xor13(v, w); }
    else if i == 14 { Bit16Xor14(v, w); }
    else { Bit16Xor15(v, w); }
  }

  lemma Bit16OfByte8(b: bv8) ensures !Bit16(b as bv16, 8) {}
  lemma Bit16OfByte9(b: bv8) ensures !Bit16(b as bv16, 9) {}
  lemma Bit16OfByte10(b: bv8) ensures !Bit16(b as bv16, 10) {}
  lemma Bit16OfByte11(b: bv8) ensures !Bit16(b as bv16, 11) {}
  lemma Bit16OfByte12(b: bv8) ensures !Bit16(b as bv16, 12) {}
  lemma Bit16OfByte13(b: bv8) ensures !Bit16(b as bv16, 13) {}
  lemma Bit16OfByte14(b: bv8) ensures !Bit16(b as bv16, 14) {}
  lemma Bit16OfByte15(b: bv8) ensures !Bit16(b as bv16, 15) {}

  /** A byte has no coefficient above x^7. */
  lemma Bit16OfByte(b: bv8, i: nat)
    requires 8 <= i < 16
    ensures !Bit16(b as bv16, i)
  {
    if i == 8 { Bit16OfByte8(b); }
    else if i == 9 { Bit16OfByte9(b); }
    else if i == 10 { Bit16OfByte10(b); }
    else if i == 11 { Bit16OfByte11(b); }
    else if i == 12 { Bit16OfByte12(b); }
    else if i == 13 { Bit16OfByte13(b); }
    else if i == 14 { Bit16OfByte14(b); }
    else { Bit16OfByte15(b); }
  }

  lemma PickSplit(a: bv8, i: nat, y: bv8, z: bv8)
    requires i < 8
    ensures Pick(a, i, Xor(y, z)) == Xor(Pick(a, i, y), Pick(a, i, z))
  {
  }

  lemma PickXor(a: bv8, b: bv8, i: nat, y: bv8)
    requires i < 8
    ensures Pick(Xor(a, b), i, y) == Xor(Pick(a, i, y), Pick(b, i, y))
  {
    BitXor(a, b, i);
  }

  /** Coefficient i of x^j is set exactly when i == j. */
  lemma BitOfUnit(i: nat, j: nat)
    requires i < 8 && j < 8
    ensures Bit(Unit(j), i) == (i == j)
  {
  }

  lemma LowStep(a: bv8, n: nat)
    requires n < 8
    ensures a & Masks[n + 1] == (a & Masks[n]) ^ Pick(a, n, Unit(n))
  {
  }

  /** The sum of the set coefficients i < n of a, each as x^i, is a with its higher bits cleared. */
  lemma {:induction false} LowMask(a: bv8, n: nat)
    requires n <= 8
    ensures Low(a, n) == a & Masks[n]
  {
    if n > 0 {
      LowMask(a, n - 1);
      LowStep(a, n - 1);
    }
  }

  /** An additive map sends 0 to 0. */
  lemma AdditiveZero(f: bv8 -> bv8)
    requires Additive(f)
    ensures f(0) == 0
  {
    assert f(Xor(0, 0)) == Xor(f(0), f(0));
  }

  lemma PickMap(f: bv8 -> bv8, a: bv8, i: nat, y: bv8)
    requires Additive(f) && i < 8
    ensures f(Pick(a, i, y)) == Pick(a, i, f(y))
  {
    if !Bit(a, i) {
      AdditiveZero(f);
    }
  }

  lemma LowStep1(a: bv8, n: nat)
    requires 0 < n <= 8
    ensures Low(a, n) == Xor(Low(a, n - 1), Pick(a, n - 1, Unit(n - 1)))
  {
  }

  lemma AdditiveAt(f: bv8 -> bv8, x: bv8, y: bv8)
    requires Additive(f)
    ensures f(Xor(x, y)) == Xor(f(x), f(y))
  {
  }

  lemma ExpandStep(f: bv8 -> bv8, a: bv8, n: nat)
    requires Additive(f) && 0 < n <= 8
    ensures f(Low(a, n)) == Xor(f(Low(a, n - 1)), Pick(a, n - 1, f(Unit(n - 1))))
  {
    LowStep1(a, n);
    AdditiveAt(f, Low(a, n - 1), Pick(a, n - 1, Unit(n - 1)));
    PickMap(f, a, n - 1, Unit(n - 1));
  }

  lemma {:induction false} ExpandLow(f: bv8 -> bv8, a: bv8, n: nat)
    requires Additive(f) && n <= 8
    ensures f(Low(a, n)) == Span(a, f, n)
  {
    if n == 0 {
      AdditiveZero(f);
    } else {
      ExpandLow(f, a, n - 1);
      ExpandStep(f, a, n);
    }
  }

  /** An additive map is determined by its values on x^0 .. x^7. */
  lemma Expand(f: bv8 -> bv8, a: bv8)
    requires Additive(f)
    ensures f(a) == Span(a, f, 8)
  {
    LowMask(a, 8);
    ExpandLow(f, a, 8);
  }

  lemma {:induction false} SpanAgree(f: bv8 -> bv8, g: bv8 -> bv8, a: bv8, n: nat)
    requires n <= 8
    requires forall i: nat :: i < 8 ==> f(Unit(i)) == g(Unit(i))
    ensures Span(a, f, n) == Span(a, g, n)
  {
    if n > 0 {
      SpanAgree(f, g, a, n - 1);
    }
  }

  /** Two additive maps that agree on x^0 .. x^7 agree everywhere. */
  lemma AdditiveAgree(f: bv8 -> bv8, g: bv8 -> bv8, a: bv8)
    requires Additive(f) && Additive(g)
    requires forall i: nat :: i < 8 ==> f(Unit(i)) == g(Unit(i))
    ensures f(a) == g(a)
  {
    Expand(f, a);
    Expand(g, a);
    SpanAgree(f, g, a, 8);
  }

  // -------------------------------------------------- iterates of a map

  /** f applied k times to y. */
  function Iterate(f: bv8 -> bv8, y: bv8, k: nat): bv8 {
    if k == 0 then y else f(Iterate(f, y, k - 1))
  }

  /** The sum, over the set coefficients i < n of a, of f applied i times to y. */
  function IterSum(a: bv8, f: bv8 -> bv8, y: bv8, n: nat): bv8 requires n <= 8 {
    if n == 0 then 0 else Xor(IterSum(a, f, y, n - 1), Pick(a, n - 1, Iterate(f, y, n - 1)))
  }

  lemma {:induction false} IterateAdditive(f: bv8 -> bv8, y: bv8, z: bv8, k: nat)
    requires Additive(f)
    ensures Iterate(f, Xor(y, z), k) == Xor(Iterate(f, y, k), Iterate(f, z, k))
  {
    if k > 0 {
      IterateAdditive(f, y, z, k - 1);
      AdditiveAt(f, Iterate(f, y, k - 1), Iterate(f, z, k - 1));
    }
  }

  lemma {:induction false} IterateZero(f: bv8 -> bv8, k: nat)
    requires Additive(f)
    ensures Iterate(f, 0, k) == 0
  {
    AdditiveZero(f);
    if k > 0 {
      IterateZero(f, k - 1);
    }
  }

  lemma {:induction false} IterateCommute(f: bv8 -> bv8, y: bv8, k: nat)
    ensures Iterate(f, f(y), k) == f(Iterate(f, y, k))
  {
    if k > 0 {
      IterateCommute(f, y, k - 1);
    }
  }

  lemma {:induction false} IterateCompose(f: bv8 -> bv8, y: bv8, j: nat, k: nat)
    ensures Iterate(f, Iterate(f, y, j), k) == Iterate(f, y, j + k)
  {
    if k > 0 {
      IterateCompose(f, y, j, k - 1);
    }
  }

  lemma XorAssoc(p: bv8, q: bv8, r: bv8)
    ensures Xor(Xor(p, q), r) == Xor(p, Xor(q, r))
  {
  }

  lemma XorComm(p: bv8, q: bv8)
    ensures Xor(p, q) == Xor(q, p)
  {
  }

  /** Exclusive or may be regrouped. */
  lemma XorSwap(p: bv8, q: bv8, r: bv8, t: bv8)
    ensures Xor(Xor(p, q), Xor(r, t)) == Xor(Xor(p, r), Xor(q, t))
  {
    XorAssoc(p, q, Xor(r, t));
    XorAssoc(q, r, t);
    XorComm(q, r);
    XorAssoc(r, q, t);
    XorAssoc(p, r, Xor(q, t));
  }

  lemma {:induction false} IterSumAdditiveLeft(a: bv8, a': bv8, f: bv8 -> bv8, y: bv8, n: nat)
    requires n <= 8
    ensures IterSum(Xor(a, a'), f, y, n) == Xor(IterSum(a, f, y, n), IterSum(a', f, y, n))
  {
    if n > 0 {
      IterSumAdditiveLeft(a, a', f, y, n - 1);
      PickXor(a, a', n - 1, Iterate(f, y, n - 1));
      XorSwap(IterSum(a, f, y, n - 1), IterSum(a', f, y, n - 1), Pick(a, n - 1, Iterate(f, y, n - 1)), Pick(a', n - 1, Iterate(f, y, n - 1)));
    }
  }

  lemma {:induction false} IterSumAdditiveRight(a: bv8, f: bv8 -> bv8, y: bv8, z: bv8, n: nat)
    requires Additive(f) && n <= 8
    ensures IterSum(a, f, Xor(y, z), n) == Xor(IterSum(a, f, y, n), IterSum(a, f, z, n))
  {
    if n > 0 {
      IterSumAdditiveRight(a, f, y, z, n - 1);
      IterateAdditive(f, y, z, n - 1);
      PickSplit(a, n - 1, Iterate(f, y, n - 1), Iterate(f, z, n - 1));
      XorSwap(IterSum(a, f, y, n - 1), IterSum(a, f, z, n - 1), Pick(a, n - 1, Iterate(f, y, n - 1)), Pick(a, n - 1, Iterate(f, z, n - 1)));
    }
  }

  lemma {:induction false} IterSumCommute(a: bv8, f: bv8 -> bv8, y: bv8, n: nat)
    requires Additive(f) && n <= 8
    ensures IterSum(a, f, f(y), n) == f(IterSum(a, f, y, n))
  {
    if n == 0 {
      AdditiveZero(f);
    } else {
      IterSumCommute(a, f, y, n - 1);
      IterateCommute(f, y, n - 1);
      PickMap(f, a, n - 1, Iterate(f, y, n - 1));
      AdditiveAt(f, IterSum(a, f, y, n - 1), Pick(a, n - 1, Iterate(f, y, n - 1)));
    }
  }

  lemma {:induction false} IterSumUnit(i: nat, f: bv8 -> bv8, y: bv8, n: nat)
    requires i < 8 && n <= 8
    ensures IterSum(Unit(i), f, y, n) == if i < n then Iterate(f, y, i) else 0
  {
    if n > 0 {
      IterSumUnit(i, f, y, n - 1);
      BitOfUnit(n - 1, i);
    }
  }
}
