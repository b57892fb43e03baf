/**
 * The worked key splits in the documentation of shamirshare.py and
 * shamirshare2.py, checked on the model: the polynomial given there as
 * the result of fit takes the chosen shares at their x values, the new
 * users' shares at theirs and, at 0, the secret.
 */
module WorkedExamples {
  import opened Fields
  import opened PolyLists
  import Bits
  import GF8
  import GF8Laws

  /** Horner's rule on three coefficients, one multiply-and-add at a time. */
  lemma HornerQuadratic(F: Field, c: seq<int>, x: int, h1: int, h0: int)
    requires WellFormed(F) && |c| == 3 && Elts(F, c) && Elt(F, x)
    requires Add(F, Mul(F, c[2], x), c[1]) == h1
    requires Add(F, Mul(F, h1, x), c[0]) == h0
    ensures Horner(F, c, x) == h0
  {
    MulOneZero(F, x);
    AddZero(F, c[2]);
    var t2, t1 := c[2..], c[1..];
    assert t2[1..] == [] && t1[1..] == t2 && c[1..] == t1;
    assert Horner(F, t2, x) == c[2];
    assert Horner(F, t1, x) == h1;
  }

  /** Horner's rule on four coefficients, one multiply-and-add at a time. */
  lemma HornerCubic(F: Field, c: seq<int>, x: int, h2: int, h1: int, h0: int)
    requires WellFormed(F) && |c| == 4 && Elts(F, c) && Elt(F, x)
    requires Add(F, Mul(F, c[3], x), c[2]) == h2
    requires Add(F, Mul(F, h2, x), c[1]) == h1
    requires Add(F, Mul(F, h1, x), c[0]) == h0
    ensures Horner(F, c, x) == h0
  {
    MulOneZero(F, x);
    AddZero(F, c[3]);
    var t3, t2, t1 := c[3..], c[2..], c[1..];
    assert t3[1..] == [] && t2[1..] == t3 && t1[1..] == t2 && c[1..] == t1;
    assert Horner(F, t3, x) == c[3];
    assert Horner(F, t2, x) == h2;
    assert Horner(F, t1, x) == h1;
  }

  // ------------------------------------------------ GF(13): 4-of-5 split

  /** 7 + 6x + 6x^2 + 10x^3 over GF(13) at one x. */
  lemma PrimeCubicAt(x: int, h2: int, h1: int, h0: int)
    requires 0 <= x < 13
    requires Add(PrimeField(13), Mul(PrimeField(13), 10, x), 6) == h2
    requires Add(PrimeField(13), Mul(PrimeField(13), h2, x), 6) == h1
    requires Add(PrimeField(13), Mul(PrimeField(13), h1, x), 7) == h0
    ensures Horner(PrimeField(13), [7, 6, 6, 10], x) == h0
  {
    HornerCubic(PrimeField(13), [7, 6, 6, 10], x, h2, h1, h0);
  }

  /**
   * The split table of the GF(13) example: the secret 7 at 0, the shares
   * 3, 6, -2 (that is 11) and 0 at 1 to 4, and user 5's share 7.
   */
  function PrimeShare(x: int): (r: int)
    requires 0 <= x <= 5
  {
    if x == 0 then 7
    else if x == 1 then 3
    else if x == 2 then 6
    else if x == 3 then Coerce(PrimeField(13), -2)
    else if x == 4 then 0
    else 7
  }

  /**
   * The documented fit of (1, 3), (2, 6), (3, -2), (4, 0), namely
   * 7 + 6x + 6x^2 + 10x^3, passes through the four shares, and its value
   * at 0 is the secret 7.
   */
  lemma PrimeFitExample(x: int)
    requires 0 <= x <= 4
    ensures Horner(PrimeField(13), [7, 6, 6, 10], x) == PrimeShare(x)
  {
    if x == 0 {
      PrimeCubicAt(0, 6, 6, 7);
    } else if x == 1 {
      PrimeCubicAt(1, 3, 9, 3);
    } else if x == 2 {
      PrimeCubicAt(2, 0, 6, 6);
    } else if x == 3 {
      PrimeCubicAt(3, 10, 10, 11);
    } else {
      PrimeCubicAt(4, 7, 8, 0);
    }
  }

  /** The share of user 5 is the value of 7 + 6x + 6x^2 + 10x^3 there. */
  lemma PrimeNewShareExample()
    ensures Horner(PrimeField(13), [7, 6, 6, 10], 5) == PrimeShare(5)
  {
    PrimeCubicAt(5, 4, 0, 7);
  }

  // ------------------------------------------------ GF(101): 3-of-5 split

  /** 42 + 62x + 32x^2 over GF(101) at one x. */
  lemma Gf101At(x: int, h1: int, h0: int)
    requires 0 <= x < 101
    requires Add(PrimeField(101), Mul(PrimeField(101), 32, x), 62) == h1
    requires Add(PrimeField(101), Mul(PrimeField(101), h1, x), 42) == h0
    ensures Horner(PrimeField(101), [42, 62, 32], x) == h0
  {
    HornerQuadratic(PrimeField(101), [42, 62, 32], x, h1, h0);
  }

  /**
   * The split table of the GF(101) example: the secret 42 at 0, the
   * chosen shares 35, 92, 11 at 1 to 3 and the shares 95, 41 of users 4, 5.
   */
  function Gf101Share(x: int): (r: int)
    requires 0 <= x <= 5
  {
    if x == 0 then 42
    else if x == 1 then 35
    else if x == 2 then 92
    else if x == 3 then 11
    else if x == 4 then 95
    else 41
  }

  /**
   * The documented fit of 1 --> 35, 2 --> 92, 3 --> 11, namely
   * 42 + 62x + 32x^2, passes through the three shares, and its value at 0
   * is the secret 42.
   */
  lemma Gf101FitExample(x: int)
    requires 0 <= x <= 3
    ensures Horner(PrimeField(101), [42, 62, 32], x) == Gf101Share(x)
  {
    if x == 0 {
      Gf101At(0, 62, 42);
    } else if x == 1 {
      Gf101At(1, 94, 35);
    } else if x == 2 {
      Gf101At(2, 25, 92);
    } else {
      Gf101At(3, 57, 11);
    }
  }

  /** The shares of users 4 and 5 are the values of 42 + 62x + 32x^2 there. */
  lemma Gf101NewSharesExample(x: int)
    requires 4 <= x <= 5
    ensures Horner(PrimeField(101), [42, 62, 32], x) == Gf101Share(x)
  {
    if x == 4 {
      Gf101At(4, 89, 95);
    } else {
      Gf101At(5, 20, 41);
    }
  }

  // ----------------------------------------------- GF(2^8): 3-of-7 split

  lemma IterSumSkip(x: bv8, a: bv8, n: nat)
    requires 0 < n <= 8 && !Bits.Bit(x, n - 1)
    ensures Bits.IterSum(x, GF8Laws.XTime, a, n) == Bits.IterSum(x, GF8Laws.XTime, a, n - 1)
  {}

  lemma HighBitsClear(x: bv8, i: nat)
    requires x < 8 && 3 <= i < 8
    ensures !Bits.Bit(x, i)
  {}

  /** For x < 8 only the three low bits of x take part in the product a * x. */
  lemma TimesSmall(a: bv8, x: bv8)
    requires x < 8
    ensures GF8.Product(a, x) == Bits.IterSum(x, GF8Laws.XTime, a, 3)
  {
    GF8Laws.MulCommutative(a, x);
    GF8Laws.ProductIsShiftAdd(x, a);
    var n := 8;
    while n > 3
      invariant 3 <= n <= 8
      invariant Bits.IterSum(x, GF8Laws.XTime, a, 8) == Bits.IterSum(x, GF8Laws.XTime, a, n)
    {
      HighBitsClear(x, n - 1);
      IterSumSkip(x, a, n);
      n := n - 1;
    }
  }

  lemma ByteCast(a: bv8)
    ensures (a as int) as bv8 == a && 0 <= a as int < 256
  {}

  /** One multiply-and-add of Horner's rule over GF(2^8) at a small x. */
  lemma AesStep(a: bv8, x: bv8, c: bv8, h: bv8)
    requires x < 8
    requires Bits.IterSum(x, GF8Laws.XTime, a, 3) ^ c == h
    ensures Add(AesField, Mul(AesField, a as int, x as int), c as int) == h as int
  {
    TimesSmall(a, x);
    ByteCast(a);
    ByteCast(x);
    ByteCast(c);
    ByteCast(h);
    ByteCast(GF8.Product(a, x));
    assert Mul(AesField, a as int, x as int) == GF8.Product(a, x) as int;
  }

  /** 0xc7 + 0x34 x + 0xb6 x^2 over GF(2^8) at one x. */
  lemma AesSplitAt(x: bv8, h1: bv8, h0: bv8)
    requires x < 8
    requires Bits.IterSum(x, GF8Laws.XTime, 0xb6, 3) ^ 0x34 == h1
    requires Bits.IterSum(x, GF8Laws.XTime, h1, 3) ^ 0xc7 == h0
    ensures Horner(AesField, [0xc7, 0x34, 0xb6], x as int) == h0 as int
  {
    AesStep(0xb6, x, 0x34, h1);
    AesStep(h1, x, 0xc7, h0);
    HornerQuadratic(AesField, [0xc7, 0x34, 0xb6], x as int, h1 as int, h0 as int);
  }

  /**
   * The split table of the GF(2^8) example: the secret 0xc7 at 0, the
   * chosen shares 0x45, 0x41, 0xc3 at 1 to 3 and the shares 0x82, 0x00,
   * 0x04, 0x86 of users 4 to 7.
   */
  function AesShare(x: int): (r: int)
    requires 0 <= x <= 7
  {
    if x == 0 then 0xc7
    else if x == 1 then 0x45
    else if x == 2 then 0x41
    else if x == 3 then 0xc3
    else if x == 4 then 0x82
    else if x == 5 then 0x00
    else if x == 6 then 0x04
    else 0x86
  }

  /**
   * The documented fit of 1 --> 0x45, 2 --> 0x41, 3 --> 0xc3, namely
   * 0xc7 + 0x34 x + 0xb6 x^2, takes every entry of the split table: the
   * secret at 0, the chosen shares at 1 to 3 and the new shares at 4 to 7.
   */
  lemma AesSplitExample(x: int)
    requires 0 <= x <= 7
    ensures Horner(AesField, [0xc7, 0x34, 0xb6], x) == AesShare(x)
  {
    if x == 0 {
      AesSplitAt(0, 0x34, 0xc7);
    } else if x == 1 {
      AesSplitAt(1, 0x82, 0x45);
    } else if x == 2 {
      AesSplitAt(2, 0x43, 0x41);
    } else if x == 3 {
      AesSplitAt(3, 0xf5, 0xc3);
    } else if x == 4 {
      AesSplitAt(4, 0xda, 0x82);
    } else if x == 5 {
      AesSplitAt(5, 0x6c, 0x00);
    } else if x == 6 {
      AesSplitAt(6, 0xad, 0x04);
    } else {
      AesSplitAt(7, 0x1b, 0x86);
    }
  }

  /** 0xab + 0x6e x + 0x80 x^2 over GF(2^8) at one x. */
  lemma AesResplitAt(x: bv8, h1: bv8, h0: bv8)
    requires x < 8
    requires Bits.IterSum(x, GF8Laws.XTime, 0x80, 3) ^ 0x6e == h1
    requires Bits.IterSum(x, GF8Laws.XTime, h1, 3) ^ 0xab == h0
    ensures Horner(AesField, [0xab, 0x6e, 0x80], x as int) == h0 as int
  {
    AesStep(0x80, x, 0x6e, h1);
    AesStep(h1, x, 0xab, h0);
    HornerQuadratic(AesField, [0xab, 0x6e, 0x80], x as int, h1 as int, h0 as int);
  }

  /**
   * The table of the second GF(2^8) split, the new secret 0xab with users
   * 1 and 2 keeping 0x45 and 0x41: the secret at 0, the kept shares, and
   * the new shares 0xaf, 0xd0, 0x3e, 0x3a, 0xd4 of users 3 to 7.
   */
  function AesResplitShare(x: int): (r: int)
    requires 0 <= x <= 7
  {
    if x == 0 then 0xab
    else if x == 1 then 0x45
    else if x == 2 then 0x41
    else if x == 3 then 0xaf
    else if x == 4 then 0xd0
    else if x == 5 then 0x3e
    else if x == 6 then 0x3a
    else 0xd4
  }

  /**
   * The documented fit of 0 --> 0xab, 1 --> 0x45, 2 --> 0x41, namely
   * 0xab + 0x6e x + 0x80 x^2, keeps the secret and the shares of users 1
   * and 2 and gives users 3 to 7 the documented new shares.
   */
  lemma AesResplitExample(x: int)
    requires 0 <= x <= 7
    ensures Horner(AesField, [0xab, 0x6e, 0x80], x) == AesResplitShare(x)
  {
    if x == 0 {
      AesResplitAt(0, 0x6e, 0xab);
    } else if x == 1 {
      AesResplitAt(1, 0xee, 0x45);
    } else if x == 2 {
      AesResplitAt(2, 0x75, 0x41);
    } else if x == 3 {
      AesResplitAt(3, 0xf5, 0xaf);
    } else if x == 4 {
      AesResplitAt(4, 0x58, 0xd0);
    } else if x == 5 {
      AesResplitAt(5, 0xd8, 0x3e);
    } else if x == 6 {
      AesResplitAt(6, 0x43, 0x3a);
    } else {
      AesResplitAt(7, 0xc3, 0xd4);
    }
  }
}
