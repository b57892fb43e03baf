/**
 * Elements of the prime field GF(p): integers kept in [0, p).  Models class
 * GFpelt of shamirshare.py; GFpelt of shamirshare2.py has the same
 * normalisation, add, neg, sub, mul, inv, __xgcd and div.  The code never
 * checks that p is prime, so the lemmas that need a field take IsPrime(p).
 */
module GFp {
  import opened Errors

  // ------------------------------------------------------ integer arithmetic

  lemma MulBound(p: int, k: int)
    requires p > 0
    ensures k > 0 ==> p * k >= p
    ensures k < 0 ==> p * k <= -p
    decreases if k < 0 then -k else k
  {
    if k > 0 { assert p * k == p * (k - 1) + p; MulBound(p, k - 1); }
    else if k < 0 { assert p * k == p * (k + 1) - p; MulBound(p, k + 1); }
  }

  /** Adding a multiple of p does not change the remainder. */
  lemma ModShift(u: int, m: int, p: int)
    requires p > 0
    ensures (u + m * p) % p == u % p
  {
    var w := u + m * p;
    var k := w / p - u / p - m;
    assert u % p - w % p == p * k;
    MulBound(p, k);
  }

  lemma ModSumLeft(x: int, y: int, p: int)
    requires p > 0
    ensures (x % p + y) % p == (x + y) % p
  {
    ModShift(x % p + y, x / p, p);
  }

  lemma ModSumRight(x: int, y: int, p: int)
    requires p > 0
    ensures (x + y % p) % p == (x + y) % p
  {
    ModShift(x + y % p, y / p, p);
  }

  lemma ModProdLeft(x: int, y: int, p: int)
    requires p > 0
    ensures ((x % p) * y) % p == (x * y) % p
  {
    assert x * y == (x % p) * y + ((x / p) * y) * p by {
      assert x == (x / p) * p + x % p;
    }
    ModShift((x % p) * y, (x / p) * y, p);
  }

  lemma ModProdRight(x: int, y: int, p: int)
    requires p > 0
    ensures (x * (y % p)) % p == (x * y) % p
  {
    ModProdLeft(y, x, p);
  }

  /** A value in [0, p) is its own remainder. */
  lemma ModSmall(x: int, p: int)
    requires p > 0
    ensures 0 <= x < p ==> x % p == x
  {
    assert x == p * (x / p) + x % p;
    MulBound(p, x / p);
  }

  /** The remainder differs from v by a multiple of p. */
  lemma ModCongruent(v: int, p: int)
    requires p > 0
    ensures (v % p - v) % p == 0
  {
    assert v % p - v == 0 + (-(v / p)) * p;
    ModShift(0, -(v / p), p);
  }

  /** A common divisor of u and v divides every k * u + v. */
  lemma DividesLinear(g: int, k: int, u: int, v: int)
    requires g > 0 && u % g == 0 && v % g == 0
    ensures (k * u + v) % g == 0
  {
    assert k * u + v == (k * (u / g) + v / g) * g by {
      assert u == (u / g) * g;
      assert v == (v / g) * g;
    }
    ModShift(0, k * (u / g) + v / g, g);
  }

  /** A positive divisor of a positive number is no larger than it. */
  lemma DivisorBound(g: int, v: int)
    requires g > 0 && v > 0 && v % g == 0
    ensures g <= v
  {
    assert v == g * (v / g);
    MulBound(g, v / g);
  }

  // ------------------------------------------------------------ the elements

  /** p has no divisor strictly between 1 and p. */
  predicate IsPrime(p: int) {
    p > 1 && forall d :: 1 < d < p ==> p % d != 0
  }

  /** A GFpelt value: the code keeps every element in [0, p). */
  predicate Elt(p: int, a: int) { 0 <= a < p }

  /** __normalize: the representative of v in [0, p). */
  function Normalize(p: int, v: int): (r: int)
    requires p > 0
    ensures Elt(p, r)
    ensures (r - v) % p == 0
    ensures Elt(p, v) ==> r == v
  {
    ModShift(v % p, 1, p);
    ModSmall(v % p, p);
    ModCongruent(v, p);
    ModSmall(v, p);
    ((v % p) + p) % p
  }

  /** GFpelt.add. */
  function Add(p: int, a: int, b: int): (r: int)
    requires Elt(p, a) && Elt(p, b)
    ensures Elt(p, r)
    ensures (r - (a + b)) % p == 0
  {
    ModCongruent(a + b, p);
    (a + b) % p
  }

  /** GFpelt.__neg__ (shamirshare2.py: neg). */
  function Neg(p: int, a: int): (r: int)
    requires Elt(p, a)
    ensures Elt(p, r)
    ensures Add(p, a, r) == 0
  {
    NegSum(p, a);
    (p - a) % p
  }

  lemma NegSum(p: int, a: int)
    requires Elt(p, a)
    ensures (a + (p - a) % p) % p == 0
  {
    calc {
      (a + (p - a) % p) % p;
    == { ModSumRight(a, p - a, p); }
      (a + (p - a)) % p;
    ==
      (0 + 1 * p) % p;
    == { ModShift(0, 1, p); }
      0 % p;
    }
  }

  /** GFpelt.__sub__: adding the negative. */
  function Sub(p: int, a: int, b: int): (r: int)
    requires Elt(p, a) && Elt(p, b)
    ensures Elt(p, r)
  {
    Add(p, a, Neg(p, b))
  }

  /** GFpelt.mul. */
  function Mul(p: int, a: int, b: int): (r: int)
    requires Elt(p, a) && Elt(p, b)
    ensures Elt(p, r)
    ensures (r - a * b) % p == 0
  {
    ModCongruent(a * b, p);
    (a * b) % p
  }

  // ------------------------------------------------------------- ring laws

  lemma AddCommutative(p: int, a: int, b: int)
    requires Elt(p, a) && Elt(p, b)
    ensures Add(p, a, b) == Add(p, b, a)
  {}

  lemma AddAssociative(p: int, a: int, b: int, c: int)
    requires Elt(p, a) && Elt(p, b) && Elt(p, c)
    ensures Add(p, Add(p, a, b), c) == Add(p, a, Add(p, b, c))
  {
    calc {
      Add(p, Add(p, a, b), c);
    ==
      ((a + b) % p + c) % p;
    == { ModSumLeft(a + b, c, p); }
      (a + b + c) % p;
    == { ModSumRight(a, b + c, p); }
      (a + (b + c) % p) % p;
    ==
      Add(p, a, Add(p, b, c));
    }
  }

  lemma AddZero(p: int, a: int)
    requires Elt(p, a)
    ensures Add(p, a, 0) == a && Add(p, 0, a) == a
  {}

  /** Subtraction undoes addition, and a - b is zero exactly when a == b. */
  lemma SubLaws(p: int, a: int, b: int)
    requires Elt(p, a) && Elt(p, b)
    ensures Add(p, Sub(p, a, b), b) == a
    ensures Sub(p, a, b) == 0 <==> a == b
  {
    var n := Neg(p, b);
    AddAssociative(p, a, n, b);
    AddCommutative(p, n, b);
    AddZero(p, a);
    if Sub(p, a, b) == 0 {
      AddZero(p, b);
    }
  }

  lemma MulCommutative(p: int, a: int, b: int)
    requires Elt(p, a) && Elt(p, b)
    ensures Mul(p, a, b) == Mul(p, b, a)
  {}

  lemma MulAssociative(p: int, a: int, b: int, c: int)
    requires Elt(p, a) && Elt(p, b) && Elt(p, c)
    ensures Mul(p, Mul(p, a, b), c) == Mul(p, a, Mul(p, b, c))
  {
    ModProdLeft(a * b, c, p);
    ModProdRight(a, b * c, p);
    assert (a * b) * c == a * (b * c);
  }

  lemma MulOneZero(p: int, a: int)
    requires Elt(p, a) && p > 1
    ensures Mul(p, a, 1) == a && Mul(p, 1, a) == a
    ensures Mul(p, a, 0) == 0 && Mul(p, 0, a) == 0
  {}

  lemma MulDistributive(p: int, a: int, b: int, c: int)
    requires Elt(p, a) && Elt(p, b) && Elt(p, c)
    ensures Mul(p, a, Add(p, b, c)) == Add(p, Mul(p, a, b), Mul(p, a, c))
  {
    ModProdRight(a, b + c, p);
    assert a * (b + c) == a * b + a * c;
    ModSumLeft(a * b, (a * c) % p, p);
    ModSumRight(a * b, a * c, p);
  }

  // ------------------------------------------------------- extended Euclid

  function Abs(v: int): nat { if v < 0 then -v else v }

  /** aneg / bneg of __xgcd. */
  function Sign(v: int): int { if v < 0 then -1 else 1 }

  /**
   * The passes of the __xgcd loop from the state (a, b, a1, b1, a2, b2):
   * two half-steps, each returning once a remainder is zero.  The answer
   * is (g, x, y) before the signs are restored.
   */
  function XgcdFrom(a: int, b: int, a1: int, b1: int, a2: int, b2: int): (int, int, int)
    requires 0 <= a && 0 < b
    decreases b
  {
    var quot := -(a / b);
    var a' := a % b;
    var a1', b1' := a1 + quot * a2, b1 + quot * b2;
    if a' == 0 then (b, a2, b2)
    else
      var quot' := -(b / a');
      var b' := b % a';
      var a2', b2' := a2 + quot' * a1', b2 + quot' * b1';
      if b' == 0 then (a', a1', b1') else XgcdFrom(a', b', a1', b1', a2', b2')
  }

  /** __xgcd(a, b): `a // b` raises ZeroDivisionError when b is zero. */
  function Xgcd(a: int, b: int): (r: Result<(int, int, int)>)
    ensures r.Err? <==> b == 0
    ensures r.Err? ==> r.error == ZeroDivisionError
  {
    if b == 0 then Err(ZeroDivisionError)
    else
      var t := XgcdFrom(Abs(a), Abs(b), 1, 0, 0, 1);
      Ok((t.0, t.1 * Sign(a), t.2 * Sign(b)))
  }

  /** One half-step keeps the combination a == A * a1 + B * b1. */
  lemma CombinationStep(A: int, B: int, a: int, a1: int, b1: int, b: int, a2: int, b2: int)
    requires 0 < b
    requires a == A * a1 + B * b1 && b == A * a2 + B * b2
    ensures a % b == A * (a1 + -(a / b) * a2) + B * (b1 + -(a / b) * b2)
  {
    var q := -(a / b);
    assert a % b == a + q * b;
    assert q * b == A * (q * a2) + B * (q * b2);
  }

  /** A divisor of b and of a % b divides a. */
  lemma DividesBack(g: int, a: int, b: int)
    requires g > 0 && b > 0 && b % g == 0 && (a % b) % g == 0
    ensures a % g == 0
  {
    DividesLinear(g, a / b, b, a % b);
    assert a == (a / b) * b + a % b;
  }

  lemma ModSelf(a: int)
    requires a > 0
    ensures a % a == 0
  {
    ModShift(0, 1, a);
  }

  lemma {:induction false} XgcdFromCorrect(A: int, B: int, a: int, b: int, a1: int, b1: int, a2: int, b2: int)
    requires 0 <= a && 0 < b
    requires a == A * a1 + B * b1 && b == A * a2 + B * b2
    ensures XgcdFrom(a, b, a1, b1, a2, b2).0 > 0
    ensures XgcdFrom(a, b, a1, b1, a2, b2).0 ==
            A * XgcdFrom(a, b, a1, b1, a2, b2).1 + B * XgcdFrom(a, b, a1, b1, a2, b2).2
    ensures a % XgcdFrom(a, b, a1, b1, a2, b2).0 == 0
    ensures b % XgcdFrom(a, b, a1, b1, a2, b2).0 == 0
    decreases b
  {
    var a' := a % b;
    var a1', b1' := a1 + -(a / b) * a2, b1 + -(a / b) * b2;
    CombinationStep(A, B, a, a1, b1, b, a2, b2);
    if a' == 0 {
      ModSelf(b);
    } else {
      var b' := b % a';
      var a2', b2' := a2 + -(b / a') * a1', b2 + -(b / a') * b1';
      CombinationStep(A, B, b, a2, b2, a', a1', b1');
      if b' == 0 {
        ModSelf(a');
        DividesBack(a', a, b);
      } else {
        XgcdFromCorrect(A, B, a', b', a1', b1', a2', b2');
        var g := XgcdFrom(a', b', a1', b1', a2', b2').0;
        DividesBack(g, b, a');
        DividesBack(g, a, b);
      }
    }
  }

  /** Divisibility does not see the sign. */
  lemma DividesAbs(g: int, v: int)
    requires g > 0
    ensures Abs(v) % g == 0 <==> v % g == 0
  {
    if Abs(v) % g == 0 { DividesLinear(g, -1, Abs(v), 0); }
    if v % g == 0 { DividesLinear(g, -1, v, 0); }
  }

  /** Restoring the sign of a coefficient: v * (x * aneg) == |v| * x. */
  lemma SignTimes(v: int, x: int)
    ensures v * (x * Sign(v)) == Abs(v) * x
  {
    if v < 0 {
      assert x * Sign(v) == -x;
    }
  }

  /**
   * __xgcd(a, b) returns (g, x, y) with g == a * x + b * y, where g is
   * positive and divides both a and b.
   */
  lemma XgcdCorrect(a: int, b: int)
    requires b != 0
    ensures Xgcd(a, b).Ok?
    ensures Xgcd(a, b).value.0 > 0
    ensures Xgcd(a, b).value.0 == a * Xgcd(a, b).value.1 + b * Xgcd(a, b).value.2
    ensures a % Xgcd(a, b).value.0 == 0 && b % Xgcd(a, b).value.0 == 0
  {
    var A, B := Abs(a), Abs(b);
    XgcdFromCorrect(A, B, A, B, 1, 0, 0, 1);
    var t := XgcdFrom(A, B, 1, 0, 0, 1);
    SignTimes(a, t.1);
    SignTimes(b, t.2);
    DividesAbs(t.0, a);
    DividesAbs(t.0, b);
  }

  /** The g of __xgcd is the greatest common divisor: every common divisor divides it. */
  lemma XgcdGreatest(a: int, b: int, d: int)
    requires b != 0 && d > 0 && a % d == 0 && b % d == 0
    ensures Xgcd(a, b).Ok? && Xgcd(a, b).value.0 % d == 0
  {
    XgcdCorrect(a, b);
    var t := Xgcd(a, b).value;
    DividesLinear(d, t.1, a, 0);
    assert (t.1 * a) % d == 0;
    DividesLinear(d, t.2, b, t.1 * a);
    assert t.0 == t.2 * b + t.1 * a;
  }

  /** __xgcd: the signs are taken off, the loop runs on |a| and |b|, and the signs go back on x and y. */
  method ExtendedGcd(a0: int, b0: int) returns (r: Result<(int, int, int)>)
    ensures r == Xgcd(a0, b0)
    ensures r.Ok? ==> r.value.0 == a0 * r.value.1 + b0 * r.value.2
  {
    var aneg, bneg := 1, 1;
    var a, b := a0, b0;
    if a < 0 {
      a, aneg := -a, -1;
    }
    if b < 0 {
      b, bneg := -b, -1;
    }
    // The first `a // b` of the loop raises when b is zero.
    if b == 0 {
      return Err(ZeroDivisionError);
    }
    var g, x, y := GcdLoop(a, b);
    XgcdCorrect(a0, b0);
    return Ok((g, x * aneg, y * bneg));
  }

  /**
   * The loop of __xgcd on a >= 0 and b > 0: two half-steps of Euclid per
   * turn, each also updating the coefficient pairs, until a remainder is
   * zero; the loop only continues while both remainders are nonzero.
   */
  method GcdLoop(a0: int, b0: int) returns (g: int, x: int, y: int)
    requires 0 <= a0 && 0 < b0
    ensures (g, x, y) == XgcdFrom(a0, b0, 1, 0, 0, 1)
  {
    var a1, b1, a2, b2 := 1, 0, 0, 1;
    var a, b := a0, b0;
    while true
      invariant 0 <= a && 0 < b
      invariant XgcdFrom(a, b, a1, b1, a2, b2) == XgcdFrom(a0, b0, 1, 0, 0, 1)
      decreases b
    {
      var quot := -(a / b);
      a := a % b;
      a1 := a1 + quot * a2;
      b1 := b1 + quot * b2;
      if a == 0 {
        return b, a2, b2;
      }
      quot := -(b / a);
      b := b % a;
      a2 := a2 + quot * a1;
      b2 := b2 + quot * b1;
      if b == 0 {
        return a, a1, b1;
      }
    }
  }

  // ----------------------------------------------------- inverse and division

  /** GFpelt.inv: ZeroDivisionError on zero, else the normalised x of __xgcd(a, p). */
  function Inv(p: int, a: int): (r: Result<int>)
    requires Elt(p, a)
    ensures r.Err? <==> a == 0
    ensures r.Err? ==> r.error == ZeroDivisionError
    ensures r.Ok? ==> Elt(p, r.value)
  {
    if a == 0 then Err(ZeroDivisionError) else Ok(Normalize(p, Xgcd(a, p).value.1))
  }

  /** GFpelt.div: the dividend times the inverse of the divisor. */
  function Div(p: int, a: int, b: int): (r: Result<int>)
    requires Elt(p, a) && Elt(p, b)
    ensures r.Err? <==> b == 0
    ensures r.Err? ==> r.error == ZeroDivisionError
    ensures r.Ok? ==> Elt(p, r.value)
  {
    match Inv(p, b)
    case Err(e) => Err(e)
    case Ok(i) => Ok(Mul(p, a, i))
  }

  /** For prime p the greatest common divisor of p and a nonzero element is 1. */
  lemma GcdWithPrime(p: int, a: int)
    requires IsPrime(p) && 0 < a < p
    ensures Xgcd(a, p).value.0 == 1
  {
    XgcdCorrect(a, p);
    var g := Xgcd(a, p).value.0;
    DivisorBound(g, a);
  }

  /** Congruent factors give equal products mod p. */
  lemma CongruentFactor(p: int, a: int, x: int, n: int)
    requires p > 0 && (n - x) % p == 0
    ensures (a * n) % p == (a * x) % p
  {
    var k := (n - x) / p;
    assert n - x == k * p;
    assert a * n == a * x + (a * k) * p;
    ModShift(a * x, a * k, p);
  }

  /** For prime p every nonzero element has a two-sided inverse. */
  lemma InvCorrect(p: int, a: int)
    requires IsPrime(p) && Elt(p, a) && a != 0
    ensures Inv(p, a).Ok?
    ensures Mul(p, a, Inv(p, a).value) == 1 && Mul(p, Inv(p, a).value, a) == 1
  {
    GcdWithPrime(p, a);
    XgcdCorrect(a, p);
    var t := Xgcd(a, p).value;
    var n := Normalize(p, t.1);
    BezoutUnit(p, a, t.1, t.2);
    CongruentFactor(p, a, t.1, n);
    assert Mul(p, a, n) == 1;
    MulCommutative(p, a, n);
  }

  /** With a * s + p * u == 1, s is an inverse of a modulo p. */
  lemma BezoutUnit(p: int, a: int, s: int, u: int)
    requires p > 1 && a * s + p * u == 1
    ensures (a * s) % p == 1
  {
    assert a * s == 1 + (-u) * p;
    ModShift(1, -u, p);
    ModSmall(1, p);
  }

  /** An element whose product with a is 1 is the inverse of a. */
  lemma InvUnique(p: int, a: int, x: int)
    requires IsPrime(p) && Elt(p, a) && Elt(p, x) && Mul(p, a, x) == 1
    ensures a != 0 && Inv(p, a) == Ok(x)
  {
    MulOneZero(p, x);
    var i := Inv(p, a).value;
    InvCorrect(p, a);
    MulAssociative(p, i, a, x);
    MulOneZero(p, i);
  }

  /** Division by b is undone by multiplication by b in a prime field. */
  lemma DivCorrect(p: int, a: int, b: int)
    requires IsPrime(p) && Elt(p, a) && Elt(p, b)
    ensures Div(p, a, b).Ok? <==> b != 0
    ensures b != 0 ==> Mul(p, Div(p, a, b).value, b) == a
  {
    if b != 0 {
      InvCorrect(p, b);
      var i := Inv(p, b).value;
      MulAssociative(p, a, i, b);
      MulOneZero(p, a);
    }
  }

  /** A product of nonzero elements of a prime field is nonzero. */
  lemma NoZeroDivisors(p: int, a: int, b: int)
    requires IsPrime(p) && Elt(p, a) && Elt(p, b)
    ensures Mul(p, a, b) == 0 <==> a == 0 || b == 0
  {
    MulOneZero(p, a);
    MulOneZero(p, b);
    if a != 0 && Mul(p, a, b) == 0 {
      InvCorrect(p, a);
      var i := Inv(p, a).value;
      MulAssociative(p, i, a, b);
      MulOneZero(p, i);
    }
  }

  // ---------------------------------------------------------------- examples

  /** The first prime above 2^50, used in the GFp usage notes. */
  const Prime50: int := 1125899906842679

  /** gf250(-1) is p - 1, and 2 * gf250(-1) is p - 2. */
  lemma NormalizeExample()
    ensures Normalize(Prime50, -1) == 1125899906842678
    ensures Mul(Prime50, Normalize(Prime50, 2), Normalize(Prime50, -1)) == 1125899906842677
  {}
}
