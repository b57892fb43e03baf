/**
 * The coefficient fields of the polynomial code, with elements as
 * integers.  A polynomial ring of shamirshare.py holds one such field as
 * its coeffring; the element operations dispatch to GF8elt or to GFpelt.
 */
module Fields {
  import opened Errors
  import GF8
  import GF8Laws
  import GF8Inverse
  import GFp

  /** GF(2^8) as AES represents it, or the integers modulo p. */
  datatype Field = AesField | PrimeField(p: int)

  /** A prime field needs a modulus above 1 for its constants 0 and 1 to differ. */
  predicate WellFormed(F: Field) { F.PrimeField? ==> F.p > 1 }

  /** The fields in which every nonzero element is invertible. */
  predicate IsField(F: Field) { F.AesField? || GFp.IsPrime(F.p) }

  /** The values an element of F takes: bytes, or integers in [0, p). */
  predicate Elt(F: Field, a: int) {
    match F
    case AesField => 0 <= a < 256
    case PrimeField(p) => GFp.Elt(p, a)
  }

  predicate Elts(F: Field, s: seq<int>) {
    forall i :: 0 <= i < |s| ==> Elt(F, s[i])
  }

  lemma ConstantsAreElts(F: Field)
    requires WellFormed(F)
    ensures Elt(F, 0) && Elt(F, 1)
  {}

  /**
   * The field's __call__: GFp normalises any integer; a GF8elt keeps the
   * value it is given, which the model takes to be a byte.
   */
  function Coerce(F: Field, v: int): (r: int)
    requires WellFormed(F) && (F.AesField? ==> 0 <= v < 256)
    ensures Elt(F, r)
    ensures Elt(F, v) ==> r == v
    ensures F.PrimeField? ==> (r - v) % F.p == 0
  {
    match F
    case AesField => v
    case PrimeField(p) => GFp.Normalize(p, v)
  }

  function Add(F: Field, a: int, b: int): (r: int)
    requires Elt(F, a) && Elt(F, b)
    ensures Elt(F, r)
  {
    match F
    case AesField => GF8.Add(a as bv8, b as bv8) as int
    case PrimeField(p) => GFp.Add(p, a, b)
  }

  function Neg(F: Field, a: int): (r: int)
    requires Elt(F, a)
    ensures Elt(F, r)
  {
    match F
    case AesField => GF8.Neg(a as bv8) as int
    case PrimeField(p) => GFp.Neg(p, a)
  }

  function Sub(F: Field, a: int, b: int): (r: int)
    requires Elt(F, a) && Elt(F, b)
    ensures Elt(F, r)
  {
    match F
    case AesField => GF8.Sub(a as bv8, b as bv8) as int
    case PrimeField(p) => GFp.Sub(p, a, b)
  }

  function Mul(F: Field, a: int, b: int): (r: int)
    requires Elt(F, a) && Elt(F, b)
    ensures Elt(F, r)
  {
    match F
    case AesField => GF8.Product(a as bv8, b as bv8) as int
    case PrimeField(p) => GFp.Mul(p, a, b)
  }

  function Inv(F: Field, a: int): (r: Result<int>)
    requires Elt(F, a)
    ensures r.Err? <==> a == 0
    ensures r.Err? ==> r.error == ZeroDivisionError
    ensures r.Ok? ==> Elt(F, r.value)
  {
    match F
    case AesField =>
      (match GF8.Inv(a as bv8)
       case Err(e) => Err(e)
       case Ok(i) => Ok(i as int))
    case PrimeField(p) => GFp.Inv(p, a)
  }

  /** div of either element class: ZeroDivisionError exactly for a zero divisor. */
  function Div(F: Field, a: int, b: int): (r: Result<int>)
    requires Elt(F, a) && Elt(F, b)
    ensures r.Err? <==> b == 0
    ensures r.Err? ==> r.error == ZeroDivisionError
    ensures r.Ok? ==> Elt(F, r.value)
  {
    match F
    case AesField =>
      (match GF8.Div(a as bv8, b as bv8)
       case Err(e) => Err(ZeroDivisionError)
       case Ok(q) => Ok(q as int))
    case PrimeField(p) => GFp.Div(p, a, b)
  }

  // ------------------------------------------------------------ field laws

  lemma AddCommutative(F: Field, a: int, b: int)
    requires Elt(F, a) && Elt(F, b)
    ensures Add(F, a, b) == Add(F, b, a)
  {
    match F
    case AesField => GF8Laws.AddGroup(a as bv8, b as bv8, 0);
    case PrimeField(p) => GFp.AddCommutative(p, a, b);
  }

  lemma AddAssociative(F: Field, a: int, b: int, c: int)
    requires Elt(F, a) && Elt(F, b) && Elt(F, c)
    ensures Add(F, Add(F, a, b), c) == Add(F, a, Add(F, b, c))
  {
    match F
    case AesField => GF8Laws.AddGroup(a as bv8, b as bv8, c as bv8);
    case PrimeField(p) => GFp.AddAssociative(p, a, b, c);
  }

  lemma AddZero(F: Field, a: int)
    requires Elt(F, a)
    ensures Add(F, a, 0) == a && Add(F, 0, a) == a
  {
    match F
    case AesField =>
      var x := a as bv8;
      GF8Laws.AddGroup(x, 0, 0);
      GF8Laws.AddGroup(0, x, 0);
      ByteRoundTrip(a);
    case PrimeField(p) => GFp.AddZero(p, a);
  }

  /** Neg gives the additive inverse, and Sub adds it. */
  lemma AddNeg(F: Field, a: int, b: int)
    requires Elt(F, a) && Elt(F, b)
    ensures Add(F, a, Neg(F, a)) == 0
    ensures Sub(F, a, b) == Add(F, a, Neg(F, b))
  {
    match F
    case AesField => GF8Laws.AddGroup(a as bv8, b as bv8, 0);
    case PrimeField(p) =>
  }

  lemma ByteRoundTrip(a: int)
    requires 0 <= a < 256
    ensures (a as bv8) as int == a
  {
    assert a % 256 == a;
  }

  lemma ByteZero(x: bv8)
    ensures x as int == 0 <==> x == 0
  {}

  lemma ByteSubZero(a: int, b: int)
    requires 0 <= a < 256 && 0 <= b < 256
    ensures GF8.Sub(a as bv8, b as bv8) as int == 0 <==> a == b
  {
    GF8Laws.AddZeroIff(a as bv8, b as bv8);
    ByteZero(GF8.Sub(a as bv8, b as bv8));
    ByteRoundTrip(a);
    ByteRoundTrip(b);
  }

  /** a - b is zero exactly when a == b. */
  lemma SubZero(F: Field, a: int, b: int)
    requires Elt(F, a) && Elt(F, b)
    ensures Sub(F, a, b) == 0 <==> a == b
  {
    match F
    case AesField => ByteSubZero(a, b);
    case PrimeField(p) => GFp.SubLaws(p, a, b);
  }

  lemma MulCommutative(F: Field, a: int, b: int)
    requires Elt(F, a) && Elt(F, b)
    ensures Mul(F, a, b) == Mul(F, b, a)
  {
    match F
    case AesField => GF8Laws.MulCommutative(a as bv8, b as bv8);
    case PrimeField(p) => GFp.MulCommutative(p, a, b);
  }

  lemma MulAssociative(F: Field, a: int, b: int, c: int)
    requires Elt(F, a) && Elt(F, b) && Elt(F, c)
    ensures Mul(F, Mul(F, a, b), c) == Mul(F, a, Mul(F, b, c))
  {
    match F
    case AesField => GF8Laws.MulAssociative(a as bv8, b as bv8, c as bv8);
    case PrimeField(p) => GFp.MulAssociative(p, a, b, c);
  }

  lemma MulOneZero(F: Field, a: int)
    requires WellFormed(F) && Elt(F, a)
    ensures Mul(F, a, 1) == a && Mul(F, 1, a) == a
    ensures Mul(F, a, 0) == 0 && Mul(F, 0, a) == 0
  {
    match F
    case AesField =>
      GF8Laws.MulIdentity(a as bv8);
      ByteRoundTrip(a);
    case PrimeField(p) => GFp.MulOneZero(p, a);
  }

  lemma MulDistributive(F: Field, a: int, b: int, c: int)
    requires Elt(F, a) && Elt(F, b) && Elt(F, c)
    ensures Mul(F, a, Add(F, b, c)) == Add(F, Mul(F, a, b), Mul(F, a, c))
  {
    match F
    case AesField => GF8Laws.MulDistributive(a as bv8, b as bv8, c as bv8);
    case PrimeField(p) => GFp.MulDistributive(p, a, b, c);
  }

  /** Every nonzero element of a field has a two-sided inverse. */
  lemma InvCorrect(F: Field, a: int)
    requires IsField(F) && Elt(F, a) && a != 0
    ensures Inv(F, a).Ok?
    ensures Mul(F, a, Inv(F, a).value) == 1 && Mul(F, Inv(F, a).value, a) == 1
  {
    match F
    case AesField =>
      var x := a as bv8;
      ByteRoundTrip(a);
      assert x != 0;
      GF8Inverse.InvCorrect(x);
      var i := GF8.Inv(x).value;
      assert (i as int) as bv8 == i;
    case PrimeField(p) => GFp.InvCorrect(p, a);
  }

  /** Dividing by b is multiplying by the inverse of b. */
  lemma DivIsMulInv(F: Field, a: int, b: int)
    requires Elt(F, a) && Elt(F, b) && b != 0
    ensures Div(F, a, b) == Ok(Mul(F, a, Inv(F, b).value))
  {}

  // ------------------------------------------------------- derived laws

  lemma IsFieldWellFormed(F: Field)
    requires IsField(F)
    ensures WellFormed(F)
  {}

  /** The additive inverse is unique. */
  lemma NegUnique(F: Field, a: int, b: int)
    requires Elt(F, a) && Elt(F, b) && Add(F, a, b) == 0
    ensures b == Neg(F, a)
  {
    var n := Neg(F, a);
    AddNeg(F, a, a);
    AddZero(F, b);
    AddZero(F, n);
    AddCommutative(F, a, b);
    AddAssociative(F, b, a, n);
  }

  /** Negation moves into a factor: -(a * c) == a * (-c). */
  lemma MulNeg(F: Field, a: int, c: int)
    requires WellFormed(F) && Elt(F, a) && Elt(F, c)
    ensures Neg(F, Mul(F, a, c)) == Mul(F, a, Neg(F, c))
  {
    AddNeg(F, c, c);
    MulDistributive(F, a, c, Neg(F, c));
    MulOneZero(F, a);
    NegUnique(F, Mul(F, a, c), Mul(F, a, Neg(F, c)));
  }

  /** Multiplication distributes over addition from the right as well. */
  lemma MulDistributiveRight(F: Field, a: int, b: int, c: int)
    requires Elt(F, a) && Elt(F, b) && Elt(F, c)
    ensures Mul(F, Add(F, a, b), c) == Add(F, Mul(F, a, c), Mul(F, b, c))
  {
    MulCommutative(F, Add(F, a, b), c);
    MulDistributive(F, c, a, b);
    MulCommutative(F, c, a);
    MulCommutative(F, c, b);
  }

  /** Regrouping four summands: (p + q) + (r + s) == (p + r) + (q + s). */
  lemma AddSwap(F: Field, p: int, q: int, r: int, s: int)
    requires Elt(F, p) && Elt(F, q) && Elt(F, r) && Elt(F, s)
    ensures Add(F, Add(F, p, q), Add(F, r, s)) == Add(F, Add(F, p, r), Add(F, q, s))
  {
    AddAssociative(F, p, q, Add(F, r, s));
    AddAssociative(F, q, r, s);
    AddCommutative(F, q, r);
    AddAssociative(F, r, q, s);
    AddAssociative(F, p, r, Add(F, q, s));
  }

  /** In a field a product is zero only when a factor is. */
  lemma NoZeroDivisors(F: Field, a: int, b: int)
    requires IsField(F) && Elt(F, a) && Elt(F, b)
    ensures Mul(F, a, b) == 0 <==> a == 0 || b == 0
  {
    MulOneZero(F, a);
    MulOneZero(F, b);
    if a != 0 && Mul(F, a, b) == 0 {
      InvCorrect(F, a);
      var i := Inv(F, a).value;
      MulAssociative(F, i, a, b);
      MulOneZero(F, i);
    }
  }

  /** Division by b is undone by multiplication by b. */
  lemma DivCorrect(F: Field, a: int, b: int)
    requires IsField(F) && Elt(F, a) && Elt(F, b) && b != 0
    ensures Div(F, a, b).Ok? && Mul(F, Div(F, a, b).value, b) == a
  {
    InvCorrect(F, b);
    var i := Inv(F, b).value;
    MulAssociative(F, a, i, b);
    MulOneZero(F, a);
  }

  /** Multiplication by b is undone by division by b. */
  lemma MulDivCancel(F: Field, a: int, b: int)
    requires IsField(F) && Elt(F, a) && Elt(F, b) && b != 0
    ensures Div(F, Mul(F, a, b), b) == Ok(a)
  {
    InvCorrect(F, b);
    var i := Inv(F, b).value;
    MulAssociative(F, a, b, i);
    MulOneZero(F, a);
  }

  /** (a * b) / c == a * (b / c). */
  lemma MulDivAssociative(F: Field, a: int, b: int, c: int)
    requires Elt(F, a) && Elt(F, b) && Elt(F, c) && c != 0
    ensures Div(F, Mul(F, a, b), c) == Ok(Mul(F, a, Div(F, b, c).value))
  {
    DivIsMulInv(F, Mul(F, a, b), c);
    DivIsMulInv(F, b, c);
    MulAssociative(F, a, b, Inv(F, c).value);
  }

  // ------------------------------------------------------- coercion of lists

  /** The raw values the field's __call__ accepts in this model. */
  predicate Coercible(F: Field, v: int) { F.AesField? ==> 0 <= v < 256 }

  predicate AllCoercible(F: Field, s: seq<int>) {
    forall i :: 0 <= i < |s| ==> Coercible(F, s[i])
  }

  /** [coeffring(v) for v in s]: every value brought into the field, elements unchanged. */
  function CoerceAll(F: Field, s: seq<int>): (r: seq<int>)
    requires WellFormed(F) && AllCoercible(F, s)
    ensures |r| == |s| && Elts(F, r)
    ensures Elts(F, s) ==> r == s
  {
    seq(|s|, i requires 0 <= i < |s| => Coerce(F, s[i]))
  }

  lemma EltsCoercible(F: Field, s: seq<int>)
    requires Elts(F, s)
    ensures AllCoercible(F, s)
  {}
}
