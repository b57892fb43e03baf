/**
 * Elements of GF(2^8) as AES represents them: a byte is the polynomial over
 * GF(2) whose coefficients are its bits, reduced modulo the driving polynomial
 * x^8 + x^4 + x^3 + x + 1 (0x11b).  Models class GF8elt of shamirshare.py.
 */
module GF8 {
  import opened Errors
  import opened Bits

  /** The driving polynomial x^8 + x^4 + x^3 + x + 1. */
  const Driving: bv16 := 0x11b

  /** reductable: entry i is the byte to which x^(8+i) reduces. */
  const ReduceTable: seq<bv8> := [0x1b, 0x36, 0x6c, 0xd8, 0xab, 0x4d, 0x9a, 0x2f]

  // ---------------------------------------------------------------- addition

  /** GF8elt.add: addition is bitwise exclusive or. */
  function Add(a: bv8, b: bv8): bv8 { a ^ b }

  /** GF8elt.__neg__: every element is its own negative. */
  function Neg(a: bv8): bv8 { a }

  /** GF8elt.__sub__: subtraction is addition. */
  function Sub(a: bv8, b: bv8): bv8 { Add(a, b) }

  // ---------------------------------------------------------- multiplication

  /** Summand i of the carry-less product: b * x^i when coefficient i of a is set. */
  function Term(a: bv8, b: bv16, i: nat): bv16 requires i < 8 { if Bit(a, i) then b << i else 0 }

  /** The carry-less product restricted to the coefficients 0 .. n-1 of a. */
  function ClmulLow(a: bv8, b: bv16, n: nat): bv16 requires n <= 8 {
    if n == 0 then 0 else ClmulLow(a, b, n - 1) ^ Term(a, b, n - 1)
  }

  /** The product of a and b as polynomials over GF(2), before reduction. */
  function Clmul(a: bv8, b: bv16): bv16 { ClmulLow(a, b, 8) }

  /** What reductable contributes for coefficient 8 + i of v. */
  function Feedback(v: bv16, i: nat): bv8 requires i < 8 { if Bit16(v, 8 + i) then ReduceTable[i] else 0 }

  /** The feedback collected from coefficients 8 .. 8+n-1 of v. */
  function FeedbackLow(v: bv16, n: nat): bv8 requires n <= 8 {
    if n == 0 then 0 else FeedbackLow(v, n - 1) ^ Feedback(v, n - 1)
  }

  /** __reduceGF8: the low byte of v with the feedback of its high byte folded in. */
  function Reduce(v: bv16): bv8 { ((v & 0xff) as bv8) ^ FeedbackLow(v, 8) }

  /** The field product of GF8elt.mul. */
  function Product(a: bv8, b: bv8): bv8 { Reduce(Clmul(a, b as bv16)) }

  lemma ShiftedBit8(v: bv16, i: nat) requires i == 8 ensures ((v >> i) & 1 == 1) == Bit16(v, i) {}
  lemma ShiftedBit9(v: bv16, i: nat) requires i == 9 ensures ((v >> i) & 1 == 1) == Bit16(v, i) {}
  lemma ShiftedBit10(v: bv16, i: nat) requires i == 10 ensures ((v >> i) & 1 == 1) == Bit16(v, i) {}
  lemma ShiftedBit11(v: bv16, i: nat) requires i == 11 ensures ((v >> i) & 1 == 1) == Bit16(v, i) {}
  lemma ShiftedBit12(v: bv16, i: nat) requires i == 12 ensures ((v >> i) & 1 == 1) == Bit16(v, i) {}
  lemma ShiftedBit13(v: bv16, i: nat) requires i == 13 ensures ((v >> i) & 1 == 1) == Bit16(v, i) {}
  lemma ShiftedBit14(v: bv16, i: nat) requires i == 14 ensures ((v >> i) & 1 == 1) == Bit16(v, i) {}
  lemma ShiftedBit15(v: bv16, i: nat) requires i == 15 ensures ((v >> i) & 1 == 1) == Bit16(v, i) {}

  /** The loop test of __reduceGF8 is the coefficient test Bit16. */
  lemma ShiftedBit(v: bv16, i: nat)
    requires 8 <= i < 16
    ensures ((v >> i) & 1 == 1) == Bit16(v, i)
  {
    if i == 8 { ShiftedBit8(v, i); }
    else if i == 9 { ShiftedBit9(v, i); }
    else if i == 10 { ShiftedBit10(v, i); }
    else if i == 11 { ShiftedBit11(v, i); }
    else if i == 12 { ShiftedBit12(v, i); }
    else if i == 13 { ShiftedBit13(v, i); }
    else if i == 14 { ShiftedBit14(v, i); }
    else { ShiftedBit15(v, i); }
  }

  /** One turn of the loop of __reduceGF8 adds the next feedback term. */
  lemma ReduceStep(v: bv16, i: nat, feedback: bv8)
    requires 8 <= i < 16 && feedback == FeedbackLow(v, i - 8)
    ensures feedback ^ (if ((v >> i) & 1) == 1 then ReduceTable[i - 8] else 0) == FeedbackLow(v, i - 7)
  {
    ShiftedBit(v, i);
  }

  lemma ShiftedBit08(a: bv8, i: nat) requires i == 0 ensures ((a >> i) & 1 == 1) == Bit(a, i) {}
  lemma ShiftedBit18(a: bv8, i: nat) requires i == 1 ensures ((a >> i) & 1 == 1) == Bit(a, i) {}
  lemma ShiftedBit28(a: bv8, i: nat) requires i == 2 ensures ((a >> i) & 1 == 1) == Bit(a, i) {}
  lemma ShiftedBit38(a: bv8, i: nat) requires i == 3 ensures ((a >> i) & 1 == 1) == Bit(a, i) {}
  lemma ShiftedBit48(a: bv8, i: nat) requires i == 4 ensures ((a >> i) & 1 == 1) == Bit(a, i) {}
  lemma ShiftedBit58(a: bv8, i: nat) requires i == 5 ensures ((a >> i) & 1 == 1) == Bit(a, i) {}
  lemma ShiftedBit68(a: bv8, i: nat) requires i == 6 ensures ((a >> i) & 1 == 1) == Bit(a, i) {}
  lemma ShiftedBit78(a: bv8, i: nat) requires i == 7 ensures ((a >> i) & 1 == 1) == Bit(a, i) {}

  /** The loop test of GF8elt.mul is the coefficient test Bit. */
  lemma ShiftedByteBit(a: bv8, i: nat)
    requires i < 8
    ensures ((a >> i) & 1 == 1) == Bit(a, i)
  {
    if i == 0 { ShiftedBit08(a, i); }
    else if i == 1 { ShiftedBit18(a, i); }
    else if i == 2 { ShiftedBit28(a, i); }
    else if i == 3 { ShiftedBit38(a, i); }
    else if i == 4 { ShiftedBit48(a, i); }
    else if i == 5 { ShiftedBit58(a, i); }
    else if i == 6 { ShiftedBit68(a, i); }
    else { ShiftedBit78(a, i); }
  }

  /** One turn of the loop of GF8elt.mul adds the next summand. */
  lemma MulStep(a: bv8, b: bv16, i: nat, thenum: bv16)
    requires i < 8 && thenum == ClmulLow(a, b, i)
    ensures thenum ^ (if ((a >> i) & 1) == 1 then b << i else 0) == ClmulLow(a, b, i + 1)
  {
    ShiftedByteBit(a, i);
  }

  /** GF8elt.mul: multiply as binary polynomials, then reduce. */
  method Mul(a: bv8, b: bv8) returns (r: bv8)
    ensures r == Product(a, b)
  {
    var bmult := b as bv16;
    var thenum: bv16 := 0;
    for i := 0 to 8
      invariant thenum == ClmulLow(a, bmult, i)
    {
      MulStep(a, bmult, i, thenum);
      thenum := thenum ^ (if ((a >> i) & 1) == 1 then bmult << i else 0);
    }
    r := ReduceGF8(thenum);
  }

  /** GF8elt.__reduceGF8: fold coefficients 8 .. 15 back in through reductable. */
  method ReduceGF8(thevalue: bv16) returns (r: bv8)
    ensures r == Reduce(thevalue)
  {
    var feedback: bv8 := 0;
    for i := 8 to 16
      invariant feedback == FeedbackLow(thevalue, i - 8)
    {
      ReduceStep(thevalue, i, feedback);
      feedback := feedback ^ (if ((thevalue >> i) & 1) == 1 then ReduceTable[i - 8] else 0);
    }
    r := ((thevalue & 0xff) as bv8) ^ feedback;
  }

  // ---------------------------------------------------------------- division

  /** Row h of the inverse table: the inverses of the bytes 16*h .. 16*h+15 (the entry for 0 is 0). */
  function InvRow(h: bv8): (row: seq<bv8>)
    requires h < 16
    ensures |row| == 16
  {
    match h
    case 0x0 => [0x00, 0x01, 0x8d, 0xf6, 0xcb, 0x52, 0x7b, 0xd1, 0xe8, 0x4f, 0x29, 0xc0, 0xb0, 0xe1, 0xe5, 0xc7]
    case 0x1 => [0x74, 0xb4, 0xaa, 0x4b, 0x99, 0x2b, 0x60, 0x5f, 0x58, 0x3f, 0xfd, 0xcc, 0xff, 0x40, 0xee, 0xb2]
    case 0x2 => [0x3a, 0x6e, 0x5a, 0xf1, 0x55, 0x4d, 0xa8, 0xc9, 0xc1, 0x0a, 0x98, 0x15, 0x30, 0x44, 0xa2, 0xc2]
    case 0x3 => [0x2c, 0x45, 0x92, 0x6c, 0xf3, 0x39, 0x66, 0x42, 0xf2, 0x35, 0x20, 0x6f, 0x77, 0xbb, 0x59, 0x19]
    case 0x4 => [0x1d, 0xfe, 0x37, 0x67, 0x2d, 0x31, 0xf5, 0x69, 0xa7, 0x64, 0xab, 0x13, 0x54, 0x25, 0xe9, 0x09]
    case 0x5 => [0xed, 0x5c, 0x05, 0xca, 0x4c, 0x24, 0x87, 0xbf, 0x18, 0x3e, 0x22, 0xf0, 0x51, 0xec, 0x61, 0x17]
    case 0x6 => [0x16, 0x5e, 0xaf, 0xd3, 0x49, 0xa6, 0x36, 0x43, 0xf4, 0x47, 0x91, 0xdf, 0x33, 0x93, 0x21, 0x3b]
    case 0x7 => [0x79, 0xb7, 0x97, 0x85, 0x10, 0xb5, 0xba, 0x3c, 0xb6, 0x70, 0xd0, 0x06, 0xa1, 0xfa, 0x81, 0x82]
    case 0x8 => [0x83, 0x7e, 0x7f, 0x80, 0x96, 0x73, 0xbe, 0x56, 0x9b, 0x9e, 0x95, 0xd9, 0xf7, 0x02, 0xb9, 0xa4]
    case 0x9 => [0xde, 0x6a, 0x32, 0x6d, 0xd8, 0x8a, 0x84, 0x72, 0x2a, 0x14, 0x9f, 0x88, 0xf9, 0xdc, 0x89, 0x9a]
    case 0xa => [0xfb, 0x7c, 0x2e, 0xc3, 0x8f, 0xb8, 0x65, 0x48, 0x26, 0xc8, 0x12, 0x4a, 0xce, 0xe7, 0xd2, 0x62]
    case 0xb => [0x0c, 0xe0, 0x1f, 0xef, 0x11, 0x75, 0x78, 0x71, 0xa5, 0x8e, 0x76, 0x3d, 0xbd, 0xbc, 0x86, 0x57]
    case 0xc => [0x0b, 0x28, 0x2f, 0xa3, 0xda, 0xd4, 0xe4, 0x0f, 0xa9, 0x27, 0x53, 0x04, 0x1b, 0xfc, 0xac, 0xe6]
    case 0xd => [0x7a, 0x07, 0xae, 0x63, 0xc5, 0xdb, 0xe2, 0xea, 0x94, 0x8b, 0xc4, 0xd5, 0x9d, 0xf8, 0x90, 0x6b]
    case 0xe => [0xb1, 0x0d, 0xd6, 0xeb, 0xc6, 0x0e, 0xcf, 0xad, 0x08, 0x4e, 0xd7, 0xe3, 0x5d, 0x50, 0x1e, 0xb3]
    case _ => [0x5b, 0x23, 0x38, 0x34, 0x68, 0x46, 0x03, 0x8c, 0xdd, 0x9c, 0x7d, 0xa0, 0xcd, 0x1a, 0x41, 0x1c]
  }

  /** __GF8inv: the table entry for byte a. */
  function InvTable(a: bv8): bv8 { InvRow(a >> 4)[(a & 0xf) as int] }

  /** GF8elt.inv: a table lookup; zero has no inverse. */
  function Inv(a: bv8): (r: Result<bv8>)
    ensures r.Err? <==> a == 0
    ensures r.Err? ==> r.error == ZeroDivisionError
  {
    if a == 0 then Err(ZeroDivisionError) else Ok(InvTable(a))
  }

  /** GF8elt.div: multiply by the inverse of the divisor. */
  function Div(a: bv8, b: bv8): (r: Result<bv8>)
    ensures r.Err? <==> b == 0
  {
    match Inv(b)
    case Err(e) => Err(e)
    case Ok(bi) => Ok(Product(a, bi))
  }
}
