/**
 * The inverse table of GF8elt.inv checked entry by entry: every nonzero byte
 * times its table entry is 1.  With GF8Laws this makes division the inverse
 * of multiplication.
 */
module GF8Inverse {
  import opened Errors
  import opened GF8
  import opened GF8Laws
  import opened Bits

  /** The shift-and-add product written out, for evaluation on constants. */
  lemma ShiftAddSteps(a: bv8, b: bv8)
    ensures ShiftAdd(a, b) == Xor(Xor(Xor(Xor(Xor(Xor(Xor(Xor(0, Pick(a, 0, b)), Pick(a, 1, XTime(b))), Pick(a, 2, XTime(XTime(b)))), Pick(a, 3, XTime(XTime(XTime(b))))), Pick(a, 4, XTime(XTime(XTime(XTime(b)))))), Pick(a, 5, XTime(XTime(XTime(XTime(XTime(b))))))), Pick(a, 6, XTime(XTime(XTime(XTime(XTime(XTime(b)))))))), Pick(a, 7, XTime(XTime(XTime(XTime(XTime(XTime(XTime(b)))))))))
  {
    var f := XTime;
    assert Iterate(f, b, 1) == XTime(b);
    assert Iterate(f, b, 2) == XTime(Iterate(f, b, 1));
    assert Iterate(f, b, 3) == XTime(Iterate(f, b, 2));
    assert Iterate(f, b, 4) == XTime(Iterate(f, b, 3));
    assert Iterate(f, b, 5) == XTime(Iterate(f, b, 4));
    assert Iterate(f, b, 6) == XTime(Iterate(f, b, 5));
    assert Iterate(f, b, 7) == XTime(Iterate(f, b, 6));
    assert IterSum(a, f, b, 1) == Xor(0, Pick(a, 0, Iterate(f, b, 0)));
    assert IterSum(a, f, b, 2) == Xor(IterSum(a, f, b, 1), Pick(a, 1, Iterate(f, b, 1)));
    assert IterSum(a, f, b, 3) == Xor(IterSum(a, f, b, 2), Pick(a, 2, Iterate(f, b, 2)));
    assert IterSum(a, f, b, 4) == Xor(IterSum(a, f, b, 3), Pick(a, 3, Iterate(f, b, 3)));
    assert IterSum(a, f, b, 5) == Xor(IterSum(a, f, b, 4), Pick(a, 4, Iterate(f, b, 4)));
    assert IterSum(a, f, b, 6) == Xor(IterSum(a, f, b, 5), Pick(a, 5, Iterate(f, b, 5)));
    assert IterSum(a, f, b, 7) == Xor(IterSum(a, f, b, 6), Pick(a, 6, Iterate(f, b, 6)));
    assert IterSum(a, f, b, 8) == Xor(IterSum(a, f, b, 7), Pick(a, 7, Iterate(f, b, 7)));
  }

  lemma UnitValues()
    ensures Unit(0) == 0x01 && Unit(1) == 0x02 && Unit(2) == 0x04 && Unit(3) == 0x08 && Unit(4) == 0x10 && Unit(5) == 0x20 && Unit(6) == 0x40 && Unit(7) == 0x80
  {
  }

  /** The shift-and-add product with its coefficient tests written as masks. */
  lemma ShiftAddEval(a: bv8, b: bv8)
    ensures ShiftAdd(a, b) == Xor(Xor(Xor(Xor(Xor(Xor(Xor(Xor(0, if a & 0x01 != 0 then b else 0), if a & 0x02 != 0 then XTime(b) else 0), if a & 0x04 != 0 then XTime(XTime(b)) else 0), if a & 0x08 != 0 then XTime(XTime(XTime(b))) else 0), if a & 0x10 != 0 then XTime(XTime(XTime(XTime(b)))) else 0), if a & 0x20 != 0 then XTime(XTime(XTime(XTime(XTime(b))))) else 0), if a & 0x40 != 0 then XTime(XTime(XTime(XTime(XTime(XTime(b)))))) else 0), if a & 0x80 != 0 then XTime(XTime(XTime(XTime(XTime(XTime(XTime(b))))))) else 0)
  {
    ShiftAddSteps(a, b);
    UnitValues();
  }

  lemma Inverse01() ensures ShiftAdd(0x01, InvTable(0x01)) == 1 { assert (0x01 as bv8 & 0xf) as int == 0x1; assert InvTable(0x01) == 0x01; ShiftAddEval(0x01, 0x01); }
  lemma Inverse02() ensures ShiftAdd(0x02, InvTable(0x02)) == 1 { assert (0x02 as bv8 & 0xf) as int == 0x2; assert InvTable(0x02) == 0x8d; ShiftAddEval(0x02, 0x8d); }
  lemma Inverse03() ensures ShiftAdd(0x03, InvTable(0x03)) == 1 { assert (0x03 as bv8 & 0xf) as int == 0x3; assert InvTable(0x03) == 0xf6; ShiftAddEval(0x03, 0xf6); }
  lemma Inverse04() ensures ShiftAdd(0x04, InvTable(0x04)) == 1 { assert (0x04 as bv8 & 0xf) as int == 0x4; assert InvTable(0x04) == 0xcb; ShiftAddEval(0x04, 0xcb); }
  lemma Inverse05() ensures ShiftAdd(0x05, InvTable(0x05)) == 1 { assert (0x05 as bv8 & 0xf) as int == 0x5; assert InvTable(0x05) == 0x52; ShiftAddEval(0x05, 0x52); }
  lemma Inverse06() ensures ShiftAdd(0x06, InvTable(0x06)) == 1 { assert (0x06 as bv8 & 0xf) as int == 0x6; assert InvTable(0x06) == 0x7b; ShiftAddEval(0x06, 0x7b); }
  lemma Inverse07() ensures ShiftAdd(0x07, InvTable(0x07)) == 1 { assert (0x07 as bv8 & 0xf) as int == 0x7; assert InvTable(0x07) == 0xd1; ShiftAddEval(0x07, 0xd1); }
  lemma Inverse08() ensures ShiftAdd(0x08, InvTable(0x08)) == 1 { assert (0x08 as bv8 & 0xf) as int == 0x8; assert InvTable(0x08) == 0xe8; ShiftAddEval(0x08, 0xe8); }
  lemma Inverse09() ensures ShiftAdd(0x09, InvTable(0x09)) == 1 { assert (0x09 as bv8 & 0xf) as int == 0x9; assert InvTable(0x09) == 0x4f; ShiftAddEval(0x09, 0x4f); }
  lemma Inverse0a() ensures ShiftAdd(0x0a, InvTable(0x0a)) == 1 { assert (0x0a as bv8 & 0xf) as int == 0xa; assert InvTable(0x0a) == 0x29; ShiftAddEval(0x0a, 0x29); }
  lemma Inverse0b() ensures ShiftAdd(0x0b, InvTable(0x0b)) == 1 { assert (0x0b as bv8 & 0xf) as int == 0xb; assert InvTable(0x0b) == 0xc0; ShiftAddEval(0x0b, 0xc0); }
  lemma Inverse0c() ensures ShiftAdd(0x0c, InvTable(0x0c)) == 1 { assert (0x0c as bv8 & 0xf) as int == 0xc; assert InvTable(0x0c) == 0xb0; ShiftAddEval(0x0c, 0xb0); }
  lemma Inverse0d() ensures ShiftAdd(0x0d, InvTable(0x0d)) == 1 { assert (0x0d as bv8 & 0xf) as int == 0xd; assert InvTable(0x0d) == 0xe1; ShiftAddEval(0x0d, 0xe1); }
  lemma Inverse0e() ensures ShiftAdd(0x0e, InvTable(0x0e)) == 1 { assert (0x0e as bv8 & 0xf) as int == 0xe; assert InvTable(0x0e) == 0xe5; ShiftAddEval(0x0e, 0xe5); }
  lemma Inverse0f() ensures ShiftAdd(0x0f, InvTable(0x0f)) == 1 { assert (0x0f as bv8 & 0xf) as int == 0xf; assert InvTable(0x0f) == 0xc7; ShiftAddEval(0x0f, 0xc7); }

  lemma InverseRow0(a: bv8)
    requires a >> 4 == 0 && a != 0
    ensures ShiftAdd(a, InvTable(a)) == 1
  {
    if a == 0x01 { Inverse01(); }
    else if a == 0x02 { Inverse02(); }
    else if a == 0x03 { Inverse03(); }
    else if a == 0x04 { Inverse04(); }
    else if a == 0x05 { Inverse05(); }
    else if a == 0x06 { Inverse06(); }
    else if a == 0x07 { Inverse07(); }
    else if a == 0x08 { Inverse08(); }
    else if a == 0x09 { Inverse09(); }
    else if a == 0x0a { Inverse0a(); }
    else if a == 0x0b { Inverse0b(); }
    else if a == 0x0c { Inverse0c(); }
    else if a == 0x0d { Inverse0d(); }
    else if a == 0x0e { Inverse0e(); }
    else { Inverse0f(); }
  }

  lemma Inverse10() ensures ShiftAdd(0x10, InvTable(0x10)) == 1 { assert (0x10 as bv8 & 0xf) as int == 0x0; assert InvTable(0x10) == 0x74; ShiftAddEval(0x10, 0x74); }
  lemma Inverse11() ensures ShiftAdd(0x11, InvTable(0x11)) == 1 { assert (0x11 as bv8 & 0xf) as int == 0x1; assert InvTable(0x11) == 0xb4; ShiftAddEval(0x11, 0xb4); }
  lemma Inverse12() ensures ShiftAdd(0x12, InvTable(0x12)) == 1 { assert (0x12 as bv8 & 0xf) as int == 0x2; assert InvTable(0x12) == 0xaa; ShiftAddEval(0x12, 0xaa); }
  lemma Inverse13() ensures ShiftAdd(0x13, InvTable(0x13)) == 1 { assert (0x13 as bv8 & 0xf) as int == 0x3; assert InvTable(0x13) == 0x4b; ShiftAddEval(0x13, 0x4b); }
  lemma Inverse14() ensures ShiftAdd(0x14, InvTable(0x14)) == 1 { assert (0x14 as bv8 & 0xf) as int == 0x4; assert InvTable(0x14) == 0x99; ShiftAddEval(0x14, 0x99); }
  lemma Inverse15() ensures ShiftAdd(0x15, InvTable(0x15)) == 1 { assert (0x15 as bv8 & 0xf) as int == 0x5; assert InvTable(0x15) == 0x2b; ShiftAddEval(0x15, 0x2b); }
  lemma Inverse16() ensures ShiftAdd(0x16, InvTable(0x16)) == 1 { assert (0x16 as bv8 & 0xf) as int == 0x6; assert InvTable(0x16) == 0x60; ShiftAddEval(0x16, 0x60); }
  lemma Inverse17() ensures ShiftAdd(0x17, InvTable(0x17)) == 1 { assert (0x17 as bv8 & 0xf) as int == 0x7; assert InvTable(0x17) == 0x5f; ShiftAddEval(0x17, 0x5f); }
  lemma Inverse18() ensures ShiftAdd(0x18, InvTable(0x18)) == 1 { assert (0x18 as bv8 & 0xf) as int == 0x8; assert InvTable(0x18) == 0x58; ShiftAddEval(0x18, 0x58); }
  lemma Inverse19() ensures ShiftAdd(0x19, InvTable(0x19)) == 1 { assert (0x19 as bv8 & 0xf) as int == 0x9; assert InvTable(0x19) == 0x3f; ShiftAddEval(0x19, 0x3f); }
  lemma Inverse1a() ensures ShiftAdd(0x1a, InvTable(0x1a)) == 1 { assert (0x1a as bv8 & 0xf) as int == 0xa; assert InvTable(0x1a) == 0xfd; ShiftAddEval(0x1a, 0xfd); }
  lemma Inverse1b() ensures ShiftAdd(0x1b, InvTable(0x1b)) == 1 { assert (0x1b as bv8 & 0xf) as int == 0xb; assert InvTable(0x1b) == 0xcc; ShiftAddEval(0x1b, 0xcc); }
  lemma Inverse1c() ensures ShiftAdd(0x1c, InvTable(0x1c)) == 1 { assert (0x1c as bv8 & 0xf) as int == 0xc; assert InvTable(0x1c) == 0xff; ShiftAddEval(0x1c, 0xff); }
  lemma Inverse1d() ensures ShiftAdd(0x1d, InvTable(0x1d)) == 1 { assert (0x1d as bv8 & 0xf) as int == 0xd; assert InvTable(0x1d) == 0x40; ShiftAddEval(0x1d, 0x40); }
  lemma Inverse1e() ensures ShiftAdd(0x1e, InvTable(0x1e)) == 1 { assert (0x1e as bv8 & 0xf) as int == 0xe; assert InvTable(0x1e) == 0xee; ShiftAddEval(0x1e, 0xee); }
  lemma Inverse1f() ensures ShiftAdd(0x1f, InvTable(0x1f)) == 1 { assert (0x1f as bv8 & 0xf) as int == 0xf; assert InvTable(0x1f) == 0xb2; ShiftAddEval(0x1f, 0xb2); }

  lemma InverseRow1(a: bv8)
    requires a >> 4 == 1
    ensures ShiftAdd(a, InvTable(a)) == 1
  {
    if a == 0x10 { Inverse10(); }
    else if a == 0x11 { Inverse11(); }
    else if a == 0x12 { Inverse12(); }
    else if a == 0x13 { Inverse13(); }
    else if a == 0x14 { Inverse14(); }
    else if a == 0x15 { Inverse15(); }
    else if a == 0x16 { Inverse16(); }
    else if a == 0x17 { Inverse17(); }
    else if a == 0x18 { Inverse18(); }
    else if a == 0x19 { Inverse19(); }
    else if a == 0x1a { Inverse1a(); }
    else if a == 0x1b { Inverse1b(); }
    else if a == 0x1c { Inverse1c(); }
    else if a == 0x1d { Inverse1d(); }
    else if a == 0x1e { Inverse1e(); }
    else { Inverse1f(); }
  }

  lemma Inverse20() ensures ShiftAdd(0x20, InvTable(0x20)) == 1 { assert (0x20 as bv8 & 0xf) as int == 0x0; assert InvTable(0x20) == 0x3a; ShiftAddEval(0x20, 0x3a); }
  lemma Inverse21() ensures ShiftAdd(0x21, InvTable(0x21)) == 1 { assert (0x21 as bv8 & 0xf) as int == 0x1; assert InvTable(0x21) == 0x6e; ShiftAddEval(0x21, 0x6e); }
  lemma Inverse22() ensures ShiftAdd(0x22, InvTable(0x22)) == 1 { assert (0x22 as bv8 & 0xf) as int == 0x2; assert InvTable(0x22) == 0x5a; ShiftAddEval(0x22, 0x5a); }
  lemma Inverse23() ensures ShiftAdd(0x23, InvTable(0x23)) == 1 { assert (0x23 as bv8 & 0xf) as int == 0x3; assert InvTable(0x23) == 0xf1; ShiftAddEval(0x23, 0xf1); }
  lemma Inverse24() ensures ShiftAdd(0x24, InvTable(0x24)) == 1 { assert (0x24 as bv8 & 0xf) as int == 0x4; assert InvTable(0x24) == 0x55; ShiftAddEval(0x24, 0x55); }
  lemma Inverse25() ensures ShiftAdd(0x25, InvTable(0x25)) == 1 { assert (0x25 as bv8 & 0xf) as int == 0x5; assert InvTable(0x25) == 0x4d; ShiftAddEval(0x25, 0x4d); }
  lemma Inverse26() ensures ShiftAdd(0x26, InvTable(0x26)) == 1 { assert (0x26 as bv8 & 0xf) as int == 0x6; assert InvTable(0x26) == 0xa8; ShiftAddEval(0x26, 0xa8); }
  lemma Inverse27() ensures ShiftAdd(0x27, InvTable(0x27)) == 1 { assert (0x27 as bv8 & 0xf) as int == 0x7; assert InvTable(0x27) == 0xc9; ShiftAddEval(0x27, 0xc9); }
  lemma Inverse28() ensures ShiftAdd(0x28, InvTable(0x28)) == 1 { assert (0x28 as bv8 & 0xf) as int == 0x8; assert InvTable(0x28) == 0xc1; ShiftAddEval(0x28, 0xc1); }
  lemma Inverse29() ensures ShiftAdd(0x29, InvTable(0x29)) == 1 { assert (0x29 as bv8 & 0xf) as int == 0x9; assert InvTable(0x29) == 0x0a; ShiftAddEval(0x29, 0x0a); }
  lemma Inverse2a() ensures ShiftAdd(0x2a, InvTable(0x2a)) == 1 { assert (0x2a as bv8 & 0xf) as int == 0xa; assert InvTable(0x2a) == 0x98; ShiftAddEval(0x2a, 0x98); }
  lemma Inverse2b() ensures ShiftAdd(0x2b, InvTable(0x2b)) == 1 { assert (0x2b as bv8 & 0xf) as int == 0xb; assert InvTable(0x2b) == 0x15; ShiftAddEval(0x2b, 0x15); }
  lemma Inverse2c() ensures ShiftAdd(0x2c, InvTable(0x2c)) == 1 { assert (0x2c as bv8 & 0xf) as int == 0xc; assert InvTable(0x2c) == 0x30; ShiftAddEval(0x2c, 0x30); }
  lemma Inverse2d() ensures ShiftAdd(0x2d, InvTable(0x2d)) == 1 { assert (0x2d as bv8 & 0xf) as int == 0xd; assert InvTable(0x2d) == 0x44; ShiftAddEval(0x2d, 0x44); }
  lemma Inverse2e() ensures ShiftAdd(0x2e, InvTable(0x2e)) == 1 { assert (0x2e as bv8 & 0xf) as int == 0xe; assert InvTable(0x2e) == 0xa2; ShiftAddEval(0x2e, 0xa2); }
  lemma Inverse2f() ensures ShiftAdd(0x2f, InvTable(0x2f)) == 1 { assert (0x2f as bv8 & 0xf) as int == 0xf; assert InvTable(0x2f) == 0xc2; ShiftAddEval(0x2f, 0xc2); }

  lemma InverseRow2(a: bv8)
    requires a >> 4 == 2
    ensures ShiftAdd(a, InvTable(a)) == 1
  {
    if a == 0x20 { Inverse20(); }
    else if a == 0x21 { Inverse21(); }
    else if a == 0x22 { Inverse22(); }
    else if a == 0x23 { Inverse23(); }
    else if a == 0x24 { Inverse24(); }
    else if a == 0x25 { Inverse25(); }
    else if a == 0x26 { Inverse26(); }
    else if a == 0x27 { Inverse27(); }
    else if a == 0x28 { Inverse28(); }
    else if a == 0x29 { Inverse29(); }
    else if a == 0x2a { Inverse2a(); }
    else if a == 0x2b { Inverse2b(); }
    else if a == 0x2c { Inverse2c(); }
    else if a == 0x2d { Inverse2d(); }
    else if a == 0x2e { Inverse2e(); }
    else { Inverse2f(); }
  }

  lemma Inverse30() ensures ShiftAdd(0x30, InvTable(0x30)) == 1 { assert (0x30 as bv8 & 0xf) as int == 0x0; assert InvTable(0x30) == 0x2c; ShiftAddEval(0x30, 0x2c); }
  lemma Inverse31() ensures ShiftAdd(0x31, InvTable(0x31)) == 1 { assert (0x31 as bv8 & 0xf) as int == 0x1; assert InvTable(0x31) == 0x45; ShiftAddEval(0x31, 0x45); }
  lemma Inverse32() ensures ShiftAdd(0x32, InvTable(0x32)) == 1 { assert (0x32 as bv8 & 0xf) as int == 0x2; assert InvTable(0x32) == 0x92; ShiftAddEval(0x32, 0x92); }
  lemma Inverse33() ensures ShiftAdd(0x33, InvTable(0x33)) == 1 { assert (0x33 as bv8 & 0xf) as int == 0x3; assert InvTable(0x33) == 0x6c; ShiftAddEval(0x33, 0x6c); }
  lemma Inverse34() ensures ShiftAdd(0x34, InvTable(0x34)) == 1 { assert (0x34 as bv8 & 0xf) as int == 0x4; assert InvTable(0x34) == 0xf3; ShiftAddEval(0x34, 0xf3); }
  lemma Inverse35() ensures ShiftAdd(0x35, InvTable(0x35)) == 1 { assert (0x35 as bv8 & 0xf) as int == 0x5; assert InvTable(0x35) == 0x39; ShiftAddEval(0x35, 0x39); }
  lemma Inverse36() ensures ShiftAdd(0x36, InvTable(0x36)) == 1 { assert (0x36 as bv8 & 0xf) as int == 0x6; assert InvTable(0x36) == 0x66; ShiftAddEval(0x36, 0x66); }
  lemma Inverse37() ensures ShiftAdd(0x37, InvTable(0x37)) == 1 { assert (0x37 as bv8 & 0xf) as int == 0x7; assert InvTable(0x37) == 0x42; ShiftAddEval(0x37, 0x42); }
  lemma Inverse38() ensures ShiftAdd(0x38, InvTable(0x38)) == 1 { assert (0x38 as bv8 & 0xf) as int == 0x8; assert InvTable(0x38) == 0xf2; ShiftAddEval(0x38, 0xf2); }
  lemma Inverse39() ensures ShiftAdd(0x39, InvTable(0x39)) == 1 { assert (0x39 as bv8 & 0xf) as int == 0x9; assert InvTable(0x39) == 0x35; ShiftAddEval(0x39, 0x35); }
  lemma Inverse3a() ensures ShiftAdd(0x3a, InvTable(0x3a)) == 1 { assert (0x3a as bv8 & 0xf) as int == 0xa; assert InvTable(0x3a) == 0x20; ShiftAddEval(0x3a, 0x20); }
  lemma Inverse3b() ensures ShiftAdd(0x3b, InvTable(0x3b)) == 1 { assert (0x3b as bv8 & 0xf) as int == 0xb; assert InvTable(0x3b) == 0x6f; ShiftAddEval(0x3b, 0x6f); }
  lemma Inverse3c() ensures ShiftAdd(0x3c, InvTable(0x3c)) == 1 { assert (0x3c as bv8 & 0xf) as int == 0xc; assert InvTable(0x3c) == 0x77; ShiftAddEval(0x3c, 0x77); }
  lemma Inverse3d() ensures ShiftAdd(0x3d, InvTable(0x3d)) == 1 { assert (0x3d as bv8 & 0xf) as int == 0xd; assert InvTable(0x3d) == 0xbb; ShiftAddEval(0x3d, 0xbb); }
  lemma Inverse3e() ensures ShiftAdd(0x3e, InvTable(0x3e)) == 1 { assert (0x3e as bv8 & 0xf) as int == 0xe; assert InvTable(0x3e) == 0x59; ShiftAddEval(0x3e, 0x59); }
  lemma Inverse3f() ensures ShiftAdd(0x3f, InvTable(0x3f)) == 1 { assert (0x3f as bv8 & 0xf) as int == 0xf; assert InvTable(0x3f) == 0x19; ShiftAddEval(0x3f, 0x19); }

  lemma InverseRow3(a: bv8)
    requires a >> 4 == 3
    ensures ShiftAdd(a, InvTable(a)) == 1
  {
    if a == 0x30 { Inverse30(); }
    else if a == 0x31 { Inverse31(); }
    else if a == 0x32 { Inverse32(); }
    else if a == 0x33 { Inverse33(); }
    else if a == 0x34 { Inverse34(); }
    else if a == 0x35 { Inverse35(); }
    else if a == 0x36 { Inverse36(); }
    else if a == 0x37 { Inverse37(); }
    else if a == 0x38 { Inverse38(); }
    else if a == 0x39 { Inverse39(); }
    else if a == 0x3a { Inverse3a(); }
    else if a == 0x3b { Inverse3b(); }
    else if a == 0x3c { Inverse3c(); }
    else if a == 0x3d { Inverse3d(); }
    else if a == 0x3e { Inverse3e(); }
    else { Inverse3f(); }
  }

  lemma Inverse40() ensures ShiftAdd(0x40, InvTable(0x40)) == 1 { assert (0x40 as bv8 & 0xf) as int == 0x0; assert InvTable(0x40) == 0x1d; ShiftAddEval(0x40, 0x1d); }
  lemma Inverse41() ensures ShiftAdd(0x41, InvTable(0x41)) == 1 { assert (0x41 as bv8 & 0xf) as int == 0x1; assert InvTable(0x41) == 0xfe; ShiftAddEval(0x41, 0xfe); }
  lemma Inverse42() ensures ShiftAdd(0x42, InvTable(0x42)) == 1 { assert (0x42 as bv8 & 0xf) as int == 0x2; assert InvTable(0x42) == 0x37; ShiftAddEval(0x42, 0x37); }
  lemma Inverse43() ensures ShiftAdd(0x43, InvTable(0x43)) == 1 { assert (0x43 as bv8 & 0xf) as int == 0x3; assert InvTable(0x43) == 0x67; ShiftAddEval(0x43, 0x67); }
  lemma Inverse44() ensures ShiftAdd(0x44, InvTable(0x44)) == 1 { assert (0x44 as bv8 & 0xf) as int == 0x4; assert InvTable(0x44) == 0x2d; ShiftAddEval(0x44, 0x2d); }
  lemma Inverse45() ensures ShiftAdd(0x45, InvTable(0x45)) == 1 { assert (0x45 as bv8 & 0xf) as int == 0x5; assert InvTable(0x45) == 0x31; ShiftAddEval(0x45, 0x31); }
  lemma Inverse46() ensures ShiftAdd(0x46, InvTable(0x46)) == 1 { assert (0x46 as bv8 & 0xf) as int == 0x6; assert InvTable(0x46) == 0xf5; ShiftAddEval(0x46, 0xf5); }
  lemma Inverse47() ensures ShiftAdd(0x47, InvTable(0x47)) == 1 { assert (0x47 as bv8 & 0xf) as int == 0x7; assert InvTable(0x47) == 0x69; ShiftAddEval(0x47, 0x69); }
  lemma Inverse48() ensures ShiftAdd(0x48, InvTable(0x48)) == 1 { assert (0x48 as bv8 & 0xf) as int == 0x8; assert InvTable(0x48) == 0xa7; ShiftAddEval(0x48, 0xa7); }
  lemma Inverse49() ensures ShiftAdd(0x49, InvTable(0x49)) == 1 { assert (0x49 as bv8 & 0xf) as int == 0x9; assert InvTable(0x49) == 0x64; ShiftAddEval(0x49, 0x64); }
  lemma Inverse4a() ensures ShiftAdd(0x4a, InvTable(0x4a)) == 1 { assert (0x4a as bv8 & 0xf) as int == 0xa; assert InvTable(0x4a) == 0xab; ShiftAddEval(0x4a, 0xab); }
  lemma Inverse4b() ensures ShiftAdd(0x4b, InvTable(0x4b)) == 1 { assert (0x4b as bv8 & 0xf) as int == 0xb; assert InvTable(0x4b) == 0x13; ShiftAddEval(0x4b, 0x13); }
  lemma Inverse4c() ensures ShiftAdd(0x4c, InvTable(0x4c)) == 1 { assert (0x4c as bv8 & 0xf) as int == 0xc; assert InvTable(0x4c) == 0x54; ShiftAddEval(0x4c, 0x54); }
  lemma Inverse4d() ensures ShiftAdd(0x4d, InvTable(0x4d)) == 1 { assert (0x4d as bv8 & 0xf) as int == 0xd; assert InvTable(0x4d) == 0x25; ShiftAddEval(0x4d, 0x25); }
  lemma Inverse4e() ensures ShiftAdd(0x4e, InvTable(0x4e)) == 1 { assert (0x4e as bv8 & 0xf) as int == 0xe; assert InvTable(0x4e) == 0xe9; ShiftAddEval(0x4e, 0xe9); }
  lemma Inverse4f() ensures ShiftAdd(0x4f, InvTable(0x4f)) == 1 { assert (0x4f as bv8 & 0xf) as int == 0xf; assert InvTable(0x4f) == 0x09; ShiftAddEval(0x4f, 0x09); }

  lemma InverseRow4(a: bv8)
    requires a >> 4 == 4
    ensures ShiftAdd(a, InvTable(a)) == 1
  {
    if a == 0x40 { Inverse40(); }
    else if a == 0x41 { Inverse41(); }
    else if a == 0x42 { Inverse42(); }
    else if a == 0x43 { Inverse43(); }
    else if a == 0x44 { Inverse44(); }
    else if a == 0x45 { Inverse45(); }
    else if a == 0x46 { Inverse46(); }
    else if a == 0x47 { Inverse47(); }
    else if a == 0x48 { Inverse48(); }
    else if a == 0x49 { Inverse49(); }
    else if a == 0x4a { Inverse4a(); }
    else if a == 0x4b { Inverse4b(); }
    else if a == 0x4c { Inverse4c(); }
    else if a == 0x4d { Inverse4d(); }
    else if a == 0x4e { Inverse4e(); }
    else { Inverse4f(); }
  }

  lemma Inverse50() ensures ShiftAdd(0x50, InvTable(0x50)) == 1 { assert (0x50 as bv8 & 0xf) as int == 0x0; assert InvTable(0x50) == 0xed; ShiftAddEval(0x50, 0xed); }
  lemma Inverse51() ensures ShiftAdd(0x51, InvTable(0x51)) == 1 { assert (0x51 as bv8 & 0xf) as int == 0x1; assert InvTable(0x51) == 0x5c; ShiftAddEval(0x51, 0x5c); }
  lemma Inverse52() ensures ShiftAdd(0x52, InvTable(0x52)) == 1 { assert (0x52 as bv8 & 0xf) as int == 0x2; assert InvTable(0x52) == 0x05; ShiftAddEval(0x52, 0x05); }
  lemma Inverse53() ensures ShiftAdd(0x53, InvTable(0x53)) == 1 { assert (0x53 as bv8 & 0xf) as int == 0x3; assert InvTable(0x53) == 0xca; ShiftAddEval(0x53, 0xca); }
  lemma Inverse54() ensures ShiftAdd(0x54, InvTable(0x54)) == 1 { assert (0x54 as bv8 & 0xf) as int == 0x4; assert InvTable(0x54) == 0x4c; ShiftAddEval(0x54, 0x4c); }
  lemma Inverse55() ensures ShiftAdd(0x55, InvTable(0x55)) == 1 { assert (0x55 as bv8 & 0xf) as int == 0x5; assert InvTable(0x55) == 0x24; ShiftAddEval(0x55, 0x24); }
  lemma Inverse56() ensures ShiftAdd(0x56, InvTable(0x56)) == 1 { assert (0x56 as bv8 & 0xf) as int == 0x6; assert InvTable(0x56) == 0x87; ShiftAddEval(0x56, 0x87); }
  lemma Inverse57() ensures ShiftAdd(0x57, InvTable(0x57)) == 1 { assert (0x57 as bv8 & 0xf) as int == 0x7; assert InvTable(0x57) == 0xbf; ShiftAddEval(0x57, 0xbf); }
  lemma Inverse58() ensures ShiftAdd(0x58, InvTable(0x58)) == 1 { assert (0x58 as bv8 & 0xf) as int == 0x8; assert InvTable(0x58) == 0x18; ShiftAddEval(0x58, 0x18); }
  lemma Inverse59() ensures ShiftAdd(0x59, InvTable(0x59)) == 1 { assert (0x59 as bv8 & 0xf) as int == 0x9; assert InvTable(0x59) == 0x3e; ShiftAddEval(0x59, 0x3e); }
  lemma Inverse5a() ensures ShiftAdd(0x5a, InvTable(0x5a)) == 1 { assert (0x5a as bv8 & 0xf) as int == 0xa; assert InvTable(0x5a) == 0x22; ShiftAddEval(0x5a, 0x22); }
  lemma Inverse5b() ensures ShiftAdd(0x5b, InvTable(0x5b)) == 1 { assert (0x5b as bv8 & 0xf) as int == 0xb; assert InvTable(0x5b) == 0xf0; ShiftAddEval(0x5b, 0xf0); }
  lemma Inverse5c() ensures ShiftAdd(0x5c, InvTable(0x5c)) == 1 { assert (0x5c as bv8 & 0xf) as int == 0xc; assert InvTable(0x5c) == 0x51; ShiftAddEval(0x5c, 0x51); }
  lemma Inverse5d() ensures ShiftAdd(0x5d, InvTable(0x5d)) == 1 { assert (0x5d as bv8 & 0xf) as int == 0xd; assert InvTable(0x5d) == 0xec; ShiftAddEval(0x5d, 0xec); }
  lemma Inverse5e() ensures ShiftAdd(0x5e, InvTable(0x5e)) == 1 { assert (0x5e as bv8 & 0xf) as int == 0xe; assert InvTable(0x5e) == 0x61; ShiftAddEval(0x5e, 0x61); }
  lemma Inverse5f() ensures ShiftAdd(0x5f, InvTable(0x5f)) == 1 { assert (0x5f as bv8 & 0xf) as int == 0xf; assert InvTable(0x5f) == 0x17; ShiftAddEval(0x5f, 0x17); }

  lemma InverseRow5(a: bv8)
    requires a >> 4 == 5
    ensures ShiftAdd(a, InvTable(a)) == 1
  {
    if a == 0x50 { Inverse50(); }
    else if a == 0x51 { Inverse51(); }
    else if a == 0x52 { Inverse52(); }
    else if a == 0x53 { Inverse53(); }
    else if a == 0x54 { Inverse54(); }
    else if a == 0x55 { Inverse55(); }
    else if a == 0x56 { Inverse56(); }
    else if a == 0x57 { Inverse57(); }
    else if a == 0x58 { Inverse58(); }
    else if a == 0x59 { Inverse59(); }
    else if a == 0x5a { Inverse5a(); }
    else if a == 0x5b { Inverse5b(); }
    else if a == 0x5c { Inverse5c(); }
    else if a == 0x5d { Inverse5d(); }
    else if a == 0x5e { Inverse5e(); }
    else { Inverse5f(); }
  }

  lemma Inverse60() ensures ShiftAdd(0x60, InvTable(0x60)) == 1 { assert (0x60 as bv8 & 0xf) as int == 0x0; assert InvTable(0x60) == 0x16; ShiftAddEval(0x60, 0x16); }
  lemma Inverse61() ensures ShiftAdd(0x61, InvTable(0x61)) == 1 { assert (0x61 as bv8 & 0xf) as int == 0x1; assert InvTable(0x61) == 0x5e; ShiftAddEval(0x61, 0x5e); }
  lemma Inverse62() ensures ShiftAdd(0x62, InvTable(0x62)) == 1 { assert (0x62 as bv8 & 0xf) as int == 0x2; assert InvTable(0x62) == 0xaf; ShiftAddEval(0x62, 0xaf); }
  lemma Inverse63() ensures ShiftAdd(0x63, InvTable(0x63)) == 1 { assert (0x63 as bv8 & 0xf) as int == 0x3; assert InvTable(0x63) == 0xd3; ShiftAddEval(0x63, 0xd3); }
  lemma Inverse64() ensures ShiftAdd(0x64, InvTable(0x64)) == 1 { assert (0x64 as bv8 & 0xf) as int == 0x4; assert InvTable(0x64) == 0x49; ShiftAddEval(0x64, 0x49); }
  lemma Inverse65() ensures ShiftAdd(0x65, InvTable(0x65)) == 1 { assert (0x65 as bv8 & 0xf) as int == 0x5; assert InvTable(0x65) == 0xa6; ShiftAddEval(0x65, 0xa6); }
  lemma Inverse66() ensures ShiftAdd(0x66, InvTable(0x66)) == 1 { assert (0x66 as bv8 & 0xf) as int == 0x6; assert InvTable(0x66) == 0x36; ShiftAddEval(0x66, 0x36); }
  lemma Inverse67() ensures ShiftAdd(0x67, InvTable(0x67)) == 1 { assert (0x67 as bv8 & 0xf) as int == 0x7; assert InvTable(0x67) == 0x43; ShiftAddEval(0x67, 0x43); }
  lemma Inverse68() ensures ShiftAdd(0x68, InvTable(0x68)) == 1 { assert (0x68 as bv8 & 0xf) as int == 0x8; assert InvTable(0x68) == 0xf4; ShiftAddEval(0x68, 0xf4); }
  lemma Inverse69() ensures ShiftAdd(0x69, InvTable(0x69)) == 1 { assert (0x69 as bv8 & 0xf) as int == 0x9; assert InvTable(0x69) == 0x47; ShiftAddEval(0x69, 0x47); }
  lemma Inverse6a() ensures ShiftAdd(0x6a, InvTable(0x6a)) == 1 { assert (0x6a as bv8 & 0xf) as int == 0xa; assert InvTable(0x6a) == 0x91; ShiftAddEval(0x6a, 0x91); }
  lemma Inverse6b() ensures ShiftAdd(0x6b, InvTable(0x6b)) == 1 { assert (0x6b as bv8 & 0xf) as int == 0xb; assert InvTable(0x6b) == 0xdf; ShiftAddEval(0x6b, 0xdf); }
  lemma Inverse6c() ensures ShiftAdd(0x6c, InvTable(0x6c)) == 1 { assert (0x6c as bv8 & 0xf) as int == 0xc; assert InvTable(0x6c) == 0x33; ShiftAddEval(0x6c, 0x33); }
  lemma Inverse6d() ensures ShiftAdd(0x6d, InvTable(0x6d)) == 1 { assert (0x6d as bv8 & 0xf) as int == 0xd; assert InvTable(0x6d) == 0x93; ShiftAddEval(0x6d, 0x93); }
  lemma Inverse6e() ensures ShiftAdd(0x6e, InvTable(0x6e)) == 1 { assert (0x6e as bv8 & 0xf) as int == 0xe; assert InvTable(0x6e) == 0x21; ShiftAddEval(0x6e, 0x21); }
  lemma Inverse6f() ensures ShiftAdd(0x6f, InvTable(0x6f)) == 1 { assert (0x6f as bv8 & 0xf) as int == 0xf; assert InvTable(0x6f) == 0x3b; ShiftAddEval(0x6f, 0x3b); }

  lemma InverseRow6(a: bv8)
    requires a >> 4 == 6
    ensures ShiftAdd(a, InvTable(a)) == 1
  {
    if a == 0x60 { Inverse60(); }
    else if a == 0x61 { Inverse61(); }
    else if a == 0x62 { Inverse62(); }
    else if a == 0x63 { Inverse63(); }
    else if a == 0x64 { Inverse64(); }
    else if a == 0x65 { Inverse65(); }
    else if a == 0x66 { Inverse66(); }
    else if a == 0x67 { Inverse67(); }
    else if a == 0x68 { Inverse68(); }
    else if a == 0x69 { Inverse69(); }
    else if a == 0x6a { Inverse6a(); }
    else if a == 0x6b { Inverse6b(); }
    else if a == 0x6c { Inverse6c(); }
    else if a == 0x6d { Inverse6d(); }
    else if a == 0x6e { Inverse6e(); }
    else { Inverse6f(); }
  }

  lemma Inverse70() ensures ShiftAdd(0x70, InvTable(0x70)) == 1 { assert (0x70 as bv8 & 0xf) as int == 0x0; assert InvTable(0x70) == 0x79; ShiftAddEval(0x70, 0x79); }
  lemma Inverse71() ensures ShiftAdd(0x71, InvTable(0x71)) == 1 { assert (0x71 as bv8 & 0xf) as int == 0x1; assert InvTable(0x71) == 0xb7; ShiftAddEval(0x71, 0xb7); }
  lemma Inverse72() ensures ShiftAdd(0x72, InvTable(0x72)) == 1 { assert (0x72 as bv8 & 0xf) as int == 0x2; assert InvTable(0x72) == 0x97; ShiftAddEval(0x72, 0x97); }
  lemma Inverse73() ensures ShiftAdd(0x73, InvTable(0x73)) == 1 { assert (0x73 as bv8 & 0xf) as int == 0x3; assert InvTable(0x73) == 0x85; ShiftAddEval(0x73, 0x85); }
  lemma Inverse74() ensures ShiftAdd(0x74, InvTable(0x74)) == 1 { assert (0x74 as bv8 & 0xf) as int == 0x4; assert InvTable(0x74) == 0x10; ShiftAddEval(0x74, 0x10); }
  lemma Inverse75() ensures ShiftAdd(0x75, InvTable(0x75)) == 1 { assert (0x75 as bv8 & 0xf) as int == 0x5; assert InvTable(0x75) == 0xb5; ShiftAddEval(0x75, 0xb5); }
  lemma Inverse76() ensures ShiftAdd(0x76, InvTable(0x76)) == 1 { assert (0x76 as bv8 & 0xf) as int == 0x6; assert InvTable(0x76) == 0xba; ShiftAddEval(0x76, 0xba); }
  lemma Inverse77() ensures ShiftAdd(0x77, InvTable(0x77)) == 1 { assert (0x77 as bv8 & 0xf) as int == 0x7; assert InvTable(0x77) == 0x3c; ShiftAddEval(0x77, 0x3c); }
  lemma Inverse78() ensures ShiftAdd(0x78, InvTable(0x78)) == 1 { assert (0x78 as bv8 & 0xf) as int == 0x8; assert InvTable(0x78) == 0xb6; ShiftAddEval(0x78, 0xb6); }
  lemma Inverse79() ensures ShiftAdd(0x79, InvTable(0x79)) == 1 { assert (0x79 as bv8 & 0xf) as int == 0x9; assert InvTable(0x79) == 0x70; ShiftAddEval(0x79, 0x70); }
  lemma Inverse7a() ensures ShiftAdd(0x7a, InvTable(0x7a)) == 1 { assert (0x7a as bv8 & 0xf) as int == 0xa; assert InvTable(0x7a) == 0xd0; ShiftAddEval(0x7a, 0xd0); }
  lemma Inverse7b() ensures ShiftAdd(0x7b, InvTable(0x7b)) == 1 { assert (0x7b as bv8 & 0xf) as int == 0xb; assert InvTable(0x7b) == 0x06; ShiftAddEval(0x7b, 0x06); }
  lemma Inverse7c() ensures ShiftAdd(0x7c, InvTable(0x7c)) == 1 { assert (0x7c as bv8 & 0xf) as int == 0xc; assert InvTable(0x7c) == 0xa1; ShiftAddEval(0x7c, 0xa1); }
  lemma Inverse7d() ensures ShiftAdd(0x7d, InvTable(0x7d)) == 1 { assert (0x7d as bv8 & 0xf) as int == 0xd; assert InvTable(0x7d) == 0xfa; ShiftAddEval(0x7d, 0xfa); }
  lemma Inverse7e() ensures ShiftAdd(0x7e, InvTable(0x7e)) == 1 { assert (0x7e as bv8 & 0xf) as int == 0xe; assert InvTable(0x7e) == 0x81; ShiftAddEval(0x7e, 0x81); }
  lemma Inverse7f() ensures ShiftAdd(0x7f, InvTable(0x7f)) == 1 { assert (0x7f as bv8 & 0xf) as int == 0xf; assert InvTable(0x7f) == 0x82; ShiftAddEval(0x7f, 0x82); }

  lemma InverseRow7(a: bv8)
    requires a >> 4 == 7
    ensures ShiftAdd(a, InvTable(a)) == 1
  {
    if a == 0x70 { Inverse70(); }
    else if a == 0x71 { Inverse71(); }
    else if a == 0x72 { Inverse72(); }
    else if a == 0x73 { Inverse73(); }
    else if a == 0x74 { Inverse74(); }
    else if a == 0x75 { Inverse75(); }
    else if a == 0x76 { Inverse76(); }
    else if a == 0x77 { Inverse77(); }
    else if a == 0x78 { Inverse78(); }
    else if a == 0x79 { Inverse79(); }
    else if a == 0x7a { Inverse7a(); }
    else if a == 0x7b { Inverse7b(); }
    else if a == 0x7c { Inverse7c(); }
    else if a == 0x7d { Inverse7d(); }
    else if a == 0x7e { Inverse7e(); }
    else { Inverse7f(); }
  }

  lemma Inverse80() ensures ShiftAdd(0x80, InvTable(0x80)) == 1 { assert (0x80 as bv8 & 0xf) as int == 0x0; assert InvTable(0x80) == 0x83; ShiftAddEval(0x80, 0x83); }
  lemma Inverse81() ensures ShiftAdd(0x81, InvTable(0x81)) == 1 { assert (0x81 as bv8 & 0xf) as int == 0x1; assert InvTable(0x81) == 0x7e; ShiftAddEval(0x81, 0x7e); }
  lemma Inverse82() ensures ShiftAdd(0x82, InvTable(0x82)) == 1 { assert (0x82 as bv8 & 0xf) as int == 0x2; assert InvTable(0x82) == 0x7f; ShiftAddEval(0x82, 0x7f); }
  lemma Inverse83() ensures ShiftAdd(0x83, InvTable(0x83)) == 1 { assert (0x83 as bv8 & 0xf) as int == 0x3; assert InvTable(0x83) == 0x80; ShiftAddEval(0x83, 0x80); }
  lemma Inverse84() ensures ShiftAdd(0x84, InvTable(0x84)) == 1 { assert (0x84 as bv8 & 0xf) as int == 0x4; assert InvTable(0x84) == 0x96; ShiftAddEval(0x84, 0x96); }
  lemma Inverse85() ensures ShiftAdd(0x85, InvTable(0x85)) == 1 { assert (0x85 as bv8 & 0xf) as int == 0x5; assert InvTable(0x85) == 0x73; ShiftAddEval(0x85, 0x73); }
  lemma Inverse86() ensures ShiftAdd(0x86, InvTable(0x86)) == 1 { assert (0x86 as bv8 & 0xf) as int == 0x6; assert InvTable(0x86) == 0xbe; ShiftAddEval(0x86, 0xbe); }
  lemma Inverse87() ensures ShiftAdd(0x87, InvTable(0x87)) == 1 { assert (0x87 as bv8 & 0xf) as int == 0x7; assert InvTable(0x87) == 0x56; ShiftAddEval(0x87, 0x56); }
  lemma Inverse88() ensures ShiftAdd(0x88, InvTable(0x88)) == 1 { assert (0x88 as bv8 & 0xf) as int == 0x8; assert InvTable(0x88) == 0x9b; ShiftAddEval(0x88, 0x9b); }
  lemma Inverse89() ensures ShiftAdd(0x89, InvTable(0x89)) == 1 { assert (0x89 as bv8 & 0xf) as int == 0x9; assert InvTable(0x89) == 0x9e; ShiftAddEval(0x89, 0x9e); }
  lemma Inverse8a() ensures ShiftAdd(0x8a, InvTable(0x8a)) == 1 { assert (0x8a as bv8 & 0xf) as int == 0xa; assert InvTable(0x8a) == 0x95; ShiftAddEval(0x8a, 0x95); }
  lemma Inverse8b() ensures ShiftAdd(0x8b, InvTable(0x8b)) == 1 { assert (0x8b as bv8 & 0xf) as int == 0xb; assert InvTable(0x8b) == 0xd9; ShiftAddEval(0x8b, 0xd9); }
  lemma Inverse8c() ensures ShiftAdd(0x8c, InvTable(0x8c)) == 1 { assert (0x8c as bv8 & 0xf) as int == 0xc; assert InvTable(0x8c) == 0xf7; ShiftAddEval(0x8c, 0xf7); }
  lemma Inverse8d() ensures ShiftAdd(0x8d, InvTable(0x8d)) == 1 { assert (0x8d as bv8 & 0xf) as int == 0xd; assert InvTable(0x8d) == 0x02; ShiftAddEval(0x8d, 0x02); }
  lemma Inverse8e() ensures ShiftAdd(0x8e, InvTable(0x8e)) == 1 { assert (0x8e as bv8 & 0xf) as int == 0xe; assert InvTable(0x8e) == 0xb9; ShiftAddEval(0x8e, 0xb9); }
  lemma Inverse8f() ensures ShiftAdd(0x8f, InvTable(0x8f)) == 1 { assert (0x8f as bv8 & 0xf) as int == 0xf; assert InvTable(0x8f) == 0xa4; ShiftAddEval(0x8f, 0xa4); }

  lemma InverseRow8(a: bv8)
    requires a >> 4 == 8
    ensures ShiftAdd(a, InvTable(a)) == 1
  {
    if a == 0x80 { Inverse80(); }
    else if a == 0x81 { Inverse81(); }
    else if a == 0x82 { Inverse82(); }
    else if a == 0x83 { Inverse83(); }
    else if a == 0x84 { Inverse84(); }
    else if a == 0x85 { Inverse85(); }
    else if a == 0x86 { Inverse86(); }
    else if a == 0x87 { Inverse87(); }
    else if a == 0x88 { Inverse88(); }
    else if a == 0x89 { Inverse89(); }
    else if a == 0x8a { Inverse8a(); }
    else if a == 0x8b { Inverse8b(); }
    else if a == 0x8c { Inverse8c(); }
    else if a == 0x8d { Inverse8d(); }
    else if a == 0x8e { Inverse8e(); }
    else { Inverse8f(); }
  }

  lemma Inverse90() ensures ShiftAdd(0x90, InvTable(0x90)) == 1 { assert (0x90 as bv8 & 0xf) as int == 0x0; assert InvTable(0x90) == 0xde; ShiftAddEval(0x90, 0xde); }
  lemma Inverse91() ensures ShiftAdd(0x91, InvTable(0x91)) == 1 { assert (0x91 as bv8 & 0xf) as int == 0x1; assert InvTable(0x91) == 0x6a; ShiftAddEval(0x91, 0x6a); }
  lemma Inverse92() ensures ShiftAdd(0x92, InvTable(0x92)) == 1 { assert (0x92 as bv8 & 0xf) as int == 0x2; assert InvTable(0x92) == 0x32; ShiftAddEval(0x92, 0x32); }
  lemma Inverse93() ensures ShiftAdd(0x93, InvTable(0x93)) == 1 { assert (0x93 as bv8 & 0xf) as int == 0x3; assert InvTable(0x93) == 0x6d; ShiftAddEval(0x93, 0x6d); }
  lemma Inverse94() ensures ShiftAdd(0x94, InvTable(0x94)) == 1 { assert (0x94 as bv8 & 0xf) as int == 0x4; assert InvTable(0x94) == 0xd8; ShiftAddEval(0x94, 0xd8); }
  lemma Inverse95() ensures ShiftAdd(0x95, InvTable(0x95)) == 1 { assert (0x95 as bv8 & 0xf) as int == 0x5; assert InvTable(0x95) == 0x8a; ShiftAddEval(0x95, 0x8a); }
  lemma Inverse96() ensures ShiftAdd(0x96, InvTable(0x96)) == 1 { assert (0x96 as bv8 & 0xf) as int == 0x6; assert InvTable(0x96) == 0x84; ShiftAddEval(0x96, 0x84); }
  lemma Inverse97() ensures ShiftAdd(0x97, InvTable(0x97)) == 1 { assert (0x97 as bv8 & 0xf) as int == 0x7; assert InvTable(0x97) == 0x72; ShiftAddEval(0x97, 0x72); }
  lemma Inverse98() ensures ShiftAdd(0x98, InvTable(0x98)) == 1 { assert (0x98 as bv8 & 0xf) as int == 0x8; assert InvTable(0x98) == 0x2a; ShiftAddEval(0x98, 0x2a); }
  lemma Inverse99() ensures ShiftAdd(0x99, InvTable(0x99)) == 1 { assert (0x99 as bv8 & 0xf) as int == 0x9; assert InvTable(0x99) == 0x14; ShiftAddEval(0x99, 0x14); }
  lemma Inverse9a() ensures ShiftAdd(0x9a, InvTable(0x9a)) == 1 { assert (0x9a as bv8 & 0xf) as int == 0xa; assert InvTable(0x9a) == 0x9f; ShiftAddEval(0x9a, 0x9f); }
  lemma Inverse9b() ensures ShiftAdd(0x9b, InvTable(0x9b)) == 1 { assert (0x9b as bv8 & 0xf) as int == 0xb; assert InvTable(0x9b) == 0x88; ShiftAddEval(0x9b, 0x88); }
  lemma Inverse9c() ensures ShiftAdd(0x9c, InvTable(0x9c)) == 1 { assert (0x9c as bv8 & 0xf) as int == 0xc; assert InvTable(0x9c) == 0xf9; ShiftAddEval(0x9c, 0xf9); }
  lemma Inverse9d() ensures ShiftAdd(0x9d, InvTable(0x9d)) == 1 { assert (0x9d as bv8 & 0xf) as int == 0xd; assert InvTable(0x9d) == 0xdc; ShiftAddEval(0x9d, 0xdc); }
  lemma Inverse9e() ensures ShiftAdd(0x9e, InvTable(0x9e)) == 1 { assert (0x9e as bv8 & 0xf) as int == 0xe; assert InvTable(0x9e) == 0x89; ShiftAddEval(0x9e, 0x89); }
  lemma Inverse9f() ensures ShiftAdd(0x9f, InvTable(0x9f)) == 1 { assert (0x9f as bv8 & 0xf) as int == 0xf; assert InvTable(0x9f) == 0x9a; ShiftAddEval(0x9f, 0x9a); }

  lemma InverseRow9(a: bv8)
    requires a >> 4 == 9
    ensures ShiftAdd(a, InvTable(a)) == 1
  {
    if a == 0x90 { Inverse90(); }
    else if a == 0x91 { Inverse91(); }
    else if a == 0x92 { Inverse92(); }
    else if a == 0x93 { Inverse93(); }
    else if a == 0x94 { Inverse94(); }
    else if a == 0x95 { Inverse95(); }
    else if a == 0x96 { Inverse96(); }
    else if a == 0x97 { Inverse97(); }
    else if a == 0x98 { Inverse98(); }
    else if a == 0x99 { Inverse99(); }
    else if a == 0x9a { Inverse9a(); }
    else if a == 0x9b { Inverse9b(); }
    else if a == 0x9c { Inverse9c(); }
    else if a == 0x9d { Inverse9d(); }
    else if a == 0x9e { Inverse9e(); }
    else { Inverse9f(); }
  }

  lemma Inversea0() ensures ShiftAdd(0xa0, InvTable(0xa0)) == 1 { assert (0xa0 as bv8 & 0xf) as int == 0x0; assert InvTable(0xa0) == 0xfb; ShiftAddEval(0xa0, 0xfb); }
  lemma Inversea1() ensures ShiftAdd(0xa1, InvTable(0xa1)) == 1 { assert (0xa1 as bv8 & 0xf) as int == 0x1; assert InvTable(0xa1) == 0x7c; ShiftAddEval(0xa1, 0x7c); }
  lemma Inversea2() ensures ShiftAdd(0xa2, InvTable(0xa2)) == 1 { assert (0xa2 as bv8 & 0xf) as int == 0x2; assert InvTable(0xa2) == 0x2e; ShiftAddEval(0xa2, 0x2e); }
  lemma Inversea3() ensures ShiftAdd(0xa3, InvTable(0xa3)) == 1 { assert (0xa3 as bv8 & 0xf) as int == 0x3; assert InvTable(0xa3) == 0xc3; ShiftAddEval(0xa3, 0xc3); }
  lemma Inversea4() ensures ShiftAdd(0xa4, InvTable(0xa4)) == 1 { assert (0xa4 as bv8 & 0xf) as int == 0x4; assert InvTable(0xa4) == 0x8f; ShiftAddEval(0xa4, 0x8f); }
  lemma Inversea5() ensures ShiftAdd(0xa5, InvTable(0xa5)) == 1 { assert (0xa5 as bv8 & 0xf) as int == 0x5; assert InvTable(0xa5) == 0xb8; ShiftAddEval(0xa5, 0xb8); }
  lemma Inversea6() ensures ShiftAdd(0xa6, InvTable(0xa6)) == 1 { assert (0xa6 as bv8 & 0xf) as int == 0x6; assert InvTable(0xa6) == 0x65; ShiftAddEval(0xa6, 0x65); }
  lemma Inversea7() ensures ShiftAdd(0xa7, InvTable(0xa7)) == 1 { assert (0xa7 as bv8 & 0xf) as int == 0x7; assert InvTable(0xa7) == 0x48; ShiftAddEval(0xa7, 0x48); }
  lemma Inversea8() ensures ShiftAdd(0xa8, InvTable(0xa8)) == 1 { assert (0xa8 as bv8 & 0xf) as int == 0x8; assert InvTable(0xa8) == 0x26; ShiftAddEval(0xa8, 0x26); }
  lemma Inversea9() ensures ShiftAdd(0xa9, InvTable(0xa9)) == 1 { assert (0xa9 as bv8 & 0xf) as int == 0x9; assert InvTable(0xa9) == 0xc8; ShiftAddEval(0xa9, 0xc8); }
  lemma Inverseaa() ensures ShiftAdd(0xaa, InvTable(0xaa)) == 1 { assert (0xaa as bv8 & 0xf) as int == 0xa; assert InvTable(0xaa) == 0x12; ShiftAddEval(0xaa, 0x12); }
  lemma Inverseab() ensures ShiftAdd(0xab, InvTable(0xab)) == 1 { assert (0xab as bv8 & 0xf) as int == 0xb; assert InvTable(0xab) == 0x4a; ShiftAddEval(0xab, 0x4a); }
  lemma Inverseac() ensures ShiftAdd(0xac, InvTable(0xac)) == 1 { assert (0xac as bv8 & 0xf) as int == 0xc; assert InvTable(0xac) == 0xce; ShiftAddEval(0xac, 0xce); }
  lemma Inversead() ensures ShiftAdd(0xad, InvTable(0xad)) == 1 { assert (0xad as bv8 & 0xf) as int == 0xd; assert InvTable(0xad) == 0xe7; ShiftAddEval(0xad, 0xe7); }
  lemma Inverseae() ensures ShiftAdd(0xae, InvTable(0xae)) == 1 { assert (0xae as bv8 & 0xf) as int == 0xe; assert InvTable(0xae) == 0xd2; ShiftAddEval(0xae, 0xd2); }
  lemma Inverseaf() ensures ShiftAdd(0xaf, InvTable(0xaf)) == 1 { assert (0xaf as bv8 & 0xf) as int == 0xf; assert InvTable(0xaf) == 0x62; ShiftAddEval(0xaf, 0x62); }

  lemma InverseRow10(a: bv8)
    requires a >> 4 == 10
    ensures ShiftAdd(a, InvTable(a)) == 1
  {
    if a == 0xa0 { Inversea0(); }
    else if a == 0xa1 { Inversea1(); }
    else if a == 0xa2 { Inversea2(); }
    else if a == 0xa3 { Inversea3(); }
    else if a == 0xa4 { Inversea4(); }
    else if a == 0xa5 { Inversea5(); }
    else if a == 0xa6 { Inversea6(); }
    else if a == 0xa7 { Inversea7(); }
    else if a == 0xa8 { Inversea8(); }
    else if a == 0xa9 { Inversea9(); }
    else if a == 0xaa { Inverseaa(); }
    else if a == 0xab { Inverseab(); }
    else if a == 0xac { Inverseac(); }
    else if a == 0xad { Inversead(); }
    else if a == 0xae { Inverseae(); }
    else { Inverseaf(); }
  }

  lemma Inverseb0() ensures ShiftAdd(0xb0, InvTable(0xb0)) == 1 { assert (0xb0 as bv8 & 0xf) as int == 0x0; assert InvTable(0xb0) == 0x0c; ShiftAddEval(0xb0, 0x0c); }
  lemma Inverseb1() ensures ShiftAdd(0xb1, InvTable(0xb1)) == 1 { assert (0xb1 as bv8 & 0xf) as int == 0x1; assert InvTable(0xb1) == 0xe0; ShiftAddEval(0xb1, 0xe0); }
  lemma Inverseb2() ensures ShiftAdd(0xb2, InvTable(0xb2)) == 1 { assert (0xb2 as bv8 & 0xf) as int == 0x2; assert InvTable(0xb2) == 0x1f; ShiftAddEval(0xb2, 0x1f); }
  lemma Inverseb3() ensures ShiftAdd(0xb3, InvTable(0xb3)) == 1 { assert (0xb3 as bv8 & 0xf) as int == 0x3; assert InvTable(0xb3) == 0xef; ShiftAddEval(0xb3, 0xef); }
  lemma Inverseb4() ensures ShiftAdd(0xb4, InvTable(0xb4)) == 1 { assert (0xb4 as bv8 & 0xf) as int == 0x4; assert InvTable(0xb4) == 0x11; ShiftAddEval(0xb4, 0x11); }
  lemma Inverseb5() ensures ShiftAdd(0xb5, InvTable(0xb5)) == 1 { assert (0xb5 as bv8 & 0xf) as int == 0x5; assert InvTable(0xb5) == 0x75; ShiftAddEval(0xb5, 0x75); }
  lemma Inverseb6() ensures ShiftAdd(0xb6, InvTable(0xb6)) == 1 { assert (0xb6 as bv8 & 0xf) as int == 0x6; assert InvTable(0xb6) == 0x78; ShiftAddEval(0xb6, 0x78); }
  lemma Inverseb7() ensures ShiftAdd(0xb7, InvTable(0xb7)) == 1 { assert (0xb7 as bv8 & 0xf) as int == 0x7; assert InvTable(0xb7) == 0x71; ShiftAddEval(0xb7, 0x71); }
  lemma Inverseb8() ensures ShiftAdd(0xb8, InvTable(0xb8)) == 1 { assert (0xb8 as bv8 & 0xf) as int == 0x8; assert InvTable(0xb8) == 0xa5; ShiftAddEval(0xb8, 0xa5); }
  lemma Inverseb9() ensures ShiftAdd(0xb9, InvTable(0xb9)) == 1 { assert (0xb9 as bv8 & 0xf) as int == 0x9; assert InvTable(0xb9) == 0x8e; ShiftAddEval(0xb9, 0x8e); }
  lemma Inverseba() ensures ShiftAdd(0xba, InvTable(0xba)) == 1 { assert (0xba as bv8 & 0xf) as int == 0xa; assert InvTable(0xba) == 0x76; ShiftAddEval(0xba, 0x76); }
  lemma Inversebb() ensures ShiftAdd(0xbb, InvTable(0xbb)) == 1 { assert (0xbb as bv8 & 0xf) as int == 0xb; assert InvTable(0xbb) == 0x3d; ShiftAddEval(0xbb, 0x3d); }
  lemma Inversebc() ensures ShiftAdd(0xbc, InvTable(0xbc)) == 1 { assert (0xbc as bv8 & 0xf) as int == 0xc; assert InvTable(0xbc) == 0xbd; ShiftAddEval(0xbc, 0xbd); }
  lemma Inversebd() ensures ShiftAdd(0xbd, InvTable(0xbd)) == 1 { assert (0xbd as bv8 & 0xf) as int == 0xd; assert InvTable(0xbd) == 0xbc; ShiftAddEval(0xbd, 0xbc); }
  lemma Inversebe() ensures ShiftAdd(0xbe, InvTable(0xbe)) == 1 { assert (0xbe as bv8 & 0xf) as int == 0xe; assert InvTable(0xbe) == 0x86; ShiftAddEval(0xbe, 0x86); }
  lemma Inversebf() ensures ShiftAdd(0xbf, InvTable(0xbf)) == 1 { assert (0xbf as bv8 & 0xf) as int == 0xf; assert InvTable(0xbf) == 0x57; ShiftAddEval(0xbf, 0x57); }

  lemma InverseRow11(a: bv8)
    requires a >> 4 == 11
    ensures ShiftAdd(a, InvTable(a)) == 1
  {
    if a == 0xb0 { Inverseb0(); }
    else if a == 0xb1 { Inverseb1(); }
    else if a == 0xb2 { Inverseb2(); }
    else if a == 0xb3 { Inverseb3(); }
    else if a == 0xb4 { Inverseb4(); }
    else if a == 0xb5 { Inverseb5(); }
    else if a == 0xb6 { Inverseb6(); }
    else if a == 0xb7 { Inverseb7(); }
    else if a == 0xb8 { Inverseb8(); }
    else if a == 0xb9 { Inverseb9(); }
    else if a == 0xba { Inverseba(); }
    else if a == 0xbb { Inversebb(); }
    else if a == 0xbc { Inversebc(); }
    else if a == 0xbd { Inversebd(); }
    else if a == 0xbe { Inversebe(); }
    else { Inversebf(); }
  }

  lemma Inversec0() ensures ShiftAdd(0xc0, InvTable(0xc0)) == 1 { assert (0xc0 as bv8 & 0xf) as int == 0x0; assert InvTable(0xc0) == 0x0b; ShiftAddEval(0xc0, 0x0b); }
  lemma Inversec1() ensures ShiftAdd(0xc1, InvTable(0xc1)) == 1 { assert (0xc1 as bv8 & 0xf) as int == 0x1; assert InvTable(0xc1) == 0x28; ShiftAddEval(0xc1, 0x28); }
  lemma Inversec2() ensures ShiftAdd(0xc2, InvTable(0xc2)) == 1 { assert (0xc2 as bv8 & 0xf) as int == 0x2; assert InvTable(0xc2) == 0x2f; ShiftAddEval(0xc2, 0x2f); }
  lemma Inversec3() ensures ShiftAdd(0xc3, InvTable(0xc3)) == 1 { assert (0xc3 as bv8 & 0xf) as int == 0x3; assert InvTable(0xc3) == 0xa3; ShiftAddEval(0xc3, 0xa3); }
  lemma Inversec4() ensures ShiftAdd(0xc4, InvTable(0xc4)) == 1 { assert (0xc4 as bv8 & 0xf) as int == 0x4; assert InvTable(0xc4) == 0xda; ShiftAddEval(0xc4, 0xda); }
  lemma Inversec5() ensures ShiftAdd(0xc5, InvTable(0xc5)) == 1 { assert (0xc5 as bv8 & 0xf) as int == 0x5; assert InvTable(0xc5) == 0xd4; ShiftAddEval(0xc5, 0xd4); }
  lemma Inversec6() ensures ShiftAdd(0xc6, InvTable(0xc6)) == 1 { assert (0xc6 as bv8 & 0xf) as int == 0x6; assert InvTable(0xc6) == 0xe4; ShiftAddEval(0xc6, 0xe4); }
  lemma Inversec7() ensures ShiftAdd(0xc7, InvTable(0xc7)) == 1 { assert (0xc7 as bv8 & 0xf) as int == 0x7; assert InvTable(0xc7) == 0x0f; ShiftAddEval(0xc7, 0x0f); }
  lemma Inversec8() ensures ShiftAdd(0xc8, InvTable(0xc8)) == 1 { assert (0xc8 as bv8 & 0xf) as int == 0x8; assert InvTable(0xc8) == 0xa9; ShiftAddEval(0xc8, 0xa9); }
  lemma Inversec9() ensures ShiftAdd(0xc9, InvTable(0xc9)) == 1 { assert (0xc9 as bv8 & 0xf) as int == 0x9; assert InvTable(0xc9) == 0x27; ShiftAddEval(0xc9, 0x27); }
  lemma Inverseca() ensures ShiftAdd(0xca, InvTable(0xca)) == 1 { assert (0xca as bv8 & 0xf) as int == 0xa; assert InvTable(0xca) == 0x53; ShiftAddEval(0xca, 0x53); }
  lemma Inversecb() ensures ShiftAdd(0xcb, InvTable(0xcb)) == 1 { assert (0xcb as bv8 & 0xf) as int == 0xb; assert InvTable(0xcb) == 0x04; ShiftAddEval(0xcb, 0x04); }
  lemma Inversecc() ensures ShiftAdd(0xcc, InvTable(0xcc)) == 1 { assert (0xcc as bv8 & 0xf) as int == 0xc; assert InvTable(0xcc) == 0x1b; ShiftAddEval(0xcc, 0x1b); }
  lemma Inversecd() ensures ShiftAdd(0xcd, InvTable(0xcd)) == 1 { assert (0xcd as bv8 & 0xf) as int == 0xd; assert InvTable(0xcd) == 0xfc; ShiftAddEval(0xcd, 0xfc); }
  lemma Inversece() ensures ShiftAdd(0xce, InvTable(0xce)) == 1 { assert (0xce as bv8 & 0xf) as int == 0xe; assert InvTable(0xce) == 0xac; ShiftAddEval(0xce, 0xac); }
  lemma Inversecf() ensures ShiftAdd(0xcf, InvTable(0xcf)) == 1 { assert (0xcf as bv8 & 0xf) as int == 0xf; assert InvTable(0xcf) == 0xe6; ShiftAddEval(0xcf, 0xe6); }

  lemma InverseRow12(a: bv8)
    requires a >> 4 == 12
    ensures ShiftAdd(a, InvTable(a)) == 1
  {
    if a == 0xc0 { Inversec0(); }
    else if a == 0xc1 { Inversec1(); }
    else if a == 0xc2 { Inversec2(); }
    else if a == 0xc3 { Inversec3(); }
    else if a == 0xc4 { Inversec4(); }
    else if a == 0xc5 { Inversec5(); }
    else if a == 0xc6 { Inversec6(); }
    else if a == 0xc7 { Inversec7(); }
    else if a == 0xc8 { Inversec8(); }
    else if a == 0xc9 { Inversec9(); }
    else if a == 0xca { Inverseca(); }
    else if a == 0xcb { Inversecb(); }
    else if a == 0xcc { Inversecc(); }
    else if a == 0xcd { Inversecd(); }
    else if a == 0xce { Inversece(); }
    else { Inversecf(); }
  }

  lemma Inversed0() ensures ShiftAdd(0xd0, InvTable(0xd0)) == 1 { assert (0xd0 as bv8 & 0xf) as int == 0x0; assert InvTable(0xd0) == 0x7a; ShiftAddEval(0xd0, 0x7a); }
  lemma Inversed1() ensures ShiftAdd(0xd1, InvTable(0xd1)) == 1 { assert (0xd1 as bv8 & 0xf) as int == 0x1; assert InvTable(0xd1) == 0x07; ShiftAddEval(0xd1, 0x07); }
  lemma Inversed2() ensures ShiftAdd(0xd2, InvTable(0xd2)) == 1 { assert (0xd2 as bv8 & 0xf) as int == 0x2; assert InvTable(0xd2) == 0xae; ShiftAddEval(0xd2, 0xae); }
  lemma Inversed3() ensures ShiftAdd(0xd3, InvTable(0xd3)) == 1 { assert (0xd3 as bv8 & 0xf) as int == 0x3; assert InvTable(0xd3) == 0x63; ShiftAddEval(0xd3, 0x63); }
  lemma Inversed4() ensures ShiftAdd(0xd4, InvTable(0xd4)) == 1 { assert (0xd4 as bv8 & 0xf) as int == 0x4; assert InvTable(0xd4) == 0xc5; ShiftAddEval(0xd4, 0xc5); }
  lemma Inversed5() ensures ShiftAdd(0xd5, InvTable(0xd5)) == 1 { assert (0xd5 as bv8 & 0xf) as int == 0x5; assert InvTable(0xd5) == 0xdb; ShiftAddEval(0xd5, 0xdb); }
  lemma Inversed6() ensures ShiftAdd(0xd6, InvTable(0xd6)) == 1 { assert (0xd6 as bv8 & 0xf) as int == 0x6; assert InvTable(0xd6) == 0xe2; ShiftAddEval(0xd6, 0xe2); }
  lemma Inversed7() ensures ShiftAdd(0xd7, InvTable(0xd7)) == 1 { assert (0xd7 as bv8 & 0xf) as int == 0x7; assert InvTable(0xd7) == 0xea; ShiftAddEval(0xd7, 0xea); }
  lemma Inversed8() ensures ShiftAdd(0xd8, InvTable(0xd8)) == 1 { assert (0xd8 as bv8 & 0xf) as int == 0x8; assert InvTable(0xd8) == 0x94; ShiftAddEval(0xd8, 0x94); }
  lemma Inversed9() ensures ShiftAdd(0xd9, InvTable(0xd9)) == 1 { assert (0xd9 as bv8 & 0xf) as int == 0x9; assert InvTable(0xd9) == 0x8b; ShiftAddEval(0xd9, 0x8b); }
  lemma Inverseda() ensures ShiftAdd(0xda, InvTable(0xda)) == 1 { assert (0xda as bv8 & 0xf) as int == 0xa; assert InvTable(0xda) == 0xc4; ShiftAddEval(0xda, 0xc4); }
  lemma Inversedb() ensures ShiftAdd(0xdb, InvTable(0xdb)) == 1 { assert (0xdb as bv8 & 0xf) as int == 0xb; assert InvTable(0xdb) == 0xd5; ShiftAddEval(0xdb, 0xd5); }
  lemma Inversedc() ensures ShiftAdd(0xdc, InvTable(0xdc)) == 1 { assert (0xdc as bv8 & 0xf) as int == 0xc; assert InvTable(0xdc) == 0x9d; ShiftAddEval(0xdc, 0x9d); }
  lemma Inversedd() ensures ShiftAdd(0xdd, InvTable(0xdd)) == 1 { assert (0xdd as bv8 & 0xf) as int == 0xd; assert InvTable(0xdd) == 0xf8; ShiftAddEval(0xdd, 0xf8); }
  lemma Inversede() ensures ShiftAdd(0xde, InvTable(0xde)) == 1 { assert (0xde as bv8 & 0xf) as int == 0xe; assert InvTable(0xde) == 0x90; ShiftAddEval(0xde, 0x90); }
  lemma Inversedf() ensures ShiftAdd(0xdf, InvTable(0xdf)) == 1 { assert (0xdf as bv8 & 0xf) as int == 0xf; assert InvTable(0xdf) == 0x6b; ShiftAddEval(0xdf, 0x6b); }

  lemma InverseRow13(a: bv8)
    requires a >> 4 == 13
    ensures ShiftAdd(a, InvTable(a)) == 1
  {
    if a == 0xd0 { Inversed0(); }
    else if a == 0xd1 { Inversed1(); }
    else if a == 0xd2 { Inversed2(); }
    else if a == 0xd3 { Inversed3(); }
    else if a == 0xd4 { Inversed4(); }
    else if a == 0xd5 { Inversed5(); }
    else if a == 0xd6 { Inversed6(); }
    else if a == 0xd7 { Inversed7(); }
    else if a == 0xd8 { Inversed8(); }
    else if a == 0xd9 { Inversed9(); }
    else if a == 0xda { Inverseda(); }
    else if a == 0xdb { Inversedb(); }
    else if a == 0xdc { Inversedc(); }
    else if a == 0xdd { Inversedd(); }
    else if a == 0xde { Inversede(); }
    else { Inversedf(); }
  }

  lemma Inversee0() ensures ShiftAdd(0xe0, InvTable(0xe0)) == 1 { assert (0xe0 as bv8 & 0xf) as int == 0x0; assert InvTable(0xe0) == 0xb1; ShiftAddEval(0xe0, 0xb1); }
  lemma Inversee1() ensures ShiftAdd(0xe1, InvTable(0xe1)) == 1 { assert (0xe1 as bv8 & 0xf) as int == 0x1; assert InvTable(0xe1) == 0x0d; ShiftAddEval(0xe1, 0x0d); }
  lemma Inversee2() ensures ShiftAdd(0xe2, InvTable(0xe2)) == 1 { assert (0xe2 as bv8 & 0xf) as int == 0x2; assert InvTable(0xe2) == 0xd6; ShiftAddEval(0xe2, 0xd6); }
  lemma Inversee3() ensures ShiftAdd(0xe3, InvTable(0xe3)) == 1 { assert (0xe3 as bv8 & 0xf) as int == 0x3; assert InvTable(0xe3) == 0xeb; ShiftAddEval(0xe3, 0xeb); }
  lemma Inversee4() ensures ShiftAdd(0xe4, InvTable(0xe4)) == 1 { assert (0xe4 as bv8 & 0xf) as int == 0x4; assert InvTable(0xe4) == 0xc6; ShiftAddEval(0xe4, 0xc6); }
  lemma Inversee5() ensures ShiftAdd(0xe5, InvTable(0xe5)) == 1 { assert (0xe5 as bv8 & 0xf) as int == 0x5; assert InvTable(0xe5) == 0x0e; ShiftAddEval(0xe5, 0x0e); }
  lemma Inversee6() ensures ShiftAdd(0xe6, InvTable(0xe6)) == 1 { assert (0xe6 as bv8 & 0xf) as int == 0x6; assert InvTable(0xe6) == 0xcf; ShiftAddEval(0xe6, 0xcf); }
  lemma Inversee7() ensures ShiftAdd(0xe7, InvTable(0xe7)) == 1 { assert (0xe7 as bv8 & 0xf) as int == 0x7; assert InvTable(0xe7) == 0xad; ShiftAddEval(0xe7, 0xad); }
  lemma Inversee8() ensures ShiftAdd(0xe8, InvTable(0xe8)) == 1 { assert (0xe8 as bv8 & 0xf) as int == 0x8; assert InvTable(0xe8) == 0x08; ShiftAddEval(0xe8, 0x08); }
  lemma Inversee9() ensures ShiftAdd(0xe9, InvTable(0xe9)) == 1 { assert (0xe9 as bv8 & 0xf) as int == 0x9; assert InvTable(0xe9) == 0x4e; ShiftAddEval(0xe9, 0x4e); }
  lemma Inverseea() ensures ShiftAdd(0xea, InvTable(0xea)) == 1 { assert (0xea as bv8 & 0xf) as int == 0xa; assert InvTable(0xea) == 0xd7; ShiftAddEval(0xea, 0xd7); }
  lemma Inverseeb() ensures ShiftAdd(0xeb, InvTable(0xeb)) == 1 { assert (0xeb as bv8 & 0xf) as int == 0xb; assert InvTable(0xeb) == 0xe3; ShiftAddEval(0xeb, 0xe3); }
  lemma Inverseec() ensures ShiftAdd(0xec, InvTable(0xec)) == 1 { assert (0xec as bv8 & 0xf) as int == 0xc; assert InvTable(0xec) == 0x5d; ShiftAddEval(0xec, 0x5d); }
  lemma Inverseed() ensures ShiftAdd(0xed, InvTable(0xed)) == 1 { assert (0xed as bv8 & 0xf) as int == 0xd; assert InvTable(0xed) == 0x50; ShiftAddEval(0xed, 0x50); }
  lemma Inverseee() ensures ShiftAdd(0xee, InvTable(0xee)) == 1 { assert (0xee as bv8 & 0xf) as int == 0xe; assert InvTable(0xee) == 0x1e; ShiftAddEval(0xee, 0x1e); }
  lemma Inverseef() ensures ShiftAdd(0xef, InvTable(0xef)) == 1 { assert (0xef as bv8 & 0xf) as int == 0xf; assert InvTable(0xef) == 0xb3; ShiftAddEval(0xef, 0xb3); }

  lemma InverseRow14(a: bv8)
    requires a >> 4 == 14
    ensures ShiftAdd(a, InvTable(a)) == 1
  {
    if a == 0xe0 { Inversee0(); }
    else if a == 0xe1 { Inversee1(); }
    else if a == 0xe2 { Inversee2(); }
    else if a == 0xe3 { Inversee3(); }
    else if a == 0xe4 { Inversee4(); }
    else if a == 0xe5 { Inversee5(); }
    else if a == 0xe6 { Inversee6(); }
    else if a == 0xe7 { Inversee7(); }
    else if a == 0xe8 { Inversee8(); }
    else if a == 0xe9 { Inversee9(); }
    else if a == 0xea { Inverseea(); }
    else if a == 0xeb { Inverseeb(); }
    else if a == 0xec { Inverseec(); }
    else if a == 0xed { Inverseed(); }
    else if a == 0xee { Inverseee(); }
    else { Inverseef(); }
  }

  lemma Inversef0() ensures ShiftAdd(0xf0, InvTable(0xf0)) == 1 { assert (0xf0 as bv8 & 0xf) as int == 0x0; assert InvTable(0xf0) == 0x5b; ShiftAddEval(0xf0, 0x5b); }
  lemma Inversef1() ensures ShiftAdd(0xf1, InvTable(0xf1)) == 1 { assert (0xf1 as bv8 & 0xf) as int == 0x1; assert InvTable(0xf1) == 0x23; ShiftAddEval(0xf1, 0x23); }
  lemma Inversef2() ensures ShiftAdd(0xf2, InvTable(0xf2)) == 1 { assert (0xf2 as bv8 & 0xf) as int == 0x2; assert InvTable(0xf2) == 0x38; ShiftAddEval(0xf2, 0x38); }
  lemma Inversef3() ensures ShiftAdd(0xf3, InvTable(0xf3)) == 1 { assert (0xf3 as bv8 & 0xf) as int == 0x3; assert InvTable(0xf3) == 0x34; ShiftAddEval(0xf3, 0x34); }
  lemma Inversef4() ensures ShiftAdd(0xf4, InvTable(0xf4)) == 1 { assert (0xf4 as bv8 & 0xf) as int == 0x4; assert InvTable(0xf4) == 0x68; ShiftAddEval(0xf4, 0x68); }
  lemma Inversef5() ensures ShiftAdd(0xf5, InvTable(0xf5)) == 1 { assert (0xf5 as bv8 & 0xf) as int == 0x5; assert InvTable(0xf5) == 0x46; ShiftAddEval(0xf5, 0x46); }
  lemma Inversef6() ensures ShiftAdd(0xf6, InvTable(0xf6)) == 1 { assert (0xf6 as bv8 & 0xf) as int == 0x6; assert InvTable(0xf6) == 0x03; ShiftAddEval(0xf6, 0x03); }
  lemma Inversef7() ensures ShiftAdd(0xf7, InvTable(0xf7)) == 1 { assert (0xf7 as bv8 & 0xf) as int == 0x7; assert InvTable(0xf7) == 0x8c; ShiftAddEval(0xf7, 0x8c); }
  lemma Inversef8() ensures ShiftAdd(0xf8, InvTable(0xf8)) == 1 { assert (0xf8 as bv8 & 0xf) as int == 0x8; assert InvTable(0xf8) == 0xdd; ShiftAddEval(0xf8, 0xdd); }
  lemma Inversef9() ensures ShiftAdd(0xf9, InvTable(0xf9)) == 1 { assert (0xf9 as bv8 & 0xf) as int == 0x9; assert InvTable(0xf9) == 0x9c; ShiftAddEval(0xf9, 0x9c); }
  lemma Inversefa() ensures ShiftAdd(0xfa, InvTable(0xfa)) == 1 { assert (0xfa as bv8 & 0xf) as int == 0xa; assert InvTable(0xfa) == 0x7d; ShiftAddEval(0xfa, 0x7d); }
  lemma Inversefb() ensures ShiftAdd(0xfb, InvTable(0xfb)) == 1 { assert (0xfb as bv8 & 0xf) as int == 0xb; assert InvTable(0xfb) == 0xa0; ShiftAddEval(0xfb, 0xa0); }
  lemma Inversefc() ensures ShiftAdd(0xfc, InvTable(0xfc)) == 1 { assert (0xfc as bv8 & 0xf) as int == 0xc; assert InvTable(0xfc) == 0xcd; ShiftAddEval(0xfc, 0xcd); }
  lemma Inversefd() ensures ShiftAdd(0xfd, InvTable(0xfd)) == 1 { assert (0xfd as bv8 & 0xf) as int == 0xd; assert InvTable(0xfd) == 0x1a; ShiftAddEval(0xfd, 0x1a); }
  lemma Inversefe() ensures ShiftAdd(0xfe, InvTable(0xfe)) == 1 { assert (0xfe as bv8 & 0xf) as int == 0xe; assert InvTable(0xfe) == 0x41; ShiftAddEval(0xfe, 0x41); }
  lemma Inverseff() ensures ShiftAdd(0xff, InvTable(0xff)) == 1 { assert (0xff as bv8 & 0xf) as int == 0xf; assert InvTable(0xff) == 0x1c; ShiftAddEval(0xff, 0x1c); }

  lemma InverseRow15(a: bv8)
    requires a >> 4 == 15
    ensures ShiftAdd(a, InvTable(a)) == 1
  {
    if a == 0xf0 { Inversef0(); }
    else if a == 0xf1 { Inversef1(); }
    else if a == 0xf2 { Inversef2(); }
    else if a == 0xf3 { Inversef3(); }
    else if a == 0xf4 { Inversef4(); }
    else if a == 0xf5 { Inversef5(); }
    else if a == 0xf6 { Inversef6(); }
    else if a == 0xf7 { Inversef7(); }
    else if a == 0xf8 { Inversef8(); }
    else if a == 0xf9 { Inversef9(); }
    else if a == 0xfa { Inversefa(); }
    else if a == 0xfb { Inversefb(); }
    else if a == 0xfc { Inversefc(); }
    else if a == 0xfd { Inversefd(); }
    else if a == 0xfe { Inversefe(); }
    else { Inverseff(); }
  }

  /** Every nonzero element times its table inverse is 1. */
  lemma InvTableCorrect(a: bv8)
    requires a != 0
    ensures Product(a, InvTable(a)) == 1
  {
    ProductIsShiftAdd(a, InvTable(a));
    if a >> 4 == 0 { InverseRow0(a); }
    else if a >> 4 == 1 { InverseRow1(a); }
    else if a >> 4 == 2 { InverseRow2(a); }
    else if a >> 4 == 3 { InverseRow3(a); }
    else if a >> 4 == 4 { InverseRow4(a); }
    else if a >> 4 == 5 { InverseRow5(a); }
    else if a >> 4 == 6 { InverseRow6(a); }
    else if a >> 4 == 7 { InverseRow7(a); }
    else if a >> 4 == 8 { InverseRow8(a); }
    else if a >> 4 == 9 { InverseRow9(a); }
    else if a >> 4 == 10 { InverseRow10(a); }
    else if a >> 4 == 11 { InverseRow11(a); }
    else if a >> 4 == 12 { InverseRow12(a); }
    else if a >> 4 == 13 { InverseRow13(a); }
    else if a >> 4 == 14 { InverseRow14(a); }
    else { InverseRow15(a); }
  }

  /** GF8elt.inv: a nonzero element times its inverse is 1. */
  lemma InvCorrect(a: bv8)
    ensures Inv(a).Ok? <==> a != 0
    ensures Inv(a).Ok? ==> Product(a, Inv(a).value) == 1 && Product(Inv(a).value, a) == 1
  {
    if a != 0 {
      InvTableCorrect(a);
      MulCommutative(a, InvTable(a));
    }
  }

  /** The inverse is the only element whose product with a is 1. */
  lemma InvUnique(a: bv8, x: bv8)
    requires Product(a, x) == 1
    ensures a != 0 && Inv(a) == Ok(x)
  {
    if a == 0 {
      MulIdentity(x);
    } else {
      var y := InvTable(a);
      InvTableCorrect(a);
      MulAssociative(y, a, x);
      MulCommutative(y, a);
      MulIdentity(x);
      MulIdentity(y);
    }
  }

  /** GF8elt.div undoes GF8elt.mul: (a / b) * b == a, and a / b fails exactly when b is 0. */
  lemma DivCorrect(a: bv8, b: bv8)
    ensures Div(a, b).Ok? <==> b != 0
    ensures Div(a, b).Ok? ==> Product(Div(a, b).value, b) == a
  {
    if b != 0 {
      var y := InvTable(b);
      InvCorrect(b);
      MulAssociative(a, y, b);
      MulIdentity(a);
    }
  }

  /** Multiplying by b and then dividing by b gives back a. */
  lemma MulDivCancel(a: bv8, b: bv8)
    requires b != 0
    ensures Div(Product(a, b), b) == Ok(a)
  {
    var y := InvTable(b);
    InvCorrect(b);
    MulAssociative(a, b, y);
    MulIdentity(a);
  }
}
