// The CRC of nine bytes, worked out.
module CrcCheck {
  import opened Words
  import opened Bytes

  // ----- Exclusive-or by hexadecimal digits ------------------------------------------------------------

  type Digit = d: int | 0 <= d < 16

  function One(b: bool): nat {
    if b then 1 else 0
  }

  function Four(a: bool, b: bool, c: bool, d: bool): Digit {
    8 * One(a) + 4 * One(b) + 2 * One(c) + One(d)
  }

  lemma XorOne(x: nat, y: nat, a: bool, e: bool, u: nat, v: nat)
    requires u == 2 * x + One(a) && v == 2 * y + One(e)
    ensures Xor(u, v) == 2 * Xor(x, y) + One(a != e)
  {
  }

  lemma XorTwo(x: nat, y: nat, a: bool, b: bool, e: bool, f: bool, u: nat, v: nat)
    requires u == 4 * x + 2 * One(a) + One(b) && v == 4 * y + 2 * One(e) + One(f)
    ensures Xor(u, v) == 4 * Xor(x, y) + 2 * One(a != e) + One(b != f)
  {
    var u', v' := 2 * x + One(a), 2 * y + One(e);
    XorOne(x, y, a, e, u', v');
    XorOne(u', v', b, f, u, v);
  }

  lemma XorFour(x: nat, y: nat, a: bool, b: bool, c: bool, d: bool, e: bool, f: bool, g: bool, h: bool, u: nat, v: nat)
    requires u == 16 * x + Four(a, b, c, d) && v == 16 * y + Four(e, f, g, h)
    ensures Xor(u, v) == 16 * Xor(x, y) + Four(a != e, b != f, c != g, d != h)
  {
    var u', v' := 4 * x + 2 * One(a) + One(b), 4 * y + 2 * One(e) + One(f);
    XorTwo(x, y, a, b, e, f, u', v');
    XorTwo(u', v', c, d, g, h, u, v);
  }

  // A digit with one of its bits flipped.
  function X1(n: Digit): Digit {
    if n == 0 || n == 2 || n == 4 || n == 6 || n == 8 || n == 10 || n == 12 || n == 14 then n + 1 else n - 1
  }

  function X2(n: Digit): Digit {
    if n < 2 || 4 <= n < 6 || 8 <= n < 10 || 12 <= n < 14 then n + 2 else n - 2
  }

  function X4(n: Digit): Digit {
    if n < 4 || 8 <= n < 12 then n + 4 else n - 4
  }

  function X8(n: Digit): Digit {
    if n < 8 then n + 8 else n - 8
  }

  lemma DigitBits(n: Digit) returns (a: bool, b: bool, c: bool, d: bool)
    ensures n == Four(a, b, c, d)
  {
    a, b, c, d := n >= 8, X4(n) < n, X2(n) < n, X1(n) < n;
  }

  // A digit with the bits of another, e to h, flipped.
  function Flipped(n: Digit, e: bool, f: bool, g: bool, h: bool): Digit {
    var n1 := if e then X8(n) else n;
    var n2 := if f then X4(n1) else n1;
    var n3 := if g then X2(n2) else n2;
    if h then X1(n3) else n3
  }

  lemma FlippedBits(a: bool, b: bool, c: bool, d: bool, e: bool, f: bool, g: bool, h: bool)
    ensures Flipped(Four(a, b, c, d), e, f, g, h) == Four(a != e, b != f, c != g, d != h)
  {
  }

  lemma XorDigit(x: nat, y: nat, n: Digit, e: bool, f: bool, g: bool, h: bool, u: nat, v: nat)
    requires u == 16 * x + n && v == 16 * y + Four(e, f, g, h)
    ensures Xor(u, v) == 16 * Xor(x, y) + Flipped(n, e, f, g, h)
  {
    var a, b, c, d := DigitBits(n);
    XorFour(x, y, a, b, c, d, e, f, g, h, u, v);
    FlippedBits(a, b, c, d, e, f, g, h);
  }

  // The digits of the polynomial.
  function FlipE(n: Digit): Digit { Flipped(n, true, true, true, false) }
  function FlipD(n: Digit): Digit { Flipped(n, true, true, false, true) }
  function FlipB(n: Digit): Digit { Flipped(n, true, false, true, true) }
  function Flip8(n: Digit): Digit { Flipped(n, true, false, false, false) }
  function Flip3(n: Digit): Digit { Flipped(n, false, false, true, true) }
  function Flip2(n: Digit): Digit { Flipped(n, false, false, true, false) }

  function Word4(n3: Digit, n2: Digit, n1: Digit, n0: Digit): nat {
    0x1000 * n3 + 0x100 * n2 + 0x10 * n1 + n0
  }

  lemma FlipHigh(n7: Digit, n6: Digit, n5: Digit, n4: Digit, u: nat)
    requires u == Word4(n7, n6, n5, n4)
    ensures Xor(u, 0xEDB8) == Word4(FlipE(n7), FlipD(n6), FlipB(n5), Flip8(n4))
  {
    var u6 := 0x10 * n7 + n6;
    var u5 := 0x100 * n7 + 0x10 * n6 + n5;
    XorDigit(0, 0, n7, true, true, true, false, n7, 0xE);
    XorDigit(n7, 0xE, n6, true, true, false, true, u6, 0xED);
    XorDigit(u6, 0xED, n5, true, false, true, true, u5, 0xEDB);
    XorDigit(u5, 0xEDB, n4, true, false, false, false, u, 0xEDB8);
  }

  lemma FlipLow(x: nat, y: nat, n3: Digit, n2: Digit, n1: Digit, n0: Digit, u: nat, v: nat)
    requires u == 0x1_0000 * x + Word4(n3, n2, n1, n0) && v == 0x1_0000 * y + 0x8320
    ensures Xor(u, v) == 0x1_0000 * Xor(x, y) + Word4(Flip8(n3), Flip3(n2), Flip2(n1), n0)
  {
    var u3, v3 := 0x10 * x + n3, 0x10 * y + 8;
    var u2, v2 := 0x100 * x + 0x10 * n3 + n2, 0x100 * y + 0x83;
    var u1, v1 := 0x1000 * x + 0x100 * n3 + 0x10 * n2 + n1, 0x1000 * y + 0x832;
    XorDigit(x, y, n3, true, false, false, false, u3, v3);
    XorDigit(u3, v3, n2, false, false, true, true, u2, v2);
    XorDigit(u2, v2, n1, false, false, true, false, u1, v1);
    XorDigit(u1, v1, n0, false, false, false, false, u, v);
  }

  // ----- Steps of the register --------------------------------------------------------------------------

  ghost predicate StepAt(s: seq<u32>, i: nat)
    requires i + 1 < |s|
  {
    s[i + 1] == CrcBit(s[i])
  }

  // Each register is the next step of the one before.
  ghost predicate Trail(s: seq<u32>) {
    s != [] && forall i :: 0 <= i < |s| - 1 ==> StepAt(s, i)
  }

  lemma {:induction false} TrailBits(s: seq<u32>)
    requires Trail(s)
    ensures CrcBits(s[0], |s| - 1) == s[|s| - 1]
  {
    if |s| > 1 {
      var t := s[..|s| - 1];
      forall i | 0 <= i < |t| - 1 ensures StepAt(t, i) {
        assert StepAt(s, i);
      }
      TrailBits(t);
      assert StepAt(s, |s| - 2);
    }
  }

  lemma Longer(s: seq<u32>, n: u32) returns (t: seq<u32>)
    requires Trail(s) && CrcBit(s[|s| - 1]) == n
    ensures Trail(t) && t == s + [n]
  {
    t := s + [n];
    forall i | 0 <= i < |t| - 1 ensures StepAt(t, i) {
      if i < |s| - 1 { assert StepAt(s, i); }
    }
  }

  // k steps lead from z to n.
  ghost predicate Leads(z: u32, k: nat, n: u32) {
    exists s: seq<u32> :: Trail(s) && |s| == k + 1 && s[0] == z && s[k] == n
  }

  lemma LeadsOn(z: u32, k: nat, c: u32, n: u32)
    requires Leads(z, k, c) && CrcBit(c) == n
    ensures Leads(z, k + 1, n)
  {
    var s: seq<u32> :| Trail(s) && |s| == k + 1 && s[0] == z && s[k] == c;
    var t := Longer(s, n);
  }

  // A step with a one shifted out; the digits are those of half the register.
  lemma Odd(z: u32, k: nat, c: u32, n7: Digit, n6: Digit, n5: Digit, n4: Digit, n3: Digit, n2: Digit, n1: Digit, n0: Digit, n: u32)
    requires Leads(z, k, c) && c == 2 * (0x1_0000 * Word4(n7, n6, n5, n4) + Word4(n3, n2, n1, n0)) + 1
    requires n == 0x1_0000 * Word4(FlipE(n7), FlipD(n6), FlipB(n5), Flip8(n4)) + Word4(Flip8(n3), Flip3(n2), Flip2(n1), n0)
    ensures Leads(z, k + 1, n)
  {
    FlipHigh(n7, n6, n5, n4, Word4(n7, n6, n5, n4));
    FlipLow(Word4(n7, n6, n5, n4), 0xEDB8, n3, n2, n1, n0, c / 2, POLYNOMIAL);
    LeadsOn(z, k, c, n);
  }

  lemma Even(z: u32, k: nat, c: u32, n: u32)
    requires Leads(z, k, c) && c == 2 * n
    ensures Leads(z, k + 1, n)
  {
    LeadsOn(z, k, c, n);
  }

  lemma Starts(z: u32)
    ensures Leads(z, 0, z)
  {
    assert Trail([z]);
  }

  datatype Bits = Bits(a: bool, b: bool, c: bool, d: bool)

  // z is the register c with the byte x, 0x30 to 0x3F, added to its last digits, n and the bits p.
  ghost predicate Sum(c: u32, x: Byte, z: u32, y: nat, n: Digit, p: Bits, q: Bits) {
    && c == 0x100 * y + 0x10 * n + Four(p.a, p.b, p.c, p.d) && x == 0x30 + Four(q.a, q.b, q.c, q.d)
    && z == 0x100 * y + 0x10 * Flip3(n) + Four(p.a != q.a, p.b != q.b, p.c != q.c, p.d != q.d)
  }

  lemma SumIs(c: u32, x: Byte, z: u32, y: nat, n: Digit, p: Bits, q: Bits)
    requires Sum(c, x, z, y, n, p, q)
    ensures Xor(c, x) == z
  {
    var u := 0x10 * y + n;
    XorDigit(y, 0, n, false, false, true, true, u, 3);
    XorFour(u, 3, p.a, p.b, p.c, p.d, q.a, q.b, q.c, q.d, c, x);
  }

  // A byte takes the register from c to n.
  ghost predicate Feeds(c: u32, x: Byte, n: u32) {
    exists z: u32, y: nat, k: Digit, p, q :: Sum(c, x, z, y, k, p, q) && Leads(z, 8, n)
  }

  lemma Fed(c: u32, x: Byte, z: u32, y: nat, k: Digit, p: Bits, q: Bits, n: u32)
    requires Sum(c, x, z, y, k, p, q) && Leads(z, 8, n)
    ensures Feeds(c, x, n)
  {
  }

  lemma FeedsByte(c: u32, x: Byte, n: u32)
    requires Feeds(c, x, n)
    ensures CrcByte(c, x) == n
  {
    var z: u32, y: nat, k: Digit, p, q :| Sum(c, x, z, y, k, p, q) && Leads(z, 8, n);
    SumIs(c, x, z, y, k, p, q);
    var s: seq<u32> :| Trail(s) && |s| == 9 && s[0] == z && s[8] == n;
    TrailBits(s);
  }

  lemma {:induction false} FeedsAll(b: seq<Byte>, s: seq<u32>)
    requires |s| == |b| + 1 && s[0] == 0xFFFF_FFFF && forall k :: 0 <= k < |b| ==> Feeds(s[k], b[k], s[k + 1])
    ensures CrcFrom(0xFFFF_FFFF, b) == s[|b|]
  {
    if b != [] {
      var n := |b| - 1;
      var a, t := b[..n], s[..n + 1];
      forall k | 0 <= k < n ensures Feeds(t[k], a[k], t[k + 1]) {
        assert Feeds(s[k], b[k], s[k + 1]);
      }
      FeedsAll(a, t);
      FeedsByte(s[n], b[n], s[n + 1]);
    }
  }

  // ----- Nine bytes -----------------------------------------------------------------------------------------

  lemma Half1()
    ensures Leads(0xFFFF_FFCE, 4, 0xAFF5_1D84)
  {
    Starts(0xFFFF_FFCE);
    Even(0xFFFF_FFCE, 0, 0xFFFF_FFCE, 0x7FFF_FFE7);
    Odd(0xFFFF_FFCE, 1, 0x7FFF_FFE7, 0x3, 0xF, 0xF, 0xF, 0xF, 0xF, 0xF, 0x3, 0xD247_7CD3);
    Odd(0xFFFF_FFCE, 2, 0xD247_7CD3, 0x6, 0x9, 0x2, 0x3, 0xB, 0xE, 0x6, 0x9, 0x849B_3D49);
    Odd(0xFFFF_FFCE, 3, 0x849B_3D49, 0x4, 0x2, 0x4, 0xD, 0x9, 0xE, 0xA, 0x4, 0xAFF5_1D84);
  }

  lemma Whole1()
    ensures Leads(0xFFFF_FFCE, 8, 0x7C23_1048)
  {
    Half1();
    Even(0xFFFF_FFCE, 4, 0xAFF5_1D84, 0x57FA_8EC2);
    Even(0xFFFF_FFCE, 5, 0x57FA_8EC2, 0x2BFD_4761);
    Odd(0xFFFF_FFCE, 6, 0x2BFD_4761, 0x1, 0x5, 0xF, 0xE, 0xA, 0x3, 0xB, 0x0, 0xF846_2090);
    Even(0xFFFF_FFCE, 7, 0xF846_2090, 0x7C23_1048);
  }

  lemma Byte1()
    ensures Feeds(0xFFFF_FFFF, 0x31, 0x7C23_1048)
  {
    Whole1();
    Fed(0xFFFF_FFFF, 0x31, 0xFFFF_FFCE, 0xFF_FFFF, 0xF, Bits(true, true, true, true), Bits(false, false, false, true), 0x7C23_1048);
  }

  lemma Half2()
    ensures Leads(0x7C23_107A, 4, 0xD114_92EF)
  {
    Starts(0x7C23_107A);
    Even(0x7C23_107A, 0, 0x7C23_107A, 0x3E11_883D);
    Odd(0x7C23_107A, 1, 0x3E11_883D, 0x1, 0xF, 0x0, 0x8, 0xC, 0x4, 0x1, 0xE, 0xF2B0_473E);
    Even(0x7C23_107A, 2, 0xF2B0_473E, 0x7958_239F);
    Odd(0x7C23_107A, 3, 0x7958_239F, 0x3, 0xC, 0xA, 0xC, 0x1, 0x1, 0xC, 0xF, 0xD114_92EF);
  }

  lemma Whole2()
    ensures Leads(0x7C23_107A, 8, 0xB0AC_BB32)
  {
    Half2();
    Odd(0x7C23_107A, 4, 0xD114_92EF, 0x6, 0x8, 0x8, 0xA, 0x4, 0x9, 0x7, 0x7, 0x8532_CA57);
    Odd(0x7C23_107A, 5, 0x8532_CA57, 0x4, 0x2, 0x9, 0x9, 0x6, 0x5, 0x2, 0xB, 0xAF21_E60B);
    Odd(0x7C23_107A, 6, 0xAF21_E60B, 0x5, 0x7, 0x9, 0x0, 0xF, 0x3, 0x0, 0x5, 0xBA28_7025);
    Odd(0x7C23_107A, 7, 0xBA28_7025, 0x5, 0xD, 0x1, 0x4, 0x3, 0x8, 0x1, 0x2, 0xB0AC_BB32);
  }

  lemma Byte2()
    ensures Feeds(0x7C23_1048, 0x32, 0xB0AC_BB32)
  {
    Whole2();
    Fed(0x7C23_1048, 0x32, 0x7C23_107A, 0x7C_2310, 0x4, Bits(true, false, false, false), Bits(false, false, true, false), 0xB0AC_BB32);
  }

  lemma Half3()
    ensures Leads(0xB0AC_BB01, 4, 0x16BD_DBD4)
  {
    Starts(0xB0AC_BB01);
    Odd(0xB0AC_BB01, 0, 0xB0AC_BB01, 0x5, 0x8, 0x5, 0x6, 0x5, 0xD, 0x8, 0x0, 0xB5EE_DEA0);
    Even(0xB0AC_BB01, 1, 0xB5EE_DEA0, 0x5AF7_6F50);
    Even(0xB0AC_BB01, 2, 0x5AF7_6F50, 0x2D7B_B7A8);
    Even(0xB0AC_BB01, 3, 0x2D7B_B7A8, 0x16BD_DBD4);
  }

  lemma Whole3()
    ensures Leads(0xB0AC_BB01, 8, 0x77B7_9C2D)
  {
    Half3();
    Even(0xB0AC_BB01, 4, 0x16BD_DBD4, 0xB5E_EDEA);
    Even(0xB0AC_BB01, 5, 0xB5E_EDEA, 0x5AF_76F5);
    Odd(0xB0AC_BB01, 6, 0x5AF_76F5, 0x0, 0x2, 0xD, 0x7, 0xB, 0xB, 0x7, 0xA, 0xEF6F_385A);
    Even(0xB0AC_BB01, 7, 0xEF6F_385A, 0x77B7_9C2D);
  }

  lemma Byte3()
    ensures Feeds(0xB0AC_BB32, 0x33, 0x77B7_9C2D)
  {
    Whole3();
    Fed(0xB0AC_BB32, 0x33, 0xB0AC_BB01, 0xB0_ACBB, 0x3, Bits(false, false, true, false), Bits(false, false, true, true), 0x77B7_9C2D);
  }

  lemma Half4()
    ensures Leads(0x77B7_9C19, 4, 0xF774_EA85)
  {
    Starts(0x77B7_9C19);
    Odd(0x77B7_9C19, 0, 0x77B7_9C19, 0x3, 0xB, 0xD, 0xB, 0xC, 0xE, 0x0, 0xC, 0xD663_4D2C);
    Even(0x77B7_9C19, 1, 0xD663_4D2C, 0x6B31_A696);
    Even(0x77B7_9C19, 2, 0x6B31_A696, 0x3598_D34B);
    Odd(0x77B7_9C19, 3, 0x3598_D34B, 0x1, 0xA, 0xC, 0xC, 0x6, 0x9, 0xA, 0x5, 0xF774_EA85);
  }

  lemma Whole4()
    ensures Leads(0x77B7_9C19, 8, 0x641C_1F5C)
  {
    Half4();
    Odd(0x77B7_9C19, 4, 0xF774_EA85, 0x7, 0xB, 0xB, 0xA, 0x7, 0x5, 0x4, 0x2, 0x9602_F662);
    Even(0x77B7_9C19, 5, 0x9602_F662, 0x4B01_7B31);
    Odd(0x77B7_9C19, 6, 0x4B01_7B31, 0x2, 0x5, 0x8, 0x0, 0xB, 0xD, 0x9, 0x8, 0xC838_3EB8);
    Even(0x77B7_9C19, 7, 0xC838_3EB8, 0x641C_1F5C);
  }

  lemma Byte4()
    ensures Feeds(0x77B7_9C2D, 0x34, 0x641C_1F5C)
  {
    Whole4();
    Fed(0x77B7_9C2D, 0x34, 0x77B7_9C19, 0x77_B79C, 0x2, Bits(true, true, false, true), Bits(false, true, false, false), 0x641C_1F5C);
  }

  lemma Half5()
    ensures Leads(0x641C_1F69, 4, 0xF64E_52B2)
  {
    Starts(0x641C_1F69);
    Odd(0x641C_1F69, 0, 0x641C_1F69, 0x3, 0x2, 0x0, 0xE, 0x0, 0xF, 0xB, 0x4, 0xDFB6_8C94);
    Even(0x641C_1F69, 1, 0xDFB6_8C94, 0x6FDB_464A);
    Even(0x641C_1F69, 2, 0x6FDB_464A, 0x37ED_A325);
    Odd(0x641C_1F69, 3, 0x37ED_A325, 0x1, 0xB, 0xF, 0x6, 0xD, 0x1, 0x9, 0x2, 0xF64E_52B2);
  }

  lemma Whole5()
    ensures Leads(0x641C_1F69, 8, 0x340A_C5E3)
  {
    Half5();
    Even(0x641C_1F69, 4, 0xF64E_52B2, 0x7B27_2959);
    Odd(0x641C_1F69, 5, 0x7B27_2959, 0x3, 0xD, 0x9, 0x3, 0x9, 0x4, 0xA, 0xC, 0xD02B_178C);
    Even(0x641C_1F69, 6, 0xD02B_178C, 0x6815_8BC6);
    Even(0x641C_1F69, 7, 0x6815_8BC6, 0x340A_C5E3);
  }

  lemma Byte5()
    ensures Feeds(0x641C_1F5C, 0x35, 0x340A_C5E3)
  {
    Whole5();
    Fed(0x641C_1F5C, 0x35, 0x641C_1F69, 0x64_1C1F, 0x5, Bits(true, true, false, false), Bits(false, true, false, true), 0x340A_C5E3);
  }

  lemma Half6()
    ensures Leads(0x340A_C5D5, 4, 0x682B_FDA9)
  {
    Starts(0x340A_C5D5);
    Odd(0x340A_C5D5, 0, 0x340A_C5D5, 0x1, 0xA, 0x0, 0x5, 0x6, 0x2, 0xE, 0xA, 0xF7BD_E1CA);
    Even(0x340A_C5D5, 1, 0xF7BD_E1CA, 0x7BDE_F0E5);
    Odd(0x340A_C5D5, 2, 0x7BDE_F0E5, 0x3, 0xD, 0xE, 0xF, 0x7, 0x8, 0x7, 0x2, 0xD057_FB52);
    Even(0x340A_C5D5, 3, 0xD057_FB52, 0x682B_FDA9);
  }

  lemma Whole6()
    ensures Leads(0x340A_C5D5, 8, 0xF68D_2C9E)
  {
    Half6();
    Odd(0x340A_C5D5, 4, 0x682B_FDA9, 0x3, 0x4, 0x1, 0x5, 0xF, 0xE, 0xD, 0x4, 0xD9AD_7DF4);
    Even(0x340A_C5D5, 5, 0xD9AD_7DF4, 0x6CD6_BEFA);
    Even(0x340A_C5D5, 6, 0x6CD6_BEFA, 0x366B_5F7D);
    Odd(0x340A_C5D5, 7, 0x366B_5F7D, 0x1, 0xB, 0x3, 0x5, 0xA, 0xF, 0xB, 0xE, 0xF68D_2C9E);
  }

  lemma Byte6()
    ensures Feeds(0x340A_C5E3, 0x36, 0xF68D_2C9E)
  {
    Whole6();
    Fed(0x340A_C5E3, 0x36, 0x340A_C5D5, 0x34_0AC5, 0xE, Bits(false, false, true, true), Bits(false, true, true, false), 0xF68D_2C9E);
  }

  lemma Half7()
    ensures Leads(0xF68D_2CA9, 4, 0xFF67_418E)
  {
    Starts(0xF68D_2CA9);
    Odd(0xF68D_2CA9, 0, 0xF68D_2CA9, 0x7, 0xB, 0x4, 0x6, 0x9, 0x6, 0x5, 0x4, 0x96FE_1574);
    Even(0xF68D_2CA9, 1, 0x96FE_1574, 0x4B7F_0ABA);
    Even(0xF68D_2CA9, 2, 0x4B7F_0ABA, 0x25BF_855D);
    Odd(0xF68D_2CA9, 3, 0x25BF_855D, 0x1, 0x2, 0xD, 0xF, 0xC, 0x2, 0xA, 0xE, 0xFF67_418E);
  }

  lemma Whole7()
    ensures Leads(0xF68D_2CA9, 8, 0xAFFC_9660)
  {
    Half7();
    Even(0xF68D_2CA9, 4, 0xFF67_418E, 0x7FB3_A0C7);
    Odd(0xF68D_2CA9, 5, 0x7FB3_A0C7, 0x3, 0xF, 0xD, 0x9, 0xD, 0x0, 0x6, 0x3, 0xD261_5343);
    Odd(0xF68D_2CA9, 6, 0xD261_5343, 0x6, 0x9, 0x3, 0x0, 0xA, 0x9, 0xA, 0x1, 0x8488_2A81);
    Odd(0xF68D_2CA9, 7, 0x8488_2A81, 0x4, 0x2, 0x4, 0x4, 0x1, 0x5, 0x4, 0x0, 0xAFFC_9660);
  }

  lemma Byte7()
    ensures Feeds(0xF68D_2C9E, 0x37, 0xAFFC_9660)
  {
    Whole7();
    Fed(0xF68D_2C9E, 0x37, 0xF68D_2CA9, 0xF6_8D2C, 0x9, Bits(true, true, true, false), Bits(false, true, true, true), 0xAFFC_9660);
  }

  lemma Half8()
    ensures Leads(0xAFFC_9658, 4, 0xE747_4A45)
  {
    Starts(0xAFFC_9658);
    Even(0xAFFC_9658, 0, 0xAFFC_9658, 0x57FE_4B2C);
    Even(0xAFFC_9658, 1, 0x57FE_4B2C, 0x2BFF_2596);
    Even(0xAFFC_9658, 2, 0x2BFF_2596, 0x15FF_92CB);
    Odd(0xAFFC_9658, 3, 0x15FF_92CB, 0x0, 0xA, 0xF, 0xF, 0xC, 0x9, 0x6, 0x5, 0xE747_4A45);
  }

  lemma Whole8()
    ensures Leads(0xAFFC_9658, 8, 0x651F_2550)
  {
    Half8();
    Odd(0xAFFC_9658, 4, 0xE747_4A45, 0x7, 0x3, 0xA, 0x3, 0xA, 0x5, 0x2, 0x2, 0x9E1B_2602);
    Even(0xAFFC_9658, 5, 0x9E1B_2602, 0x4F0D_9301);
    Odd(0xAFFC_9658, 6, 0x4F0D_9301, 0x2, 0x7, 0x8, 0x6, 0xC, 0x9, 0x8, 0x0, 0xCA3E_4AA0);
    Even(0xAFFC_9658, 7, 0xCA3E_4AA0, 0x651F_2550);
  }

  lemma Byte8()
    ensures Feeds(0xAFFC_9660, 0x38, 0x651F_2550)
  {
    Whole8();
    Fed(0xAFFC_9660, 0x38, 0xAFFC_9658, 0xAF_FC96, 0x6, Bits(false, false, false, false), Bits(true, false, false, false), 0x651F_2550);
  }

  lemma Half9()
    ensures Leads(0x651F_2569, 4, 0xF65E_6112)
  {
    Starts(0x651F_2569);
    Odd(0x651F_2569, 0, 0x651F_2569, 0x3, 0x2, 0x8, 0xF, 0x9, 0x2, 0xB, 0x4, 0xDF37_1194);
    Even(0x651F_2569, 1, 0xDF37_1194, 0x6F9B_88CA);
    Even(0x651F_2569, 2, 0x6F9B_88CA, 0x37CD_C465);
    Odd(0x651F_2569, 3, 0x37CD_C465, 0x1, 0xB, 0xE, 0x6, 0xE, 0x2, 0x3, 0x2, 0xF65E_6112);
  }

  lemma Whole9()
    ensures Leads(0x651F_2569, 8, 0x340B_C6D9)
  {
    Half9();
    Even(0x651F_2569, 4, 0xF65E_6112, 0x7B2F_3089);
    Odd(0x651F_2569, 5, 0x7B2F_3089, 0x3, 0xD, 0x9, 0x7, 0x9, 0x8, 0x4, 0x4, 0xD02F_1B64);
    Even(0x651F_2569, 6, 0xD02F_1B64, 0x6817_8DB2);
    Even(0x651F_2569, 7, 0x6817_8DB2, 0x340B_C6D9);
  }

  lemma Byte9()
    ensures Feeds(0x651F_2550, 0x39, 0x340B_C6D9)
  {
    Whole9();
    Fed(0x651F_2550, 0x39, 0x651F_2569, 0x65_1F25, 0x5, Bits(false, false, false, false), Bits(true, false, false, true), 0x340B_C6D9);
  }

  // "123456789", and the registers before and after each of its bytes.
  ghost predicate Nine(b: seq<Byte>, s: seq<u32>) {
    && b == [0x31, 0x32, 0x33, 0x34, 0x35, 0x36, 0x37, 0x38, 0x39]
    && s == [0xFFFF_FFFF, 0x7C23_1048, 0xB0AC_BB32, 0x77B7_9C2D, 0x641C_1F5C, 0x340A_C5E3, 0xF68D_2C9E, 0xAFFC_9660, 0x651F_2550, 0x340B_C6D9]
  }

  lemma FirstFed(b: seq<Byte>, s: seq<u32>)
    requires Nine(b, s)
    ensures forall k :: 0 <= k < 5 ==> Feeds(s[k], b[k], s[k + 1])
  {
    Byte1();
    Byte2();
    Byte3();
    Byte4();
    Byte5();
  }

  lemma LastFed(b: seq<Byte>, s: seq<u32>)
    requires Nine(b, s)
    ensures forall k :: 5 <= k < 9 ==> Feeds(s[k], b[k], s[k + 1])
  {
    Byte6();
    Byte7();
    Byte8();
    Byte9();
  }

  // The check value of "123456789".
  lemma CheckValue(b: seq<Byte>)
    requires b == [0x31, 0x32, 0x33, 0x34, 0x35, 0x36, 0x37, 0x38, 0x39]
    ensures Crc(b) == 0xCBF4_3926
  {
    var s := [0xFFFF_FFFF, 0x7C23_1048, 0xB0AC_BB32, 0x77B7_9C2D, 0x641C_1F5C, 0x340A_C5E3, 0xF68D_2C9E, 0xAFFC_9660, 0x651F_2550, 0x340B_C6D9];
    FirstFed(b, s);
    LastFed(b, s);
    FeedsAll(b, s);
  }
}
