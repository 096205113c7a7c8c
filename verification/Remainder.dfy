// What the CRC of a file is: the remainder of a polynomial over GF(2).
module Remainder {
  import opened Words
  import opened Bytes

  // A polynomial, by the exponents whose coefficient is one.
  type Poly = set<nat>

  // The generator of CRC-32.
  const GENERATOR: Poly := {32, 26, 23, 22, 16, 12, 11, 10, 8, 7, 5, 4, 2, 1, 0}

  function Plus(p: Poly, q: Poly): Poly {
    (p - q) + (q - p)
  }

  // Times x^k.
  function Shifted(p: Poly, k: nat): Poly {
    set e <- p :: e + k
  }

  ghost predicate Below(p: Poly, n: nat) {
    forall e :: e in p ==> e < n
  }

  // The generator times the part of q below x^n.
  function Multiple(q: Poly, n: nat): Poly {
    if n == 0 then {} else Plus(Multiple(q, n - 1), if n - 1 in q then Shifted(GENERATOR, n - 1) else {})
  }

  ghost predicate Divides(p: Poly, q: Poly, n: nat, r: Poly) {
    p == Plus(Multiple(q, n), r)
  }

  // r is the remainder of p by the generator.
  ghost predicate IsRemainder(p: Poly, r: Poly) {
    Below(r, 32) && exists q: Poly, n: nat :: Divides(p, q, n, r)
  }

  // ----- The remainder is unique -------------------------------------------------------------------

  lemma {:induction false} MultipleSum(p: Poly, q: Poly, n: nat)
    ensures Multiple(Plus(p, q), n) == Plus(Multiple(p, n), Multiple(q, n))
  {
    if n > 0 { MultipleSum(p, q, n - 1); }
  }

  lemma {:induction false} MultipleBelow(q: Poly, n: nat)
    ensures Below(Multiple(q, n), n + 32)
  {
    if n > 0 { MultipleBelow(q, n - 1); }
  }

  lemma MultipleTop(q: Poly, n: nat)
    requires n > 0 && n - 1 in q
    ensures n + 31 in Multiple(q, n)
  {
    MultipleBelow(q, n - 1);
    assert n + 31 == 32 + (n - 1);
  }

  // A multiple that is not zero has an exponent from 32 on.
  lemma {:induction false} MultipleIsLong(q: Poly, n: nat)
    requires Below(Multiple(q, n), 32)
    ensures Multiple(q, n) == {}
  {
    if n > 0 {
      if n - 1 in q {
        MultipleTop(q, n);
      } else {
        assert Multiple(q, n) == Multiple(q, n - 1);
        MultipleIsLong(q, n - 1);
      }
    }
  }

  // Raising the bound to m.
  function Cut(q: Poly, n: nat): Poly {
    set e | e in q && e < n
  }

  lemma {:induction false} MultipleCut(q: Poly, n: nat, m: nat)
    requires n <= m
    ensures Multiple(Cut(q, n), m) == Multiple(q, n)
    decreases n + m
  {
    if n < m {
      MultipleCut(q, n, m - 1);
    } else if n > 0 {
      MultipleCut(q, n - 1, m - 1);
      SameBelow(Cut(q, n), Cut(q, n - 1), n - 1);
    }
  }

  lemma {:induction false} SameBelow(p: Poly, q: Poly, n: nat)
    requires forall e :: 0 <= e < n ==> (e in p <==> e in q)
    ensures Multiple(p, n) == Multiple(q, n)
  {
    if n > 0 { SameBelow(p, q, n - 1); }
  }

  lemma RemainderUnique(p: Poly, r: Poly, r': Poly)
    requires IsRemainder(p, r) && IsRemainder(p, r')
    ensures r == r'
  {
    var q: Poly, n: nat :| Divides(p, q, n, r);
    var q': Poly, n': nat :| Divides(p, q', n', r');
    var m := if n < n' then n' else n;
    MultipleCut(q, n, m);
    MultipleCut(q', n', m);
    MultipleSum(Cut(q, n), Cut(q', n'), m);
    var d := Multiple(Plus(Cut(q, n), Cut(q', n')), m);
    assert d == Plus(r, r');
    MultipleIsLong(Plus(Cut(q, n), Cut(q', n')), m);
  }

  // ----- The bits of a file -------------------------------------------------------------------------

  predicate Bit(x: nat, i: nat) {
    if i == 0 then x % 2 == 1 else Bit(x / 2, i - 1)
  }

  // The t-th bit of a file, each byte starting with its lowest.
  predicate BitOf(b: seq<Byte>, t: nat)
    requires t < 8 * |b|
  {
    Bit(b[t / 8], t % 8)
  }

  predicate Coefficient(b: seq<Byte>, e: nat) {
    e < 8 * |b| && BitOf(b, 8 * |b| - 1 - e)
  }

  // The file as a polynomial, its first bit being the highest coefficient.
  function Message(b: seq<Byte>): Poly {
    set e | 0 <= e < 8 * |b| && Coefficient(b, e)
  }

  // The n lowest bits of x as a polynomial, the lowest being the highest coefficient.
  predicate Reflected(x: nat, n: nat, e: nat) {
    e < n && Bit(x, n - 1 - e)
  }

  function Reflect(x: nat, n: nat): Poly {
    set e | 0 <= e < n && Reflected(x, n, e)
  }

  // x^(n-1) + ... + x + 1
  function Ones(n: nat): (p: Poly)
    ensures forall e: nat :: e in p <==> e < n
  {
    if n == 0 then {} else Ones(n - 1) + {n - 1}
  }

  // ----- One bit, one byte -----------------------------------------------------------------------------

  lemma {:induction false} XorBits(x: nat, y: nat, i: nat)
    ensures Bit(Xor(x, y), i) == (Bit(x, i) != Bit(y, i))
    decreases i
  {
    XorHalves(x, y);
    if i > 0 { XorBits(x / 2, y / 2, i - 1); }
  }

  lemma ReflectXor(x: nat, y: nat, n: nat)
    ensures Reflect(Xor(x, y), n) == Plus(Reflect(x, n), Reflect(y, n))
  {
    forall e | 0 <= e < n ensures Reflected(Xor(x, y), n, e) == (Reflected(x, n, e) != Reflected(y, n, e)) {
      XorBits(x, y, n - 1 - e);
    }
  }

  // Nothing above the bits a number has.
  lemma {:induction false} HighBits(x: nat, n: nat, i: nat)
    requires x < Pow2(n) && n <= i
    ensures !Bit(x, i)
  {
    if n > 0 { HighBits(x / 2, n - 1, i - 1); } else if i > 0 { HighBits(0, 0, i - 1); }
  }

  // Halving is multiplying by x, but for the coefficient that leaves the register.
  lemma ReflectHalf(c: u32)
    ensures Shifted(Reflect(c, 32), 1) == Plus(Reflect(c / 2, 32), if c % 2 == 1 then {32} else {})
  {
    var p, p' := Reflect(c, 32), Reflect(c / 2, 32);
    Pow2Values();
    HighBits(c / 2, 31, 31);
    forall e | 0 < e < 32 ensures e in p' <==> e - 1 in p {
      assert Reflected(c / 2, 32, e) == Reflected(c, 32, e - 1);
    }
    assert 0 !in p';
    assert 31 in p <==> Reflected(c, 32, 31);
  }

  // The k lowest coefficients of the generator, that of x^0 as the highest bit.
  function Coefficients(k: nat): nat {
    if k == 0 then 0 else 2 * Coefficients(k - 1) + if InGenerator(k - 1) then 1 else 0
  }

  predicate InGenerator(e: nat) {
    e <= 2 || e == 4 || e == 5 || e == 7 || e == 8 || 10 <= e <= 12 || e == 16 || e == 22 || e == 23 || e == 26
  }

  lemma {:induction false} CoefficientBits(k: nat, i: nat)
    requires i < k
    ensures Bit(Coefficients(k), i) <==> InGenerator(k - 1 - i)
  {
    if i > 0 {
      CoefficientBits(k - 1, i - 1);
      assert Coefficients(k) / 2 == Coefficients(k - 1);
    }
  }

  lemma GeneratorWord()
    ensures Coefficients(32) == POLYNOMIAL
  {
    assert Coefficients(8) == 0xED;
    assert Coefficients(16) == 0xEDB8;
    assert Coefficients(24) == 0xED_B883;
  }

  // The constant holds the generator's coefficients below x^32.
  lemma PolynomialBits()
    ensures Plus(Reflect(POLYNOMIAL, 32), {32}) == GENERATOR
  {
    GeneratorWord();
    forall e | 0 <= e < 32 ensures Reflected(POLYNOMIAL, 32, e) == (e in GENERATOR) {
      CoefficientBits(32, 31 - e);
      assert InGenerator(e) <==> e in GENERATOR;
    }
  }

  lemma CrcBitStep(c: u32)
    ensures Shifted(Reflect(c, 32), 1) == Plus(Reflect(CrcBit(c), 32), if c % 2 == 1 then GENERATOR else {})
  {
    ReflectHalf(c);
    PolynomialBits();
    ReflectXor(c / 2, POLYNOMIAL, 32);
  }

  lemma {:induction false} MultipleShifted(q: Poly, n: nat)
    ensures Multiple(Shifted(q, 1), n + 1) == Shifted(Multiple(q, n), 1)
  {
    if n > 0 {
      MultipleShifted(q, n - 1);
      assert n in Shifted(q, 1) <==> n - 1 in q;
      ShiftedTwice(GENERATOR, n - 1, 1);
      ShiftedSum(Multiple(q, n - 1), if n - 1 in q then Shifted(GENERATOR, n - 1) else {}, 1);
    } else {
      assert Multiple(Shifted(q, 1), 1) == Plus(Multiple(Shifted(q, 1), 0), {});
    }
  }

  lemma ShiftedSum(p: Poly, q: Poly, k: nat)
    ensures Shifted(Plus(p, q), k) == Plus(Shifted(p, k), Shifted(q, k))
  {
  }

  lemma ShiftedTwice(p: Poly, j: nat, k: nat)
    ensures Shifted(Shifted(p, j), k) == Shifted(p, j + k)
  {
    forall e | e in p ensures e + (j + k) in Shifted(Shifted(p, j), k) {
      assert e + j in Shifted(p, j);
    }
  }

  lemma {:induction false} MultipleOfOne(n: nat)
    requires n > 0
    ensures Multiple({0}, n) == GENERATOR
  {
    if n > 1 { MultipleOfOne(n - 1); } else { assert Multiple({0}, 0) == {}; }
  }

  lemma {:induction false} MultipleOfNone(n: nat)
    ensures Multiple({}, n) == {}
  {
    if n > 0 { MultipleOfNone(n - 1); }
  }

  lemma PlusAssociates(p: Poly, q: Poly, r: Poly)
    ensures Plus(Plus(p, q), r) == Plus(p, Plus(q, r))
  {
  }

  // Times x, and the register moves on by a bit.
  lemma DividesBit(p: Poly, q: Poly, n: nat, c: u32) returns (q': Poly)
    requires Divides(p, q, n, Reflect(c, 32))
    ensures Divides(Shifted(p, 1), q', n + 1, Reflect(CrcBit(c), 32))
  {
    var d := if c % 2 == 1 then {0} else {};
    q' := Plus(Shifted(q, 1), d);
    ShiftedSum(Multiple(q, n), Reflect(c, 32), 1);
    MultipleShifted(q, n);
    CrcBitStep(c);
    MultipleSum(Shifted(q, 1), d, n + 1);
    if c % 2 == 1 {
      MultipleOfOne(n + 1);
    } else {
      MultipleOfNone(n + 1);
      assert CrcBit(c) == c / 2;
    }
    TermMoved(Multiple(Shifted(q, 1), n + 1), Multiple(d, n + 1), Reflect(CrcBit(c), 32));
  }

  lemma TermMoved(m: Poly, g: Poly, r: Poly)
    ensures Plus(Plus(m, g), r) == Plus(m, Plus(r, g))
  {
  }

  lemma {:induction false} DividesBits(p: Poly, q: Poly, n: nat, c: u32, k: nat) returns (q': Poly)
    requires Divides(p, q, n, Reflect(c, 32))
    ensures Divides(Shifted(p, k), q', n + k, Reflect(CrcBits(c, k), 32))
  {
    if k == 0 {
      q' := q;
      assert Shifted(p, 0) == p;
    } else {
      q' := DividesBits(p, q, n, c, k - 1);
      ShiftedTwice(p, k - 1, 1);
      q' := DividesBit(Shifted(p, k - 1), q', n + (k - 1), CrcBits(c, k - 1));
    }
  }

  // A byte of the file comes in at the coefficients the register's lowest bits stand for.
  lemma ByteReflected(x: Byte)
    ensures Reflect(x, 32) == Shifted(Reflect(x, 8), 24)
  {
    Pow2Values();
    forall e | 0 <= e < 24 ensures !Reflected(x, 32, e) {
      HighBits(x, 8, 31 - e);
    }
    forall e | 24 <= e < 32 ensures e in Reflect(x, 32) <==> e - 24 in Reflect(x, 8) {
      assert Reflected(x, 32, e) == Reflected(x, 8, e - 24);
    }
  }

  lemma DividesByte(p: Poly, q: Poly, n: nat, c: u32, x: Byte) returns (q': Poly)
    requires Divides(p, q, n, Reflect(c, 32))
    ensures Divides(Plus(Shifted(p, 8), Shifted(Reflect(x, 8), 32)), q', n + 8, Reflect(CrcByte(c, x), 32))
  {
    Xor32(c, x);
    ReflectXor(c, x, 32);
    PlusAssociates(Multiple(q, n), Reflect(c, 32), Reflect(x, 32));
    ByteReflected(x);
    q' := DividesBits(Plus(p, Reflect(x, 32)), q, n, Xor(c, x), 8);
    ShiftedSum(p, Reflect(x, 32), 8);
    ShiftedTwice(Reflect(x, 8), 24, 8);
  }

  // The last byte holds the lowest eight coefficients.
  lemma MessageByte(b: seq<Byte>)
    requires b != []
    ensures Message(b) == Plus(Shifted(Message(b[..|b| - 1]), 8), Reflect(b[|b| - 1], 8))
  {
    var n := |b|;
    var a, x := b[..n - 1], b[n - 1];
    forall e | 0 <= e < 8 ensures e in Message(b) <==> e in Reflect(x, 8) {
      assert Coefficient(b, e) == Reflected(x, 8, e);
    }
    forall e | 8 <= e < 8 * n ensures e in Message(b) <==> e - 8 in Message(a) {
      assert Coefficient(b, e) == Coefficient(a, e - 8);
    }
  }

  lemma {:induction false} DividesFile(c: u32, b: seq<Byte>) returns (q: Poly)
    ensures Divides(Plus(Shifted(Reflect(c, 32), 8 * |b|), Shifted(Message(b), 32)), q, 8 * |b|, Reflect(CrcFrom(c, b), 32))
  {
    var r := Reflect(c, 32);
    if b == [] {
      q := {};
      assert Message(b) == {} && Shifted(r, 0) == r;
    } else {
      var n := |b| - 1;
      var a, x := b[..n], b[n];
      q := DividesFile(c, a);
      var p := Plus(Shifted(r, 8 * n), Shifted(Message(a), 32));
      q := DividesByte(p, q, 8 * n, CrcFrom(c, a), x);
      MessageByte(b);
      ShiftedSum(Shifted(r, 8 * n), Shifted(Message(a), 32), 8);
      ShiftedTwice(r, 8 * n, 8);
      ShiftedTwice(Message(a), 32, 8);
      ShiftedTwice(Message(a), 8, 32);
      ShiftedSum(Shifted(Message(a), 8), Reflect(x, 8), 32);
      PlusAssociates(Shifted(r, 8 * n + 8), Shifted(Message(a), 40), Shifted(Reflect(x, 8), 32));
    }
  }

  // ----- The CRC -------------------------------------------------------------------------------------------

  lemma {:induction false} NotBits(x: nat, n: nat, i: nat)
    requires x < Pow2(n) && i < n
    ensures Bit(Pow2(n) - 1 - x, i) == !Bit(x, i)
  {
    if i > 0 { NotBits(x / 2, n - 1, i - 1); }
  }

  lemma ReflectNot(c: u32)
    ensures Reflect(Not(c), 32) == Plus(Reflect(c, 32), Ones(32))
  {
    Pow2Values();
    forall e | 0 <= e < 32 ensures Reflected(Not(c), 32, e) == !Reflected(c, 32, e) {
      NotBits(c, 32, 31 - e);
    }
  }

  // The file times x^32, its first 32 bits complemented, divided by the generator: the complement of the CRC
  // is the remainder.
  lemma CrcIsRemainder(b: seq<Byte>)
    ensures IsRemainder(Plus(Shifted(Message(b), 32), Shifted(Ones(32), 8 * |b|)), Plus(Ones(32), Reflect(Crc(b), 32)))
  {
    var c := CrcFrom(0xFFFF_FFFF, b);
    ReflectNot(0);
    assert Reflect(0xFFFF_FFFF, 32) == Ones(32) by { NoBits(); }
    ReflectNot(c);
    var q := DividesFile(0xFFFF_FFFF, b);
    var s, t := Shifted(Message(b), 32), Shifted(Ones(32), 8 * |b|);
    assert Plus(s, t) == Plus(t, s);
    assert Plus(Ones(32), Reflect(Crc(b), 32)) == Reflect(c, 32);
    assert Divides(Plus(s, t), q, 8 * |b|, Reflect(c, 32));
  }

  lemma NoBits()
    ensures Reflect(0, 32) == {}
  {
    forall e | 0 <= e < 32 ensures !Reflected(0, 32, e) { HighBits(0, 0, 31 - e); }
  }
}
