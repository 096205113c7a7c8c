// 64-bit integers as two 32-bit halves: the header's operators and the division runtime.
module Int64 {
  import opened Arith
  import opened Words

  const M: int := B * B
  const HALF: int := 0x8000_0000 * B

  datatype I64 = I64(lo: u32, hi: u32)

  function Val(x: I64): (v: int)
    ensures 0 <= v < M
  {
    x.hi * B + x.lo
  }

  function SVal(x: I64): (v: int)
    ensures -HALF <= v < HALF
  {
    if x.hi >= 0x8000_0000 then Val(x) - M else Val(x)
  }

  lemma ValInjective(x: I64, y: I64)
    requires Val(x) == Val(y)
    ensures x == y
  {
  }

  // ----- Add, subtract, negate, multiply -----------------------------------------------------

  function Add64(a: I64, b: I64): (r: I64)
    ensures Val(r) == (Val(a) + Val(b)) % M
  {
    var lo := Add(a.lo, b.lo);
    var hi := Add(Add(a.hi, b.hi), if lo < a.lo then 1 else 0);
    I64(lo, hi)
  }

  function Sub64(a: I64, b: I64): (r: I64)
    ensures Val(r) == (Val(a) - Val(b)) % M
  {
    var borrow := if a.lo < b.lo then 1 else 0;
    var r := I64(Sub(a.lo, b.lo), Sub(Sub(a.hi, b.hi), borrow));
    DivModUnique(Val(a) - Val(b), M, if a.hi < b.hi + borrow then -1 else 0, Val(r));
    r
  }

  function Neg64(x: I64): (r: I64)
    ensures Val(r) == (-Val(x)) % M
  {
    var lo := Add(Not(x.lo), 1);
    I64(lo, Add(Not(x.hi), if lo == 0 then 1 else 0))
  }

  function Mul64(a: I64, b: I64): (r: I64)
    ensures Val(r) == (Val(a) * Val(b)) % M
  {
    var carry := MulHigh(a.lo, b.lo);
    var r := I64(Mul(a.lo, b.lo), Add(Add(carry, Mul(a.lo, b.hi)), Mul(a.hi, b.lo)));
    MulLow(a, b, r);
    r
  }

  lemma MulLow(a: I64, b: I64, r: I64)
    requires r == I64(Mul(a.lo, b.lo), Add(Add(MulHigh(a.lo, b.lo), Mul(a.lo, b.hi)), Mul(a.hi, b.lo)))
    ensures Val(r) == (Val(a) * Val(b)) % M
  {
    var m1, m2, c := a.lo * b.hi, a.hi * b.lo, MulHigh(a.lo, b.lo);
    MulNonneg(a.lo, b.hi);
    MulNonneg(a.hi, b.lo);
    MiddleWord(c, m1, m2);
    DivMod(c + m1 + m2, B);
    FourProducts(a, b);
    DivModUnique(Val(a) * Val(b), M, a.hi * b.hi + (c + m1 + m2) / B, Val(r));
  }

  lemma FourProducts(a: I64, b: I64)
    ensures Val(a) * Val(b) == (a.hi * b.hi) * M + (a.lo * b.hi + a.hi * b.lo) * B + a.lo * b.lo
  {
    MulAdd(Val(a), b.hi * B, b.lo);
    MulAdd(b.hi, a.hi * B, a.lo);
    MulAdd(b.lo, a.hi * B, a.lo);
  }

  lemma MiddleWord(c: u32, m1: int, m2: int)
    requires 0 <= m1 && 0 <= m2
    ensures Add(Add(c, m1 % B), m2 % B) == (c + m1 + m2) % B
  {
  }

  // ----- Shifts --------------------------------------------------------------------------------

  lemma SixBits(n: u32)
    ensures And(n, 63) == n % 64
  {
    assert Pow2(6) == 64;
    AndMask(n, 6);
  }

  // Shifting a word left by P = 2^n splits it at Q = 2^(32-n).
  lemma SplitLeft(x: u32, n: nat)
    requires 0 < n < 32
    ensures var p, q := Pow2(n), Pow2(32 - n);
            && p * q == B && x * p == B * (x / q) + p * (x % q)
            && Shl(x, n) == p * (x % q) <= B - p && 0 <= x / q < p && x == q * (x / q) + x % q
  {
    Pow2Values();
    Pow2Add(n, 32 - n);
    SplitAt(x, Pow2(n), Pow2(32 - n));
  }

  lemma SplitAt(x: u32, p: int, q: int)
    requires 1 <= p && 1 <= q && p * q == B
    ensures x * p == B * (x / q) + p * (x % q) && 0 <= x / q < p && x == q * (x / q) + x % q
    ensures 0 <= p * (x % q) <= B - p && x * p % B == p * (x % q)
  {
    var d, r := x / q, x % q;
    DivMod(x, q);
    DivBounds(x, q);
    DivBelow(x, q, p);
    MulAdd(p, q * d, r);
    MulSwap(p, q, d);
    MulMono(p, r, q - 1);
    MulAdd(p, q, 1);
    MulNonneg(p, r);
    DivModUnique(x * p, B, d, p * r);
  }

  // (hi << n) | (lo >> (32 - n)), the high word of a left shift.
  lemma FunnelLeft(hi: u32, lo: u32, n: nat)
    requires 0 < n < 32
    ensures Or(Shl(hi, n), Shr(lo, 32 - n)) == Shl(hi, n) + Shr(lo, 32 - n) < B
  {
    SplitLeft(hi, n);
    SplitLeft(lo, n);
    MultipleMod(Pow2(n), hi % Pow2(32 - n));
    OrDisjoint(Shl(hi, n), Shr(lo, 32 - n), n);
  }

  function Shl64(x: I64, amount: u32): (r: I64)
    ensures Val(r) == (Val(x) * Pow2(amount % 64)) % M
  {
    SixBits(amount);
    var n := And(amount, 63);
    ShlValue(x, n);
    if n == 0 then x
    else if n >= 32 then I64(0, Shl(x.lo, n - 32))
    else
      FunnelLeft(x.hi, x.lo, n);
      I64(Shl(x.lo, n), Or(Shl(x.hi, n), Shr(x.lo, 32 - n)))
  }

  lemma ShlValue(x: I64, n: nat)
    requires n < 64
    ensures n == 0 ==> Val(x) == (Val(x) * Pow2(n)) % M
    ensures n >= 32 ==> Shl(x.lo, n - 32) * B == (Val(x) * Pow2(n)) % M
    ensures 0 < n < 32 ==>
              (Shl(x.hi, n) + Shr(x.lo, 32 - n)) * B + Shl(x.lo, n) == (Val(x) * Pow2(n)) % M
  {
    if n == 0 {
      DivModUnique(Val(x), M, 0, Val(x));
    } else if n >= 32 {
      Pow2Values();
      Pow2Add(n - 32, 32);
      ShlFar(x.hi, x.lo, Pow2(n - 32));
    } else {
      Pow2Values();
      Pow2Add(n, 32 - n);
      FunnelLeft(x.hi, x.lo, n);
      ShlNear(x.hi, x.lo, Pow2(n), Pow2(32 - n));
    }
  }

  lemma ShlNear(hi: u32, lo: u32, p: int, q: int)
    requires 1 <= p && 1 <= q && p * q == B
    requires hi * p % B + lo / q < B
    ensures (hi * p % B + lo / q) * B + lo * p % B == ((hi * B + lo) * p) % M
  {
    SplitAt(hi, p, q);
    SplitAt(lo, p, q);
    MulAdd(p, hi * B, lo);
    DivModUnique((hi * B + lo) * p, M, hi / q, (hi * p % B + lo / q) * B + lo * p % B);
  }

  lemma ShlFar(hi: u32, lo: u32, s: int)
    requires 1 <= s
    ensures (lo * s % B) * B == ((hi * B + lo) * (s * B)) % M
  {
    DivMod(lo * s, B);
    MulAdd(s, hi * B, lo);
    MulSwap(hi * B + lo, s, B);
    var k := hi * s + (lo * s) / B;
    assert (hi * B + lo) * (s * B) == M * k + (lo * s % B) * B;
    DivModUnique((hi * B + lo) * (s * B), M, k, (lo * s % B) * B);
  }

  function Shr64(x: I64, amount: u32): (r: I64)
    ensures Val(r) == Val(x) / Pow2(amount % 64)
  {
    SixBits(amount);
    var n := And(amount, 63);
    ShrValue(x, n);
    if n == 0 then x
    else if n >= 32 then I64(Shr(x.hi, n - 32), 0)
    else
      FunnelRight(x.hi, x.lo, n);
      I64(Or(Shr(x.lo, n), Shl(x.hi, 32 - n)), Shr(x.hi, n))
  }

  // (lo >> n) | (hi << (32 - n)), the low word of a right shift.
  lemma FunnelRight(hi: u32, lo: u32, n: nat)
    requires 0 < n < 32
    ensures Or(Shr(lo, n), Shl(hi, 32 - n)) == Shr(lo, n) + Shl(hi, 32 - n) < B
  {
    FunnelLeft(hi, lo, 32 - n);
    OrCommutes(Shr(lo, n), Shl(hi, 32 - n));
  }

  lemma ShrValue(x: I64, n: nat)
    requires n < 64
    ensures n == 0 ==> Val(x) == Val(x) / Pow2(n)
    ensures n >= 32 ==> Shr(x.hi, n - 32) == Val(x) / Pow2(n)
    ensures 0 < n < 32 ==> Shr(x.hi, n) * B + (Shr(x.lo, n) + Shl(x.hi, 32 - n)) == Val(x) / Pow2(n)
  {
    if n >= 32 {
      Pow2Values();
      Pow2Add(32, n - 32);
      DivModUnique(Val(x), B, x.hi, x.lo);
      DivTwice(Val(x), B, Pow2(n - 32));
    } else if n > 0 {
      LowQuotient(x.hi, x.hi, x.lo, n);
    }
  }

  // Dividing by 2^n, n < 32: s is the high word, signed or unsigned.
  lemma LowQuotient(s: int, hi: u32, lo: u32, n: nat)
    requires 0 < n < 32 && s % Pow2(n) == hi % Pow2(n)
    ensures (s * B + lo) / Pow2(n) == s / Pow2(n) * B + (Shr(lo, n) + Shl(hi, 32 - n))
  {
    ShlBack(hi, n);
    QuotientWord(s, lo, Pow2(n), Pow2(32 - n));
  }

  lemma ShlBack(x: u32, n: nat)
    requires 0 < n < 32
    ensures Pow2(n) * Pow2(32 - n) == B && Shl(x, 32 - n) == Pow2(32 - n) * (x % Pow2(n))
  {
    var k := 32 - n;
    SplitLeft(x, k);
    assert 32 - k == n;
  }

  lemma QuotientWord(s: int, lo: u32, p: int, q: int)
    requires 1 <= p && 1 <= q && p * q == B
    ensures (s * B + lo) / p == s / p * B + (lo / p + q * (s % p))
  {
    var d, r, e := s / p, s % p, lo / p;
    DivMod(s, p);
    DivMod(lo, p);
    var w := d * B + (e + q * r);
    MulAdd(p, d * B, e + q * r);
    MulAdd(p, e, q * r);
    MulSwap(p, q, r);
    MulSwap(p, d, B);
    assert s * B + lo == p * w + lo % p;
    DivModUnique(s * B + lo, p, w, lo % p);
  }

  // Arithmetic shift right: the signed value divided, rounding down.
  function Sar64(x: I64, amount: u32): (r: I64)
    ensures SVal(r) == SVal(x) / Pow2(amount % 64)
  {
    SixBits(amount);
    var n := And(amount, 63);
    SarValue(x, n);
    if n == 0 then x
    else if n >= 32 then I64(Sar(x.hi, n - 32), Sar(x.hi, 31))
    else
      FunnelRight(x.hi, x.lo, n);
      I64(Or(Shr(x.lo, n), Shl(x.hi, 32 - n)), Sar(x.hi, n))
  }

  // A word shifted arithmetically, as a signed number.
  lemma SarWord(x: u32, n: nat)
    requires n < 32
    ensures Signed(Sar(x, n)) == Signed(x) / Pow2(n)
    ensures n == 31 ==> Signed(x) / Pow2(n) == if x >= 0x8000_0000 then -1 else 0
  {
    var p := Pow2(n);
    SignedDivide(Signed(x), p);
    SignedWraps(Signed(x) / p);
    if n == 31 {
      Pow2Values();
      DivModUnique(Signed(x), p, if x >= 0x8000_0000 then -1 else 0, x % 0x8000_0000);
    }
  }

  lemma SignedWraps(v: int)
    requires -0x8000_0000 <= v < 0x8000_0000
    ensures Signed(v % B) == v
  {
    DivModUnique(v, B, if v < 0 then -1 else 0, if v < 0 then v + B else v);
  }

  lemma SignedDivide(s: int, p: int)
    requires -0x8000_0000 <= s < 0x8000_0000 && 1 <= p
    ensures -0x8000_0000 <= s / p < 0x8000_0000
  {
    DivMod(s, p);
    if s >= 0 {
      DivBounds(s, p);
    } else {
      DivBelow(s, p, 0);
      MulAtLeast(-(s / p), p - 1);
      MulAdd(s / p, p, 1);
    }
  }

  lemma SarValue(x: I64, n: nat)
    requires n < 64
    ensures n == 0 ==> SVal(x) == SVal(x) / Pow2(n)
    ensures n >= 32 ==> SVal(I64(Sar(x.hi, n - 32), Sar(x.hi, 31))) == SVal(x) / Pow2(n)
    ensures 0 < n < 32 ==> Shr(x.lo, n) + Shl(x.hi, 32 - n) < B &&
                           SVal(I64(Shr(x.lo, n) + Shl(x.hi, 32 - n), Sar(x.hi, n))) == SVal(x) / Pow2(n)
  {
    var s := Signed(x.hi);
    assert SVal(x) == s * B + x.lo;
    if n >= 32 {
      Pow2Values();
      Pow2Add(32, n - 32);
      SarWord(x.hi, n - 32);
      SarWord(x.hi, 31);
      DivModUnique(s * B + x.lo, B, s, x.lo);
      DivTwice(s * B + x.lo, B, Pow2(n - 32));
      SignFill(s, Pow2(n - 32));
    } else if n > 0 {
      SarWord(x.hi, n);
      FunnelRight(x.hi, x.lo, n);
      SignedLow(x.hi, n);
      LowQuotient(s, x.hi, x.lo, n);
    }
  }

  lemma SignFill(s: int, p: int)
    requires 1 <= p
    ensures s < 0 <==> s / p < 0
  {
    DivMod(s, p);
    MulAtLeast(p, s / p);
  }

  // The low bits of a word are those of its signed reading.
  lemma SignedLow(x: u32, n: nat)
    requires 0 < n < 32
    ensures Signed(x) % Pow2(n) == x % Pow2(n)
  {
    var p, q := Pow2(n), Pow2(32 - n);
    SplitLeft(x, n);
    DivMod(x, p);
    MulAdd(p, x / p, q);
    DivModUnique(x - B, p, x / p - q, x % p);
  }

  // ----- Comparisons -----------------------------------------------------------------------------

  predicate ULt(a: I64, b: I64)
    ensures ULt(a, b) <==> Val(a) < Val(b)
  {
    if a.hi != b.hi then a.hi < b.hi else a.lo < b.lo
  }

  predicate ULe(a: I64, b: I64)
    ensures ULe(a, b) <==> Val(a) <= Val(b)
  {
    if a.hi != b.hi then a.hi < b.hi else a.lo <= b.lo
  }

  predicate SLt(a: I64, b: I64)
    ensures SLt(a, b) <==> SVal(a) < SVal(b)
  {
    if a.hi != b.hi then Signed(a.hi) < Signed(b.hi) else a.lo < b.lo
  }

  predicate SLe(a: I64, b: I64)
    ensures SLe(a, b) <==> SVal(a) <= SVal(b)
  {
    if a.hi != b.hi then Signed(a.hi) < Signed(b.hi) else a.lo <= b.lo
  }

  // ----- Division ------------------------------------------------------------------------------------

  // Bit i, taken from whichever half holds it.
  function Bit(a: I64, i: nat): (b: u32)
    requires i < 64
    ensures b == (Val(a) / Pow2(i)) % 2
  {
    BitValue(a, i);
    if i >= 32 then And(Shr(a.hi, i - 32), 1) else And(Shr(a.lo, i), 1)
  }

  lemma BitValue(a: I64, i: nat)
    requires i < 64
    ensures i >= 32 ==> And(Shr(a.hi, i - 32), 1) == (Val(a) / Pow2(i)) % 2
    ensures i < 32 ==> And(Shr(a.lo, i), 1) == (Val(a) / Pow2(i)) % 2
  {
    assert Pow2(1) == 2;
    ShrValue(a, i);
    if i >= 32 {
      AndMask(Shr(a.hi, i - 32), 1);
    } else {
      AndMask(Shr(a.lo, i), 1);
      if i > 0 {
        EvenShift(a.hi, 32 - i);
        SameParity(Shr(a.lo, i), Shr(a.hi, i), Shl(a.hi, 32 - i));
      } else {
        assert Shr(a.lo, 0) == a.lo;
        SameParity(a.lo, a.hi, 0);
      }
    }
  }

  lemma EvenShift(x: u32, n: nat)
    requires 0 < n < 32
    ensures Shl(x, n) % 2 == 0
  {
    SplitLeft(x, n);
    EvenMultiple(Pow2(n - 1), x % Pow2(32 - n));
  }

  lemma EvenMultiple(h: int, r: int)
    ensures ((2 * h) * r) % 2 == 0
  {
    MulSwap(2, h, r);
    MultipleMod(2, h * r);
  }

  lemma SameParity(x: int, y: int, z: int)
    requires z % 2 == 0
    ensures (y * B + (x + z)) % 2 == x % 2
  {
  }

  // q with bit i set.
  function WithBit(q: I64, i: nat): (r: I64)
    requires i < 64 && Val(q) % Pow2(i + 1) == 0
    ensures Val(r) == Val(q) + Pow2(i)
  {
    WithBitValue(q, i);
    if i >= 32 then q.(hi := Or(q.hi, Shl(1, i - 32))) else q.(lo := Or(q.lo, Shl(1, i)))
  }

  lemma WithBitValue(q: I64, i: nat)
    requires i < 64 && Val(q) % Pow2(i + 1) == 0
    ensures i >= 32 ==> Or(q.hi, Shl(1, i - 32)) == q.hi + Pow2(i - 32) < B && Pow2(i) == Pow2(i - 32) * B
    ensures i < 32 ==> Or(q.lo, Shl(1, i)) == q.lo + Pow2(i) < B
  {
    Pow2Values();
    if i >= 32 {
      var p := Pow2(i - 32);
      Pow2Add(i - 32, 32);
      Pow2Add(i + 1 - 32, 32);
      Pow2Monotone(i - 32, 31);
      HighMultiple(q, 2 * p);
      RoomForBit(q.hi, i - 32);
    } else {
      Pow2Monotone(i, 31);
      LowMultiple(q, i + 1);
      RoomForBit(q.lo, i);
    }
  }

  // A word with bits 0..i clear has room for bit i.
  lemma RoomForBit(w: u32, i: nat)
    requires i < 32 && w % Pow2(i + 1) == 0
    ensures Shl(1, i) == Pow2(i) && Or(w, Pow2(i)) == w + Pow2(i) < B
  {
    Pow2Values();
    Pow2Monotone(i, 31);
    Pow2Add(i + 1, 31 - i);
    OrDisjoint(w, Pow2(i), i + 1);
    MultipleBelow(w, 2 * Pow2(i), Pow2(31 - i));
  }

  lemma HighMultiple(q: I64, p: int)
    requires 1 <= p && Val(q) % (p * B) == 0
    ensures q.lo == 0 && q.hi % p == 0
  {
    DivModUnique(Val(q), B, q.hi, q.lo);
    DivTwice(Val(q), B, p);
  }

  lemma LowMultiple(q: I64, n: nat)
    requires n <= 32 && Val(q) % Pow2(n) == 0
    ensures q.lo % Pow2(n) == 0
  {
    Pow2Values();
    Pow2Add(n, 32 - n);
    WordMultiple(q.hi, q.lo, Pow2(n), Pow2(32 - n));
  }

  lemma WordMultiple(hi: int, lo: int, p: int, s: int)
    requires 1 <= p && p * s == B && (hi * B + lo) % p == 0
    ensures lo % p == 0
  {
    var k := (hi * B + lo) / p;
    DivMod(hi * B + lo, p);
    MulAdd(p, k, s * hi);
    MulSwap(p, s, hi);
    DivModUnique(lo, p, k - s * hi, 0);
  }

  // One more bit of the dividend.
  lemma NextBit(v: int, i: nat)
    requires 0 <= v
    ensures v / Pow2(i) == 2 * (v / Pow2(i + 1)) + (v / Pow2(i)) % 2
  {
    DivTwice(v, Pow2(i), 2);
  }

  // Doubling the remainder loses no bit: it is at most the part of the dividend consumed so far.
  lemma RoomToShift(a: I64, i: nat, product: int, r: I64)
    requires i < 64 && Val(a) / Pow2(i + 1) == product + Val(r) && 0 <= product
    ensures Val(Shl64(r, 1)) == 2 * Val(r) && Shl64(r, 1).lo % 2 == 0
  {
    Pow2Values();
    Pow2Add(i + 1, 63 - i);
    Pow2Monotone(63 - i, 63);
    assert Pow2(64) == 2 * Pow2(63);
    DivBelow(Val(a), Pow2(i + 1), Pow2(63 - i));
    assert 1 % 64 == 1 && Pow2(1) == 2;
    DivModUnique(2 * Val(r), M, 0, 2 * Val(r));
  }

  // lo | bit, for an even lo.
  function SetLowest(lo: u32, bit: u32): (r: u32)
    requires lo % 2 == 0 && bit < 2
    ensures r == lo + bit
  {
    assert Pow2(1) == 2;
    OrDisjoint(lo, bit, 1);
    Or(lo, bit)
  }

  lemma DoubledPlus(n: int, d: int)
    ensures (2 * n) * d == 2 * (n * d) == n * (2 * d)
    ensures (2 * n + 1) * d == 2 * (n * d) + d
  {
    MulSwap(2, n, d);
    MulSwap(n, 2, d);
    MulAdd(d, 2 * n, 1);
  }

  lemma SubNoWrap(a: I64, b: I64)
    requires Val(b) <= Val(a)
    ensures Val(Sub64(a, b)) == Val(a) - Val(b)
  {
    DivModUnique(Val(a) - Val(b), M, 0, Val(a) - Val(b));
  }

  // After the bits from i up: n is the quotient so far, in place in q, and r what is left.
  ghost predicate Divided(a: I64, b: I64, q: I64, r: I64, n: int, i: nat)
    requires i <= 64
  {
    && 0 <= n && Val(q) == n * Pow2(i) && Val(a) / Pow2(i) == n * Val(b) + Val(r)
    && (Val(b) != 0 ==> Val(r) < Val(b))
    && (Val(b) == 0 ==> n == Pow2(64 - i) - 1)
  }

  lemma DividedStart(a: I64, b: I64)
    ensures Divided(a, b, I64(0, 0), I64(0, 0), 0, 64)
  {
    Pow2Values();
    DivModUnique(Val(a), M, 0, Val(a));
  }

  lemma QuotientShift(q: I64, n: int, i: nat)
    requires i < 64 && Val(q) == n * Pow2(i + 1)
    ensures Val(q) % Pow2(i + 1) == 0 && Val(q) == (2 * n) * Pow2(i)
  {
    MultipleMod(Pow2(i + 1), n);
    DoubledPlus(n, Pow2(i));
  }

  lemma DividendShift(a: I64, b: I64, r: I64, n: int, i: nat)
    requires i < 64 && Val(a) / Pow2(i + 1) == n * Val(b) + Val(r)
    ensures Val(a) / Pow2(i) == (2 * n) * Val(b) + (2 * Val(r) + Bit(a, i))
  {
    var product, t := n * Val(b), Val(a) / Pow2(i + 1);
    NextBit(Val(a), i);
    DoubledPlus(n, Val(b));
    assert (2 * n) * Val(b) == 2 * product;
  }

  lemma DividedShift(a: I64, b: I64, q: I64, r: I64, n: int, i: nat)
    requires i < 64 && Divided(a, b, q, r, n, i + 1)
    ensures Val(Shl64(r, 1)) == 2 * Val(r) && Shl64(r, 1).lo % 2 == 0 && Val(q) % Pow2(i + 1) == 0
    ensures Val(a) / Pow2(i) == (2 * n) * Val(b) + (2 * Val(r) + Bit(a, i)) && Val(q) == (2 * n) * Pow2(i)
  {
    MulNonneg(n, Val(b));
    RoomToShift(a, i, n * Val(b), r);
    QuotientShift(q, n, i);
    DividendShift(a, b, r, n, i);
  }

  lemma DividedKeep(a: I64, b: I64, q: I64, r: I64, n: int, i: nat)
    requires i < 64 && 0 <= n && Val(r) < Val(b)
    requires Val(a) / Pow2(i) == (2 * n) * Val(b) + Val(r) && Val(q) == (2 * n) * Pow2(i)
    ensures Divided(a, b, q, r, 2 * n, i)
  {
  }

  lemma DividedSubtract(a: I64, b: I64, q: I64, r: I64, n: int, i: nat)
    requires i < 64 && 0 <= n && Val(b) <= Val(r) && (Val(b) == 0 ==> n == Pow2(63 - i) - 1)
    requires Val(b) != 0 ==> Val(r) < 2 * Val(b)
    requires Val(a) / Pow2(i) == (2 * n) * Val(b) + Val(r) && Val(q) == (2 * n) * Pow2(i)
    requires Val(q) % Pow2(i + 1) == 0
    ensures Divided(a, b, WithBit(q, i), Sub64(r, b), 2 * n + 1, i)
  {
    SubNoWrap(r, b);
    DoubledPlus(n, Val(b));
    DoubledPlus(n, Pow2(i));
  }

  lemma DividedEnd(a: I64, b: I64, q: I64, r: I64, n: int)
    requires Divided(a, b, q, r, n, 0)
    ensures Val(b) != 0 ==> Val(q) == Val(a) / Val(b) && Val(r) == Val(a) % Val(b)
    ensures Val(b) == 0 ==> Val(q) == M - 1 && r == a
  {
    Pow2Values();
    if Val(b) != 0 {
      MulSwap(Val(b), n, 1);
      DivModUnique(Val(a), Val(b), n, Val(r));
    } else {
      ValInjective(r, a);
    }
  }

  // Restoring division, most significant bit first. With b == 0 the quotient comes out as
  // all ones and the remainder as the dividend.
  method UDivMod(a: I64, b: I64) returns (q: I64, r: I64)
    ensures Val(b) != 0 ==> Val(q) == Val(a) / Val(b) && Val(r) == Val(a) % Val(b)
    ensures Val(b) == 0 ==> Val(q) == M - 1 && r == a
  {
    q, r := I64(0, 0), I64(0, 0);
    ghost var n := 0;
    DividedStart(a, b);
    var i := 63;
    while i >= 0
      invariant -1 <= i < 64 && Divided(a, b, q, r, n, i + 1)
    {
      DividedShift(a, b, q, r, n, i);
      r := Shl64(r, 1);
      r := r.(lo := SetLowest(r.lo, Bit(a, i)));
      if ULe(b, r) {
        DividedSubtract(a, b, q, r, n, i);
        r := Sub64(r, b);
        q := WithBit(q, i);
        n := 2 * n + 1;
      } else {
        DividedKeep(a, b, q, r, n, i);
        n := 2 * n;
      }
      i := i - 1;
    }
    DividedEnd(a, b, q, r, n);
  }

  // ----- Signed division ---------------------------------------------------------------------------------

  function Magnitude(v: int): (m: int)
    ensures m >= 0
  {
    if v < 0 then -v else v
  }

  // The quotient rounded toward zero.
  function TruncQuot(x: int, y: int): int
    requires y != 0
  {
    if (x < 0) == (y < 0) then Magnitude(x) / Magnitude(y) else -(Magnitude(x) / Magnitude(y))
  }

  // The one quotient that leaves a remainder smaller than the divisor and of the dividend's sign.
  lemma TruncQuotIs(x: int, y: int)
    requires y != 0
    ensures var r := x - TruncQuot(x, y) * y;
            Magnitude(r) < Magnitude(y) && (r != 0 ==> (r < 0 <==> x < 0)) && Magnitude(r) == Magnitude(x) % Magnitude(y)
  {
    var a, b := Magnitude(x), Magnitude(y);
    var q, r := a / b, a % b;
    DivMod(a, b);
    MulSigns(q, b);
    assert x - TruncQuot(x, y) * y == if x < 0 then -r else r;
  }

  lemma MulSigns(x: int, y: int)
    ensures (-x) * y == -(y * x) == x * (-y)
    ensures (-x) * (-y) == y * x == x * y
  {
  }

  // |x| and whether x was negative; the most negative number comes back as 2^63.
  function Abs64(x: I64): (r: (I64, bool))
    ensures Val(r.0) == Magnitude(SVal(x)) && (r.1 <==> SVal(x) < 0)
  {
    SignBit(x.hi);
    var neg := And(Shr(x.hi, 31), 1) != 0;
    (if neg then Neg64(x) else x, neg)
  }

  lemma SignBit(w: u32)
    ensures And(Shr(w, 31), 1) == if w >= 0x8000_0000 then 1 else 0
  {
    Pow2Values();
    AndMask(Shr(w, 31), 1);
  }

  // A 64-bit value in two's complement.
  function Wrap64(v: int): int {
    (v + HALF) % M - HALF
  }

  lemma SignedFrom(x: I64, v: int)
    requires -M < v < M && Val(x) == v % M
    ensures SVal(x) == Wrap64(v)
    ensures -HALF <= v < HALF ==> SVal(x) == v
    ensures v == M - 1 ==> SVal(x) == -1
    ensures v == 1 - M ==> SVal(x) == 1
  {
    DivModUnique(v, M, if v < 0 then -1 else 0, if v < 0 then v + M else v);
    var k := SVal(x) + HALF;
    DivModUnique(v + HALF, M, if v < -HALF then -1 else if v < HALF then 0 else 1, k);
  }

  lemma SignedInjective(x: I64, y: I64)
    requires SVal(x) == SVal(y)
    ensures x == y
  {
    ValInjective(x, y);
  }

  lemma QuotientSign(a: I64, b: I64, q: I64)
    requires SVal(b) != 0 ==> Val(q) == Magnitude(SVal(a)) / Magnitude(SVal(b))
    requires SVal(b) == 0 ==> Val(q) == M - 1
    ensures var x := if (SVal(a) < 0) != (SVal(b) < 0) then Neg64(q) else q;
            if SVal(b) == 0 then SVal(x) == if SVal(a) < 0 then 1 else -1
            else SVal(x) == Wrap64(TruncQuot(SVal(a), SVal(b)))
  {
    var u := Val(q);
    if (SVal(a) < 0) != (SVal(b) < 0) {
      SignedFrom(Neg64(q), -u);
    } else {
      DivModUnique(u, M, 0, u);
      SignedFrom(q, u);
    }
  }

  // Truncates toward zero; only the most negative number over -1 wraps. Division by zero
  // gives -1 or, for a negative dividend, 1.
  method SDiv(a: I64, b: I64) returns (q: I64)
    ensures SVal(b) != 0 ==> SVal(q) == Wrap64(TruncQuot(SVal(a), SVal(b)))
    ensures SVal(b) == 0 ==> SVal(q) == if SVal(a) < 0 then 1 else -1
  {
    var (ua, na) := Abs64(a);
    var (ub, nb) := Abs64(b);
    var r;
    q, r := UDivMod(ua, ub);
    QuotientSign(a, b, q);
    if na != nb {
      q := Neg64(q);
    }
  }

  lemma RemainderSign(a: I64, b: I64, r: I64)
    requires SVal(b) != 0 ==> Val(r) == Magnitude(SVal(a)) % Magnitude(SVal(b))
    requires SVal(b) == 0 ==> Val(r) == Magnitude(SVal(a))
    ensures var x := if SVal(a) < 0 then Neg64(r) else r;
            if SVal(b) == 0 then x == a else SVal(x) == SVal(a) - TruncQuot(SVal(a), SVal(b)) * SVal(b)
  {
    var x, u := if SVal(a) < 0 then Neg64(r) else r, Val(r);
    if SVal(b) == 0 {
      SignedFrom(x, SVal(a));
      SignedInjective(x, a);
    } else {
      TruncQuotIs(SVal(a), SVal(b));
      SignedFrom(x, if SVal(a) < 0 then -u else u);
    }
  }

  // The remainder of truncating division, with the sign of the dividend; the dividend itself
  // when the divisor is zero.
  method SMod(a: I64, b: I64) returns (r: I64)
    ensures SVal(b) != 0 ==> SVal(r) == SVal(a) - TruncQuot(SVal(a), SVal(b)) * SVal(b)
    ensures SVal(b) == 0 ==> r == a
  {
    var (ua, na) := Abs64(a);
    var (ub, nb) := Abs64(b);
    var q;
    q, r := UDivMod(ua, ub);
    RemainderSign(a, b, r);
    if na {
      r := Neg64(r);
    }
  }

  // ----- Funnel shifts -------------------------------------------------------------------------------------

  // A shift left by P brings in the top bits of y: the two parts have no bit in common.
  lemma WideParts(x: int, y: int, p: int, q: int)
    requires 0 <= x < M && 0 <= y < M && 1 <= p && 1 <= q && p * q == M
    ensures (x * p % M) % p == 0 && 0 <= y / q < p
    ensures (x * p + y / q) % M == x * p % M + y / q
    ensures x * p % M + y / q < M
  {
    MultipleMod(p, x);
    DivTwice(x * p, p, q);
    MultipleMod(p, x % q);
    MulMono(p, x % q, q - 1);
    MulAdd(p, q, 1);
    DivBounds(y, q);
    DivBelow(y, q, p);
    DivMod(x * p, M);
    DivModUnique(x * p + y / q, M, (x * p) / M, x * p % M + y / q);
  }

  // Or-ing the halves adds the values when hi's bits are above lo's.
  lemma OrHalves(hi: I64, lo: I64, s: nat)
    requires 0 < s < 64 && Val(hi) % Pow2(s) == 0 && Val(lo) < Pow2(s)
    ensures Or(hi.lo, lo.lo) < B && Or(hi.hi, lo.hi) < B
    ensures Or(hi.hi, lo.hi) * B + Or(hi.lo, lo.lo) == Val(hi) + Val(lo)
  {
    Pow2Values();
    if s >= 32 {
      Pow2Add(s - 32, 32);
      HighMultiple(hi, Pow2(s - 32));
      assert lo.hi < Pow2(s - 32);
      OrDisjoint(hi.hi, lo.hi, s - 32);
      OrFits(hi.hi, lo.hi, s - 32);
    } else {
      Pow2Monotone(s, 31);
      LowMultiple(hi, s);
      assert lo.hi == 0;
      OrCommutes(hi.hi, 0);
      OrDisjoint(hi.lo, lo.lo, s);
      OrFits(hi.lo, lo.lo, s);
    }
  }

  lemma OrFits(x: u32, y: u32, k: nat)
    requires k < 32 && x % Pow2(k) == 0 && y < Pow2(k)
    ensures x + y < B
  {
    Pow2Values();
    Pow2Add(k, 32 - k);
    MultipleBelow(x, Pow2(k), Pow2(32 - k));
  }

  lemma MultipleBelow(x: int, p: int, q: int)
    requires 1 <= p && x % p == 0 && x < p * q
    ensures x + p <= p * q
  {
    DivMod(x, p);
    DivBelow(x, p, q);
    MulMono(p, x / p, q - 1);
    MulAdd(p, q, 1);
  }

  lemma FshlValue(a: I64, b: I64, s: nat)
    requires s < 64
    ensures s == 0 ==> Val(a) == ((Val(a) * M + Val(b)) * Pow2(s) / M) % M
    ensures s > 0 ==> Val(b) / Pow2(64 - s) < Pow2(s) && (Val(a) * Pow2(s) % M) % Pow2(s) == 0
    ensures s > 0 ==> Val(a) * Pow2(s) % M + Val(b) / Pow2(64 - s) == ((Val(a) * M + Val(b)) * Pow2(s) / M) % M
  {
    var x, y, p := Val(a), Val(b), Pow2(s);
    if s == 0 {
      DivModUnique(x * M + y, M, x, y);
      DivModUnique(x, M, 0, x);
    } else {
      var q := Pow2(64 - s);
      Pow2Values();
      Pow2Add(s, 64 - s);
      WideParts(x, y, p, q);
      FunnelQuotient(x, y, p, q);
    }
  }

  lemma FunnelQuotient(x: int, y: int, p: int, q: int)
    requires 1 <= p && 1 <= q && p * q == M
    ensures (x * M + y) * p / M == x * p + y / q
  {
    var d, r := y / q, y % q;
    DivMod(y, q);
    MulAdd(p, x * M, y);
    MulAdd(p, q * d, r);
    MulSwap(p, q, d);
    MulMono(p, r, q - 1);
    MulAdd(p, q, 1);
    MulNonneg(p, r);
    MulSwap(x, M, p);
    assert (x * M + y) * p == M * (x * p + d) + p * r;
    DivModUnique((x * M + y) * p, M, x * p + d, p * r);
  }

  lemma FshrValue(a: I64, b: I64, s: nat)
    requires s < 64
    ensures s == 0 ==> Val(b) == ((Val(a) * M + Val(b)) / Pow2(s)) % M
    ensures s > 0 ==> Val(b) / Pow2(s) < Pow2(64 - s) && (Val(a) * Pow2(64 - s) % M) % Pow2(64 - s) == 0
    ensures s > 0 ==> Val(a) * Pow2(64 - s) % M + Val(b) / Pow2(s) == ((Val(a) * M + Val(b)) / Pow2(s)) % M
  {
    var x, y, p := Val(a), Val(b), Pow2(s);
    if s == 0 {
      DivModUnique(x * M + y, M, x, y);
    } else {
      var q := Pow2(64 - s);
      Pow2Values();
      Pow2Add(s, 64 - s);
      WideParts(x, y, q, p);
      MulSwap(x, p, q);
      MulSwap(p, x, q);
      DivMod(y, p);
      MulAdd(p, x * q, y / p);
      DivModUnique(x * M + y, p, x * q + y / p, y % p);
    }
  }

  // The top 64 bits of (a:b) shifted left by c % 64.
  function Fshl64(a: I64, b: I64, c: I64): (r: I64)
    ensures Val(r) == ((Val(a) * M + Val(b)) * Pow2(c.lo % 64) / M) % M
  {
    SixBits(c.lo);
    var s := And(c.lo, 63);
    FshlValue(a, b, s);
    if s == 0 then a
    else
      BelowSixtyFour(s);
      var hi, lo := Shl64(a, s), Shr64(b, 64 - s);
      OrBoth(hi, lo, s)
  }

  lemma BelowSixtyFour(s: nat)
    requires 0 < s < 64
    ensures s % 64 == s && (64 - s) % 64 == 64 - s
  {
  }

  // The halves or-ed.
  function OrBoth(hi: I64, lo: I64, s: nat): (r: I64)
    requires 0 < s < 64 && Val(hi) % Pow2(s) == 0 && Val(lo) < Pow2(s)
    ensures Val(r) == Val(hi) + Val(lo)
  {
    OrHalves(hi, lo, s);
    I64(Or(hi.lo, lo.lo), Or(hi.hi, lo.hi))
  }

  // The bottom 64 bits of (a:b) shifted right by c % 64.
  function Fshr64(a: I64, b: I64, c: I64): (r: I64)
    ensures Val(r) == ((Val(a) * M + Val(b)) / Pow2(c.lo % 64)) % M
  {
    SixBits(c.lo);
    var s := And(c.lo, 63);
    FshrValue(a, b, s);
    if s == 0 then b
    else
      BelowSixtyFour(s);
      var hi, lo := Shl64(a, 64 - s), Shr64(b, s);
      OrBoth(hi, lo, 64 - s)
  }
}
