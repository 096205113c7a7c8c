// Multiplication of doubles: the 106-bit product of the significands from four partial
// products, cut off below its leading 53 bits.
module FloatMul {
  import opened Arith
  import opened Scaling
  import opened Words
  import opened WordPairs
  import opened FloatFormat
  import Int64

  // ----- The product ------------------------------------------------------------------------------

  datatype Wide = Wide(w3: u32, w2: u32, w1: u32, w0: u32)

  function WideVal(w: Wide): int {
    ((w.w3 * B + w.w2) * B + w.w1) * B + w.w0
  }

  // Two words added, with the carry out.
  function Carry(x: u32, y: u32): (c: u32)
    ensures Add(x, y) + c * B == x + y && c < 2
  {
    if Add(x, y) < x then 1 else 0
  }

  // The four partial products, accumulated with carries.
  function Product(ahi: u32, alo: u32, bhi: u32, blo: u32): (w: Wide)
    requires ahi < 0x20_0000 && bhi < 0x20_0000
    ensures WideVal(w) == Pair(ahi, alo) * Pair(bhi, blo)
  {
    var p0lo, p0hi := Mul(alo, blo), MulHigh(alo, blo);
    var p1lo, p1hi := Mul(alo, bhi), MulHigh(alo, bhi);
    var p2lo, p2hi := Mul(ahi, blo), MulHigh(ahi, blo);
    var p3lo, p3hi := Mul(ahi, bhi), MulHigh(ahi, bhi);
    var s1a := Add(p0hi, p1lo);
    var c1a := Carry(p0hi, p1lo);
    var w1 := Add(s1a, p2lo);
    var c1b := Carry(s1a, p2lo);
    var s2a := Add(p1hi, p2hi);
    var c2a := Carry(p1hi, p2hi);
    var s2b := Add(s2a, p3lo);
    var c2b := Carry(s2a, p3lo);
    var w2 := Add(s2b, c1a + c1b);
    var c2c := Carry(s2b, c1a + c1b);
    SmallTop(ahi, bhi);
    var w := Wide(Add(p3hi, c2a + c2b + c2c), w2, w1, p0lo);
    FourProducts(ahi, alo, bhi, blo);
    assert w.w3 == p3hi + c2a + c2b + c2c;
    w
  }

  lemma SmallTop(x: u32, y: u32)
    requires x < 0x20_0000 && y < 0x20_0000
    ensures MulHigh(x, y) < 0x400
  {
    MulMono(x, y, 0x20_0000);
    MulMono(0x20_0000, x, 0x20_0000);
    DivBelow(x * y, B, 0x400);
  }

  lemma FourProducts(ahi: u32, alo: u32, bhi: u32, blo: u32)
    ensures Pair(ahi, alo) * Pair(bhi, blo)
         == (ahi * bhi) * (B * B) + (alo * bhi + ahi * blo) * B + alo * blo
  {
    MulAdd(Pair(ahi, alo), bhi * B, blo);
    MulAdd(bhi, ahi * B, alo);
    MulAdd(blo, ahi * B, alo);
  }

  // ----- The leading 53 bits ---------------------------------------------------------------------

  // Bits 32 + s and up of a product below 2^106.
  function TopBits(w: Wide, s: nat): (out: (u32, u32))
    requires 20 <= s <= 21 && w.w3 < 0x400
    ensures Pair(out.0, out.1) == WideVal(w) / (B * Pow2(s))
  {
    Int64.FunnelLeft(w.w3, w.w2, 32 - s);
    Int64.FunnelLeft(w.w2, w.w1, 32 - s);
    TopBitsValue(w, s);
    (Or(Shl(w.w3, 32 - s), Shr(w.w2, s)), Or(Shl(w.w2, 32 - s), Shr(w.w1, s)))
  }

  lemma TopBitsValue(w: Wide, s: nat)
    requires 20 <= s <= 21 && w.w3 < 0x400
    ensures (Shl(w.w3, 32 - s) + Shr(w.w2, s)) * B + (Shl(w.w2, 32 - s) + Shr(w.w1, s))
         == WideVal(w) / (B * Pow2(s))
  {
    var p, q := Pow2(s), Pow2(32 - s);
    var hi := (w.w3 * B + w.w2) * B + w.w1;
    SmallPowers();
    Int64.SplitLeft(w.w2, 32 - s);
    assert 32 - (32 - s) == s;
    NoOverflow(w.w3, s);
    DivMod(w.w2, p);
    DivMod(w.w1, p);
    var k := (w.w3 * q + w.w2 / p) * B + (q * (w.w2 % p) + w.w1 / p);
    KeepTop(w.w3, w.w2, w.w1, p, q, k);
    DivModUnique(hi, p, k, w.w1 % p);
    DivModUnique(WideVal(w), B, hi, w.w0);
    DivTwice(WideVal(w), B, p);
  }

  lemma NoOverflow(x: u32, s: nat)
    requires 20 <= s <= 21 && x < 0x400
    ensures Shl(x, 32 - s) == x * Pow2(32 - s)
  {
    SmallPowers();
    assert Pow2(12) == 2 * Pow2(11) == 0x1000;
    assert 32 - s == 11 || 32 - s == 12;
  }

  lemma KeepTop(w3: u32, w2: u32, w1: u32, p: int, q: int, k: int)
    requires 1 <= p && 1 <= q && q * p == B
    requires k == (w3 * q + w2 / p) * B + (q * (w2 % p) + w1 / p)
    ensures (w3 * B + w2) * B + w1 == p * k + w1 % p
  {
    var d, r, e := w2 / p, w2 % p, w1 / p;
    DivMod(w2, p);
    DivMod(w1, p);
    MulAdd(p, (w3 * q + d) * B, q * r + e);
    MulAdd(p, w3 * q, d);
    MulAdd(p, q * r, e);
    MulSwap(p, w3, q);
    MulSwap(p, q, r);
    assert p * (w3 * q) == w3 * B;
    assert p * (q * r) == B * r;
    assert p * ((w3 * q + d) * B) == (p * (w3 * q + d)) * B;
  }

  // ----- What the result must be -------------------------------------------------------------------

  // The product n / d truncated toward zero: flushed to zero below the smallest normal number,
  // infinite from 2^1024 on.
  ghost predicate MulOutcome(r: F64, sign: u32, n: int, d: int)
    requires sign < 2
  {
    if n < TWO52 * d then r == Zero(sign)
    else if n >= TWO53 * Scaled(d, TOP_STEP) then r == Inf(sign)
    else IsNormal(r) && TowardZero(r, if sign == 1 then -n else n, d)
  }

  // k is the leading 53 bits of the product p, c the number of bits cut off.
  ghost predicate Leading(p: int, k: int, c: nat) {
    TWO52 <= k < TWO53 && Scaled(k, c) <= p < Scaled(k + 1, c)
  }

  // The exact product against the steps of the result's last place.
  lemma ExactProduct(a: F64, b: F64, k: int, c: nat)
    requires IsNormal(a) && IsNormal(b) && Leading(Mant(a) * Mant(b), k, c)
    ensures var n, z := Mag(a) * Mag(b), Exp(a) - 1 + (Exp(b) - 1) + c;
            Scaled(k, z) <= n < Scaled(k + 1, z)
  {
    var x, y, p := Exp(a) - 1, Exp(b) - 1, Mant(a) * Mant(b);
    ScaledMul(Mant(a), Scaled(Mant(b), y), x);
    ScaledMul(Mant(a), Mant(b), y);
    ScaledAdd(p, y, x);
    assert Mag(a) * Mag(b) == Scaled(p, y + x);
    ScaledMono(Scaled(k, c), p, x + y);
    ScaledMono(p, Scaled(k + 1, c), x + y);
    ScaledAdd(k, c, x + y);
    ScaledAdd(k + 1, c, x + y);
  }

  // ----- The code ------------------------------------------------------------------------------------

  ghost predicate MulSpec(a: F64, b: F64, r: F64) {
    var sign := if Sign(a) == Sign(b) then 0 else 1;
    if IsNan(a) || IsNan(b) || (IsInf(a) && IsZero(b)) || (IsZero(a) && IsInf(b)) then IsNan(r) && IsQuietNan(r)
    else if IsInf(a) || IsInf(b) then r == Inf(sign)
    else if IsZero(a) || IsZero(b) then r == Zero(sign)
    else IsNormal(a) && IsNormal(b) ==> MulOutcome(r, sign, Mag(a) * Mag(b), Scaled(1, UNIT_BITS))
  }

  // cvm_d_mul: the exact product, truncated.
  function Multiply(a: F64, b: F64): (r: F64)
    ensures MulSpec(a, b, r)
    ensures IsNan(r) <==> IsNan(a) || IsNan(b) || (IsInf(a) && IsZero(b)) || (IsZero(a) && IsInf(b))
  {
    XorSigns(Sign(a), Sign(b));
    var sign := Xor(Sign(a), Sign(b));
    if IsNan(a) || IsNan(b) then Nan()
    else if IsInf(a) then
      if IsZero(b) then Nan() else Inf(sign)
    else if IsInf(b) then
      if IsZero(a) then Nan() else Inf(sign)
    else if IsZero(a) || IsZero(b) then Zero(sign)
    else MultiplyFinite(a, b, sign)
  }

  // The last part of cvm_d_mul, for operands that are neither zero, infinite nor NaN.
  function MultiplyFinite(a: F64, b: F64, sign: u32): (r: F64)
    requires sign < 2
    ensures !IsNan(r)
    ensures IsNormal(a) && IsNormal(b) ==> MulOutcome(r, sign, Mag(a) * Mag(b), Scaled(1, UNIT_BITS))
  {
    var w := Product(MantHi(a), a.lo, MantHi(b), b.lo);
    TopWord(a, b, w);
    var extra := if And(Shr(w.w3, 9), 1) != 0 then 1 else 0;
    var out := TopBits(w, 20 + extra);
    var exp := Exp(a) + Exp(b) - BIAS + extra;
    LeadingBits(a, b, w, extra, out);
    var r := PackResult(sign, exp, out.0, out.1);
    if IsNormal(a) && IsNormal(b) then
      MultiplyRounds(a, b, sign, Pair(out.0, out.1), extra, r);
      r
    else r
  }

  // The product lies in [2^104, 2^106), and bit 105 tells which half.
  lemma TopWord(a: F64, b: F64, w: Wide)
    requires WideVal(w) == Mant(a) * Mant(b)
    ensures TWO52 * TWO52 <= WideVal(w) < TWO53 * TWO53 && w.w3 < 0x400
    ensures And(Shr(w.w3, 9), 1) != 0 <==> WideVal(w) >= 2 * (TWO52 * TWO52)
  {
    MulMono(Mant(a), TWO52, Mant(b));
    MulMono(TWO52, TWO52, Mant(a));
    MulMono(Mant(a), Mant(b), TWO53 - 1);
    MulMono(TWO53 - 1, Mant(a), TWO53 - 1);
    SmallPowers();
    assert Pow2(9) == 2 * Pow2(8) == 512;
    AndMask(Shr(w.w3, 9), 1);
  }

  // What is cut out are the leading 53 bits.
  lemma LeadingBits(a: F64, b: F64, w: Wide, extra: int, out: (u32, u32))
    requires WideVal(w) == Mant(a) * Mant(b) && TWO52 * TWO52 <= WideVal(w) < TWO53 * TWO53 && 0 <= extra <= 1
    requires extra == 1 <==> WideVal(w) >= 2 * (TWO52 * TWO52)
    requires Pair(out.0, out.1) == WideVal(w) / (B * Pow2(20 + extra))
    ensures Leading(Mant(a) * Mant(b), Pair(out.0, out.1), 52 + extra)
  {
    var c, p := B * Pow2(20 + extra), WideVal(w);
    SmallPowers();
    assert c == if extra == 1 then TWO53 else TWO52;
    DivMod(p, c);
    var k := p / c;
    ScaledPow(k, extra);
    ScaledPow(k + 1, extra);
  }

  // Scaling by the bits cut off is multiplying by 2^52 or 2^53.
  lemma ScaledPow(k: int, extra: int)
    requires 0 <= extra <= 1
    ensures Scaled(k, 52 + extra) == k * (if extra == 1 then TWO53 else TWO52)
  {
    ScaledMul(k, 1, 52 + extra);
    ScaledPower(52 + extra);
    SmallPowers();
  }

  lemma MultiplyRounds(a: F64, b: F64, sign: u32, k: int, extra: int, r: F64)
    requires sign < 2 && IsNormal(a) && IsNormal(b) && 0 <= extra <= 1
    requires Leading(Mant(a) * Mant(b), k, 52 + extra)
    requires var e := Exp(a) + Exp(b) - BIAS + extra;
             && (e >= EXP_MAX ==> r == Inf(sign)) && (e <= 0 ==> r == Zero(sign))
             && (0 < e < EXP_MAX ==> Sign(r) == sign && Exp(r) == e && Frac(r) == k - TWO52)
    ensures MulOutcome(r, sign, Mag(a) * Mag(b), Scaled(1, UNIT_BITS))
  {
    ExactProduct(a, b, k, 52 + extra);
    var n, e, z := Mag(a) * Mag(b), Exp(a) + Exp(b) - BIAS + extra, Exp(a) - 1 + (Exp(b) - 1) + (52 + extra);
    Truncates(r, sign, n, k, z, e, UNIT_BITS, TOP_STEP);
  }
}
