// Conversions between integers and doubles, and comparisons.
module FloatConv {
  import opened Arith
  import opened Scaling
  import opened Words
  import opened WordPairs
  import opened FloatFormat
  import opened FloatMul
  import opened FloatAdd
  import Int64

  // ----- From 32-bit integers -----------------------------------------------------------------------

  // cvm_d_from_u32: exact.
  function FromU32(v: u32): (r: F64)
    ensures Sign(r) == 0 && Mag(r) == Scaled(v, UNIT_BITS)
    ensures v == 0 ==> IsZero(r)
    ensures v > 0 ==> BIAS <= Exp(r) < BIAS + 32
  {
    if v == 0 then
      ScaledSign(0, UNIT_BITS);
      Zero(0)
    else
      var top := TopBit(v);
      LeadingBitOff(v, top);
      var mant := Xor(v, Shl(1, top));
      var shl := 52 - top;
      var m := if shl >= 32 then (Shl(mant, shl - 32), 0) else (Shr(mant, 32 - shl), Shl(mant, shl));
      FractionOf(v, top, mant, m);
      var r := Pack(0, BIAS + top, And(m.0, 0xF_FFFF), m.1);
      FromU32Value(v, top, m, r);
      r
  }

  // One, by its words.
  lemma OneConverts()
    ensures FromU32(1).lo == 0 && FromU32(1).hi == 0x3FF0_0000
  {
    PowerParts(ONE, 0, 1023);
    MagDetermines(FromU32(1), ONE);
  }

  lemma LeadingBitOff(v: u32, top: nat)
    requires IsTop(v, top) && top < 32
    ensures Shl(1, top) == Pow2(top) && Xor(v, Pow2(top)) == v - Pow2(top)
  {
    XorLead(v, top);
  }

  lemma FractionOf(v: u32, top: nat, mant: u32, m: (u32, u32))
    requires IsTop(v, top) && top < 32 && mant == v - Pow2(top)
    requires var n := 52 - top; m == if n >= 32 then (Shl(mant, n - 32), 0) else (Shr(mant, 32 - n), Shl(mant, n))
    ensures Pair(m.0, m.1) == mant * Pow2(52 - top) < TWO52
    ensures TWO52 + Pair(m.0, m.1) == Scaled(v, 52 - top)
  {
    var n := 52 - top;
    SmallPowers();
    Pow2Add(top, n);
    MulBelow(mant, Pow2(top), Pow2(n));
    ShiftFits(0, mant, n);
    if n < 32 {
      ShlZero(n);
    }
    LeadPutBack(v, Pow2(top), Pow2(n));
    ScaledIsProduct(v, n);
  }

  lemma LeadPutBack(v: int, p: int, q: int)
    requires p * q == TWO52
    ensures TWO52 + (v - p) * q == v * q
  {
    MulAdd(q, v, p);
  }

  lemma ScaledIsProduct(v: int, n: nat)
    ensures Scaled(v, n) == v * Pow2(n)
  {
    ScaledPower(n);
    ScaledMul(v, 1, n);
  }

  lemma ShlZero(n: nat)
    requires n < 32
    ensures Shl(0, n) == 0
  {
  }

  lemma FromU32Value(v: u32, top: nat, m: (u32, u32), r: F64)
    requires top < 32 && Pair(m.0, m.1) < TWO52 && TWO52 + Pair(m.0, m.1) == Scaled(v, 52 - top)
    requires r == Pack(0, BIAS + top, And(m.0, 0xF_FFFF), m.1)
    ensures Sign(r) == 0 && Exp(r) == BIAS + top && Mag(r) == Scaled(v, UNIT_BITS)
  {
    FieldFits(m.0, BIAS + top);
    UnitsUp(v, top);
    PackedUnits(r, v, top);
  }

  lemma PackedUnits(r: F64, v: int, top: nat)
    requires top < 32 && Exp(r) == BIAS + top && TWO52 + Frac(r) == Scaled(v, 52 - top)
    requires Scaled(Scaled(v, 52 - top), BIAS + top - 1) == Scaled(v, UNIT_BITS)
    ensures Mag(r) == Scaled(v, UNIT_BITS)
  {
  }

  lemma FieldFits(hi: u32, exp: u32)
    requires hi < 0x10_0000 && exp < 0x800
    ensures And(hi, 0xF_FFFF) == hi == hi % 0x10_0000 && exp % 0x800 == exp
  {
    SmallPowers();
    AndMask(hi, 20);
    DivModUnique(hi, 0x10_0000, 0, hi);
    DivModUnique(exp, 0x800, 0, exp);
  }

  lemma UnitsUp(v: int, top: nat)
    requires top < 32
    ensures Scaled(Scaled(v, 52 - top), BIAS + top - 1) == Scaled(v, UNIT_BITS)
  {
    ScaledAdd(v, 52 - top, BIAS + top - 1);
    assert 52 - top + (BIAS + top - 1) == UNIT_BITS;
  }

  // cvm_d_from_i32: exact, for the most negative number too.
  function FromI32(v: int): (r: F64)
    requires -0x8000_0000 <= v < 0x8000_0000
    ensures Value(r) == Scaled(v, UNIT_BITS) && IsFinite(r)
  {
    NegatedScale(v);
    if v == 0 then Zero(0)
    else if v < 0 then
      MagnitudeOf(v);
      var r := FromU32(Add(Not(v + B), 1));
      NegativeValue(v, r);
      F64(r.lo, Or(r.hi, 0x8000_0000))
    else FromU32(v)
  }

  lemma MagnitudeOf(v: int)
    requires -0x8000_0000 <= v < 0
    ensures Add(Not(v + B), 1) == -v
  {
  }

  lemma NegativeValue(v: int, r: F64)
    requires Sign(r) == 0 && Mag(r) == Scaled(-v, UNIT_BITS)
    ensures Or(r.hi, 0x8000_0000) < B
    ensures var s := F64(r.lo, Or(r.hi, 0x8000_0000)); Value(s) == Scaled(v, UNIT_BITS) && IsFinite(s) == IsFinite(r)
  {
    SetSign(r);
    NegatedScale(v);
  }

  lemma NegatedScale(v: int)
    ensures Scaled(-v, UNIT_BITS) == -Scaled(v, UNIT_BITS) && (v == 0 ==> Scaled(v, UNIT_BITS) == 0)
  {
    ScaledZero(UNIT_BITS);
    ScaledSum(0, v, UNIT_BITS);
  }

  lemma ScaledZero(i: nat)
    ensures Scaled(0, i) == 0
  {
    ScaledSign(0, i);
  }

  lemma SetSign(r: F64)
    requires Sign(r) == 0
    ensures Or(r.hi, 0x8000_0000) == r.hi + 0x8000_0000 < B
    ensures var s := F64(r.lo, r.hi + 0x8000_0000); Value(s) == -Mag(r) && IsFinite(s) == IsFinite(r)
  {
    Fields(r);
    SmallPowers();
    OrCommutes(r.hi, 0x8000_0000);
    OrDisjoint(0x8000_0000, r.hi, 31);
    FieldsUnique(F64(r.lo, r.hi + 0x8000_0000), 1, Exp(r), MHi(r));
  }

  // ----- From 64-bit integers ----------------------------------------------------------------------------

  // The double with significand k and exponent field e.
  function Compose(k: int, e: int): (r: F64)
    requires TWO52 <= k < TWO53 && 1 <= e < EXP_MAX
    ensures IsNormal(r) && Sign(r) == 0 && Exp(r) == e && Mag(r) == Scaled(k, e - 1) && r.lo % 2 == k % 2
  {
    WordParity(k);
    PackNormal(0, e, k / B, k % B)
  }

  lemma WordParity(k: int)
    requires TWO52 <= k < TWO53
    ensures 0 <= k / B < B && Pair(k / B, k % B) == k && k % B % 2 == k % 2
  {
    DivMod(k, B);
    DivModUnique(k, 2, k / B * 0x8000_0000 + k % B / 2, k % B % 2);
  }

  // Truncation of a value that a double has is that value.
  lemma TruncationExact(r: F64, c: F64, n: int, d: int)
    requires TowardZero(r, n, d) && IsFinite(c) && 1 <= d && Mag(c) * d == Abs(n)
    ensures Mag(r) == Mag(c)
  {
    MulAdd(d, Mag(r), Mag(c));
    MulAtLeast(d, Mag(r) - Mag(c));
  }

  // A product that a double has is that double.
  lemma ProductExact(r: F64, c: F64, n: int, d: int)
    requires MulOutcome(r, 0, n, d) && IsNormal(c) && Sign(c) == 0 && 1 <= d && n == Mag(c) * d
    ensures r == c
  {
    ExactInRange(Mag(c), c, d, TOP_STEP);
    TruncationExact(r, c, n, d);
    ScaledSign(Mant(c), Exp(c) - 1);
    MagDetermines(r, c);
  }

  lemma NormalProduct(x: F64, y: F64, r: F64)
    requires MulSpec(x, y, r) && IsNormal(x) && IsNormal(y) && Sign(x) == Sign(y)
    ensures MulOutcome(r, 0, Mag(x) * Mag(y), Scaled(1, UNIT_BITS))
  {
  }

  // Multiplying by 2^16 is exact.
  lemma TimesK16(x: F64, kf: F64)
    requires IsNormal(x) && Sign(x) == 0 && Exp(x) + 16 < EXP_MAX
    requires IsNormal(kf) && Sign(kf) == 0 && Mag(kf) == Scaled(0x1_0000, UNIT_BITS)
    ensures var r := Multiply(x, kf);
            IsNormal(r) && Sign(r) == 0 && Mag(r) == Scaled(Mag(x), 16) && Exp(r) == Exp(x) + 16
  {
    var c := SixteenBinadesUp(x);
    NormalProduct(x, kf, Multiply(x, kf));
    K16Product(Mag(x), UNIT_BITS);
    ScaledSign(1, UNIT_BITS);
    ProductExact(Multiply(x, kf), c, Mag(x) * Mag(kf), Scaled(1, UNIT_BITS));
  }

  // x with its exponent raised by 16.
  function SixteenBinadesUp(x: F64): (c: F64)
    requires IsNormal(x) && Exp(x) + 16 < EXP_MAX
    ensures IsNormal(c) && Sign(c) == 0 && Exp(c) == Exp(x) + 16 && Mag(c) == Scaled(Mag(x), 16)
  {
    ScaledAdd(Mant(x), Exp(x) - 1, 16);
    Compose(Mant(x), Exp(x) + 16)
  }

  lemma K16Product(m: int, units: nat)
    ensures m * Scaled(0x1_0000, units) == Scaled(m, 16) * Scaled(1, units)
  {
    ScaledMul(0x1_0000, 1, units);
    SixteenUp(m);
    MulSwap(m, 0x1_0000, Scaled(1, units));
  }

  lemma SixteenUp(m: int)
    ensures Scaled(m, 16) == m * 0x1_0000
  {
    ScaledIsProduct(m, 16);
    Pow2Values();
  }

  // A normal magnitude is within the thresholds.
  lemma ExactInRange(m: int, c: F64, d: int, top: nat)
    requires IsNormal(c) && m == Mag(c) && 1 <= d && top == TOP_STEP
    ensures TWO52 * d <= m * d < TWO53 * Scaled(d, top)
  {
    var e := Exp(c) - 1;
    ScaledSign(TWO52, e);
    ScaledMono(TWO52, Mant(c), e);
    MulMono(d, TWO52, m);
    ScaledMono(Mant(c), TWO53, e);
    ScaledGrows(TWO53, e, top);
    MulBelow(m, Scaled(TWO53, top), d);
    ScaledMul(TWO53, d, top);
  }

  // cvm_f_from_u64: hi * 2^32 exactly, then one addition, which truncates.
  method FromU64(v: Int64.I64) returns (r: F64)
    ensures TowardZero(r, Scaled(Int64.Val(v), UNIT_BITS), 1) && Sign(r) == 0
  {
    var dlo := FromU32(v.lo);
    if v.hi == 0 {
      ExactIsTruncated(dlo, Scaled(Int64.Val(v), UNIT_BITS));
      return dlo;
    }
    var k16 := FromU32(0x1_0000);
    var dhi := FromU32(v.hi);
    TimesK16(dhi, k16);
    var mid := Multiply(dhi, k16);
    TimesK16(mid, k16);
    var thi := Multiply(mid, k16);
    r := AddDoubles(thi, dlo);
    HighPart(v, dhi, mid, thi);
    SumOfHalves(v, thi, dlo, r);
  }

  // cvm_f_from_i64: the magnitude converted, then the sign.
  method FromI64(v: Int64.I64) returns (r: F64)
    ensures TowardZero(r, Scaled(Int64.SVal(v), UNIT_BITS), 1)
  {
    if Int64.SVal(v) < 0 {
      var m := FromU64(Int64.Neg64(v));
      r := Negated(m);
      NegatedScale(Int64.SVal(v));
      NegatedTruncation(r, m, -Scaled(Int64.SVal(v), UNIT_BITS));
    } else {
      r := FromU64(v);
    }
  }

  lemma NegatedTruncation(r: F64, m: F64, n: int)
    requires TowardZero(m, n, 1) && r == Negated(m)
    ensures TowardZero(r, -n, 1)
  {
    SameMag(r, m);
  }

  lemma SameMag(r: F64, m: F64)
    requires r == Negated(m)
    ensures Mag(r) == Mag(m)
  {
  }

  lemma ExactIsTruncated(r: F64, n: int)
    requires IsFinite(r) && Value(r) == n
    ensures TowardZero(r, n, 1)
  {
  }

  lemma HighPart(v: Int64.I64, dhi: F64, mid: F64, thi: F64)
    requires Mag(dhi) == Scaled(v.hi, UNIT_BITS) && Mag(mid) == Scaled(Mag(dhi), 16) && Mag(thi) == Scaled(Mag(mid), 16)
    ensures Mag(thi) == Scaled(v.hi * B, UNIT_BITS)
  {
    ScaledAdd(Mag(dhi), 16, 16);
    ScaledAdd(v.hi, UNIT_BITS, 32);
    ScaledAdd(v.hi, 32, UNIT_BITS);
    ScaledIsProduct(v.hi, 32);
    Pow2Values();
  }

  lemma SumOfHalves(v: Int64.I64, thi: F64, dlo: F64, r: F64)
    requires v.hi > 0 && IsNormal(thi) && Sign(thi) == 0 && Mag(thi) == Scaled(v.hi * B, UNIT_BITS)
    requires Sign(dlo) == 0 && Mag(dlo) == Scaled(v.lo, UNIT_BITS) && (if v.lo == 0 then IsZero(dlo) else IsNormal(dlo))
    requires AddSpec(thi, dlo, r)
    ensures TowardZero(r, Scaled(Int64.Val(v), UNIT_BITS), 1) && Sign(r) == 0
  {
    if v.lo == 0 {
      ScaledZero(UNIT_BITS);
      SumOfTopHalf(v, thi, dlo, r);
    } else {
      SumOfBoth(v, thi, dlo, r);
    }
  }

  lemma SumOfTopHalf(v: Int64.I64, thi: F64, dlo: F64, r: F64)
    requires v.hi > 0 && IsNormal(thi) && Sign(thi) == 0 && Mag(thi) == Scaled(v.hi * B, UNIT_BITS)
    requires v.lo == 0 && IsZero(dlo) && Sign(dlo) == 0 && AddSpec(thi, dlo, r)
    ensures TowardZero(r, Scaled(Int64.Val(v), UNIT_BITS), 1) && Sign(r) == 0
  {
    SumWithZero(thi, dlo, r);
    assert Int64.Val(v) == v.hi * B;
    ExactIsTruncated(r, Scaled(Int64.Val(v), UNIT_BITS));
  }

  lemma SumOfBoth(v: Int64.I64, thi: F64, dlo: F64, r: F64)
    requires v.hi > 0 && IsNormal(thi) && Sign(thi) == 0 && Mag(thi) == Scaled(v.hi * B, UNIT_BITS)
    requires v.lo != 0 && IsNormal(dlo) && Sign(dlo) == 0 && Mag(dlo) == Scaled(v.lo, UNIT_BITS) && AddSpec(thi, dlo, r)
    ensures TowardZero(r, Scaled(Int64.Val(v), UNIT_BITS), 1) && Sign(r) == 0
  {
    ScaledSum(v.hi * B, v.lo, UNIT_BITS);
    ScaledMono(v.lo, v.hi * B, UNIT_BITS);
    NormalSum(thi, dlo, r);
    Below64Bits(v, UNIT_BITS, TOP_STEP);
    TruncatedSign(r, Scaled(Int64.Val(v), UNIT_BITS));
  }

  lemma TruncatedSign(r: F64, n: int)
    requires n >= 0 && IsNormal(r) && TowardZero(r, n, 1)
    ensures Sign(r) == 0
  {
    ScaledSign(Mant(r), Exp(r) - 1);
  }

  lemma Below64Bits(v: Int64.I64, units: nat, top: nat)
    requires units + 64 <= top
    ensures Scaled(Int64.Val(v), units) < TWO53 * Scaled(1, top)
  {
    Pow2Values();
    ScaledMono(Int64.Val(v), B * B, units);
    ScaledPower(64);
    ScaledAdd(1, 64, units);
    ScaledGrows(1, 64 + units, top);
    ScaledSign(1, top);
  }

  // ----- Is the 64-bit conversion correctly rounded? -------------------------------------------------------

  // The double worth k * 2^s, for a 53-bit k.
  function Integral(k: int, s: nat): (r: F64)
    requires TWO52 <= k <= TWO53 && s < 64
    ensures IsNormal(r) && Sign(r) == 0 && Mag(r) == Scaled(k, UNIT_BITS + s)
    ensures r.lo % 2 == k % 2
  {
    var e := UNIT_BITS + s;
    if k == TWO53 then
      DoubleStep(e);
      var r := Compose(TWO52, e + 2);
      assert Mag(r) == Scaled(TWO52, e + 1);
      r
    else Compose(k, e + 1)
  }

  // v is k steps of 2^s and rem more.
  ghost predicate SplitsAt(v: int, s: nat, k: int, rem: int) {
    && s < 64 && TWO52 <= k < TWO53 && 0 <= rem < Pow2(s) && v == k * Pow2(s) + rem
  }

  lemma InSteps(v: int, s: nat, k: int, rem: int, units: nat)
    requires SplitsAt(v, s, k, rem)
    ensures Scaled(v, units) == k * Scaled(1, units + s) + Scaled(rem, units)
    ensures Scaled(Pow2(s), units) == Scaled(1, units + s)
    ensures 0 <= Scaled(rem, units) < Scaled(1, units + s)
  {
    ScaledSum(k * Pow2(s), rem, units);
    ScaledMul(k, Pow2(s), units);
    ScaledPower(s);
    ScaledAdd(1, s, units);
    ScaledSign(rem, units);
    ScaledMono(rem, Pow2(s), units);
  }

  // What truncation gives.
  lemma TruncatedIs(r: F64, v: int, s: nat, k: int, rem: int)
    requires SplitsAt(v, s, k, rem) && TowardZero(r, Scaled(v, UNIT_BITS), 1) && Sign(r) == 0
    ensures r == Integral(k, s)
  {
    IntegralTruncates(v, s, k, rem);
    IntegralLarge(k, s);
    SameTruncation(r, Integral(k, s), Scaled(v, UNIT_BITS));
  }

  lemma IntegralLarge(k: int, s: nat)
    requires TWO52 <= k <= TWO53 && s < 64
    ensures Mag(Integral(k, s)) >= TWO52
  {
    ScaledSign(TWO52, UNIT_BITS + s);
    ScaledMono(TWO52, k, UNIT_BITS + s);
  }

  lemma SameTruncation(r: F64, c: F64, n: int)
    requires TowardZero(r, n, 1) && TowardZero(c, n, 1) && IsNormal(c) && Mag(c) >= TWO52 && Sign(r) == Sign(c)
    ensures r == c
  {
    assert Mag(c) <= Mag(r);
    assert Mag(r) <= Mag(c);
    assert IsNormal(r);
    MagDetermines(r, c);
  }

  lemma IntegralTruncates(v: int, s: nat, k: int, rem: int)
    requires SplitsAt(v, s, k, rem)
    ensures TowardZero(Integral(k, s), Scaled(v, UNIT_BITS), 1)
  {
    var n, step := Scaled(v, UNIT_BITS), Scaled(1, UNIT_BITS + s);
    InSteps(v, s, k, rem, UNIT_BITS);
    MulAdd(step, k, 1);
    MulNonneg(k, step);
    GridTruncates(Integral(k, s), n, 1, k, UNIT_BITS + s);
  }

  // The exact condition: what is cut off is less than half a last place, or just half with an
  // even significand. The comment on __cvm_f_from_u64 promises correct
  // rounding for every v.
  lemma FromU64NearestIff(r: F64, v: int, s: nat, k: int, rem: int)
    requires SplitsAt(v, s, k, rem) && TowardZero(r, Scaled(v, UNIT_BITS), 1) && Sign(r) == 0
    ensures NearestEven(r, Scaled(v, UNIT_BITS), 1) <==> 2 * rem < Pow2(s) || (2 * rem == Pow2(s) && k % 2 == 0)
  {
    TruncatedIs(r, v, s, k, rem);
    InSteps(v, s, k, rem, UNIT_BITS);
    HalfCompare(rem, Pow2(s), UNIT_BITS);
    var n, step, cut := Scaled(v, UNIT_BITS), Scaled(1, UNIT_BITS + s), Scaled(rem, UNIT_BITS);
    if 2 * cut < step || (2 * cut == step && k % 2 == 0) {
      HereIsNearest(r, n, k, s, step, cut);
    } else {
      NextIsNearer(r, n, k, s, step, cut);
    }
  }

  lemma HalfCompare(rem: int, p: int, units: nat)
    ensures 2 * rem < p <==> 2 * Scaled(rem, units) < Scaled(p, units)
    ensures 2 * rem == p <==> 2 * Scaled(rem, units) == Scaled(p, units)
  {
    ScaledSum(rem, rem, units);
    ScaledMono(2 * rem, p, units);
    ScaledMono(p, 2 * rem, units);
  }

  lemma HereIsNearest(r: F64, n: int, k: int, s: nat, step: int, cut: int)
    requires TWO52 <= k < TWO53 && s < 64 && r == Integral(k, s) && step == Scaled(1, UNIT_BITS + s)
    requires n == k * step + cut && 0 <= cut < step && (2 * cut < step || (2 * cut == step && k % 2 == 0))
    ensures NearestEven(r, n, 1)
  {
    MulMono(step, TWO52, k);
    assert RoundsTo(n, 1, k, UNIT_BITS + s);
    GridNearest(r, n, 1, k, UNIT_BITS + s);
  }

  lemma NextIsNearer(r: F64, n: int, k: int, s: nat, step: int, cut: int)
    requires TWO52 <= k < TWO53 && s < 64 && r == Integral(k, s) && step == Scaled(1, UNIT_BITS + s)
    requires n == k * step + cut && 0 <= cut < step && (2 * cut > step || (2 * cut == step && k % 2 == 1))
    ensures !NearestEven(r, n, 1)
  {
    var c := Integral(k + 1, s);
    ScaledMul(k, 1, UNIT_BITS + s);
    ScaledSum(k, 1, UNIT_BITS + s);
    assert Value(r) == n - cut && Value(c) == n - cut + step;
    CloserIsNearer(r, c, n, cut, step);
  }

  lemma CloserIsNearer(r: F64, c: F64, n: int, cut: int, step: int)
    requires Value(r) == n - cut && Value(c) == n - cut + step && IsFinite(c)
    requires 0 <= cut < step && (2 * cut > step || (2 * cut == step && r.lo % 2 == 1))
    ensures !NearestEven(r, n, 1)
  {
    var v, w := Value(r), Value(c);
    assert Abs(v * 1 - n) == cut && Abs(w * 1 - n) == step - cut && v != w;
    assert !Closer(r, c, n, 1);
  }

  // Values of up to 53 bits come out exactly.
  lemma FromU64Exact(r: F64, v: int)
    requires 0 <= v < TWO53 && TowardZero(r, Scaled(v, UNIT_BITS), 1) && Sign(r) == 0
    ensures Value(r) == Scaled(v, UNIT_BITS) && NearestEven(r, Scaled(v, UNIT_BITS), 1)
  {
    var c := Small(v);
    ScaledSign(v, UNIT_BITS);
    assert Mag(c) == Scaled(v, UNIT_BITS);
    assert Mag(c) <= Mag(r);
    IntegerNearest(r, Scaled(v, UNIT_BITS), 1);
  }

  // 2^53 + 3 lies half way between two doubles; the even one is above, the conversion gives the
  // one below.
  lemma HalfwayNotRounded(r: F64)
    requires TowardZero(r, Scaled(TWO53 + 3, UNIT_BITS), 1) && Sign(r) == 0
    ensures !NearestEven(r, Scaled(TWO53 + 3, UNIT_BITS), 1)
  {
    assert Pow2(1) == 2;
    FromU64NearestIff(r, TWO53 + 3, 1, TWO52 + 1, 1);
  }

  // The double worth v, for v below 2^53.
  function Small(v: int): (r: F64)
    requires 0 <= v < TWO53
    ensures IsFinite(r) && Sign(r) == 0 && Mag(r) == Scaled(v, UNIT_BITS)
  {
    if v == 0 then
      ScaledZero(UNIT_BITS);
      Zero(0)
    else
      var top := LeadingBit(v / B, v % B);
      SmallParts(v, top);
      ShiftUp(v, top);
      ScaledAdd(v, 52 - top, BIAS + top - 1);
      Compose(Scaled(v, 52 - top), BIAS + top)
  }

  lemma SmallParts(v: int, top: nat)
    requires 0 < v < TWO53 && v / B < B && top == LeadingBit(v / B, v % B)
    ensures IsTop(v, top) && top <= 52
  {
    DivMod(v, B);
  }

  // ----- To 32-bit integers --------------------------------------------------------------------------------

  // The whole part of |x|.
  ghost function Whole(x: F64): (t: int)
    ensures 0 <= t
  {
    ScaledSign(1, UNIT_BITS);
    DivBounds(Mag(x), Scaled(1, UNIT_BITS));
    Mag(x) / Scaled(1, UNIT_BITS)
  }

  function Clamp(v: int, low: int, high: int): int {
    if v < low then low else if v > high then high else v
  }

  // The significand shifted down by 52 - e, for an exponent that leaves a whole part of at most a word.
  function WholeBits(x: F64, e: int): (t: u32)
    requires 0 <= e < 32 && Exp(x) == e + BIAS
    ensures t == Whole(x)
  {
    var hi, sh := MantHi(x), 52 - e;
    WholeIs(x, e);
    FitsWord(hi, x.lo, sh);
    if sh >= 32 then Shr(hi, sh - 32) else Or(Shl(hi, 32 - sh), Shr(x.lo, sh))
  }

  lemma FitsWord(hi: u32, lo: u32, sh: nat)
    requires 21 <= sh <= 52 && Pair(hi, lo) < TWO53
    ensures sh >= 32 ==> Shr(hi, sh - 32) == Pair(hi, lo) / Pow2(sh)
    ensures sh < 32 ==> Or(Shl(hi, 32 - sh), Shr(lo, sh)) == Pair(hi, lo) / Pow2(sh) < B
  {
    Int64.ShrValue(Int64.I64(lo, hi), sh);
    if sh < 32 {
      FitsLow(hi, lo, sh, 32 - sh);
    }
  }

  lemma FitsLow(hi: u32, lo: u32, sh: nat, up: nat)
    requires 21 <= sh < 32 && up == 32 - sh && Pair(hi, lo) < TWO53
    requires Shr(hi, sh) * B + (Shr(lo, sh) + Shl(hi, up)) == Pair(hi, lo) / Pow2(sh)
    ensures Or(Shl(hi, up), Shr(lo, sh)) == Pair(hi, lo) / Pow2(sh) < B
  {
    Int64.FunnelLeft(hi, lo, up);
    assert 32 - up == sh;
    SmallPowers();
    Pow2Monotone(21, sh);
    DivModUnique(hi, Pow2(sh), 0, hi);
  }

  lemma WholeIs(x: F64, e: int)
    requires 0 <= e <= 52 && Exp(x) == e + BIAS
    ensures Whole(x) == Mant(x) / Pow2(52 - e)
  {
    var sh, y, m := 52 - e, Exp(x) - 1, Mant(x);
    var q, rem := m / Pow2(sh), m % Pow2(sh);
    DivMod(m, Pow2(sh));
    ScaledPower(sh);
    ScaledAdd(1, sh, y);
    assert sh + y == UNIT_BITS;
    ScaledSum(q * Pow2(sh), rem, y);
    ScaledMul(q, Pow2(sh), y);
    ScaledMono(rem, Pow2(sh), y);
    ScaledSign(rem, y);
    DivModUnique(Mag(x), Scaled(1, UNIT_BITS), q, Scaled(rem, y));
  }

  // Below one there is no whole part, and from 2^e on it is at least 2^e.
  lemma WholeBounds(x: F64, e: nat)
    requires e < 64
    ensures Exp(x) < BIAS ==> Whole(x) == 0
    ensures Exp(x) >= BIAS + e ==> Whole(x) >= Pow2(e)
  {
    var one := Scaled(1, UNIT_BITS);
    ScaledSign(1, UNIT_BITS);
    if Exp(x) < BIAS {
      BinadeAbove(x, BIAS - 1);
      SmallPowers();
      ScaledPower(52);
      ScaledAdd(1, 52, BIAS - 1);
      DivModUnique(Mag(x), one, 0, Mag(x));
    } else if Exp(x) >= BIAS + e {
      var y := Exp(x) - 1;
      SmallPowers();
      ScaledPower(52);
      ScaledPower(e);
      ScaledAdd(1, 52, y);
      ScaledMono(TWO52, Mant(x), y);
      ScaledAdd(1, e, UNIT_BITS);
      ScaledGrows(1, e + UNIT_BITS, 52 + y);
      ScaledMul(Pow2(e), 1, UNIT_BITS);
      QuotientAtLeast(Mag(x), one, Pow2(e));
    }
  }

  lemma QuotientAtLeast(x: int, d: int, q: int)
    requires 1 <= d && q * d <= x
    ensures x / d >= q
  {
    DivMod(x, d);
    MulAdd(d, x / d, q);
    MulAtLeast(d, x / d - q);
  }

  // cvm_d_to_i32: truncated toward zero, saturating; NaN gives 0.
  function ToI32(x: F64): (r: int)
    ensures IsNan(x) ==> r == 0
    ensures !IsNan(x) ==> r == Clamp(if Sign(x) == 1 then -Whole(x) else Whole(x), -0x8000_0000, 0x7FFF_FFFF)
  {
    WholeBounds(x, 31);
    Pow2Values();
    var e := Exp(x) - BIAS;
    if IsNan(x) || Exp(x) == 0 || e < 0 then 0
    else if e >= 31 then if Sign(x) == 1 then -0x8000_0000 else 0x7FFF_FFFF
    else
      BelowWord(x, e);
      var t: int := WholeBits(x, e);
      if Sign(x) == 1 then -t else t
  }

  lemma BelowWord(x: F64, e: int)
    requires 0 <= e < 31 && Exp(x) == e + BIAS
    ensures Whole(x) < 0x8000_0000
  {
    SmallPowers();
    WholeIs(x, e);
    Pow2Add(31, 52 - e);
    Pow2Monotone(53, 31 + (52 - e));
    DivBelow(Mant(x), Pow2(52 - e), 0x8000_0000);
  }

  // cvm_d_to_u32: likewise, negatives giving 0.
  function ToU32(x: F64): (r: u32)
    ensures IsNan(x) ==> r == 0
    ensures !IsNan(x) ==> r == Clamp(if Sign(x) == 1 then -Whole(x) else Whole(x), 0, B - 1)
  {
    WholeBounds(x, 32);
    Pow2Values();
    var e := Exp(x) - BIAS;
    if IsNan(x) || Sign(x) == 1 || Exp(x) == 0 || e < 0 then 0
    else if e >= 32 then B - 1
    else WholeBits(x, e)
  }

  // Every 32-bit integer survives the trip through a double.
  lemma I32RoundTrip(v: int)
    requires -0x8000_0000 <= v < 0x8000_0000
    ensures ToI32(FromI32(v)) == v
  {
    var x := FromI32(v);
    NegatedScale(v);
    ScaledSign(v, UNIT_BITS);
    WholeOf(x, Abs(v), UNIT_BITS);
  }

  lemma WholeOf(x: F64, v: int, units: nat)
    requires Mag(x) == Scaled(v, units) && units == UNIT_BITS
    ensures Whole(x) == v
  {
    ScaledSign(1, units);
    ScaledMul(1, v, units);
    DivModUnique(Scaled(v, units), Scaled(1, units), v, 0);
  }

  // ----- Comparisons ----------------------------------------------------------------------------------------------

  // cvm_d_lt: unordered when either is a NaN, otherwise the order of the values.
  predicate DLess(a: F64, b: F64)
    ensures DLess(a, b) <==> !IsNan(a) && !IsNan(b) && Value(a) < Value(b)
  {
    BitsDecide(a, b);
    if IsNan(a) || IsNan(b) then false
    else if IsZero(a) && IsZero(b) then false
    else if Sign(a) != Sign(b) then Sign(a) > Sign(b)
    else if Sign(a) == 0 then
      if a.hi != b.hi then a.hi < b.hi else a.lo < b.lo
    else
      if a.hi != b.hi then a.hi > b.hi else a.lo > b.lo
  }

  // cvm_d_eq
  predicate DEqual(a: F64, b: F64)
    ensures DEqual(a, b) <==> !IsNan(a) && !IsNan(b) && Value(a) == Value(b)
  {
    BitsDecide(a, b);
    if IsNan(a) || IsNan(b) then false
    else if IsZero(a) && IsZero(b) then true
    else a.lo == b.lo && a.hi == b.hi
  }

  // Comparing the words compares sign and magnitude.
  lemma BitsDecide(a: F64, b: F64)
    ensures Sign(a) == Sign(b) ==>
              ((if a.hi != b.hi then a.hi < b.hi else a.lo < b.lo) <==> Mag(a) < Mag(b))
    ensures a == b <==> Sign(a) == Sign(b) && Mag(a) == Mag(b)
    ensures IsZero(a) <==> Mag(a) == 0
    ensures IsZero(b) <==> Mag(b) == 0
  {
    Fields(a);
    Fields(b);
    NoneIsZero(a);
    NoneIsZero(b);
    if MagBits(a) < MagBits(b) {
      BitsOrder(a, b);
    } else if MagBits(b) < MagBits(a) {
      BitsOrder(b, a);
    } else {
      SameBits(a, b);
      if Sign(a) == Sign(b) {
        SameFields(a, b);
      }
    }
  }

  lemma NoneIsZero(x: F64)
    ensures IsZero(x) <==> Mag(x) == 0
  {
    if Exp(x) > 0 {
      ScaledSign(Mant(x), Exp(x) - 1);
    }
  }
}
