// binary64 as two words: its fields, the number it stands for, and what it means to round.
// Every finite value is a whole number of units of 2^-1074, so values are integers here.
module FloatFormat {
  import opened Arith
  import opened Scaling
  import opened WordPairs
  import opened Words

  const TWO52: int := 0x10_0000_0000_0000
  const TWO53: int := 0x20_0000_0000_0000
  const EXP_MAX: int := 0x7FF
  const BIAS: int := 1023

  // 2^1074 units make one; 2^2045 units are the last place of the largest finite binade.
  const UNIT_BITS: nat := 1074
  const TOP_STEP: nat := 2045

  datatype F64 = F64(lo: u32, hi: u32)

  // ----- Fields ------------------------------------------------------------------------------

  function Sign(x: F64): (s: u32)
    ensures s < 2
  {
    FieldBits(x.hi);
    And(Shr(x.hi, 31), 1)
  }

  function Exp(x: F64): (e: u32)
    ensures e <= EXP_MAX
  {
    FieldBits(x.hi);
    And(Shr(x.hi, 20), 0x7FF)
  }

  function MHi(x: F64): (m: u32)
    ensures m < 0x10_0000
  {
    FieldBits(x.hi);
    And(x.hi, 0xF_FFFF)
  }

  lemma SmallPowers()
    ensures Pow2(1) == 2 && Pow2(11) == 0x800 && Pow2(20) == 0x10_0000 && Pow2(21) == 0x20_0000
    ensures Pow2(31) == 0x8000_0000 && Pow2(32) == B && Pow2(52) == TWO52 && Pow2(53) == TWO53
  {
    Pow2Values();
    assert Pow2(11) == 8 * Pow2(8);
    assert Pow2(20) == 16 * Pow2(16);
    Pow2Add(32, 20);
  }

  lemma FieldBits(w: u32)
    ensures And(Shr(w, 31), 1) == w / 0x8000_0000 < 2
    ensures And(Shr(w, 20), 0x7FF) == w / 0x10_0000 % 0x800
    ensures And(w, 0xF_FFFF) == w % 0x10_0000
  {
    SmallPowers();
    AndMask(Shr(w, 31), 1);
    AndMask(Shr(w, 20), 11);
    AndMask(w, 20);
  }

  // The fields are the digits of the high word.
  lemma Fields(x: F64)
    ensures x.hi == Sign(x) * 0x8000_0000 + Exp(x) * 0x10_0000 + MHi(x)
  {
    FieldBits(x.hi);
    Digits(x.hi);
  }

  lemma Digits(w: int)
    ensures w == w / 0x8000_0000 * 0x8000_0000 + w / 0x10_0000 % 0x800 * 0x10_0000 + w % 0x10_0000
  {
    DivMod(w, 0x10_0000);
    DivMod(w / 0x10_0000, 0x800);
    DivTwice(w, 0x10_0000, 0x800);
  }

  lemma FieldsUnique(x: F64, s: int, e: int, m: int)
    requires 0 <= s < 2 && 0 <= e <= EXP_MAX && 0 <= m < 0x10_0000
    requires x.hi == s * 0x8000_0000 + e * 0x10_0000 + m
    ensures Sign(x) == s && Exp(x) == e && MHi(x) == m
  {
    FieldBits(x.hi);
    DivModUnique(x.hi, 0x8000_0000, s, e * 0x10_0000 + m);
    DivModUnique(x.hi, 0x10_0000, s * 0x800 + e, m);
    DivModUnique(s * 0x800 + e, 0x800, s, e);
  }

  function Pack(sign: u32, exp: u32, mhi: u32, mlo: u32): (r: F64)
    requires sign < 2
    ensures r.lo == mlo && Sign(r) == sign && Exp(r) == exp % 0x800 && MHi(r) == mhi % 0x10_0000
  {
    PackBits(sign, exp, mhi);
    var r := F64(mlo, Or(Or(Shl(sign, 31), Shl(And(exp, 0x7FF), 20)), And(mhi, 0xF_FFFF)));
    FieldsUnique(r, sign, exp % 0x800, mhi % 0x10_0000);
    r
  }

  lemma PackBits(sign: u32, exp: u32, mhi: u32)
    requires sign < 2
    ensures Or(Or(Shl(sign, 31), Shl(And(exp, 0x7FF), 20)), And(mhi, 0xF_FFFF))
         == sign * 0x8000_0000 + exp % 0x800 * 0x10_0000 + mhi % 0x10_0000 < B
  {
    SmallPowers();
    AndMask(exp, 11);
    AndMask(mhi, 20);
    PlaceField(sign, 31);
    PlaceField(exp % 0x800, 20);
    JoinFields(sign, exp % 0x800, mhi % 0x10_0000);
  }

  lemma PlaceField(f: u32, n: nat)
    requires n < 32 && f * Pow2(n) < B
    ensures Shl(f, n) == f * Pow2(n)
  {
    MulNonneg(f, Pow2(n));
  }

  lemma JoinFields(s: int, e: int, m: int)
    requires 0 <= s < 2 && 0 <= e < 0x800 && 0 <= m < 0x10_0000
    ensures Or(Or(s * 0x8000_0000, e * 0x10_0000), m) == s * 0x8000_0000 + e * 0x10_0000 + m < B
  {
    SmallPowers();
    MultipleMod(0x8000_0000, s);
    OrDisjoint(s * 0x8000_0000, e * 0x10_0000, 31);
    MultipleMod(0x10_0000, s * 0x800 + e);
    OrDisjoint(s * 0x8000_0000 + e * 0x10_0000, m, 20);
  }

  // ----- Classes ------------------------------------------------------------------------------

  function Frac(x: F64): (f: int)
    ensures 0 <= f < TWO52
  {
    MHi(x) * B + x.lo
  }

  predicate IsZero(x: F64) {
    Exp(x) == 0 && MHi(x) == 0 && x.lo == 0
  }

  predicate IsInf(x: F64) {
    Exp(x) == EXP_MAX && MHi(x) == 0 && x.lo == 0
  }

  predicate IsNan(x: F64) {
    Exp(x) == EXP_MAX && (MHi(x) != 0 || x.lo != 0)
  }

  predicate IsFinite(x: F64) {
    Exp(x) != EXP_MAX
  }

  predicate IsNormal(x: F64) {
    0 < Exp(x) < EXP_MAX
  }

  // The quiet NaN, by its words.
  predicate IsQuietNan(x: F64) {
    x.lo == 0 && x.hi == 0x7FF8_0000
  }

  function Nan(): (r: F64)
    ensures IsNan(r) && IsQuietNan(r)
  {
    var r := F64(0, 0x7FF8_0000);
    FieldsUnique(r, 0, EXP_MAX, 0x8_0000);
    r
  }

  function Zero(sign: u32): (r: F64)
    requires sign < 2
    ensures IsZero(r) && Sign(r) == sign
  {
    var r := if sign == 1 then F64(0, 0x8000_0000) else F64(0, 0);
    FieldsUnique(r, sign, 0, 0);
    r
  }

  function Inf(sign: u32): (r: F64)
    requires sign < 2
    ensures IsInf(r) && Sign(r) == sign
  {
    var r := if sign == 1 then F64(0, 0xFFF0_0000) else F64(0, 0x7FF0_0000);
    FieldsUnique(r, sign, EXP_MAX, 0);
    r
  }

  // The classes by their words: as one number, the bits under the sign bit are those of infinity, zero, or
  // larger than infinity's.
  lemma Classes(x: F64)
    ensures IsNan(x) <==> x.hi % 0x8000_0000 * 0x1_0000_0000 + x.lo > 0x7FF0_0000_0000_0000
    ensures IsInf(x) <==> x.lo == 0 && (x.hi == 0x7FF0_0000 || x.hi == 0xFFF0_0000)
    ensures IsZero(x) <==> x.lo == 0 && (x.hi == 0 || x.hi == 0x8000_0000)
    ensures IsNormal(x) <==> 0x10_0000 <= x.hi % 0x8000_0000 < 0x7FF0_0000
    ensures Sign(x) == if x.hi < 0x8000_0000 then 0 else 1
  {
    Fields(x);
    var e, m := Exp(x), MHi(x);
    DivModUnique(x.hi, 0x8000_0000, Sign(x), e * 0x10_0000 + m);
  }

  // The sign, exponent and fraction determine the word pair.
  lemma SameFields(x: F64, y: F64)
    requires Sign(x) == Sign(y) && Exp(x) == Exp(y) && Frac(x) == Frac(y)
    ensures x == y
  {
    DivModUnique(Frac(x), B, MHi(x), x.lo);
    DivModUnique(Frac(y), B, MHi(y), y.lo);
    Fields(x);
    Fields(y);
  }

  // ----- Values -------------------------------------------------------------------------------

  // The significand with its leading bit.
  function Mant(x: F64): (m: int)
    ensures TWO52 <= m < TWO53
  {
    TWO52 + Frac(x)
  }

  // |x| in units of 2^-1074. (An infinity comes out above every finite value.)
  function Mag(x: F64): (m: int)
    ensures m >= 0
  {
    if Exp(x) == 0 then Frac(x)
    else
      ScaledSign(Mant(x), Exp(x) - 1);
      Scaled(Mant(x), Exp(x) - 1)
  }

  function Value(x: F64): int {
    if Sign(x) == 1 then -Mag(x) else Mag(x)
  }

  function Abs(v: int): (a: int)
    ensures a >= 0
  {
    if v < 0 then -v else v
  }

  // ----- Rounding -------------------------------------------------------------------------------

  // r is a finite value nearest to n / d units, and the one with an even significand when
  // two are equally near: roundTiesToEven of section 4.3.1 of IEEE 754-2019.
  ghost predicate NearestEven(r: F64, n: int, d: int) {
    && IsFinite(r)
    && forall c :: IsFinite(c) ==> Closer(r, c, n, d)
  }

  ghost predicate Closer(r: F64, c: F64, n: int, d: int) {
    && Abs(Value(r) * d - n) <= Abs(Value(c) * d - n)
    && (Abs(Value(r) * d - n) == Abs(Value(c) * d - n) && Value(r) != Value(c) ==> r.lo % 2 == 0)
  }

  // r is the finite value nearest to n / d among those no larger in magnitude.
  ghost predicate TowardZero(r: F64, n: int, d: int) {
    && IsFinite(r)
    && Mag(r) * d <= Abs(n) && (Value(r) != 0 ==> (Value(r) < 0 <==> n < 0))
    && forall c :: IsFinite(c) && Mag(c) * d <= Abs(n) ==> Mag(c) <= Mag(r)
  }

  // ----- The grid of 53-bit significands ----------------------------------------------------------

  // A finite magnitude is a whole multiple of 2^e or lies below 2^52 * 2^e.
  lemma OnGrid(c: F64, e: nat) returns (j: int)
    requires IsFinite(c)
    ensures Mag(c) == Scaled(j, e) || Mag(c) < Scaled(TWO52, e)
  {
    var x := Exp(c);
    j := 0;
    if x == 0 {
      ScaledSign(TWO52, e);
    } else if x - 1 >= e {
      j := Scaled(Mant(c), x - 1 - e);
      ScaledAdd(Mant(c), x - 1 - e, e);
    } else {
      ScaledMono(Mant(c), TWO53, x - 1);
      ScaledAdd(TWO52, 1, x - 1);
      assert Scaled(TWO52, 1) == TWO53;
      ScaledGrows(TWO52, x, e);
    }
  }

  // k steps of s are at least as near to n as any other number of steps, when within half a step.
  lemma NearMultiple(k: int, j: int, s: int, n: int)
    requires 1 <= s && 2 * Abs(k * s - n) <= s
    ensures Abs(k * s - n) <= Abs(j * s - n)
    ensures Abs(k * s - n) == Abs(j * s - n) && j != k ==> 2 * Abs(k * s - n) == s
  {
    MulAdd(s, k, j);
    MulAtLeast(s, k - j);
  }

  // ... and nearer than anything below 2^52 steps.
  lemma NearSmall(k: int, c: int, s: int, n: int)
    requires 1 <= s && 2 * Abs(k * s - n) <= s && TWO52 <= k && TWO52 * s <= n && c < TWO52 * s
    ensures Abs(k * s - n) < Abs(c - n)
  {
    MulAdd(s, k, TWO52);
    MulAtLeast(s, k - TWO52);
  }

  // n / d lies at or above 2^52 steps of 2^e, and k is the step it rounds to.
  ghost predicate RoundsTo(n: int, d: int, k: int, e: nat) {
    && 1 <= d && TWO52 <= k && TWO52 * Scaled(d, e) <= n
    && 2 * Abs(k * Scaled(d, e) - n) <= Scaled(d, e)
    && (2 * Abs(k * Scaled(d, e) - n) == Scaled(d, e) ==> k % 2 == 0)
  }

  lemma GridNearest(r: F64, n: int, d: int, k: int, e: nat)
    requires IsFinite(r) && Sign(r) == 0 && RoundsTo(n, d, k, e) && Mag(r) == Scaled(k, e)
    requires k % 2 == 0 ==> r.lo % 2 == 0
    ensures NearestEven(r, n, d)
  {
    forall c | IsFinite(c)
      ensures Closer(r, c, n, d)
    {
      var j := OnGrid(c, e);
      ScaledSign(TWO52, e);
      ScaledSum(0, j, e);
      NearGrid(k, Value(c), if Sign(c) == 0 then j else -j, d, n, e);
    }
  }

  // v is a multiple of 2^e or below 2^52 * 2^e.
  lemma NearGrid(k: int, v: int, j: int, d: int, n: int, e: nat)
    requires RoundsTo(n, d, k, e) && (v == Scaled(j, e) || v < Scaled(TWO52, e))
    ensures Abs(Scaled(k, e) * d - n) <= Abs(v * d - n)
    ensures Abs(Scaled(k, e) * d - n) == Abs(v * d - n) && v != Scaled(k, e) ==> k % 2 == 0
  {
    var s := Scaled(d, e);
    ScaledSign(d, e);
    ScaledMul(k, d, e);
    if v == Scaled(j, e) {
      ScaledMul(j, d, e);
      NearMultiple(k, j, s, n);
    } else {
      MulBelow(v, Scaled(TWO52, e), d);
      ScaledMul(TWO52, d, e);
      NearSmall(k, v * d, s, n);
    }
  }

  // With less than half a unit to go there is nothing nearer.
  lemma IntegerNearest(r: F64, n: int, d: int)
    requires IsFinite(r) && 1 <= d && 2 * Abs(Value(r) * d - n) < d
    ensures NearestEven(r, n, d)
  {
    forall c | IsFinite(c)
      ensures Closer(r, c, n, d)
    {
      NearMultiple(Value(r), Value(c), d, n);
    }
  }

  lemma MulSigns(x: int, y: int)
    ensures (-x) * y == -(x * y)
  {
  }

  lemma MulBelow(x: int, y: int, d: int)
    requires x < y && 1 <= d
    ensures x * d < y * d
  {
    MulAtLeast(d, y - x);
    MulAdd(d, y, x);
  }

  // Both signs alike: negating everything changes nothing.
  lemma NearestNegated(r: F64, m: F64, n: int, d: int)
    requires NearestEven(m, n, d) && IsFinite(r) && Value(r) == -Value(m) && r.lo == m.lo
    ensures NearestEven(r, -n, d)
  {
    forall c | IsFinite(c)
      ensures Closer(r, c, -n, d)
    {
      assert Closer(m, Negated(c), n, d);
      CloserNegated(r, c, m, Negated(c), n, d);
    }
  }

  lemma CloserNegated(r: F64, c: F64, m: F64, f: F64, n: int, d: int)
    requires Closer(m, f, n, d) && r.lo == m.lo && Value(r) == -Value(m) && Value(c) == -Value(f)
    ensures Closer(r, c, -n, d)
  {
    NegatedDistance(Value(m), Value(r), d, n);
    NegatedDistance(Value(f), Value(c), d, n);
  }

  lemma NegatedDistance(v: int, w: int, d: int, n: int)
    requires w == -v
    ensures Abs(w * d - (-n)) == Abs(v * d - n)
  {
    MulSigns(v, d);
  }

  function Negated(x: F64): (r: F64)
    ensures r.lo == x.lo && Exp(r) == Exp(x) && MHi(r) == MHi(x) && Sign(r) == 1 - Sign(x)
    ensures Value(r) == -Value(x)
  {
    Fields(x);
    FlipTop(x.hi);
    var r := F64(x.lo, Xor(x.hi, 0x8000_0000));
    FieldsUnique(r, 1 - Sign(x), Exp(x), MHi(x));
    r
  }

  lemma FlipTop(w: u32)
    ensures Xor(w, 0x8000_0000) == if w >= 0x8000_0000 then w - 0x8000_0000 else w + 0x8000_0000
  {
    SmallPowers();
    if w >= 0x8000_0000 {
      XorLead(w, 31);
    } else {
      XorAbove(w, 31);
    }
  }

  // ----- Truncation on the grid ----------------------------------------------------------------------

  lemma GridTruncates(r: F64, n: int, d: int, k: int, e: nat)
    requires IsFinite(r) && 1 <= d && Mag(r) == Scaled(k, e) && TWO52 <= k
    requires k * Scaled(d, e) <= Abs(n) < (k + 1) * Scaled(d, e)
    requires Sign(r) == if n < 0 then 1 else 0
    ensures TowardZero(r, n, d)
  {
    ScaledMul(k, d, e);
    ScaledSign(d, e);
    forall c | IsFinite(c) && Mag(c) * d <= Abs(n)
      ensures Mag(c) <= Mag(r)
    {
      var j := OnGrid(c, e);
      if Mag(c) == Scaled(j, e) {
        ScaledMul(j, d, e);
        StepsBelow(j, k, Scaled(d, e), Abs(n));
        ScaledMono(j, k, e);
      } else {
        ScaledMono(TWO52, k, e);
      }
    }
  }

  lemma StepsBelow(j: int, k: int, s: int, n: int)
    requires 1 <= s && j * s <= n < (k + 1) * s
    ensures j <= k
  {
    MulAdd(s, j, k + 1);
    MulAtLeast(s, j - (k + 1));
  }

  // ----- Taking apart and putting together -----------------------------------------------------------

  // The significand as a pair, with its leading bit put back.
  function MantHi(x: F64): (m: u32)
    ensures Pair(m, x.lo) == Mant(x)
  {
    SmallPowers();
    OrDisjoint(0x10_0000, MHi(x), 20);
    OrCommutes(0x10_0000, MHi(x));
    Or(MHi(x), 0x10_0000)
  }

  // The result with exponent exp and 53-bit significand hi:lo; out of range it is infinite or zero.
  function PackResult(sign: u32, exp: int, hi: u32, lo: u32): (r: F64)
    requires sign < 2 && TWO52 <= Pair(hi, lo) < TWO53
    ensures exp >= EXP_MAX ==> r == Inf(sign)
    ensures exp <= 0 ==> r == Zero(sign)
    ensures 0 < exp < EXP_MAX ==> Sign(r) == sign && Exp(r) == exp && Frac(r) == Pair(hi, lo) - TWO52
  {
    if exp >= 0x7FF then Inf(sign)
    else if exp <= 0 then Zero(sign)
    else
      DropLeading(hi, lo);
      DivModUnique(exp, 0x800, 0, exp);
      Pack(sign, exp, And(hi, 0xF_FFFF), lo)
  }

  lemma DropLeading(hi: u32, lo: u32)
    requires TWO52 <= Pair(hi, lo) < TWO53
    ensures And(hi, 0xF_FFFF) == hi - 0x10_0000 == And(hi, 0xF_FFFF) % 0x10_0000
  {
    SmallPowers();
    AndMask(hi, 20);
    DivModUnique(hi, 0x10_0000, 1, hi - 0x10_0000);
    DivModUnique(hi - 0x10_0000, 0x10_0000, 0, hi - 0x10_0000);
  }

  lemma XorSigns(x: int, y: int)
    requires 0 <= x < 2 && 0 <= y < 2
    ensures Xor(x, y) == if x == y then 0 else 1
  {
  }

  lemma {:induction false} ScaledPower(i: nat)
    ensures Scaled(1, i) == Pow2(i)
  {
    if i > 0 {
      ScaledPower(i - 1);
    }
  }

  // k steps of 2^z, z counted in units and e - 1 in the result: which outcome.
  lemma Truncates(r: F64, sign: u32, n: int, k: int, z: nat, e: int, units: nat, top: nat)
    requires sign < 2 && TWO52 <= k < TWO53 && Scaled(k, z) <= n < Scaled(k + 1, z) && z == units + e - 1
    requires top == TOP_STEP
    requires e >= EXP_MAX ==> r == Inf(sign)
    requires e <= 0 ==> r == Zero(sign)
    requires 0 < e < EXP_MAX ==> Sign(r) == sign && Exp(r) == e && Frac(r) == k - TWO52
    ensures var d := Scaled(1, units);
            if n < TWO52 * d then r == Zero(sign)
            else if n >= TWO53 * Scaled(d, top) then r == Inf(sign)
            else IsNormal(r) && TowardZero(r, if sign == 1 then -n else n, d)
  {
    Thresholds(n, k, z, e, units, top);
    if 0 < e < EXP_MAX {
      TruncatesInRange(r, sign, n, k, z, e, units);
    }
  }

  lemma Thresholds(n: int, k: int, z: nat, e: int, units: nat, top: nat)
    requires TWO52 <= k < TWO53 && Scaled(k, z) <= n < Scaled(k + 1, z) && z == units + e - 1
    ensures n < TWO52 * Scaled(1, units) <==> e <= 0
    ensures n >= TWO53 * Scaled(Scaled(1, units), top) <==> e - 1 > top
  {
    ScaledMono(TWO52, k, z);
    ScaledMono(k + 1, TWO53, z);
    DoubleStep(z);
    ScaledMul(TWO52, 1, units);
    ScaledAdd(1, units, top);
    ScaledMul(TWO53, 1, units + top);
    DoubleStep(units + top);
    if e <= 0 {
      ScaledGrows(TWO52, z + 1, units);
    } else {
      ScaledGrows(TWO52, units, z);
    }
    if e - 1 > top {
      ScaledGrows(TWO52, units + top + 1, z);
    } else {
      ScaledGrows(TWO53, z, units + top);
    }
  }

  lemma TruncatesInRange(r: F64, sign: u32, n: int, k: int, z: nat, e: int, units: nat)
    requires sign < 2 && TWO52 <= k < TWO53 && Scaled(k, z) <= n < Scaled(k + 1, z) && z == units + e - 1
    requires 0 < e < EXP_MAX && Sign(r) == sign && Exp(r) == e && Frac(r) == k - TWO52
    ensures IsNormal(r) && TowardZero(r, if sign == 1 then -n else n, Scaled(1, units))
  {
    var d := Scaled(1, units);
    ScaledAdd(1, units, e - 1);
    ScaledMul(k, 1, z);
    ScaledMul(k + 1, 1, z);
    ScaledSign(1, units);
    ScaledSign(k, z);
    GridTruncates(r, if sign == 1 then -n else n, d, k, e - 1);
  }

  lemma DoubleStep(z: nat)
    ensures Scaled(TWO52, z + 1) == Scaled(TWO53, z)
  {
    ScaledAdd(TWO52, 1, z);
    assert Scaled(TWO52, 1) == TWO53;
  }
}
