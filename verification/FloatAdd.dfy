// Addition of doubles: the smaller operand aligned to the larger one's exponent by dropping its
// low bits, then the significands added or subtracted and the result renormalised.
module FloatAdd {
  import opened Arith
  import opened Scaling
  import opened Words
  import opened WordPairs
  import opened FloatFormat
  import Int64

  // ----- The magnitudes in order -----------------------------------------------------------------------

  // Exponent and fraction read as one number.
  function MagBits(x: F64): int {
    Exp(x) * TWO52 + Frac(x)
  }

  predicate MagLess(a: F64, b: F64)
    ensures MagLess(a, b) <==> MagBits(a) < MagBits(b)
  {
    ClearSign(a);
    ClearSign(b);
    var ahi, bhi := And(a.hi, 0x7FFF_FFFF), And(b.hi, 0x7FFF_FFFF);
    ahi < bhi || (ahi == bhi && a.lo < b.lo)
  }

  lemma ClearSign(x: F64)
    ensures And(x.hi, 0x7FFF_FFFF) == Exp(x) * 0x10_0000 + MHi(x)
  {
    Fields(x);
    SmallPowers();
    AndMask(x.hi, 31);
    DivModUnique(x.hi, 0x8000_0000, Sign(x), Exp(x) * 0x10_0000 + MHi(x));
  }

  lemma BitsLex(x: int, f: int, y: int, g: int)
    requires x * TWO52 + f <= y * TWO52 + g && 0 <= f < TWO52 && 0 <= g < TWO52
    ensures x < y || (x == y && f <= g)
  {
  }

  // The order of the bits is the order of the magnitudes.
  lemma BitsOrder(a: F64, b: F64)
    requires MagBits(a) < MagBits(b)
    ensures Mag(a) < Mag(b)
  {
    var x, y := Exp(a), Exp(b);
    BitsLex(x, Frac(a), y, Frac(b));
    if x == y {
      SameBinadeOrder(a, b);
    } else {
      BinadeAbove(a, y - 1);
      ScaledMono(TWO52, Mant(b), y - 1);
    }
  }

  lemma SameBinadeOrder(a: F64, b: F64)
    requires Exp(a) == Exp(b) && Frac(a) < Frac(b)
    ensures Mag(a) < Mag(b)
  {
    if Exp(a) > 0 { ScaledMono(Mant(a), Mant(b), Exp(a) - 1); }
  }

  lemma BinadeAbove(a: F64, z: nat)
    requires Exp(a) <= z
    ensures Mag(a) < Scaled(TWO52, z)
  {
    var x := Exp(a);
    ScaledGrows(TWO52, x, z);
    if x == 0 {
      ScaledSign(TWO52, z);
    } else {
      ScaledMono(Mant(a), TWO53, x - 1);
      DoubleStep(x - 1);
    }
  }

  // ----- The leading bit -----------------------------------------------------------------------------------

  ghost predicate IsTop(x: int, n: nat) {
    Pow2(n) <= x < 2 * Pow2(n)
  }

  // One stage of the binary search: with any of the upper s bits set, skip the lower s.
  function Stage(x: u32, s: nat, mask: u32): (r: (nat, u32))
    requires 1 <= s < 32 && mask == (Pow2(s) - 1) * Pow2(s) && 0 < x < Pow2(s) * Pow2(s)
    ensures r.0 <= s && 0 < r.1 < Pow2(s) && r.1 == x / Pow2(r.0)
  {
    StageIs(x, s);
    if And(x, mask) != 0 then (s, Shr(x, s)) else (0, x)
  }

  lemma StageIs(x: u32, s: nat)
    requires 1 <= s < 32 && 0 < x < Pow2(s) * Pow2(s)
    ensures And(x, (Pow2(s) - 1) * Pow2(s)) != 0 <==> x >= Pow2(s)
    ensures x >= Pow2(s) ==> 0 < x / Pow2(s) < Pow2(s)
  {
    AndShifted(x, Pow2(s) - 1, s);
    AndMask(x / Pow2(s), s);
    UpperPart(x, Pow2(s));
  }

  lemma UpperPart(x: int, p: int)
    requires 1 <= p && 0 < x < p * p
    ensures x / p % p == x / p < p
    ensures (x / p) * p != 0 <==> x >= p
    ensures x >= p <==> 0 < x / p
  {
    DivMod(x, p);
    DivBelow(x, p, p);
    DivBounds(x, p);
    DivModUnique(x / p, p, 0, x / p);
    MulAtLeast(p, x / p);
  }

  lemma TopScales(x: u32, s: nat, m: nat)
    requires IsTop(x / Pow2(s), m)
    ensures IsTop(x, s + m)
  {
    var p := Pow2(s);
    DivMod(x, p);
    Pow2Add(s, m);
    MulMono(p, Pow2(m), x / p);
    MulMono(p, x / p, 2 * Pow2(m) - 1);
    MulAdd(p, 2 * Pow2(m), 1);
    MulSwap(p, 2, Pow2(m));
  }

  // The index of the highest bit set, by binary search with masks.
  function TopBit(x: u32): (n: nat)
    requires x > 0
    ensures n < 32 && Pow2(n) <= x < 2 * Pow2(n)
  {
    StagePowers();
    var (n16, x16) := Stage(x, 16, 0xFFFF_0000);
    var (n8, x8) := Stage(x16, 8, 0xFF00);
    var top := TopOfByte(x8);
    TopScales(x16, n8, top);
    TopScales(x, n16, n8 + top);
    n16 + n8 + top
  }

  // The last three stages.
  function TopOfByte(x: u32): (n: nat)
    requires 0 < x < 256
    ensures n < 8 && IsTop(x, n)
  {
    StagePowers();
    var (n4, x4) := Stage(x, 4, 0xF0);
    var (n2, x2) := Stage(x4, 2, 0xC);
    var (n1, x1) := Stage(x2, 1, 0x2);
    assert IsTop(x1, 0);
    TopScales(x2, n1, 0);
    TopScales(x4, n2, n1);
    TopScales(x, n4, n2 + n1);
    n4 + n2 + n1
  }

  lemma StagePowers()
    ensures Pow2(1) == 2 && Pow2(2) == 4 && Pow2(4) == 16 && Pow2(8) == 256 && Pow2(16) == 0x1_0000
  {
    Pow2Values();
  }

  // ----- What the result must be -----------------------------------------------------------------------------

  // The smallest multiple of u from n on.
  function CeilTo(n: int, u: int): (t: int)
    requires 1 <= u
    ensures n <= t < n + u && t % u == 0
  {
    CeilIs(n, u);
    if n % u == 0 then n else n - n % u + u
  }

  lemma CeilIs(n: int, u: int)
    requires 1 <= u
    ensures 0 <= n % u < u && (n - n % u) % u == 0 && (n - n % u + u) % u == 0
  {
    var q := n / u;
    DivMod(n, u);
    MultipleMod(u, q);
    MulAdd(u, q, 1);
    MultipleMod(u, q + 1);
  }

  // A sum of like signs is truncated toward zero, and infinite from 2^1024 on.
  ghost predicate SumOutcome(r: F64, sign: u32, n: int)
    requires sign < 2
  {
    if n >= TWO53 * Scaled(1, TOP_STEP) then r == Inf(sign)
    else IsNormal(r) && TowardZero(r, if sign == 1 then -n else n, 1)
  }

  // A difference n of magnitudes is rounded up to a multiple of the larger operand's last place
  // u; equal magnitudes give +0, and what is then below the smallest normal number is flushed.
  ghost predicate DifferenceOutcome(r: F64, sign: u32, n: int, u: int)
    requires sign < 2 && 1 <= u
  {
    if n == 0 then r == Zero(0)
    else if CeilTo(n, u) < TWO52 then r == Zero(sign)
    else IsNormal(r) && Sign(r) == sign && Mag(r) == CeilTo(n, u)
  }

  // The last place of x, in units.
  ghost function LastPlace(x: F64): (u: int)
    requires IsNormal(x)
    ensures 1 <= u
  {
    ScaledSign(1, Exp(x) - 1);
    Scaled(1, Exp(x) - 1)
  }

  // big is the operand of larger magnitude.
  ghost predicate FiniteSum(big: F64, small: F64, r: F64)
    requires IsNormal(big) && IsNormal(small)
  {
    if Sign(big) == Sign(small) then SumOutcome(r, Sign(big), Mag(big) + Mag(small))
    else DifferenceOutcome(r, Sign(big), Mag(big) - Mag(small), LastPlace(big))
  }

  ghost predicate AddSpec(a: F64, b: F64, r: F64) {
    if IsNan(a) || IsNan(b) || (IsInf(a) && IsInf(b) && Sign(a) != Sign(b)) then IsNan(r) && IsQuietNan(r)
    else if IsInf(a) then r == a
    else if IsInf(b) then r == b
    else if IsZero(a) then r == b
    else if IsZero(b) then r == a
    else IsNormal(a) && IsNormal(b) ==> if Mag(a) < Mag(b) then FiniteSum(b, a, r) else FiniteSum(a, b, r)
  }

  // ----- Aligning ------------------------------------------------------------------------------------------------

  // The smaller significand shifted right to the larger exponent.
  function Align(hi: u32, lo: u32, diff: nat): (r: (u32, u32))
    requires diff < 64
    ensures Pair(r.0, r.1) == Pair(hi, lo) / Pow2(diff)
  {
    Int64.ShrValue(Int64.I64(lo, hi), diff);
    if diff >= 32 then (0, Shr(hi, diff - 32))
    else if diff > 0 then
      Int64.FunnelRight(hi, lo, diff);
      (Shr(hi, diff), Or(Shr(lo, diff), Shl(hi, 32 - diff)))
    else (hi, lo)
  }

  // What the smaller operand contributes: a whole number of the larger one's last places, the
  // rest dropped.
  lemma Aligned(m: int, x: nat, y: nat)
    requires 0 <= m && x <= y
    ensures var k := m / Pow2(y - x); 0 <= k && Scaled(k, y) <= Scaled(m, x) < Scaled(k + 1, y)
  {
    var k := m / Pow2(y - x);
    WholePlaces(m, y - x, k);
    ScaledMono(Scaled(k, y - x), m, x);
    ScaledMono(m, Scaled(k + 1, y - x), x);
    ScaledAdd(k, y - x, x);
    ScaledAdd(k + 1, y - x, x);
  }

  lemma WholePlaces(m: int, n: nat, k: int)
    requires 0 <= m && k == m / Pow2(n)
    ensures 0 <= k && Scaled(k, n) <= m < Scaled(k + 1, n)
  {
    var p := Pow2(n);
    DivMod(m, p);
    DivBounds(m, p);
    ScaledPower(n);
    ScaledMul(k, 1, n);
    ScaledMul(k + 1, 1, n);
    MulAdd(p, k, 1);
  }

  // Too far below to reach the last place at all.
  lemma TooSmall(m: int, x: nat, y: nat)
    requires 0 <= m < TWO53 && x + 53 <= y
    ensures Scaled(m, x) < Scaled(1, y)
  {
    ScaledMono(m, TWO53, x);
    ScaledPower(53);
    SmallPowers();
    ScaledAdd(1, 53, x);
    ScaledGrows(1, x + 53, y);
  }

  // ----- Like signs -------------------------------------------------------------------------------------------------

  // m steps of the larger operand's last place, m with 53 or 54 bits, truncated to 53.
  lemma SumRounds(r: F64, sign: u32, n: int, m: int, y: nat, k: int, e: int)
    requires sign < 2 && TWO52 <= m < 2 * TWO53 && Scaled(m, y) <= n < Scaled(m + 1, y)
    requires if m < TWO53 then k == m && e == y + 1 else k == m / 2 && e == y + 2
    requires e >= EXP_MAX ==> r == Inf(sign)
    requires 0 < e < EXP_MAX ==> Sign(r) == sign && Exp(r) == e && Frac(r) == k - TWO52
    ensures SumOutcome(r, sign, n)
  {
    var z := e - 1;
    if m >= TWO53 {
      HalfSteps(m, y, n);
      assert z == y + 1;
    } else {
      assert z == y;
    }
    assert Scaled(k, z) <= n < Scaled(k + 1, z);
    ScaledSign(TWO52, z);
    ScaledMono(TWO52, k, z);
    Truncates(r, sign, n, k, z, e, 0, TOP_STEP);
  }

  // Half as many steps of twice the size.
  lemma HalfSteps(m: int, y: nat, n: int)
    requires Scaled(m, y) <= n < Scaled(m + 1, y)
    ensures Scaled(m / 2, y + 1) <= n < Scaled(m / 2 + 1, y + 1)
  {
    var k := m / 2;
    ScaledAdd(k, 1, y);
    ScaledAdd(k + 1, 1, y);
    ScaledMono(2 * k, m, y);
    ScaledMono(m + 1, 2 * (k + 1), y);
    assert Scaled(k, 1) == 2 * k && Scaled(k + 1, 1) == 2 * (k + 1);
  }

  method AddMagnitudes(sign: u32, exp: int, ahi: u32, alo: u32, bhi: u32, blo: u32) returns (r: F64)
    requires sign < 2 && 0 <= exp < EXP_MAX && TWO52 <= Pair(ahi, alo) < TWO53 && Pair(bhi, blo) < TWO53
    ensures var m := Pair(ahi, alo) + Pair(bhi, blo);
            var k, e := if m < TWO53 then m else m / 2, if m < TWO53 then exp else exp + 1;
            && (e >= EXP_MAX ==> r == Inf(sign))
            && (e < EXP_MAX ==> Sign(r) == sign && Exp(r) == e && Frac(r) == k - TWO52)
  {
    PairSum(ahi, alo, bhi, blo);
    var rlo := Add(alo, blo);
    var rhi := Add(Add(ahi, bhi), if rlo < alo then 1 else 0);
    var rexp := exp;
    Bit21(rhi);
    if And(rhi, 0x20_0000) != 0 {
      Halved(rhi, rlo);
      rlo := HalfLo(rhi, rlo);
      rhi := Shr(rhi, 1);
      rexp := rexp + 1;
      if rexp >= 0x7FF {
        return Inf(sign);
      }
    }
    r := PackNormal(sign, rexp, rhi, rlo);
  }

  lemma PairSum(ahi: u32, alo: u32, bhi: u32, blo: u32)
    requires Pair(ahi, alo) < TWO53 && Pair(bhi, blo) < TWO53
    ensures var lo := Add(alo, blo);
            Pair(Add(Add(ahi, bhi), if lo < alo then 1 else 0), lo) == Pair(ahi, alo) + Pair(bhi, blo)
  {
  }

  // The significand hi:lo without its leading bit, with sign and exponent.
  function PackNormal(sign: u32, exp: int, hi: u32, lo: u32): (r: F64)
    requires sign < 2 && 0 <= exp < EXP_MAX && TWO52 <= Pair(hi, lo) < TWO53
    ensures Sign(r) == sign && Exp(r) == exp && Frac(r) == Pair(hi, lo) - TWO52
  {
    DropLeading(hi, lo);
    DivModUnique(exp, 0x800, 0, exp);
    Pack(sign, exp, And(hi, 0xF_FFFF), lo)
  }

  // ----- Unlike signs -------------------------------------------------------------------------------------------------

  // m steps of the larger operand's last place, shifted up until the leading bit is bit 52.
  lemma DifferenceRounds(r: F64, sign: u32, n: int, m: int, y: nat, shl: nat)
    requires sign < 2 && 0 <= m && 0 <= n && Scaled(m - 1, y) < n <= Scaled(m, y) && y + 1 < EXP_MAX
    requires if m == 0 then r == Zero(0) else Renormalises(r, sign, y + 1, m, shl)
    ensures 1 <= Scaled(1, y) && DifferenceOutcome(r, sign, n, Scaled(1, y))
  {
    CeilSteps(n, m, y);
    if m > 0 {
      Renormalised(m, y, shl);
    }
  }

  lemma CeilSteps(n: int, m: int, y: nat)
    requires 0 <= m && 0 <= n && Scaled(m - 1, y) < n <= Scaled(m, y)
    ensures 1 <= Scaled(1, y) && CeilTo(n, Scaled(1, y)) == Scaled(m, y) && (n == 0 <==> m == 0)
  {
    ScaledSign(1, y);
    ScaledSign(m, y);
    ScaledSign(m - 1, y);
    ScaledMul(m, 1, y);
    ScaledMul(m - 1, 1, y);
    CeilUnique(n, Scaled(1, y), m);
  }

  lemma Renormalised(m: int, y: nat, shl: nat)
    requires 0 < m && TWO52 <= Scaled(m, shl) < TWO53
    ensures y + 1 <= shl ==> Scaled(m, y) < TWO52
    ensures y + 1 > shl ==> Scaled(Scaled(m, shl), y - shl) == Scaled(m, y) >= TWO52
  {
    if y + 1 <= shl {
      ScaledGrows(m, y + 1, shl);
    } else {
      ScaledAdd(m, shl, y - shl);
      ScaledSign(Scaled(m, shl), y - shl);
    }
  }

  lemma CeilUnique(n: int, u: int, m: int)
    requires 1 <= u && (m - 1) * u < n <= m * u
    ensures CeilTo(n, u) == m * u
  {
    var t := CeilTo(n, u);
    DivMod(t, u);
    var q := t / u;
    MulAdd(u, q, m);
    MulAtLeast(u, q - m);
    MulAdd(u, m, 1);
  }

  // The difference, renormalised.
  method SubtractMagnitudes(sign: u32, exp: int, ahi: u32, alo: u32, bhi: u32, blo: u32)
    returns (r: F64, ghost shl: nat)
    requires sign < 2 && 0 <= exp < EXP_MAX && Pair(bhi, blo) <= Pair(ahi, alo) < TWO53
    ensures var m := Pair(ahi, alo) - Pair(bhi, blo);
            if m == 0 then r == Zero(0) else Renormalises(r, sign, exp, m, shl)
  {
    Subtracted(ahi, alo, bhi, blo);
    var rlo := Sub(alo, blo);
    var rhi := SubHi(ahi, alo, bhi, blo);
    ghost var m := Pair(ahi, alo) - Pair(bhi, blo);
    assert Pair(rhi, rlo) == m && (m == 0 <==> rlo == 0 && rhi == 0);
    r, shl := RenormaliseOrZero(sign, exp, rhi, rlo, m);
  }

  method RenormaliseOrZero(sign: u32, exp: int, hi: u32, lo: u32, ghost m: int) returns (r: F64, ghost shl: nat)
    requires sign < 2 && 0 <= exp < EXP_MAX && 0 <= m < TWO53 && Pair(hi, lo) == m && (m == 0 <==> lo == 0 && hi == 0)
    ensures if m == 0 then r == Zero(0) else Renormalises(r, sign, exp, m, shl)
  {
    if lo == 0 && hi == 0 {
      return Zero(0), 0;
    }
    r, shl := Renormalise(sign, exp, hi, lo);
  }

  // r is m shifted up to 53 bits, with the exponent lowered to match; zero when that runs out.
  ghost predicate Renormalises(r: F64, sign: u32, exp: int, m: int, shl: nat)
    requires sign < 2
  {
    && TWO52 <= Scaled(m, shl) < TWO53
    && if exp <= shl && shl > 0 then r == Zero(sign)
       else Sign(r) == sign && Exp(r) == exp - shl && Frac(r) == Scaled(m, shl) - TWO52
  }

  method Renormalise(sign: u32, exp: int, hi: u32, lo: u32) returns (r: F64, ghost shl: nat)
    requires sign < 2 && 0 <= exp < EXP_MAX && 0 < Pair(hi, lo) < TWO53
    ensures Renormalises(r, sign, exp, Pair(hi, lo), shl)
  {
    var leading := LeadingBit(hi, lo);
    var n := 52 - leading;
    shl := n;
    ShiftUp(Pair(hi, lo), leading);
    var rhi, rlo, rexp := hi, lo, exp;
    if n > 0 {
      var shifted := ShiftPair(hi, lo, n);
      rhi, rlo := shifted.0, shifted.1;
      rexp := exp - n;
      if rexp <= 0 {
        return Zero(sign), shl;
      }
    }
    r := PackNormal(sign, rexp, rhi, rlo);
  }

  // A pair shifted left by n, no bit being lost.
  function ShiftPair(hi: u32, lo: u32, n: nat): (r: (u32, u32))
    requires 0 < n < 64 && Pair(hi, lo) * Pow2(n) < B * B
    ensures Pair(r.0, r.1) == Pair(hi, lo) * Pow2(n)
  {
    ShiftFits(hi, lo, n);
    if n >= 32 then (Shl(lo, n - 32), 0)
    else
      Int64.FunnelLeft(hi, lo, n);
      (Or(Shl(hi, n), Shr(lo, 32 - n)), Shl(lo, n))
  }

  lemma ShiftFits(hi: u32, lo: u32, n: nat)
    requires 0 < n < 64 && Pair(hi, lo) * Pow2(n) < B * B
    ensures n >= 32 ==> Shl(lo, n - 32) * B == Pair(hi, lo) * Pow2(n)
    ensures n < 32 ==> (Shl(hi, n) + Shr(lo, 32 - n)) * B + Shl(lo, n) == Pair(hi, lo) * Pow2(n)
  {
    var v := Pair(hi, lo) * Pow2(n);
    MulNonneg(Pair(hi, lo), Pow2(n));
    DivModUnique(v, B * B, 0, v);
    Int64.ShlValue(Int64.I64(lo, hi), n);
  }

  // The index of the highest bit of a pair.
  function LeadingBit(hi: u32, lo: u32): (n: nat)
    requires 0 < Pair(hi, lo) < TWO53
    ensures n <= 52 && Pow2(n) <= Pair(hi, lo) < 2 * Pow2(n)
  {
    LeadingOf(hi, lo);
    if hi != 0 then 32 + TopBit(hi) else TopBit(lo)
  }

  lemma LeadingOf(hi: u32, lo: u32)
    requires 0 < Pair(hi, lo) < TWO53
    ensures hi != 0 ==> IsTop(Pair(hi, lo), 32 + TopBit(hi)) && TopBit(hi) <= 20
    ensures hi == 0 ==> IsTop(Pair(hi, lo), TopBit(lo))
  {
    if hi != 0 {
      var t := TopBit(hi);
      SmallPowers();
      Pow2Add(32, t);
      if t > 20 {
        Pow2Monotone(21, t);
      }
    }
  }

  // Shifted by what is missing, the leading bit is bit 52.
  lemma ShiftUp(m: int, leading: nat)
    requires leading <= 52 && IsTop(m, leading)
    ensures TWO52 <= Scaled(m, 52 - leading) < TWO53 && m * Pow2(52 - leading) == Scaled(m, 52 - leading)
  {
    var n := 52 - leading;
    SmallPowers();
    ScaledPower(leading);
    ScaledPower(52);
    ScaledPower(n);
    ScaledMul(m, 1, n);
    ScaledAdd(1, leading, n);
    ScaledMono(Scaled(1, leading), m, n);
    ScaledMono(m, 2 * Scaled(1, leading), n);
    ScaledMul(2, Scaled(1, leading), n);
  }

  // ----- The code -----------------------------------------------------------------------------------------

  // What b contributes never exceeds a's significand.
  lemma AlignedBelow(a: F64, b: F64, diff: nat, k: int)
    requires MagBits(b) <= MagBits(a) && diff == Exp(a) - Exp(b) && k == Mant(b) / Pow2(diff)
    ensures 0 <= k <= Mant(a) && k < TWO53
    ensures IsNormal(a) && IsNormal(b) ==>
              Scaled(k, Exp(a) - 1) <= Mag(b) < Scaled(k + 1, Exp(a) - 1)
  {
    AlignedInRange(a, b, diff, k);
    if IsNormal(a) && IsNormal(b) {
      Aligned(Mant(b), Exp(b) - 1, Exp(a) - 1);
    }
  }

  lemma AlignedInRange(a: F64, b: F64, diff: nat, k: int)
    requires MagBits(b) <= MagBits(a) && diff == Exp(a) - Exp(b) && k == Mant(b) / Pow2(diff)
    ensures 0 <= k <= Mant(a) && k < TWO53
  {
    DivBounds(Mant(b), Pow2(diff));
    if diff == 0 {
      BitsLex(Exp(b), Frac(b), Exp(a), Frac(a));
    } else {
      Pow2Monotone(1, diff);
      assert Pow2(1) == 2;
      HalfOrLess(Mant(b), Pow2(diff));
    }
  }

  lemma HalfOrLess(m: int, p: int)
    requires 0 <= m < TWO53 && 2 <= p
    ensures m / p < TWO52
  {
    MulMono(TWO52, 2, p);
    DivBelow(m, p, TWO52);
  }

  lemma SumSteps(a: F64, b: F64, k: int)
    requires IsNormal(a) && Scaled(k, Exp(a) - 1) <= Mag(b) < Scaled(k + 1, Exp(a) - 1)
    ensures var y, m := Exp(a) - 1, Mant(a) + k; Scaled(m, y) <= Mag(a) + Mag(b) < Scaled(m + 1, y)
  {
    ScaledSum(Mant(a), k, Exp(a) - 1);
    ScaledSum(Mant(a), k + 1, Exp(a) - 1);
  }

  lemma DifferenceSteps(a: F64, b: F64, k: int)
    requires IsNormal(a) && Scaled(k, Exp(a) - 1) <= Mag(b) < Scaled(k + 1, Exp(a) - 1)
    ensures var y := Exp(a) - 1; Scaled(Mant(a) - k - 1, y) < Mag(a) - Mag(b) <= Scaled(Mant(a) - k, y)
  {
    ScaledSum(Mant(a), k, Exp(a) - 1);
    ScaledSum(Mant(a), k + 1, Exp(a) - 1);
  }

  // 64 places apart, the smaller operand does not reach the larger one's last place.
  lemma LostInNoise(a: F64, b: F64)
    requires IsFinite(a) && Exp(a) - Exp(b) >= 64 && MagBits(b) <= MagBits(a)
    ensures IsNormal(a) && IsNormal(b) ==> FiniteSum(a, b, a)
  {
    if IsNormal(b) {
      TooSmall(Mant(b), Exp(b) - 1, Exp(a) - 1);
      ScaledSign(0, Exp(a) - 1);
      ScaledSign(Mant(b), Exp(b) - 1);
    }
    if Sign(a) == Sign(b) {
      SumIs(a, b, 0, a);
    } else {
      DifferenceIs(a, b, 0, a, 0);
    }
  }

  lemma ExpOrder(a: F64, b: F64)
    requires MagBits(b) <= MagBits(a)
    ensures Exp(b) <= Exp(a)
  {
    BitsLex(Exp(b), Frac(b), Exp(a), Frac(a));
  }

  // The last part of cvm_d_add: a has the larger magnitude, neither is zero, infinite or NaN.
  method AddFinite(a: F64, b: F64) returns (r: F64)
    requires MagBits(b) <= MagBits(a) && IsFinite(a) && IsFinite(b)
    ensures !IsNan(r)
    ensures IsNormal(a) && IsNormal(b) ==> FiniteSum(a, b, r)
  {
    var subtract := Sign(a) != Sign(b);
    ExpOrder(a, b);
    var diff := Exp(a) - Exp(b);
    if diff >= 64 {
      LostInNoise(a, b);
      return a;
    }
    var bs := Align(MantHi(b), b.lo, diff);
    ghost var k := Pair(bs.0, bs.1);
    AlignedBelow(a, b, diff, k);
    if subtract {
      ghost var shl;
      r, shl := SubtractMagnitudes(Sign(a), Exp(a), MantHi(a), a.lo, bs.0, bs.1);
      DifferenceIs(a, b, k, r, shl);
    } else {
      r := AddMagnitudes(Sign(a), Exp(a), MantHi(a), a.lo, bs.0, bs.1);
      SumIs(a, b, k, r);
    }
  }

  lemma DifferenceIs(a: F64, b: F64, k: int, r: F64, shl: nat)
    requires MagBits(b) <= MagBits(a) && 0 <= k <= Mant(a) && IsFinite(a) && Sign(a) != Sign(b)
    requires IsNormal(a) && IsNormal(b) ==> Scaled(k, Exp(a) - 1) <= Mag(b) < Scaled(k + 1, Exp(a) - 1)
    requires if Mant(a) == k then r == Zero(0) else Renormalises(r, Sign(a), Exp(a), Mant(a) - k, shl)
    ensures IsNormal(a) && IsNormal(b) ==> FiniteSum(a, b, r)
  {
    if IsNormal(a) && IsNormal(b) { NormalDifference(a, b, k, r, shl); }
  }

  lemma NormalDifference(a: F64, b: F64, k: int, r: F64, shl: nat)
    requires MagBits(b) <= MagBits(a) && 0 <= k <= Mant(a) && IsNormal(a) && IsNormal(b) && Sign(a) != Sign(b)
    requires Scaled(k, Exp(a) - 1) <= Mag(b) < Scaled(k + 1, Exp(a) - 1)
    requires if Mant(a) == k then r == Zero(0) else Renormalises(r, Sign(a), Exp(a), Mant(a) - k, shl)
    ensures FiniteSum(a, b, r)
  {
    var n := DifferenceWithin(a, b, k);
    DifferenceFrom(Sign(a), Exp(a), Mant(a), n, k, r, shl);
    UnlikeSum(a, b, r);
  }

  lemma DifferenceWithin(a: F64, b: F64, k: int) returns (n: int)
    requires MagBits(b) <= MagBits(a) && IsNormal(a) && IsNormal(b)
    requires Scaled(k, Exp(a) - 1) <= Mag(b) < Scaled(k + 1, Exp(a) - 1)
    ensures n == Mag(a) - Mag(b) && 0 <= n && 1 <= Exp(a) < EXP_MAX && LastPlace(a) == Scaled(1, Exp(a) - 1)
    ensures Scaled(Mant(a) - k - 1, Exp(a) - 1) < n <= Scaled(Mant(a) - k, Exp(a) - 1)
  {
    n := Mag(a) - Mag(b);
    NotLess(a, b);
    DifferenceSteps(a, b, k);
    NormalExp(a);
  }

  lemma NormalExp(a: F64)
    requires IsNormal(a)
    ensures 1 <= Exp(a) < EXP_MAX && LastPlace(a) == Scaled(1, Exp(a) - 1)
  {
  }

  lemma UnlikeSum(a: F64, b: F64, r: F64)
    requires IsNormal(a) && IsNormal(b) && Sign(a) != Sign(b) && DifferenceOutcome(r, Sign(a), Mag(a) - Mag(b), LastPlace(a))
    ensures FiniteSum(a, b, r)
  {
  }

  lemma DifferenceFrom(sign: u32, e: int, mant: int, n: int, k: int, r: F64, shl: nat)
    requires sign < 2 && 1 <= e < EXP_MAX && 0 <= k <= mant && 0 <= n
    requires Scaled(mant - k - 1, e - 1) < n <= Scaled(mant - k, e - 1)
    requires if mant == k then r == Zero(0) else Renormalises(r, sign, e, mant - k, shl)
    ensures 1 <= Scaled(1, e - 1) && DifferenceOutcome(r, sign, n, Scaled(1, e - 1))
  {
    DifferenceRounds(r, sign, n, mant - k, e - 1, shl);
  }

  lemma SumIs(a: F64, b: F64, k: int, r: F64)
    requires 0 <= k < TWO53 && IsFinite(a) && Sign(a) == Sign(b)
    requires IsNormal(a) && IsNormal(b) ==> Scaled(k, Exp(a) - 1) <= Mag(b) < Scaled(k + 1, Exp(a) - 1)
    requires var m := Mant(a) + k;
             var f, e := if m < TWO53 then m else m / 2, if m < TWO53 then Exp(a) else Exp(a) + 1;
             && (e >= EXP_MAX ==> r == Inf(Sign(a)))
             && (e < EXP_MAX ==> Sign(r) == Sign(a) && Exp(r) == e && Frac(r) == f - TWO52)
    ensures IsNormal(a) && IsNormal(b) ==> FiniteSum(a, b, r)
  {
    if IsNormal(a) && IsNormal(b) {
      var m := Mant(a) + k;
      var f, e := if m < TWO53 then m else m / 2, if m < TWO53 then Exp(a) else Exp(a) + 1;
      SumSteps(a, b, k);
      SumRounds(r, Sign(a), Mag(a) + Mag(b), m, Exp(a) - 1, f, e);
    }
  }

  // cvm_d_add
  method AddDoubles(a0: F64, b0: F64) returns (r: F64)
    ensures AddSpec(a0, b0, r)
    ensures IsNan(r) <==> IsNan(a0) || IsNan(b0) || (IsInf(a0) && IsInf(b0) && Sign(a0) != Sign(b0))
  {
    var a, b := a0, b0;
    if IsNan(a) || IsNan(b) {
      return Nan();
    }
    if IsInf(a) {
      if IsInf(b) && Sign(a) != Sign(b) {
        return Nan();
      }
      return a;
    }
    if IsInf(b) {
      return b;
    }
    if IsZero(a) {
      return b;
    }
    if IsZero(b) {
      return a;
    }
    if MagLess(a, b) {
      BitsOrder(a, b);
      a, b := b, a;
    } else {
      NotLess(a, b);
    }
    r := AddFinite(a, b);
  }

  lemma NotLess(a: F64, b: F64)
    requires MagBits(b) <= MagBits(a)
    ensures Mag(b) <= Mag(a)
  {
    if MagBits(b) < MagBits(a) {
      BitsOrder(b, a);
    } else {
      SameBits(a, b);
    }
  }

  lemma SameBits(a: F64, b: F64)
    requires MagBits(b) == MagBits(a)
    ensures Exp(a) == Exp(b) && Frac(a) == Frac(b) && Mag(a) == Mag(b)
  {
    DivModUnique(MagBits(a), TWO52, Exp(a), Frac(a));
    DivModUnique(MagBits(b), TWO52, Exp(b), Frac(b));
  }

  lemma NormalSum(a: F64, b: F64, r: F64)
    requires AddSpec(a, b, r) && IsNormal(a) && IsNormal(b) && Sign(a) == Sign(b) && Mag(b) <= Mag(a)
    ensures SumOutcome(r, Sign(a), Mag(a) + Mag(b))
  {
  }

  lemma SumWithZero(a: F64, b: F64, r: F64)
    requires AddSpec(a, b, r) && IsNormal(a) && IsZero(b)
    ensures r == a
  {
  }

  // A difference of normal numbers errs by less than the larger one's last place, never comes out
  // too small in magnitude, and is truncated only when it is exact.
  lemma DifferenceError(r: F64, sign: u32, n: int, u: int)
    requires sign < 2 && 1 <= u && n > 0 && CeilTo(n, u) >= TWO52 && DifferenceOutcome(r, sign, n, u)
    ensures n <= Mag(r) < n + u
    ensures TowardZero(r, if sign == 1 then -n else n, 1) <==> n % u == 0
  {
    CeilIs(n, u);
  }

  // Two normal numbers of one sign and magnitude are the same.
  lemma MagDetermines(r: F64, c: F64)
    requires IsNormal(r) && IsNormal(c) && Mag(r) == Mag(c) && Sign(r) == Sign(c)
    ensures r == c
  {
    if MagBits(r) < MagBits(c) {
      BitsOrder(r, c);
    } else if MagBits(c) < MagBits(r) {
      BitsOrder(c, r);
    }
    SameBits(r, c);
    SameFields(r, c);
  }

  // A power of two.
  lemma PowerParts(x: F64, s: int, e: nat)
    requires 0 <= s < 2 && 0 < e < EXP_MAX && x.lo == 0 && x.hi == s * 0x8000_0000 + e * 0x10_0000
    ensures IsNormal(x) && Sign(x) == s && Exp(x) == e && Mag(x) == Scaled(TWO52, e - 1) == Scaled(1, e + 51)
  {
    FieldsUnique(x, s, e, 0);
    SmallPowers();
    ScaledPower(52);
    ScaledAdd(1, 52, e - 1);
  }

  // The magnitudes of a power of two and one 2^54 times smaller, in terms of the smaller.
  lemma FarApart(a: F64, b: F64, e: nat) returns (v: int)
    requires 54 < e < EXP_MAX && a == F64(0, e * 0x10_0000) && b == F64(0, 0x8000_0000 + (e - 54) * 0x10_0000)
    ensures IsNormal(a) && IsNormal(b) && Sign(a) == 0 && Sign(b) == 1
    ensures v > 0 && Mag(b) == v && LastPlace(a) == 4 * v && Mag(a) == TWO52 * (4 * v)
  {
    PowerParts(a, 0, e);
    PowerParts(b, 1, e - 54);
    v := Scaled(1, e - 3);
    FourTimes(e - 3, v);
    ScaledMul(TWO52, 1, e - 1);
  }

  lemma FourTimes(n: nat, v: int)
    requires v == Scaled(1, n)
    ensures v > 0 && Scaled(1, n + 2) == 4 * v
  {
    ScaledAdd(1, n, 2);
    ScaledSign(1, n);
    assert Scaled(v, 2) == 2 * Scaled(v, 1) == 4 * v;
  }

  lemma CeilOfDifference(v: int)
    requires v > 0
    ensures CeilTo(TWO52 * (4 * v) - v, 4 * v) == TWO52 * (4 * v)
  {
    var n := TWO52 * (4 * v) - v;
    assert n == (4 * v) * (TWO52 - 1) + 3 * v;
    DivModUnique(n, 4 * v, TWO52 - 1, 3 * v);
  }

  // A power of two less one 2^54 times smaller comes out as itself, which is more than the difference.
  lemma NotTruncated(a: F64, b: F64, r: F64, e: nat)
    requires 54 < e < EXP_MAX && a == F64(0, e * 0x10_0000) && b == F64(0, 0x8000_0000 + (e - 54) * 0x10_0000)
    requires AddSpec(a, b, r)
    ensures r == a && !TowardZero(r, Value(a) + Value(b), 1)
  {
    var v := FarApart(a, b, e);
    CeilOfDifference(v);
    assert DifferenceOutcome(r, 0, Mag(a) - v, 4 * v);
    MagDetermines(r, a);
  }

  // 1 and -2^-54.
  const ONE: F64 := F64(0, 0x3FF0_0000)
  const TINY: F64 := F64(0, 0xBC90_0000)

  // Added, they give 1, which is not their sum truncated.
  lemma DifferenceNotTruncated(r: F64)
    requires AddSpec(ONE, TINY, r)
    ensures r.lo == 0 && r.hi == 0x3FF0_0000 && Value(r) == Value(ONE) == Scaled(1, 1074)
    ensures Value(TINY) == -Scaled(1, 1020) && !TowardZero(r, Value(ONE) + Value(TINY), 1)
  {
    NotTruncated(ONE, TINY, r, 1023);
    PowerParts(ONE, 0, 1023);
    PowerParts(TINY, 1, 969);
  }
}
