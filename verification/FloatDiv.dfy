// Division of doubles: restoring long division of the significands, then rounding to nearest even.
module FloatDiv {
  import opened Arith
  import opened Scaling
  import opened Words
  import opened WordPairs
  import opened FloatFormat

  // ----- Rounding a quotient with a guard bit and a remainder --------------------------------------

  // The 53-bit quotient that the 54-bit q rounds to, rem being what is left.
  function Rounded(q: int, rem: int): (k: int)
    ensures k == q / 2 || k == q / 2 + 1
  {
    if q % 2 == 1 && (rem != 0 || q / 2 % 2 == 1) then q / 2 + 1 else q / 2
  }

  // Twice n is q steps of s and a part t of another, none of it when rem is zero: n lies within
  // half a step of the rounded quotient, and half way only when that is even.
  lemma RoundedIsNearest(q: int, rem: int, s: int, t: int, n: int)
    requires 2 * n == q * s + t && 0 <= t < s && (t == 0 <==> rem == 0)
    ensures var k := Rounded(q, rem);
            && 2 * Abs(k * s - n) <= s && (2 * Abs(k * s - n) == s ==> k % 2 == 0)
  {
    var k := Rounded(q, rem);
    Steps(k, q, s);
    if q % 2 == 0 {
      assert 2 * (k * s) == q * s;
    } else if k == q / 2 {
      assert 2 * (k * s) + s == q * s;
    } else {
      assert 2 * (k * s) - s == q * s;
    }
  }

  lemma Steps(k: int, q: int, s: int)
    ensures q == 2 * k ==> 2 * (k * s) == q * s
    ensures q == 2 * k + 1 ==> 2 * (k * s) + s == q * s
    ensures q == 2 * k - 1 ==> 2 * (k * s) - s == q * s
  {
    MulSwap(2, k, s);
    MulAdd(s, 2 * k, 1);
  }

  // ----- The exact quotient -----------------------------------------------------------------------------

  // The exponent field the quotient gets before rounding.
  function QuotExp(a: F64, b: F64, adjust: int): int {
    Exp(a) - Exp(b) + BIAS + adjust
  }

  // a's significand, doubled if need be, has q as its quotient by b's to 53 binary places.
  ghost predicate LongDivided(a: F64, b: F64, adjust: int, q: int, rem: int) {
    && IsNormal(a) && IsNormal(b) && -1 <= adjust <= 0
    && Scaled(Mant(a), 53 - adjust) == q * Mant(b) + rem
    && 0 <= rem < Mant(b) && TWO53 <= q < 2 * TWO53
  }

  // The exact quotient a / b is n / d units; in terms of q and the remainder:
  lemma ExactQuotient(a: F64, b: F64, adjust: int, q: int, rem: int, units: nat)
    requires LongDivided(a, b, adjust, q, rem) && units == UNIT_BITS
    ensures var n, e, t := Scaled(Mag(a), units), QuotExp(a, b, adjust), q * Mant(b) + rem;
            && (e >= 1 ==> 2 * n == Scaled(t, Exp(b) - 1 + (e - 1)))
            && (e <= 0 ==> Scaled(2 * n, 1 - e) == Scaled(t, Exp(b) - 1))
  {
    var m, x, y, k, e := Mant(a), Exp(a) - 1, Exp(b) - 1, 53 - adjust, QuotExp(a, b, adjust);
    ScaledAdd(m, x, units);
    assert 2 * Scaled(m, x + units) == Scaled(m, x + units + 1);
    if e >= 1 {
      ScaledAdd(m, k, y + (e - 1));
      assert x + units + 1 == k + (y + (e - 1));
    } else {
      ScaledAdd(m, x + units + 1, 1 - e);
      ScaledAdd(m, k, y);
      assert x + units + 1 + (1 - e) == k + y;
    }
  }

  // q * b + rem scaled: q steps of b's scaling and part of another.
  lemma QuotientSpan(q: int, b: int, rem: int, i: nat)
    requires 0 <= rem < b && TWO53 <= q < 2 * TWO53
    ensures var t, s := Scaled(q * b + rem, i), Scaled(b, i);
            && t == q * s + Scaled(rem, i) && 0 <= Scaled(rem, i) < s && (Scaled(rem, i) == 0 <==> rem == 0)
            && TWO53 * s <= t < 2 * TWO53 * s
            && (t < (2 * TWO53 - 1) * s <==> q < 2 * TWO53 - 1)
  {
    var s := Scaled(b, i);
    ScaledSum(q * b, rem, i);
    ScaledMul(q, b, i);
    ScaledMono(rem, b, i);
    ScaledSign(rem, i);
    MulMono(s, TWO53, q);
    MulMono(s, q, 2 * TWO53 - 1);
    MulMono(s, q, if q < 2 * TWO53 - 1 then 2 * TWO53 - 2 else q);
  }

  // ----- What the result must be ----------------------------------------------------------------------------

  // The quotient n / d rounded: flushed to zero when it rounds below the smallest normal number,
  // infinite when it rounds above the largest, and nearest-even otherwise.
  ghost predicate DivOutcome(r: F64, sign: u32, n: int, d: int)
    requires sign < 2
  {
    if 4 * n < (2 * TWO53 - 1) * d then r == Zero(sign)
    else if 2 * n >= (2 * TWO53 - 1) * Scaled(d, TOP_STEP) then r == Inf(sign)
    else IsNormal(r) && NearestEven(r, if sign == 1 then -n else n, d)
  }

  // Below the normal range, e <= 0: which side of the threshold.
  lemma Underflows(n: int, q: int, b: int, rem: int, y: nat, e: int, top: nat)
    requires e <= 0 && Scaled(2 * n, 1 - e) == Scaled(q * b + rem, y)
    requires 0 <= rem < b && TWO53 <= q < 2 * TWO53
    ensures 4 * n < (2 * TWO53 - 1) * Scaled(b, y) <==> e < 0 || q < 2 * TWO53 - 1
    ensures 2 * n < (2 * TWO53 - 1) * Scaled(Scaled(b, y), top)
    ensures e == 0 ==> 4 * n < 2 * TWO53 * Scaled(b, y)
  {
    QuotientSpan(q, b, rem, y);
    ScaledSign(Scaled(b, y), top);
    assert Scaled(2 * n, 1) == 4 * n;
    if e < 0 {
      assert Scaled(2 * n, 2) == 8 * n;
      ScaledAdd(2 * n, 2, -1 - e);
      ScaledSign(8 * n, -1 - e);
    }
  }

  // In or above the normal range, e >= 1: which side of the other threshold.
  lemma Overflows(n: int, q: int, b: int, rem: int, y: nat, e: int, top: nat)
    requires e >= 1 && 2 * n == Scaled(q * b + rem, y + (e - 1))
    requires 0 <= rem < b && TWO53 <= q < 2 * TWO53
    ensures 4 * n >= (2 * TWO53 - 1) * Scaled(b, y)
    ensures 2 * n >= (2 * TWO53 - 1) * Scaled(Scaled(b, y), top)
            <==> e - 1 > top || (e - 1 == top && q == 2 * TWO53 - 1)
  {
    var d := Scaled(b, y);
    QuotientSpan(q, b, rem, y + (e - 1));
    ScaledAdd(b, y, e - 1);
    ScaledSign(b, y);
    ScaledSign(d, e - 1);
    BesideTop(d, e - 1, top);
    CompareSteps(2 * n, Scaled(d, e - 1), Scaled(d, top), d, q);
  }

  // t is q steps of s, and the threshold counts steps of s1.
  lemma CompareSteps(t: int, s: int, s1: int, d: int, q: int)
    requires TWO53 * s <= t < 2 * TWO53 * s && 1 <= d <= s && d <= s1
    requires t < (2 * TWO53 - 1) * s <==> q < 2 * TWO53 - 1
    requires q < 2 * TWO53 && (s == s1 || 2 * s <= s1 || 2 * s1 <= s)
    ensures 2 * t >= (2 * TWO53 - 1) * d
    ensures t >= (2 * TWO53 - 1) * s1 <==> 2 * s1 <= s || (s == s1 && q == 2 * TWO53 - 1)
  {
  }

  // One place up or down is a factor of two.
  lemma BesideTop(d: int, i: nat, top: nat)
    requires 1 <= d
    ensures i > top ==> Scaled(d, i) >= 2 * Scaled(d, top)
    ensures i < top ==> 2 * Scaled(d, i) <= Scaled(d, top)
    ensures d <= Scaled(d, top)
  {
    ScaledSign(d, top);
    if i > top {
      ScaledGrows(d, top + 1, i);
    } else if i < top {
      ScaledGrows(d, i + 1, top);
    }
  }

  // The rounded significand k and exponent e packed: k may have reached 2^53.
  ghost predicate PacksTo(r: F64, sign: u32, k: int, e: int)
    requires sign < 2
  {
    var e1 := if k == TWO53 then e + 1 else e;
    if e1 >= EXP_MAX then r == Inf(sign)
    else if e1 <= 0 then r == Zero(sign)
    else Sign(r) == sign && Exp(r) == e1 && Frac(r) == (if k == TWO53 then 0 else k - TWO52)
  }

  lemma PacksMag(r: F64, sign: u32, k: int, e: int)
    requires sign < 2 && PacksTo(r, sign, k, e) && TWO52 <= k <= TWO53
    requires 1 <= e && (if k == TWO53 then e + 1 else e) < EXP_MAX
    ensures IsNormal(r) && Mag(r) == Scaled(k, e - 1) && Sign(r) == sign && (k % 2 == 0 ==> r.lo % 2 == 0)
  {
    FracParity(r);
    SameParity(k);
    TopSignificand(e);
  }

  lemma SameParity(k: int)
    ensures (k - TWO52) % 2 == k % 2
  {
  }

  lemma TopSignificand(e: int)
    requires 1 <= e
    ensures Scaled(TWO52, e) == Scaled(TWO53, e - 1)
  {
    ScaledAdd(TWO52, 1, e - 1);
    assert Scaled(TWO52, 1) == TWO53;
  }

  lemma FracParity(r: F64)
    ensures Frac(r) % 2 == r.lo % 2
  {
  }

  // What the division computes meets the specification.
  lemma DivIsRounded(a: F64, b: F64, adjust: int, q: int, rem: int, r: F64, sign: u32)
    requires LongDivided(a, b, adjust, q, rem) && sign < 2
    requires PacksTo(r, sign, Rounded(q, rem), QuotExp(a, b, adjust))
    ensures DivOutcome(r, sign, Scaled(Mag(a), UNIT_BITS), Mag(b))
  {
    var n := Scaled(Mag(a), UNIT_BITS);
    ExactQuotient(a, b, adjust, q, rem, UNIT_BITS);
    if QuotExp(a, b, adjust) <= 0 {
      DivMeetsLow(a, b, adjust, q, rem, r, sign, n, TOP_STEP);
    } else {
      DivMeetsHigh(a, b, adjust, q, rem, r, sign, n, TOP_STEP);
    }
  }

  lemma DivMeetsLow(a: F64, b: F64, adjust: int, q: int, rem: int, r: F64, sign: u32, n: int, top: nat)
    requires LongDivided(a, b, adjust, q, rem) && sign < 2 && QuotExp(a, b, adjust) <= 0
    requires Scaled(2 * n, 1 - QuotExp(a, b, adjust)) == Scaled(q * Mant(b) + rem, Exp(b) - 1)
    requires PacksTo(r, sign, Rounded(q, rem), QuotExp(a, b, adjust))
    ensures 2 * n < (2 * TWO53 - 1) * Scaled(Mag(b), top)
    ensures 4 * n < (2 * TWO53 - 1) * Mag(b) ==> r == Zero(sign)
    ensures 4 * n >= (2 * TWO53 - 1) * Mag(b) ==> IsNormal(r) && NearestEven(r, if sign == 1 then -n else n, Mag(b))
  {
    var e := QuotExp(a, b, adjust);
    RoundedRange(q, rem);
    Underflows(n, q, Mant(b), rem, Exp(b) - 1, e, top);
    if 4 * n >= (2 * TWO53 - 1) * Mag(b) {
      ScaledSign(Mant(b), Exp(b) - 1);
      SmallestNormal(r, sign, n, Mag(b));
    }
  }

  lemma DivInRange(a: F64, b: F64, adjust: int, q: int, rem: int, r: F64, sign: u32, n: int, e: int)
    requires LongDivided(a, b, adjust, q, rem) && sign < 2 && e >= 1
    requires 2 * n == Scaled(q * Mant(b) + rem, Exp(b) - 1 + (e - 1))
    requires PacksTo(r, sign, Rounded(q, rem), e) && (if Rounded(q, rem) == TWO53 then e + 1 else e) < EXP_MAX
    ensures IsNormal(r) && NearestEven(r, if sign == 1 then -n else n, Mag(b))
  {
    RoundedRange(q, rem);
    PacksMag(r, sign, Rounded(q, rem), e);
    QuotientRounds(a, b, adjust, q, rem, n, e);
    SignedNearest(r, sign, n, Mag(b), Rounded(q, rem), e - 1);
  }

  lemma DivMeetsHigh(a: F64, b: F64, adjust: int, q: int, rem: int, r: F64, sign: u32, n: int, top: nat)
    requires LongDivided(a, b, adjust, q, rem) && sign < 2 && QuotExp(a, b, adjust) >= 1 && top == TOP_STEP
    requires 2 * n == Scaled(q * Mant(b) + rem, Exp(b) - 1 + (QuotExp(a, b, adjust) - 1))
    requires PacksTo(r, sign, Rounded(q, rem), QuotExp(a, b, adjust))
    ensures 4 * n >= (2 * TWO53 - 1) * Mag(b)
    ensures 2 * n >= (2 * TWO53 - 1) * Scaled(Mag(b), top) ==> r == Inf(sign)
    ensures 2 * n < (2 * TWO53 - 1) * Scaled(Mag(b), top) ==>
              IsNormal(r) && NearestEven(r, if sign == 1 then -n else n, Mag(b))
  {
    var e := QuotExp(a, b, adjust);
    RoundedRange(q, rem);
    Overflows(n, q, Mant(b), rem, Exp(b) - 1, e, top);
    ExpThreshold(q, rem, e, top);
    if 2 * n < (2 * TWO53 - 1) * Scaled(Mag(b), top) {
      DivInRange(a, b, adjust, q, rem, r, sign, n, e);
    }
  }

  lemma RoundedRange(q: int, rem: int)
    requires TWO53 <= q < 2 * TWO53
    ensures TWO52 <= Rounded(q, rem) <= TWO53
    ensures Rounded(q, rem) == TWO53 <==> q == 2 * TWO53 - 1
  {
  }

  lemma ExpThreshold(q: int, rem: int, e: int, top: nat)
    requires TWO53 <= q < 2 * TWO53 && top == TOP_STEP
    ensures e - 1 > top || (e - 1 == top && q == 2 * TWO53 - 1)
            <==> (if Rounded(q, rem) == TWO53 then e + 1 else e) >= EXP_MAX
  {
    RoundedRange(q, rem);
  }

  lemma QuotientRounds(a: F64, b: F64, adjust: int, q: int, rem: int, n: int, e: int)
    requires LongDivided(a, b, adjust, q, rem) && e >= 1
    requires 2 * n == Scaled(q * Mant(b) + rem, Exp(b) - 1 + (e - 1))
    ensures RoundsTo(n, Mag(b), Rounded(q, rem), e - 1)
  {
    var m, y := Mant(b), Exp(b) - 1;
    QuotientSpan(q, m, rem, y + (e - 1));
    ScaledAdd(m, y, e - 1);
    ScaledSign(m, y);
    RoundedIsNearest(q, rem, Scaled(m, y + (e - 1)), Scaled(rem, y + (e - 1)), n);
  }

  lemma SignedNearest(r: F64, sign: u32, n: int, d: int, k: int, e: nat)
    requires IsFinite(r) && Sign(r) == sign < 2 && RoundsTo(n, d, k, e) && Mag(r) == Scaled(k, e)
    requires k % 2 == 0 ==> r.lo % 2 == 0
    ensures NearestEven(r, if sign == 1 then -n else n, d)
  {
    if sign == 1 {
      var m := Negated(r);
      GridNearest(m, n, d, k, e);
      NearestNegated(r, m, n, d);
    } else {
      GridNearest(r, n, d, k, e);
    }
  }

  // Rounding up to the smallest normal number from just below it.
  lemma SmallestNormal(r: F64, sign: u32, n: int, d: int)
    requires sign < 2 && Sign(r) == sign && Exp(r) == 1 && Frac(r) == 0
    requires (2 * TWO53 - 1) * d <= 4 * n < 2 * TWO53 * d && 1 <= d
    ensures IsNormal(r) && NearestEven(r, if sign == 1 then -n else n, d)
  {
    assert Mag(r) == TWO52;
    HalfUnit(Value(r), n, d);
    IntegerNearest(r, if sign == 1 then -n else n, d);
  }

  lemma HalfUnit(v: int, n: int, d: int)
    requires (2 * TWO53 - 1) * d <= 4 * n < 2 * TWO53 * d && 1 <= d
    ensures v == TWO52 ==> 2 * Abs(v * d - n) < d
    ensures v == -TWO52 ==> 2 * Abs(v * d - (-n)) < d
  {
  }

  // ----- The code ------------------------------------------------------------------------------------------

  // Rounds the 54-bit quotient to 53 bits; the exponent goes up when that overflows.
  method RoundRne(qh0: u32, ql0: u32, exp0: int, rlo: u32, rhi: u32) returns (qh: u32, ql: u32, exp: int)
    requires TWO53 <= Pair(qh0, ql0) < 2 * TWO53
    ensures var k := Rounded(Pair(qh0, ql0), Pair(rhi, rlo));
            if k == TWO53 then Pair(qh, ql) == TWO52 && exp == exp0 + 1 else Pair(qh, ql) == k && exp == exp0
  {
    LowBit(qh0, ql0);
    OrIsZero(rlo, rhi);
    var guard := And(ql0, 1);
    var sticky := if Or(rlo, rhi) != 0 then 1 else 0;
    Halved(qh0, ql0);
    ql := HalfLo(qh0, ql0);
    qh := Shr(qh0, 1);
    exp := exp0;
    LowBit(qh, ql);
    var lsb := And(ql, 1);
    if guard != 0 && (sticky != 0 || lsb != 0) {
      Incremented(qh, ql);
      var newLo := Add(ql, 1);
      var carry := if newLo == 0 then 1 else 0;
      ql := newLo;
      qh := Add(qh, carry);
      Bit21(qh);
      if And(qh, 0x20_0000) != 0 {
        Halved(qh, ql);
        ql := HalfLo(qh, ql);
        qh := Shr(qh, 1);
        exp := exp + 1;
      }
    }
  }

  lemma Incremented(hi: u32, lo: u32)
    requires Pair(hi, lo) < TWO53
    ensures var lo1 := Add(lo, 1);
            Pair(Add(hi, if lo1 == 0 then 1 else 0), lo1) == Pair(hi, lo) + 1
  {
  }

  // One step: remainder and quotient doubled, and the divisor subtracted where it fits.
  method DivideStep(rhi0: u32, rlo0: u32, qhi0: u32, qlo0: u32, bhi: u32, blo: u32)
    returns (rhi: u32, rlo: u32, qhi: u32, qlo: u32, ghost bit: int)
    requires Pair(rhi0, rlo0) < Pair(bhi, blo) < TWO53 && Pair(qhi0, qlo0) < 2 * TWO53
    ensures 0 <= bit <= 1 && Pair(qhi, qlo) == 2 * Pair(qhi0, qlo0) + bit
    ensures Pair(rhi, rlo) == 2 * Pair(rhi0, rlo0) - (if bit == 1 then Pair(bhi, blo) else 0) < Pair(bhi, blo)
  {
    Doubled(rhi0, rlo0);
    Doubled(qhi0, qlo0);
    rhi, rlo := DoubleHi(rhi0, rlo0), Shl(rlo0, 1);
    qhi, qlo := DoubleHi(qhi0, qlo0), Shl(qlo0, 1);
    bit := 0;
    if !Less(rhi, rlo, bhi, blo) {
      Subtracted(rhi, rlo, bhi, blo);
      rhi, rlo := SubHi(rhi, rlo, bhi, blo), Sub(rlo, blo);
      SetLowBit(qlo);
      qlo := Or(qlo, 1);
      bit := 1;
    }
  }

  // 53 steps of restoring division: a quotient with 53 places after its leading one.
  method LongDivide(ahi: u32, alo: u32, bhi: u32, blo: u32) returns (qhi: u32, qlo: u32, rhi: u32, rlo: u32)
    requires Pair(bhi, blo) <= Pair(ahi, alo) < 2 * Pair(bhi, blo) && Pair(bhi, blo) < TWO53
    ensures Scaled(Pair(ahi, alo), 53) == Pair(qhi, qlo) * Pair(bhi, blo) + Pair(rhi, rlo)
    ensures Pair(rhi, rlo) < Pair(bhi, blo) && TWO53 <= Pair(qhi, qlo) < 2 * TWO53
  {
    Subtracted(ahi, alo, bhi, blo);
    rlo := Sub(alo, blo);
    rhi := SubHi(ahi, alo, bhi, blo);
    qlo, qhi := 1, 0;
    ghost var av, bv := Pair(ahi, alo), Pair(bhi, blo);
    var i := 0;
    while i < 53
      invariant 0 <= i <= 53 && Pair(rhi, rlo) < bv
      invariant Scaled(av, i) == Pair(qhi, qlo) * bv + Pair(rhi, rlo)
      invariant Scaled(1, i) <= Pair(qhi, qlo) < 2 * Scaled(1, i)
    {
      SmallQuotient(i);
      ghost var bit;
      StepDouble(Pair(qhi, qlo), bv);
      rhi, rlo, qhi, qlo, bit := DivideStep(rhi, rlo, qhi, qlo, bhi, blo);
      i := i + 1;
    }
    SmallQuotient(53);
  }

  lemma StepDouble(q: int, b: int)
    ensures (2 * q) * b == 2 * (q * b) && (2 * q + 1) * b == 2 * (q * b) + b
  {
  }

  // The quotient so far fits well inside two words.
  lemma SmallQuotient(i: nat)
    requires i <= 53
    ensures Scaled(1, i) <= TWO53 && (i == 53 ==> Scaled(1, i) == TWO53)
  {
    ScaledGrows(1, i, 53);
    SmallPowers();
    ScaledPower(53);
  }

  // A quotient with a sign.
  ghost predicate DivSpec(a: F64, b: F64, r: F64) {
    var sign := if Sign(a) == Sign(b) then 0 else 1;
    if IsNan(a) || IsNan(b) || (IsInf(a) && IsInf(b)) || (IsZero(a) && IsZero(b)) then IsNan(r) && IsQuietNan(r)
    else if IsInf(a) || IsZero(b) then r == Inf(sign)
    else if IsInf(b) || IsZero(a) then r == Zero(sign)
    else IsNormal(a) && IsNormal(b) ==> DivOutcome(r, sign, Scaled(Mag(a), UNIT_BITS), Mag(b))
  }

  // cvm_d_div: the exact quotient, correctly rounded.
  method Div(a: F64, b: F64) returns (r: F64)
    ensures DivSpec(a, b, r)
    ensures IsNan(r) <==> IsNan(a) || IsNan(b) || (IsInf(a) && IsInf(b)) || (IsZero(a) && IsZero(b))
  {
    if IsNan(a) || IsNan(b) {
      return Nan();
    }
    XorSigns(Sign(a), Sign(b));
    var sign := Xor(Sign(a), Sign(b));
    if IsInf(a) {
      return if IsInf(b) then Nan() else Inf(sign);
    }
    if IsInf(b) {
      return Zero(sign);
    }
    if IsZero(b) {
      return if IsZero(a) then Nan() else Inf(sign);
    }
    if IsZero(a) {
      return Zero(sign);
    }
    r := DivideFinite(a, b, sign);
  }

  // The last part of cvm_d_div, for operands that are neither zero, infinite nor NaN.
  method DivideFinite(a: F64, b: F64, sign: u32) returns (r: F64)
    requires sign < 2
    ensures !IsNan(r)
    ensures IsNormal(a) && IsNormal(b) ==> DivOutcome(r, sign, Scaled(Mag(a), UNIT_BITS), Mag(b))
  {
    var alo, ahi, blo, bhi := a.lo, MantHi(a), b.lo, MantHi(b);
    var adjust := 0;
    if Less(ahi, alo, bhi, blo) {
      Doubled(ahi, alo);
      ahi, alo := DoubleHi(ahi, alo), Shl(alo, 1);
      adjust := -1;
    }
    assert Pair(ahi, alo) == Scaled(Mant(a), -adjust);
    ScaledAdd(Mant(a), -adjust, 53);
    var qhi, qlo, rhi, rlo := LongDivide(ahi, alo, bhi, blo);
    var exp := Exp(a) - Exp(b) + BIAS + adjust;
    ghost var q, rem := Pair(qhi, qlo), Pair(rhi, rlo);
    qhi, qlo, exp := RoundRne(qhi, qlo, exp, rlo, rhi);
    r := PackResult(sign, exp, qhi, qlo);
    if IsNormal(a) && IsNormal(b) {
      DivIsRounded(a, b, adjust, q, rem, r, sign);
    }
  }
}
