// The overflow-checked operations: the words the translator emits for a value and its overflow flag.
module Overflow {
  import opened Arith
  import opened Int64
  import opened WideLowering
  import opened Words

  // ----- Steps the sequences share ----------------------------------------------------------------

  // Registers other than d and c are as they were.
  ghost predicate Only(was: Regs, now: Regs, d: nat, c: nat) {
    forall r :: 0 <= r < 256 && r != d && r != c ==> now[r] == was[r]
  }

  // d := x + y with its carry in c.
  method EmitAddCarry(e: Emitter, d: nat, c: nat, x: nat, y: nat)
    requires e.Valid() && d <= MAX_EMIT && c <= MAX_EMIT && x < 256 && y < 256 && d != c && d != x
    modifies e`code, e`regs
    ensures e.Valid() && Only(old(e.regs), e.regs, d, c)
    ensures e.regs[d] + B * e.regs[c] == old(e.regs)[x] as int + old(e.regs)[y] && e.regs[c] <= 1
  {
    e.Emit(ADD, d, x, y);
    e.Emit(CMP_LTU, c, d, x);
  }

  // The two words of x * y.
  method EmitProduct(e: Emitter, lo: nat, hi: nat, x: nat, y: nat)
    requires e.Valid() && lo <= MAX_EMIT && hi <= MAX_EMIT && x < 256 && y < 256 && lo != hi && lo != x && lo != y
    modifies e`code, e`regs
    ensures e.Valid() && Only(old(e.regs), e.regs, lo, hi)
    ensures e.regs[lo] + B * e.regs[hi] == old(e.regs)[x] as int * old(e.regs)[y]
  {
    e.Emit(MUL, lo, x, y);
    e.Emit(MULHU, hi, x, y);
  }

  // d := whether x is not zero.
  method EmitNonZero(e: Emitter, d: nat, x: nat)
    requires e.Valid() && d <= MAX_EMIT && x < 256
    modifies e`code, e`regs
    ensures e.Valid() && Only(old(e.regs), e.regs, d, d)
    ensures e.regs[d] == Flag(old(e.regs)[x] != 0)
  {
    e.Emit(CMP_LTU, d, ZERO, x);
  }

  // d := whether either flag, or both flags, are set.
  method EmitFlags(e: Emitter, both: bool, d: nat, x: nat, y: nat)
    requires e.Valid() && d <= MAX_EMIT && x < 256 && y < 256 && e.regs[x] <= 1 && e.regs[y] <= 1
    modifies e`code, e`regs
    ensures e.Valid() && Only(old(e.regs), e.regs, d, d)
    ensures e.regs[d] == Flag(if both then old(e.regs)[x] == 1 && old(e.regs)[y] == 1 else old(e.regs)[x] == 1 || old(e.regs)[y] == 1)
  {
    FlagBits(e.regs[x], e.regs[y]);
    e.Emit(if both then AND else OR, d, x, y);
  }

  // d := the low 32 - s bits of x sign-extended; flag := whether that changed them.
  method EmitCanon(e: Emitter, d: nat, flag: nat, x: nat, s: nat)
    requires e.Valid() && d <= MAX_EMIT && flag <= MAX_EMIT && x <= MAX_EMIT && d != x && flag != d && flag != x && 0 < s < 32
    modifies e`code, e`regs
    ensures e.Valid() && forall r :: 0 <= r < 256 && r != d && r != flag && r != SCRATCH ==> e.regs[r] == old(e.regs)[r]
    ensures IsCanon(old(e.regs)[x], e.regs[d], 32 - s) && e.regs[flag] == Flag(old(e.regs)[x] != e.regs[d])
  {
    CanonFits(e.regs[x], s);
    e.EmitShift(SHL, d, x, s);
    e.EmitShift(SAR, d, d, s);
    e.Emit(CMP_NE, flag, x, d);
  }

  // ----- Unsigned, 32 bits ------------------------------------------------------------------------

  method UAdd32(e: Emitter, a: nat, b: nat) returns (ok: bool, val: nat, ovf: nat)
    requires e.Valid() && Readable(a, e.next) && Readable(b, e.next)
    modifies e
    ensures e.Valid() && (ok <==> old(e.next) + 2 <= MAX_EMIT + 1)
    ensures ok ==> val < e.next && ovf < e.next && Kept(old(e.regs), e.regs, old(e.next))
    ensures ok ==> var sum := old(e.regs)[a] as int + old(e.regs)[b]; e.regs[val] == sum % B && e.regs[ovf] == Flag(sum >= B)
  {
    val, ovf := 0, 0;
    var n;
    ok, n := e.Reserve(2);
    if ok {
      val, ovf := n, n + 1;
      EmitAddCarry(e, val, ovf, a, b);
    }
  }

  method UMul32(e: Emitter, a: nat, b: nat) returns (ok: bool, val: nat, ovf: nat)
    requires e.Valid() && Readable(a, e.next) && Readable(b, e.next)
    modifies e
    ensures e.Valid() && (ok <==> old(e.next) + 3 <= MAX_EMIT + 1)
    ensures ok ==> val < e.next && ovf < e.next && Kept(old(e.regs), e.regs, old(e.next))
    ensures ok ==> var product := old(e.regs)[a] as int * old(e.regs)[b]; e.regs[val] == product % B && e.regs[ovf] == Flag(product >= B)
  {
    val, ovf := 0, 0;
    var n;
    ok, n := e.Reserve(3);
    if ok {
      val, ovf := n, n + 1;
      EmitProduct(e, val, n + 2, a, b);
      ghost var lo, hi := e.regs[val], e.regs[n + 2];
      DivModUnique(lo + B * hi, B, hi, lo);
      EmitNonZero(e, ovf, n + 2);
    }
  }

  // ----- Unsigned, 64 bits ------------------------------------------------------------------------

  method UAdd64(e: Emitter, a: Pair, b: Pair) returns (ok: bool, r: Pair, ovf: nat)
    requires e.Valid() && PairReadable(a, e.next) && PairReadable(b, e.next)
    modifies e
    ensures e.Valid() && (ok <==> old(e.next) + 7 <= MAX_EMIT + 1)
    ensures ok ==> PairReadable(r, e.next) && ovf < e.next && Kept(old(e.regs), e.regs, old(e.next))
    ensures ok ==> var sum := Val(PairOf(old(e.regs), a)) + Val(PairOf(old(e.regs), b));
                   Val(PairOf(e.regs, r)) == sum % M && e.regs[ovf] == Flag(sum >= M)
  {
    r, ovf := a, 0;
    var n;
    ok, n := e.Reserve(7);
    if ok {
      r, ovf := Pair(n, n + 1), n + 2;
      var c1, c2, c3, t := n + 3, n + 4, n + 5, n + 6;
      ghost var x, y := PairOf(e.regs, a), PairOf(e.regs, b);
      EmitAddCarry(e, r.lo, c1, a.lo, b.lo);
      EmitAddCarry(e, t, c2, a.hi, b.hi);
      EmitAddCarry(e, r.hi, c3, t, c1);
      CarriesOut(x, y, PairOf(e.regs, r), e.regs[c2], e.regs[c3]);
      EmitFlags(e, false, ovf, c2, c3);
    }
  }

  lemma CarriesOut(x: I64, y: I64, r: I64, c2: u32, c3: u32)
    requires c2 <= 1 && c3 <= 1 && Val(r) + M * (c2 + c3) == Val(x) + Val(y)
    ensures Val(r) == (Val(x) + Val(y)) % M && (Val(x) + Val(y) >= M <==> c2 == 1 || c3 == 1)
  {
    DivModUnique(Val(x) + Val(y), M, c2 + c3, Val(r));
  }


  method UMul64(e: Emitter, a: Pair, b: Pair) returns (ok: bool, r: Pair, ovf: nat)
    requires e.Valid() && PairReadable(a, e.next) && PairReadable(b, e.next)
    modifies e
    ensures e.Valid() && (ok <==> old(e.next) + 15 <= MAX_EMIT + 1)
    ensures ok ==> PairReadable(r, e.next) && ovf < e.next && Kept(old(e.regs), e.regs, old(e.next))
    ensures ok ==> var product := Val(PairOf(old(e.regs), a)) * Val(PairOf(old(e.regs), b));
                   Val(PairOf(e.regs, r)) == product % M && e.regs[ovf] == Flag(product >= M)
  {
    r, ovf := a, 0;
    var n;
    ok, n := e.Reserve(15);
    if ok {
      r, ovf := Pair(n, n + 1), n + 2;
      ghost var x, y := PairOf(e.regs, a), PairOf(e.regs, b);
      EmitColumns(e, a, b, n);
      ProductOverflows(x, y, PairOf(e.regs, r), e.regs[n + 5], e.regs[n + 7], e.regs[n + 9], e.regs[n + 10]);
      EmitFold(e, a, b, n);
    }
  }

  // The products and their column sums: low word in n, high word in n + 1, the high words of the
  // middle products in n + 5 and n + 7, the carries in n + 9 and n + 10.
  method EmitColumns(e: Emitter, a: Pair, b: Pair, n: nat)
    requires e.Valid() && PairReadable(a, n) && PairReadable(b, n) && n + 15 <= MAX_EMIT + 1
    modifies e`code, e`regs
    ensures e.Valid() && Kept(old(e.regs), e.regs, n) && e.regs[n + 9] <= 1 && e.regs[n + 10] <= 1
    ensures ColumnSums(PairOf(old(e.regs), a), PairOf(old(e.regs), b), PairOf(e.regs, Pair(n, n + 1)),
                       e.regs[n + 5], e.regs[n + 7], e.regs[n + 9], e.regs[n + 10])
  {
    ghost var x, y := PairOf(e.regs, a), PairOf(e.regs, b);
    EmitProducts(e, a, b, n);
    ghost var was := e.regs;
    EmitAddCarry(e, n + 8, n + 9, n + 3, n + 4);
    EmitAddCarry(e, n + 1, n + 10, n + 8, n + 6);
    ColumnsAdd(x, y, was[n], was[n + 3], was[n + 4], was[n + 5], was[n + 6], was[n + 7], e.regs[n + 8], e.regs[n + 1], e.regs[n + 9], e.regs[n + 10]);
  }

  // The words of the three products below 2^96, in n and n + 3 to n + 7.
  method EmitProducts(e: Emitter, a: Pair, b: Pair, n: nat)
    requires e.Valid() && PairReadable(a, n) && PairReadable(b, n) && n + 15 <= MAX_EMIT + 1
    modifies e`code, e`regs
    ensures e.Valid() && Kept(old(e.regs), e.regs, n)
    ensures e.regs[n] + B * e.regs[n + 3] == old(e.regs)[a.lo] as int * old(e.regs)[b.lo]
    ensures e.regs[n + 4] + B * e.regs[n + 5] == old(e.regs)[a.lo] as int * old(e.regs)[b.hi]
    ensures e.regs[n + 6] + B * e.regs[n + 7] == old(e.regs)[a.hi] as int * old(e.regs)[b.lo]
  {
    EmitProduct(e, n, n + 3, a.lo, b.lo);
    EmitProduct(e, n + 4, n + 5, a.lo, b.hi);
    EmitProduct(e, n + 6, n + 7, a.hi, b.lo);
  }

  // The words r and what is left above them make up the three products below 2^96.
  predicate ColumnSums(x: I64, y: I64, r: I64, h1: u32, h2: u32, c1: u32, c2: u32) {
    x.lo * y.lo + B * (x.lo * y.hi + x.hi * y.lo) == Val(r) + M * (h1 as int + h2 + c1 + c2)
  }

  lemma ColumnsAdd(x: I64, y: I64, lo: u32, h0: u32, m1: u32, h1: u32, m2: u32, h2: u32, s: u32, hi: u32, c1: u32, c2: u32)
    requires lo + B * h0 == x.lo * y.lo && m1 + B * h1 == x.lo * y.hi && m2 + B * h2 == x.hi * y.lo
    requires s + B * c1 == h0 + m1 && hi + B * c2 == s + m2
    ensures ColumnSums(x, y, I64(lo, hi), h1, h2, c1, c2)
  {
  }

  // The flags folded into n + 2.
  method EmitFold(e: Emitter, a: Pair, b: Pair, n: nat)
    requires e.Valid() && PairReadable(a, n) && PairReadable(b, n) && n + 15 <= MAX_EMIT + 1
    requires e.regs[n + 9] <= 1 && e.regs[n + 10] <= 1
    modifies e`code, e`regs
    ensures e.Valid() && Kept(old(e.regs), e.regs, n) && e.regs[n] == old(e.regs)[n] && e.regs[n + 1] == old(e.regs)[n + 1]
    ensures e.regs[n + 2] == Flag(TopBits(PairOf(old(e.regs), a), PairOf(old(e.regs), b),
                                          old(e.regs)[n + 5], old(e.regs)[n + 7], old(e.regs)[n + 9], old(e.regs)[n + 10]))
  {
    var o, tmp := n + 11, n + 12;
    ghost var was := e.regs;
    EmitMiddle(e, n);
    EmitNonZero(e, n + 13, a.hi);
    EmitNonZero(e, n + 14, b.hi);
    EmitFlags(e, true, tmp, n + 13, n + 14);
    EmitFlags(e, false, n + 2, o, tmp);
  }

  // The flags of the middle column, folded into n + 11.
  method EmitMiddle(e: Emitter, n: nat)
    requires e.Valid() && n + 15 <= MAX_EMIT + 1 && e.regs[n + 9] <= 1 && e.regs[n + 10] <= 1
    modifies e`code, e`regs
    ensures e.Valid() && Only(old(e.regs), e.regs, n + 11, n + 12)
    ensures e.regs[n + 11] == Flag(MiddleBits(old(e.regs)[n + 5], old(e.regs)[n + 7], old(e.regs)[n + 9], old(e.regs)[n + 10]))
  {
    var o, tmp := n + 11, n + 12;
    EmitNonZero(e, o, n + 5);
    EmitNonZero(e, tmp, n + 7);
    EmitFlags(e, false, o, o, tmp);
    EmitFlags(e, false, tmp, n + 9, n + 10);
    EmitFlags(e, false, o, o, tmp);
  }

  predicate MiddleBits(h1: u32, h2: u32, c1: u32, c2: u32) {
    h1 != 0 || h2 != 0 || c1 == 1 || c2 == 1
  }

  predicate TopBits(x: I64, y: I64, h1: u32, h2: u32, c1: u32, c2: u32) {
    MiddleBits(h1, h2, c1, c2) || (x.hi != 0 && y.hi != 0)
  }

  // The product has a bit at 64 or above exactly when one of its parts there is not zero.
  lemma ProductOverflows(x: I64, y: I64, r: I64, h1: u32, h2: u32, c1: u32, c2: u32)
    requires c1 <= 1 && c2 <= 1
    requires ColumnSums(x, y, r, h1, h2, c1, c2)
    ensures Val(r) == (Val(x) * Val(y)) % M && (Val(x) * Val(y) >= M <==> TopBits(x, y, h1, h2, c1, c2))
  {
    FourProducts(x, y);
    PositiveProduct(x.hi, y.hi);
    var q := x.hi * y.hi + (h1 as int + h2 + c1 + c2);
    AboveM(Val(x) * Val(y), q, r);
  }

  lemma AboveM(v: int, q: int, r: I64)
    requires q >= 0 && v == M * q + Val(r)
    ensures Val(r) == v % M && (v >= M <==> q > 0)
  {
    DivModUnique(v, M, q, Val(r));
    MulAtLeast(M, q);
  }

  lemma PositiveProduct(x: u32, y: u32)
    ensures x * y >= 0 && (x * y > 0 <==> x != 0 && y != 0)
  {
    MulNonneg(x, y);
    if x != 0 && y != 0 { MulAtLeast(x, y); }
  }

  // ----- Signed, at a width with bits to spare ------------------------------------------------------

  // The low 32 - s bits of h, sign-extended.
  function Canon(h: u32, s: u32): u32
    requires 0 < s < 32
  {
    Compute(SAR, Compute(SHL, h, s), s)
  }

  // Whether v is a signed number of k bits.
  predicate Fits(v: int, k: nat)
    requires k > 0
  {
    -Pow2(k - 1) <= v < Pow2(k - 1)
  }

  // The number of k bits that h is modulo 2^k, which is h exactly when h is such a number.
  predicate IsCanon(h: u32, c: u32, k: nat)
    requires k > 0
  {
    Fits(Signed(c), k) && (Signed(h) - Signed(c)) % Pow2(k) == 0 && (c == h <==> Fits(Signed(h), k))
  }

  lemma CanonFits(h: u32, s: u32)
    requires 0 < s < 32
    ensures IsCanon(h, Canon(h, s), 32 - s)
  {
    var p, q := Pow2(s), Pow2(32 - s);
    var r, d := h % q, h / q;
    assert s % 32 == s;
    SplitLeft(h, s);
    var v := if 2 * r >= q then r - q else r;
    SignOfShift(h, s, r);
    DivMod(h, q);
    assert Canon(h, s) == v % B;
    assert 2 * Pow2(31 - s) == q;
    Pow2Monotone(31 - s, 31);
    Pow2Values();
    SignedMod(v);
    var k := d + (if 2 * r >= q then 1 else 0) - if h >= 0x8000_0000 then p else 0;
    SameRest(h, p, q, d, v, k);
    InRangeOnce(Signed(h), v, q, k);
  }

  lemma SignedMod(v: int)
    requires -0x8000_0000 <= v < 0x8000_0000
    ensures Signed(v % B) == v
  {
  }

  // Shifting left and then right by s divides the signed number of the bits that stay by 2^s.
  lemma SignOfShift(h: u32, s: u32, r: int)
    requires 0 < s < 32 && r == h % Pow2(32 - s)
    ensures Canon(h, s) == (if 2 * r >= Pow2(32 - s) then r - Pow2(32 - s) else r) % B
  {
    var p, q := Pow2(s), Pow2(32 - s);
    SplitLeft(h, s);
    assert s % 32 == s;
    var x := Shl(h, s);
    assert x == p * r && p * q == B;
    TopBit(p, q, r);
    if 2 * r >= q {
      MulAdd(p, r, q);
      MultipleMod(p, r - q);
    } else {
      MultipleMod(p, r);
    }
  }

  // The top bit of p * r is that of r among the values below q.
  lemma TopBit(p: int, q: int, r: int)
    requires 1 <= p && p * q == B
    ensures p * r >= 0x8000_0000 <==> 2 * r >= q
  {
    MulAdd(p, 2 * r, q);
    MulSwap(p, 2, r);
    MulAtLeast(p, 2 * r - q);
  }

  lemma SameRest(h: u32, p: int, q: int, d: int, v: int, k: int)
    requires 1 <= q && p * q == B && h == q * d + h % q && v == (if 2 * (h % q) >= q then h % q - q else h % q)
    requires k == d + (if 2 * (h % q) >= q then 1 else 0) - if h >= 0x8000_0000 then p else 0
    ensures Signed(h) - v == q * k && (q * k) % q == 0
  {
    MultipleMod(q, k);
    MulAdd(q, d, 1);
    MulAdd(q, d, p);
    MulAdd(q, d + 1, p);
    assert q * p == B;
  }

  // Two numbers a multiple of q apart, one of them within half of q of zero: equal exactly when both are.
  lemma InRangeOnce(x: int, v: int, q: int, k: int)
    requires 1 <= q && x - v == q * k && -q <= 2 * v < q
    ensures x == v <==> -q <= 2 * x < q
  {
    MulAtLeast(q, k);
    if x == v { MulAtLeast(q, k); }
  }

  // Both operands are numbers of `bits` bits, sign-extended to 64.
  method SAddNarrow(e: Emitter, a: Pair, b: Pair, bits: nat) returns (ok: bool, r: Pair, ovf: nat)
    requires e.Valid() && PairReadable(a, e.next) && PairReadable(b, e.next) && 33 <= bits <= 63
    requires Fits(SVal(PairOf(e.regs, a)), bits) && Fits(SVal(PairOf(e.regs, b)), bits)
    modifies e
    ensures e.Valid() && (ok <==> old(e.next) + 5 <= MAX_EMIT + 1)
    ensures ok ==> PairReadable(r, e.next) && ovf < e.next && Kept(old(e.regs), e.regs, old(e.next))
    ensures ok ==> NarrowResult(SVal(PairOf(old(e.regs), a)) + SVal(PairOf(old(e.regs), b)), PairOf(e.regs, r), e.regs[ovf], bits)
  {
    r, ovf := a, 0;
    var n;
    ok, n := e.Reserve(5);
    if ok {
      r, ovf := Pair(n, n + 3), n + 4;
      ghost var x, y := PairOf(e.regs, a), PairOf(e.regs, b);
      EmitSum(e, a, b, n);
      NarrowSum(x, y, PairOf(e.regs, Pair(n, n + 1)), bits);
      EmitHigh(e, n, bits);
    }
  }

  // The high word of the sum in n and n + 1 made canonical in n + 3, and the flag in n + 4.
  method EmitHigh(e: Emitter, n: nat, bits: nat)
    requires e.Valid() && n + 5 <= MAX_EMIT + 1 && 33 <= bits <= 63
    modifies e`code, e`regs
    ensures e.Valid() && Kept(old(e.regs), e.regs, n)
    ensures NarrowResult(SVal(PairOf(old(e.regs), Pair(n, n + 1))), PairOf(e.regs, Pair(n, n + 3)), e.regs[n + 4], bits)
  {
    ghost var lo, hi := e.regs[n], e.regs[n + 1];
    EmitCanon(e, n + 3, n + 4, n + 1, 64 - bits);
    PairFits(lo, hi, e.regs[n + 3], bits);
  }

  // The number of `bits` bits that `sum` is modulo 2^bits, with the flag of a sum that is not such a number.
  predicate NarrowResult(sum: int, r: I64, flag: u32, bits: nat)
    requires bits > 0
  {
    Fits(SVal(r), bits) && (sum - SVal(r)) % Pow2(bits) == 0 && flag == Flag(!Fits(sum, bits))
  }

  // The 64-bit sum in n and n + 1.
  method EmitSum(e: Emitter, a: Pair, b: Pair, n: nat)
    requires e.Valid() && PairReadable(a, n) && PairReadable(b, n) && n + 5 <= MAX_EMIT + 1
    modifies e`code, e`regs
    ensures e.Valid() && Kept(old(e.regs), e.regs, n)
    ensures PairOf(e.regs, Pair(n, n + 1)) == Add64(PairOf(old(e.regs), a), PairOf(old(e.regs), b))
  {
    e.Emit(ADD, n, a.lo, b.lo);
    e.Emit(CMP_LTU, n + 2, n, a.lo);
    e.Emit(ADD, n + 1, a.hi, b.hi);
    e.Emit(ADD, n + 1, n + 1, n + 2);
  }

  // Canonicalising the high word canonicalises the pair.
  lemma PairFits(lo: u32, hi: u32, c: u32, bits: nat)
    requires 33 <= bits <= 63 && IsCanon(hi, c, bits - 32)
    ensures var v, w := SVal(I64(lo, hi)), SVal(I64(lo, c));
            Fits(w, bits) && (v - w) % Pow2(bits) == 0 && (hi != c <==> !Fits(v, bits))
  {
    HighFits(hi, lo, bits);
    HighFits(c, lo, bits);
    ScaledRest(Signed(hi) - Signed(c), SVal(I64(lo, hi)) - SVal(I64(lo, c)), bits);
  }

  lemma ScaledRest(m: int, d: int, bits: nat)
    requires bits >= 33 && m % Pow2(bits - 32) == 0 && d == B * m
    ensures d % Pow2(bits) == 0
  {
    var q := Pow2(bits - 32);
    Pow2Add(32, bits - 32);
    Pow2Values();
    DivMod(m, q);
    MulSwap(B, q, m / q);
    MultipleMod(B * q, m / q);
  }

  // A signed pair is a number of `bits` bits exactly when its high word is one of bits - 32 bits.
  lemma HighFits(hi: u32, lo: u32, bits: nat)
    requires 33 <= bits <= 63
    ensures SVal(I64(lo, hi)) == B * Signed(hi) + lo
    ensures Fits(Signed(hi), bits - 32) <==> Fits(SVal(I64(lo, hi)), bits)
  {
    Pow2Add(32, bits - 33);
    Pow2Values();
    HighDecides(hi, lo, Pow2(bits - 33));
  }

  lemma NarrowSum(x: I64, y: I64, r: I64, bits: nat)
    requires 33 <= bits <= 63 && Fits(SVal(x), bits) && Fits(SVal(y), bits) && r == Add64(x, y)
    ensures SVal(r) == SVal(x) + SVal(y)
  {
    assert Pow2(bits - 1) <= HALF / 2 by {
      Pow2Monotone(bits - 1, 62);
      Pow2Add(31, 31);
      Pow2Values();
    }
    SignedSum(x, y, r);
  }

  lemma SignedSum(x: I64, y: I64, r: I64)
    requires Val(r) == (Val(x) + Val(y)) % M && -HALF <= SVal(x) + SVal(y) < HALF
    ensures SVal(r) == SVal(x) + SVal(y)
  {
    var sum := SVal(x) + SVal(y);
    DivModUnique(Val(x) + Val(y), M, (Val(x) + Val(y) - (if sum < 0 then sum + M else sum)) / M, if sum < 0 then sum + M else sum);
  }

  // A signed pair is within B * p of zero exactly when its high word is within p of it.
  lemma HighDecides(hi: u32, lo: u32, p: int)
    requires p >= 1
    ensures SVal(I64(lo, hi)) == B * Signed(hi) + lo
    ensures -p <= Signed(hi) < p <==> -(B * p) <= SVal(I64(lo, hi)) < B * p
  {
  }

  // ----- Signed, 65 bits: three words, the third 0 or -1 ---------------------------------------------

  datatype Triple = Triple(w0: nat, w1: nat, w2: nat)

  function WideVal(w0: u32, w1: u32, w2: u32): int {
    w0 + B * w1 + M * Signed(w2)
  }

  function TripleVal(R: Regs, t: Triple): int
    requires t.w0 < 256 && t.w1 < 256 && t.w2 < 256
  {
    WideVal(R[t.w0], R[t.w1], R[t.w2])
  }

  predicate TripleReadable(t: Triple, next: nat) {
    Readable(t.w0, next) && Readable(t.w1, next) && Readable(t.w2, next)
  }

  // The word that sign-extends bit 64.
  predicate SignWord(w: u32) {
    w == 0 || w == B - 1
  }

  method SAdd65(e: Emitter, a: Triple, b: Triple) returns (ok: bool, r: Triple, ovf: nat)
    requires e.Valid() && TripleReadable(a, e.next) && TripleReadable(b, e.next)
    requires SignWord(e.regs[a.w2]) && SignWord(e.regs[b.w2])
    modifies e
    ensures e.Valid() && (ok <==> old(e.next) + 10 <= MAX_EMIT + 1)
    ensures ok ==> TripleReadable(r, e.next) && ovf < e.next && Kept(old(e.regs), e.regs, old(e.next))
    ensures ok ==> WideResult(TripleVal(old(e.regs), a) + TripleVal(old(e.regs), b), e.regs[r.w0], e.regs[r.w1], e.regs[r.w2], e.regs[ovf])
  {
    r, ovf := a, 0;
    var n;
    ok, n := e.Reserve(10);
    if ok {
      r, ovf := Triple(n, n + 1, n + 8), n + 9;
      EmitWords(e, a, b, n);
      EmitThird(e, n);
    }
  }

  // The third word of the sum in n, n + 1 and n + 2 made canonical in n + 8, and the flag in n + 9.
  method EmitThird(e: Emitter, n: nat)
    requires e.Valid() && n + 10 <= MAX_EMIT + 1
    modifies e`code, e`regs
    ensures e.Valid() && Kept(old(e.regs), e.regs, n)
    ensures var sum := TripleVal(old(e.regs), Triple(n, n + 1, n + 2)); WideResult(sum, e.regs[n], e.regs[n + 1], e.regs[n + 8], e.regs[n + 9])
  {
    ghost var sum := TripleVal(e.regs, Triple(n, n + 1, n + 2));
    ghost var w0, w1, w2 := e.regs[n], e.regs[n + 1], e.regs[n + 2];
    EmitCanon(e, n + 8, n + 9, n + 2, 31);
    ThirdWord(sum, w0, w1, w2, e.regs[n + 8], e.regs[n + 9]);
  }

  // The number of 65 bits that `sum` is modulo 2^65, with the flag of a sum that is not such a number.
  predicate WideResult(sum: int, w0: u32, w1: u32, w2: u32, flag: u32) {
    SignWord(w2) && (sum - WideVal(w0, w1, w2)) % (2 * M) == 0 && flag == Flag(!(-M <= sum < M))
  }

  // The three-word sum in n, n + 1 and n + 2, the third word not yet canonical.
  method EmitWords(e: Emitter, a: Triple, b: Triple, n: nat)
    requires e.Valid() && TripleReadable(a, n) && TripleReadable(b, n) && n + 10 <= MAX_EMIT + 1
    requires SignWord(e.regs[a.w2]) && SignWord(e.regs[b.w2])
    modifies e`code, e`regs
    ensures e.Valid() && Kept(old(e.regs), e.regs, n) && -2 <= Signed(e.regs[n + 2]) <= 1
    ensures TripleVal(e.regs, Triple(n, n + 1, n + 2)) == TripleVal(old(e.regs), a) + TripleVal(old(e.regs), b)
  {
    ghost var was := e.regs;
    EmitLow(e, a, b, n);
    ghost var c := e.regs[n + 7];
    e.Emit(ADD, n + 2, a.w2, b.w2);
    e.Emit(ADD, n + 2, n + 2, n + 7);
    SignWords(was[a.w2], was[b.w2], c);
  }

  // The low two words in n and n + 1, their carry in n + 7.
  method EmitLow(e: Emitter, a: Triple, b: Triple, n: nat)
    requires e.Valid() && TripleReadable(a, n) && TripleReadable(b, n) && n + 10 <= MAX_EMIT + 1
    modifies e`code, e`regs
    ensures e.Valid() && Kept(old(e.regs), e.regs, n) && e.regs[n + 7] <= 1
    ensures e.regs[n] + B * e.regs[n + 1] + M * e.regs[n + 7]
            == old(e.regs)[a.w0] + B * old(e.regs)[a.w1] + old(e.regs)[b.w0] + B * old(e.regs)[b.w1]
  {
    var c0, t, ca, cb := n + 3, n + 4, n + 5, n + 6;
    EmitAddCarry(e, n, c0, a.w0, b.w0);
    EmitAddCarry(e, t, ca, a.w1, b.w1);
    EmitAddCarry(e, n + 1, cb, t, c0);
    EmitFlags(e, false, n + 7, ca, cb);
  }

  lemma SignWords(x: u32, y: u32, c: u32)
    requires SignWord(x) && SignWord(y) && c <= 1
    ensures Signed(Add(Add(x, y), c)) == Signed(x) + Signed(y) + c && -2 <= Signed(x) + Signed(y) + c <= 1
  {
  }

  lemma ThirdWord(sum: int, w0: u32, w1: u32, w2: u32, c: u32, flag: u32)
    requires sum == WideVal(w0, w1, w2) && IsCanon(w2, c, 1) && flag == Flag(w2 != c)
    ensures WideResult(sum, w0, w1, c, flag)
  {
    assert Pow2(0) == 1 && Pow2(1) == 2;
    MultipleMod(2 * M, (Signed(w2) - Signed(c)) / 2);
  }
}
