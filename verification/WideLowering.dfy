// 64-bit operations as the words the translator emits for them, on the machine's 32-bit registers.
module WideLowering {
  import opened Arith
  import opened Int64
  import opened Words

  const ZERO: nat := 253
  const SCRATCH: nat := 254
  const MAX_EMIT: nat := 252

  // ----- The machine ------------------------------------------------------------------------------

  datatype Alu =
    | ADD | SUB | MUL | MULHU | AND | OR | SHL | SHR | SAR
    | CMP_EQ | CMP_NE | CMP_LT | CMP_LTU | CMP_LEU

  datatype Ins = Op(op: Alu, a: nat, b: nat, c: nat) | Movi(a: nat, imm: u32)

  type Regs = R: seq<u32> | |R| == 256 witness seq(256, _ => 0)

  function Flag(p: bool): u32 {
    if p then 1 else 0
  }

  lemma {:induction false} OrBelow(x: nat, y: nat, k: nat)
    requires x < Pow2(k) && y < Pow2(k)
    ensures Or(x, y) < Pow2(k)
    decreases k
  {
    if k > 0 && x > 0 && y > 0 { OrBelow(x / 2, y / 2, k - 1); }
  }

  lemma Or32(x: u32, y: u32)
    ensures 0 <= Or(x, y) < B
  {
    Pow2Values();
    OrBelow(x, y, 32);
  }

  function Compute(op: Alu, x: u32, y: u32): u32 {
    match op
    case ADD => Add(x, y)
    case SUB => Sub(x, y)
    case MUL => Mul(x, y)
    case MULHU => MulHigh(x, y)
    case AND => And(x, y)
    case OR => OrWord(x, y)
    case SHL => Shl(x, y % 32)
    case SHR => Shr(x, y % 32)
    case SAR => Sar(x, y % 32)
    case CMP_EQ => Flag(x == y)
    case CMP_NE => Flag(x != y)
    case CMP_LT => Flag(Signed(x) < Signed(y))
    case CMP_LTU => Flag(x < y)
    case CMP_LEU => Flag(x <= y)
  }

  // A 16-bit immediate, as two's complement.
  function Extended(imm: u32): u32 {
    var x := imm % 0x1_0000;
    if x < 0x8000 then x else x + (B - 0x1_0000)
  }

  function Step(R: Regs, i: Ins): Regs {
    match i
    case Op(op, a, b, c) => if a < 256 && b < 256 && c < 256 then R[a := Compute(op, R[b], R[c])] else R
    case Movi(a, imm) => if a < 256 then R[a := Extended(imm)] else R
  }

  lemma SmallImmediate(R: Regs, a: nat, n: u32)
    requires a < 256 && n < 0x8000
    ensures Step(R, Movi(a, n)) == R[a := n]
  {
  }

  function Run(R: Regs, code: seq<Ins>): Regs {
    if code == [] then R else Step(Run(R, code[..|code| - 1]), code[|code| - 1])
  }

  // ----- Emitting ---------------------------------------------------------------------------------

  // The registers of a 64-bit value.
  datatype Pair = Pair(lo: nat, hi: nat)

  // A register that emission may read: one handed out before, or the zero register.
  predicate Readable(r: nat, next: nat) {
    r < next <= 253 || r == 253
  }

  predicate PairReadable(p: Pair, next: nat) {
    Readable(p.lo, next) && Readable(p.hi, next)
  }

  function PairOf(R: Regs, p: Pair): I64
    requires p.lo < 256 && p.hi < 256
  {
    I64(R[p.lo], R[p.hi])
  }

  // Registers handed out before are as they were, and so are the zero register and SP.
  ghost predicate Kept(was: Regs, now: Regs, next: nat) {
    forall r :: 0 <= r < 256 && (r < next || r == 253 || r == 255) ==> now[r] == was[r]
  }

  // The registers a left shift takes.
  function ShlTemps(n: nat): nat {
    if n == 0 || n == 32 then 0 else if n < 32 then 4 else 1
  }

  // The registers a right shift takes: from 32 on, one for each word that is not a word of x or zero.
  function ShrTemps(n: nat, fill: Alu): nat {
    if n == 0 then 0
    else if n < 32 then 4
    else (if n > 32 then 1 else 0) + if fill.SAR? then 1 else 0
  }

  // The code emitted so far, and the registers it leaves when it runs from `start`, whatever that is.
  class Emitter {
    var code: seq<Ins>
    var next: nat
    ghost const start: Regs
    ghost var regs: Regs

    constructor (ghost start: Regs)
      requires start[253] == 0
      ensures Valid() && code == [] && next == 0 && this.start == start
    {
      code, next := [], 0;
      this.start, regs := start, start;
    }

    ghost predicate Valid()
      reads this
    {
      regs == Run(start, code) && regs[253] == 0 && next <= 253
    }

    // Registers for the temporaries of one operation, or none when the window is used up.
    method Reserve(n: nat) returns (ok: bool, first: nat)
      requires Valid()
      modifies this`next
      ensures Valid() && first == old(next) && (ok <==> old(next) + n <= MAX_EMIT + 1)
      ensures next == if ok then old(next) + n else old(next)
    {
      first := next;
      ok := next + n <= MAX_EMIT + 1;
      if ok { next := next + n; }
    }

    method Emit(op: Alu, a: nat, b: nat, c: nat)
      requires Valid() && (a <= MAX_EMIT || a == SCRATCH) && b < 256 && c < 256
      modifies this`code, this`regs
      ensures Valid() && code == old(code) + [Op(op, a, b, c)]
      ensures regs == old(regs)[a := Compute(op, old(regs)[b], old(regs)[c])]
    {
      code := code + [Op(op, a, b, c)];
      regs := Step(regs, Op(op, a, b, c));
      assert code[..|code| - 1] == old(code);
    }

    // A shift by a constant, which goes through the scratch register.
    method EmitShift(op: Alu, a: nat, b: nat, n: u32)
      requires Valid() && a <= MAX_EMIT && (b <= MAX_EMIT || b == ZERO) && n < 32 && (op.SHL? || op.SHR? || op.SAR?)
      modifies this`code, this`regs
      ensures Valid()
      ensures regs == old(regs)[SCRATCH := n][a := Compute(op, old(regs)[b], n)]
    {
      SmallImmediate(regs, SCRATCH, n);
      code := code + [Movi(SCRATCH, n)];
      regs := Step(regs, Movi(SCRATCH, n));
      assert code[..|code| - 1] == old(code);
      Emit(op, a, b, SCRATCH);
    }

    // ----- Add, subtract, multiply ----------------------------------------------------------------

    method LowerAdd(a: Pair, b: Pair) returns (ok: bool, r: Pair)
      requires Valid() && PairReadable(a, next) && PairReadable(b, next)
      modifies this
      ensures Valid() && (ok <==> old(next) + 3 <= MAX_EMIT + 1)
      ensures ok ==> PairReadable(r, next) && PairOf(regs, r) == Add64(PairOf(old(regs), a), PairOf(old(regs), b))
      ensures ok ==> Kept(old(regs), regs, old(next))
    {
      r := a;
      var n;
      ok, n := Reserve(3);
      if ok {
        r := Pair(n, n + 1);
        var carry := n + 2;
        Emit(ADD, r.lo, a.lo, b.lo);
        Emit(CMP_LTU, carry, r.lo, a.lo);
        Emit(ADD, r.hi, a.hi, b.hi);
        Emit(ADD, r.hi, r.hi, carry);
      }
    }

    method LowerSub(a: Pair, b: Pair) returns (ok: bool, r: Pair)
      requires Valid() && PairReadable(a, next) && PairReadable(b, next)
      modifies this
      ensures Valid() && (ok <==> old(next) + 3 <= MAX_EMIT + 1)
      ensures ok ==> PairReadable(r, next) && PairOf(regs, r) == Sub64(PairOf(old(regs), a), PairOf(old(regs), b))
      ensures ok ==> Kept(old(regs), regs, old(next))
    {
      r := a;
      var n;
      ok, n := Reserve(3);
      if ok {
        r := Pair(n, n + 1);
        var borrow := n + 2;
        Emit(CMP_LTU, borrow, a.lo, b.lo);
        Emit(SUB, r.lo, a.lo, b.lo);
        Emit(SUB, r.hi, a.hi, b.hi);
        Emit(SUB, r.hi, r.hi, borrow);
      }
    }

    method LowerMul(a: Pair, b: Pair) returns (ok: bool, r: Pair)
      requires Valid() && PairReadable(a, next) && PairReadable(b, next)
      modifies this
      ensures Valid() && (ok <==> old(next) + 3 <= MAX_EMIT + 1)
      ensures ok ==> PairReadable(r, next) && PairOf(regs, r) == Mul64(PairOf(old(regs), a), PairOf(old(regs), b))
      ensures ok ==> Kept(old(regs), regs, old(next))
    {
      r := a;
      var n;
      ok, n := Reserve(3);
      if ok {
        r := Pair(n, n + 1);
        EmitProduct(n, a, b);
      }
    }

    // The product modulo 2^64, in the registers n and n + 1, by way of n + 2.
    method EmitProduct(n: nat, a: Pair, b: Pair)
      requires Valid() && PairReadable(a, n) && PairReadable(b, n) && n + 2 <= 252
      modifies this`code, this`regs
      ensures Valid() && Kept(old(regs), regs, n)
      ensures I64(regs[n], regs[n + 1]) == Mul64(PairOf(old(regs), a), PairOf(old(regs), b))
    {
      Emit(MUL, n, a.lo, b.lo);
      Emit(MULHU, n + 1, a.lo, b.lo);
      EmitAddProduct(n + 1, n + 2, a.lo, b.hi);
      EmitAddProduct(n + 1, n + 2, a.hi, b.lo);
    }

    // The product of two registers added to a third, by way of t.
    method EmitAddProduct(sum: nat, t: nat, x: nat, y: nat)
      requires Valid() && sum < t <= MAX_EMIT && x < 256 && y < 256
      modifies this`code, this`regs
      ensures Valid()
      ensures regs[sum] == Compute(ADD, old(regs)[sum], Compute(MUL, old(regs)[x], old(regs)[y]))
      ensures forall r :: 0 <= r < 256 && r != sum && r != t ==> regs[r] == old(regs)[r]
    {
      Emit(MUL, t, x, y);
      Emit(ADD, sum, sum, t);
    }

    // ----- Shifts by a constant -------------------------------------------------------------------

    method LowerShl(x: Pair, n: u32) returns (ok: bool, r: Pair)
      requires Valid() && PairReadable(x, next) && n < 64
      modifies this
      ensures Valid() && (ok <==> old(next) + ShlTemps(n) <= MAX_EMIT + 1)
      ensures ok ==> PairReadable(r, next) && PairOf(regs, r) == Shl64(PairOf(old(regs), x), n)
      ensures ok ==> Kept(old(regs), regs, old(next))
    {
      ShlWords(PairOf(regs, x), n);
      ok, r := true, x;
      if n == 0 { return; }
      if n == 32 {
        r := Pair(ZERO, x.lo);
      } else if n < 32 {
        ok, r := ShlNear(x, n);
      } else {
        var k;
        ok, k := Reserve(1);
        if ok {
          r := Pair(ZERO, k);
          EmitShift(SHL, k, x.lo, n - 32);
        }
      }
    }

    method ShlNear(x: Pair, n: u32) returns (ok: bool, r: Pair)
      requires Valid() && PairReadable(x, next) && 0 < n < 32
      modifies this
      ensures Valid() && (ok <==> old(next) + 4 <= MAX_EMIT + 1)
      ensures ok ==> PairReadable(r, next) && PairOf(regs, r) == ShlFew(PairOf(old(regs), x), n)
      ensures ok ==> Kept(old(regs), regs, old(next))
    {
      r := x;
      var k;
      ok, k := Reserve(4);
      if ok {
        r := Pair(k + 3, k + 2);
        ghost var v := PairOf(regs, x);
        EmitShift(SHL, k, x.hi, n);
        ghost var t1 := regs[k];
        EmitShift(SHR, k + 1, x.lo, 32 - n);
        ghost var t2 := regs[k + 1];
        Emit(OR, k + 2, k, k + 1);
        assert regs[x.lo] == v.lo && regs[k + 2] == Compute(OR, t1, t2);
        EmitShift(SHL, k + 3, x.lo, n);
      }
    }

    // Logical or arithmetic right shift, as `fill` says.
    method LowerShr(x: Pair, n: u32, fill: Alu) returns (ok: bool, r: Pair)
      requires Valid() && PairReadable(x, next) && n < 64 && (fill.SHR? || fill.SAR?)
      modifies this
      ensures Valid() && (ok <==> old(next) + ShrTemps(n, fill) <= MAX_EMIT + 1)
      ensures ok ==> PairReadable(r, next)
      ensures ok ==> PairOf(regs, r) == if fill.SHR? then Shr64(PairOf(old(regs), x), n) else Sar64(PairOf(old(regs), x), n)
      ensures ok ==> Kept(old(regs), regs, old(next))
    {
      ShrWords(PairOf(regs, x), n);
      ok, r := true, x;
      if n == 0 { return; }
      if n < 32 {
        ok, r := ShrNear(x, n, fill);
      } else {
        ok, r := ShrFar(x, n, fill);
      }
    }

    method ShrNear(x: Pair, n: u32, fill: Alu) returns (ok: bool, r: Pair)
      requires Valid() && PairReadable(x, next) && 0 < n < 32 && (fill.SHR? || fill.SAR?)
      modifies this
      ensures Valid() && (ok <==> old(next) + 4 <= MAX_EMIT + 1)
      ensures ok ==> PairReadable(r, next) && PairOf(regs, r) == ShrFew(PairOf(old(regs), x), n, fill)
      ensures ok ==> Kept(old(regs), regs, old(next))
    {
      r := x;
      var k;
      ok, k := Reserve(4);
      if ok {
        r := Pair(k + 2, k + 3);
        ghost var v := PairOf(regs, x);
        EmitShift(SHR, k, x.lo, n);
        ghost var t1 := regs[k];
        EmitShift(SHL, k + 1, x.hi, 32 - n);
        ghost var t2 := regs[k + 1];
        Emit(OR, k + 2, k, k + 1);
        assert regs[x.hi] == v.hi && regs[k + 2] == Compute(OR, t1, t2);
        EmitShift(fill, k + 3, x.hi, n);
      }
    }

    method ShrFar(x: Pair, n: u32, fill: Alu) returns (ok: bool, r: Pair)
      requires Valid() && PairReadable(x, next) && 32 <= n < 64 && (fill.SHR? || fill.SAR?)
      modifies this
      ensures Valid() && (ok <==> old(next) + ShrTemps(n, fill) <= MAX_EMIT + 1)
      ensures ok ==> PairReadable(r, next) && PairOf(regs, r) == ShrMany(PairOf(old(regs), x), n, fill)
      ensures ok ==> Kept(old(regs), regs, old(next))
    {
      var k := next;
      ok, r := true, Pair(x.hi, ZERO);
      if n > 32 {
        ok, k := Reserve(1);
        if !ok { return; }
        r := Pair(k, ZERO);
        EmitShift(fill, k, x.hi, n - 32);
      }
      if fill.SAR? {
        ok, k := Reserve(1);
        if ok {
          r := Pair(r.lo, k);
          EmitShift(SAR, k, x.hi, 31);
        }
      }
    }

    // ----- Comparisons ----------------------------------------------------------------------------

    // The flag of a < b, or of a <= b, signed or not, into dst.
    method LowerOrdered(a: Pair, b: Pair, isLe: bool, isSigned: bool, dst: nat) returns (ok: bool)
      requires Valid() && PairReadable(a, next) && PairReadable(b, next) && dst < next
      modifies this
      ensures Valid() && (ok <==> old(next) + 3 <= MAX_EMIT + 1)
      ensures ok ==> regs[dst] == Flag(Ordered(PairOf(old(regs), a), PairOf(old(regs), b), isLe, isSigned))
      ensures ok ==> KeptBut(old(regs), regs, old(next), dst)
    {
      var n;
      ok, n := Reserve(3);
      if ok {
        ghost var x, y := PairOf(regs, a), PairOf(regs, b);
        EmitCompares(a, b, if isSigned then CMP_LT else CMP_LTU, if isLe then CMP_LEU else CMP_LTU, n);
        OrderedWords(x, y, isLe, isSigned, regs[n], regs[n + 1], regs[n + 2]);
        EmitDecide(dst, n);
      }
    }

    // The high words compared, whether they are equal, and the low words compared.
    method EmitCompares(a: Pair, b: Pair, high: Alu, low: Alu, n: nat)
      requires Valid() && PairReadable(a, n) && PairReadable(b, n) && n + 2 <= MAX_EMIT
      modifies this`code, this`regs
      ensures Valid()
      ensures regs[n] == Compute(high, old(regs)[a.hi], old(regs)[b.hi])
      ensures regs[n + 1] == Compute(CMP_EQ, old(regs)[a.hi], old(regs)[b.hi])
      ensures regs[n + 2] == Compute(low, old(regs)[a.lo], old(regs)[b.lo])
      ensures Kept(old(regs), regs, n)
    {
      Emit(high, n, a.hi, b.hi);
      Emit(CMP_EQ, n + 1, a.hi, b.hi);
      Emit(low, n + 2, a.lo, b.lo);
    }

    // dst := first | (second & third), for three flags in successive registers.
    method EmitDecide(dst: nat, n: nat)
      requires Valid() && dst < n && n + 2 <= MAX_EMIT
      modifies this`code, this`regs
      ensures Valid()
      ensures regs[dst] == Compute(OR, old(regs)[n], Compute(AND, old(regs)[n + 1], old(regs)[n + 2]))
      ensures forall r :: 0 <= r < 256 && r != dst && r != n + 2 ==> regs[r] == old(regs)[r]
    {
      Emit(AND, n + 2, n + 1, n + 2);
      Emit(OR, dst, n, n + 2);
    }

    // The flag of a == b, or of a != b, into dst.
    method LowerEqual(a: Pair, b: Pair, equal: bool, dst: nat) returns (ok: bool)
      requires Valid() && PairReadable(a, next) && PairReadable(b, next) && dst < next
      modifies this
      ensures Valid() && (ok <==> old(next) + 2 <= MAX_EMIT + 1)
      ensures ok ==> regs[dst] == Flag((PairOf(old(regs), a) == PairOf(old(regs), b)) == equal)
      ensures ok ==> KeptBut(old(regs), regs, old(next), dst)
    {
      var n;
      ok, n := Reserve(2);
      if ok {
        EqualWords(PairOf(regs, a), PairOf(regs, b), equal);
        var cmp := if equal then CMP_EQ else CMP_NE;
        Emit(cmp, n, a.lo, b.lo);
        Emit(cmp, n + 1, a.hi, b.hi);
        Emit(if equal then AND else OR, dst, n, n + 1);
      }
    }
  }

  // Registers handed out before are as they were, but for dst.
  ghost predicate KeptBut(was: Regs, now: Regs, next: nat, dst: nat) {
    forall r :: 0 <= r < 256 && (r < next || r == 253 || r == 255) && r != dst ==> now[r] == was[r]
  }

  function OrWord(x: u32, y: u32): u32 {
    Or32(x, y);
    Or(x, y)
  }

  // ----- What the word sequences compute -----------------------------------------------------------

  // A left shift by fewer than 32.
  function ShlFew(x: I64, n: u32): I64
    requires 0 < n < 32
  {
    I64(Compute(SHL, x.lo, n), Compute(OR, Compute(SHL, x.hi, n), Compute(SHR, x.lo, 32 - n)))
  }

  lemma ShlWords(x: I64, n: u32)
    requires n < 64
    ensures Shl64(x, n) == if n == 0 then x else if n < 32 then ShlFew(x, n) else I64(0, if n == 32 then x.lo else Compute(SHL, x.lo, n - 32))
  {
    SixBits(n);
    ShlBy0(x.lo);
    if 0 < n < 32 { Halves(n); ShlFewWords(x, n); } else if n > 32 { ShlManyWords(x, n, n - 32); }
  }

  lemma ShlFewWords(x: I64, n: u32)
    requires 0 < n < 32 && n % 32 == n && (32 - n) % 32 == 32 - n && And(n, 63) == n
    ensures Shl64(x, n) == ShlFew(x, n)
  {
  }

  lemma ShlManyWords(x: I64, n: u32, k: u32)
    requires 32 < n < 64 && And(n, 63) == n && k == n - 32
    ensures Shl64(x, n) == I64(0, Compute(SHL, x.lo, k))
  {
    assert k % 32 == k;
  }

  lemma Halves(n: u32)
    requires 0 < n < 32
    ensures n % 32 == n && (32 - n) % 32 == 32 - n
  {
  }

  // A right shift by fewer than 32, filling as told.
  function ShrFew(x: I64, n: u32, fill: Alu): I64
    requires 0 < n < 32
  {
    I64(Compute(OR, Compute(SHR, x.lo, n), Compute(SHL, x.hi, 32 - n)), Compute(fill, x.hi, n))
  }

  // A right shift by 32 or more.
  function ShrMany(x: I64, n: u32, fill: Alu): I64
    requires 32 <= n < 64
  {
    I64(if n == 32 then x.hi else Compute(fill, x.hi, n - 32), if fill.SHR? then 0 else Compute(SAR, x.hi, 31))
  }

  lemma ShrWords(x: I64, n: u32)
    requires n < 64
    ensures Shr64(x, n) == if n == 0 then x else if n < 32 then ShrFew(x, n, SHR) else ShrMany(x, n, SHR)
    ensures Sar64(x, n) == if n == 0 then x else if n < 32 then ShrFew(x, n, SAR) else ShrMany(x, n, SAR)
  {
    SixBits(n);
    ShrBy0(x.hi);
    if 0 < n < 32 { Halves(n); ShrFewWords(x, n); } else if n > 32 { ShrManyWords(x, n, n - 32); }
  }

  lemma ShrFewWords(x: I64, n: u32)
    requires 0 < n < 32 && n % 32 == n && (32 - n) % 32 == 32 - n && And(n, 63) == n
    ensures Shr64(x, n) == ShrFew(x, n, SHR) && Sar64(x, n) == ShrFew(x, n, SAR)
  {
  }

  lemma ShrManyWords(x: I64, n: u32, k: u32)
    requires 32 < n < 64 && And(n, 63) == n && k == n - 32
    ensures Shr64(x, n) == I64(Compute(SHR, x.hi, k), 0) && Sar64(x, n) == I64(Compute(SAR, x.hi, k), Compute(SAR, x.hi, 31))
  {
    assert k % 32 == k;
  }

  // What an ordered comparison asks. Greater-than comparisons swap their operands.
  predicate Ordered(a: I64, b: I64, isLe: bool, isSigned: bool)
    ensures Ordered(a, b, isLe, isSigned) <==>
            var x, y := if isSigned then SVal(a) else Val(a), if isSigned then SVal(b) else Val(b); if isLe then x <= y else x < y
  {
    if isSigned then if isLe then SLe(a, b) else SLt(a, b)
    else if isLe then ULe(a, b) else ULt(a, b)
  }

  lemma FlagBits(x: u32, y: u32)
    ensures x <= 1 && y <= 1 ==> And(x, y) == Flag(x == 1 && y == 1) && Or(x, y) == Flag(x == 1 || y == 1)
  {
  }

  // The high words decide, unless they are equal.
  lemma OrderedWords(a: I64, b: I64, isLe: bool, isSigned: bool, high: u32, same: u32, low: u32)
    requires high == (if isSigned then Flag(Signed(a.hi) < Signed(b.hi)) else Flag(a.hi < b.hi)) && same == Flag(a.hi == b.hi)
    requires low == if isLe then Flag(a.lo <= b.lo) else Flag(a.lo < b.lo)
    ensures Compute(OR, high, Compute(AND, same, low)) == Flag(Ordered(a, b, isLe, isSigned))
  {
    FlagBits(same, low);
    FlagBits(high, And(same, low));
  }

  lemma EqualWords(a: I64, b: I64, equal: bool)
    ensures And(Flag(a.lo == b.lo), Flag(a.hi == b.hi)) == Flag(a == b)
    ensures OrWord(Flag(a.lo != b.lo), Flag(a.hi != b.hi)) == Flag(a != b)
  {
    FlagBits(Flag(a.lo == b.lo), Flag(a.hi == b.hi));
    FlagBits(Flag(a.lo != b.lo), Flag(a.hi != b.hi));
  }

  lemma ShlBy0(x: u32)
    ensures Shl(x, 0) == x
  {
  }

  lemma ShrBy0(x: u32)
    ensures Shr(x, 0) == x && Sar(x, 0) == x
  {
  }
}
