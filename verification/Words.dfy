// 32-bit machine words as bounded integers, with the C operators the runtime uses on them.
module Words {
  import opened Arith

  const B: int := 0x1_0000_0000

  type u32 = x: int | 0 <= x < B

  function Pow2(n: nat): (p: int)
    ensures 1 <= p
  {
    if n == 0 then 1 else 2 * Pow2(n - 1)
  }

  lemma {:induction false} Pow2Add(m: nat, n: nat)
    ensures Pow2(m + n) == Pow2(m) * Pow2(n)
  {
    if m > 0 {
      Pow2Add(m - 1, n);
      assert Pow2(m + n) == 2 * Pow2(m - 1 + n);
      assert Pow2(m) * Pow2(n) == 2 * (Pow2(m - 1) * Pow2(n));
    }
  }

  lemma {:induction false} Pow2Monotone(m: nat, n: nat)
    requires m <= n
    ensures Pow2(m) <= Pow2(n)
  {
    if m < n {
      Pow2Monotone(m, n - 1);
    }
  }

  lemma Pow2Values()
    ensures Pow2(1) == 2 && Pow2(4) == 16 && Pow2(8) == 256 && Pow2(16) == 0x1_0000
    ensures Pow2(31) == 0x8000_0000 && Pow2(32) == B && Pow2(64) == B * B
  {
    assert Pow2(4) == 16;
    Pow2Add(4, 4);
    Pow2Add(8, 8);
    Pow2Add(16, 16);
    Pow2Add(32, 32);
  }

  // ----- Arithmetic -----------------------------------------------------------------------

  function Add(x: u32, y: u32): (r: u32)
    ensures r == x + y || r == x + y - B
    ensures r < x <==> x + y >= B
  {
    (x + y) % B
  }

  function Sub(x: u32, y: u32): (r: u32)
    ensures r == if x < y then x - y + B else x - y
  {
    (x - y) % B
  }

  function Mul(x: u32, y: u32): u32 {
    (x * y) % B
  }

  // The high word of the product.
  function MulHigh(x: u32, y: u32): (r: u32)
    ensures x * y == r * B + Mul(x, y)
  {
    ProductFits(x, y);
    (x * y) / B
  }

  lemma ProductFits(x: u32, y: u32)
    ensures 0 <= x * y / B < B && 0 <= x * y
  {
    MulNonneg(x, y);
    MulMono(x, y, B - 1);
    DivBelow(x * y, B, B);
    DivBounds(x * y, B);
  }

  function Not(x: u32): u32 {
    B - 1 - x
  }

  function Signed(x: u32): int {
    if x >= 0x8000_0000 then x - B else x
  }

  // ----- Shifts ----------------------------------------------------------------------------

  function Shl(x: u32, n: nat): u32
    requires n < 32
  {
    x * Pow2(n) % B
  }

  function Shr(x: u32, n: nat): (r: u32)
    requires n < 32
    ensures r <= x
  {
    DivBounds(x, Pow2(n));
    x / Pow2(n)
  }

  // Arithmetic shift right: division that rounds down.
  function Sar(x: u32, n: nat): u32
    requires n < 32
  {
    (Signed(x) / Pow2(n)) % B
  }

  // ----- Bitwise operators -------------------------------------------------------------------

  function Or(x: nat, y: nat): (r: nat)
    ensures r <= x + y
    decreases x + y
  {
    if x == 0 then y
    else if y == 0 then x
    else 2 * Or(x / 2, y / 2) + if x % 2 == 1 || y % 2 == 1 then 1 else 0
  }

  function And(x: nat, y: nat): (r: nat)
    ensures r <= x && r <= y
    decreases x + y
  {
    if x == 0 || y == 0 then 0
    else 2 * And(x / 2, y / 2) + if x % 2 == 1 && y % 2 == 1 then 1 else 0
  }

  function Xor(x: nat, y: nat): (r: nat)
    ensures r <= x + y
    decreases x + y
  {
    if x == 0 then y
    else if y == 0 then x
    else 2 * Xor(x / 2, y / 2) + if x % 2 != y % 2 then 1 else 0
  }

  // Halving a multiple of 2^k.
  lemma HalfMultiple(x: nat, k: nat)
    requires k > 0 && x % Pow2(k) == 0
    ensures x % 2 == 0 && (x / 2) % Pow2(k - 1) == 0
  {
    DivTwice(x, 2, Pow2(k - 1));
  }

  // Or of numbers with no bit in common: a multiple of 2^k and a number below 2^k.
  lemma {:induction false} OrDisjoint(x: nat, y: nat, k: nat)
    requires x % Pow2(k) == 0 && y < Pow2(k)
    ensures Or(x, y) == x + y
    decreases k
  {
    if k > 0 && x > 0 && y > 0 {
      HalfMultiple(x, k);
      OrDisjoint(x / 2, y / 2, k - 1);
    }
  }

  // Masking with 2^k - 1.
  lemma {:induction false} AndMask(x: nat, k: nat)
    ensures And(x, Pow2(k) - 1) == x % Pow2(k)
    decreases k
  {
    if k > 0 {
      AndMask(x / 2, k - 1);
      DivTwice(x, 2, Pow2(k - 1));
    }
  }

  // Masking with a shifted mask.
  lemma {:induction false} AndShifted(x: nat, m: nat, k: nat)
    ensures 0 <= x / Pow2(k) && 0 <= m * Pow2(k)
    ensures And(x, m * Pow2(k)) == And(x / Pow2(k), m) * Pow2(k)
    decreases k
  {
    DivBounds(x, Pow2(k));
    MulNonneg(m, Pow2(k));
    if k > 0 {
      AndShifted(x / 2, m, k - 1);
      DivTwice(x, 2, Pow2(k - 1));
      ShiftMask(x, m, Pow2(k - 1), And(x / Pow2(k), m));
    }
  }

  lemma ShiftMask(x: nat, m: nat, p: int, t: nat)
    requires 1 <= p && 0 <= m * p && And(x / 2, m * p) == t * p
    ensures 0 <= m * (2 * p) && And(x, m * (2 * p)) == t * (2 * p)
  {
    MulSwap(m, 2, p);
    MulSwap(t, 2, p);
    DoubleMask(x, m * p);
  }

  lemma DoubleMask(x: nat, m: nat)
    ensures And(x, 2 * m) == 2 * And(x / 2, m)
  {
    if x > 0 && m > 0 {
      var d := 2 * m;
      assert d / 2 == m && d % 2 == 0;
      assert And(x, d) == 2 * And(x / 2, d / 2);
    }
  }

  // Flipping a bit that is set clears it.
  lemma {:induction false} XorLead(x: nat, k: nat)
    requires Pow2(k) <= x < 2 * Pow2(k)
    ensures Xor(x, Pow2(k)) == x - Pow2(k)
    decreases k
  {
    if k > 0 {
      XorLead(x / 2, k - 1);
    }
  }

  // Flipping a bit that is clear, above all the others, sets it.
  lemma {:induction false} XorAbove(x: nat, k: nat)
    requires x < Pow2(k)
    ensures Xor(x, Pow2(k)) == x + Pow2(k)
    decreases k
  {
    if k > 0 {
      XorAbove(x / 2, k - 1);
      assert Pow2(k) / 2 == Pow2(k - 1) && Pow2(k) % 2 == 0;
    }
  }

  lemma {:induction false} OrCommutes(x: nat, y: nat)
    ensures Or(x, y) == Or(y, x)
    decreases x + y
  {
    if x > 0 && y > 0 {
      OrCommutes(x / 2, y / 2);
    }
  }
}
