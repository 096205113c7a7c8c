// A 64-bit number held in two words, worked on as the float code does it: in place, half by half.
module WordPairs {
  import opened Arith
  import opened Words

  function Pair(hi: u32, lo: u32): (v: int)
    ensures 0 <= v < B * B
  {
    hi * B + lo
  }

  function DoubleHi(hi: u32, lo: u32): (r: u32)
    ensures r == (2 * hi) % B + lo / 0x8000_0000
  {
    DoubleWords(hi, lo);
    Or(Shl(hi, 1), Shr(lo, 31))
  }

  lemma DoubleWords(hi: u32, lo: u32)
    ensures Or(Shl(hi, 1), Shr(lo, 31)) == (2 * hi) % B + lo / 0x8000_0000 < B
    ensures Shl(lo, 1) == (2 * lo) % B
  {
    Pow2Values();
    OrDisjoint(Shl(hi, 1), Shr(lo, 31), 1);
  }

  lemma Doubled(hi: u32, lo: u32)
    requires hi < 0x8000_0000
    ensures Pair(DoubleHi(hi, lo), Shl(lo, 1)) == 2 * Pair(hi, lo)
    ensures Shl(lo, 1) % 2 == 0
  {
    DoubleWords(hi, lo);
    DoubledWord(lo);
    DivModUnique(2 * hi, B, 0, 2 * hi);
  }

  lemma DoubledWord(lo: u32)
    ensures (2 * lo) % B == 2 * lo - B * (lo / 0x8000_0000) && (2 * lo) % B % 2 == 0
  {
    var r := lo % 0x8000_0000;
    DivMod(lo, 0x8000_0000);
    DivModUnique(2 * lo, B, lo / 0x8000_0000, 2 * r);
    MultipleMod(2, r);
  }

  function HalfLo(hi: u32, lo: u32): (r: u32)
    ensures r == lo / 2 + hi % 2 * 0x8000_0000
  {
    HalveWords(hi, lo);
    Or(Shr(lo, 1), Shl(hi, 31))
  }

  lemma HalveWords(hi: u32, lo: u32)
    ensures Or(Shr(lo, 1), Shl(hi, 31)) == lo / 2 + hi % 2 * 0x8000_0000 < B
    ensures Shr(hi, 1) == hi / 2
  {
    Pow2Values();
    DivModUnique(hi * 0x8000_0000, B, hi / 2, hi % 2 * 0x8000_0000);
    MultipleMod(0x8000_0000, hi % 2);
    OrDisjoint(Shl(hi, 31), Shr(lo, 1), 31);
    OrCommutes(Shr(lo, 1), Shl(hi, 31));
  }

  lemma Halved(hi: u32, lo: u32)
    ensures Pair(Shr(hi, 1), HalfLo(hi, lo)) == Pair(hi, lo) / 2
  {
    HalveWords(hi, lo);
  }

  // hi1:lo1 minus hi2:lo2, with the borrow carried by hand.
  function SubHi(hi1: u32, lo1: u32, hi2: u32, lo2: u32): u32 {
    Sub(Sub(hi1, hi2), if lo1 < lo2 then 1 else 0)
  }

  lemma Subtracted(hi1: u32, lo1: u32, hi2: u32, lo2: u32)
    requires Pair(hi2, lo2) <= Pair(hi1, lo1)
    ensures Pair(SubHi(hi1, lo1, hi2, lo2), Sub(lo1, lo2)) == Pair(hi1, lo1) - Pair(hi2, lo2)
  {
  }

  predicate Less(hi1: u32, lo1: u32, hi2: u32, lo2: u32)
    ensures Less(hi1, lo1, hi2, lo2) <==> Pair(hi1, lo1) < Pair(hi2, lo2)
  {
    if hi1 != hi2 then hi1 < hi2 else lo1 < lo2
  }

  // The low bit of a pair, and setting it.
  lemma LowBit(hi: u32, lo: u32)
    ensures And(lo, 1) == lo % 2 == Pair(hi, lo) % 2
  {
    assert Pow2(1) == 2;
    AndMask(lo, 1);
    DivModUnique(Pair(hi, lo), 2, hi * 0x8000_0000 + lo / 2, lo % 2);
  }

  lemma SetLowBit(lo: u32)
    requires lo % 2 == 0
    ensures Or(lo, 1) == lo + 1 < B
  {
    assert Pow2(1) == 2;
    OrDisjoint(lo, 1, 1);
  }

  lemma OrIsZero(x: nat, y: nat)
    ensures Or(x, y) == 0 <==> x == 0 && y == 0
    decreases x + y
  {
    if x > 0 && y > 0 {
      OrIsZero(x / 2, y / 2);
    }
  }

  // Testing bit 21 of a word with at most that one set above the 21 low ones.
  lemma Bit21(w: u32)
    requires w < 0x40_0000
    ensures And(w, 0x20_0000) != 0 <==> w >= 0x20_0000
  {
    assert Pow2(1) == 2;
    Pow2Values();
    assert Pow2(21) == 32 * Pow2(16);
    AndShifted(w, 1, 21);
    AndMask(w / 0x20_0000, 1);
  }
}
