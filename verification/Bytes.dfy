// Bytes, little-endian words, and the CRC that seals a file.
module Bytes {
  import opened Words

  type Byte = x: int | 0 <= x < 256

  // put_u32_le
  function Enc(w: u32): (b: seq<Byte>)
    ensures |b| == 4
  {
    [w % 256, w / 256 % 256, w / 256 / 256 % 256, w / 256 / 256 / 256]
  }

  // read_u32_le
  function Word(b: seq<Byte>, at: nat): u32
    requires at + 4 <= |b|
  {
    var b0: int, b1: int, b2: int, b3: int := b[at], b[at + 1], b[at + 2], b[at + 3];
    b0 + 0x100 * b1 + 0x1_0000 * b2 + 0x100_0000 * b3
  }

  // p is what b holds from `at` on.
  ghost predicate Sits(b: seq<Byte>, at: nat, p: seq<Byte>) {
    at + |p| <= |b| && forall k :: 0 <= k < |p| ==> b[at + k] == p[k]
  }

  lemma SitsIn(b: seq<Byte>, at: nat, p: seq<Byte>, i: nat, x: seq<Byte>)
    requires Sits(b, at, p) && Sits(p, i, x)
    ensures Sits(b, at + i, x)
  {
    forall k | 0 <= k < |x| ensures b[at + i + k] == x[k] {
      assert p[i + k] == x[k];
    }
  }

  lemma SitsJoined(a: seq<Byte>, p: seq<Byte>, c: seq<Byte>)
    ensures Sits(a + p + c, |a|, p)
  {
  }

  lemma SitsLeft(a: seq<Byte>, c: seq<Byte>, i: nat, x: seq<Byte>)
    requires Sits(a, i, x)
    ensures Sits(a + c, i, x)
  {
  }

  lemma SitsRight(a: seq<Byte>, x: seq<Byte>)
    ensures Sits(a + x, |a|, x)
  {
  }

  lemma SitsSlice(b: seq<Byte>, at: nat, p: seq<Byte>)
    requires Sits(b, at, p)
    ensures b[at..at + |p|] == p
  {
  }

  lemma SitsWord(b: seq<Byte>, at: nat, p: seq<Byte>, i: nat)
    requires Sits(b, at, p) && i + 4 <= |p|
    ensures Word(b, at + i) == Word(p, i)
  {
    assert p[i] == b[at + i] && p[i + 1] == b[at + (i + 1)] && p[i + 2] == b[at + (i + 2)] && p[i + 3] == b[at + (i + 3)];
  }

  lemma WordOfEnc(w: u32)
    ensures Word(Enc(w), 0) == w
  {
    var x := w / 256;
    var y := x / 256;
    var z := y / 256;
    assert w == 256 * x + w % 256 && x == 256 * y + x % 256 && y == 256 * z + y % 256;
  }

  lemma SitsEnc(b: seq<Byte>, at: nat, w: u32)
    requires Sits(b, at, Enc(w))
    ensures Word(b, at) == w
  {
    WordOfEnc(w);
    SitsWord(b, at, Enc(w), 0);
  }

  function EncWords(ws: seq<u32>): (b: seq<Byte>)
    ensures |b| == 4 * |ws|
  {
    if ws == [] then [] else Enc(ws[0]) + EncWords(ws[1..])
  }

  lemma {:induction false} WordOfWords(ws: seq<u32>, i: nat)
    requires i < |ws|
    ensures Word(EncWords(ws), 4 * i) == ws[i]
  {
    var e, rest := Enc(ws[0]), EncWords(ws[1..]);
    if i == 0 {
      FirstWord(e, rest, ws[0]);
    } else {
      WordOfWords(ws[1..], i - 1);
      LaterWord(e, rest, 4 * (i - 1));
    }
  }

  lemma FirstWord(e: seq<Byte>, rest: seq<Byte>, w: u32)
    requires e == Enc(w)
    ensures Word(e + rest, 0) == w
  {
    WordOfEnc(w);
  }

  lemma LaterWord(e: seq<Byte>, rest: seq<Byte>, i: nat)
    requires |e| == 4 && i + 4 <= |rest|
    ensures Word(e + rest, 4 + i) == Word(rest, i)
  {
    var b := e + rest;
    assert b[4 + i] == rest[i] && b[4 + i + 1] == rest[i + 1] && b[4 + i + 2] == rest[i + 2] && b[4 + i + 3] == rest[i + 3];
  }

  lemma {:induction false} EncWordsAppend(ws: seq<u32>, w: u32)
    ensures EncWords(ws + [w]) == EncWords(ws) + Enc(w)
  {
    if ws == [] {
      assert EncWords([w]) == Enc(w) + EncWords([]);
    } else {
      EncWordsAppend(ws[1..], w);
      assert (ws + [w])[1..] == ws[1..] + [w];
    }
  }

  function Zeros(n: nat): (b: seq<Byte>)
    ensures |b| == n && forall k :: 0 <= k < n ==> b[k] == 0
  {
    seq(n, _ => 0)
  }

  // The bytes of a NUL-terminated string that starts b, or all of b.
  function CString(b: seq<Byte>): (s: seq<Byte>)
    ensures |s| <= |b| && s == b[..|s|] && 0 !in s && (|s| < |b| ==> b[|s|] == 0)
  {
    if b == [] || b[0] == 0 then [] else
      var s := CString(b[1..]);
      assert b[..|s| + 1] == [b[0]] + b[1..][..|s|];
      [b[0]] + s
  }

  lemma {:induction false} CStringOf(s: seq<Byte>, rest: seq<Byte>)
    requires 0 !in s
    ensures CString(s + [0] + rest) == s
  {
    if s != [] {
      CStringOf(s[1..], rest);
      assert (s + [0] + rest)[1..] == s[1..] + [0] + rest;
    }
  }

  // ----- CRC-32 (IEEE 802.3) ----------------------------------------------------------------------

  const POLYNOMIAL: u32 := 0xEDB8_8320

  lemma {:induction false} XorHalves(x: nat, y: nat)
    ensures Xor(x, y) / 2 == Xor(x / 2, y / 2) && Xor(x, y) % 2 == (x + y) % 2
  {
  }

  lemma {:induction false} XorCancels(a: nat, b: nat, x: nat)
    requires Xor(a, x) == Xor(b, x)
    ensures a == b
    decreases a + b
  {
    if a > 0 || b > 0 {
      XorHalves(a, x);
      XorHalves(b, x);
      XorCancels(a / 2, b / 2, x / 2);
    }
  }

  lemma {:induction false} XorCommutes(x: nat, y: nat)
    ensures Xor(x, y) == Xor(y, x)
    decreases x + y
  {
    if x > 0 && y > 0 { XorCommutes(x / 2, y / 2); }
  }

  lemma {:induction false} XorBelow(x: nat, y: nat, k: nat)
    requires x < Pow2(k) && y < Pow2(k)
    ensures Xor(x, y) < Pow2(k)
    decreases k
  {
    if k > 0 {
      XorHalves(x, y);
      XorBelow(x / 2, y / 2, k - 1);
    }
  }

  // The top bit of y is the top bit of the result.
  lemma {:induction false} XorTop(x: nat, y: nat, k: nat)
    requires x < Pow2(k) <= y < Pow2(k + 1)
    ensures Pow2(k) <= Xor(x, y) < Pow2(k + 1)
    decreases k
  {
    XorHalves(x, y);
    if k > 0 {
      XorTop(x / 2, y / 2, k - 1);
    } else {
      assert Xor(0, 1) == 1;
    }
  }

  lemma Xor32(x: u32, y: u32)
    ensures 0 <= Xor(x, y) < B
  {
    Pow2Values();
    XorBelow(x, y, 32);
  }

  function CrcBit(c: u32): u32 {
    Xor32(c / 2, POLYNOMIAL);
    if c % 2 == 1 then Xor(c / 2, POLYNOMIAL) else c / 2
  }

  function CrcBits(c: u32, n: nat): u32 {
    if n == 0 then c else CrcBit(CrcBits(c, n - 1))
  }

  function CrcByte(c: u32, b: Byte): u32 {
    Xor32(c, b);
    CrcBits(Xor(c, b), 8)
  }

  function CrcFrom(c: u32, b: seq<Byte>): u32 {
    if b == [] then c else CrcByte(CrcFrom(c, b[..|b| - 1]), b[|b| - 1])
  }

  function Crc(b: seq<Byte>): u32 {
    Not(CrcFrom(0xFFFF_FFFF, b))
  }

  // cvm_crc32: of the first n bytes. The final exclusive-or with all ones is Not.
  method Crc32(b: seq<Byte>, n: nat) returns (crc: u32)
    requires n <= |b|
    ensures crc == Crc(b[..n])
  {
    var c: u32 := 0xFFFF_FFFF;
    var i := 0;
    assert b[..0] == [];
    while i < n
      invariant i <= n && c == CrcFrom(0xFFFF_FFFF, b[..i])
    {
      Xor32(c, b[i]);
      ghost var c0: u32 := Xor(c, b[i]);
      c := Xor(c, b[i]);
      var k := 0;
      while k < 8
        invariant k <= 8 && c == CrcBits(c0, k)
      {
        Xor32(c / 2, POLYNOMIAL);
        c := if c % 2 == 1 then Xor(c / 2, POLYNOMIAL) else c / 2;
        k := k + 1;
      }
      assert b[..i + 1][..i] == b[..i];
      i := i + 1;
    }
    crc := Not(c);
  }

  // The polynomial has its top bit set, so the bit shifted out can be told from the result.
  lemma CrcBitInjective(a: u32, b: u32)
    requires CrcBit(a) == CrcBit(b)
    ensures a == b
  {
    Pow2Values();
    XorTop(a / 2, POLYNOMIAL, 31);
    XorTop(b / 2, POLYNOMIAL, 31);
    if a % 2 == 1 && b % 2 == 1 { XorCancels(a / 2, b / 2, POLYNOMIAL); }
  }

  lemma {:induction false} CrcBitsInjective(a: u32, b: u32, n: nat)
    requires CrcBits(a, n) == CrcBits(b, n)
    ensures a == b
  {
    if n > 0 {
      CrcBitInjective(CrcBits(a, n - 1), CrcBits(b, n - 1));
      CrcBitsInjective(a, b, n - 1);
    }
  }

  lemma CrcByteInjective(a: u32, b: u32, x: Byte)
    requires CrcByte(a, x) == CrcByte(b, x)
    ensures a == b
  {
    Xor32(a, x);
    Xor32(b, x);
    CrcBitsInjective(Xor(a, x), Xor(b, x), 8);
    XorCancels(a, b, x);
  }

  lemma CrcByteDistinguishes(c: u32, x: Byte, y: Byte)
    requires CrcByte(c, x) == CrcByte(c, y)
    ensures x == y
  {
    Xor32(c, x);
    Xor32(c, y);
    CrcBitsInjective(Xor(c, x), Xor(c, y), 8);
    XorCommutes(c, x);
    XorCommutes(c, y);
    XorCancels(x, y, c);
  }

  // Two files of one length that differ in exactly one byte have different CRCs.
  lemma {:induction false} CrcDetects(a: seq<Byte>, b: seq<Byte>, c: u32, k: nat)
    requires |a| == |b| && k < |a| && a[k] != b[k]
    requires forall i :: 0 <= i < |a| && i != k ==> a[i] == b[i]
    ensures CrcFrom(c, a) != CrcFrom(c, b)
  {
    var n := |a| - 1;
    if k == n {
      assert a[..n] == b[..n];
      if CrcFrom(c, a) == CrcFrom(c, b) { CrcByteDistinguishes(CrcFrom(c, a[..n]), a[n], b[n]); }
    } else {
      CrcDetects(a[..n], b[..n], c, k);
      if CrcFrom(c, a) == CrcFrom(c, b) { CrcByteInjective(CrcFrom(c, a[..n]), CrcFrom(c, b[..n]), a[n]); }
    }
  }
}
