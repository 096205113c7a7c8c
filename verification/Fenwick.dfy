// A Fenwick tree over instruction positions, and what it counts.
module Fenwick {

  // How many positions of s lie below x.
  ghost function Count(s: set<int>, x: int): (n: int)
    ensures 0 <= n && (x >= 0 ==> n <= x)
    decreases x
  {
    if x <= 0 then 0 else Count(s, x - 1) + (if x - 1 in s then 1 else 0)
  }

  lemma {:induction false} CountAdd(s: set<int>, p: int, x: int)
    requires 0 <= p && p !in s
    ensures Count(s + {p}, x) == Count(s, x) + (if p < x then 1 else 0)
    decreases x
  {
    if x > 0 {
      CountAdd(s, p, x - 1);
    }
  }

  // Counts over a stretch grow with the set.
  lemma {:induction false} CountGrows(s: set<int>, t: set<int>, x: int, y: int)
    requires s <= t && 0 <= x <= y
    ensures 0 <= Count(s, y) - Count(s, x) <= Count(t, y) - Count(t, x)
    ensures Count(t, y) - Count(t, x) <= y - x
    decreases y
  {
    if x < y {
      CountGrows(s, t, x, y - 1);
    }
  }

  // i & -i for positive i: the largest power of two that divides it.
  function Lowbit(i: nat): (l: nat)
    requires i > 0
    ensures 1 <= l <= i
  {
    if i % 2 == 1 then 1 else 2 * Lowbit(i / 2)
  }

  // Strictly inside i's responsibility there is nothing that reaches below i.
  lemma {:induction false} LowbitInside(i: nat, d: nat)
    requires i > 0 && 0 < d < Lowbit(i)
    ensures Lowbit(i + d) <= d
  {
    if d % 2 == 0 {
      LowbitInside(i / 2, d / 2);
      assert (i + d) / 2 == i / 2 + d / 2;
    }
  }

  lemma {:induction false} LowbitDoubles(i: nat)
    requires i > 0
    ensures Lowbit(i + Lowbit(i)) >= 2 * Lowbit(i)
  {
    if i % 2 == 0 {
      LowbitDoubles(i / 2);
      assert (i + Lowbit(i)) / 2 == i / 2 + Lowbit(i / 2);
    }
  }

  // bit[i] counts the positions in [i - Lowbit(i), i).
  ghost predicate Cell(bit: seq<int>, s: set<int>, i: nat)
    requires 0 < i < |bit|
  {
    bit[i] == Count(s, i) - Count(s, i - Lowbit(i))
  }

  ghost predicate Represents(bit: seq<int>, s: set<int>) {
    forall i :: 0 < i < |bit| ==> Cell(bit, s, i)
  }

  // Is position p among those cell i is responsible for?
  predicate Covers(i: nat, p: nat)
    requires i > 0
  {
    i - Lowbit(i) <= p < i
  }

  // From a covering cell the next one is Lowbit further.
  lemma NextCover(i: nat, p: nat, j: nat)
    requires i > 0 && Covers(i, p) && i < j
    ensures Covers(i + Lowbit(i), p)
    ensures j < i + Lowbit(i) ==> !Covers(j, p)
  {
    LowbitDoubles(i);
    if j < i + Lowbit(i) {
      LowbitInside(i, j - i);
    }
  }

  lemma CellAfterAdd(bit: seq<int>, bit': seq<int>, s: set<int>, p: nat, i: nat)
    requires 0 < i < |bit| == |bit'| && p !in s && Cell(bit, s, i)
    requires bit'[i] == bit[i] + (if Covers(i, p) then 1 else 0)
    ensures Cell(bit', s + {p}, i)
  {
    CountAdd(s, p, i);
    CountAdd(s, p, i - Lowbit(i));
  }

  // cg_fen_add: n is the number of positions, bit has n + 1 cells.
  method FenAdd(bit: array<int>, pos: nat, ghost s: set<int>)
    requires pos + 1 < bit.Length && pos !in s && Represents(bit[..], s)
    modifies bit
    ensures Represents(bit[..], s + {pos})
  {
    ghost var bit0 := bit[..];
    var i := pos + 1;
    var n := bit.Length - 1;
    assert Covers(i, pos);
    while i <= n
      invariant 0 < i && Covers(i, pos)
      invariant forall j :: 0 < j < bit.Length ==>
                  bit[j] == bit0[j] + (if j < i && Covers(j, pos) then 1 else 0)
      decreases n + 1 - i
    {
      forall j | i < j < i + Lowbit(i)
        ensures !Covers(j, pos)
      {
        NextCover(i, pos, j);
      }
      NextCover(i, pos, i + 1);
      bit[i] := bit[i] + 1;
      i := i + Lowbit(i);
    }
    forall j | 0 < j < bit.Length
      ensures Cell(bit[..], s + {pos}, j)
    {
      assert Cell(bit0, s, j);
      CellAfterAdd(bit0, bit[..], s, pos, j);
    }
  }

  // cg_fen_below: how many positions lie below x.
  method FenBelow(bit: array<int>, x: nat, ghost s: set<int>) returns (sum: int)
    requires x < bit.Length && Represents(bit[..], s)
    ensures sum == Count(s, x)
  {
    sum := 0;
    var i := x;
    while i > 0
      invariant 0 <= i <= x && sum == Count(s, x) - Count(s, i)
      decreases i
    {
      assert Cell(bit[..], s, i);
      sum := sum + bit[i];
      i := i - Lowbit(i);
    }
  }
}
