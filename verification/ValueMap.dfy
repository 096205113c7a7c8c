// The code generator's map from values to the index they were assigned: a list in assignment
// order and, to search it fast, an open-addressed hash table holding each value's first index.
// Values are non-null pointers, an empty slot holds 0.
module ValueMap {
  import opened Arith
  import opened Words

  // ----- The list --------------------------------------------------------------------------------

  // The scan the table stands in for: the first index of v, or -1.
  function FirstIndex(vals: seq<int>, v: int): (i: int)
    ensures -1 <= i < |vals|
    ensures i == -1 <==> v !in vals
    ensures i >= 0 ==> vals[i] == v && forall j :: 0 <= j < i ==> vals[j] != v
  {
    if vals == [] then -1
    else if vals[0] == v then 0
    else
      var i := FirstIndex(vals[1..], v);
      if i == -1 then -1 else i + 1
  }

  lemma {:induction false} FirstIndexAppend(vals: seq<int>, v: int, x: int)
    ensures FirstIndex(vals + [x], v) ==
            if v in vals then FirstIndex(vals, v) else if x == v then |vals| else -1
  {
    if vals != [] && vals[0] != v {
      FirstIndexAppend(vals[1..], v, x);
      assert (vals + [x])[1..] == vals[1..] + [x];
    }
  }

  // ----- The table --------------------------------------------------------------------------------

  // The slot k places on from h, around the end.
  function Around(h: int, k: int, cap: int): (p: int)
    requires 0 < cap
    ensures 0 <= p < cap
  {
    (h + k) % cap
  }

  function Home(v: int, cap: int): (h: int)
    requires 0 < cap && 0 <= v
    ensures 0 <= h < cap
  {
    v / 16 % cap
  }

  // How far p lies beyond h.
  function Distance(h: int, p: int, cap: int): (d: int)
    requires 0 <= h < cap && 0 <= p < cap
    ensures 0 <= d < cap && Around(h, d, cap) == p
    ensures forall k {:trigger Around(h, k, cap)} :: 0 <= k < cap && Around(h, k, cap) == p ==> k == d
  {
    DistanceIs(h, p, cap);
    if p >= h then p - h else p - h + cap
  }

  lemma DistanceIs(h: int, p: int, cap: int)
    requires 0 <= h < cap && 0 <= p < cap
    ensures var d := if p >= h then p - h else p - h + cap;
            Around(h, d, cap) == p && forall k {:trigger Around(h, k, cap)} :: 0 <= k < cap && Around(h, k, cap) == p ==> k == d
  {
    var d := if p >= h then p - h else p - h + cap;
    DivModUnique(h + d, cap, if p >= h then 0 else 1, p);
    forall k | 0 <= k < cap && Around(h, k, cap) == p
      ensures k == d
    {
      DivModUnique(h + k, cap, if h + k < cap then 0 else 1, if h + k < cap then h + k else h + k - cap);
    }
  }

  // Every slot from v's home up to p, d places on, is taken.
  ghost predicate Chained(keys: seq<int>, v: int, d: int)
    requires 0 < |keys| && 0 <= v
  {
    forall k {:trigger Around(Home(v, |keys|), k, |keys|)} ::
      0 <= k <= d ==> keys[Around(Home(v, |keys|), k, |keys|)] != 0
  }

  // Slot p holds a value of vals with its first index, reachable from the value's home.
  ghost predicate SlotOk(keys: seq<int>, idxs: seq<int>, vals: seq<int>, p: int)
    requires 0 <= p < |keys| == |idxs|
  {
    keys[p] != 0 ==>
      && 0 < keys[p] && idxs[p] == FirstIndex(vals, keys[p]) && keys[p] in vals
      && Chained(keys, keys[p], Distance(Home(keys[p], |keys|), p, |keys|))
  }

  ghost predicate Holds(keys: seq<int>, v: int) {
    exists p :: 0 <= p < |keys| && keys[p] == v
  }

  ghost predicate Mirrors(keys: seq<int>, idxs: seq<int>, vals: seq<int>) {
    && |keys| == |idxs|
    && (forall p :: 0 <= p < |keys| ==> SlotOk(keys, idxs, vals, p))
    && (forall p, q :: 0 <= p < q < |keys| && keys[p] != 0 ==> keys[p] != keys[q])
    && (forall v :: v in vals ==> 0 < v && Holds(keys, v))
  }

  // The number of slots taken.
  function Taken(keys: seq<int>): (n: int)
    ensures 0 <= n <= |keys|
  {
    if keys == [] then 0 else (if keys[0] != 0 then 1 else 0) + Taken(keys[1..])
  }

  lemma {:induction false} TakenUpdate(keys: seq<int>, p: int, v: int)
    requires 0 <= p < |keys| && keys[p] == 0 && v != 0
    ensures Taken(keys[p := v]) == Taken(keys) + 1
  {
    if p > 0 {
      TakenUpdate(keys[1..], p - 1, v);
      assert keys[p := v][1..] == keys[1..][p - 1 := v];
    } else {
      assert keys[p := v][1..] == keys[1..];
    }
  }

  lemma {:induction false} EmptySlot(keys: seq<int>) returns (e: int)
    requires Taken(keys) < |keys|
    ensures 0 <= e < |keys| && keys[e] == 0
  {
    if keys[0] == 0 {
      e := 0;
    } else {
      e := EmptySlot(keys[1..]);
      e := e + 1;
    }
  }

  lemma {:induction false} AllEmpty(keys: seq<int>)
    requires forall p :: 0 <= p < |keys| ==> keys[p] == 0
    ensures Taken(keys) == 0
  {
    if keys != [] {
      AllEmpty(keys[1..]);
    }
  }

  ghost predicate PowerOfTwo(n: int) {
    exists k: nat :: n == Pow2(k)
  }

  // x & (cap - 1)
  function Mask(x: nat, cap: int): (r: int)
    requires 0 < cap && PowerOfTwo(cap)
    ensures r == x % cap
  {
    MaskIs(x, cap);
    And(x, cap - 1)
  }

  lemma MaskIs(x: nat, cap: int)
    requires 0 < cap && PowerOfTwo(cap)
    ensures And(x, cap - 1) == x % cap
  {
    var k: nat :| cap == Pow2(k);
    AndMask(x, k);
  }

  lemma NextSlot(h: int, d: int, cap: int)
    requires 0 < cap && 0 <= h < cap && 0 <= d
    ensures Around(h, d + 1, cap) == (Around(h, d, cap) + 1) % cap
  {
    DivMod(h + d, cap);
    var r := (h + d) % cap;
    if r + 1 < cap {
      DivModUnique(h + d + 1, cap, (h + d) / cap, r + 1);
      DivModUnique(r + 1, cap, 0, r + 1);
    } else {
      MulAdd(cap, (h + d) / cap, 1);
      DivModUnique(h + d + 1, cap, (h + d) / cap + 1, 0);
      DivModUnique(r + 1, cap, 1, 0);
    }
  }

  // ----- Probing -------------------------------------------------------------------------------------

  // Slots 0..d-1 from v's home have been seen, taken by other values.
  ghost predicate Seen(keys: seq<int>, v: int, d: int)
    requires 0 < |keys| && 0 <= v
  {
    forall k {:trigger Around(Home(v, |keys|), k, |keys|)} ::
      0 <= k < d ==> keys[Around(Home(v, |keys|), k, |keys|)] != 0 && keys[Around(Home(v, |keys|), k, |keys|)] != v
  }

  // A probe that reaches an empty slot has passed wherever v could be.
  lemma AbsentAfter(keys: seq<int>, idxs: seq<int>, vals: seq<int>, v: int, d: int)
    requires Mirrors(keys, idxs, vals) && 0 < |keys| && 0 < v && 0 <= d < |keys|
    requires Seen(keys, v, d) && keys[Around(Home(v, |keys|), d, |keys|)] == 0
    ensures v !in vals && !Holds(keys, v)
  {
    forall p | 0 <= p < |keys|
      ensures keys[p] != v
    {
      var far := Distance(Home(v, |keys|), p, |keys|);
      assert SlotOk(keys, idxs, vals, p);
      assert Around(Home(v, |keys|), far, |keys|) == p;
    }
    assert v in vals ==> Holds(keys, v);
  }

  // The probe goes on while it meets other values, and stops at the latest at slot `far`.
  lemma ProbeStep(keys: seq<int>, v: int, d: int, far: int)
    requires 0 < |keys| && 0 < v && 0 <= d <= far < |keys| && Seen(keys, v, d)
    requires keys[Around(Home(v, |keys|), far, |keys|)] == 0
    requires var h := Around(Home(v, |keys|), d, |keys|); keys[h] != 0 && keys[h] != v
    ensures d < far && Seen(keys, v, d + 1)
    ensures Around(Home(v, |keys|), d + 1, |keys|) == (Around(Home(v, |keys|), d, |keys|) + 1) % |keys|
  {
    NextSlot(Home(v, |keys|), d, |keys|);
  }

  // The probe starts at home, with an empty slot ahead.
  lemma EmptyAhead(keys: seq<int>, v: int) returns (far: int)
    requires 0 < v && Taken(keys) < |keys|
    ensures 0 <= far < |keys| && keys[Around(Home(v, |keys|), far, |keys|)] == 0
    ensures Around(Home(v, |keys|), 0, |keys|) == v / 16 % |keys| && Seen(keys, v, 0)
  {
    DivModUnique(Home(v, |keys|), |keys|, 0, Home(v, |keys|));
    var e := EmptySlot(keys);
    far := Distance(Home(v, |keys|), e, |keys|);
  }

  // v stored d places from its home.
  lemma StoreKeeps(keys: seq<int>, idxs: seq<int>, vals: seq<int>, v: int, d: int, p: int)
    requires Mirrors(keys, idxs, vals) && 0 < |keys| && 0 < v && 0 <= d < |keys|
    requires p == Around(Home(v, |keys|), d, |keys|) && Seen(keys, v, d) && keys[p] == 0
    ensures Mirrors(keys[p := v], idxs[p := |vals|], vals + [v])
    ensures Taken(keys[p := v]) == Taken(keys) + 1
  {
    AbsentAfter(keys, idxs, vals, v, d);
    TakenUpdate(keys, p, v);
    var keys1, idxs1, vals1 := keys[p := v], idxs[p := |vals|], vals + [v];
    forall q | 0 <= q < |keys|
      ensures SlotOk(keys1, idxs1, vals1, q)
    {
      assert SlotOk(keys, idxs, vals, q);
      FirstIndexAppend(vals, keys1[q], v);
    }
    forall x | x in vals1
      ensures 0 < x && Holds(keys1, x)
    {
      StillHeld(keys, keys1, vals, v, p, x);
    }
  }

  lemma StillHeld(keys: seq<int>, keys1: seq<int>, vals: seq<int>, v: int, p: int, x: int)
    requires 0 <= p < |keys| && keys[p] == 0 && 0 < v && keys1 == keys[p := v]
    requires x == v || (x in vals && 0 < x && Holds(keys, x))
    ensures 0 < x && Holds(keys1, x)
  {
    if x == v {
      assert keys1[p] == x;
    } else {
      var q :| 0 <= q < |keys| && keys[q] == x;
      assert keys1[q] == x;
    }
  }

  // A value already present keeps its first index.
  lemma PresentKeeps(keys: seq<int>, idxs: seq<int>, vals: seq<int>, v: int)
    requires Mirrors(keys, idxs, vals) && v in vals
    ensures Mirrors(keys, idxs, vals + [v])
  {
    forall q | 0 <= q < |keys|
      ensures SlotOk(keys, idxs, vals + [v], q)
    {
      assert SlotOk(keys, idxs, vals, q);
      FirstIndexAppend(vals, keys[q], v);
    }
  }

  // ----- The map ---------------------------------------------------------------------------------------

  class Map {
    var vals: seq<int>
    var regs: seq<int>
    var key: array<int>
    var idx: array<int>

    constructor ()
      ensures Valid() && vals == [] && regs == [] && fresh(key) && fresh(idx)
    {
      vals, regs := [], [];
      key, idx := new int[0], new int[0];
    }

    // The table mirrors the list and is at most half full.
    ghost predicate Valid()
      reads this, key, idx
    {
      && key != idx && |vals| == |regs| && Table(|vals|) && 2 * |vals| <= key.Length
    }

    ghost predicate Table(n: nat)
      reads this, key, idx
      requires n <= |vals|
    {
      && key.Length == idx.Length && (key.Length == 0 || PowerOfTwo(key.Length))
      && Mirrors(key[..], idx[..], vals[..n]) && Taken(key[..]) <= n
    }

    // The index of v's first assignment, without scanning the list.
    method Lookup(v: nat) returns (i: int)
      requires Valid() && 0 < v
      ensures i == FirstIndex(vals, v)
    {
      assert vals[..|vals|] == vals;
      if key.Length == 0 {
        return -1;
      }
      ghost var keys, d := key[..], 0;
      ghost var far := EmptyAhead(keys, v);
      var h := Mask(v / 16, key.Length);
      while key[h] != 0
        invariant 0 <= d <= far && 0 <= h < key.Length && h == Around(Home(v, |keys|), d, |keys|)
        invariant Seen(keys, v, d)
        decreases far - d
      {
        assert SlotOk(keys, idx[..], vals, h);
        if key[h] == v {
          return idx[h];
        }
        ProbeStep(keys, v, d, far);
        h := Mask(h + 1, key.Length);
        d := d + 1;
      }
      AbsentAfter(keys, idx[..], vals, v, d);
      i := -1;
    }

    // Enters vals[n] with index n; a value already there keeps its first index.
    method Put(v: nat, n: nat)
      requires key != idx && n < |vals| && vals[n] == v && 0 < v && Table(n) && n < key.Length
      modifies key, idx
      ensures Table(n + 1)
    {
      assert vals[..n + 1] == vals[..n] + [v];
      ghost var keys, idxs, d := key[..], idx[..], 0;
      ghost var far := EmptyAhead(keys, v);
      var h := Mask(v / 16, key.Length);
      while key[h] != 0
        invariant 0 <= d <= far && 0 <= h < key.Length && h == Around(Home(v, |keys|), d, |keys|)
        invariant Seen(keys, v, d) && key[..] == keys && idx[..] == idxs
        decreases far - d
      {
        if key[h] == v {
          assert SlotOk(keys, idxs, vals[..n], h);
          PresentKeeps(keys, idxs, vals[..n], v);
          return;
        }
        ProbeStep(keys, v, d, far);
        h := Mask(h + 1, key.Length);
        d := d + 1;
      }
      StoreKeeps(keys, idxs, vals[..n], v, d, h);
      key[h] := v;
      idx[h] := n;
      assert key[..] == keys[h := v] && idx[..] == idxs[h := n];
    }

    // A larger table with the same entries.
    method Grow(n: nat, minCap: nat)
      requires n <= |vals| && (forall i :: 0 <= i < n ==> 0 < vals[i]) && 2 * n <= minCap
      requires key.Length == 0 || PowerOfTwo(key.Length)
      modifies this`key, this`idx
      ensures fresh(key) && fresh(idx) && key != idx && Table(n) && minCap <= key.Length
    {
      var cap := if key.Length != 0 then key.Length else 64;
      SixtyFour();
      while cap < minCap
        invariant 0 < cap && PowerOfTwo(cap)
        decreases minCap - cap
      {
        DoublePower(cap);
        cap := cap * 2;
      }
      key := new int[cap](_ => 0);
      idx := new int[cap](_ => 0);
      AllEmpty(key[..]);
      assert vals[..0] == [];
      ghost var k, x := key, idx;
      for i := 0 to n
        invariant key == k && idx == x && Table(i) && fresh(key) && fresh(idx) && key != idx && key.Length == cap
      {
        Put(vals[i], i);
      }
    }

    // Records that v is in register r, at the next index.
    method Assign(v: nat, r: int)
      requires Valid() && 0 < v
      modifies this, key, idx
      ensures Valid() && vals == old(vals) + [v] && regs == old(regs) + [r]
      ensures (key == old(key) && idx == old(idx)) || (fresh(key) && fresh(idx))
    {
      assert vals[..|vals|] == vals;
      assert forall i :: 0 <= i < |vals| ==> vals[i] in vals;
      var n := |vals|;
      vals, regs := vals + [v], regs + [r];
      assert vals[..n] == old(vals) && vals[..n + 1] == vals;
      if key.Length < 2 * (n + 1) {
        Grow(n, 2 * (n + 1));
      }
      Put(v, n);
    }

    // Forgets everything between functions; the table keeps its size.
    method Reset()
      requires Valid()
      modifies this, key
      ensures Valid() && vals == [] && regs == [] && key == old(key) && idx == old(idx)
    {
      vals, regs := [], [];
      for i := 0 to key.Length
        invariant vals == [] && regs == [] && key == old(key) && idx == old(idx)
        invariant forall p :: 0 <= p < i ==> key[p] == 0
      {
        key[i] := 0;
      }
      AllEmpty(key[..]);
    }
  }

  lemma SixtyFour()
    ensures PowerOfTwo(64)
  {
    assert Pow2(6) == 64;
  }

  lemma DoublePower(n: int)
    requires PowerOfTwo(n)
    ensures PowerOfTwo(2 * n)
  {
    var k: nat :| n == Pow2(k);
    assert 2 * n == Pow2(k + 1);
  }
}
