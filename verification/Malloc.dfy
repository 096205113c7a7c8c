// The boundary-tag allocator: one array of memory, a heap inside it, and the head of the
// free list.
module Malloc {
  import opened HeapBlocks

  const INT_LIMIT: int := 0x8000_0000

  // The largest request the size arithmetic does not wrap on.
  const MAX_REQUEST: int := 0x7FFF_FFF4

  // The sum or difference x of two ints, in 32-bit arithmetic.
  function Wrap32(x: int): (r: int)
    requires -2 * INT_LIMIT <= x < 2 * INT_LIMIT
    ensures -INT_LIMIT <= r < INT_LIMIT && (r - x) % (2 * INT_LIMIT) == 0
  {
    if x >= INT_LIMIT then x - 2 * INT_LIMIT else if x < -INT_LIMIT then x + 2 * INT_LIMIT else x
  }

  // x & ~3
  function Align4(x: int): int {
    x - x % 4
  }

  // The block size a request asks for: the payload rounded up to a multiple of 4 and to
  // at least 8, plus the two tags, in 32-bit arithmetic.
  function Want(bytes: int): int
    requires -INT_LIMIT <= bytes < INT_LIMIT
  {
    var need := Align4(Wrap32(bytes + 3));
    Wrap32((if need < 8 then 8 else need) + HDR + FTR)
  }

  // Up to MAX_REQUEST a block satisfies the request exactly when its payload has room; above,
  // what is asked for is no larger than the smallest block.
  lemma WantIsExact(bytes: int, size: int)
    requires 0 < bytes < INT_LIMIT && MIN_BLOCK <= size && size % 4 == 0
    ensures bytes <= MAX_REQUEST ==> Want(bytes) % 4 == 0 && MIN_BLOCK <= Want(bytes)
    ensures bytes <= MAX_REQUEST ==> (size >= Want(bytes) <==> size - HDR - FTR >= bytes)
    ensures bytes > MAX_REQUEST && size < INT_LIMIT ==> size - HDR - FTR < bytes
    ensures bytes > MAX_REQUEST ==> Want(bytes) == MIN_BLOCK || Want(bytes) <= -INT_LIMIT + MIN_BLOCK
  {
  }

  // The heap made in untouched memory: one free block, or none when it would be too small.
  ghost function Initial(m: Mem, start: int, size: int): Heap
    requires 0 < start && 0 <= size && start + size <= |m|
  {
    var total := Align4(size);
    if total >= MIN_BLOCK then
      var t := Tag(total, true);
      Heap(Pushed(Stamped(m, start, t), 0, start), start, start + total, start, map[start := t], [start])
    else
      Heap(m, start, start, 0, map[], [])
  }

  lemma InitialOk(m: Mem, start: int, size: int)
    requires 0 < start && 0 <= size && start + size <= |m|
    ensures HeapOk(Initial(m, start, size))
    ensures Undisturbed(m, Initial(m, start, size).m, start, start + size, map[])
  {
  }

  // ----- Freeing, step by step ------------------------------------------------------------------------

  // Block b has swallowed what was freed so far; its tags are still to be written.
  ghost predicate Freeing(h0: Heap, b0: int, h: Heap, b: int) {
    && Tiled(h.start, h.end, h.tags) && Coalesced(h.tags)
    && WrittenBut(h.m, h.end, h.tags, {b})
    && Linked(h.m, h.head, h.list) && Lists(h.tags, h.list, {})
    && b in h.tags && !h.tags[b].free
    && h.start == h0.start && h.end == h0.end
    && Live(h.tags) - {b} == Live(h0.tags) - {b0}
    && Undisturbed(h0.m, h.m, h.start, h.end, Live(h0.tags) - {b0})
  }

  // Taking node i, a neighbour of b, off the list and into b; left is the lower of the two.
  ghost function Swallowed(h: Heap, left: int, i: int): Heap
    requires Linked(h.m, h.head, h.list) && 0 <= i < |h.list|
    requires left in h.tags && End(h.tags, left) in h.tags
  {
    LinksOf(h.m, h.head, h.list, i);
    Heap(Unlinked(h.m, h.list[i]), h.start, h.end, UnlinkedHead(h.m, h.head, h.list[i]),
         Joined(h.tags, left, false), Without(h.list, i))
  }

  lemma SwallowTags(tags: Tags, list: seq<int>, start: int, end: int, left: int, b: int, i: int)
    requires Tiled(start, end, tags) && Coalesced(tags) && Lists(tags, list, {}) && Spaced(list)
    requires 0 <= i < |list| && left in tags && End(tags, left) in tags && b in tags && !tags[b].free
    requires (left == b && End(tags, left) == list[i]) || (left == list[i] && End(tags, left) == b)
    ensures Tiled(start, end, Joined(tags, left, false)) && Coalesced(Joined(tags, left, false))
    ensures Lists(Joined(tags, left, false), Without(list, i), {})
    ensures Live(Joined(tags, left, false)) - {left} == Live(tags) - {b}
  {
    JoinTiles(start, end, tags, left, false);
    JoinCoalesces(start, end, tags, left);
    var t, rest := Joined(tags, left, false), Without(list, i);
    forall c | c in t && t[c].free
      ensures c in rest
    {
      assert c in tags && c in list && c != list[i];
    }
  }

  lemma JoinCoalesces(start: int, end: int, tags: Tags, left: int)
    requires Tiled(start, end, tags) && Coalesced(tags) && left in tags && End(tags, left) in tags
    ensures Coalesced(Joined(tags, left, false))
  {
    var t := Joined(tags, left, false);
    forall c | c in t && t[c].free
      ensures RightLive(t, c)
    {
      assert c in tags && RightLive(tags, c) && End(t, c) == End(tags, c);
    }
  }

  lemma SwallowKeeps(h0: Heap, b0: int, h: Heap, b: int, left: int, i: int)
    requires Freeing(h0, b0, h, b) && 0 <= i < |h.list|
    requires left in h.tags && End(h.tags, left) in h.tags
    requires (left == b && End(h.tags, left) == h.list[i]) || (left == h.list[i] && End(h.tags, left) == b)
    ensures Freeing(h0, b0, Swallowed(h, left, i), left)
  {
    var k := Swallowed(h, left, i);
    SwallowTags(h.tags, h.list, h.start, h.end, left, b, i);
    UnlinkKeeps(h.m, h.head, h.list, i);
    UnlinkRelinks(h.m, h.head, h.list, i);
    RelinkUndisturbed(h.m, k.m, Nodes(h.list), h.start, h.end, h.tags, Live(h0.tags) - {b0});
    RelinkKeeps(h.m, k.m, Nodes(h.list), h.start, h.end, h.tags, {b});
    JoinedWords(k.m, h.end, h.tags, b, left);
  }

  lemma JoinedWords(m: Mem, end: int, tags: Tags, b: int, left: int)
    requires WrittenBut(m, end, tags, {b}) && left in tags && End(tags, left) in tags
    requires b == left || b == End(tags, left)
    ensures WrittenBut(m, end, Joined(tags, left, false), {left})
  {
    var t := Joined(tags, left, false);
    forall c | c in t && c != left
      ensures TagWords(m, t, c)
    {
      assert TagWords(m, tags, c);
    }
  }

  // The neighbours of b, if any, are live.
  ghost predicate Hemmed(tags: Tags, b: int)
    requires b in tags
  {
    RightLive(tags, b) && forall c {:trigger End(tags, c)} :: c in tags && End(tags, c) == b ==> !tags[c].free
  }

  lemma SwallowedRight(start: int, end: int, tags: Tags, b: int)
    requires Tiled(start, end, tags) && Coalesced(tags) && b in tags
    requires End(tags, b) in tags && tags[End(tags, b)].free
    ensures RightLive(Joined(tags, b, false), b)
  {
    var n := End(tags, b);
    assert BlockOk(start, end, tags, b) && BlockOk(start, end, tags, n) && RightLive(tags, n);
    assert End(Joined(tags, b, false), b) == End(tags, n);
  }

  lemma SwallowedLeft(start: int, end: int, tags: Tags, p: int, b: int)
    requires Tiled(start, end, tags) && Coalesced(tags) && p in tags && tags[p].free
    requires b in tags && End(tags, p) == b && RightLive(tags, b)
    ensures Hemmed(Joined(tags, p, false), p)
  {
    var t := Joined(tags, p, false);
    assert BlockOk(start, end, tags, p) && BlockOk(start, end, tags, b);
    assert End(t, p) == End(tags, b);
    forall c | c in t && End(t, c) == p
      ensures !t[c].free
    {
      assert c != p && End(tags, c) == p;
      assert tags[c].free ==> RightLive(tags, c);
    }
  }

  lemma NotSwallowedLeft(start: int, end: int, tags: Tags, b: int)
    requires Tiled(start, end, tags) && b in tags && RightLive(tags, b)
    requires b == start || exists p :: p in tags && End(tags, p) == b && !tags[p].free
    ensures Hemmed(tags, b)
  {
    if b != start {
      var p :| p in tags && End(tags, p) == b && !tags[p].free;
      assert BlockOk(start, end, tags, p);
    }
    forall c | c in tags && End(tags, c) == b
      ensures !tags[c].free
    {
      assert BlockOk(start, end, tags, c);
    }
  }

  // The words Free reads to find the neighbours of b.
  lemma ReadRight(h: Heap, b: int)
    requires Tiled(h.start, h.end, h.tags) && WrittenBut(h.m, h.end, h.tags, {b}) && b in h.tags
    ensures var n := End(h.tags, b);
            && 0 <= n && (n in h.tags <==> n < h.end)
            && (n < h.end ==> n < |h.m| && (h.m[n] % 2 == 1 <==> h.tags[n].free)
                              && h.m[n] - h.m[n] % 2 == h.tags[n].size)
  {
    var n := End(h.tags, b);
    assert BlockOk(h.start, h.end, h.tags, b);
    if n in h.tags {
      assert BlockOk(h.start, h.end, h.tags, n) && TagWords(h.m, h.tags, n);
      HeaderSize(h.tags[n]);
    }
  }

  // The address the footer before b leads to.
  function LeftOf(m: Mem, b: int): int
    requires FTR <= b <= |m|
  {
    b - m[b - FTR]
  }

  lemma ReadLeft(h: Heap, b: int)
    requires Tiled(h.start, h.end, h.tags) && WrittenBut(h.m, h.end, h.tags, {b}) && b in h.tags && h.start < b
    ensures h.start + FTR <= b < |h.m|
    ensures var p := LeftOf(h.m, b);
            && p in h.tags && p != b && 0 < h.start <= p && End(h.tags, p) == b && p + MIN_BLOCK <= |h.m|
            && (h.m[p] % 2 == 1 <==> h.tags[p].free)
  {
    var p := LeftNeighbour(h.start, h.end, h.tags, b);
    assert BlockOk(h.start, h.end, h.tags, b);
    assert BlockOk(h.start, h.end, h.tags, p) && TagWords(h.m, h.tags, p);
    HeaderSize(h.tags[p]);
  }

  // The heap after b swallowed a free block on its right, if there is one.
  ghost function MergedRight(h0: Heap, b0: int, h: Heap, b: int): (k: Heap)
    requires Freeing(h0, b0, h, b)
    ensures b in k.tags
  {
    var n := End(h.tags, b);
    if n in h.tags && h.tags[n].free then Swallowed(h, b, IndexOf(h.list, n)) else h
  }

  lemma MergedRightKeeps(h0: Heap, b0: int, h: Heap, b: int)
    requires Freeing(h0, b0, h, b)
    ensures var k := MergedRight(h0, b0, h, b); Freeing(h0, b0, k, b) && RightLive(k.tags, b)
  {
    var n := End(h.tags, b);
    if n in h.tags && h.tags[n].free {
      SwallowKeeps(h0, b0, h, b, b, IndexOf(h.list, n));
      SwallowedRight(h.start, h.end, h.tags, b);
    }
  }

  // The block that b is part of after merging to the left.
  ghost function LeftEnd(h0: Heap, b0: int, h: Heap, b: int): int
    requires Freeing(h0, b0, h, b)
  {
    if h.start < b then
      ReadLeft(h, b);
      var p := LeftOf(h.m, b);
      if h.tags[p].free then p else b
    else b
  }

  // The heap after a free block on the left of b swallowed it, if there is one.
  ghost function MergedLeft(h0: Heap, b0: int, h: Heap, b: int): (k: Heap)
    requires Freeing(h0, b0, h, b)
    ensures LeftEnd(h0, b0, h, b) in k.tags
  {
    var p := LeftEnd(h0, b0, h, b);
    if p != b then
      ReadLeft(h, b);
      Swallowed(h, p, IndexOf(h.list, p))
    else h
  }

  lemma MergedLeftKeeps(h0: Heap, b0: int, h: Heap, b: int)
    requires Freeing(h0, b0, h, b) && RightLive(h.tags, b)
    ensures var k, p := MergedLeft(h0, b0, h, b), LeftEnd(h0, b0, h, b);
            Freeing(h0, b0, k, p) && Hemmed(k.tags, p)
  {
    assert BlockOk(h.start, h.end, h.tags, b);
    if h.start < b {
      ReadLeft(h, b);
    }
    var p := LeftEnd(h0, b0, h, b);
    if p != b {
      SwallowKeeps(h0, b0, h, b, p, IndexOf(h.list, p));
      SwallowedLeft(h.start, h.end, h.tags, p, b);
    } else {
      NotSwallowedLeft(h.start, h.end, h.tags, b);
    }
  }

  lemma StartsFreeing(h: Heap, b: int)
    requires HeapOk(h) && b in Live(h.tags)
    ensures Freeing(h, b, h, b)
    ensures 0 <= b && b + MIN_BLOCK <= |h.m| && h.m[b] - h.m[b] % 2 == h.tags[b].size && h.tags[b].size % 4 == 0
  {
    assert TagWords(h.m, h.tags, b) && BlockOk(h.start, h.end, h.tags, b);
    HeaderSize(h.tags[b]);
  }

  ghost function IndexOf(list: seq<int>, b: int): (i: int)
    requires b in list
    ensures 0 <= i < |list| && list[i] == b
  {
    var i :| 0 <= i < |list| && list[i] == b;
    i
  }

  // The last two writes: b becomes a free block at the front of the list.
  ghost function Released(h: Heap, b: int): Heap
    requires Tiled(h.start, h.end, h.tags) && h.end <= |h.m| && b in h.tags
    requires 0 <= h.head && h.head + 8 < |h.m|
  {
    assert BlockOk(h.start, h.end, h.tags, b);
    var t := Tag(h.tags[b].size, true);
    Heap(Pushed(Stamped(h.m, b, t), h.head, b), h.start, h.end, b, h.tags[b := t], [b] + h.list)
  }

  lemma ReleaseTags(tags: Tags, list: seq<int>, start: int, end: int, b: int)
    requires Tiled(start, end, tags) && Coalesced(tags) && Lists(tags, list, {})
    requires b in tags && !tags[b].free && Hemmed(tags, b)
    ensures var t := tags[b := Tag(tags[b].size, true)];
            Tiled(start, end, t) && Coalesced(t) && Lists(t, [b] + list, {}) && Live(t) == Live(tags) - {b}
  {
    var t := tags[b := Tag(tags[b].size, true)];
    forall c | c in t
      ensures BlockOk(start, end, t, c)
    {
      assert BlockOk(start, end, tags, c);
    }
    ReleaseLists(tags, list, b, t);
    ReleaseCoalesces(start, end, tags, b, t);
  }

  lemma ReleaseCoalesces(start: int, end: int, tags: Tags, b: int, t: Tags)
    requires Tiled(start, end, tags) && Coalesced(tags) && b in tags && Hemmed(tags, b)
    requires t == tags[b := Tag(tags[b].size, true)]
    ensures Coalesced(t)
  {
    forall c | c in t && t[c].free
      ensures RightLive(t, c)
    {
      assert End(t, c) == End(tags, c) && BlockOk(start, end, tags, c);
      assert c != b ==> RightLive(tags, c);
    }
  }

  lemma ReleaseLists(tags: Tags, list: seq<int>, b: int, t: Tags)
    requires Lists(tags, list, {}) && b in tags && t == tags[b := Tag(tags[b].size, true)]
    ensures Lists(t, [b] + list, {})
  {
    var all := [b] + list;
    assert all[0] == b && forall i :: 0 <= i < |list| ==> all[i + 1] == list[i];
    forall c | c in t && t[c].free
      ensures c in all
    {
      assert c != b ==> c in list;
    }
  }

  lemma ReleaseKeeps(h0: Heap, b0: int, h: Heap, b: int)
    requires Freeing(h0, b0, h, b) && Hemmed(h.tags, b)
    ensures 0 <= h.head && h.head + 8 < |h.m|
    ensures HeapOk(Released(h, b)) && Live(Released(h, b).tags) == Live(h0.tags) - {b0}
    ensures Undisturbed(h0.m, Released(h, b).m, h.start, h.end, Live(h0.tags) - {b0})
  {
    assert BlockOk(h.start, h.end, h.tags, b);
    assert h.list != [] ==> NodeOk(h.m, h.list, 0);
    ReleaseTags(h.tags, h.list, h.start, h.end, b);
    var k, live := Released(h, b), Live(h0.tags) - {b0};
    NodesApart(h.start, h.end, h.tags, h.list, b);
    StampKeeps(h.m, h.head, h.list, b, k.tags[b]);
    var m := Stamped(h.m, b, k.tags[b]);
    PushKeeps(m, h.head, h.list, b);
    PushRelinks(m, h.head, h.list, b);
    ReleaseWords(h, b, m, k);
    StampUndisturbed(h.m, h.start, h.end, k.tags, b, live);
    RelinkUndisturbed(m, k.m, Nodes(k.list), h.start, h.end, k.tags, live);
  }

  lemma ReleaseWords(h: Heap, b: int, m: Mem, k: Heap)
    requires Tiled(h.start, h.end, h.tags) && WrittenBut(h.m, h.end, h.tags, {b}) && b in h.tags
    requires Tiled(h.start, h.end, k.tags) && k.tags == h.tags[b := Tag(h.tags[b].size, true)]
    requires 0 <= b && MIN_BLOCK <= h.tags[b].size && End(h.tags, b) <= |h.m| && m == Stamped(h.m, b, k.tags[b])
    requires Relinked(m, k.m, Nodes(k.list)) && Nodes(k.list) <= k.tags.Keys
    ensures WrittenBut(k.m, h.end, k.tags, {})
  {
    forall c | c in k.tags && c != b
      ensures TagWords(h.m, k.tags, c)
    {
      assert TagWords(h.m, h.tags, c);
    }
    StampWrites(h.m, h.start, h.end, k.tags, {b}, b);
    assert {b} - {b} == {};
    RelinkKeeps(m, k.m, Nodes(k.list), h.start, h.end, k.tags, {});
  }

  // ----- Granting ---------------------------------------------------------------------------------------

  // What the list becomes when node i goes out: a remainder goes in front.
  ghost function Remaining(h: Heap, i: int, want: int): seq<int>
    requires 0 <= i < |h.list| && h.list[i] in h.tags
  {
    if h.tags[h.list[i]].size - want >= MIN_BLOCK then [h.list[i] + want] + Without(h.list, i) else Without(h.list, i)
  }

  lemma GrantTags(h: Heap, i: int, want: int)
    requires HeapOk(h) && 0 <= i < |h.list|
    requires MIN_BLOCK <= want <= h.tags[h.list[i]].size && want % 4 == 0
    ensures var b, t := h.list[i], Carved(h.tags, h.list[i], want);
            && Tiled(h.start, h.end, t) && Coalesced(t) && Lists(t, Remaining(h, i, want), {})
            && b in t && b !in Live(h.tags) && Live(t) == Live(h.tags)[b := t[b].size]
    ensures h.list[i] !in Without(h.list, i)
    ensures h.tags[h.list[i]].size - want >= MIN_BLOCK ==> h.list[i] + want !in Without(h.list, i)
  {
    var b, t, rest, all := h.list[i], Carved(h.tags, h.list[i], want), Without(h.list, i), Remaining(h, i, want);
    CarveTiles(h.start, h.end, h.tags, b, want);
    CarveCoalesces(h.start, h.end, h.tags, b, want);
    assert forall j :: 0 <= j < |rest| ==> rest[j] in h.list && rest[j] != b;
    assert BlockOk(h.start, h.end, h.tags, b);
    forall c | c in t && t[c].free
      ensures c in all
    {
      if c in h.tags && c != b {
        assert c in h.list && c in rest;
        assert all == rest || all == [b + want] + rest;
      } else {
        assert all[0] == c;
      }
    }
  }

  // Stamping a block that is on no list: its tags are then written, the list is as it was.
  lemma StampBlock(m: Mem, head: int, list: seq<int>, start: int, end: int, tags: Tags, b: int, but: set<int>,
                   live: map<int, int>)
    requires Tiled(start, end, tags) && WrittenBut(m, end, tags, but) && b in tags
    requires Linked(m, head, list) && AllFree(tags, list) && b !in list
    requires Among(live, tags) && b !in live
    ensures 0 <= b && MIN_BLOCK <= tags[b].size && End(tags, b) <= |m|
    ensures var r := Stamped(m, b, tags[b]);
            && WrittenBut(r, end, tags, but - {b}) && Linked(r, head, list)
            && Undisturbed(m, r, start, end, live)
  {
    assert BlockOk(start, end, tags, b);
    StampWrites(m, start, end, tags, but, b);
    NodesApart(start, end, tags, list, b);
    StampKeeps(m, head, list, b, tags[b]);
    StampUndisturbed(m, start, end, tags, b, live);
  }

  // Putting a free block in front of the list.
  lemma PushBlock(m: Mem, head: int, list: seq<int>, start: int, end: int, tags: Tags, b: int, live: map<int, int>)
    requires Tiled(start, end, tags) && WrittenBut(m, end, tags, {}) && b in tags && tags[b].free
    requires Linked(m, head, list) && AllFree(tags, list) && b !in list
    requires Among(live, tags) && forall c :: c in live ==> !tags[c].free
    ensures 0 <= b && b + 8 < |m| && 0 <= head && head + 8 < |m|
    ensures var r := Pushed(m, head, b);
            && WrittenBut(r, end, tags, {}) && Linked(r, b, [b] + list) && AllFree(tags, [b] + list)
            && Undisturbed(m, r, start, end, live)
  {
    assert BlockOk(start, end, tags, b);
    NodesApart(start, end, tags, list, b);
    PushKeeps(m, head, list, b);
    PushRelinks(m, head, list, b);
    assert AllFree(tags, [b] + list);
    RelinkKeeps(m, Pushed(m, head, b), Nodes([b] + list), start, end, tags, {});
    RelinkUndisturbed(m, Pushed(m, head, b), Nodes([b] + list), start, end, tags, live);
  }

  lemma HeadInside(m: Mem, head: int, list: seq<int>)
    requires Linked(m, head, list)
    ensures 0 <= head && (head + MIN_BLOCK <= |m| || head == 0)
  {
    assert list != [] ==> NodeOk(m, list, 0);
  }

  lemma NodesPositive(m: Mem, head: int, list: seq<int>)
    requires Linked(m, head, list)
    ensures forall k :: 0 <= k < |list| ==> 0 < list[k]
  {
    forall k | 0 <= k < |list|
      ensures 0 < list[k]
    {
      assert NodeOk(m, list, k);
    }
  }

  // Taking node i off the list.
  lemma TakeBlock(h: Heap, i: int, want: int)
    requires HeapOk(h) && 0 <= i < |h.list|
    requires MIN_BLOCK <= want <= h.tags[h.list[i]].size
    ensures 0 < h.list[i] && h.list[i] + MIN_BLOCK <= |h.m|
    ensures 0 <= h.m[h.list[i] + 8] && h.m[h.list[i] + 8] + 4 < |h.m|
    ensures 0 <= h.m[h.list[i] + 4] && h.m[h.list[i] + 4] + 8 < |h.m|
    ensures var m, b := Unlinked(h.m, h.list[i]), h.list[i];
            && Linked(m, UnlinkedHead(h.m, h.head, b), Without(h.list, i))
            && WrittenBut(m, h.end, Carved(h.tags, b, want), {b, b + want})
            && (h.tags[b].size - want < MIN_BLOCK ==> WrittenBut(m, h.end, Carved(h.tags, b, want), {b}))
            && Undisturbed(h.m, m, h.start, h.end, Live(h.tags))
  {
    UnlinkKeeps(h.m, h.head, h.list, i);
    UnlinkRelinks(h.m, h.head, h.list, i);
    var m, b := Unlinked(h.m, h.list[i]), h.list[i];
    RelinkKeeps(h.m, m, Nodes(h.list), h.start, h.end, h.tags, {});
    RelinkUndisturbed(h.m, m, Nodes(h.list), h.start, h.end, h.tags, Live(h.tags));
    forall c | c in h.tags && c != b && c != b + want
      ensures TagWords(m, Carved(h.tags, b, want), c)
    {
      assert TagWords(m, h.tags, c);
    }
    forall c | c in h.tags && c != b && h.tags[b].size - want < MIN_BLOCK
      ensures TagWords(m, Carved(h.tags, b, want), c)
    {
      assert TagWords(m, h.tags, c);
    }
  }

  // The writes of a split: b handed out, r free and in front.
  lemma SplitWrites(m: Mem, head: int, rest: seq<int>, start: int, end: int, tags: Tags, b: int, r: int,
                    live: map<int, int>, k: Mem)
    requires Tiled(start, end, tags) && WrittenBut(m, end, tags, {b, r}) && b in tags && r in tags && tags[r].free
    requires b != r && b !in rest && r !in rest && Linked(m, head, rest) && AllFree(tags, rest)
    requires Among(live, tags) && b !in live && forall c :: c in live ==> !tags[c].free
    requires 0 <= b && MIN_BLOCK <= tags[b].size && End(tags, b) <= |m|
    requires 0 <= r && MIN_BLOCK <= tags[r].size && End(tags, r) <= |m| && 0 <= head && head + 8 < |m|
    requires k == Pushed(Stamped(Stamped(m, b, tags[b]), r, tags[r]), head, r)
    ensures WrittenBut(k, end, tags, {}) && Linked(k, r, [r] + rest) && Undisturbed(m, k, start, end, live)
  {
    StampBlock(m, head, rest, start, end, tags, b, {b, r}, live);
    var m1 := Stamped(m, b, tags[b]);
    assert {b, r} - {b} == {r};
    StampBlock(m1, head, rest, start, end, tags, r, {r}, live);
    assert {r} - {r} == {};
    PushBlock(Stamped(m1, r, tags[r]), head, rest, start, end, tags, r, live);
  }

  // The heap after node i went out, from memory m and list head `head` as unlinking left them.
  ghost predicate Unhooked(h: Heap, i: int, want: int, m: Mem, head: int, k: Heap) {
    && HeapOk(h) && 0 <= i < |h.list| && MIN_BLOCK <= want <= h.tags[h.list[i]].size && want % 4 == 0
    && Linked(m, head, Without(h.list, i)) && Undisturbed(h.m, m, h.start, h.end, Live(h.tags))
    && k.start == h.start && k.end == h.end
    && k.tags == Carved(h.tags, h.list[i], want) && k.list == Remaining(h, i, want)
  }

  lemma AreMallocs(h: Heap, i: int, want: int, m: Mem, head: int, k: Heap)
    requires Unhooked(h, i, want, m, head, k)
    requires WrittenBut(k.m, k.end, k.tags, {}) && Linked(k.m, k.head, k.list)
    requires Undisturbed(m, k.m, h.start, h.end, Live(h.tags))
    ensures HeapOk(k) && Mallocs(h, h.list[i] + HDR, k)
  {
    GrantTags(h, i, want);
    assert h.list[i] in Live(k.tags) && NodeOk(h.m, h.list, i);
  }

  lemma SplitIsMalloc(h: Heap, i: int, want: int, m: Mem, head: int, k: Heap, b: int, r: int)
    requires Unhooked(h, i, want, m, head, k) && b == h.list[i] && r == b + want
    requires h.tags[b].size - want >= MIN_BLOCK && WrittenBut(m, h.end, k.tags, {b, r})
    requires 0 < b && b + h.tags[b].size <= |m| && 0 <= head && head + 8 < |m|
    requires k.m == Pushed(Stamped(Stamped(m, b, Tag(want, false)), r, Tag(h.tags[b].size - want, true)), head, r)
    requires k.head == r
    ensures HeapOk(k) && Mallocs(h, b + HDR, k)
  {
    GrantTags(h, i, want);
    assert k.tags[b] == Tag(want, false) && k.tags[r] == Tag(h.tags[b].size - want, true);
    SplitWrites(m, head, Without(h.list, i), h.start, h.end, k.tags, b, r, Live(h.tags), k.m);
    AreMallocs(h, i, want, m, head, k);
  }

  lemma WholeIsMalloc(h: Heap, i: int, want: int, m: Mem, head: int, k: Heap, b: int)
    requires Unhooked(h, i, want, m, head, k) && b == h.list[i]
    requires h.tags[b].size - want < MIN_BLOCK && WrittenBut(m, h.end, k.tags, {b})
    requires 0 < b && b + h.tags[b].size <= |m|
    requires k.m == Stamped(m, b, Tag(h.tags[b].size, false)) && k.head == head
    ensures HeapOk(k) && Mallocs(h, b + HDR, k)
  {
    GrantTags(h, i, want);
    StampBlock(m, head, k.list, h.start, h.end, k.tags, b, {b}, Live(h.tags));
    assert {b} - {b} == {};
    AreMallocs(h, i, want, m, head, k);
  }

  // The bytes actually carved: all of the block when the size arithmetic wrapped.
  ghost function Share(want: int, size: int): int {
    if want >= MIN_BLOCK then want else size
  }

  ghost function FreeBlocks(tags: Tags, want: int): set<int> {
    set b | b in tags && tags[b].free && tags[b].size >= want
  }

  // Node i is block b, and the first with room.
  ghost predicate FirstFit(h: Heap, want: int, i: int, b: int) {
    && 0 <= i < |h.list| && h.list[i] == b && b in h.tags && h.tags[b].size >= want
    && forall k :: 0 <= k < i ==> h.list[k] in h.tags && h.tags[h.list[k]].size < want
  }

  lemma NoneFits(tags: Tags, list: seq<int>, want: int)
    requires Lists(tags, list, {})
    requires forall k :: 0 <= k < |list| ==> list[k] in tags && tags[list[k]].size < want
    ensures FreeBlocks(tags, want) == {}
  {
    forall b | b in tags && tags[b].free
      ensures tags[b].size < want
    {
      assert b in list;
    }
  }

  // What is carved out has room for the request exactly when the size arithmetic did not wrap.
  lemma PayloadFits(bytes: int, tags: Tags, b: int)
    requires 0 < bytes < INT_LIMIT && b in tags && Want(bytes) <= tags[b].size < INT_LIMIT
    requires MIN_BLOCK <= tags[b].size && tags[b].size % 4 == 0
    ensures var t := Carved(tags, b, Share(Want(bytes), tags[b].size));
            b in t && (t[b].size - HDR - FTR >= bytes <==> bytes <= MAX_REQUEST)
  {
    var t := Carved(tags, b, Share(Want(bytes), tags[b].size));
    WantIsExact(bytes, tags[b].size);
    WantIsExact(bytes, t[b].size);
  }

  // When the size arithmetic wrapped, nothing is split off.
  lemma LeftoverIs(size: int, want: int)
    requires want <= size < INT_LIMIT && MIN_BLOCK <= size
    requires MIN_BLOCK <= want || -INT_LIMIT <= want <= -INT_LIMIT + MIN_BLOCK
    ensures Wrap32(size - want) >= MIN_BLOCK <==> size - Share(want, size) >= MIN_BLOCK
    ensures Wrap32(size - want) >= MIN_BLOCK ==> want >= MIN_BLOCK && Wrap32(size - want) == size - want
  {
  }

  // A listed block is tagged free, with the size its header says.
  lemma InHeap(h: Heap, i: int)
    requires HeapOk(h) && 0 <= i < |h.list|
    ensures var b := h.list[i];
            && b in h.tags && h.tags[b].free && h.start <= b && b + h.tags[b].size <= h.end <= |h.m|
            && h.tags[b].size >= MIN_BLOCK && h.tags[b].size % 4 == 0
            && h.m[b] - h.m[b] % 2 == h.tags[b].size
  {
    assert BlockOk(h.start, h.end, h.tags, h.list[i]) && TagWords(h.m, h.tags, h.list[i]);
    HeaderSize(h.tags[h.list[i]]);
  }

  lemma HeaderSize(t: Tag)
    requires t.size % 4 == 0
    ensures Header(t) - Header(t) % 2 == t.size && (Header(t) % 2 == 1 <==> t.free)
  {
  }

  // Block b can be taken off the list and written.
  ghost predicate Carvable(m: Mem, head: int, b: int, sz: int, want: int) {
    && 0 <= b && MIN_BLOCK <= sz < INT_LIMIT && b + sz <= |m| && want <= sz && sz % 4 == 0
    && ((MIN_BLOCK <= want && want % 4 == 0) || -INT_LIMIT <= want <= -INT_LIMIT + MIN_BLOCK)
    && 0 <= m[b + 8] && m[b + 8] + 4 < |m| && 0 <= m[b + 4] && m[b + 4] + 8 < |m|
    && 0 <= UnlinkedHead(m, head, b) && UnlinkedHead(m, head, b) + 8 < |m|
  }

  // What carving block b writes.
  ghost predicate CarveWrites(m0: Mem, head0: int, b: int, sz: int, want: int, m1: Mem, head1: int)
    requires Carvable(m0, head0, b, sz, want)
  {
    var m, head := Unlinked(m0, b), UnlinkedHead(m0, head0, b);
    if sz - Share(want, sz) >= MIN_BLOCK then
      && head1 == b + want
      && m1 == Pushed(Stamped(Stamped(m, b, Tag(want, false)), b + want, Tag(sz - want, true)), head, b + want)
    else
      head1 == head && m1 == Stamped(m, b, Tag(sz, false))
  }

  lemma IsCarvable(h: Heap, i: int, want: int)
    requires HeapOk(h) && 0 <= i < |h.list| && want <= h.tags[h.list[i]].size && h.end < INT_LIMIT
    requires (MIN_BLOCK <= want && want % 4 == 0) || -INT_LIMIT <= want <= -INT_LIMIT + MIN_BLOCK
    ensures Carvable(h.m, h.head, h.list[i], h.tags[h.list[i]].size, want)
  {
    InHeap(h, i);
    UnlinkKeeps(h.m, h.head, h.list, i);
    HeadInside(Unlinked(h.m, h.list[i]), UnlinkedHead(h.m, h.head, h.list[i]), Without(h.list, i));
  }

  lemma GrantIsMalloc(h: Heap, i: int, want: int, k: Heap)
    requires HeapOk(h) && 0 <= i < |h.list| && k.start == h.start && k.end == h.end
    requires Carvable(h.m, h.head, h.list[i], h.tags[h.list[i]].size, want)
    requires CarveWrites(h.m, h.head, h.list[i], h.tags[h.list[i]].size, want, k.m, k.head)
    requires k.tags == Carved(h.tags, h.list[i], Share(want, h.tags[h.list[i]].size))
    requires k.list == Remaining(h, i, Share(want, h.tags[h.list[i]].size))
    ensures HeapOk(k) && Mallocs(h, h.list[i] + HDR, k)
  {
    var b := h.list[i];
    var w, m, head := Share(want, h.tags[b].size), Unlinked(h.m, b), UnlinkedHead(h.m, h.head, b);
    TakeBlock(h, i, w);
    if h.tags[b].size - w >= MIN_BLOCK {
      SplitIsMalloc(h, i, w, m, head, k, b, b + want);
    } else {
      WholeIsMalloc(h, i, w, m, head, k, b);
    }
  }

  // ----- The calls as functions of the heap ---------------------------------------------------------------

  // The invariant, at addresses that 32-bit signed arithmetic reaches.
  ghost predicate Sound(h: Heap) {
    HeapOk(h) && h.end < INT_LIMIT
  }

  // What the size arithmetic can yield.
  predicate Shapely(want: int) {
    (MIN_BLOCK <= want && want % 4 == 0) || -INT_LIMIT <= want <= -INT_LIMIT + MIN_BLOCK
  }

  lemma WantIsShapely(bytes: int)
    requires 0 < bytes < INT_LIMIT
    ensures Shapely(Want(bytes))
  {
    WantIsExact(bytes, MIN_BLOCK);
  }

  // Node i handed out, split if what is left over is a block.
  ghost function Granted(h: Heap, i: int, want: int): Heap
    requires Sound(h) && 0 <= i < |h.list| && want <= h.tags[h.list[i]].size && Shapely(want)
  {
    IsCarvable(h, i, want);
    var b := h.list[i];
    var sz := h.tags[b].size;
    var w, m, head := Share(want, sz), Unlinked(h.m, b), UnlinkedHead(h.m, h.head, b);
    if sz - w >= MIN_BLOCK then
      Heap(Pushed(Stamped(Stamped(m, b, Tag(want, false)), b + want, Tag(sz - want, true)), head, b + want), h.start, h.end,
           b + want, Carved(h.tags, b, w), Remaining(h, i, w))
    else
      Heap(Stamped(m, b, Tag(sz, false)), h.start, h.end, head, Carved(h.tags, b, w), Remaining(h, i, w))
  }

  lemma GrantedIsMalloc(h: Heap, i: int, want: int)
    requires Sound(h) && 0 <= i < |h.list| && want <= h.tags[h.list[i]].size && Shapely(want)
    ensures Sound(Granted(h, i, want)) && Mallocs(h, h.list[i] + HDR, Granted(h, i, want))
  {
    IsCarvable(h, i, want);
    GrantIsMalloc(h, i, want, Granted(h, i, want));
  }

  // The first node from i on with room, or the length of the list.
  ghost function FirstFrom(h: Heap, want: int, i: int): (r: int)
    requires HeapOk(h) && 0 <= i <= |h.list|
    ensures i <= r <= |h.list| && (r < |h.list| ==> h.list[r] in h.tags && want <= h.tags[h.list[r]].size)
    ensures forall k :: i <= k < r ==> h.list[k] in h.tags && h.tags[h.list[k]].size < want
    decreases |h.list| - i
  {
    if i == |h.list| || want <= h.tags[h.list[i]].size then i else FirstFrom(h, want, i + 1)
  }

  lemma IsFirst(h: Heap, want: int, i: int)
    requires HeapOk(h) && 0 <= i <= |h.list|
    requires i < |h.list| ==> h.list[i] in h.tags && want <= h.tags[h.list[i]].size
    requires forall k :: 0 <= k < i ==> h.list[k] in h.tags && h.tags[h.list[k]].size < want
    ensures FirstFrom(h, want, 0) == i
  {
  }

  // The heap after a call, and the pointer returned.
  datatype Granting = Granting(heap: Heap, p: int)

  ghost function Malloced(h: Heap, bytes: int): Granting
    requires Sound(h) && bytes < INT_LIMIT
  {
    if bytes <= 0 then Granting(h, 0)
    else
      var i := FirstFrom(h, Want(bytes), 0);
      WantIsShapely(bytes);
      if i == |h.list| then Granting(h, 0) else Granting(Granted(h, i, Want(bytes)), h.list[i] + HDR)
  }

  // malloc takes a new block from free space and leaves every live one alone.
  lemma MallocedMeans(h: Heap, bytes: int)
    requires Sound(h) && bytes < INT_LIMIT
    ensures Sound(Malloced(h, bytes).heap) && Mallocs(h, Malloced(h, bytes).p, Malloced(h, bytes).heap)
  {
    if bytes > 0 {
      var i := FirstFrom(h, Want(bytes), 0);
      WantIsShapely(bytes);
      if i < |h.list| { GrantedIsMalloc(h, i, Want(bytes)); }
    }
  }

  // malloc returns null exactly when the request is not positive or no free block satisfies it.
  lemma NullMeansNone(h: Heap, bytes: int)
    requires Sound(h) && bytes < INT_LIMIT
    ensures Malloced(h, bytes).p == 0 <==> bytes <= 0 || FreeBlocks(h.tags, Want(bytes)) == {}
  {
    if bytes > 0 {
      var i := FirstFrom(h, Want(bytes), 0);
      if i == |h.list| {
        NoneFits(h.tags, h.list, Want(bytes));
      } else {
        InHeap(h, i);
        NodesPositive(h.m, h.head, h.list);
        assert h.list[i] in FreeBlocks(h.tags, Want(bytes));
      }
    }
  }

  // The block granted is the first that fits, and has room for the request exactly when the size
  // arithmetic did not wrap.
  lemma MallocedFits(h: Heap, bytes: int)
    requires Sound(h) && bytes < INT_LIMIT && Malloced(h, bytes).p != 0
    ensures var g := Malloced(h, bytes);
            && FirstFit(h, Want(bytes), FirstFrom(h, Want(bytes), 0), g.p - HDR)
            && g.heap.tags == Carved(h.tags, g.p - HDR, Share(Want(bytes), h.tags[g.p - HDR].size))
            && g.p - HDR in g.heap.tags && (g.heap.tags[g.p - HDR].size - HDR - FTR >= bytes <==> bytes <= MAX_REQUEST)
  {
    var i := FirstFrom(h, Want(bytes), 0);
    InHeap(h, i);
    PayloadFits(bytes, h.tags, h.list[i]);
  }

  // The largest int asked for on a fresh heap: what comes back is the smallest block, with a payload of
  // 8 bytes, or the whole heap when it is too small to split.
  lemma LargestIntWraps(m: Mem, start: int, size: int)
    requires 0 < start && MIN_BLOCK <= size && start + size <= |m| && start + size < INT_LIMIT
    ensures Sound(Initial(m, start, size)) && Want(0x7FFF_FFFF) == MIN_BLOCK
    ensures var g := Malloced(Initial(m, start, size), 0x7FFF_FFFF);
            && g.p == start + HDR && start in g.heap.tags
            && g.heap.tags[start].size == (if Align4(size) >= 2 * MIN_BLOCK then MIN_BLOCK else Align4(size))
  {
    InitialOk(m, start, size);
    var h := Initial(m, start, size);
    assert Want(0x7FFF_FFFF) == MIN_BLOCK;
    assert h.tags[start].size == Align4(size) >= MIN_BLOCK;
    assert FirstFrom(h, MIN_BLOCK, 0) == 0;
  }

  ghost function Freed(h: Heap, p: int): Heap
    requires Sound(h) && (p == 0 || p - HDR in Live(h.tags))
  {
    if p == 0 then h
    else
      var b := p - HDR;
      StartsFreeing(h, b);
      MergedRightKeeps(h, b, h, b);
      var k := MergedRight(h, b, h, b);
      MergedLeftKeeps(h, b, k, b);
      var l, e := MergedLeft(h, b, k, b), LeftEnd(h, b, k, b);
      ReleaseKeeps(h, b, l, e);
      Released(l, e)
  }

  // free makes exactly the block of p free, and leaves every other live one alone.
  lemma FreedMeans(h: Heap, p: int)
    requires Sound(h) && (p == 0 || p - HDR in Live(h.tags))
    ensures Sound(Freed(h, p)) && Frees(h, p, Freed(h, p))
  {
    if p != 0 {
      var b := p - HDR;
      StartsFreeing(h, b);
      MergedRightKeeps(h, b, h, b);
      var k := MergedRight(h, b, h, b);
      MergedLeftKeeps(h, b, k, b);
      ReleaseKeeps(h, b, MergedLeft(h, b, k, b), LeftEnd(h, b, k, b));
    }
  }

  // ----- The allocator -----------------------------------------------------------------------------------

  class Allocator {
    const mem: array<int>
    const sysStart: int
    const sysSize: int
    var heapStart: int
    var heapEnd: int
    var freeHead: int
    var inited: bool
    ghost var tags: Tags
    ghost var list: seq<int>

    constructor (mem: array<int>, sysStart: int, sysSize: int)
      requires 0 < sysStart && 0 <= sysSize && sysStart + sysSize <= mem.Length && sysStart + sysSize < INT_LIMIT
      ensures this.mem == mem && this.sysStart == sysStart && this.sysSize == sysSize
      ensures Valid() && !inited
    {
      this.mem, this.sysStart, this.sysSize := mem, sysStart, sysSize;
      heapStart, heapEnd, freeHead, inited := 0, 0, 0, false;
      tags, list := map[], [];
    }

    ghost predicate Sized()
      reads this, mem
    {
      0 < sysStart && 0 <= sysSize && sysStart + sysSize <= mem.Length && sysStart + sysSize < INT_LIMIT
    }

    ghost function Value(): Heap
      reads this, mem
    {
      Heap(mem[..], heapStart, heapEnd, freeHead, tags, list)
    }

    ghost predicate Valid()
      reads this, mem
    {
      Sized() && (inited ==> HeapOk(Value()) && heapStart == sysStart && heapEnd <= sysStart + sysSize)
    }

    // The heap as the next call finds it.
    ghost function Ready(): Heap
      requires Sized()
      reads this, mem
    {
      if inited then Value() else Initial(mem[..], sysStart, sysSize)
    }

    method Stamp(b: int, size: int, free: bool)
      requires 0 <= b && MIN_BLOCK <= size && size % 4 == 0 && b + size <= mem.Length
      modifies mem
      ensures mem[..] == Stamped(old(mem[..]), b, Tag(size, free))
    {
      mem[b] := size + if free then 1 else 0;
      mem[b + size - FTR] := size;
    }

    method Push(b: int)
      requires 0 <= b && b + 8 < mem.Length && 0 <= freeHead && freeHead + 8 < mem.Length
      modifies this`freeHead, mem
      ensures mem[..] == Pushed(old(mem[..]), old(freeHead), b) && freeHead == b
    {
      mem[b + 8] := 0;
      mem[b + 4] := freeHead;
      if freeHead != 0 {
        mem[freeHead + 8] := b;
      }
      freeHead := b;
    }

    method Remove(b: int)
      requires 0 <= b && b + 8 < mem.Length
      requires 0 <= mem[b + 8] && mem[b + 8] + 4 < mem.Length && 0 <= mem[b + 4] && mem[b + 4] + 8 < mem.Length
      modifies this`freeHead, mem
      ensures mem[..] == Unlinked(old(mem[..]), b)
      ensures freeHead == UnlinkedHead(old(mem[..]), old(freeHead), b)
    {
      var pv, nx := mem[b + 8], mem[b + 4];
      if pv != 0 {
        mem[pv + 4] := nx;
      } else {
        freeHead := nx;
      }
      if nx != 0 {
        mem[nx + 8] := pv;
      }
    }

    method Init()
      requires Valid()
      modifies this, mem
      ensures Valid() && inited && Value() == old(Ready())
    {
      if inited {
        return;
      }
      heapStart := sysStart;
      heapEnd := heapStart + sysSize;
      freeHead := 0;
      var total := Align4(heapEnd - heapStart);
      ghost var k := Initial(mem[..], sysStart, sysSize);
      InitialOk(mem[..], sysStart, sysSize);
      if total >= MIN_BLOCK {
        heapEnd := heapStart + total;
        Stamp(heapStart, total, true);
        Push(heapStart);
      } else {
        heapEnd := heapStart;
      }
      tags, list := k.tags, k.list;
      inited := true;
      assert Value() == k;
    }

    // b off the list and stamped as handed out; what is left over, if it is a block, in front.
    method Carve(b: int, sz: int, want: int)
      requires Carvable(mem[..], freeHead, b, sz, want)
      modifies this`freeHead, mem
      ensures CarveWrites(old(mem[..]), old(freeHead), b, sz, want, mem[..], freeHead)
    {
      Remove(b);
      LeftoverIs(sz, want);
      var leftover := Wrap32(sz - want);
      if leftover >= MIN_BLOCK {
        Stamp(b, want, false);
        var r := b + want;
        Stamp(r, leftover, true);
        Push(r);
      } else {
        Stamp(b, sz, false);
      }
    }

    // Node i goes out.
    method Grant(ghost i: int, b: int, sz: int, want: int)
      requires Valid() && inited && 0 <= i < |list| && b == list[i] && sz == tags[b].size && want <= sz
      requires Shapely(want)
      modifies this`freeHead, this`tags, this`list, mem
      ensures Value() == Granted(old(Value()), i, want)
    {
      ghost var h := Value();
      IsCarvable(h, i, want);
      Carve(b, sz, want);
      ghost var w := Share(want, sz);
      ghost var k := Heap(mem[..], h.start, h.end, freeHead, Carved(h.tags, b, w), Remaining(h, i, w));
      assert k == Granted(h, i, want);
      tags, list := k.tags, k.list;
      assert Value() == k;
    }

    // First fit: nothing is returned exactly when the request is not positive or no free
    // block satisfies it; otherwise a block carved to size, with room for the request exactly
    // when the size arithmetic did not wrap.
    method Alloc(bytes: int) returns (p: int)
      requires Valid() && -INT_LIMIT <= bytes < INT_LIMIT
      modifies this, mem
      ensures Valid() && inited && Sound(old(Ready()))
      ensures Granting(Value(), p) == Malloced(old(Ready()), bytes)
      ensures Mallocs(old(Ready()), p, Value())
      ensures p == 0 <==> bytes <= 0 || FreeBlocks(old(Ready()).tags, Want(bytes)) == {}
      ensures p != 0 ==> p - HDR in tags && (tags[p - HDR].size - HDR - FTR >= bytes <==> bytes <= MAX_REQUEST)
    {
      ghost var h := Ready();
      InitialOk(mem[..], sysStart, sysSize);
      MallocedMeans(h, bytes);
      NullMeansNone(h, bytes);
      p := Serve(bytes);
      if p != 0 {
        MallocedFits(h, bytes);
      }
    }

    // The body of malloc.
    method Serve(bytes: int) returns (p: int)
      requires Valid() && -INT_LIMIT <= bytes < INT_LIMIT && Sound(Ready())
      modifies this, mem
      ensures inited && heapStart == sysStart
      ensures Granting(Value(), p) == Malloced(old(Ready()), bytes)
    {
      Init();
      if bytes <= 0 {
        return 0;
      }
      var need := Align4(Wrap32(bytes + 3));
      if need < 8 {
        need := 8;
      }
      var want := Wrap32(need + HDR + FTR);
      WantIsShapely(bytes);
      ghost var i;
      var b, sz;
      i, b, sz := Find(want);
      IsFirst(Value(), want, i);
      if b == 0 {
        return 0;
      }
      Grant(i, b, sz, want);
      p := b + HDR;
    }

    // Node i, a free neighbour of the block being freed, leaves the list.
    method Absorb(ghost left: int, ghost i: int, n: int)
      requires Linked(mem[..], freeHead, list) && 0 <= i < |list| && n == list[i]
      requires left in tags && End(tags, left) in tags
      modifies this`freeHead, this`tags, this`list, mem
      ensures Value() == Swallowed(old(Value()), left, i)
    {
      ghost var h := Value();
      LinksOf(h.m, h.head, h.list, i);
      ghost var k := Swallowed(h, left, i);
      Remove(n);
      tags, list := k.tags, k.list;
    }

    ghost predicate HeadFits()
      reads this, mem
    {
      0 <= freeHead && freeHead + 8 < mem.Length
    }

    // The last writes of Free.
    method Release(ghost h0: Heap, ghost b0: int, b: int, sz: int)
      requires Freeing(h0, b0, Value(), b) && Hemmed(tags, b) && sz == tags[b].size
      modifies this`freeHead, this`tags, this`list, mem
      ensures old(HeadFits()) && Value() == Released(old(Value()), b)
      ensures HeapOk(Value()) && Live(tags) == Live(h0.tags) - {b0}
      ensures Undisturbed(h0.m, mem[..], heapStart, heapEnd, Live(h0.tags) - {b0})
    {
      ghost var h := Value();
      ReleaseKeeps(h0, b0, h, b);
      ghost var k := Released(h, b);
      assert BlockOk(h.start, h.end, h.tags, b);
      Stamp(b, sz, true);
      Push(b);
      tags, list := k.tags, k.list;
      assert Value() == k;
    }

    // A live block becomes free, merged with its free neighbours on both sides.
    method Free(p: int)
      requires Valid() && (p == 0 || (inited && p - HDR in Live(tags)))
      modifies this, mem
      ensures Valid() && inited == old(inited)
      ensures old(inited) ==> Sound(old(Value())) && Value() == Freed(old(Value()), p)
      ensures Frees(old(Value()), p, Value())
    {
      if p == 0 {
        return;
      }
      ghost var h0, b0 := Value(), p - HDR;
      var b := p - HDR;
      StartsFreeing(h0, b);
      var sz := mem[b] - mem[b] % 2;
      MergedRightKeeps(h0, b0, Value(), b);
      sz := MergeRight(h0, b0, b, sz);
      MergedLeftKeeps(h0, b0, Value(), b);
      b, sz := MergeLeft(h0, b0, b, sz);
      Release(h0, b0, b, sz);
    }

    // The first half of Free's coalescing: the block after b.
    method MergeRight(ghost h0: Heap, ghost b0: int, b: int, sz0: int) returns (sz: int)
      requires Freeing(h0, b0, Value(), b) && sz0 == tags[b].size
      modifies this`freeHead, this`tags, this`list, mem
      ensures Value() == MergedRight(h0, b0, old(Value()), b)
      ensures sz == tags[b].size
    {
      ghost var h := Value();
      ghost var k := MergedRight(h0, b0, h, b);
      sz := sz0;
      var nx := b + sz;
      ReadRight(h, b);
      if nx < heapEnd && mem[nx] % 2 == 1 {
        sz := sz + (mem[nx] - mem[nx] % 2);
        ghost var i := IndexOf(h.list, nx);
        assert k == Swallowed(h, b, i);
        Absorb(b, i, nx);
        return;
      }
      assert k == h;
    }

    // The second half of Free's coalescing: the block before b, found by its footer.
    method MergeLeft(ghost h0: Heap, ghost b0: int, b1: int, sz1: int) returns (b: int, sz: int)
      requires Freeing(h0, b0, Value(), b1) && sz1 == tags[b1].size
      modifies this`freeHead, this`tags, this`list, mem
      ensures b == LeftEnd(h0, b0, old(Value()), b1)
      ensures Value() == MergedLeft(h0, b0, old(Value()), b1)
      ensures sz == tags[b].size
    {
      ghost var h := Value();
      ghost var k := MergedLeft(h0, b0, h, b1);
      b, sz := b1, sz1;
      if b > heapStart {
        ReadLeft(h, b);
        var psz := mem[b - FTR];
        var pb := b - psz;
        if pb >= heapStart && mem[pb] % 2 == 1 {
          ghost var i := IndexOf(h.list, pb);
          assert k == Swallowed(h, pb, i);
          Absorb(pb, i, pb);
          return pb, sz + psz;
        }
      }
      assert k == h;
    }

    // The walk along the free list.
    method Find(want: int) returns (ghost i: int, b: int, sz: int)
      requires Valid() && inited
      ensures 0 <= i <= |list| && (b == 0 <==> i == |list|) && (b != 0 ==> b == list[i])
      ensures b != 0 ==> b in tags && want <= sz == tags[b].size
      ensures forall k :: 0 <= k < i ==> list[k] in tags && tags[list[k]].size < want
    {
      ghost var h := Value();
      NodesPositive(h.m, h.head, h.list);
      i, b, sz := 0, freeHead, 0;
      while b != 0
        invariant 0 <= i <= |list| && b == (if i < |list| then list[i] else 0)
        invariant forall k :: 0 <= k < i ==> list[k] in tags && tags[list[k]].size < want
        decreases |list| - i
      {
        InHeap(h, i);
        sz := mem[b] - mem[b] % 2;
        if sz >= want {
          return;
        }
        LinksOf(h.m, h.head, h.list, i);
        b := mem[b + 4];
        i := i + 1;
      }
    }
  }
}
