// The memory of the boundary-tag allocator: blocks with a header and a footer, and a
// doubly linked list of the free ones threaded through their payloads.
//
// Memory is a sequence of words indexed by byte address; the allocator only touches
// addresses that differ from the heap start by a multiple of 4. `tags` is the abstract
// value of the heap: which blocks there are, how long each is and whether it is free.
module HeapBlocks {

  const HDR: int := 4
  const FTR: int := 4
  const MIN_BLOCK: int := 16

  type Mem = seq<int>

  datatype Tag = Tag(size: int, free: bool)

  type Tags = map<int, Tag>

  // ----- Tiling -----------------------------------------------------------------------------

  function End(tags: Tags, b: int): int
    requires b in tags
  {
    b + tags[b].size
  }

  ghost predicate BlockOk(start: int, end: int, tags: Tags, b: int)
    requires b in tags
  {
    && start <= b && (b - start) % 4 == 0
    && tags[b].size >= MIN_BLOCK && tags[b].size % 4 == 0
    && End(tags, b) <= end && (End(tags, b) < end ==> End(tags, b) in tags)
  }

  ghost predicate Apart(tags: Tags) {
    forall b, c :: b in tags && c in tags && b < c ==> b + tags[b].size <= c
  }

  // The blocks tile [start, end).
  ghost predicate Tiled(start: int, end: int, tags: Tags) {
    && 0 < start <= end
    && (start < end ==> start in tags)
    && (forall b {:trigger BlockOk(start, end, tags, b)} :: b in tags ==> BlockOk(start, end, tags, b))
    && Apart(tags)
  }

  // The block after b, if any, is live.
  ghost predicate RightLive(tags: Tags, b: int)
    requires b in tags
  {
    End(tags, b) in tags ==> !tags[End(tags, b)].free
  }

  // No two neighbours are both free.
  ghost predicate Coalesced(tags: Tags) {
    forall b {:trigger RightLive(tags, b)} :: b in tags && tags[b].free ==> RightLive(tags, b)
  }

  // The blocks handed out, with their sizes.
  ghost function Live(tags: Tags): map<int, int> {
    map b | b in tags && !tags[b].free :: tags[b].size
  }

  // ----- Tags and links in memory --------------------------------------------------------------

  function Header(t: Tag): int {
    t.size + if t.free then 1 else 0
  }

  // The header and the footer of b say what tags says.
  ghost predicate TagWords(m: Mem, tags: Tags, b: int)
    requires b in tags
  {
    && 0 <= b && tags[b].size >= MIN_BLOCK && End(tags, b) <= |m|
    && m[b] == Header(tags[b]) && m[End(tags, b) - FTR] == tags[b].size
  }

  // The links of node i of the list: next at +4, previous at +8, 0 for none.
  ghost predicate NodeOk(m: Mem, list: seq<int>, i: int)
    requires 0 <= i < |list|
  {
    && 0 < list[i] && list[i] + MIN_BLOCK <= |m|
    && m[list[i] + 4] == (if i + 1 < |list| then list[i + 1] else 0)
    && m[list[i] + 8] == (if i > 0 then list[i - 1] else 0)
  }

  // No two nodes overlap, so the list is acyclic too.
  ghost predicate Spaced(list: seq<int>) {
    forall i, j :: 0 <= i < |list| && 0 <= j < |list| && i != j ==>
      list[i] + MIN_BLOCK <= list[j] || list[j] + MIN_BLOCK <= list[i]
  }

  ghost predicate Linked(m: Mem, head: int, list: seq<int>) {
    && head == (if list == [] then 0 else list[0])
    && Spaced(list)
    && forall i :: 0 <= i < |list| ==> NodeOk(m, list, i)
  }

  ghost predicate AllFree(tags: Tags, list: seq<int>) {
    forall i :: 0 <= i < |list| ==> list[i] in tags && tags[list[i]].free
  }

  // The list holds exactly the free blocks, but for the ones in `but`.
  ghost predicate Lists(tags: Tags, list: seq<int>, but: set<int>) {
    && AllFree(tags, list)
    && (forall b :: b in tags && tags[b].free && b !in but ==> b in list)
    && (forall b :: b in but ==> b !in list)
  }

  // Everything the allocator keeps in memory.
  datatype Heap = Heap(m: Mem, start: int, end: int, head: int, tags: Tags, list: seq<int>)

  // Every block but those in `but` has its tags in memory.
  ghost predicate WrittenBut(m: Mem, end: int, tags: Tags, but: set<int>) {
    && end <= |m|
    && forall b {:trigger TagWords(m, tags, b)} :: b in tags && b !in but ==> TagWords(m, tags, b)
  }

  // The invariant of the allocator.
  ghost predicate HeapOk(h: Heap) {
    && Tiled(h.start, h.end, h.tags) && Coalesced(h.tags)
    && WrittenBut(h.m, h.end, h.tags, {})
    && Linked(h.m, h.head, h.list) && Lists(h.tags, h.list, {})
  }

  // ----- What tiling means --------------------------------------------------------------------

  // Every address of the heap lies in a block.
  lemma {:induction false} BlockAround(start: int, end: int, tags: Tags, x: int, from: int) returns (b: int)
    requires Tiled(start, end, tags) && from in tags && from <= x < end
    ensures b in tags && b <= x < End(tags, b)
    decreases end - from
  {
    assert BlockOk(start, end, tags, from);
    if x < End(tags, from) {
      b := from;
    } else {
      b := BlockAround(start, end, tags, x, End(tags, from));
    }
  }

  // Every address of [start, end) lies in exactly one block.
  lemma TilesExactly(start: int, end: int, tags: Tags, x: int)
    requires Tiled(start, end, tags) && start <= x < end
    ensures exists b :: b in tags && b <= x < End(tags, b) &&
                        forall c :: c in tags && c <= x < End(tags, c) ==> c == b
  {
    var b := BlockAround(start, end, tags, x, start);
    assert forall c :: c in tags && c <= x < End(tags, c) ==> c == b;
  }

  // A block that is not the first has a neighbour on the left.
  lemma LeftNeighbour(start: int, end: int, tags: Tags, b: int) returns (p: int)
    requires Tiled(start, end, tags) && b in tags && b != start
    ensures p in tags && End(tags, p) == b
  {
    assert BlockOk(start, end, tags, b);
    p := BlockAround(start, end, tags, b - 1, start);
  }

  lemma TwoNodes(list: seq<int>)
    requires Spaced(list)
    ensures |list| >= 2 ==> list[0] != list[1]
  {
  }

  // With nothing handed out, the heap is one free block.
  lemma AllFreeIsOneBlock(h: Heap)
    requires HeapOk(h) && h.start < h.end && Live(h.tags) == map[]
    ensures h.tags == map[h.start := Tag(h.end - h.start, true)]
    ensures h.list == [h.start] && h.head == h.start
  {
    var s := h.start;
    assert BlockOk(s, h.end, h.tags, s);
    assert forall b :: b in h.tags ==> b !in Live(h.tags);
    assert RightLive(h.tags, s);
    forall b | b in h.tags
      ensures b == s
    {
      assert BlockOk(s, h.end, h.tags, b);
    }
    assert forall i :: 0 <= i < |h.list| ==> h.list[i] == s;
    TwoNodes(h.list);
    assert s in h.list;
  }

  // The bytes of the blocks from address b on, added up.
  ghost function TotalFrom(start: int, end: int, tags: Tags, b: int): (total: int)
    requires Tiled(start, end, tags) && (b in tags || b == end)
    decreases end - b
  {
    if b !in tags then 0
    else
      assert BlockOk(start, end, tags, b);
      tags[b].size + TotalFrom(start, end, tags, End(tags, b))
  }

  // The sizes of the blocks always add up to the heap.
  lemma {:induction false} TotalConserved(start: int, end: int, tags: Tags, b: int)
    requires Tiled(start, end, tags) && (b in tags || b == end)
    ensures TotalFrom(start, end, tags, b) == end - b
    decreases end - b
  {
    if b in tags {
      assert BlockOk(start, end, tags, b);
      TotalConserved(start, end, tags, End(tags, b));
    }
  }

  // ----- Writes ----------------------------------------------------------------------------------

  function Stamped(m: Mem, b: int, t: Tag): (r: Mem)
    requires 0 <= b && MIN_BLOCK <= t.size && b + t.size <= |m|
    ensures |r| == |m|
  {
    m[b := Header(t)][b + t.size - FTR := t.size]
  }

  function Pushed(m: Mem, head: int, b: int): (r: Mem)
    requires 0 <= b && b + 8 < |m| && 0 <= head && head + 8 < |m|
    ensures |r| == |m|
  {
    var r := m[b + 8 := 0][b + 4 := head];
    if head != 0 then r[head + 8 := b] else r
  }

  // The list head after b is unlinked.
  function UnlinkedHead(m: Mem, head: int, b: int): int
    requires 0 <= b && b + 8 < |m|
  {
    if m[b + 8] != 0 then head else m[b + 4]
  }

  function Unlinked(m: Mem, b: int): (r: Mem)
    requires 0 <= b && b + 8 < |m|
    requires 0 <= m[b + 8] && m[b + 8] + 4 < |m| && 0 <= m[b + 4] && m[b + 4] + 8 < |m|
    ensures |r| == |m|
  {
    var pv, nx := m[b + 8], m[b + 4];
    var r := if pv != 0 then m[pv + 4 := nx] else m;
    if nx != 0 then r[nx + 8 := pv] else r
  }

  function Without(list: seq<int>, i: int): seq<int>
    requires 0 <= i < |list|
  {
    list[..i] + list[i + 1..]
  }

  // ----- What the writes keep of the list ----------------------------------------------------------

  // The nodes before and after node i, 0 for none.
  function Before(list: seq<int>, i: int): int
    requires 0 <= i < |list|
  {
    if i > 0 then list[i - 1] else 0
  }

  function After(list: seq<int>, i: int): int
    requires 0 <= i < |list|
  {
    if i + 1 < |list| then list[i + 1] else 0
  }

  // A node's links lead to its neighbours.
  lemma LinksOf(m: Mem, head: int, list: seq<int>, i: int)
    requires Linked(m, head, list) && 0 <= i < |list|
    ensures 0 < list[i] && list[i] + MIN_BLOCK <= |m|
    ensures m[list[i] + 4] == After(list, i) && 0 <= After(list, i) && After(list, i) + 8 < |m|
    ensures m[list[i] + 8] == Before(list, i) && 0 <= Before(list, i) && Before(list, i) + 8 < |m|
  {
    assert NodeOk(m, list, i);
    assert i > 0 ==> NodeOk(m, list, i - 1);
    assert i + 1 < |list| ==> NodeOk(m, list, i + 1);
  }

  // What unlinking node i does to the links of node j.
  lemma UnlinkedNode(m: Mem, head: int, list: seq<int>, i: int, j: int)
    requires Linked(m, head, list) && 0 <= i < |list| && 0 <= j < |list| && i != j
    ensures 0 < list[i] && list[i] + MIN_BLOCK <= |m| && 0 < list[j] && list[j] + MIN_BLOCK <= |m|
    ensures 0 <= m[list[i] + 8] && m[list[i] + 8] + 4 < |m| && 0 <= m[list[i] + 4] && m[list[i] + 4] + 8 < |m|
    ensures Unlinked(m, list[i])[list[j] + 4] == (if j == i - 1 then After(list, i) else After(list, j))
    ensures Unlinked(m, list[i])[list[j] + 8] == (if j == i + 1 then Before(list, i) else Before(list, j))
  {
    LinksOf(m, head, list, i);
    LinksOf(m, head, list, j);
    assert i > 0 && j != i - 1 ==> list[i - 1] + MIN_BLOCK <= list[j] || list[j] + MIN_BLOCK <= list[i - 1];
    assert i + 1 < |list| && j != i + 1 ==> list[i + 1] + MIN_BLOCK <= list[j] || list[j] + MIN_BLOCK <= list[i + 1];
  }

  lemma UnlinkedNext(m: Mem, head: int, list: seq<int>, i: int, k: int)
    requires Linked(m, head, list) && 0 <= i < |list| && 0 <= k < |list| - 1
    ensures 0 < list[i] && list[i] + MIN_BLOCK <= |m|
    ensures 0 <= m[list[i] + 8] && m[list[i] + 8] + 4 < |m| && 0 <= m[list[i] + 4] && m[list[i] + 4] + 8 < |m|
    ensures NodeOk(Unlinked(m, list[i]), Without(list, i), k)
  {
    UnlinkedNode(m, head, list, i, if k < i then k else k + 1);
  }

  lemma UnlinkedFirst(m: Mem, head: int, list: seq<int>, i: int)
    requires Linked(m, head, list) && 0 <= i < |list|
    ensures 0 < list[i] && list[i] + MIN_BLOCK <= |m|
    ensures UnlinkedHead(m, head, list[i]) == if Without(list, i) == [] then 0 else Without(list, i)[0]
  {
    LinksOf(m, head, list, i);
    if i > 0 {
      LinksOf(m, head, list, i - 1);
    }
  }

  // Unlinking a node leaves the list of the others.
  lemma UnlinkKeeps(m: Mem, head: int, list: seq<int>, i: int)
    requires Linked(m, head, list) && 0 <= i < |list|
    ensures 0 < list[i] && list[i] + MIN_BLOCK <= |m|
    ensures 0 <= m[list[i] + 8] && m[list[i] + 8] + 4 < |m| && 0 <= m[list[i] + 4] && m[list[i] + 4] + 8 < |m|
    ensures Linked(Unlinked(m, list[i]), UnlinkedHead(m, head, list[i]), Without(list, i))
  {
    LinksOf(m, head, list, i);
    UnlinkedFirst(m, head, list, i);
    var r, rest := Unlinked(m, list[i]), Without(list, i);
    forall k | 0 <= k < |rest|
      ensures NodeOk(r, rest, k)
    {
      UnlinkedNext(m, head, list, i, k);
    }
  }

  // Pushing a block that overlaps no node puts it in front.
  lemma PushKeeps(m: Mem, head: int, list: seq<int>, b: int)
    requires Linked(m, head, list) && 0 < b && b + MIN_BLOCK <= |m|
    requires forall i :: 0 <= i < |list| ==> list[i] + MIN_BLOCK <= b || b + MIN_BLOCK <= list[i]
    ensures 0 <= head && head + 8 < |m|
    ensures Linked(Pushed(m, head, b), b, [b] + list)
  {
    assert list != [] ==> NodeOk(m, list, 0);
    var r, all := Pushed(m, head, b), [b] + list;
    forall k | 0 <= k < |all|
      ensures NodeOk(r, all, k)
    {
      assert k > 0 ==> all[k] == list[k - 1] && NodeOk(m, list, k - 1);
    }
  }

  // Stamping a block that overlaps no node leaves the list alone.
  lemma StampKeeps(m: Mem, head: int, list: seq<int>, b: int, t: Tag)
    requires Linked(m, head, list) && 0 <= b && MIN_BLOCK <= t.size && b + t.size <= |m|
    requires forall i :: 0 <= i < |list| ==> list[i] + MIN_BLOCK <= b || b + t.size <= list[i]
    ensures Linked(Stamped(m, b, t), head, list)
  {
    forall k | 0 <= k < |list|
      ensures NodeOk(Stamped(m, b, t), list, k)
    {
      assert NodeOk(m, list, k);
    }
  }

  // ----- What the writes keep of the blocks ----------------------------------------------------------

  ghost function Nodes(list: seq<int>): set<int> {
    set i | 0 <= i < |list| :: list[i]
  }

  // Only link words of these blocks differ.
  ghost predicate Relinked(m: Mem, r: Mem, nodes: set<int>) {
    |m| == |r| && forall x :: 0 <= x < |m| && r[x] != m[x] ==> x - 4 in nodes || x - 8 in nodes
  }

  lemma UnlinkRelinks(m: Mem, head: int, list: seq<int>, i: int)
    requires Linked(m, head, list) && 0 <= i < |list|
    ensures 0 < list[i] && list[i] + MIN_BLOCK <= |m|
    ensures 0 <= m[list[i] + 8] && m[list[i] + 8] + 4 < |m| && 0 <= m[list[i] + 4] && m[list[i] + 4] + 8 < |m|
    ensures Relinked(m, Unlinked(m, list[i]), Nodes(list))
  {
    LinksOf(m, head, list, i);
    assert i > 0 ==> list[i - 1] in Nodes(list);
    assert i + 1 < |list| ==> list[i + 1] in Nodes(list);
  }

  lemma PushRelinks(m: Mem, head: int, list: seq<int>, b: int)
    requires Linked(m, head, list) && 0 < b && b + MIN_BLOCK <= |m|
    ensures 0 <= head && head + 8 < |m|
    ensures Relinked(m, Pushed(m, head, b), Nodes([b] + list))
  {
    assert list != [] ==> NodeOk(m, list, 0);
    var all := [b] + list;
    assert all[0] in Nodes(all);
    assert list != [] ==> all[1] in Nodes(all);
  }

  // Tags survive a change of links.
  lemma RelinkKeeps(m: Mem, r: Mem, nodes: set<int>, start: int, end: int, tags: Tags, but: set<int>)
    requires Relinked(m, r, nodes) && nodes <= tags.Keys && Tiled(start, end, tags)
    requires WrittenBut(m, end, tags, but)
    ensures WrittenBut(r, end, tags, but)
  {
    forall c | c in tags && c !in but
      ensures TagWords(r, tags, c)
    {
      assert TagWords(m, tags, c);
      TagNotLink(start, end, tags, nodes, c, c);
      TagNotLink(start, end, tags, nodes, c, End(tags, c) - FTR);
    }
  }

  // A header or footer is nobody's link.
  lemma TagNotLink(start: int, end: int, tags: Tags, nodes: set<int>, c: int, x: int)
    requires Tiled(start, end, tags) && nodes <= tags.Keys && c in tags && (x == c || x == End(tags, c) - FTR)
    ensures x - 4 !in nodes && x - 8 !in nodes
  {
    assert BlockOk(start, end, tags, c);
    assert x - 4 in tags ==> BlockOk(start, end, tags, x - 4);
    assert x - 8 in tags ==> BlockOk(start, end, tags, x - 8);
  }

  lemma StampWrites(m: Mem, start: int, end: int, tags: Tags, but: set<int>, b: int)
    requires Tiled(start, end, tags) && WrittenBut(m, end, tags, but) && b in tags
    ensures 0 <= b && MIN_BLOCK <= tags[b].size && End(tags, b) <= |m|
    ensures WrittenBut(Stamped(m, b, tags[b]), end, tags, but - {b})
  {
    assert BlockOk(start, end, tags, b);
    var r := Stamped(m, b, tags[b]);
    forall c | c in tags && c !in but - {b}
      ensures TagWords(r, tags, c)
    {
      assert BlockOk(start, end, tags, c);
      assert c != b ==> TagWords(m, tags, c);
    }
  }

  // Outside the heap and inside the blocks of `live` memory is as it was.
  ghost predicate Undisturbed(m: Mem, r: Mem, start: int, end: int, live: map<int, int>) {
    && |m| == |r|
    && (forall x :: 0 <= x < |m| && (x < start || end <= x) ==> r[x] == m[x])
    && forall c, x :: c in live && 0 <= x < |m| && c <= x < c + live[c] ==> r[x] == m[x]
  }

  // The blocks of `live` are blocks of tags.
  ghost predicate Among(live: map<int, int>, tags: Tags) {
    forall c :: c in live ==> c in tags && tags[c].size == live[c]
  }

  lemma RelinkUndisturbed(m: Mem, r: Mem, nodes: set<int>, start: int, end: int, tags: Tags, live: map<int, int>)
    requires Relinked(m, r, nodes) && nodes <= tags.Keys && Tiled(start, end, tags)
    requires Among(live, tags) && live.Keys !! nodes
    ensures Undisturbed(m, r, start, end, live)
  {
    forall n | n in nodes
      ensures BlockOk(start, end, tags, n)
    {
    }
  }

  lemma StampUndisturbed(m: Mem, start: int, end: int, tags: Tags, b: int, live: map<int, int>)
    requires Tiled(start, end, tags) && b in tags && end <= |m|
    requires Among(live, tags) && b !in live
    ensures 0 <= b && MIN_BLOCK <= tags[b].size && End(tags, b) <= |m|
    ensures Undisturbed(m, Stamped(m, b, tags[b]), start, end, live)
  {
    assert BlockOk(start, end, tags, b);
  }

  // A free block other than b overlaps no part of b.
  lemma NodesApart(start: int, end: int, tags: Tags, list: seq<int>, b: int)
    requires Tiled(start, end, tags) && AllFree(tags, list) && b in tags && b !in list
    ensures forall i :: 0 <= i < |list| ==> list[i] + MIN_BLOCK <= b || End(tags, b) <= list[i]
  {
    forall i | 0 <= i < |list|
      ensures list[i] + MIN_BLOCK <= b || End(tags, b) <= list[i]
    {
      assert BlockOk(start, end, tags, list[i]);
    }
  }

  // ----- Carving and joining blocks --------------------------------------------------------------------

  // b handed out with `want` bytes; a remainder of at least MIN_BLOCK becomes a free block.
  function Carved(tags: Tags, b: int, want: int): Tags
    requires b in tags
  {
    if tags[b].size - want >= MIN_BLOCK
    then tags[b := Tag(want, false)][b + want := Tag(tags[b].size - want, true)]
    else tags[b := Tag(tags[b].size, false)]
  }

  lemma CarveTiles(start: int, end: int, tags: Tags, b: int, want: int)
    requires Tiled(start, end, tags) && b in tags && MIN_BLOCK <= want <= tags[b].size && want % 4 == 0
    ensures Tiled(start, end, Carved(tags, b, want))
    ensures tags[b].size - want >= MIN_BLOCK ==> b + want !in tags
  {
    assert BlockOk(start, end, tags, b);
    CarvedApart(start, end, tags, b, want);
    forall c | c in Carved(tags, b, want)
      ensures BlockOk(start, end, Carved(tags, b, want), c)
    {
      CarvedBlockOk(start, end, tags, b, want, c);
    }
  }

  lemma CarvedApart(start: int, end: int, tags: Tags, b: int, want: int)
    requires Tiled(start, end, tags) && b in tags && MIN_BLOCK <= want <= tags[b].size
    ensures Apart(Carved(tags, b, want))
  {
    var t := Carved(tags, b, want);
    forall c, d | c in t && d in t && c < d
      ensures End(t, c) <= d
    {
      assert c in tags ==> BlockOk(start, end, tags, c);
      assert d in tags ==> BlockOk(start, end, tags, d);
      assert End(tags, b) == b + tags[b].size;
    }
  }

  lemma CarvedBlockOk(start: int, end: int, tags: Tags, b: int, want: int, c: int)
    requires Tiled(start, end, tags) && b in tags && MIN_BLOCK <= want <= tags[b].size && want % 4 == 0
    requires c in Carved(tags, b, want)
    ensures BlockOk(start, end, Carved(tags, b, want), c)
  {
    assert BlockOk(start, end, tags, b);
    assert c in tags ==> BlockOk(start, end, tags, c);
  }

  lemma CarveCoalesces(start: int, end: int, tags: Tags, b: int, want: int)
    requires Tiled(start, end, tags) && Coalesced(tags)
    requires b in tags && tags[b].free && MIN_BLOCK <= want <= tags[b].size && want % 4 == 0
    ensures Coalesced(Carved(tags, b, want))
    ensures Live(Carved(tags, b, want)) == Live(tags)[b := Carved(tags, b, want)[b].size]
  {
    CarveTiles(start, end, tags, b, want);
    var t := Carved(tags, b, want);
    assert BlockOk(start, end, tags, b);
    forall c | c in t && t[c].free
      ensures RightLive(t, c)
    {
      if c in tags {
        assert tags[c] == t[c] && BlockOk(start, end, tags, c) && RightLive(tags, c);
        assert End(t, c) == End(tags, c);
      } else {
        assert End(t, c) == End(tags, b) && RightLive(tags, b);
      }
    }
  }

  // b and the block after it as one block, live or free as told.
  function Joined(tags: Tags, b: int, free: bool): Tags
    requires b in tags && End(tags, b) in tags
  {
    (tags - {End(tags, b)})[b := Tag(tags[b].size + tags[End(tags, b)].size, free)]
  }

  lemma JoinTiles(start: int, end: int, tags: Tags, b: int, free: bool)
    requires Tiled(start, end, tags) && b in tags && End(tags, b) in tags
    ensures b != End(tags, b) && Tiled(start, end, Joined(tags, b, free))
  {
    assert BlockOk(start, end, tags, b);
    JoinedApart(start, end, tags, b, free);
    forall c | c in Joined(tags, b, free)
      ensures BlockOk(start, end, Joined(tags, b, free), c)
    {
      JoinedBlockOk(start, end, tags, b, free, c);
    }
  }

  lemma JoinedApart(start: int, end: int, tags: Tags, b: int, free: bool)
    requires Tiled(start, end, tags) && b in tags && End(tags, b) in tags
    ensures Apart(Joined(tags, b, free))
  {
    var t, n := Joined(tags, b, free), End(tags, b);
    assert BlockOk(start, end, tags, b) && BlockOk(start, end, tags, n);
    forall c, d | c in t && d in t && c < d
      ensures End(t, c) <= d
    {
      assert c in tags && d in tags && End(tags, c) <= d;
      assert n < d ==> End(tags, n) <= d;
    }
  }

  lemma JoinedBlockOk(start: int, end: int, tags: Tags, b: int, free: bool, c: int)
    requires Tiled(start, end, tags) && b in tags && End(tags, b) in tags && c in Joined(tags, b, free)
    ensures BlockOk(start, end, Joined(tags, b, free), c)
  {
    var n := End(tags, b);
    assert BlockOk(start, end, tags, b) && BlockOk(start, end, tags, n) && BlockOk(start, end, tags, c);
  }

  // ----- What a call does -------------------------------------------------------------------------------

  // A payload of p taken from free space; nothing else that was live is touched.
  ghost predicate Mallocs(h: Heap, p: int, k: Heap) {
    && k.start == h.start && k.end == h.end
    && Undisturbed(h.m, k.m, h.start, h.end, Live(h.tags))
    && if p == 0 then k == h
       else p - HDR !in Live(h.tags) && p - HDR in Live(k.tags)
            && Live(k.tags) == Live(h.tags)[p - HDR := k.tags[p - HDR].size]
  }

  // The block of p is free again; nothing else that was live is touched.
  ghost predicate Frees(h: Heap, p: int, k: Heap) {
    && k.start == h.start && k.end == h.end
    && Undisturbed(h.m, k.m, h.start, h.end, Live(k.tags))
    && if p == 0 then k == h
       else p - HDR in Live(h.tags) && Live(k.tags) == Live(h.tags) - {p - HDR}
  }

  // Two live blocks share no address.
  lemma LiveBlocksApart(h: Heap, b: int, c: int)
    requires HeapOk(h) && b in Live(h.tags) && c in Live(h.tags) && b != c
    ensures b + Live(h.tags)[b] <= c || c + Live(h.tags)[c] <= b
    ensures h.start <= b && b + Live(h.tags)[b] <= h.end
  {
    assert BlockOk(h.start, h.end, h.tags, b);
  }
}
