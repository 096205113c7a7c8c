// The seal over a file, and the memory a loaded image is laid out in.
module Seal {
  import opened Arith
  import opened Bytes
  import opened ImageFile
  import opened Loader
  import opened RoundTrip
  import opened Words
  import opened Writer

  datatype Peeked = Absent | Malformed | Present(e: Extent)

  // The first section of a kind from section i on, or the number of sections.
  function FirstOf(f: seq<Byte>, kind: u32, i: nat): (r: nat)
    requires TableInside(f) && i <= Count(f)
    ensures i <= r <= Count(f) && (r < Count(f) ==> RecAt(f, r).kind == kind)
    ensures forall k :: i <= k < r ==> RecAt(f, k).kind != kind
    decreases Count(f) - i
  {
    if i == Count(f) || RecAt(f, i).kind == kind then i else FirstOf(f, kind, i + 1)
  }

  function Peek(f: seq<Byte>, kind: u32): Peeked {
    if |f| < 24 || f[0..4] != MAGIC || !TableInside(f) then Malformed
    else
      var i := FirstOf(f, kind, 0);
      if i == Count(f) then Absent
      else if RecAt(f, i).off + RecAt(f, i).size > |f| then Malformed
      else Present(Extent(RecAt(f, i).off, RecAt(f, i).size))
  }

  // cvm_peek_section
  method PeekSection(f: seq<Byte>, kind: u32) returns (r: Peeked)
    ensures r == Peek(f, kind)
  {
    if |f| < 24 { return Malformed; }
    if f[0..4] != MAGIC { return Malformed; }
    if TableOff(f) + 16 * Count(f) > |f| { return Malformed; }
    var i: nat := 0;
    while i < Count(f)
      invariant i <= Count(f) && FirstOf(f, kind, 0) == FirstOf(f, kind, i)
    {
      var s := RecAt(f, i);
      if s.kind == kind {
        if s.off + s.size > |f| { return Malformed; }
        return Present(Extent(s.off, s.size));
      }
      i := i + 1;
    }
    r := Absent;
  }

  function Verdict(f: seq<Byte>): int {
    match Peek(f, SEAL)
    case Absent => 0
    case Malformed => -1
    case Present(e) =>
      if e.off + e.size > |f| || e.size < 12 || Word(f, e.off) != SEAL_MAGIC then -1
      else if Crc(f[..e.off]) == Word(f, e.off + 8) then 1
      else -1
  }

  // cvm_seal_check
  method SealCheck(f: seq<Byte>) returns (r: int)
    ensures r == Verdict(f)
  {
    var p := PeekSection(f, SEAL);
    if p.Malformed? { return -1; }
    if p.Absent? { return 0; }
    if p.e.size < 12 || Word(f, p.e.off) != SEAL_MAGIC { return -1; }
    var crc := Crc32(f, p.e.off);
    r := if crc == Word(f, p.e.off + 8) then 1 else -1;
  }

  // ----- Sealed files -----------------------------------------------------------------------------

  lemma {:induction false} FirstIsIndex(f: seq<Byte>, secs: seq<Section>, kind: u32, i: nat)
    requires Recorded(f, secs) && i <= |secs| && (forall k :: 0 <= k < i ==> secs[k].kind != kind)
    ensures FirstOf(f, kind, i) == IndexOf(secs, kind)
    decreases |secs| - i
  {
    if i < |secs| {
      assert RecAt(f, i).kind == secs[i].kind;
      if secs[i].kind == kind { IndexAt(secs, i); } else { FirstIsIndex(f, secs, kind, i + 1); }
    }
  }

  lemma {:induction false} IndexAt(secs: seq<Section>, i: nat)
    requires i < |secs| && forall k :: 0 <= k < i ==> secs[k].kind != secs[i].kind
    ensures IndexOf(secs, secs[i].kind) == i
  {
    if i > 0 { IndexAt(secs[1..], i - 1); }
  }

  function SealOff(j: Job): nat
    requires Writable(j) && j.seal
  {
    PlainFits(j);
    |Prefix(j.entry, Plain(j))|
  }

  // The seal is where peeking looks for it.
  lemma SealFound(j: Job)
    requires Writable(j) && j.seal
    ensures SealOff(j) + 12 == |File(j)| < B && Peek(File(j), SEAL) == Present(Extent(SealOff(j), 12))
  {
    var secs, plain := AllSections(j), Plain(j);
    FileIsAssembled(j);
    PlainProper(j);
    PlainFits(j);
    SealIndex(plain, secs);
    SealPeeked(j.entry, secs, |plain|);
    assert OffsetOf(secs, |plain|) == SealOff(j);
  }

  lemma SealPeeked(entry: u32, secs: seq<Section>, i: nat)
    requires Fits(secs) && Proper(secs) && i < |secs| && IndexOf(secs, SEAL) == i && secs[i].size == 12 && secs[i].kind == SEAL
    ensures OffsetOf(secs, i) < B && Peek(Assemble(entry, secs), SEAL) == Present(Extent(OffsetOf(secs, i), 12))
  {
    HeaderWords(entry, secs);
    TableBack(entry, secs);
    FirstIsIndex(Assemble(entry, secs), secs, SEAL, 0);
  }

  lemma SealIndex(plain: seq<Section>, secs: seq<Section>)
    requires |secs| == |plain| + 1 && secs[..|plain|] == plain && secs[|plain|].kind == SEAL
    requires forall i :: 0 <= i < |plain| ==> plain[i].kind < SEAL
    ensures IndexOf(secs, SEAL) == |plain|
  {
    forall k | 0 <= k < |plain| ensures secs[k].kind != SEAL { assert secs[..|plain|][k] == plain[k]; }
    IndexAt(secs, |plain|);
  }

  lemma {:induction false} NoSealFound(j: Job)
    requires Writable(j) && !j.seal
    ensures Peek(File(j), SEAL) == Absent
  {
    var secs := AllSections(j);
    FileIsAssembled(j);
    PlainProper(j);
    HeaderWords(j.entry, secs);
    TableBack(j.entry, secs);
    FirstIsIndex(File(j), secs, SEAL, 0);
  }

  lemma SealWords(s: seq<Byte>, crc: u32)
    requires s == SealBytes(crc)
    ensures Word(s, 0) == SEAL_MAGIC && Word(s, 8) == crc
  {
    SitsEnc(s, 0, SEAL_MAGIC);
    SitsEnc(s, 8, crc);
  }

  lemma SealedWords(p: seq<Byte>, s: seq<Byte>, crc: u32)
    requires s == SealBytes(crc)
    ensures Word(p + s, |p|) == SEAL_MAGIC && Word(p + s, |p| + 8) == crc && (p + s)[..|p|] == p
  {
    SealWords(s, crc);
    SitsRight(p, s);
    SitsWord(p + s, |p|, s, 0);
    SitsWord(p + s, |p|, s, 8);
  }

  // A file checks out exactly when it was written with a seal.
  lemma SealedPasses(j: Job)
    requires Writable(j)
    ensures Verdict(File(j)) == if j.seal then 1 else 0
  {
    if j.seal {
      SealFound(j);
      PlainFits(j);
      var p := Prefix(j.entry, Plain(j));
      SealedWords(p, SealBytes(Crc(p)), Crc(p));
    } else {
      NoSealFound(j);
    }
  }

  // ----- Damage -----------------------------------------------------------------------------------

  // g is f with the byte at k, and no other, changed.
  ghost predicate Damaged(f: seq<Byte>, g: seq<Byte>, k: nat) {
    |g| == |f| && k < |f| && g[k] != f[k] && forall i :: 0 <= i < |f| && i != k ==> g[i] == f[i]
  }

  lemma SameWord(f: seq<Byte>, g: seq<Byte>, k: nat, at: nat)
    requires Damaged(f, g, k) && at + 4 <= |f|
    ensures Word(g, at) == Word(f, at) <==> !(at <= k < at + 4)
  {
    if at <= k < at + 4 {
      var d0: int, d1: int, d2: int, d3: int := (g[at] as int) - (f[at] as int), (g[at + 1] as int) - (f[at + 1] as int), (g[at + 2] as int) - (f[at + 2] as int), (g[at + 3] as int) - (f[at + 3] as int);
      assert Word(g, at) - Word(f, at) == d0 + 0x100 * d1 + 0x1_0000 * d2 + 0x100_0000 * d3;
    }
  }

  lemma {:induction false} SameFirst(f: seq<Byte>, g: seq<Byte>, k: nat, kind: u32, i: nat)
    requires Damaged(f, g, k) && 24 <= k && TableInside(f) && TableInside(g) && TableOff(f) + 16 * Count(f) <= k
    requires TableOff(g) == TableOff(f) && Count(g) == Count(f) && i <= Count(f)
    ensures FirstOf(g, kind, i) == FirstOf(f, kind, i)
    decreases Count(f) - i
  {
    if i < Count(f) {
      SameRec(f, g, k, i);
      SameFirst(f, g, k, kind, i + 1);
    }
  }

  lemma SameRec(f: seq<Byte>, g: seq<Byte>, k: nat, i: nat)
    requires Damaged(f, g, k) && 24 <= k && TableInside(f) && TableInside(g) && TableOff(f) + 16 * Count(f) <= k
    requires TableOff(g) == TableOff(f) && Count(g) == Count(f) && i < Count(f)
    ensures RecAt(g, i) == RecAt(f, i)
  {
    var at := TableOff(f) + 16 * i;
    SameWord(f, g, k, at);
    SameWord(f, g, k, at + 4);
    SameWord(f, g, k, at + 8);
    SameWord(f, g, k, at + 12);
  }

  // Damage behind the table leaves every section where it was.
  lemma SamePeek(f: seq<Byte>, g: seq<Byte>, k: nat, kind: u32)
    requires Damaged(f, g, k) && 24 <= k && TableInside(f) && TableOff(f) + 16 * Count(f) <= k
    ensures Peek(g, kind) == Peek(f, kind)
  {
    assert g[0..4] == f[0..4];
    SameWord(f, g, k, 12);
    SameWord(f, g, k, 16);
    SameFirst(f, g, k, kind, 0);
    var i := FirstOf(f, kind, 0);
    if i < Count(f) { SameRec(f, g, k, i); }
  }

  // One changed byte behind the table of a sealed file is noticed, unless it is in the version of the
  // seal, which is not read.
  lemma DamageIsNoticed(j: Job, g: seq<Byte>, k: nat)
    requires Writable(j) && j.seal && Damaged(File(j), g, k) && BodyOff(AllSections(j)) <= k
    ensures Verdict(g) == if SealOff(j) + 4 <= k < SealOff(j) + 8 then 1 else -1
  {
    var f, at := File(j), SealOff(j);
    FileIsAssembled(j);
    SealFound(j);
    HeaderWords(j.entry, AllSections(j));
    TableBack(j.entry, AllSections(j));
    SamePeek(f, g, k, SEAL);
    PlainFits(j);
    var p := Prefix(j.entry, Plain(j));
    SealedWords(p, SealBytes(Crc(p)), Crc(p));
    VerdictChanges(f, g, k, at);
  }

  lemma VerdictChanges(f: seq<Byte>, g: seq<Byte>, k: nat, at: u32)
    requires Damaged(f, g, k) && Peek(f, SEAL) == Peek(g, SEAL) == Present(Extent(at, 12)) && at + 12 == |f|
    requires Word(f, at) == SEAL_MAGIC && Word(f, at + 8) == Crc(f[..at])
    ensures Verdict(g) == if at + 4 <= k < at + 8 then 1 else -1
  {
    SameWord(f, g, k, at);
    SameWord(f, g, k, at + 8);
    SameCrc(f, g, k, at);
  }

  lemma SameCrc(f: seq<Byte>, g: seq<Byte>, k: nat, at: nat)
    requires Damaged(f, g, k) && at <= |f|
    ensures Crc(g[..at]) == Crc(f[..at]) <==> at <= k
  {
    if k < at {
      CrcDetects(f[..at], g[..at], 0xFFFF_FFFF, k);
    } else {
      assert g[..at] == f[..at];
    }
  }

  // ----- Memory -----------------------------------------------------------------------------------

  lemma {:induction false} PlacedIndex(f: seq<Byte>, at: nat, start: nat, n: nat, i: nat)
    requires i < n && at + 28 * n <= |f|
    ensures PlacedAt(f, at, start, n)[i] == Placed(RegionAt(f, at + 28 * i), start + RegionTotal(f, at, i))
  {
    if i < n - 1 { PlacedIndex(f, at, start, n - 1, i); }
  }

  function End(p: Placed): nat {
    p.offset + Aligned(p.region.size)
  }

  // Regions one right after the other, from one address to another.
  ghost predicate Abut(rs: seq<Placed>, from: nat, to: nat) {
    if rs == [] then from == to
    else rs[0].offset == from && End(rs[|rs| - 1]) == to && forall i {:trigger End(rs[i])} :: 0 <= i < |rs| - 1 ==> End(rs[i]) == rs[i + 1].offset
  }

  lemma PlacedAbut(f: seq<Byte>, at: nat, start: nat, n: nat)
    requires 0 < n && at + 28 * n <= |f|
    ensures Abut(PlacedAt(f, at, start, n), start, start + RegionTotal(f, at, n))
  {
    var rs := PlacedAt(f, at, start, n);
    forall i | 0 <= i < n
      ensures rs[i].offset == start + RegionTotal(f, at, i) && End(rs[i]) == start + RegionTotal(f, at, i + 1)
    {
      PlacedIndex(f, at, start, n, i);
    }
  }

  // DATA, the regions, ROM, the reserve and the stack follow each other and fill memory, whose size
  // fits in 32 bits; DATA and ROM hold their sections, and the rest is zero.
  ghost predicate Filled(f: seq<Byte>, l: Layout, image: Image)
    requires Inside(f, l)
  {
    var regions, rom := l.data.size + l.bss, image.heapSize - l.reserve - l.rom.size;
    && |image.mem| == image.heapSize + l.stack <= LIMIT && regions <= rom
    && Abut(image.regions, regions, rom)
    && (l.rom.size > 0 ==> image.romOffset == rom)
    && Parted(f, image.mem, l.data, rom, l.rom)
  }

  ghost predicate Parted(f: seq<Byte>, mem: seq<Byte>, data: Extent, at: nat, rom: Extent)
    requires data.off + data.size <= |f| && rom.off + rom.size <= |f|
  {
    && data.size <= |mem| && at + rom.size <= |mem| && mem[..data.size] == f[data.off..data.off + data.size]
    && mem[at..at + rom.size] == f[rom.off..rom.off + rom.size]
    && forall a :: 0 <= a < |mem| && mem[a] != 0 ==> a < data.size || at <= a < at + rom.size
  }

  // What the image is made of.
  lemma ImageParts(f: seq<Byte>, l: Layout, image: Image, total: nat)
    requires |f| >= 24 && Inside(f, l) && RegionsOk(f, l.regions) && ImportsOk(f, l.imports)
    requires image == ImageOf(f, l) && total == TotalOf(f, l.regions)
    ensures image.regions == PlacedOf(f, l.regions, l.data.size + l.bss)
    ensures image.mem == MemoryOf(f, l.data, l.bss + total, l.rom, l.reserve + l.stack)
    ensures image.heapSize == l.data.size + l.bss + total + l.rom.size + l.reserve == HeapTotal(f, l)
    ensures l.rom.size > 0 ==> image.romOffset == l.data.size + l.bss + total
  {
  }

  lemma ImageFilled(f: seq<Byte>, l: Layout, image: Image, total: nat)
    requires Inside(f, l) && RegionsOk(f, l.regions) && total == TotalOf(f, l.regions)
    requires image.regions == PlacedOf(f, l.regions, l.data.size + l.bss)
    requires image.mem == MemoryOf(f, l.data, l.bss + total, l.rom, l.reserve + l.stack)
    requires image.heapSize == l.data.size + l.bss + total + l.rom.size + l.reserve && image.heapSize + l.stack <= LIMIT
    requires l.rom.size > 0 ==> image.romOffset == l.data.size + l.bss + total
    ensures Filled(f, l, image)
  {
    RegionsAbut(f, l.regions, l.data.size + l.bss);
    MemoryParts(f, l.data, l.bss + total, l.rom, l.reserve + l.stack);
    FilledFrom(f, l, image, total, l.data.size + l.bss);
  }

  lemma FilledFrom(f: seq<Byte>, l: Layout, image: Image, total: nat, start: nat)
    requires Inside(f, l) && start == l.data.size + l.bss && image.heapSize == start + total + l.rom.size + l.reserve
    requires |image.mem| == l.data.size + (l.bss + total) + l.rom.size + (l.reserve + l.stack) && image.heapSize + l.stack <= LIMIT
    requires Abut(image.regions, start, start + total) && Parted(f, image.mem, l.data, l.data.size + (l.bss + total), l.rom)
    requires l.rom.size > 0 ==> image.romOffset == start + total
    ensures Filled(f, l, image)
  {
    assert l.data.size + (l.bss + total) == start + total;
  }

  lemma RegionsAbut(f: seq<Byte>, e: Extent, start: nat)
    requires e.off + e.size <= |f| && RegionsOk(f, e)
    ensures Abut(PlacedOf(f, e, start), start, start + TotalOf(f, e))
  {
    if RegionCount(f, e) > 0 { PlacedAbut(f, e.off + 4, start, RegionCount(f, e)); }
  }

  lemma LaidOutFilled(f: seq<Byte>, l: Layout, image: Image)
    requires |f| >= 24 && Inside(f, l) && LayoutFault(f, l).None? && image == ImageOf(f, l)
    ensures Filled(f, l, image)
  {
    ImageParts(f, l, image, TotalOf(f, l.regions));
    ImageFilled(f, l, image, TotalOf(f, l.regions));
  }

  // Every image that loads fills its memory so.
  lemma MemoryIsFilled(f: seq<Byte>, image: Image)
    requires Loads(f, image)
    ensures Filled(f, LayoutOf(f), image)
  {
    LaidOutFilled(f, LayoutOf(f), image);
  }

  lemma MemoryParts(f: seq<Byte>, data: Extent, gap: nat, rom: Extent, rest: nat)
    requires data.off + data.size <= |f| && rom.off + rom.size <= |f|
    ensures |MemoryOf(f, data, gap, rom, rest)| == data.size + gap + rom.size + rest
    ensures Parted(f, MemoryOf(f, data, gap, rom, rest), data, data.size + gap, rom)
  {
    var d, r := f[data.off..data.off + data.size], f[rom.off..rom.off + rom.size];
    var mem := d + Zeros(gap) + r + Zeros(rest);
    assert mem[..data.size] == d;
    assert mem[data.size + gap..data.size + gap + rom.size] == r;
  }
}
