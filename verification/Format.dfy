// The image format by its bytes and numbers: what a file must hold to be loaded, what it is loaded
// to, and what the writer puts in one.
module Format {
  import opened Arith
  import opened Bytes
  import opened ImageFile
  import opened Loader
  import opened Machine
  import opened RoundTrip
  import opened Seal
  import opened Words
  import opened Writer

  // ----- The header and the table -------------------------------------------------------------------

  // "CVM1", version 1.0, no flags, and a table inside the file; every word has its lowest byte first.
  ghost predicate HeaderGood(f: seq<Byte>) {
    && |f| >= 24 && f[0..4] == [0x43, 0x56, 0x4D, 0x31] && f[4..8] == [0, 0, 1, 0] && f[8..12] == [0, 0, 0, 0]
    && Tabled(f)
  }

  ghost predicate Tabled(f: seq<Byte>) {
    |f| >= 24 && Word(f, 16) + 16 * Word(f, 12) <= |f|
  }

  // The i-th record of the table.
  ghost function KindAt(f: seq<Byte>, i: nat): u32
    requires Tabled(f) && i < Word(f, 12)
  {
    Word(f, Word(f, 16) + 16 * i)
  }

  ghost function PlaceAt(f: seq<Byte>, i: nat): Extent
    requires Tabled(f) && i < Word(f, 12)
  {
    Extent(Word(f, Word(f, 16) + 16 * i + 4), Word(f, Word(f, 16) + 16 * i + 8))
  }

  ghost predicate RecordOk(f: seq<Byte>, i: nat)
    requires Tabled(f) && i < Word(f, 12)
  {
    var kind, e := KindAt(f, i), PlaceAt(f, i);
    && Word(f, Word(f, 16) + 16 * i + 12) == 0 && 1 <= kind <= 12
    && (if kind == 3 || kind == 6 || kind == 7 then e.off == 0 else e.off + e.size <= |f|)
    && (kind == 1 || kind == 8 ==> e.size > 0 && e.size % 4 == 0)
  }

  // Every record is in order, and no two sections are of one kind, but for kind 5.
  ghost predicate RecordsGood(f: seq<Byte>)
    requires Tabled(f)
  {
    && (forall i :: 0 <= i < Word(f, 12) ==> RecordOk(f, i))
    && (forall i, j :: 0 <= i < j < Word(f, 12) && KindAt(f, i) == KindAt(f, j) ==> KindAt(f, i) == 5)
  }

  lemma RecordOf(f: seq<Byte>, i: nat)
    requires Tabled(f) && i < Word(f, 12)
    ensures TableInside(f) && i < Count(f)
    ensures RecAt(f, i) == Rec(KindAt(f, i), PlaceAt(f, i).off, PlaceAt(f, i).size, Word(f, Word(f, 16) + 16 * i + 12))
  {
  }

  lemma {:induction false} HasRecord(f: seq<Byte>, kind: u32, n: nat)
    requires TableInside(f) && n <= Count(f)
    ensures HasKind(f, kind, n) <==> exists i :: 0 <= i < n && KindAt(f, i) == kind
  {
    if n > 0 {
      HasRecord(f, kind, n - 1);
      RecordOf(f, n - 1);
    }
  }

  lemma {:induction false} FaultFrom(f: seq<Byte>, i: nat)
    requires TableInside(f) && i <= Count(f)
    ensures TableFault(f, i).None? <==> forall j :: i <= j < Count(f) ==> RecFault(f, j).None?
    decreases Count(f) - i
  {
    if i < Count(f) { FaultFrom(f, i + 1); }
  }

  // The i-th record passes the scan when it is in order and no record before it is of its kind.
  ghost predicate Passes(f: seq<Byte>, i: nat)
    requires Tabled(f) && i < Word(f, 12)
  {
    RecordOk(f, i) && (KindAt(f, i) != 5 ==> forall k :: 0 <= k < i ==> KindAt(f, k) != KindAt(f, i))
  }

  lemma RecordPasses(f: seq<Byte>, i: nat)
    requires TableInside(f) && i < Count(f)
    ensures RecFault(f, i).None? <==> Passes(f, i)
  {
    RecordOf(f, i);
    HasRecord(f, KindAt(f, i), i);
  }

  lemma AllPass(f: seq<Byte>)
    requires Tabled(f)
    ensures (forall i :: 0 <= i < Word(f, 12) ==> Passes(f, i)) <==> RecordsGood(f)
  {
    if forall i :: 0 <= i < Word(f, 12) ==> Passes(f, i) {
      forall i | 0 <= i < Word(f, 12) ensures RecordOk(f, i) {
        assert Passes(f, i);
      }
      forall i, j | 0 <= i < j < Word(f, 12) && KindAt(f, i) == KindAt(f, j) ensures KindAt(f, i) == 5 {
        assert Passes(f, j);
      }
    }
  }

  // The scan finds no fault exactly when the table is in order.
  lemma ScanIff(f: seq<Byte>)
    requires TableInside(f)
    ensures Scanned(f) <==> RecordsGood(f)
  {
    FaultFrom(f, 0);
    AllPass(f);
    forall i | 0 <= i < Count(f) ensures RecFault(f, i).None? <==> Passes(f, i) {
      RecordPasses(f, i);
    }
  }

  // ----- The sections ---------------------------------------------------------------------------------

  // Where the section of a kind lies; without one, nowhere.
  ghost predicate SectionIs(f: seq<Byte>, kind: u32, e: Extent)
    requires Tabled(f)
  {
    || (exists i :: 0 <= i < Word(f, 12) && KindAt(f, i) == kind && PlaceAt(f, i) == e)
    || (e == Extent(0, 0) && forall i :: 0 <= i < Word(f, 12) ==> KindAt(f, i) != kind)
  }

  lemma {:induction false} FindIs(f: seq<Byte>, kind: u32, i: nat, n: nat)
    requires TableInside(f) && RecordsGood(f) && kind != 5 && i < n <= Count(f) && KindAt(f, i) == kind
    ensures Find(f, kind, n) == PlaceAt(f, i)
  {
    RecordOf(f, n - 1);
    if i < n - 1 { FindIs(f, kind, i, n - 1); }
  }

  lemma LocatedIs(f: seq<Byte>, kind: u32, e: Extent)
    requires Scanned(f) && kind != 5
    ensures SectionIs(f, kind, e) <==> e == Located(f, kind)
  {
    ScanIff(f);
    HasRecord(f, kind, Count(f));
    if HasKind(f, kind, Count(f)) {
      forall i | 0 <= i < Word(f, 12) && KindAt(f, i) == kind ensures PlaceAt(f, i) == Located(f, kind) {
        FindIs(f, kind, i, Count(f));
      }
    } else {
      AbsentIsEmpty(f, kind, Count(f));
    }
  }

  // Where the nine sections lie that the loader reads.
  ghost predicate LaidOut(f: seq<Byte>, l: Layout)
    requires Tabled(f)
  {
    && l.bss < B && l.reserve < B && l.stack < B
    && SectionIs(f, 1, l.code) && SectionIs(f, 2, l.data) && SectionIs(f, 3, Extent(0, l.bss)) && SectionIs(f, 4, l.imports)
    && SectionIs(f, 6, Extent(0, l.reserve)) && SectionIs(f, 7, Extent(0, l.stack)) && SectionIs(f, 8, l.funcs)
    && SectionIs(f, 9, l.regions) && SectionIs(f, 10, l.rom)
  }

  lemma LayoutIs(f: seq<Byte>, l: Layout)
    requires Scanned(f)
    ensures LaidOut(f, l) <==> l == LayoutOf(f)
  {
    NothingStored(f, 3);
    NothingStored(f, 6);
    NothingStored(f, 7);
    LocatedIs(f, 1, l.code);
    LocatedIs(f, 2, l.data);
    LocatedIs(f, 4, l.imports);
    LocatedIs(f, 8, l.funcs);
    LocatedIs(f, 9, l.regions);
    LocatedIs(f, 10, l.rom);
    if l.bss < B && l.reserve < B && l.stack < B {
      LocatedIs(f, 3, Extent(0, l.bss));
      LocatedIs(f, 6, Extent(0, l.reserve));
      LocatedIs(f, 7, Extent(0, l.stack));
    }
  }

  lemma NothingStored(f: seq<Byte>, kind: u32)
    requires Scanned(f) && (kind == 3 || kind == 6 || kind == 7)
    ensures Located(f, kind).off == 0
  {
    ScanIff(f);
    LocatedIs(f, kind, Located(f, kind));
    if i :| 0 <= i < Word(f, 12) && KindAt(f, i) == kind && PlaceAt(f, i) == Located(f, kind) {
      assert RecordOk(f, i);
    }
  }

  // ----- What the sections hold -----------------------------------------------------------------------

  ghost predicate Within(f: seq<Byte>, e: Extent) {
    e.off + e.size <= |f|
  }

  // The entry of a host region: a name with its NUL in 16 bytes, a size, a direction and no flags.
  ghost predicate EntryGood(f: seq<Byte>, at: nat)
    requires at + 28 <= |f|
  {
    f[at] != 0 && (exists k :: at <= k < at + 16 && f[k] == 0) && 1 <= Word(f, at + 20) <= 3 && Word(f, at + 24) == 0
  }

  ghost predicate RegionsGood(f: seq<Byte>, e: Extent)
    requires Within(f, e)
  {
    e.size == 0 ||
    (e.size >= 4 && Word(f, e.off) <= 0xFFFF && 4 + 28 * Word(f, e.off) <= e.size && EntriesGood(f, e.off + 4, Word(f, e.off)))
  }

  // n entries, with names of their own, of regions of fewer than 2^32 bytes in all.
  ghost predicate EntriesGood(f: seq<Byte>, at: nat, n: nat)
    requires at + 28 * n <= |f|
  {
    && (forall i :: 0 <= i < n ==> EntryGood(f, at + 28 * i))
    && (forall i, j :: 0 <= j < i < n ==> RegionName(f, at, j) != RegionName(f, at, i))
    && RegionTotal(f, at, n) < 0x1_0000_0000
  }

  lemma EntryIs(f: seq<Byte>, at: nat)
    requires at + 28 <= |f|
    ensures EntryOk(RegionAt(f, at), Word(f, at + 24)) <==> EntryGood(f, at)
  {
    var name := f[at..at + 16];
    assert name[0] == f[at];
    if k :| at <= k < at + 16 && f[k] == 0 { assert name[k - at] == 0; }
    if 0 in name {
      var k :| 0 <= k < 16 && name[k] == 0;
      assert f[at + k] == 0;
    }
  }

  lemma EntriesIs(f: seq<Byte>, at: nat, n: nat)
    requires at + 28 * n <= |f|
    ensures AllRegionsOk(f, at, n) && RegionTotal(f, at, n) <= LIMIT <==> EntriesGood(f, at, n)
  {
    forall i | 0 <= i < n ensures RegionOk(f, at, i) <==> EntryGood(f, at + 28 * i) && FreshName(f, at, i, i) {
      EntryIs(f, at + 28 * i);
    }
    if AllRegionsOk(f, at, n) {
      forall i | 0 <= i < n ensures EntryGood(f, at + 28 * i) && FreshName(f, at, i, i) {
        assert RegionOk(f, at, i);
      }
    }
  }

  lemma RegionsIs(f: seq<Byte>, e: Extent)
    requires Within(f, e)
    ensures RegionsOk(f, e) <==> RegionsGood(f, e)
  {
    if e.size >= 4 && Word(f, e.off) <= 0xFFFF && 4 + 28 * Word(f, e.off) <= e.size {
      EntriesIs(f, e.off + 4, Word(f, e.off));
    }
  }

  // A name starts inside the section and ends in it.
  ghost predicate NameGood(f: seq<Byte>, e: Extent, i: nat)
    requires Within(f, e) && 4 + 4 * i + 4 <= e.size
  {
    var at := e.off + Word(f, e.off + 4 + 4 * i);
    exists k :: at <= k < e.off + e.size && f[k] == 0
  }

  ghost predicate ImportsGood(f: seq<Byte>, e: Extent)
    requires Within(f, e)
  {
    e.size == 0 ||
    (e.size >= 4 && Word(f, e.off) <= 0xFFFF && 4 + 4 * Word(f, e.off) <= e.size &&
     forall i :: 0 <= i < Word(f, e.off) ==> NameGood(f, e, i))
  }

  lemma NameIs(f: seq<Byte>, e: Extent, i: nat)
    requires Within(f, e) && 4 + 4 * i + 4 <= e.size
    ensures ImportOk(f, e, i) <==> NameGood(f, e, i)
  {
    var at, end := e.off + Word(f, e.off + 4 + 4 * i), e.off + e.size;
    if at < end {
      if k :| at <= k < end && f[k] == 0 { assert f[at..end][k - at] == 0; }
      if 0 in f[at..end] {
        var k :| 0 <= k < end - at && f[at..end][k] == 0;
        assert f[at + k] == 0;
      }
    }
  }

  lemma ImportsIs(f: seq<Byte>, e: Extent)
    requires Within(f, e)
    ensures ImportsOk(f, e) <==> ImportsGood(f, e)
  {
    if e.size >= 4 && Word(f, e.off) <= 0xFFFF && 4 + 4 * Word(f, e.off) <= e.size {
      var n := Word(f, e.off);
      forall i | 0 <= i < n ensures ImportOk(f, e, i) <==> NameGood(f, e, i) {
        NameIs(f, e, i);
      }
      assert ImportsOk(f, e) <==> AllImportsOk(f, e, n);
    }
  }

  // The entry point and the function table lead into the code, the stack holds a word, and memory can be
  // addressed.
  ghost predicate ContentsGood(f: seq<Byte>, l: Layout)
    requires |f| >= 24 && Inside(f, l)
  {
    && Word(f, 20) < l.code.size / 4 && RegionsGood(f, l.regions) && ImportsGood(f, l.imports)
    && l.data.size + l.bss + TotalIn(f, l.regions) + l.rom.size + l.reserve + l.stack < 0x1_0000_0000
    && (l.stack == 0 || l.stack >= 4)
    && forall i :: 0 <= i < l.funcs.size / 4 ==> FuncOk(f, l.funcs.off, l.code.size / 4, i)
  }

  // The bytes the regions take.
  ghost function TotalIn(f: seq<Byte>, e: Extent): nat
    requires Within(f, e) && RegionsGood(f, e)
  {
    if e.size == 0 then 0 else RegionTotal(f, e.off + 4, Word(f, e.off))
  }

  lemma ContentsIs(f: seq<Byte>, l: Layout)
    requires |f| >= 24 && Inside(f, l)
    ensures Word(f, 20) < l.code.size / 4 && LayoutFault(f, l).None? && FuncsOk(f, l) <==> ContentsGood(f, l)
  {
    RegionsIs(f, l.regions);
    ImportsIs(f, l.imports);
    if RegionsOk(f, l.regions) { assert TotalOf(f, l.regions) == TotalIn(f, l.regions); }
  }

  // ----- What is loaded ---------------------------------------------------------------------------------

  lemma HeaderIs(f: seq<Byte>)
    requires |f| >= 24
    ensures f[0..4] == MAGIC && Word(f, 4) == VERSION && Word(f, 8) == 0 && TableInside(f) <==> HeaderGood(f)
  {
    BytesOf(f, 4);
    BytesOf(f, 8);
  }

  lemma BytesOf(f: seq<Byte>, at: nat)
    requires at + 4 <= |f|
    ensures Word(f, at) == 0x0001_0000 <==> f[at..at + 4] == [0, 0, 1, 0]
    ensures Word(f, at) == 0 <==> f[at..at + 4] == [0, 0, 0, 0]
  {
    var b := f[at..at + 4];
    assert b[0] == f[at] && b[1] == f[at + 1] && b[2] == f[at + 2] && b[3] == f[at + 3];
  }

  // A file is accepted exactly when its header and its table are in order, it has code, and what the
  // sections hold is in order.
  lemma AcceptedIff(f: seq<Byte>)
    ensures Fault(f).None? <==>
            HeaderGood(f) && RecordsGood(f) && (exists i :: 0 <= i < Word(f, 12) && KindAt(f, i) == 1) &&
            exists l :: LaidOut(f, l) && Inside(f, l) && ContentsGood(f, l)
  {
    if |f| >= 24 {
      HeaderIs(f);
      if HeaderGood(f) {
        ScanIff(f);
        HasRecord(f, 1, Count(f));
        if Scanned(f) {
          ContentsIs(f, LayoutOf(f));
          LayoutIs(f, LayoutOf(f));
          forall l | LaidOut(f, l) ensures l == LayoutOf(f) { LayoutIs(f, l); }
        }
      }
    }
  }

  lemma {:induction false} WordsAre(f: seq<Byte>, at: nat, n: nat, k: nat)
    requires at + 4 * n <= |f| && k < n
    ensures WordsAt(f, at, n)[k] == Word(f, at + 4 * k)
  {
    if k < n - 1 { WordsAre(f, at, n - 1, k); }
  }

  // ws are the words a section holds.
  ghost predicate WordsOf(f: seq<Byte>, e: Extent, ws: seq<u32>)
    requires Within(f, e)
  {
    |ws| == e.size / 4 && forall k :: 0 <= k < |ws| ==> ws[k] == Word(f, e.off + 4 * k)
  }

  lemma WordsHeld(f: seq<Byte>, e: Extent, ws: seq<u32>)
    requires Within(f, e) && ws == WordsAt(f, e.off, e.size / 4)
    ensures WordsOf(f, e, ws)
  {
    forall k | 0 <= k < |ws| ensures ws[k] == Word(f, e.off + 4 * k) {
      WordsAre(f, e.off, e.size / 4, k);
    }
  }

  // Name k is the string at the offset that the k-th word after the count gives.
  ghost predicate NamesOfSection(f: seq<Byte>, e: Extent, names: seq<seq<Byte>>)
    requires Within(f, e)
  {
    && |names| == (if e.size < 4 then 0 else Word(f, e.off))
    && forall k :: 0 <= k < |names| ==> NameFrom(f, e, k, names[k])
  }

  ghost predicate NameFrom(f: seq<Byte>, e: Extent, k: nat, name: seq<Byte>)
    requires Within(f, e)
  {
    && 4 + 4 * k + 4 <= e.size
    && var at := e.off + Word(f, e.off + 4 + 4 * k);
       at + |name| < e.off + e.size && f[at..at + |name|] == name && 0 !in name && f[at + |name|] == 0
  }

  lemma NameRead(f: seq<Byte>, e: Extent, k: nat)
    requires Within(f, e) && 4 + 4 * k + 4 <= e.size && ImportOk(f, e, k)
    ensures NameFrom(f, e, k, NameAt(f, e, k))
  {
    var at, end := e.off + Word(f, e.off + 4 + 4 * k), e.off + e.size;
    var rest, name := f[at..end], NameAt(f, e, k);
    assert f[at..at + |name|] == rest[..|name|];
    assert rest[|name|] == f[at + |name|];
  }

  lemma {:induction false} NameKept(f: seq<Byte>, e: Extent, n: nat, k: nat)
    requires Within(f, e) && 4 + 4 * n <= e.size && AllImportsOk(f, e, n) && k < n
    ensures NameFrom(f, e, k, NamesAt(f, e, n)[k])
  {
    assert ImportOk(f, e, n - 1);
    if k < n - 1 { NameKept(f, e, n - 1, k); } else { NameRead(f, e, k); }
  }

  lemma NamesRead(f: seq<Byte>, e: Extent, names: seq<seq<Byte>>)
    requires Within(f, e) && ImportsOk(f, e) && names == NamesOf(f, e)
    ensures NamesOfSection(f, e, names)
  {
    forall k | 0 <= k < |names| ensures NameFrom(f, e, k, names[k]) {
      NameKept(f, e, |names|, k);
    }
  }

  // The regions are those of the entries, one after the other from `start` on, each filled up to whole words.
  ghost predicate RegionsFrom(f: seq<Byte>, e: Extent, start: nat, rs: seq<Placed>, end: nat)
    requires Within(f, e)
  {
    && |rs| == (if e.size < 4 then 0 else Word(f, e.off)) && (rs != [] ==> 4 + 28 * |rs| <= e.size)
    && (forall k :: 0 <= k < |rs| ==> PlacedFrom(f, e, rs, start, end, k))
    && (rs == [] ==> end == start)
  }

  // Region k is that of entry k; the first starts at `start`, each other where the one before ends, and the
  // last ends at `end`.
  ghost predicate PlacedFrom(f: seq<Byte>, e: Extent, rs: seq<Placed>, start: nat, end: nat, k: nat)
    requires k < |rs|
  {
    && RegionFrom(f, e.off + 4 + 28 * k, rs[k].region) && (k == 0 ==> rs[k].offset == start)
    && rs[k].offset + FilledUp(rs[k].region.size) == if k + 1 < |rs| then rs[k + 1].offset else end
  }

  ghost function FilledUp(size: nat): nat {
    if size % 4 == 0 then size else size + (4 - size % 4)
  }

  // The fields of an entry.
  ghost predicate RegionFrom(f: seq<Byte>, at: nat, r: Region) {
    at + 28 <= |f| && r.name == f[at..at + 16] && r.size == Word(f, at + 16) && r.direction == Word(f, at + 20)
  }

  lemma {:induction false} PlacedEarlier(f: seq<Byte>, at: nat, start: nat, n: nat, k: nat)
    requires at + 28 * n <= |f| && k < n
    ensures PlacedAt(f, at, start, n)[k] == PlacedAt(f, at, start, k + 1)[k]
  {
    if k < n - 1 { PlacedEarlier(f, at, start, n - 1, k); }
  }

  lemma PlacedIs(f: seq<Byte>, at: nat, start: nat, n: nat, k: nat, r: Placed)
    requires at + 28 * n <= |f| && k < n && r == PlacedAt(f, at, start, n)[k]
    ensures RegionFrom(f, at + 28 * k, r.region) && r.offset == start + RegionTotal(f, at, k)
    ensures RegionTotal(f, at, k + 1) == RegionTotal(f, at, k) + FilledUp(r.region.size)
  {
    PlacedEarlier(f, at, start, n, k);
  }

  lemma RegionNext(f: seq<Byte>, e: Extent, start: nat, rs: seq<Placed>, k: nat, end: nat)
    requires e.off + 4 + 28 * |rs| <= |f| && rs == PlacedAt(f, e.off + 4, start, |rs|) && k < |rs|
    requires end == start + RegionTotal(f, e.off + 4, |rs|)
    ensures PlacedFrom(f, e, rs, start, end, k)
  {
    var at := e.off + 4;
    PlacedIs(f, at, start, |rs|, k, rs[k]);
    if k + 1 < |rs| {
      PlacedIs(f, at, start, |rs|, k + 1, rs[k + 1]);
    } else {
      assert RegionTotal(f, at, k + 1) == RegionTotal(f, at, |rs|);
    }
  }

  lemma RegionsRead(f: seq<Byte>, e: Extent, start: nat, rs: seq<Placed>, end: nat)
    requires Within(f, e) && RegionsOk(f, e) && rs == PlacedOf(f, e, start) && end == start + TotalOf(f, e)
    ensures RegionsFrom(f, e, start, rs, end)
  {
    if RegionCount(f, e) > 0 {
      forall k | 0 <= k < |rs| ensures PlacedFrom(f, e, rs, start, end, k) {
        RegionNext(f, e, start, rs, k, end);
      }
    }
  }

  // Memory: the bytes of DATA, then zeros for BSS and the regions up to `end`, the bytes of ROM, and zeros.
  ghost predicate MemoryFrom(f: seq<Byte>, l: Layout, end: nat, mem: seq<Byte>)
    requires Inside(f, l)
  {
    && l.data.size <= end && |mem| == end + l.rom.size + l.reserve + l.stack
    && mem[..l.data.size] == f[l.data.off..l.data.off + l.data.size]
    && (forall k :: l.data.size <= k < end ==> mem[k] == 0)
    && mem[end..end + l.rom.size] == f[l.rom.off..l.rom.off + l.rom.size]
    && forall k :: end + l.rom.size <= k < |mem| ==> mem[k] == 0
  }

  lemma MemoryRead(f: seq<Byte>, l: Layout, gap: nat, mem: seq<Byte>, end: nat)
    requires Inside(f, l) && mem == MemoryOf(f, l.data, gap, l.rom, l.reserve + l.stack) && end == l.data.size + gap
    ensures MemoryFrom(f, l, end, mem)
  {
  }

  // The parts of an image.
  ghost predicate ImageFrom(f: seq<Byte>, l: Layout, image: Image, end: nat)
    requires |f| >= 24 && Inside(f, l)
  {
    && WordsOf(f, l.code, image.code) && image.entry == Word(f, 20) && WordsOf(f, l.funcs, image.funcs)
    && NamesOfSection(f, l.imports, image.imports) && RegionsFrom(f, l.regions, l.data.size + l.bss, image.regions, end)
    && MemoryFrom(f, l, end, image.mem)
    && image.dataSize == l.data.size && image.reserve == l.reserve && image.stack == l.stack && image.romSize == l.rom.size
    && image.heapSize == end + l.rom.size + l.reserve && image.romOffset == if l.rom.size == 0 then 0 else end
  }

  lemma PartsRead(f: seq<Byte>, l: Layout, code: seq<u32>, funcs: seq<u32>, names: seq<seq<Byte>>, placed: seq<Placed>, mem: seq<Byte>, total: nat, end: nat)
    requires |f| >= 24 && Inside(f, l) && WordsOf(f, l.code, code) && WordsOf(f, l.funcs, funcs) && NamesOfSection(f, l.imports, names)
    requires RegionsFrom(f, l.regions, l.data.size + l.bss, placed, end) && MemoryFrom(f, l, end, mem) && end == l.data.size + l.bss + total
    ensures ImageFrom(f, l, Assembled(l, code, Word(f, 20), funcs, names, placed, mem, total), end)
  {
  }

  lemma ImageRead(f: seq<Byte>, l: Layout, total: nat, end: nat)
    requires |f| >= 24 && Inside(f, l) && RegionsOk(f, l.regions) && ImportsOk(f, l.imports)
    requires total == TotalOf(f, l.regions) && end == l.data.size + l.bss + total
    ensures ImageFrom(f, l, ImageOf(f, l), end)
  {
    var code, funcs, names := WordsAt(f, l.code.off, l.code.size / 4), WordsAt(f, l.funcs.off, l.funcs.size / 4), NamesOf(f, l.imports);
    var placed, mem := PlacedOf(f, l.regions, l.data.size + l.bss), MemoryOf(f, l.data, l.bss + total, l.rom, l.reserve + l.stack);
    WordsHeld(f, l.code, code);
    WordsHeld(f, l.funcs, funcs);
    NamesRead(f, l.imports, names);
    RegionsRead(f, l.regions, l.data.size + l.bss, placed, end);
    MemoryRead(f, l, l.bss + total, mem, end);
    ImageParts(f, l, code, funcs, names, placed, mem, total);
    PartsRead(f, l, code, funcs, names, placed, mem, total, end);
  }

  lemma ImageParts(f: seq<Byte>, l: Layout, code: seq<u32>, funcs: seq<u32>, names: seq<seq<Byte>>, placed: seq<Placed>, mem: seq<Byte>, total: nat)
    requires |f| >= 24 && Inside(f, l) && RegionsOk(f, l.regions) && ImportsOk(f, l.imports) && total == TotalOf(f, l.regions)
    requires code == WordsAt(f, l.code.off, l.code.size / 4) && funcs == WordsAt(f, l.funcs.off, l.funcs.size / 4)
    requires names == NamesOf(f, l.imports) && placed == PlacedOf(f, l.regions, l.data.size + l.bss)
    requires mem == MemoryOf(f, l.data, l.bss + total, l.rom, l.reserve + l.stack)
    ensures ImageOf(f, l) == Assembled(l, code, Word(f, 20), funcs, names, placed, mem, total)
  {
  }

  lemma LoadedParts(f: seq<Byte>, image: Image, l: Layout)
    requires Loads(f, image) && l == LayoutOf(f)
    ensures Inside(f, l) && RegionsOk(f, l.regions) && ImportsOk(f, l.imports) && image == ImageOf(f, l)
  {
  }

  // What an accepted file is loaded to, by where its sections lie; what kinds 5, 11 and 12 hold plays no part.
  lemma LoadedIs(f: seq<Byte>, image: Image, l: Layout) returns (end: nat)
    requires Loads(f, image) && LaidOut(f, l)
    ensures Inside(f, l) && ImageFrom(f, l, image, end)
  {
    LayoutIs(f, l);
    LoadedParts(f, image, l);
    end := l.data.size + l.bss + TotalOf(f, l.regions);
    ImageRead(f, l, TotalOf(f, l.regions), end);
  }

  // ----- What is written --------------------------------------------------------------------------------

  ghost predicate NoneOf(f: seq<Byte>, kind: u32)
    requires Tabled(f)
  {
    forall i :: 0 <= i < Word(f, 12) ==> KindAt(f, i) != kind
  }

  // The i-th record is of this kind, and its section is this payload.
  ghost predicate HoldsAt(f: seq<Byte>, i: nat, kind: u32, payload: seq<Byte>)
    requires Tabled(f)
  {
    && i < Word(f, 12) && KindAt(f, i) == kind && PlaceAt(f, i).size == |payload| && Within(f, PlaceAt(f, i))
    && f[PlaceAt(f, i).off..PlaceAt(f, i).off + |payload|] == payload
  }

  // A section of this kind is this payload; an empty one is left out.
  ghost predicate Written(f: seq<Byte>, kind: u32, payload: seq<Byte>)
    requires Tabled(f)
  {
    if payload == [] then NoneOf(f, kind) else exists i: nat :: HoldsAt(f, i, kind, payload)
  }

  lemma RecordWritten(entry: u32, secs: seq<Section>, i: nat)
    requires Fits(secs) && Proper(secs) && i < |secs|
    ensures var f := Assemble(entry, secs);
            && Tabled(f) && Word(f, 12) == |secs| && KindAt(f, i) == secs[i].kind
            && PlaceAt(f, i).size == secs[i].size && PlaceAt(f, i).off == OffsetOf(secs, i)
            && if secs[i].stored then HoldsAt(f, i, secs[i].kind, secs[i].payload) else PlaceAt(f, i).off == 0
  {
    var f := Assemble(entry, secs);
    HeaderWords(entry, secs);
    TableBack(entry, secs);
    RecordOf(f, i);
    if secs[i].stored {
      PayloadBack(entry, secs, i);
      SitsSlice(f, OffsetOf(secs, i), secs[i].payload);
    }
  }

  lemma LookupWritten(entry: u32, secs: seq<Section>, kind: u32)
    requires Fits(secs) && Proper(secs)
    ensures var f := Assemble(entry, secs);
            Tabled(f) &&
            match Lookup(secs, kind)
            case None => NoneOf(f, kind)
            case Some(s) => if s.stored then exists i: nat :: HoldsAt(f, i, kind, s.payload) else SectionIs(f, kind, Extent(0, s.size))
  {
    var f, k := Assemble(entry, secs), IndexOf(secs, kind);
    LookupIndex(secs, kind);
    HeaderWords(entry, secs);
    forall i | 0 <= i < |secs| ensures KindAt(f, i) == secs[i].kind {
      RecordWritten(entry, secs, i);
    }
    if k < |secs| { RecordWritten(entry, secs, k); }
  }

  lemma OptionalWritten(j: Job, k: nat)
    requires Writable(j) && k < 8
    ensures var f, s := File(j), Optional(j)[k];
            Tabled(f) && if s.stored then Written(f, s.kind, s.payload) else SectionIs(f, s.kind, Extent(0, s.size))
  {
    FileIsAssembled(j);
    OptionalBack(j, k);
    OptionalProper(j);
    LookupWritten(j.entry, AllSections(j), Optional(j)[k].kind);
  }

  // The seal: "CRM1", version 1, and the CRC of the bytes before.
  function SealOver(b: seq<Byte>): seq<Byte> {
    [0x43, 0x52, 0x4D, 0x31, 1, 0, 0, 0] + Enc(Crc(b))
  }

  lemma SealIs(b: seq<Byte>)
    ensures SealBytes(Crc(b)) == SealOver(b)
  {
  }

  lemma HeaderWritten(j: Job)
    requires Writable(j)
    ensures HeaderGood(File(j)) && Word(File(j), 20) == j.entry && Word(File(j), 12) == |AllSections(j)|
  {
    FileIsAssembled(j);
    HeaderWords(j.entry, AllSections(j));
    HeaderIs(File(j));
    AssembledTable(j.entry, AllSections(j));
  }

  // It is the last section, and the end of the file.
  lemma SealWritten(j: Job)
    requires Writable(j)
    ensures Tabled(File(j)) && if j.seal then exists i: nat :: SealedAt(File(j), i) else NoneOf(File(j), 12)
  {
    FileIsAssembled(j);
    HeaderWritten(j);
    if j.seal {
      HoldsSeal(j);
    } else {
      PlainProper(j);
      forall i | 0 <= i < Word(File(j), 12) ensures KindAt(File(j), i) != 12 {
        RecordWritten(j.entry, Plain(j), i);
      }
    }
  }

  ghost predicate SealedAt(f: seq<Byte>, i: nat)
    requires Tabled(f)
  {
    |f| >= 12 && HoldsAt(f, i, 12, SealOver(f[..|f| - 12])) && PlaceAt(f, i).off == |f| - 12
  }

  lemma HoldsSeal(j: Job)
    requires Writable(j) && j.seal
    ensures Tabled(File(j)) && SealedAt(File(j), |Plain(j)|)
  {
    PlainFits(j);
    FileIsAssembled(j);
    HeaderWritten(j);
    SealFound(j);
    var f, secs, i := File(j), AllSections(j), |Plain(j)|;
    var prefix := Prefix(j.entry, Plain(j));
    SealIs(prefix);
    assert f[..|f| - 12] == prefix;
    RecordWritten(j.entry, secs, i);
    assert secs[i] == SealSection(SealOver(prefix));
    assert OffsetOf(secs, i) == |prefix|;
  }

  // What write_bin puts in a file.
  lemma WrittenIs(j: Job)
    requires Writable(j)
    ensures var f := File(j);
            && HeaderGood(f) && Word(f, 20) == j.entry
            && (exists i: nat :: HoldsAt(f, i, 1, EncWords(j.code)))
            && Written(f, 2, j.data) && NoneOf(f, 3) && Written(f, 4, ImportsPayload(j.imports)) && NoneOf(f, 5)
            && SectionIs(f, 6, Extent(0, j.reserve)) && SectionIs(f, 7, Extent(0, j.stack))
            && Written(f, 8, EncWords(FuncTable(j.emitFuncs, j.funcs))) && Written(f, 9, RegionsPayload(j.regions))
            && Written(f, 10, j.rom) && Written(f, 11, j.meta)
  {
    HeaderWritten(j);
    CodeWritten(j);
    NotWritten(j);
    OptionalWritten(j, 0);
    OptionalWritten(j, 1);
    OptionalWritten(j, 2);
    OptionalWritten(j, 3);
    OptionalWritten(j, 4);
    OptionalWritten(j, 5);
    OptionalWritten(j, 6);
    OptionalWritten(j, 7);
  }

  lemma CodeWritten(j: Job)
    requires Writable(j)
    ensures Tabled(File(j)) && exists i: nat :: HoldsAt(File(j), i, 1, EncWords(j.code))
  {
    FileIsAssembled(j);
    WrittenCode(j);
    LookupWritten(j.entry, AllSections(j), 1);
  }

  lemma NotWritten(j: Job)
    requires Writable(j)
    ensures Tabled(File(j)) && NoneOf(File(j), 3) && NoneOf(File(j), 5)
  {
    FileIsAssembled(j);
    NeverWritten(j, 3);
    NeverWritten(j, 5);
    LookupWritten(j.entry, AllSections(j), 3);
    LookupWritten(j.entry, AllSections(j), 5);
  }

  // ----- The seal check ---------------------------------------------------------------------------------

  // The i-th section is the first of kind 12.
  ghost predicate FirstSeal(f: seq<Byte>, i: nat)
    requires Tabled(f)
  {
    i < Word(f, 12) && KindAt(f, i) == 12 && forall k :: 0 <= k < i ==> KindAt(f, k) != 12
  }

  // It is inside the file, begins with "CRM1", and has at byte 8 the CRC of all that comes before it.
  ghost predicate SealHolds(f: seq<Byte>, e: Extent) {
    Within(f, e) && e.size >= 12 && f[e.off..e.off + 4] == [0x43, 0x52, 0x4D, 0x31] && Word(f, e.off + 8) == Crc(f[..e.off])
  }

  // A file without a seal gives 0, one whose first seal holds 1, and any other -1.
  lemma VerdictIs(f: seq<Byte>)
    ensures var table := Tabled(f) && f[0..4] == [0x43, 0x56, 0x4D, 0x31];
            && (Verdict(f) == 0 <==> table && NoneOf(f, 12))
            && (Verdict(f) == 1 <==> table && exists i: nat :: FirstSeal(f, i) && SealHolds(f, PlaceAt(f, i)))
            && -1 <= Verdict(f) <= 1
  {
    if Tabled(f) {
      var i := FirstOf(f, 12, 0);
      forall k | 0 <= k <= i && k < Word(f, 12) ensures RecAt(f, k).kind == KindAt(f, k) {
        RecordOf(f, k);
      }
      if i < Word(f, 12) {
        RecordOf(f, i);
        assert FirstSeal(f, i);
        var e := PlaceAt(f, i);
        if Within(f, e) && e.size >= 12 { SealBegins(f, e.off); }
      }
    }
  }

  lemma SealBegins(f: seq<Byte>, at: nat)
    requires at + 4 <= |f|
    ensures Word(f, at) == 0x314D_5243 <==> f[at..at + 4] == [0x43, 0x52, 0x4D, 0x31]
  {
    var b := f[at..at + 4];
    assert b[0] == f[at] && b[1] == f[at + 1] && b[2] == f[at + 2] && b[3] == f[at + 3];
  }
}
