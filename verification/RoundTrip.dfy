// The loader undoes the writer: a written file loads exactly when its contents are in order, and
// gives back what was written, laid out in memory without gap or overlap.
module RoundTrip {
  import opened Arith
  import opened Bytes
  import opened ImageFile
  import opened Loader
  import opened Machine
  import opened Words
  import opened Writer

  // ----- Words and functions ----------------------------------------------------------------------

  lemma WordBack(f: seq<Byte>, at: nat, p: seq<Byte>, ws: seq<u32>, i: nat)
    requires Sits(f, at, p) && p == EncWords(ws) && i < |ws|
    ensures Word(f, at + 4 * i) == ws[i]
  {
    WordOfWords(ws, i);
    SitsWord(f, at, p, 4 * i);
  }

  lemma {:induction false} WordsBack(f: seq<Byte>, at: nat, p: seq<Byte>, ws: seq<u32>, n: nat)
    requires Sits(f, at, p) && p == EncWords(ws) && n <= |ws|
    ensures WordsAt(f, at, n) == ws[..n]
  {
    if n > 0 {
      WordsBack(f, at, p, ws, n - 1);
      WordBack(f, at, p, ws, n - 1);
    }
  }

  ghost predicate FuncsValid(ws: seq<u32>, codeCount: nat) {
    forall i :: 0 <= i < |ws| ==> ws[i] < codeCount
  }

  lemma FuncsBack(f: seq<Byte>, l: Layout, p: seq<Byte>, ws: seq<u32>)
    requires Inside(f, l) && Holds(f, l.funcs, p) && p == EncWords(ws)
    ensures FuncsOk(f, l) <==> FuncsValid(ws, l.code.size / 4)
  {
    forall i | 0 <= i < |ws|
      ensures FuncOk(f, l.funcs.off, l.code.size / 4, i) <==> ws[i] < l.code.size / 4
    {
      WordBack(f, l.funcs.off, p, ws, i);
    }
  }

  // ----- Imports ----------------------------------------------------------------------------------

  lemma {:induction false} BlobPrefix(names: seq<seq<Byte>>, k: nat)
    requires k <= |names|
    ensures Blob(names[..k]) <= Blob(names)
  {
    if k == |names| {
      assert names[..k] == names;
    } else {
      BlobPrefix(names[..|names| - 1], k);
      assert names[..|names| - 1][..k] == names[..k];
    }
  }

  // Name k starts where its offset says.
  lemma {:induction false} OffsetIs(names: seq<seq<Byte>>, start: nat, k: nat)
    requires start + |Blob(names)| < B && k < |names|
    ensures |Blob(names[..k])| <= |Blob(names)| && Offsets(names, start)[k] == start + |Blob(names[..k])|
  {
    BlobPrefix(names, k);
    if k < |names| - 1 {
      OffsetIs(names[..|names| - 1], start, k);
      assert names[..|names| - 1][..k] == names[..k];
    }
  }

  // What follows in the blob from name k on.
  lemma {:induction false} NameInBlob(names: seq<seq<Byte>>, k: nat)
    requires k < |names|
    ensures Sits(Blob(names), |Blob(names[..k])|, names[k] + [0])
  {
    var before, last := names[..|names| - 1], names[|names| - 1];
    if k == |names| - 1 {
      SitsRight(Blob(before), last + [0]);
      assert Blob(names) == Blob(before) + (last + [0]);
    } else {
      NameInBlob(before, k);
      assert before[..k] == names[..k];
      SitsLeft(Blob(before), last + [0], |Blob(names[..k])|, names[k] + [0]);
      assert Blob(names) == Blob(before) + (last + [0]);
    }
  }

  // The parts of a payload that starts with a word.
  lemma PartsBack(f: seq<Byte>, at: nat, p: seq<Byte>, w: u32, a: seq<Byte>, b: seq<Byte>)
    requires Sits(f, at, p) && p == Enc(w) + a + b
    ensures Word(f, at) == w && Sits(f, at + 4, a) && Sits(f, at + (4 + |a|), b)
  {
    var n := Enc(w);
    ThreeSit(f, at, p, n, a, b);
    SitsEnc(f, at, w);
  }

  lemma ThreeSit(f: seq<Byte>, at: nat, p: seq<Byte>, n: seq<Byte>, a: seq<Byte>, b: seq<Byte>)
    requires Sits(f, at, p) && p == n + a + b
    ensures Sits(f, at, n) && Sits(f, at + |n|, a) && Sits(f, at + (|n| + |a|), b)
  {
    PartsSit(p, n, a, b);
    SitsIn(f, at, p, 0, n);
    SitsIn(f, at, p, |n|, a);
    SitsIn(f, at, p, |n| + |a|, b);
  }

  lemma ImportCountBack(f: seq<Byte>, e: Extent, p: seq<Byte>, names: seq<seq<Byte>>)
    requires ImportsSize(names) < B && Holds(f, e, p) && p == ImportsPayload(names)
    ensures ImportCount(f, e) == |names|
  {
    if names != [] { PartsBack(f, e.off, p, |names|, EncWords(Offsets(names, 4 + 4 * |names|)), Blob(names)); }
  }

  // A string that lies in a slice of f.
  lemma StringBack(f: seq<Byte>, at: nat, end: nat, nul: seq<Byte>, name: seq<Byte>)
    requires Sits(f, at, nul) && nul == name + [0] && 0 !in name && at + |name| < end <= |f|
    ensures 0 in f[at..end] && CString(f[at..end]) == name
  {
    var tail := f[at..end];
    var rest := tail[|name| + 1..];
    assert tail[|name|] == nul[|name|] == 0;
    forall k | 0 <= k < |name| ensures tail[k] == name[k] {
      assert nul[k] == name[k];
    }
    assert tail == name + [0] + rest;
    CStringOf(name, rest);
  }

  lemma NameBack(f: seq<Byte>, e: Extent, p: seq<Byte>, names: seq<seq<Byte>>, k: nat)
    requires ImportsSize(names) < B && Holds(f, e, p) && p == ImportsPayload(names) && k < |names| && 0 !in names[k]
    ensures ImportOk(f, e, k) && NameAt(f, e, k) == names[k]
  {
    var at, blob, o := 4 + 4 * |names|, Blob(names), |Blob(names[..k])|;
    var ws := Offsets(names, at);
    var words := EncWords(ws);
    PartsBack(f, e.off, p, |names|, words, blob);
    OffsetIs(names, at, k);
    WordBack(f, e.off + 4, words, ws, k);
    NameInBlob(names, k);
    NameFound(f, e, at, blob, o, names[k], k);
  }

  lemma NameFound(f: seq<Byte>, e: Extent, at: nat, blob: seq<Byte>, o: nat, name: seq<Byte>, k: nat)
    requires e.size == at + |blob| && e.off + e.size <= |f| && 4 + 4 * k + 4 <= at && Sits(f, e.off + at, blob)
    requires Sits(blob, o, name + [0]) && 0 !in name && Word(f, e.off + 4 + 4 * k) == at + o
    ensures ImportOk(f, e, k) && NameAt(f, e, k) == name
  {
    var nul, no := name + [0], at + o;
    SitsIn(f, e.off + at, blob, o, nul);
    assert Sits(f, e.off + no, nul);
    StringBack(f, e.off + no, e.off + e.size, nul, name);
    NamedAt(f, e, k, no, name);
  }

  lemma NamedAt(f: seq<Byte>, e: Extent, k: nat, o: nat, name: seq<Byte>)
    requires o < e.size && e.off + e.size <= |f| && 4 + 4 * k + 4 <= e.size && Word(f, e.off + 4 + 4 * k) == o
    requires 0 in f[e.off + o..e.off + e.size] && CString(f[e.off + o..e.off + e.size]) == name
    ensures ImportOk(f, e, k) && NameAt(f, e, k) == name
  {
  }

  lemma NamesGood(f: seq<Byte>, e: Extent, p: seq<Byte>, names: seq<seq<Byte>>, n: nat)
    requires ImportsSize(names) < B && Holds(f, e, p) && p == ImportsPayload(names) && n <= |names|
    requires forall i :: 0 <= i < |names| ==> 0 !in names[i]
    ensures AllImportsOk(f, e, n)
  {
    forall i | 0 <= i < n ensures ImportOk(f, e, i) { NameBack(f, e, p, names, i); }
  }

  lemma TakeOneMore(names: seq<seq<Byte>>, n: nat)
    requires 0 < n <= |names|
    ensures names[..n] == names[..n - 1] + [names[n - 1]]
  {
  }

  lemma {:induction false} NamesBack(f: seq<Byte>, e: Extent, p: seq<Byte>, names: seq<seq<Byte>>, n: nat)
    requires ImportsSize(names) < B && Holds(f, e, p) && p == ImportsPayload(names) && n <= |names| && AllImportsOk(f, e, n)
    requires forall i :: 0 <= i < |names| ==> 0 !in names[i]
    ensures NamesAt(f, e, n) == names[..n]
  {
    if n > 0 {
      NamesBack(f, e, p, names, n - 1);
      NameBack(f, e, p, names, n - 1);
      TakeOneMore(names, n);
    }
  }

  lemma ImportsBack(f: seq<Byte>, e: Extent, p: seq<Byte>, names: seq<seq<Byte>>)
    requires ImportsSize(names) < B && Holds(f, e, p) && p == ImportsPayload(names)
    requires forall i :: 0 <= i < |names| ==> 0 !in names[i]
    ensures ImportsOk(f, e) <==> |names| <= 0xFFFF
    ensures ImportsOk(f, e) ==> NamesOf(f, e) == names
  {
    ImportCountBack(f, e, p, names);
    NamesGood(f, e, p, names, |names|);
    NamesBack(f, e, p, names, |names|);
    assert names[..|names|] == names;
  }

  // ----- Regions ----------------------------------------------------------------------------------

  function Sum(rs: seq<Region>): nat {
    if rs == [] then 0 else Sum(rs[..|rs| - 1]) + Aligned(rs[|rs| - 1].size)
  }

  // Regions with names of their own, one after the other.
  ghost predicate RegionsValid(rs: seq<Region>) {
    && |rs| <= 0xFFFF && Sum(rs) <= LIMIT && (forall i :: 0 <= i < |rs| ==> EntryOk(rs[i], 0))
    && (forall i, k :: 0 <= k < i < |rs| ==> CString(rs[k].name) != CString(rs[i].name))
  }

  function PlacedFor(rs: seq<Region>, start: nat): seq<Placed> {
    if rs == [] then [] else
      var before := rs[..|rs| - 1];
      PlacedFor(before, start) + [Placed(rs[|rs| - 1], start + Sum(before))]
  }

  lemma {:induction false} EntryIn(rs: seq<Region>, k: nat)
    requires Named(rs) && k < |rs|
    ensures Sits(Entries(rs), 28 * k, EntryBytes(rs[k]))
  {
    var before, last := rs[..|rs| - 1], EntryBytes(rs[|rs| - 1]);
    if k == |rs| - 1 {
      SitsRight(Entries(before), last);
    } else {
      EntryIn(before, k);
      SitsLeft(Entries(before), last, 28 * k, EntryBytes(rs[k]));
    }
  }

  lemma EntryBack(r: Region, p: seq<Byte>, b: seq<Byte>, at: nat)
    requires |r.name| == 16 && Sits(b, at, p) && p == EntryBytes(r)
    ensures RegionAt(b, at) == r && Word(b, at + 24) == 0
  {
    assert Sits(p, 0, r.name);
    SitsIn(b, at, p, 0, r.name);
    SitsSlice(b, at, r.name);
    SitsEnc(p, 16, r.size);
    SitsWord(b, at, p, 16);
    SitsEnc(p, 20, r.direction);
    SitsWord(b, at, p, 20);
    SitsEnc(p, 24, 0);
    SitsWord(b, at, p, 24);
  }

  // The entries at `at` are the regions.
  ghost predicate EntriesAt(f: seq<Byte>, at: nat, rs: seq<Region>) {
    && at + 28 * |rs| <= |f|
    && forall k :: 0 <= k < |rs| ==> RegionAt(f, at + 28 * k) == rs[k] && Word(f, at + 28 * k + 24) == 0
  }

  lemma RegionIsBack(f: seq<Byte>, at: nat, p: seq<Byte>, rs: seq<Region>, k: nat)
    requires Named(rs) && k < |rs| && Sits(f, at, p) && p == Entries(rs)
    ensures RegionAt(f, at + 28 * k) == rs[k] && Word(f, at + 28 * k + 24) == 0
  {
    EntryIn(rs, k);
    var b := EntryBytes(rs[k]);
    SitsIn(f, at, p, 28 * k, b);
    EntryBack(rs[k], b, f, at + 28 * k);
  }

  lemma RegionsAreBack(f: seq<Byte>, e: Extent, p: seq<Byte>, rs: seq<Region>)
    requires Named(rs) && 0 < |rs| < B && Holds(f, e, p) && p == RegionsPayload(rs)
    ensures RegionCount(f, e) == |rs| && EntriesAt(f, e.off + 4, rs)
  {
    var b := Entries(rs);
    assert p == Enc(|rs|) + b + [];
    PartsBack(f, e.off, p, |rs|, b, []);
    forall k | 0 <= k < |rs|
      ensures RegionAt(f, e.off + 4 + 28 * k) == rs[k] && Word(f, e.off + 4 + 28 * k + 24) == 0
    {
      RegionIsBack(f, e.off + 4, b, rs, k);
    }
  }

  lemma {:induction false} TotalBack(f: seq<Byte>, at: nat, rs: seq<Region>, n: nat)
    requires EntriesAt(f, at, rs) && n <= |rs|
    ensures RegionTotal(f, at, n) == Sum(rs[..n])
  {
    if n > 0 {
      TotalBack(f, at, rs, n - 1);
      assert rs[..n][..n - 1] == rs[..n - 1];
    }
  }

  lemma {:induction false} PlacedBack(f: seq<Byte>, at: nat, rs: seq<Region>, start: nat, n: nat)
    requires EntriesAt(f, at, rs) && n <= |rs|
    ensures PlacedAt(f, at, start, n) == PlacedFor(rs[..n], start)
  {
    if n > 0 {
      PlacedBack(f, at, rs, start, n - 1);
      OneMoreBack(f, at, rs, start, n - 1, n);
    }
  }

  lemma OneMoreBack(f: seq<Byte>, at: nat, rs: seq<Region>, start: nat, k: nat, n: nat)
    requires EntriesAt(f, at, rs) && k < n == k + 1 <= |rs| && PlacedAt(f, at, start, k) == PlacedFor(rs[..k], start)
    ensures PlacedAt(f, at, start, n) == PlacedFor(rs[..n], start)
  {
    TotalBack(f, at, rs, k);
    PlacedNext(rs, start, k);
    PlacedOnce(f, at, start, k, rs[k]);
  }

  lemma PlacedOnce(f: seq<Byte>, at: nat, start: nat, n: nat, r: Region)
    requires at + 28 * n + 28 <= |f| && RegionAt(f, at + 28 * n) == r
    ensures PlacedAt(f, at, start, n + 1) == PlacedAt(f, at, start, n) + [Placed(r, start + RegionTotal(f, at, n))]
  {
  }

  lemma PlacedNext(rs: seq<Region>, start: nat, k: nat)
    requires k < |rs|
    ensures PlacedFor(rs[..k + 1], start) == PlacedFor(rs[..k], start) + [Placed(rs[k], start + Sum(rs[..k]))]
  {
    var up := rs[..k + 1];
    assert up[..k] == rs[..k] && up[k] == rs[k];
  }

  lemma RegionOkBack(f: seq<Byte>, at: nat, rs: seq<Region>, i: nat)
    requires EntriesAt(f, at, rs) && i < |rs|
    ensures RegionOk(f, at, i) <==> EntryOk(rs[i], 0) && forall k :: 0 <= k < i ==> CString(rs[k].name) != CString(rs[i].name)
  {
    assert RegionAt(f, at + 28 * i) == rs[i];
    forall k | 0 <= k < i
      ensures RegionName(f, at, k) == CString(rs[k].name)
    {
      assert RegionAt(f, at + 28 * k) == rs[k];
    }
  }

  lemma AllRegionsBack(f: seq<Byte>, at: nat, rs: seq<Region>)
    requires EntriesAt(f, at, rs)
    ensures AllRegionsOk(f, at, |rs|) && RegionTotal(f, at, |rs|) <= LIMIT && |rs| <= 0xFFFF <==> RegionsValid(rs)
  {
    forall i | 0 <= i < |rs|
      ensures RegionOk(f, at, i) <==> EntryOk(rs[i], 0) && forall k :: 0 <= k < i ==> CString(rs[k].name) != CString(rs[i].name)
    {
      RegionOkBack(f, at, rs, i);
    }
    TotalBack(f, at, rs, |rs|);
    assert rs[..|rs|] == rs;
  }

  lemma RegionsBack(f: seq<Byte>, e: Extent, p: seq<Byte>, rs: seq<Region>, start: nat)
    requires Named(rs) && |rs| < B && Holds(f, e, p) && p == RegionsPayload(rs)
    ensures RegionsOk(f, e) <==> RegionsValid(rs)
    ensures RegionsOk(f, e) ==> TotalOf(f, e) == Sum(rs) && PlacedOf(f, e, start) == PlacedFor(rs, start)
  {
    if rs != [] {
      RegionsAreBack(f, e, p, rs);
      AllRegionsBack(f, e.off + 4, rs);
      TotalBack(f, e.off + 4, rs, |rs|);
      PlacedBack(f, e.off + 4, rs, start, |rs|);
      assert rs[..|rs|] == rs;
    }
  }

  // ----- The whole file ---------------------------------------------------------------------------

  // The loader notes every part of the job where it was written.
  ghost predicate Laid(f: seq<Byte>, j: Job, l: Layout)
    requires Writable(j)
  {
    && l.bss == 0 && l.reserve == j.reserve && l.stack == j.stack
    && Holds(f, l.code, EncWords(j.code)) && Holds(f, l.data, j.data) && Holds(f, l.imports, ImportsPayload(j.imports))
    && Holds(f, l.funcs, EncWords(FuncTable(j.emitFuncs, j.funcs))) && Holds(f, l.regions, RegionsPayload(j.regions))
    && Holds(f, l.rom, j.rom)
  }

  // Some optional section, found again through the others.
  lemma OptionalBack(j: Job, k: nat)
    requires Writable(j) && k < 8
    ensures var s := Optional(j)[k];
            Lookup(AllSections(j), s.kind) == if s.size > 0 then Some(s) else None
  {
    OptionalProper(j);
    LookupAt(Optional(j), k);
    LookupPresent(Optional(j), Optional(j)[k].kind);
    var plain := Plain(j);
    assert plain[1..] == Present(Optional(j)) && plain[0].kind == CODE;
    if j.seal { LookupAppend(plain, AllSections(j)[|plain|], Optional(j)[k].kind); }
  }

  lemma {:induction false} LookupAppend(secs: seq<Section>, s: Section, kind: u32)
    requires s.kind != kind
    ensures Lookup(secs + [s], kind) == Lookup(secs, kind)
  {
    if secs != [] {
      LookupAppend(secs[1..], s, kind);
      assert (secs + [s])[1..] == secs[1..] + [s];
    }
  }

  // No section of a kind that the writer never writes.
  lemma NeverWritten(j: Job, kind: u32)
    requires Writable(j) && (kind == BSS || kind == DEBUG)
    ensures Lookup(AllSections(j), kind) == None
  {
    OptionalProper(j);
    LookupIndex(Optional(j), kind);
    LookupPresent(Optional(j), kind);
    var plain := Plain(j);
    assert plain[1..] == Present(Optional(j)) && plain[0].kind == CODE;
    if j.seal { LookupAppend(plain, AllSections(j)[|plain|], kind); }
  }

  // The scan passes exactly when there is code.
  lemma ScanBack(j: Job)
    requires Writable(j)
    ensures var f := File(j);
            |f| >= 24 && f[0..4] == MAGIC && Word(f, 4) == VERSION && Word(f, 8) == 0 && TableInside(f) && Word(f, 20) == j.entry &&
            (Scanned(f) <==> j.code != []) && HasKind(f, CODE, Count(f))
  {
    var secs, f := AllSections(j), File(j);
    FileIsAssembled(j);
    HeaderWords(j.entry, secs);
    TableBack(j.entry, secs);
    WrittenWords(j);
    TableGood(f, secs, 0);
    HasBack(f, secs, CODE, |secs|);
  }

  // CODE comes first, and a FUNCS section holds the whole words of a table that is not empty.
  lemma WrittenWords(j: Job)
    requires Writable(j)
    ensures AllSections(j)[0] == Section(CODE, true, 4 * |j.code|, EncWords(j.code)) && IndexOf(AllSections(j), CODE) == 0
    ensures WholeWords(AllSections(j)) && (CodeFrom(AllSections(j), 0) <==> j.code != [])
  {
    var secs := AllSections(j);
    FileIsAssembled(j);
    WrittenCode(j);
    WholeWord(|j.code|);
    var found := WrittenFuncs(j);
    FuncsWhole(secs, found);
  }

  lemma WholeWord(n: nat)
    ensures (4 * n) % 4 == 0 && (4 * n > 0 <==> n > 0)
  {
  }

  lemma WrittenCode(j: Job)
    requires Writable(j)
    ensures AllSections(j)[0] == Section(CODE, true, 4 * |j.code|, EncWords(j.code)) && IndexOf(AllSections(j), CODE) == 0
  {
    assert AllSections(j)[0] == Plain(j)[0];
  }

  lemma WrittenFuncs(j: Job) returns (found: Option<Section>)
    requires Writable(j)
    ensures Lookup(AllSections(j), FUNCS) == found && (found.Some? ==> found.value.size > 0 && found.value.size % 4 == 0)
  {
    var funcs := Optional(j)[4];
    assert funcs.size == 4 * |FuncTable(j.emitFuncs, j.funcs)|;
    WholeWord(|FuncTable(j.emitFuncs, j.funcs)|);
    OptionalBack(j, 4);
    found := if funcs.size > 0 then Some(funcs) else None;
  }

  lemma FuncsWhole(secs: seq<Section>, funcs: Option<Section>)
    requires Proper(secs) && Lookup(secs, FUNCS) == funcs && secs != [] && secs[0].kind == CODE && secs[0].size % 4 == 0
    requires funcs.Some? ==> funcs.value.size > 0 && funcs.value.size % 4 == 0
    ensures WholeWords(secs) && (CodeFrom(secs, 0) <==> secs[0].size > 0)
  {
    forall i | 0 <= i < |secs| && secs[i].kind == FUNCS
      ensures secs[i].size > 0 && secs[i].size % 4 == 0
    {
      LookupAt(secs, i);
    }
  }

  lemma LaidBack(j: Job)
    requires Writable(j) && Scanned(File(j))
    ensures Laid(File(j), j, LayoutOf(File(j)))
  {
    var secs := AllSections(j);
    FileIsAssembled(j);
    WrittenWords(j);
    LookupAt(secs, 0);
    NeverWritten(j, BSS);
    SectionBack(j.entry, secs, CODE);
    SectionBack(j.entry, secs, BSS);
    LaidOptional(j, 0);
    LaidOptional(j, 1);
    LaidOptional(j, 2);
    LaidOptional(j, 3);
    LaidOptional(j, 4);
    LaidOptional(j, 5);
    LaidOptional(j, 6);
  }

  lemma LaidOptional(j: Job, k: nat)
    requires Writable(j) && Scanned(File(j)) && k < 8
    ensures var f, s := File(j), Optional(j)[k];
            Located(f, s.kind).size == s.size && (s.stored ==> Holds(f, Located(f, s.kind), s.payload))
  {
    FileIsAssembled(j);
    OptionalBack(j, k);
    OptionalProper(j);
    HeldBack(j.entry, AllSections(j), Optional(j)[k]);
  }

  lemma HeldBack(entry: u32, secs: seq<Section>, s: Section)
    requires Fits(secs) && Proper(secs) && Scanned(Assemble(entry, secs))
    requires |s.payload| == (if s.stored then s.size else 0) && Lookup(secs, s.kind) == if s.size > 0 then Some(s) else None
    ensures var f := Assemble(entry, secs);
            Located(f, s.kind).size == s.size && (s.stored ==> Holds(f, Located(f, s.kind), s.payload))
  {
    SectionBack(entry, secs, s.kind);
  }

  // ----- Round trip -------------------------------------------------------------------------------

  function HeapFor(j: Job): nat {
    |j.data| + Sum(j.regions) + |j.rom| + j.reserve
  }

  // What the loader asks of what was written.
  ghost predicate Valid(j: Job) {
    && j.entry < |j.code| && RegionsValid(j.regions) && |j.imports| <= 0xFFFF && (j.stack == 0 || j.stack >= 4)
    && HeapFor(j) + j.stack <= LIMIT
    && (j.emitFuncs ==> forall k :: 0 <= k < |j.funcs| ==> j.funcs[k] < |j.code|)
  }

  // What was written, laid out in memory.
  function ImageFor(j: Job): Image {
    var total := Sum(j.regions);
    Image(j.code, j.entry, FuncTable(j.emitFuncs, j.funcs), j.imports, PlacedFor(j.regions, |j.data|),
          j.data + Zeros(total) + j.rom + Zeros(j.reserve + j.stack),
          |j.data|, HeapFor(j), j.reserve, j.stack, if j.rom == [] then 0 else |j.data| + total, |j.rom|)
  }

  lemma LayoutBack(f: seq<Byte>, j: Job, l: Layout)
    requires Writable(j) && Inside(f, l) && Laid(f, j, l)
    ensures LayoutFault(f, l).None? <==>
            RegionsValid(j.regions) && |j.imports| <= 0xFFFF && (j.stack == 0 || j.stack >= 4) && HeapFor(j) + j.stack <= LIMIT
  {
    RegionsBack(f, l.regions, RegionsPayload(j.regions), j.regions, |j.data|);
    ImportsBack(f, l.imports, ImportsPayload(j.imports), j.imports);
  }

  lemma SlotsValid(j: Job)
    requires j.code != []
    ensures FuncsValid(FuncTable(j.emitFuncs, j.funcs), |j.code|) <==>
            (j.emitFuncs ==> forall k :: 0 <= k < |j.funcs| ==> j.funcs[k] < |j.code|)
  {
    var ws := FuncTable(j.emitFuncs, j.funcs);
    if FuncsValid(ws, |j.code|) && j.emitFuncs {
      forall k | 0 <= k < |j.funcs| ensures j.funcs[k] < |j.code| {
        assert ws[2 * (k + 1)] == j.funcs[k];
      }
    }
  }

  lemma ImageBack(f: seq<Byte>, j: Job, l: Layout)
    requires Writable(j) && Inside(f, l) && Laid(f, j, l) && |f| >= 24 && Word(f, 20) == j.entry
    requires RegionsOk(f, l.regions) && ImportsOk(f, l.imports)
    ensures ImageOf(f, l) == ImageFor(j)
  {
    CodeBack(f, l.code, EncWords(j.code), j.code);
    CodeBack(f, l.funcs, EncWords(FuncTable(j.emitFuncs, j.funcs)), FuncTable(j.emitFuncs, j.funcs));
    RegionsBack(f, l.regions, RegionsPayload(j.regions), j.regions, |j.data|);
    ImportsBack(f, l.imports, ImportsPayload(j.imports), j.imports);
    MemoryBack(f, l.data, Sum(j.regions), l.rom, j.reserve + j.stack, j.data, j.rom);
  }

  lemma MemoryBack(f: seq<Byte>, d: Extent, gap: nat, r: Extent, rest: nat, data: seq<Byte>, rom: seq<Byte>)
    requires Holds(f, d, data) && Holds(f, r, rom)
    ensures MemoryOf(f, d, gap, r, rest) == data + Zeros(gap) + rom + Zeros(rest)
  {
    SitsSlice(f, d.off, data);
    SitsSlice(f, r.off, rom);
  }

  lemma CodeBack(f: seq<Byte>, e: Extent, p: seq<Byte>, ws: seq<u32>)
    requires Holds(f, e, p) && p == EncWords(ws)
    ensures WordsAt(f, e.off, e.size / 4) == ws
  {
    WordsBack(f, e.off, p, ws, |ws|);
    assert ws[..|ws|] == ws;
  }

  lemma LaidLoads(f: seq<Byte>, j: Job, l: Layout)
    requires Writable(j) && Inside(f, l) && Laid(f, j, l) && |f| >= 24 && Word(f, 20) == j.entry && j.code != []
    ensures j.entry < l.code.size / 4 && LayoutFault(f, l).None? && FuncsOk(f, l) <==> Valid(j)
    ensures Valid(j) ==> ImageOf(f, l) == ImageFor(j)
  {
    LayoutBack(f, j, l);
    FuncsBack(f, l, EncWords(FuncTable(j.emitFuncs, j.funcs)), FuncTable(j.emitFuncs, j.funcs));
    SlotsValid(j);
    if Valid(j) { ImageBack(f, j, l); }
  }

  // A written file loads exactly when what was written is valid, and then to just that.
  lemma LoadsWhatWasWritten(j: Job)
    requires Writable(j)
    ensures Fault(File(j)).None? <==> Valid(j)
    ensures Valid(j) ==> Loads(File(j), ImageFor(j))
  {
    ScanBack(j);
    if j.code != [] {
      LaidBack(j);
      LaidLoads(File(j), j, LayoutOf(File(j)));
    }
  }
}
