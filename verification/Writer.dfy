// Writing an image file: the payload of each section, the file, and its seal.
module Writer {
  import opened Arith
  import opened Bytes
  import opened ImageFile
  import opened Loader
  import opened Words

  // ----- Payloads ---------------------------------------------------------------------------------

  // Import names, each with its NUL.
  function Blob(names: seq<seq<Byte>>): seq<Byte> {
    if names == [] then [] else Blob(names[..|names| - 1]) + names[|names| - 1] + [0]
  }

  // Where each name starts, when the first starts at `start`.
  function Offsets(names: seq<seq<Byte>>, start: nat): (ws: seq<u32>)
    requires start + |Blob(names)| < B
    ensures |ws| == |names|
  {
    if names == [] then [] else
      var before := names[..|names| - 1];
      Offsets(before, start) + [start + |Blob(before)|]
  }

  function ImportsSize(names: seq<seq<Byte>>): nat {
    if names == [] then 0 else 4 + 4 * |names| + |Blob(names)|
  }

  function ImportsPayload(names: seq<seq<Byte>>): (b: seq<Byte>)
    requires ImportsSize(names) < B
    ensures |b| == ImportsSize(names)
  {
    if names == [] then [] else Enc(|names|) + EncWords(Offsets(names, 4 + 4 * |names|)) + Blob(names)
  }

  // The FUNCS slots: function k's entry in slot 2 * (k + 1), zero in the others.
  function Slots(funcs: seq<u32>): (ws: seq<u32>)
    ensures |ws| == 2 * |funcs| + 1
    ensures forall s :: 0 <= s < |ws| ==> ws[s] == if s > 0 && s % 2 == 0 then funcs[s / 2 - 1] else 0
  {
    seq(2 * |funcs| + 1, s requires 0 <= s < 2 * |funcs| + 1 => if s > 0 && s % 2 == 0 then funcs[s / 2 - 1] else 0)
  }

  function FuncTable(emit: bool, funcs: seq<u32>): seq<u32> {
    if emit && funcs != [] then Slots(funcs) else []
  }

  function EntryBytes(r: Region): (b: seq<Byte>)
    requires |r.name| == 16
    ensures |b| == 28
  {
    r.name + Enc(r.size) + Enc(r.direction) + Enc(0)
  }

  ghost predicate Named(rs: seq<Region>) {
    forall i :: 0 <= i < |rs| ==> |rs[i].name| == 16
  }

  function Entries(rs: seq<Region>): (b: seq<Byte>)
    requires Named(rs)
    ensures |b| == 28 * |rs|
  {
    if rs == [] then [] else Entries(rs[..|rs| - 1]) + EntryBytes(rs[|rs| - 1])
  }

  function RegionsPayload(rs: seq<Region>): (b: seq<Byte>)
    requires Named(rs) && |rs| < B
    ensures |b| == if rs == [] then 0 else 4 + 28 * |rs|
  {
    if rs == [] then [] else Enc(|rs|) + Entries(rs)
  }

  // ----- The file ---------------------------------------------------------------------------------

  // What the translator has to write. Names are C strings; region names fill 16 bytes.
  datatype Job = Job(code: seq<u32>, entry: u32, data: seq<Byte>, reserve: u32, stack: u32, imports: seq<seq<Byte>>,
                     funcs: seq<u32>, emitFuncs: bool, regions: seq<Region>, rom: seq<Byte>, meta: seq<Byte>, seal: bool)

  // The job is well formed, and its file has no more bytes than a 32-bit offset can reach.
  ghost predicate Writable(j: Job) {
    && Named(j.regions) && (forall i :: 0 <= i < |j.imports| ==> 0 !in j.imports[i])
    && 24 + 16 * 11 + 4 * |j.code| + |j.data| + ImportsSize(j.imports) + 4 * (2 * |j.funcs| + 1) + 4 + 28 * |j.regions| +
       |j.rom| + |j.meta| + 12 < B
  }

  function Optional(j: Job): seq<Section>
    requires Writable(j)
  {
    var imports, funcs, regions := ImportsPayload(j.imports), EncWords(FuncTable(j.emitFuncs, j.funcs)), RegionsPayload(j.regions);
    [Section(DATA, true, |j.data|, j.data), Section(IMPORTS, true, |imports|, imports), Section(HEAP_RESERVE, false, j.reserve, []),
     Section(STACK_RESERVE, false, j.stack, []), Section(FUNCS, true, |funcs|, funcs), Section(HOST_REGION, true, |regions|, regions),
     Section(ROM, true, |j.rom|, j.rom), Section(META, true, |j.meta|, j.meta)]
  }

  // The sections but the seal.
  function Plain(j: Job): seq<Section>
    requires Writable(j)
  {
    [Section(CODE, true, 4 * |j.code|, EncWords(j.code))] + Present(Optional(j))
  }

  const SEAL_MAGIC: u32 := 0x314D_5243

  function SealBytes(crc: u32): (b: seq<Byte>)
    ensures |b| == 12
  {
    Enc(SEAL_MAGIC) + Enc(1) + Enc(crc)
  }

  function SealSection(payload: seq<Byte>): Section
    requires |payload| == 12
  {
    Section(SEAL, true, 12, payload)
  }

  // Everything before the seal's payload.
  function Prefix(entry: u32, secs: seq<Section>): (b: seq<Byte>)
    requires BodyOff(secs) + 16 + |Body(secs)| < B
  {
    var off := BodyOff(secs) + 16;
    Header(|secs| + 1, entry) + Table(secs, off) + RecordBytes(SEAL, off + |Body(secs)|, 12) + Body(secs)
  }

  // The seal's payload is the end of the file, and nothing before depends on it.
  lemma SealLast(entry: u32, secs: seq<Section>, payload: seq<Byte>)
    requires BodyOff(secs) + 16 + |Body(secs)| + 12 < B && |payload| == 12
    ensures Fits(secs + [SealSection(payload)])
    ensures Assemble(entry, secs + [SealSection(payload)]) == Prefix(entry, secs) + payload
  {
    var all := secs + [SealSection(payload)];
    BodyLast(secs, SealSection(payload), all);
    var off := BodyOff(secs) + 16;
    TableLast(secs, SealSection(payload), all, off);
    var h, t, r, b := Header(|all|, entry), Table(secs, off), RecordBytes(SEAL, off + |Body(secs)|, 12), Body(secs);
    var f, prefix := Assemble(entry, all), Prefix(entry, secs);
    AssembledOf(entry, all, f, h, Table(all, off), Body(all));
    PrefixOf(entry, secs, prefix, h, t, r, b);
    Regroup(f, prefix, h, Table(all, off), Body(all), t, r, b, payload);
  }

  lemma AssembledOf(entry: u32, secs: seq<Section>, f: seq<Byte>, h: seq<Byte>, t: seq<Byte>, b: seq<Byte>)
    requires Fits(secs) && f == Assemble(entry, secs) && h == Header(|secs|, entry) && t == Table(secs, BodyOff(secs)) && b == Body(secs)
    ensures f == h + t + b
  {
  }

  lemma PrefixOf(entry: u32, secs: seq<Section>, f: seq<Byte>, h: seq<Byte>, t: seq<Byte>, r: seq<Byte>, b: seq<Byte>)
    requires BodyOff(secs) + 16 + |Body(secs)| < B && f == Prefix(entry, secs) && h == Header(|secs| + 1, entry)
    requires t == Table(secs, BodyOff(secs) + 16) && r == RecordBytes(SEAL, BodyOff(secs) + 16 + |Body(secs)|, 12) && b == Body(secs)
    ensures f == h + t + r + b
  {
  }

  lemma BodyLast(secs: seq<Section>, s: Section, all: seq<Section>)
    requires all == secs + [s]
    ensures Body(all) == Body(secs) + s.payload
  {
    assert all[..|all| - 1] == secs && all[|all| - 1] == s;
  }

  lemma TableLast(secs: seq<Section>, s: Section, all: seq<Section>, off: nat)
    requires all == secs + [s] && s.stored && off + |Body(all)| < B && Body(all) == Body(secs) + s.payload
    ensures Table(all, off) == Table(secs, off) + RecordBytes(s.kind, off + |Body(secs)|, s.size)
  {
    assert all[..|all| - 1] == secs && all[|all| - 1] == s;
  }

  lemma Regroup(f: seq<Byte>, prefix: seq<Byte>, h: seq<Byte>, table: seq<Byte>, body: seq<Byte>, t: seq<Byte>, r: seq<Byte>, b: seq<Byte>, p: seq<Byte>)
    requires f == h + table + body && prefix == h + t + r + b && table == t + r && body == b + p
    ensures f == prefix + p
  {
  }

  // ----- Sizes ------------------------------------------------------------------------------------

  function Sizes(secs: seq<Section>): nat {
    if secs == [] then 0 else |secs[0].payload| + Sizes(secs[1..])
  }

  lemma {:induction false} SizesAppend(secs: seq<Section>, s: Section)
    ensures Sizes(secs + [s]) == Sizes(secs) + |s.payload|
  {
    if secs != [] {
      SizesAppend(secs[1..], s);
      assert (secs + [s])[1..] == secs[1..] + [s];
    }
  }

  lemma {:induction false} BodySizes(secs: seq<Section>)
    ensures |Body(secs)| == Sizes(secs)
  {
    if secs != [] {
      var before := secs[..|secs| - 1];
      BodySizes(before);
      SizesAppend(before, secs[|secs| - 1]);
      assert secs == before + [secs[|secs| - 1]];
    }
  }

  lemma {:induction false} PresentSizes(secs: seq<Section>)
    requires Proper(secs)
    ensures Sizes(Present(secs)) == Sizes(secs) && |Present(secs)| <= |secs|
  {
    if secs != [] {
      PresentSizes(secs[1..]);
      if secs[0].size > 0 { assert Present(secs)[1..] == Present(secs[1..]); } else { assert Present(secs) == Present(secs[1..]); }
    }
  }

  lemma OptionalProper(j: Job)
    requires Writable(j)
    ensures Proper(Optional(j)) && KindsAbove(Optional(j), CODE) && |Optional(j)| == 8
    ensures forall i :: 0 <= i < 8 ==> Optional(j)[i].kind < SEAL
  {
    var o := Optional(j);
    forall i | 0 <= i < 8 ensures SectionOfKind(o[i], KINDS[i]) {
    }
    InOrder(o);
  }

  ghost predicate SectionOfKind(s: Section, kind: u32) {
    s.kind == kind && s.stored == Stored(kind) && |s.payload| == if s.stored then s.size else 0
  }

  lemma InOrder(o: seq<Section>)
    requires |o| == 8 && forall i :: 0 <= i < 8 ==> SectionOfKind(o[i], KINDS[i])
    ensures Proper(o) && KindsAbove(o, CODE) && forall i :: 0 <= i < 8 ==> o[i].kind < SEAL
  {
    forall i, k | 0 <= i < k < 8 ensures o[i].kind < o[k].kind {
      assert KINDS[i] < KINDS[k];
    }
  }

  const KINDS: seq<u32> := [DATA, IMPORTS, HEAP_RESERVE, STACK_RESERVE, FUNCS, HOST_REGION, ROM, META]

  lemma OptionalSizes(j: Job)
    requires Writable(j)
    ensures Sizes(Optional(j)) == |j.data| + ImportsSize(j.imports) + 4 * |FuncTable(j.emitFuncs, j.funcs)| + |RegionsPayload(j.regions)| + |j.rom| + |j.meta|
  {
    var o := Optional(j);
    assert o[7..] == [o[7]] && o[6..][1..] == o[7..] && o[5..][1..] == o[6..] && o[4..][1..] == o[5..];
    assert o[3..][1..] == o[4..] && o[2..][1..] == o[3..] && o[1..][1..] == o[2..];
    assert Sizes(o[7..]) == |j.meta|;
    assert Sizes(o[6..]) == |j.rom| + |j.meta|;
    assert Sizes(o[4..]) == 4 * |FuncTable(j.emitFuncs, j.funcs)| + |RegionsPayload(j.regions)| + |j.rom| + |j.meta|;
    assert Sizes(o[2..]) == Sizes(o[4..]);
  }

  lemma PlainFits(j: Job)
    requires Writable(j)
    ensures BodyOff(Plain(j)) + 16 + |Body(Plain(j))| + 12 < B && Fits(Plain(j))
  {
    OptionalProper(j);
    OptionalSizes(j);
    PresentSizes(Optional(j));
    BodySizes(Plain(j));
    assert Plain(j)[1..] == Present(Optional(j));
  }

  // The file: the plain sections, and a seal over all that comes before it.
  function File(j: Job): seq<Byte>
    requires Writable(j)
  {
    PlainFits(j);
    if !j.seal then Assemble(j.entry, Plain(j))
    else Prefix(j.entry, Plain(j)) + SealBytes(Crc(Prefix(j.entry, Plain(j))))
  }

  // All the sections of the file.
  function AllSections(j: Job): seq<Section>
    requires Writable(j)
  {
    PlainFits(j);
    if j.seal then Plain(j) + [SealSection(SealBytes(Crc(Prefix(j.entry, Plain(j)))))] else Plain(j)
  }

  lemma PlainProper(j: Job)
    requires Writable(j)
    ensures Proper(Plain(j)) && forall i :: 0 <= i < |Plain(j)| ==> Plain(j)[i].kind < SEAL
  {
    OptionalProper(j);
    PresentProper(Optional(j), CODE);
    PresentBelow(Optional(j));
    ConsProper(Section(CODE, true, 4 * |j.code|, EncWords(j.code)), Present(Optional(j)));
  }

  lemma {:induction false} PresentBelow(secs: seq<Section>)
    requires forall i :: 0 <= i < |secs| ==> secs[i].kind < SEAL
    ensures forall i :: 0 <= i < |Present(secs)| ==> Present(secs)[i].kind < SEAL
  {
    if secs != [] { PresentBelow(secs[1..]); }
  }

  lemma FileIsAssembled(j: Job)
    requires Writable(j)
    ensures Proper(AllSections(j)) && Fits(AllSections(j)) && File(j) == Assemble(j.entry, AllSections(j))
  {
    PlainFits(j);
    PlainProper(j);
    if j.seal { SealLast(j.entry, Plain(j), SealBytes(Crc(Prefix(j.entry, Plain(j))))); }
  }
}
