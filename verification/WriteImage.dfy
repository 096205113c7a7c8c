// The image writer, section by section, and the seal over the file.
module WriteImage {
  import opened Arith
  import opened Bytes
  import opened ImageFile
  import opened Loader
  import opened Words
  import opened Writer

  // ----- Building the payloads --------------------------------------------------------------------

  method WriteImports(names: seq<seq<Byte>>) returns (p: seq<Byte>)
    requires ImportsSize(names) < B
    ensures p == ImportsPayload(names)
  {
    if |names| == 0 {
      return [];
    }
    var offsets, blob := CollectNames(names, 4 + 4 * |names|);
    var words := WriteWords(offsets);
    p := Enc(|names|) + words + blob;
    PayloadFrom(names, offsets, words, blob);
  }

  lemma PayloadFrom(names: seq<seq<Byte>>, offsets: seq<u32>, words: seq<Byte>, blob: seq<Byte>)
    requires names != [] && ImportsSize(names) < B
    requires offsets == Offsets(names, 4 + 4 * |names|) && words == EncWords(offsets) && blob == Blob(names)
    ensures ImportsPayload(names) == Enc(|names|) + words + blob
  {
  }

  // The names one after the other, and where each starts.
  method CollectNames(names: seq<seq<Byte>>, start: nat) returns (offsets: seq<u32>, blob: seq<Byte>)
    requires start + |Blob(names)| < B
    ensures offsets == Offsets(names, start) && blob == Blob(names)
  {
    offsets, blob := [], [];
    var cursor: nat := start;
    var k := 0;
    while k < |names|
      invariant k <= |names| && |Blob(names[..k])| <= |Blob(names)|
      invariant blob == Blob(names[..k]) && cursor == start + |blob|
      invariant offsets == Offsets(names[..k], start)
    {
      BlobGrows(names, k);
      OffsetsNext(names, start, k);
      offsets := offsets + [cursor];
      blob := blob + names[k] + [0];
      cursor := cursor + |names[k]| + 1;
      k := k + 1;
    }
    assert names[..k] == names;
  }

  lemma OffsetsNext(names: seq<seq<Byte>>, start: nat, k: nat)
    requires k < |names| && start + |Blob(names[..k + 1])| < B && |Blob(names[..k])| <= |Blob(names[..k + 1])|
    ensures Blob(names[..k + 1]) == Blob(names[..k]) + names[k] + [0]
    ensures Offsets(names[..k + 1], start) == Offsets(names[..k], start) + [start + |Blob(names[..k])|]
  {
    var up := names[..k + 1];
    assert up[..k] == names[..k] && up[k] == names[k];
  }

  lemma {:induction false} BlobGrows(names: seq<seq<Byte>>, k: nat)
    requires k < |names|
    ensures |Blob(names[..k + 1])| == |Blob(names[..k])| + |names[k]| + 1 <= |Blob(names)|
    decreases |names| - k
  {
    var up := names[..k + 1];
    assert up[..k] == names[..k] && up[k] == names[k];
    if k == |names| - 1 {
      assert up == names;
    } else {
      BlobGrows(names, k + 1);
    }
  }

  // Slots by slot: entries in the even ones from 2 on, the rest left zero.
  method WriteFuncs(emit: bool, funcs: seq<u32>) returns (p: seq<Byte>)
    ensures p == EncWords(FuncTable(emit, funcs))
  {
    if !emit || funcs == [] { return []; }
    var table := new u32[2 * |funcs| + 1](_ => 0);
    var k := 0;
    while k < |funcs|
      invariant k <= |funcs|
      invariant forall s :: 0 <= s < table.Length ==> table[s] == if s > 0 && s % 2 == 0 && s / 2 - 1 < k then funcs[s / 2 - 1] else 0
    {
      table[2 * (k + 1)] := funcs[k];
      k := k + 1;
    }
    assert table[..] == Slots(funcs);
    p := WriteWords(table[..]);
  }

  method WriteWords(ws: seq<u32>) returns (p: seq<Byte>)
    ensures p == EncWords(ws)
  {
    p := [];
    var i := 0;
    assert ws[..0] == [];
    while i < |ws|
      invariant i <= |ws| && p == EncWords(ws[..i])
    {
      EncWordsAppend(ws[..i], ws[i]);
      assert ws[..i + 1] == ws[..i] + [ws[i]];
      p := p + Enc(ws[i]);
      i := i + 1;
    }
    assert ws[..i] == ws;
  }

  method WriteRegions(rs: seq<Region>) returns (p: seq<Byte>)
    requires Named(rs) && |rs| < B
    ensures p == RegionsPayload(rs)
  {
    if rs == [] { return []; }
    var entries: seq<Byte> := [];
    var k := 0;
    while k < |rs|
      invariant k <= |rs| && entries == Entries(rs[..k])
    {
      var up := rs[..k + 1];
      assert up[..k] == rs[..k] && up[k] == rs[k];
      entries := entries + (rs[k].name + Enc(rs[k].size) + Enc(rs[k].direction) + Enc(0));
      k := k + 1;
    }
    assert rs[..k] == rs;
    p := Enc(|rs|) + entries;
  }

  // ----- Writing the file -------------------------------------------------------------------------

  lemma {:induction false} PresentAppend(secs: seq<Section>, s: Section)
    ensures Present(secs + [s]) == Present(secs) + if s.size > 0 then [s] else []
  {
    if secs == [] {
      assert secs + [s] == [s];
    } else {
      PresentAppend(secs[1..], s);
      assert (secs + [s])[1..] == secs[1..] + [s] && (secs + [s])[0] == secs[0];
    }
  }

  // CODE, and the optional sections that are not empty.
  method KeepPresent(code: Section, secs: seq<Section>) returns (plain: seq<Section>)
    ensures plain == [code] + Present(secs)
  {
    plain := [code];
    var i := 0;
    assert secs[..0] == [];
    while i < |secs|
      invariant i <= |secs| && plain == [code] + Present(secs[..i])
    {
      PresentAppend(secs[..i], secs[i]);
      assert secs[..i + 1] == secs[..i] + [secs[i]];
      if secs[i].size > 0 { plain := plain + [secs[i]]; }
      i := i + 1;
    }
    assert secs[..i] == secs;
  }

  lemma {:induction false} BodyGrows(secs: seq<Section>, i: nat)
    requires i < |secs|
    ensures Body(secs[..i + 1]) == Body(secs[..i]) + secs[i].payload && |Body(secs[..i + 1])| <= |Body(secs)|
    decreases |secs| - i
  {
    var up := secs[..i + 1];
    assert up[..i] == secs[..i] && up[i] == secs[i];
    if i == |secs| - 1 {
      assert up == secs;
    } else {
      BodyGrows(secs, i + 1);
    }
  }

  lemma TableGrows(secs: seq<Section>, i: nat, off: nat, at: u32)
    requires i < |secs| && off + |Body(secs[..i + 1])| < B && |Body(secs[..i])| <= |Body(secs[..i + 1])|
    requires at == if secs[i].stored then off + |Body(secs[..i])| else 0
    ensures Table(secs[..i + 1], off) == Table(secs[..i], off) + RecordBytes(secs[i].kind, at, secs[i].size)
  {
    var up := secs[..i + 1];
    assert up[..i] == secs[..i] && up[i] == secs[i];
  }

  // The records of the sections, and where their payloads end.
  method WriteTable(secs: seq<Section>, off: nat) returns (t: seq<Byte>, end: nat)
    requires Proper(secs) && off + |Body(secs)| < B
    ensures t == Table(secs, off) && end == off + |Body(secs)|
  {
    t, end := [], off;
    var i := 0;
    while i < |secs|
      invariant i <= |secs| && end == off + |Body(secs[..i])| < B && t == Table(secs[..i], off)
    {
      var at := if secs[i].stored then end else 0;
      BodyGrows(secs, i);
      TableGrows(secs, i, off, at);
      t := t + RecordBytes(secs[i].kind, at, secs[i].size);
      if secs[i].stored { end := end + secs[i].size; }
      i := i + 1;
    }
    assert secs[..i] == secs;
  }

  method WriteBody(secs: seq<Section>) returns (b: seq<Byte>)
    ensures b == Body(secs)
  {
    b := [];
    var i := 0;
    while i < |secs|
      invariant i <= |secs| && b == Body(secs[..i])
    {
      BodyGrows(secs, i);
      b := b + secs[i].payload;
      i := i + 1;
    }
    assert secs[..i] == secs;
  }

  method CollectPlain(j: Job) returns (plain: seq<Section>)
    requires Writable(j)
    ensures plain == Plain(j)
  {
    var words := WriteWords(j.code);
    var secs := CollectSections(j);
    plain := KeepPresent(Section(CODE, true, 4 * |j.code|, words), secs);
  }

  // The sections of write_bin but the seal: how many there will be, their records and where the
  // payloads end, and the payloads.
  method WritePlain(j: Job) returns (n: nat, t: seq<Byte>, end: nat, b: seq<Byte>)
    requires Writable(j)
    ensures n == |Plain(j)| + (if j.seal then 1 else 0) && b == Body(Plain(j)) && end == 24 + 16 * n + |b| < B
    ensures t == Table(Plain(j), 24 + 16 * n)
  {
    var plain := CollectPlain(j);
    PlainFits(j);
    PlainProper(j);
    n := |plain| + if j.seal then 1 else 0;
    t, end := WriteTable(plain, 24 + 16 * n);
    b := WriteBody(plain);
  }

  // write_bin: the header, the table, the payloads, and a seal patched in once the CRC of what
  // precedes it is known.
  method WriteBin(j: Job) returns (f: seq<Byte>)
    requires Writable(j)
    ensures f == File(j)
  {
    var n, t, end, b := WritePlain(j);
    PlainFits(j);
    if j.seal {
      var w := WithSeal(n, j.entry, t, end, b);
      PrefixParts(j.entry, Plain(j), n, t, end, b);
      SealedFile(j, w);
      f := Sealed(w, end);
    } else {
      f := WithoutSeal(n, j.entry, t, b);
      UnsealedFile(j, n, t, b);
    }
  }

  // The file up to its seal, which has the last record of the table.
  function WithSeal(n: u32, entry: u32, t: seq<Byte>, end: u32, b: seq<Byte>): seq<Byte> {
    Header(n, entry) + (t + RecordBytes(SEAL, end, 12)) + b
  }

  function WithoutSeal(n: u32, entry: u32, t: seq<Byte>, b: seq<Byte>): seq<Byte> {
    Header(n, entry) + t + b
  }

  lemma SealedFile(j: Job, w: seq<Byte>)
    requires Writable(j) && j.seal && BodyOff(Plain(j)) + 16 + |Body(Plain(j))| < B && w == Prefix(j.entry, Plain(j))
    ensures File(j) == w + SealBytes(Crc(w))
  {
  }

  lemma UnsealedFile(j: Job, n: u32, t: seq<Byte>, b: seq<Byte>)
    requires Writable(j) && !j.seal && Fits(Plain(j)) && n == |Plain(j)| && t == Table(Plain(j), 24 + 16 * n) && b == Body(Plain(j))
    ensures File(j) == WithoutSeal(n, j.entry, t, b)
  {
    AssembledFrom(j.entry, Plain(j), n, t, b);
  }

  lemma AssembledFrom(entry: u32, secs: seq<Section>, n: u32, t: seq<Byte>, b: seq<Byte>)
    requires Fits(secs) && n == |secs| && t == Table(secs, 24 + 16 * n) && b == Body(secs)
    ensures Assemble(entry, secs) == WithoutSeal(n, entry, t, b)
  {
  }

  lemma PrefixParts(entry: u32, secs: seq<Section>, n: u32, t: seq<Byte>, end: u32, b: seq<Byte>)
    requires n == |secs| + 1 && BodyOff(secs) + 16 + |Body(secs)| < B && t == Table(secs, BodyOff(secs) + 16) && b == Body(secs)
    requires end == BodyOff(secs) + 16 + |b|
    ensures WithSeal(n, entry, t, end, b) == Prefix(entry, secs)
  {
    var h, r := Header(n, entry), RecordBytes(SEAL, end, 12);
    assert h + (t + r) + b == h + t + r + b;
  }

  // The seal's payload, written with no CRC, and the CRC patched in.
  method Sealed(prefix: seq<Byte>, sealOff: nat) returns (f: seq<Byte>)
    requires sealOff == |prefix|
    ensures f == prefix + SealBytes(Crc(prefix))
  {
    f := prefix + (Enc(SEAL_MAGIC) + Enc(1) + Enc(0));
    var crc := Crc32(f, sealOff);
    assert f[..sealOff] == prefix;
    f := f[..sealOff + 8] + Enc(crc) + f[sealOff + 12..];
    assert f == prefix + SealBytes(Crc(prefix));
  }

  method CollectSections(j: Job) returns (secs: seq<Section>)
    requires Writable(j)
    ensures secs == Optional(j)
  {
    var imports := WriteImports(j.imports);
    var funcs := WriteFuncs(j.emitFuncs, j.funcs);
    var regions := WriteRegions(j.regions);
    secs := [Section(DATA, true, |j.data|, j.data), Section(IMPORTS, true, |imports|, imports),
             Section(HEAP_RESERVE, false, j.reserve, []), Section(STACK_RESERVE, false, j.stack, []),
             Section(FUNCS, true, |funcs|, funcs), Section(HOST_REGION, true, |regions|, regions),
             Section(ROM, true, |j.rom|, j.rom), Section(META, true, |j.meta|, j.meta)];
  }
}
