// Reading an image file: the checks the loader makes, and the image it builds.
module Loader {
  import opened Arith
  import opened Bytes
  import opened Machine
  import opened Words

  datatype Error = Truncated | BadMagic | BadVersion | BadSection | DupSection | NoCode | BadEntry | BadRegion | BadImports | BadFuncs

  const CODE: u32 := 1
  const DATA: u32 := 2
  const BSS: u32 := 3
  const IMPORTS: u32 := 4
  const DEBUG: u32 := 5
  const HEAP_RESERVE: u32 := 6
  const STACK_RESERVE: u32 := 7
  const FUNCS: u32 := 8
  const HOST_REGION: u32 := 9
  const ROM: u32 := 10
  const META: u32 := 11
  const SEAL: u32 := 12

  const MAGIC: seq<Byte> := [0x43, 0x56, 0x4D, 0x31]
  const VERSION: u32 := 0x0001_0000
  const LIMIT: int := 0xFFFF_FFFF

  // ----- The section table ------------------------------------------------------------------------

  datatype Rec = Rec(kind: u32, off: u32, size: u32, flags: u32)

  function Count(f: seq<Byte>): u32
    requires |f| >= 24
  {
    Word(f, 12)
  }

  function TableOff(f: seq<Byte>): u32
    requires |f| >= 24
  {
    Word(f, 16)
  }

  // The header is in order and the table lies inside the file.
  predicate TableInside(f: seq<Byte>) {
    |f| >= 24 && TableOff(f) + 16 * Count(f) <= |f|
  }

  function RecAt(f: seq<Byte>, i: nat): Rec
    requires TableInside(f) && i < Count(f)
  {
    var at := TableOff(f) + 16 * i;
    Rec(Word(f, at), Word(f, at + 4), Word(f, at + 8), Word(f, at + 12))
  }

  predicate HasKind(f: seq<Byte>, kind: u32, n: nat)
    requires TableInside(f) && n <= Count(f)
  {
    n > 0 && (RecAt(f, n - 1).kind == kind || HasKind(f, kind, n - 1))
  }

  // Where a section lies, and how big it is.
  datatype Extent = Extent(off: u32, size: u32)

  // The last section of a kind among the first n.
  function Find(f: seq<Byte>, kind: u32, n: nat): Extent
    requires TableInside(f) && n <= Count(f)
  {
    if n == 0 then Extent(0, 0)
    else
      var r := RecAt(f, n - 1);
      if r.kind == kind then Extent(r.off, r.size) else Find(f, kind, n - 1)
  }

  predicate Stored(kind: u32) {
    kind != BSS && kind != HEAP_RESERVE && kind != STACK_RESERVE
  }

  // What is wrong with the i-th section, those before it being in order.
  function RecFault(f: seq<Byte>, i: nat): Option<Error>
    requires TableInside(f) && i < Count(f)
  {
    var r := RecAt(f, i);
    if r.flags != 0 then Some(BadSection)
    else if r.kind == 0 || r.kind > 12 then Some(BadSection)
    else if r.kind != DEBUG && HasKind(f, r.kind, i) then Some(DupSection)
    else if Stored(r.kind) && r.off + r.size > |f| then Some(Truncated)
    else if !Stored(r.kind) && r.off != 0 then Some(BadSection)
    else if r.kind == CODE && (r.size == 0 || r.size % 4 != 0) then Some(BadSection)
    else if r.kind == FUNCS && (r.size == 0 || r.size % 4 != 0) then Some(BadFuncs)
    else None
  }

  // The first fault from section i on.
  function TableFault(f: seq<Byte>, i: nat): Option<Error>
    requires TableInside(f) && i <= Count(f)
    decreases Count(f) - i
  {
    if i == Count(f) then None
    else if RecFault(f, i).Some? then RecFault(f, i)
    else TableFault(f, i + 1)
  }

  // The section switch of the loader: each kind's place, filled in as the table is read.
  method ScanTable(f: seq<Byte>) returns (fault: Option<Error>, found: map<u32, Extent>)
    requires TableInside(f)
    ensures fault == TableFault(f, 0)
    ensures fault.None? ==> forall k: u32 :: (k in found <==> HasKind(f, k, Count(f))) && (k in found ==> found[k] == Find(f, k, Count(f)))
  {
    found := map[];
    var i: nat := 0;
    while i < Count(f)
      invariant i <= Count(f) && TableFault(f, 0) == TableFault(f, i)
      invariant forall k: u32 :: (k in found <==> HasKind(f, k, i)) && (k in found ==> found[k] == Find(f, k, i))
    {
      var r := RecAt(f, i);
      if r.flags != 0 { return Some(BadSection), found; }
      if r.kind == 0 || r.kind > 12 { return Some(BadSection), found; }
      if r.kind != DEBUG && r.kind in found { return Some(DupSection), found; }
      if Stored(r.kind) {
        if r.off + r.size > |f| { return Some(Truncated), found; }
      } else if r.off != 0 {
        return Some(BadSection), found;
      }
      if r.kind == CODE && (r.size == 0 || r.size % 4 != 0) { return Some(BadSection), found; }
      if r.kind == FUNCS && (r.size == 0 || r.size % 4 != 0) { return Some(BadFuncs), found; }
      found := found[r.kind := Extent(r.off, r.size)];
      i := i + 1;
    }
    fault := None;
  }

  // A section of a table without fault lies inside the file.
  lemma {:induction false} FoundInside(f: seq<Byte>, kind: u32, n: nat)
    requires TableInside(f) && n <= Count(f) && TableFault(f, 0) == None
    ensures Stored(kind) ==> Find(f, kind, n).off + Find(f, kind, n).size <= |f|
    ensures (kind == FUNCS || kind == CODE) ==> Find(f, kind, n).size % 4 == 0
    ensures HasKind(f, kind, n) && kind == CODE ==> Find(f, kind, n).size > 0
  {
    if n > 0 {
      NoFault(f, 0, n - 1);
      FoundInside(f, kind, n - 1);
    }
  }

  lemma {:induction false} NoFault(f: seq<Byte>, i: nat, j: nat)
    requires TableInside(f) && i <= j < Count(f) && TableFault(f, i) == None
    ensures RecFault(f, j) == None
    decreases j - i
  {
    if i < j { NoFault(f, i + 1, j); }
  }

  // ----- Regions ----------------------------------------------------------------------------------

  datatype Region = Region(name: seq<Byte>, size: u32, direction: u32)

  // The entry at e: a name of 16 bytes, the size, the direction, and flags.
  function RegionAt(f: seq<Byte>, e: nat): Region
    requires e + 28 <= |f|
  {
    Region(f[e..e + 16], Word(f, e + 16), Word(f, e + 20))
  }

  function Aligned(size: u32): (a: nat)
    ensures size <= a < size + 4 && a % 4 == 0
  {
    (size + 3) / 4 * 4
  }

  function RegionName(f: seq<Byte>, at: nat, i: nat): seq<Byte>
    requires at + 28 * i + 28 <= |f|
  {
    CString(RegionAt(f, at + 28 * i).name)
  }

  // No region before j has the name of region i.
  predicate FreshName(f: seq<Byte>, at: nat, i: nat, j: nat)
    requires j <= i && at + 28 * i + 28 <= |f|
  {
    forall k :: 0 <= k < j ==> RegionName(f, at, k) != RegionName(f, at, i)
  }

  predicate EntryOk(r: Region, flags: u32) {
    |r.name| == 16 && 0 in r.name && r.name[0] != 0 && flags == 0 && 1 <= r.direction <= 3
  }

  predicate RegionOk(f: seq<Byte>, at: nat, i: nat)
    requires at + 28 * i + 28 <= |f|
  {
    EntryOk(RegionAt(f, at + 28 * i), Word(f, at + 28 * i + 24)) && FreshName(f, at, i, i)
  }

  predicate AllRegionsOk(f: seq<Byte>, at: nat, n: nat)
    requires at + 28 * n <= |f|
  {
    forall i :: 0 <= i < n ==> RegionOk(f, at, i)
  }

  function RegionTotal(f: seq<Byte>, at: nat, n: nat): (t: nat)
    requires at + 28 * n <= |f|
  {
    if n == 0 then 0 else RegionTotal(f, at, n - 1) + Aligned(RegionAt(f, at + 28 * (n - 1)).size)
  }

  function RegionCount(f: seq<Byte>, e: Extent): u32
    requires e.off + e.size <= |f|
  {
    if e.size < 4 then 0 else Word(f, e.off)
  }

  predicate RegionsOk(f: seq<Byte>, e: Extent)
    requires e.off + e.size <= |f|
  {
    e.size == 0 ||
    (e.size >= 4 && RegionCount(f, e) <= 0xFFFF && 4 + 28 * RegionCount(f, e) <= e.size &&
     AllRegionsOk(f, e.off + 4, RegionCount(f, e)) &&
     RegionTotal(f, e.off + 4, RegionCount(f, e)) <= LIMIT)
  }

  lemma {:induction false} TotalGrows(f: seq<Byte>, at: nat, m: nat, n: nat)
    requires m <= n && at + 28 * n <= |f|
    ensures RegionTotal(f, at, m) <= RegionTotal(f, at, n)
  {
    if m < n { TotalGrows(f, at, m, n - 1); }
  }

  method CheckName(f: seq<Byte>, at: nat, i: nat) returns (isNew: bool)
    requires at + 28 * i + 28 <= |f|
    ensures isNew == FreshName(f, at, i, i)
  {
    var j: nat := 0;
    while j < i
      invariant j <= i && FreshName(f, at, i, j)
    {
      if RegionName(f, at, j) == RegionName(f, at, i) { return false; }
      j := j + 1;
    }
    isNew := true;
  }

  method CheckEntry(r: Region, flags: u32) returns (ok: bool)
    requires |r.name| == 16
    ensures ok == EntryOk(r, flags)
  {
    if 0 !in r.name { return false; }
    if r.name[0] == 0 { return false; }
    if flags != 0 { return false; }
    if r.direction < 1 || r.direction > 3 { return false; }
    ok := true;
  }

  method CheckRegion(f: seq<Byte>, at: nat, i: nat) returns (ok: bool)
    requires at + 28 * i + 28 <= |f|
    ensures ok == RegionOk(f, at, i)
  {
    ok := CheckEntry(RegionAt(f, at + 28 * i), Word(f, at + 28 * i + 24));
    if ok { ok := CheckName(f, at, i); }
  }

  method CheckEntries(f: seq<Byte>, at: nat, count: nat) returns (ok: bool, total: nat)
    requires at + 28 * count <= |f|
    ensures ok == (AllRegionsOk(f, at, count) && RegionTotal(f, at, count) <= LIMIT)
    ensures ok ==> total == RegionTotal(f, at, count)
  {
    total := 0;
    var i: nat := 0;
    while i < count
      invariant i <= count && total == RegionTotal(f, at, i) <= LIMIT && AllRegionsOk(f, at, i)
    {
      ok := CheckRegion(f, at, i);
      if !ok { return false, 0; }
      TotalGrows(f, at, i + 1, count);
      total := total + Aligned(RegionAt(f, at + 28 * i).size);
      if total > LIMIT { return false, 0; }
      i := i + 1;
    }
    ok := true;
  }

  method CheckRegions(f: seq<Byte>, e: Extent) returns (ok: bool, count: u32, total: nat)
    requires e.off + e.size <= |f|
    ensures ok == RegionsOk(f, e)
    ensures ok ==> count == RegionCount(f, e) && (count > 0 ==> 4 + 28 * count <= e.size)
    ensures ok ==> total == (if count == 0 then 0 else RegionTotal(f, e.off + 4, count))
  {
    if e.size == 0 { return true, 0, 0; }
    if e.size < 4 { return false, 0, 0; }
    count := Word(f, e.off);
    if count > 0xFFFF { return false, 0, 0; }
    if 4 + 28 * count > e.size { return false, 0, 0; }
    ok, total := CheckEntries(f, e.off + 4, count);
  }

  // ----- Imports ----------------------------------------------------------------------------------

  predicate ImportOk(f: seq<Byte>, e: Extent, i: nat)
    requires e.off + e.size <= |f| && 4 + 4 * i + 4 <= e.size
  {
    var nameOff := Word(f, e.off + 4 + 4 * i);
    nameOff < e.size && 0 in f[e.off + nameOff..e.off + e.size]
  }

  predicate AllImportsOk(f: seq<Byte>, e: Extent, n: nat)
    requires e.off + e.size <= |f| && (n > 0 ==> 4 + 4 * n <= e.size)
  {
    forall i :: 0 <= i < n ==> ImportOk(f, e, i)
  }

  function ImportCount(f: seq<Byte>, e: Extent): u32
    requires e.off + e.size <= |f|
  {
    if e.size < 4 then 0 else Word(f, e.off)
  }

  predicate ImportsOk(f: seq<Byte>, e: Extent)
    requires e.off + e.size <= |f|
  {
    e.size == 0 ||
    (e.size >= 4 && ImportCount(f, e) <= 0xFFFF && 4 + 4 * ImportCount(f, e) <= e.size &&
     AllImportsOk(f, e, ImportCount(f, e)))
  }

  method CheckImports(f: seq<Byte>, e: Extent) returns (ok: bool)
    requires e.off + e.size <= |f|
    ensures ok == ImportsOk(f, e)
  {
    if e.size == 0 { return true; }
    if e.size < 4 { return false; }
    var count := Word(f, e.off);
    if count > 0xFFFF { return false; }
    if 4 + 4 * count > e.size { return false; }
    var i: nat := 0;
    while i < count
      invariant i <= count && AllImportsOk(f, e, i)
    {
      assert AllImportsOk(f, e, count) ==> ImportOk(f, e, i);
      var nameOff := Word(f, e.off + 4 + 4 * i);
      if nameOff >= e.size { return false; }
      if 0 !in f[e.off + nameOff..e.off + e.size] { return false; }
      i := i + 1;
    }
    ok := true;
  }

  // ----- The image --------------------------------------------------------------------------------

  // A region and where it starts in memory.
  datatype Placed = Placed(region: Region, offset: nat)

  datatype Image = Image(code: seq<u32>, entry: u32, funcs: seq<u32>, imports: seq<seq<Byte>>, regions: seq<Placed>, mem: seq<Byte>,
                         dataSize: nat, heapSize: nat, reserve: nat, stack: nat, romOffset: nat, romSize: nat)

  // n words from at on.
  function WordsAt(f: seq<Byte>, at: nat, n: nat): (ws: seq<u32>)
    requires at + 4 * n <= |f|
    ensures |ws| == n
  {
    if n == 0 then [] else WordsAt(f, at, n - 1) + [Word(f, at + 4 * (n - 1))]
  }

  function NameAt(f: seq<Byte>, e: Extent, i: nat): seq<Byte>
    requires e.off + e.size <= |f| && 4 + 4 * i + 4 <= e.size && ImportOk(f, e, i)
  {
    CString(f[e.off + Word(f, e.off + 4 + 4 * i)..e.off + e.size])
  }

  function NamesAt(f: seq<Byte>, e: Extent, n: nat): (names: seq<seq<Byte>>)
    requires e.off + e.size <= |f| && (n > 0 ==> 4 + 4 * n <= e.size) && AllImportsOk(f, e, n)
    ensures |names| == n
  {
    if n == 0 then [] else
      assert ImportOk(f, e, n - 1);
      NamesAt(f, e, n - 1) + [NameAt(f, e, n - 1)]
  }

  function PlacedAt(f: seq<Byte>, at: nat, start: nat, n: nat): (rs: seq<Placed>)
    requires at + 28 * n <= |f|
    ensures |rs| == n
  {
    if n == 0 then [] else
      PlacedAt(f, at, start, n - 1) + [Placed(RegionAt(f, at + 28 * (n - 1)), start + RegionTotal(f, at, n - 1))]
  }

  // The sections of a file whose table is in order.
  predicate Scanned(f: seq<Byte>) {
    TableInside(f) && TableFault(f, 0).None?
  }

  function Located(f: seq<Byte>, kind: u32): (e: Extent)
    requires Scanned(f)
    ensures Stored(kind) ==> e.off + e.size <= |f|
    ensures kind == CODE || kind == FUNCS ==> e.size % 4 == 0
  {
    FoundInside(f, kind, Count(f));
    Find(f, kind, Count(f))
  }

  // Where everything is: the offsets and sizes the loader notes while it reads the table.
  datatype Layout = Layout(code: Extent, data: Extent, bss: nat, imports: Extent, reserve: nat, stack: nat,
                           funcs: Extent, regions: Extent, rom: Extent)

  function LayoutOf(f: seq<Byte>): (l: Layout)
    requires Scanned(f)
    ensures Inside(f, l)
  {
    Layout(Located(f, CODE), Located(f, DATA), Located(f, BSS).size, Located(f, IMPORTS), Located(f, HEAP_RESERVE).size, Located(f, STACK_RESERVE).size,
           Located(f, FUNCS), Located(f, HOST_REGION), Located(f, ROM))
  }

  predicate Inside(f: seq<Byte>, l: Layout) {
    && l.code.off + l.code.size <= |f| && l.data.off + l.data.size <= |f| && l.imports.off + l.imports.size <= |f|
    && l.funcs.off + l.funcs.size <= |f| && l.regions.off + l.regions.size <= |f| && l.rom.off + l.rom.size <= |f|
    && l.code.size % 4 == 0 && l.funcs.size % 4 == 0
  }

  function TotalOf(f: seq<Byte>, e: Extent): nat
    requires e.off + e.size <= |f| && RegionsOk(f, e)
  {
    if RegionCount(f, e) == 0 then 0 else RegionTotal(f, e.off + 4, RegionCount(f, e))
  }

  function HeapTotal(f: seq<Byte>, l: Layout): nat
    requires Inside(f, l) && RegionsOk(f, l.regions)
  {
    l.data.size + l.bss + TotalOf(f, l.regions) + l.rom.size + l.reserve
  }

  predicate FuncOk(f: seq<Byte>, at: nat, codeCount: nat, i: nat)
    requires at + 4 * i + 4 <= |f|
  {
    Word(f, at + 4 * i) < codeCount
  }

  predicate AllFuncsOk(f: seq<Byte>, at: nat, codeCount: nat, n: nat)
    requires at + 4 * n <= |f|
  {
    forall i :: 0 <= i < n ==> FuncOk(f, at, codeCount, i)
  }

  predicate FuncsOk(f: seq<Byte>, l: Layout)
    requires Inside(f, l)
  {
    AllFuncsOk(f, l.funcs.off, l.code.size / 4, l.funcs.size / 4)
  }

  // The first check of what the sections hold that a file fails.
  function LayoutFault(f: seq<Byte>, l: Layout): Option<Error>
    requires Inside(f, l)
  {
    if !RegionsOk(f, l.regions) then Some(BadRegion)
    else if HeapTotal(f, l) > LIMIT then Some(BadSection)
    else if l.stack != 0 && l.stack < 4 then Some(BadSection)
    else if HeapTotal(f, l) + l.stack > LIMIT then Some(BadSection)
    else if !ImportsOk(f, l.imports) then Some(BadImports)
    else None
  }

  // The first check a file fails.
  function Fault(f: seq<Byte>): Option<Error> {
    if |f| < 24 then Some(Truncated)
    else if f[0..4] != MAGIC then Some(BadMagic)
    else if Word(f, 4) != VERSION then Some(BadVersion)
    else if Word(f, 8) != 0 then Some(BadSection)
    else if !TableInside(f) then Some(Truncated)
    else if TableFault(f, 0).Some? then TableFault(f, 0)
    else if !HasKind(f, CODE, Count(f)) then Some(NoCode)
    else
      var l := LayoutOf(f);
      if Word(f, 20) >= l.code.size / 4 then Some(BadEntry)
      else if LayoutFault(f, l).Some? then LayoutFault(f, l)
      else if !FuncsOk(f, l) then Some(BadFuncs)
      else None
  }

  function PlacedOf(f: seq<Byte>, e: Extent, start: nat): seq<Placed>
    requires e.off + e.size <= |f| && RegionsOk(f, e)
  {
    if RegionCount(f, e) == 0 then [] else PlacedAt(f, e.off + 4, start, RegionCount(f, e))
  }

  // Memory: DATA, then BSS and the regions, ROM, and the reserve and the stack.
  function MemoryOf(f: seq<Byte>, data: Extent, gap: nat, rom: Extent, rest: nat): seq<Byte>
    requires data.off + data.size <= |f| && rom.off + rom.size <= |f|
  {
    f[data.off..data.off + data.size] + Zeros(gap) + f[rom.off..rom.off + rom.size] + Zeros(rest)
  }

  function NamesOf(f: seq<Byte>, e: Extent): seq<seq<Byte>>
    requires e.off + e.size <= |f| && ImportsOk(f, e)
  {
    NamesAt(f, e, ImportCount(f, e))
  }

  // The image of what was read, its regions taking up `total` bytes.
  function Assembled(l: Layout, code: seq<u32>, entry: u32, funcs: seq<u32>, imports: seq<seq<Byte>>, placed: seq<Placed>,
                     mem: seq<Byte>, total: nat): Image {
    Image(code, entry, funcs, imports, placed, mem, l.data.size, l.data.size + l.bss + total + l.rom.size + l.reserve,
          l.reserve, l.stack, if l.rom.size == 0 then 0 else l.data.size + l.bss + total, l.rom.size)
  }

  function ImageOf(f: seq<Byte>, l: Layout): Image
    requires |f| >= 24 && Inside(f, l) && RegionsOk(f, l.regions) && ImportsOk(f, l.imports)
  {
    var total := TotalOf(f, l.regions);
    Assembled(
      l, WordsAt(f, l.code.off, l.code.size / 4), Word(f, 20), WordsAt(f, l.funcs.off, l.funcs.size / 4), NamesOf(f, l.imports),
      PlacedOf(f, l.regions, l.data.size + l.bss), MemoryOf(f, l.data, l.bss + total, l.rom, l.reserve + l.stack), total)
  }

  // The file is accepted, and is this image.
  predicate Loads(f: seq<Byte>, image: Image) {
    Fault(f).None? && ImageOf(f, LayoutOf(f)) == image
  }

  // ----- Building the image -----------------------------------------------------------------------

  method ReadWords(f: seq<Byte>, at: nat, n: nat) returns (ws: seq<u32>)
    requires at + 4 * n <= |f|
    ensures ws == WordsAt(f, at, n)
  {
    ws := [];
    var i := 0;
    while i < n
      invariant i <= n && ws == WordsAt(f, at, i)
    {
      ws := ws + [Word(f, at + 4 * i)];
      i := i + 1;
    }
  }

  method ReadFuncs(f: seq<Byte>, at: nat, n: nat, codeCount: nat) returns (ok: bool, ws: seq<u32>)
    requires at + 4 * n <= |f|
    ensures ok == AllFuncsOk(f, at, codeCount, n)
    ensures ok ==> ws == WordsAt(f, at, n)
  {
    ws := [];
    var i := 0;
    while i < n
      invariant i <= n && ws == WordsAt(f, at, i)
      invariant AllFuncsOk(f, at, codeCount, i)
    {
      assert FuncOk(f, at, codeCount, i) == (Word(f, at + 4 * i) < codeCount);
      var off := Word(f, at + 4 * i);
      if off >= codeCount { return false, []; }
      ws := ws + [off];
      i := i + 1;
    }
    ok := true;
  }

  // memcpy into memory.
  method CopyInto(mem: array<Byte>, at: nat, src: seq<Byte>)
    requires at + |src| <= mem.Length
    modifies mem
    ensures mem[..] == old(mem[..at]) + src + old(mem[at + |src|..])
  {
    var i := 0;
    while i < |src|
      invariant i <= |src|
      invariant mem[..] == old(mem[..at]) + src[..i] + old(mem[at + i..])
    {
      assert src[..i + 1] == src[..i] + [src[i]];
      mem[at + i] := src[i];
      i := i + 1;
    }
  }

  // The memory of an image: DATA copied in, the rest cleared, ROM copied over it.
  method FillMemory(data: seq<Byte>, gap: nat, rom: seq<Byte>, rest: nat) returns (mem: seq<Byte>)
    ensures mem == data + Zeros(gap) + rom + Zeros(rest)
  {
    var heap := new Byte[|data| + gap + |rom| + rest](_ => 0);
    assert heap[..] == Zeros(|data| + gap + |rom| + rest);
    CopyInto(heap, 0, data);
    assert heap[..] == data + Zeros(gap + |rom| + rest);
    CopyInto(heap, |data| + gap, rom);
    mem := heap[..];
    assert mem == data + Zeros(gap) + rom + Zeros(rest);
  }

  method ReadNames(f: seq<Byte>, e: Extent, n: nat) returns (names: seq<seq<Byte>>)
    requires e.off + e.size <= |f| && (n > 0 ==> 4 + 4 * n <= e.size) && AllImportsOk(f, e, n)
    ensures names == NamesAt(f, e, n)
  {
    names := [];
    var i := 0;
    while i < n
      invariant i <= n && names == NamesAt(f, e, i)
    {
      assert ImportOk(f, e, i);
      names := names + [NameAt(f, e, i)];
      i := i + 1;
    }
  }

  method PlaceRegions(f: seq<Byte>, at: nat, start: nat, n: nat) returns (rs: seq<Placed>)
    requires at + 28 * n <= |f|
    ensures rs == PlacedAt(f, at, start, n)
  {
    rs := [];
    var i, cursor := 0, start;
    while i < n
      invariant i <= n && rs == PlacedAt(f, at, start, i) && cursor == start + RegionTotal(f, at, i)
    {
      var r := RegionAt(f, at + 28 * i);
      rs := rs + [Placed(r, cursor)];
      cursor := cursor + Aligned(r.size);
      i := i + 1;
    }
  }

  datatype Loaded = Loaded(image: Image) | Failed(error: Error)

  function Section(found: map<u32, Extent>, kind: u32): Extent {
    if kind in found then found[kind] else Extent(0, 0)
  }

  lemma {:induction false} AbsentIsEmpty(f: seq<Byte>, kind: u32, n: nat)
    requires TableInside(f) && n <= Count(f) && !HasKind(f, kind, n)
    ensures Find(f, kind, n) == Extent(0, 0)
  {
    if n > 0 { AbsentIsEmpty(f, kind, n - 1); }
  }

  // What the scan found, by kind.
  ghost predicate Sections(f: seq<Byte>, found: map<u32, Extent>) {
    Scanned(f) && forall k: u32 :: Section(found, k) == Located(f, k)
  }

  lemma FoundSections(f: seq<Byte>, found: map<u32, Extent>)
    requires Scanned(f)
    requires forall k: u32 :: (k in found <==> HasKind(f, k, Count(f))) && (k in found ==> found[k] == Find(f, k, Count(f)))
    ensures Sections(f, found)
  {
    forall k: u32 ensures Section(found, k) == Located(f, k) {
      if k !in found { AbsentIsEmpty(f, k, Count(f)); }
    }
  }

  // cvm_load_ex: fails with the first check the file does not pass, or builds its image.
  method LoadEx(f: seq<Byte>) returns (r: Loaded)
    ensures r == match Fault(f) case Some(e) => Failed(e) case None => Loaded.Loaded(ImageOf(f, LayoutOf(f)))
  {
    if |f| < 24 { return Failed(Truncated); }
    if f[0..4] != MAGIC { return Failed(BadMagic); }
    if Word(f, 4) != VERSION { return Failed(BadVersion); }
    if Word(f, 8) != 0 { return Failed(BadSection); }
    if TableOff(f) + 16 * Count(f) > |f| { return Failed(Truncated); }
    var fault, found := ScanTable(f);
    if fault.Some? { return Failed(fault.value); }
    if CODE !in found { return Failed(NoCode); }
    var l := Note(f, found);
    var codeCount := l.code.size / 4;
    if Word(f, 20) >= codeCount { return Failed(BadEntry); }
    fault := CheckLayout(f, l);
    if fault.Some? { return Failed(fault.value); }
    var ok, entries := ReadFuncs(f, l.funcs.off, l.funcs.size / 4, codeCount);
    if !ok { return Failed(BadFuncs); }
    var image := Build(f, l, entries);
    r := Loaded.Loaded(image);
  }

  method Note(f: seq<Byte>, found: map<u32, Extent>) returns (l: Layout)
    requires Scanned(f)
    requires forall k: u32 :: (k in found <==> HasKind(f, k, Count(f))) && (k in found ==> found[k] == Find(f, k, Count(f)))
    ensures l == LayoutOf(f)
  {
    FoundSections(f, found);
    l := Layout(Section(found, CODE), Section(found, DATA), Section(found, BSS).size, Section(found, IMPORTS),
                Section(found, HEAP_RESERVE).size, Section(found, STACK_RESERVE).size, Section(found, FUNCS),
                Section(found, HOST_REGION), Section(found, ROM));
  }

  method CheckLayout(f: seq<Byte>, l: Layout) returns (fault: Option<Error>)
    requires Inside(f, l)
    ensures fault == LayoutFault(f, l)
  {
    var ok, _, regionTotal := CheckRegions(f, l.regions);
    if !ok { return Some(BadRegion); }
    var heapTotal := l.data.size + l.bss + regionTotal + l.rom.size + l.reserve;
    if heapTotal > LIMIT { return Some(BadSection); }
    if l.stack != 0 && l.stack < 4 { return Some(BadSection); }
    if heapTotal + l.stack > LIMIT { return Some(BadSection); }
    ok := CheckImports(f, l.imports);
    fault := if ok then None else Some(BadImports);
  }

  method BuildRegions(f: seq<Byte>, e: Extent, start: nat) returns (placed: seq<Placed>, total: nat)
    requires e.off + e.size <= |f| && RegionsOk(f, e)
    ensures placed == PlacedOf(f, e, start) && total == TotalOf(f, e)
  {
    var ok, count, t := CheckRegions(f, e);
    total := t;
    placed := [];
    if count > 0 { placed := PlaceRegions(f, e.off + 4, start, count); }
  }

  method BuildMemory(f: seq<Byte>, data: Extent, gap: nat, rom: Extent, rest: nat) returns (mem: seq<Byte>)
    requires data.off + data.size <= |f| && rom.off + rom.size <= |f|
    ensures mem == MemoryOf(f, data, gap, rom, rest)
  {
    mem := FillMemory(f[data.off..data.off + data.size], gap, f[rom.off..rom.off + rom.size], rest);
  }

  method BuildNames(f: seq<Byte>, e: Extent) returns (names: seq<seq<Byte>>)
    requires e.off + e.size <= |f| && ImportsOk(f, e)
    ensures names == NamesOf(f, e)
  {
    names := ReadNames(f, e, if e.size < 4 then 0 else Word(f, e.off));
  }

  method Build(f: seq<Byte>, l: Layout, entries: seq<u32>) returns (image: Image)
    requires |f| >= 24 && Inside(f, l) && RegionsOk(f, l.regions) && ImportsOk(f, l.imports)
    requires entries == WordsAt(f, l.funcs.off, l.funcs.size / 4)
    ensures image == ImageOf(f, l)
  {
    var words := ReadWords(f, l.code.off, l.code.size / 4);
    var names := BuildNames(f, l.imports);
    var placed, total, mem := BuildHeap(f, l);
    image := Assembled(l, words, Word(f, 20), entries, names, placed, mem, total);
  }

  method BuildHeap(f: seq<Byte>, l: Layout) returns (placed: seq<Placed>, total: nat, mem: seq<Byte>)
    requires Inside(f, l) && RegionsOk(f, l.regions)
    ensures placed == PlacedOf(f, l.regions, l.data.size + l.bss) && total == TotalOf(f, l.regions)
    ensures mem == MemoryOf(f, l.data, l.bss + total, l.rom, l.reserve + l.stack)
  {
    placed, total := BuildRegions(f, l.regions, l.data.size + l.bss);
    mem := BuildMemory(f, l.data, l.bss + total, l.rom, l.reserve + l.stack);
  }
}
