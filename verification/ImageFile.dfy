// The layout of an image file: a header, a table of sections, and what the sections hold.
module ImageFile {
  import opened Arith
  import opened Bytes
  import opened Loader
  import opened Machine
  import opened Words

  // A section to be written; one that is not stored only has a size.
  datatype Section = Section(kind: u32, stored: bool, size: u32, payload: seq<Byte>)

  ghost predicate Proper(secs: seq<Section>) {
    && (forall i :: 0 <= i < |secs| ==> |secs[i].payload| == if secs[i].stored then secs[i].size else 0)
    && (forall i :: 0 <= i < |secs| ==> 1 <= secs[i].kind <= 12 && secs[i].stored == Stored(secs[i].kind))
    && forall i, j :: 0 <= i < j < |secs| ==> secs[i].kind < secs[j].kind
  }

  function Body(secs: seq<Section>): seq<Byte> {
    if secs == [] then [] else Body(secs[..|secs| - 1]) + secs[|secs| - 1].payload
  }

  function RecordBytes(kind: u32, off: u32, size: u32): (b: seq<Byte>)
    ensures |b| == 16
  {
    Enc(kind) + Enc(off) + Enc(size) + Enc(0)
  }

  // The records of sections whose payloads start at `off`.
  function Table(secs: seq<Section>, off: nat): (b: seq<Byte>)
    requires off + |Body(secs)| < B
    ensures |b| == 16 * |secs|
  {
    if secs == [] then [] else Table(secs[..|secs| - 1], off) + LastRecord(secs, off)
  }

  function LastRecord(secs: seq<Section>, off: nat): (b: seq<Byte>)
    requires secs != [] && off + |Body(secs)| < B
    ensures |b| == 16
  {
    var last := secs[|secs| - 1];
    RecordBytes(last.kind, if last.stored then off + |Body(secs[..|secs| - 1])| else 0, last.size)
  }

  function Header(n: u32, entry: u32): (b: seq<Byte>)
    ensures |b| == 24
  {
    MAGIC + Enc(VERSION) + Enc(0) + Enc(n) + Enc(24) + Enc(entry)
  }

  function BodyOff(secs: seq<Section>): nat {
    24 + 16 * |secs|
  }

  predicate Fits(secs: seq<Section>) {
    BodyOff(secs) + |Body(secs)| < B
  }

  function Assemble(entry: u32, secs: seq<Section>): (f: seq<Byte>)
    requires Fits(secs)
    ensures |f| == BodyOff(secs) + |Body(secs)|
  {
    Header(|secs|, entry) + Table(secs, BodyOff(secs)) + Body(secs)
  }

  // ----- Reading back the header and the table ----------------------------------------------------

  function OffsetOf(secs: seq<Section>, i: nat): (off: nat)
    requires i < |secs|
  {
    if secs[i].stored then BodyOff(secs) + |Body(secs[..i])| else 0
  }

  lemma {:induction false} BodyPart(secs: seq<Section>, i: nat)
    requires i < |secs|
    ensures Sits(Body(secs), |Body(secs[..i])|, secs[i].payload)
  {
    var before := secs[..|secs| - 1];
    if i == |secs| - 1 {
      SitsRight(Body(before), secs[i].payload);
    } else {
      BodyPart(before, i);
      assert before[..i] == secs[..i];
      SitsLeft(Body(before), secs[|secs| - 1].payload, |Body(secs[..i])|, secs[i].payload);
    }
  }

  lemma {:induction false} TablePart(secs: seq<Section>, off: nat, i: nat, at: u32, r: seq<Byte>)
    requires off + |Body(secs)| < B && i < |secs| && at == if secs[i].stored then off + |Body(secs[..i])| else 0
    requires r == RecordBytes(secs[i].kind, at, secs[i].size)
    ensures Sits(Table(secs, off), 16 * i, r)
  {
    var before := secs[..|secs| - 1];
    var t, last := Table(before, off), LastRecord(secs, off);
    assert Table(secs, off) == t + last;
    if i == |secs| - 1 {
      assert last == r;
      SitsRight(t, r);
    } else {
      assert before[..i] == secs[..i];
      TablePart(before, off, i, at, r);
      SitsLeft(t, last, 16 * i, r);
    }
  }

  lemma HeaderParts(n: u32, entry: u32)
    ensures var h := Header(n, entry);
            h[0..4] == MAGIC && Word(h, 4) == VERSION && Word(h, 8) == 0 && Word(h, 12) == n && Word(h, 16) == 24 && Word(h, 20) == entry
  {
    var h := Header(n, entry);
    SitsEnc(h, 4, VERSION);
    SitsEnc(h, 8, 0);
    SitsEnc(h, 12, n);
    SitsEnc(h, 16, 24);
    SitsEnc(h, 20, entry);
  }

  // A file starts with its header, its table and its body, in this order.
  lemma FileParts(entry: u32, secs: seq<Section>)
    requires Fits(secs)
    ensures var f := Assemble(entry, secs);
            Sits(f, 0, Header(|secs|, entry)) && Sits(f, 24, Table(secs, BodyOff(secs))) && Sits(f, BodyOff(secs), Body(secs))
  {
    PartsSit(Assemble(entry, secs), Header(|secs|, entry), Table(secs, BodyOff(secs)), Body(secs));
  }

  lemma PartsSit(f: seq<Byte>, h: seq<Byte>, t: seq<Byte>, b: seq<Byte>)
    requires f == h + t + b
    ensures Sits(f, 0, h) && Sits(f, |h|, t) && Sits(f, |h| + |t|, b)
  {
    SitsJoined(h, t, b);
    SitsJoined(h + t, b, []);
    assert h + t + b + [] == f;
    SitsJoined([], h, t + b);
    assert [] + h + (t + b) == f;
  }

  lemma HeaderBack(f: seq<Byte>, h: seq<Byte>, n: u32, entry: u32)
    requires Sits(f, 0, h) && h == Header(n, entry)
    ensures f[0..4] == MAGIC && Word(f, 4) == VERSION && Word(f, 8) == 0 && Word(f, 12) == n && Word(f, 16) == 24 && Word(f, 20) == entry
  {
    HeaderParts(n, entry);
    SitsSlice(f, 0, h);
    assert f[0..4] == f[0..24][0..4];
    SitsWord(f, 0, h, 4);
    SitsWord(f, 0, h, 8);
    SitsWord(f, 0, h, 12);
    SitsWord(f, 0, h, 16);
    SitsWord(f, 0, h, 20);
  }

  lemma HeaderWords(entry: u32, secs: seq<Section>)
    requires Fits(secs)
    ensures var f := Assemble(entry, secs);
            f[0..4] == MAGIC && Word(f, 4) == VERSION && Word(f, 8) == 0 && Word(f, 12) == |secs| && Word(f, 16) == 24 && Word(f, 20) == entry
  {
    FileParts(entry, secs);
    HeaderBack(Assemble(entry, secs), Header(|secs|, entry), |secs|, entry);
  }

  lemma RecordWords(b: seq<Byte>, at: nat, r: seq<Byte>, kind: u32, off: u32, size: u32)
    requires Sits(b, at, r) && r == RecordBytes(kind, off, size)
    ensures Word(b, at) == kind && Word(b, at + 4) == off && Word(b, at + 8) == size && Word(b, at + 12) == 0
  {
    SitsEnc(r, 0, kind);
    SitsEnc(r, 4, off);
    SitsEnc(r, 8, size);
    SitsEnc(r, 12, 0);
    SitsWord(b, at, r, 0);
    SitsWord(b, at, r, 4);
    SitsWord(b, at, r, 8);
    SitsWord(b, at, r, 12);
  }

  lemma AssembledTable(entry: u32, secs: seq<Section>)
    requires Fits(secs)
    ensures TableInside(Assemble(entry, secs)) && Count(Assemble(entry, secs)) == |secs|
  {
    HeaderWords(entry, secs);
  }

  lemma RecordFound(f: seq<Byte>, t: seq<Byte>, i: nat, r: seq<Byte>, kind: u32, off: u32, size: u32)
    requires TableInside(f) && TableOff(f) == 24 && i < Count(f) && Sits(f, 24, t) && Sits(t, 16 * i, r)
    requires r == RecordBytes(kind, off, size)
    ensures RecAt(f, i) == Rec(kind, off, size, 0)
  {
    SitsIn(f, 24, t, 16 * i, r);
    RecordWords(f, 24 + 16 * i, r, kind, off, size);
  }

  // The table says what was written.
  lemma RecordBack(entry: u32, secs: seq<Section>, i: nat)
    requires Fits(secs) && i < |secs|
    ensures TableInside(Assemble(entry, secs)) && Count(Assemble(entry, secs)) == |secs| && OffsetOf(secs, i) < B
    ensures RecAt(Assemble(entry, secs), i) == Rec(secs[i].kind, OffsetOf(secs, i), secs[i].size, 0)
  {
    HeaderWords(entry, secs);
    BodyPart(secs, i);
    FileParts(entry, secs);
    var r := RecordBytes(secs[i].kind, OffsetOf(secs, i), secs[i].size);
    TablePart(secs, BodyOff(secs), i, OffsetOf(secs, i), r);
    RecordFound(Assemble(entry, secs), Table(secs, BodyOff(secs)), i, r, secs[i].kind, OffsetOf(secs, i), secs[i].size);
  }

  // A stored section lies where the table says.
  lemma PayloadBack(entry: u32, secs: seq<Section>, i: nat)
    requires Fits(secs) && i < |secs| && Proper(secs) && secs[i].stored
    ensures Sits(Assemble(entry, secs), OffsetOf(secs, i), secs[i].payload)
  {
    FileParts(entry, secs);
    BodyPart(secs, i);
    SitsIn(Assemble(entry, secs), BodyOff(secs), Body(secs), |Body(secs[..i])|, secs[i].payload);
  }

  // The index of the section of a kind, or the number of sections.
  function IndexOf(secs: seq<Section>, kind: u32): (i: nat)
    ensures i <= |secs| && (i < |secs| ==> secs[i].kind == kind)
    ensures i == |secs| ==> forall j :: 0 <= j < |secs| ==> secs[j].kind != kind
  {
    if secs == [] then 0 else if secs[0].kind == kind then 0 else 1 + IndexOf(secs[1..], kind)
  }

  // The table of f is that of the sections.
  ghost predicate Recorded(f: seq<Byte>, secs: seq<Section>) {
    && TableInside(f) && Count(f) == |secs|
    && (forall i :: 0 <= i < |secs| ==> OffsetOf(secs, i) < B && RecAt(f, i) == Rec(secs[i].kind, OffsetOf(secs, i), secs[i].size, 0))
  }

  // The stored sections lie inside f.
  ghost predicate InFile(f: seq<Byte>, secs: seq<Section>) {
    forall i :: 0 <= i < |secs| && secs[i].stored ==> OffsetOf(secs, i) + secs[i].size <= |f|
  }

  lemma TableBack(entry: u32, secs: seq<Section>)
    requires Fits(secs) && Proper(secs)
    ensures Recorded(Assemble(entry, secs), secs) && InFile(Assemble(entry, secs), secs)
  {
    AssembledTable(entry, secs);
    forall i | 0 <= i < |secs|
      ensures OffsetOf(secs, i) < B && RecAt(Assemble(entry, secs), i) == Rec(secs[i].kind, OffsetOf(secs, i), secs[i].size, 0)
    {
      RecordBack(entry, secs, i);
    }
    forall i | 0 <= i < |secs| && secs[i].stored
      ensures OffsetOf(secs, i) + secs[i].size <= |Assemble(entry, secs)|
    {
      PayloadBack(entry, secs, i);
    }
  }

  lemma IndexOfKind(secs: seq<Section>, k: nat)
    requires Proper(secs) && k < |secs|
    ensures IndexOf(secs, secs[k].kind) == k
  {
    var i := IndexOf(secs, secs[k].kind);
    if i == |secs| { assert false; }
  }

  lemma {:induction false} HasBack(f: seq<Byte>, secs: seq<Section>, kind: u32, n: nat)
    requires Recorded(f, secs) && Proper(secs) && n <= |secs|
    ensures HasKind(f, kind, n) <==> IndexOf(secs, kind) < n
  {
    if n > 0 {
      HasBack(f, secs, kind, n - 1);
      IndexOfKind(secs, n - 1);
      assert RecAt(f, n - 1).kind == secs[n - 1].kind;
    }
  }

  lemma {:induction false} FindBack(f: seq<Byte>, secs: seq<Section>, kind: u32, n: nat)
    requires Recorded(f, secs) && Proper(secs) && n <= |secs|
    ensures var i := IndexOf(secs, kind);
            Find(f, kind, n) == if i < n then Extent(OffsetOf(secs, i), secs[i].size) else Extent(0, 0)
  {
    if n > 0 {
      FindBack(f, secs, kind, n - 1);
      IndexOfKind(secs, n - 1);
      FindOneMore(f, kind, n, Rec(secs[n - 1].kind, OffsetOf(secs, n - 1), secs[n - 1].size, 0));
    }
  }

  lemma FindOneMore(f: seq<Byte>, kind: u32, n: nat, r: Rec)
    requires TableInside(f) && 0 < n <= Count(f) && RecAt(f, n - 1) == r
    ensures Find(f, kind, n) == if r.kind == kind then Extent(r.off, r.size) else Find(f, kind, n - 1)
  {
  }

  // CODE and FUNCS are whole words, and FUNCS is not empty.
  ghost predicate WholeWords(secs: seq<Section>) {
    && (forall j :: 0 <= j < |secs| && secs[j].kind == FUNCS ==> secs[j].size > 0 && secs[j].size % 4 == 0)
    && (forall j :: 0 <= j < |secs| && secs[j].kind == CODE ==> secs[j].size % 4 == 0)
  }

  // There is code, if there is a CODE section, among the sections from i on.
  ghost predicate CodeFrom(secs: seq<Section>, i: nat) {
    forall j :: i <= j < |secs| && secs[j].kind == CODE ==> secs[j].size > 0
  }

  // Every section but an empty CODE passes the scan.
  lemma RecordGood(f: seq<Byte>, secs: seq<Section>, i: nat)
    requires Recorded(f, secs) && InFile(f, secs) && Proper(secs) && WholeWords(secs) && i < |secs|
    ensures RecFault(f, i) == if secs[i].kind == CODE && secs[i].size == 0 then Some(BadSection) else None
  {
    HasBack(f, secs, secs[i].kind, i);
  }

  lemma {:induction false} TableGood(f: seq<Byte>, secs: seq<Section>, i: nat)
    requires Recorded(f, secs) && InFile(f, secs) && Proper(secs) && WholeWords(secs) && i <= |secs|
    ensures TableFault(f, i).None? <==> CodeFrom(secs, i)
    decreases |secs| - i
  {
    if i < |secs| {
      RecordGood(f, secs, i);
      TableGood(f, secs, i + 1);
    }
  }

  // The section of a kind.
  function Lookup(secs: seq<Section>, kind: u32): Option<Section> {
    if secs == [] then None else if secs[0].kind == kind then Some(secs[0]) else Lookup(secs[1..], kind)
  }

  lemma {:induction false} LookupIndex(secs: seq<Section>, kind: u32)
    ensures var i := IndexOf(secs, kind);
            Lookup(secs, kind) == if i < |secs| then Some(secs[i]) else None
  {
    if secs != [] && secs[0].kind != kind { LookupIndex(secs[1..], kind); }
  }

  // What the loader finds of a kind: the section written, or nothing.
  lemma SectionBack(entry: u32, secs: seq<Section>, kind: u32)
    requires Fits(secs) && Proper(secs) && Scanned(Assemble(entry, secs))
    ensures Back(Assemble(entry, secs), Located(Assemble(entry, secs), kind), Lookup(secs, kind))
  {
    var i := IndexOf(secs, kind);
    LookupIndex(secs, kind);
    TableBack(entry, secs);
    FindBack(Assemble(entry, secs), secs, kind, |secs|);
    if i < |secs| && secs[i].stored { PayloadBack(entry, secs, i); }
  }

  ghost predicate Back(f: seq<Byte>, e: Extent, s: Option<Section>) {
    match s
    case None => e == Extent(0, 0)
    case Some(s) => e.size == s.size && (s.stored ==> Holds(f, e, s.payload))
  }

  // A section's payload, found again.
  ghost predicate Holds(f: seq<Byte>, e: Extent, payload: seq<Byte>) {
    e.size == |payload| && Sits(f, e.off, payload)
  }

  // ----- Optional sections ------------------------------------------------------------------------

  // The sections that are not empty.
  function Present(secs: seq<Section>): seq<Section> {
    if secs == [] then [] else (if secs[0].size > 0 then [secs[0]] else []) + Present(secs[1..])
  }

  ghost predicate KindsAbove(secs: seq<Section>, kind: u32) {
    forall i :: 0 <= i < |secs| ==> kind < secs[i].kind
  }

  lemma {:induction false} PresentProper(secs: seq<Section>, kind: u32)
    requires Proper(secs) && KindsAbove(secs, kind)
    ensures Proper(Present(secs)) && KindsAbove(Present(secs), kind)
  {
    if secs != [] {
      PresentProper(secs[1..], secs[0].kind);
      if secs[0].size > 0 { ConsProper(secs[0], Present(secs[1..])); }
    }
  }

  lemma ConsProper(s: Section, secs: seq<Section>)
    requires Proper([s]) && Proper(secs) && KindsAbove(secs, s.kind)
    ensures Proper([s] + secs) && forall k: u32 :: k < s.kind ==> KindsAbove([s] + secs, k)
  {
  }

  lemma {:induction false} LookupAbove(secs: seq<Section>, kind: u32)
    requires KindsAbove(secs, kind)
    ensures Lookup(secs, kind) == None
  {
    if secs != [] { LookupAbove(secs[1..], kind); }
  }

  lemma {:induction false} LookupAt(secs: seq<Section>, k: nat)
    requires Proper(secs) && k < |secs|
    ensures Lookup(secs, secs[k].kind) == Some(secs[k])
  {
    if k > 0 { LookupAt(secs[1..], k - 1); }
  }

  // Leaving out empty sections leaves the others to be found.
  lemma {:induction false} LookupPresent(secs: seq<Section>, kind: u32)
    requires Proper(secs)
    ensures var s := Lookup(secs, kind);
            Lookup(Present(secs), kind) == if s.Some? && s.value.size > 0 then s else None
  {
    if secs != [] {
      LookupPresent(secs[1..], kind);
      if secs[0].kind == kind { LookupAbove(secs[1..], kind); }
      if secs[0].size > 0 {
        assert Present(secs)[0] == secs[0] && Present(secs)[1..] == Present(secs[1..]);
      } else {
        assert Present(secs) == Present(secs[1..]);
      }
    }
  }
}
