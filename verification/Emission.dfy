// Emitting a function: its blocks in order, each body followed by its terminator in
// the layout its phi moves call for.
module Emission {
  import opened Machine
  import opened Ssa
  import opened PhiCopy
  import opened Assembly
  import opened Relaxation
  import opened Lowering
  import opened Placement
  import opened Conditions
  import opened Branches
  import opened Dispatch
  import opened SwitchRuns
  import opened Simulation
  import opened CodeGen

  // ----- Growing a program --------------------------------------------------------------------

  ghost predicate Built(a: Asm) {
    WellFormedAsm(a) && LocalsSafe(a)
  }

  ghost predicate FixedIn(fs: seq<Fixup>, pos: int) {
    exists i :: 0 <= i < |fs| && fs[i].pos == pos
  }

  // A segment to be placed at base with its fixups: they mark its branches, and its
  // other branches stay inside it without crossing an 8-bit one.
  ghost predicate SegmentOk(base: nat, seg: seq<Instr>, fs: seq<Fixup>, blocks: nat) {
    && (forall i :: 0 <= i < |fs| ==>
          && base <= fs[i].pos < base + |seg| && fs[i].target < blocks
          && IsBranch(seg[fs[i].pos - base]) && seg[fs[i].pos - base].off == 0
          && fs[i].bits == (if seg[fs[i].pos - base].Jmp? then 24 else 8))
    && (forall i, j :: 0 <= i < j < |fs| ==> fs[i].pos != fs[j].pos)
    && (forall j :: 0 <= j < |seg| && IsBranch(seg[j]) && !FixedIn(fs, base + j) ==> StaysInside(base, seg, fs, j))
  }

  ghost predicate StaysInside(base: nat, seg: seq<Instr>, fs: seq<Fixup>, j: nat)
    requires j < |seg| && IsBranch(seg[j])
  {
    var t := FieldTarget(seg[j], base + j);
    && base <= t <= base + |seg|
    && forall i :: 0 <= i < |fs| && fs[i].bits == 8 ==>
         !(base + j + 1 <= fs[i].pos < t) && !(t <= fs[i].pos < base + j + 1)
  }

  function Append(a: Asm, seg: seq<Instr>, fs: seq<Fixup>): Asm {
    a.(code := a.code + seg, fixups := a.fixups + fs)
  }

  lemma AppendWellFormed(a: Asm, seg: seq<Instr>, fs: seq<Fixup>)
    requires WellFormedAsm(a) && SegmentOk(|a.code|, seg, fs, |a.offsets|)
    ensures WellFormedAsm(Append(a, seg, fs))
  {
    var a' := Append(a, seg, fs);
    forall i | 0 <= i < |a'.fixups|
      ensures FixupOk(a', a'.fixups[i])
    {
      if i < |a.fixups| {
        assert FixupOk(a, a.fixups[i]);
      }
    }
    forall i, j | 0 <= i < j < |a'.fixups|
      ensures a'.fixups[i].pos != a'.fixups[j].pos
    {
      if i < |a.fixups| {
        assert FixupOk(a, a.fixups[i]);
      }
    }
  }

  lemma AppendHasFixup(a: Asm, seg: seq<Instr>, fs: seq<Fixup>, p: nat)
    requires WellFormedAsm(a) && SegmentOk(|a.code|, seg, fs, |a.offsets|)
    ensures HasFixup(Append(a, seg, fs), p) <==> HasFixup(a, p) || FixedIn(fs, p)
    ensures p < |a.code| ==> !FixedIn(fs, p)
    ensures p >= |a.code| ==> !HasFixup(a, p)
  {
    var a' := Append(a, seg, fs);
    if i :| 0 <= i < |a.fixups| && a.fixups[i].pos == p {
      assert a'.fixups[i].pos == p;
      assert FixupOk(a, a.fixups[i]);
    }
    if i :| 0 <= i < |fs| && fs[i].pos == p {
      assert a'.fixups[|a.fixups| + i].pos == p;
    }
    if i :| 0 <= i < |a'.fixups| && a'.fixups[i].pos == p {
      if i >= |a.fixups| {
        assert fs[i - |a.fixups|].pos == p;
      }
    }
  }

  lemma AppendCandidate(a: Asm, seg: seq<Instr>, fs: seq<Fixup>, c: int)
    requires WellFormedAsm(a) && SegmentOk(|a.code|, seg, fs, |a.offsets|) && c in Candidates(Append(a, seg, fs))
    ensures if c < |a.code| then c in Candidates(a) else exists i :: 0 <= i < |fs| && fs[i].bits == 8 && fs[i].pos == c
  {
    var a' := Append(a, seg, fs);
    var i :| 0 <= i < |a'.fixups| && a'.fixups[i].bits == 8 && a'.fixups[i].pos == c;
    if i < |a.fixups| {
      assert FixupOk(a, a.fixups[i]);
    } else {
      assert fs[i - |a.fixups|].pos == c;
    }
  }

  // Appending a sound segment keeps every local branch safe from relaxation.
  lemma AppendBuilt(a: Asm, seg: seq<Instr>, fs: seq<Fixup>)
    requires Built(a) && SegmentOk(|a.code|, seg, fs, |a.offsets|)
    ensures Built(Append(a, seg, fs))
  {
    var a' := Append(a, seg, fs);
    AppendWellFormed(a, seg, fs);
    forall p | 0 <= p < |a'.code| && IsBranch(a'.code[p]) && !HasFixup(a', p)
      ensures 0 <= FieldTarget(a'.code[p], p) <= |a'.code|
      ensures forall c :: c in Candidates(a') ==>
                !(p + 1 <= c < FieldTarget(a'.code[p], p)) && !(FieldTarget(a'.code[p], p) <= c < p + 1)
    {
      AppendHasFixup(a, seg, fs, p);
      LocalStaysSafe(a, seg, fs, p);
    }
  }

  lemma LocalStaysSafe(a: Asm, seg: seq<Instr>, fs: seq<Fixup>, p: nat)
    requires Built(a) && SegmentOk(|a.code|, seg, fs, |a.offsets|) && p < |a.code| + |seg|
    requires var i := (a.code + seg)[p];
             IsBranch(i) && (if p < |a.code| then !HasFixup(a, p) else !FixedIn(fs, p))
    ensures var t := FieldTarget((a.code + seg)[p], p);
            && 0 <= t <= |a.code| + |seg|
            && forall c :: c in Candidates(Append(a, seg, fs)) ==> !(p + 1 <= c < t) && !(t <= c < p + 1)
  {
    var t := FieldTarget((a.code + seg)[p], p);
    if p >= |a.code| {
      assert StaysInside(|a.code|, seg, fs, p - |a.code|);
    }
    forall c | c in Candidates(Append(a, seg, fs))
      ensures !(p + 1 <= c < t) && !(t <= c < p + 1)
    {
      AppendCandidate(a, seg, fs, c);
    }
  }

  // ----- A block's place survives what is emitted after it --------------------------------------

  ghost predicate Extends(a: Asm, a': Asm) {
    && a.code <= a'.code && a.fixups <= a'.fixups && a.tables <= a'.tables
    && forall i :: |a.fixups| <= i < |a'.fixups| ==> a'.fixups[i].pos >= |a.code|
  }

  lemma ExtendsTwice(a: Asm, a1: Asm, a2: Asm)
    requires Extends(a, a1) && Extends(a1, a2)
    ensures Extends(a, a2)
  {
  }

  lemma NoFixupKept(a: Asm, a': Asm, p: nat)
    requires Extends(a, a') && p < |a.code| && !HasFixup(a, p)
    ensures !HasFixup(a', p)
  {
    forall i | 0 <= i < |a'.fixups|
      ensures a'.fixups[i].pos != p
    {
      if i < |a.fixups| {
        assert a.fixups[i].pos != p;
      }
    }
  }

  lemma CodeAtKept(a: Asm, a': Asm, pos: nat, seg: seq<Instr>)
    requires CodeAt(a, pos, seg) && Extends(a, a')
    ensures CodeAt(a', pos, seg)
  {
  }

  lemma FixupKept(a: Asm, a': Asm, x: Fixup)
    requires x in a.fixups && Extends(a, a')
    ensures x in a'.fixups
  {
    var i :| 0 <= i < |a.fixups| && a.fixups[i] == x;
    assert a'.fixups[i] == x;
  }

  lemma SideAtKept(a: Asm, a': Asm, pos: nat, moves: seq<Instr>, to: nat)
    requires SideAt(a, pos, moves, to) && Extends(a, a')
    ensures SideAt(a', pos, moves, to)
  {
    CodeAtKept(a, a', pos, moves);
    FixupKept(a, a', Fixup(pos + |moves|, to, 24));
  }

  lemma SkipAtKept(a: Asm, a': Asm, p: nat, reg: nat, n: nat)
    requires SkipAt(a, p, reg, n) && Extends(a, a')
    ensures SkipAt(a', p, reg, n)
  {
    NoFixupKept(a, a', p);
    NoFixupKept(a, a', p + 1);
  }

  lemma ShapeAtKept(a: Asm, a': Asm, pos: nat, s: Shape, t: Term)
    requires Suits(s, t) && ShapeAt(a, pos, s, t) && Extends(a, a')
    ensures ShapeAt(a', pos, s, t)
  {
    if s.JumpShape? {
      SideAtKept(a, a', pos, s.moves, t.target);
    } else if s.TwoSided? {
      var p := pos + |s.cond.code|;
      CodeAtKept(a, a', pos, s.cond.code);
      SkipAtKept(a, a', p, s.cond.reg, |s.falseMoves| + 1);
      SideAtKept(a, a', p + 2, s.falseMoves, t.ifFalse);
      SideAtKept(a, a', p + 3 + |s.falseMoves|, s.trueMoves, t.ifTrue);
    } else if s.OneSided? {
      var p := pos + |s.cond.code|;
      CodeAtKept(a, a', pos, s.cond.code);
      FixupKept(a, a', Fixup(p, Successor(t, !s.trueFalls), 8));
      SideAtKept(a, a', p + 1, s.moves, Successor(t, s.trueFalls));
    }
  }

  lemma {:induction false} ChainAtKept(a: Asm, a': Asm, p: nat, cases: seq<Case>, reg: nat, h: nat, otherwise: nat)
    requires ChainAt(a, p, cases, reg, h, otherwise) && Extends(a, a')
    ensures ChainAt(a', p, cases, reg, h, otherwise)
    decreases |cases|
  {
    if cases == [] {
      SideAtKept(a, a', p, [], otherwise);
    } else {
      CaseAtKept(a, a', p, cases[0], reg, h);
      ChainAtKept(a, a', p + |CaseTest(cases[0].value, reg, h)| + 1, cases[1..], reg, h, otherwise);
    }
  }

  lemma CaseAtKept(a: Asm, a': Asm, p: nat, c: Case, reg: nat, h: nat)
    requires CaseAt(a, p, c, reg, h) && Extends(a, a')
    ensures CaseAt(a', p, c, reg, h)
  {
    CodeAtKept(a, a', p, CaseTest(c.value, reg, h));
    FixupKept(a, a', Fixup(p + |CaseTest(c.value, reg, h)|, c.target, 8));
  }

  lemma JumpAtKept(a: Asm, a': Asm, p: nat, k: nat, base: nat, h: nat, otherwise: nat)
    requires JumpAt(a, p, k, base, h, otherwise) && Extends(a, a')
    ensures JumpAt(a', p, k, base, h, otherwise)
  {
    NoFixupKept(a, a', p);
    CodeAtKept(a, a', p + 1, Nops(k));
    SideAtKept(a, a', p + 2 + k, [], otherwise);
  }

  lemma TableKept(a: Asm, a': Asm, x: TableFixup)
    requires x in a.tables && Extends(a, a')
    ensures x in a'.tables
  {
    var i :| 0 <= i < |a.tables| && a.tables[i] == x;
    assert a'.tables[i] == x;
  }

  lemma TableAtKept(a: Asm, a': Asm, p: nat, least: int, targets: seq<nat>, base: nat, reg: nat, h: nat, otherwise: nat)
    requires TableAt(a, p, least, targets, base, reg, h, otherwise) && Extends(a, a')
    ensures TableAt(a', p, least, targets, base, reg, h, otherwise)
  {
    var head := Distance(least, |targets|, reg, h);
    CodeAtKept(a, a', p, head);
    JumpAtKept(a, a', p + |head|, AddressWords(base), base, h, otherwise);
    forall i | 0 <= i < |targets|
      ensures TableFixup(base + 4 * i, targets[i]) in a'.tables
    {
      TableKept(a, a', TableFixup(base + 4 * i, targets[i]));
    }
  }

  lemma SwitchAtKept(a: Asm, a': Asm, pos: nat, s: SwitchCode, t: Term)
    requires t.Switch? && SwitchAt(a, pos, s, t) && Extends(a, a')
    ensures SwitchAt(a', pos, s, t)
  {
    var p := pos + |s.cond.code + s.moves|;
    CodeAtKept(a, a', pos, s.cond.code + s.moves);
    match s.dispatch
    case Chain => ChainAtKept(a, a', p, t.cases, s.cond.reg, s.h, t.otherwise);
    case Table(least, targets) => TableAtKept(a, a', p, least, targets, s.base, s.cond.reg, s.h, t.otherwise);
  }

  lemma EndingAtKept(a: Asm, a': Asm, pos: nat, x: Ending, t: Term)
    requires EndSuits(x, t) && EndingAt(a, pos, x, t) && Extends(a, a')
    ensures EndingAt(a', pos, x, t)
  {
    if t.Switch? {
      SwitchAtKept(a, a', pos, x.code, t);
    } else {
      ShapeAtKept(a, a', pos, x.shape, t);
    }
  }

  lemma BlockAtKept(a: Asm, a': Asm, b: nat, body: seq<Instr>, x: Ending, t: Term)
    requires BlockAt(a, b, body, x, t) && Extends(a, a')
    requires b < |a'.offsets| && a'.offsets[b] == a.offsets[b]
    ensures BlockAt(a', b, body, x, t)
  {
    var pos := a.offsets[b];
    CodeAtKept(a, a', pos, body);
    EndingAtKept(a, a', pos + |body|, x, t);
  }

  // ----- Appending each piece -----------------------------------------------------------------------

  lemma AppendExtends(a: Asm, seg: seq<Instr>, fs: seq<Fixup>)
    requires SegmentOk(|a.code|, seg, fs, |a.offsets|)
    ensures Extends(a, Append(a, seg, fs))
    ensures CodeAt(Append(a, seg, fs), |a.code|, seg)
  {
  }

  lemma StraightAppended(a: Asm, seg: seq<Instr>)
    requires Built(a) && StraightLine(seg)
    ensures var a' := a.(code := a.code + seg);
            Built(a') && Extends(a, a') && CodeAt(a', |a.code|, seg)
  {
    assert a.fixups + [] == a.fixups;
    assert Append(a, seg, []) == a.(code := a.code + seg);
    AppendBuilt(a, seg, []);
    AppendExtends(a, seg, []);
  }

  lemma RetAppended(a: Asm, x: Arg)
    requires Built(a)
    ensures var a' := a.(code := a.code + [Ret(x)]);
            Built(a') && Extends(a, a') && InstrAt(a', |a.code|, Ret(x))
  {
    assert a.fixups + [] == a.fixups;
    assert Append(a, [Ret(x)], []) == a.(code := a.code + [Ret(x)]);
    AppendBuilt(a, [Ret(x)], []);
    AppendExtends(a, [Ret(x)], []);
  }

  lemma SideAppended(a: Asm, moves: seq<Instr>, to: nat)
    requires Built(a) && StraightLine(moves) && to < |a.offsets|
    ensures var a' := Append(a, moves + [Jmp(0)], [Fixup(|a.code| + |moves|, to, 24)]);
            Built(a') && Extends(a, a') && SideAt(a', |a.code|, moves, to)
  {
    var seg, fs := moves + [Jmp(0)], [Fixup(|a.code| + |moves|, to, 24)];
    assert fs[0].pos == |a.code| + |moves|;
    AppendBuilt(a, seg, fs);
    AppendExtends(a, seg, fs);
    assert fs[0] in Append(a, seg, fs).fixups;
    assert seg[|moves|] == Jmp(0);
    forall i | 0 <= i < |moves|
      ensures Append(a, seg, fs).code[|a.code| + i] == moves[i]
    {
      assert seg[i] == moves[i];
    }
  }

  lemma TestAppended(a: Asm, test: Instr, far: nat)
    requires Built(a) && (test.Beq? || test.Bne?) && test.off == 0 && far < |a.offsets|
    ensures var a' := Append(a, [test], [Fixup(|a.code|, far, 8)]);
            Built(a') && Extends(a, a') && InstrAt(a', |a.code|, test) && Fixup(|a.code|, far, 8) in a'.fixups
  {
    var fs := [Fixup(|a.code|, far, 8)];
    assert fs[0].pos == |a.code|;
    AppendBuilt(a, [test], fs);
    AppendExtends(a, [test], fs);
    assert fs[0] in Append(a, [test], fs).fixups;
  }

  // The false section of the two-sided layout. Between its skip and the skip's target,
  // the end of the section, lie only moves and a 24-bit jump.
  function FalseSection(reg: nat, moves: seq<Instr>): seq<Instr> {
    [Beq(reg, REG_ZERO, 1), Jmp(|moves| + 1)] + moves + [Jmp(0)]
  }

  lemma FalseSectionOk(base: nat, reg: nat, moves: seq<Instr>, to: nat, blocks: nat)
    requires StraightLine(moves) && |moves| + 1 <= 0x7F_FFFF && to < blocks
    ensures SegmentOk(base, FalseSection(reg, moves), [Fixup(base + 2 + |moves|, to, 24)], blocks)
    ensures !FixedIn([Fixup(base + 2 + |moves|, to, 24)], base) && !FixedIn([Fixup(base + 2 + |moves|, to, 24)], base + 1)
  {
    var seg, fs := FalseSection(reg, moves), [Fixup(base + 2 + |moves|, to, 24)];
    assert fs[0].pos == base + 2 + |moves|;
    forall j | 2 <= j < 2 + |moves|
      ensures !IsBranch(seg[j])
    {
      assert seg[j] == moves[j - 2];
    }
    assert StaysInside(base, seg, fs, 0);
    assert StaysInside(base, seg, fs, 1);
  }

  lemma FalseSectionAppends(a: Asm, reg: nat, moves: seq<Instr>, to: nat)
    requires Built(a) && StraightLine(moves) && |moves| + 1 <= 0x7F_FFFF && to < |a.offsets|
    ensures var a' := Append(a, FalseSection(reg, moves), [Fixup(|a.code| + 2 + |moves|, to, 24)]);
            && Built(a') && Extends(a, a') && CodeAt(a', |a.code|, FalseSection(reg, moves))
            && !HasFixup(a', |a.code|) && !HasFixup(a', |a.code| + 1) && Fixup(|a.code| + 2 + |moves|, to, 24) in a'.fixups
  {
    var seg, fs := FalseSection(reg, moves), [Fixup(|a.code| + 2 + |moves|, to, 24)];
    FalseSectionOk(|a.code|, reg, moves, to, |a.offsets|);
    AppendBuilt(a, seg, fs);
    AppendExtends(a, seg, fs);
    AppendHasFixup(a, seg, fs, |a.code|);
    AppendHasFixup(a, seg, fs, |a.code| + 1);
    assert fs[0] in Append(a, seg, fs).fixups;
  }

  lemma FalseSectionAppended(a: Asm, reg: nat, moves: seq<Instr>, to: nat)
    requires Built(a) && StraightLine(moves) && |moves| + 1 <= 0x7F_FFFF && to < |a.offsets|
    ensures var a' := Append(a, FalseSection(reg, moves), [Fixup(|a.code| + 2 + |moves|, to, 24)]);
            && Built(a') && Extends(a, a')
            && SkipAt(a', |a.code|, reg, |moves| + 1) && SideAt(a', |a.code| + 2, moves, to)
  {
    FalseSectionAppends(a, reg, moves, to);
    FalseSectionParts(Append(a, FalseSection(reg, moves), [Fixup(|a.code| + 2 + |moves|, to, 24)]), |a.code|, reg, moves);
  }

  // The instructions of a false section that sits at p.
  lemma FalseSectionParts(a: Asm, p: nat, reg: nat, moves: seq<Instr>)
    requires CodeAt(a, p, FalseSection(reg, moves))
    ensures InstrAt(a, p, Beq(reg, REG_ZERO, 1)) && InstrAt(a, p + 1, Jmp(|moves| + 1))
    ensures CodeAt(a, p + 2, moves) && InstrAt(a, p + 2 + |moves|, Jmp(0))
  {
    var seg := FalseSection(reg, moves);
    assert seg[0] == Beq(reg, REG_ZERO, 1) && seg[1] == Jmp(|moves| + 1) && seg[2 + |moves|] == Jmp(0);
    assert a.code[p + 0] == seg[0] && a.code[p + 1] == seg[1] && a.code[p + (2 + |moves|)] == seg[2 + |moves|];
    forall i | 0 <= i < |moves|
      ensures a.code[p + 2 + i] == moves[i]
    {
      assert a.code[p + (2 + i)] == seg[2 + i] == moves[i];
    }
  }

  // ----- The dispatch of a switch -------------------------------------------------------------------

  // Where comparison n of a chain starts.
  function TestStart(cases: seq<Case>, n: nat, reg: nat, h: nat): nat
    requires n <= |cases|
  {
    if n == 0 then 0 else TestStart(cases, n - 1, reg, h) + |CaseTest(cases[n - 1].value, reg, h)| + 1
  }

  ghost predicate ComparisonAt(a: Asm, p: nat, cases: seq<Case>, i: nat, reg: nat, h: nat)
    requires i < |cases|
  {
    CaseAt(a, p + TestStart(cases, i, reg, h), cases[i], reg, h)
  }

  // The first n comparisons of a chain.
  ghost predicate ComparisonsAt(a: Asm, p: nat, cases: seq<Case>, n: nat, reg: nat, h: nat)
    requires n <= |cases|
  {
    forall i :: 0 <= i < n ==> ComparisonAt(a, p, cases, i, reg, h)
  }

  lemma ComparisonsKept(a: Asm, a': Asm, p: nat, cases: seq<Case>, n: nat, reg: nat, h: nat)
    requires n <= |cases| && ComparisonsAt(a, p, cases, n, reg, h) && Extends(a, a')
    ensures ComparisonsAt(a', p, cases, n, reg, h)
  {
    forall i | 0 <= i < n
      ensures ComparisonAt(a', p, cases, i, reg, h)
    {
      assert ComparisonAt(a, p, cases, i, reg, h);
      CaseAtKept(a, a', p + TestStart(cases, i, reg, h), cases[i], reg, h);
    }
  }

  lemma OneMoreTest(a: Asm, a': Asm, p: nat, cases: seq<Case>, n: nat, reg: nat, h: nat)
    requires n < |cases| && ComparisonsAt(a, p, cases, n, reg, h) && Extends(a, a') && ComparisonAt(a', p, cases, n, reg, h)
    ensures ComparisonsAt(a', p, cases, n + 1, reg, h)
  {
    ComparisonsKept(a, a', p, cases, n, reg, h);
  }

  lemma CaseThenChain(a: Asm, p: nat, cases: seq<Case>, i: nat, q: nat, next: nat, reg: nat, h: nat, otherwise: nat)
    requires i < |cases| && ComparisonsAt(a, p, cases, |cases|, reg, h) && q == p + TestStart(cases, i, reg, h)
    requires next == q + |CaseTest(cases[i].value, reg, h)| + 1 && ChainAt(a, next, cases[i + 1..], reg, h, otherwise)
    ensures ChainAt(a, q, cases[i..], reg, h, otherwise)
  {
    assert ComparisonAt(a, p, cases, i, reg, h);
    assert cases[i..][0] == cases[i] && cases[i..][1..] == cases[i + 1..];
  }

  // All comparisons, then the jump to the default, at `end`.
  lemma {:induction false} TestsAreChain(a: Asm, p: nat, cases: seq<Case>, i: nat, q: nat, reg: nat, h: nat, otherwise: nat, end: nat)
    requires i <= |cases| && ComparisonsAt(a, p, cases, |cases|, reg, h) && SideAt(a, end, [], otherwise)
    requires q == p + TestStart(cases, i, reg, h) && end == p + TestStart(cases, |cases|, reg, h)
    ensures ChainAt(a, q, cases[i..], reg, h, otherwise)
    decreases |cases| - i
  {
    if i < |cases| {
      var next := p + TestStart(cases, i + 1, reg, h);
      NextTest(cases, i, reg, h);
      TestsAreChain(a, p, cases, i + 1, next, reg, h, otherwise, end);
      CaseThenChain(a, p, cases, i, q, next, reg, h, otherwise);
    } else {
      NoCasesLeft(a, q, cases, reg, h, otherwise);
    }
  }

  lemma NextTest(cases: seq<Case>, i: nat, reg: nat, h: nat)
    requires i < |cases|
    ensures TestStart(cases, i + 1, reg, h) == TestStart(cases, i, reg, h) + |CaseTest(cases[i].value, reg, h)| + 1
  {
  }

  lemma NoCasesLeft(a: Asm, q: nat, cases: seq<Case>, reg: nat, h: nat, otherwise: nat)
    requires SideAt(a, q, [], otherwise)
    ensures ChainAt(a, q, cases[|cases|..], reg, h, otherwise)
  {
  }

  // The test that skips the jump through the table, that jump, and the jump to the default.
  function JumpSection(k: nat, base: nat, h: nat): seq<Instr> {
    [Beq(h + 3, REG_ZERO, k + 1)] + Nops(k) + [JmpTable(h + 1, base), Jmp(0)]
  }

  lemma JumpSectionOk(at: nat, k: nat, base: nat, h: nat, to: nat, blocks: nat)
    requires k < 0x7F && to < blocks
    ensures SegmentOk(at, JumpSection(k, base, h), [Fixup(at + 2 + k, to, 24)], blocks)
    ensures !FixedIn([Fixup(at + 2 + k, to, 24)], at)
  {
    var seg, fs := JumpSection(k, base, h), [Fixup(at + 2 + k, to, 24)];
    assert fs[0].pos == at + 2 + k;
    forall j | 1 <= j < 1 + k
      ensures !IsBranch(seg[j])
    {
      assert seg[j] == Nops(k)[j - 1];
    }
    assert StaysInside(at, seg, fs, 0);
  }

  lemma JumpSectionParts(a: Asm, p: nat, k: nat, base: nat, h: nat)
    requires CodeAt(a, p, JumpSection(k, base, h))
    ensures InstrAt(a, p, Beq(h + 3, REG_ZERO, k + 1)) && CodeAt(a, p + 1, Nops(k))
    ensures InstrAt(a, p + 1 + k, JmpTable(h + 1, base)) && InstrAt(a, p + 2 + k, Jmp(0))
  {
    var seg := JumpSection(k, base, h);
    assert a.code[p + 0] == seg[0] && a.code[p + (1 + k)] == seg[1 + k] && a.code[p + (2 + k)] == seg[2 + k];
    forall i | 0 <= i < k
      ensures a.code[p + 1 + i] == Nops(k)[i]
    {
      assert a.code[p + (1 + i)] == seg[1 + i] == Nops(k)[i];
    }
  }

  lemma JumpSits(a: Asm, p: nat, k: nat, base: nat, h: nat, to: nat)
    requires CodeAt(a, p, JumpSection(k, base, h)) && !HasFixup(a, p) && Fixup(p + 2 + k, to, 24) in a.fixups
    ensures JumpAt(a, p, k, base, h, to)
  {
    JumpSectionParts(a, p, k, base, h);
    var none: seq<Instr> := [];
    assert p + 2 + k + |none| == p + 2 + k;
  }

  lemma JumpAppends(a: Asm, k: nat, base: nat, h: nat, to: nat)
    requires Built(a) && k < 0x7F && to < |a.offsets|
    ensures var a' := Append(a, JumpSection(k, base, h), [Fixup(|a.code| + 2 + k, to, 24)]);
            && Built(a') && Extends(a, a') && CodeAt(a', |a.code|, JumpSection(k, base, h))
            && !HasFixup(a', |a.code|) && Fixup(|a.code| + 2 + k, to, 24) in a'.fixups
  {
    var seg, fs := JumpSection(k, base, h), [Fixup(|a.code| + 2 + k, to, 24)];
    JumpSectionOk(|a.code|, k, base, h, to, |a.offsets|);
    AppendBuilt(a, seg, fs);
    AppendExtends(a, seg, fs);
    AppendHasFixup(a, seg, fs, |a.code|);
    assert fs[0] in Append(a, seg, fs).fixups;
  }

  lemma JumpAppended(a: Asm, k: nat, base: nat, h: nat, to: nat, a': Asm)
    requires Built(a) && k < 0x7F && to < |a.offsets| && a' == Append(a, JumpSection(k, base, h), [Fixup(|a.code| + 2 + k, to, 24)])
    ensures Built(a') && Extends(a, a') && JumpAt(a', |a.code|, k, base, h, to)
  {
    JumpAppends(a, k, base, h, to);
    JumpSits(a', |a.code|, k, base, h, to);
  }

  // The words of every table lie below the end of DATA.
  ghost predicate TablesBelow(tables: seq<TableFixup>, end: nat) {
    forall i :: 0 <= i < |tables| ==> tables[i].dataOff + 4 <= end
  }

  function TableWords(base: nat, targets: seq<nat>, n: nat): (ts: seq<TableFixup>)
    requires n <= |targets|
    ensures |ts| == n && forall i :: 0 <= i < n ==> ts[i] == TableFixup(base + 4 * i, targets[i])
  {
    seq(n, i requires 0 <= i < n => TableFixup(base + 4 * i, targets[i]))
  }

  lemma TablesAppended(a: Asm, base: nat, targets: seq<nat>)
    requires Built(a) && TablesBelow(a.tables, base) && forall t :: t in targets ==> t < |a.offsets|
    ensures var a' := a.(tables := a.tables + TableWords(base, targets, |targets|));
            Built(a') && Extends(a, a') && TablesBelow(a'.tables, base + 4 * |targets|)
  {
    var words := TableWords(base, targets, |targets|);
    var a' := a.(tables := a.tables + words);
    forall i | 0 <= i < |a'.fixups|
      ensures FixupOk(a', a'.fixups[i])
    {
      assert FixupOk(a, a.fixups[i]);
    }
    forall i | 0 <= i < |a'.tables|
      ensures a'.tables[i].target < |a'.offsets| && a'.tables[i].dataOff + 4 <= base + 4 * |targets|
    {
      if i >= |a.tables| {
        assert words[i - |a.tables|].target in targets;
      }
    }
    assert Candidates(a') == Candidates(a);
    forall p | 0 <= p < |a'.code|
      ensures HasFixup(a', p) <==> HasFixup(a, p)
    {
    }
  }
}
