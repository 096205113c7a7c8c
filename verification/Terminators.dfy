// Emitting the terminators of blocks: the moves of their edges, and branches, switches and returns.
module Terminators {
  import opened Machine
  import opened Ssa
  import opened RegAlloc
  import opened PhiCopy
  import opened Assembly
  import opened Lowering
  import opened Placement
  import opened Conditions
  import opened CopyRuns
  import opened Switches
  import opened Branches
  import opened Dispatch
  import opened SwitchRuns
  import opened Simulation
  import opened Emission
  import opened CodeGen

  const MAX_MOVES: nat := 1024

  // Gathers the moves of an edge, phi by phi.
  method CollectMoves(f: Function, alloc: map<nat, Loc>, from: nat, to: nat) returns (ok: bool, moves: seq<Move>)
    requires to < |f.blocks|
    ensures ok ==> moves == MovesOfEdge(f, alloc, from, to)
    ensures |f.blocks[to].phis| + 1 <= 1024 ==> ok
    ensures ok ==> |moves| < 1024
  {
    var phis := f.blocks[to].phis;
    moves := [];
    for i := 0 to |phis|
      invariant moves == EdgeMovesUpTo(phis, i, from, alloc) && |moves| <= i && |moves| < 1024
    {
      if from in phis[i].incoming {
        if |moves| + 2 > MAX_MOVES {
          return false, moves;
        }
        var dst, src := Place(alloc, phis[i].dst), SourceOf(phis[i].incoming[from], alloc);
        if src != From(dst) {
          moves := moves + [Move(dst, src)];
        }
      }
    }
    ok := true;
  }

  // No edge carries more moves than the buffer for them holds.
  ghost predicate PhisFit(f: Function) {
    forall b :: 0 <= b < |f.blocks| ==> |f.blocks[b].phis| + 1 <= 1024
  }

  // Code of this length or less is resolved even if every instruction of it grows to two.
  const MAX_CODE: nat := 0x3F_FFFF

  // The code of one edge's moves, in the scratch window from h, and where the window starts after
  // the spare and the staging register are taken from it.
  method EmitEdge(f: Function, alloc: map<nat, Loc>, ghost high: nat, frameBase: nat, b: nat, to: nat, h: nat)
    returns (ok: bool, code: seq<Instr>, next: nat)
    requires AllocationOk(f, alloc, high) && Edge(f, b, to) && high <= h <= MAX_EMIT_REG + 1
    ensures ok ==> MovesFor(f, alloc, b, to, code, h, frameBase) && StraightLine(code)
    ensures ok ==> next == (if MovesOfEdge(f, alloc, b, to) == [] then h else h + 2) <= MAX_EMIT_REG + 1
    ensures |f.blocks[to].phis| + 1 <= 1024 && h + 2 <= MAX_EMIT_REG ==> ok
  {
    var moves;
    ok, moves := CollectMoves(f, alloc, b, to);
    if !ok {
      return false, [], h;
    }
    EdgeMovesOk(f, alloc, high, b, to, h);
    ok, code := EmitPhiMoves(moves, h, frameBase);
    next := if moves == [] then h else h + 2;
  }

  predicate HasPhi(f: Function, b: nat)
    requires b < |f.blocks|
  {
    f.blocks[b].phis != []
  }

  // A phi-less block asks for no moves.
  lemma NoPhiNoMoves(f: Function, alloc: map<nat, Loc>, b: nat, to: nat, h: nat, frameBase: nat)
    requires to < |f.blocks| && !HasPhi(f, to)
    ensures MovesFor(f, alloc, b, to, [], h, frameBase)
  {
    forall st: State, env: Env | env.frameBase == frameBase
      ensures IsParallelCopy([], [], h, st, env)
    {
    }
  }

  // The program has grown by well-formed code.
  ghost predicate Grown(a: Asm, a': Asm) {
    Built(a') && Extends(a, a') && a'.offsets == a.offsets
  }

  // An edge's moves and its jump.
  method EmitSide(cg: Cg, moves: seq<Instr>, to: nat)
    requires Built(cg.AsAsm()) && StraightLine(moves) && to < |cg.offsets|
    modifies cg`code, cg`fixups
    ensures Grown(old(cg.AsAsm()), cg.AsAsm()) && SideAt(cg.AsAsm(), |old(cg.code)|, moves, to)
    ensures |cg.code| == |old(cg.code)| + |moves| + 1
  {
    ghost var a := cg.AsAsm();
    cg.code := cg.code + moves;
    cg.QueueFixup(to, 24);
    cg.Emit(Jmp(0));
    SideAppended(a, moves, to);
    assert cg.AsAsm() == Append(a, moves + [Jmp(0)], [Fixup(|a.code| + |moves|, to, 24)]);
  }

  // The false section of the two-sided layout: the test, a skip patched once the length
  // of the false moves is known, those moves and their jump.
  method EmitFalseSection(cg: Cg, moves: seq<Instr>, to: nat, reg: nat) returns (ok: bool)
    requires Built(cg.AsAsm()) && StraightLine(moves) && to < |cg.offsets|
    modifies cg`code, cg`fixups
    ensures ok <==> |moves| + 1 <= 0x7F_FFFF
    ensures ok ==> Grown(old(cg.AsAsm()), cg.AsAsm()) && SkipAt(cg.AsAsm(), |old(cg.code)|, reg, |moves| + 1)
    ensures ok ==> SideAt(cg.AsAsm(), |old(cg.code)| + 2, moves, to)
    ensures ok ==> |cg.code| == |old(cg.code)| + 3 + |moves|
    ensures |cg.code| > |moves|
  {
    ghost var a := cg.AsAsm();
    cg.Emit(Beq(reg, REG_ZERO, 1));
    var skipAt := |cg.code|;
    cg.Emit(Jmp(0));
    ok := EmitSkipped(cg, moves, to, skipAt);
    if ok {
      SkipPatched(a.code, reg, moves);
      assert cg.AsAsm() == Append(a, FalseSection(reg, moves), [Fixup(|a.code| + 2 + |moves|, to, 24)]);
      FalseSectionAppended(a, reg, moves, to);
      FalseSectionSits(a, cg.AsAsm(), reg, moves, to);
    }
  }

  lemma FalseSectionSits(a: Asm, a': Asm, reg: nat, moves: seq<Instr>, to: nat)
    requires Built(a) && StraightLine(moves) && |moves| + 1 <= 0x7F_FFFF && to < |a.offsets|
    requires a' == Append(a, FalseSection(reg, moves), [Fixup(|a.code| + 2 + |moves|, to, 24)])
    ensures Grown(a, a') && SkipAt(a', |a.code|, reg, |moves| + 1) && SideAt(a', |a.code| + 2, moves, to)
  {
    FalseSectionAppended(a, reg, moves, to);
  }

  // The moves the skip jumps over and their jump; then the skip itself, unless too long.
  method EmitSkipped(cg: Cg, moves: seq<Instr>, to: nat, skipAt: nat) returns (ok: bool)
    requires |cg.code| == skipAt + 1
    modifies cg`code, cg`fixups
    ensures ok <==> |moves| + 1 <= 0x7F_FFFF
    ensures ok ==> cg.code == (old(cg.code) + moves + [Jmp(0)])[skipAt := Jmp(|moves| + 1)]
    ensures ok ==> cg.fixups == old(cg.fixups) + [Fixup(|old(cg.code)| + |moves|, to, 24)]
    ensures |cg.code| > |moves|
  {
    cg.code := cg.code + moves;
    cg.QueueFixup(to, 24);
    cg.Emit(Jmp(0));
    var skip := |cg.code| - (skipAt + 1);
    if skip > 0x7F_FFFF {
      return false;
    }
    cg.code := cg.code[skipAt := Jmp(skip)];
    ok := true;
  }

  lemma SkipPatched(code: seq<Instr>, reg: nat, moves: seq<Instr>)
    ensures (code + [Beq(reg, REG_ZERO, 1)] + [Jmp(0)] + moves + [Jmp(0)])[|code| + 1 := Jmp(|moves| + 1)] ==
            code + FalseSection(reg, moves)
  {
  }

  // What emitting a terminator at the end of the code leaves behind.
  ghost predicate TermEmitted(f: Function, alloc: map<nat, Loc>, high: nat, frameBase: nat, b: nat, s: Shape, a: Asm, a': Asm)
    requires b < |f.blocks|
  {
    ShapeOk(f, alloc, high, frameBase, b, s) && Grown(a, a') && ShapeAt(a', |a.code|, s, f.blocks[b].term)
  }

  lemma GrownTwice(a: Asm, a1: Asm, a2: Asm)
    requires Grown(a, a1) && Grown(a1, a2)
    ensures Grown(a, a2)
  {
  }

  // The code that loads the condition.
  method EmitCond(cg: Cg, c: CondCode)
    requires Built(cg.AsAsm()) && StraightLine(c.code)
    modifies cg`code
    ensures Grown(old(cg.AsAsm()), cg.AsAsm()) && CodeAt(cg.AsAsm(), |old(cg.code)|, c.code)
    ensures |cg.code| == |old(cg.code)| + |c.code|
  {
    StraightAppended(cg.AsAsm(), c.code);
    cg.code := cg.code + c.code;
  }

  // The false section behind its skip, then the true side.
  method EmitSections(cg: Cg, falseMoves: seq<Instr>, trueMoves: seq<Instr>, t: Term, reg: nat) returns (ok: bool)
    requires t.CondBr? && t.ifFalse < |cg.offsets| && t.ifTrue < |cg.offsets|
    requires Built(cg.AsAsm()) && StraightLine(falseMoves) && StraightLine(trueMoves)
    modifies cg`code, cg`fixups
    ensures ok <==> |falseMoves| + 1 <= 0x7F_FFFF
    ensures ok ==> Grown(old(cg.AsAsm()), cg.AsAsm())
    ensures ok ==> SectionsAt(cg.AsAsm(), |old(cg.code)|, reg, falseMoves, trueMoves, t)
    ensures ok || |cg.code| > MAX_CODE
  {
    ghost var a1 := cg.AsAsm();
    ok := EmitFalseSection(cg, falseMoves, t.ifFalse, reg);
    if ok {
      ghost var a2 := cg.AsAsm();
      EmitSide(cg, trueMoves, t.ifTrue);
      GrownTwice(a1, a2, cg.AsAsm());
      SkipAtKept(a2, cg.AsAsm(), |a1.code|, reg, |falseMoves| + 1);
      SideAtKept(a2, cg.AsAsm(), |a1.code| + 2, falseMoves, t.ifFalse);
    }
  }

  // Both edges carry moves.
  method PlaceTwoSided(cg: Cg, c: CondCode, falseMoves: seq<Instr>, trueMoves: seq<Instr>, t: Term) returns (ok: bool)
    requires t.CondBr? && t.ifFalse < |cg.offsets| && t.ifTrue < |cg.offsets|
    requires Built(cg.AsAsm()) && StraightLine(c.code) && StraightLine(falseMoves) && StraightLine(trueMoves)
    modifies cg`code, cg`fixups
    ensures ok <==> |falseMoves| + 1 <= 0x7F_FFFF
    ensures ok ==> Grown(old(cg.AsAsm()), cg.AsAsm())
    ensures ok ==> ShapeAt(cg.AsAsm(), |old(cg.code)|, TwoSided(c, falseMoves, trueMoves), t)
    ensures ok || |cg.code| > MAX_CODE
  {
    ghost var a := cg.AsAsm();
    EmitCond(cg, c);
    ghost var a1 := cg.AsAsm();
    ok := EmitSections(cg, falseMoves, trueMoves, t, c.reg);
    if ok {
      TwoSidedDone(a, a1, cg.AsAsm(), TwoSided(c, falseMoves, trueMoves), t);
    }
  }

  ghost predicate SectionsAt(a: Asm, p: nat, reg: nat, fm: seq<Instr>, tm: seq<Instr>, t: Term)
    requires t.CondBr?
  {
    SkipAt(a, p, reg, |fm| + 1) && SideAt(a, p + 2, fm, t.ifFalse) && SideAt(a, p + 3 + |fm|, tm, t.ifTrue)
  }

  lemma TwoSidedDone(a: Asm, a1: Asm, a2: Asm, s: Shape, t: Term)
    requires s.TwoSided? && t.CondBr? && Suits(s, t) && Grown(a, a1) && Grown(a1, a2)
    requires CodeAt(a1, |a.code|, s.cond.code) && |a1.code| == |a.code| + |s.cond.code|
    requires SectionsAt(a2, |a1.code|, s.cond.reg, s.falseMoves, s.trueMoves, t)
    ensures Grown(a, a2) && ShapeAt(a2, |a.code|, s, t)
  {
    GrownTwice(a, a1, a2);
    CodeAtKept(a1, a2, |a.code|, s.cond.code);
  }

  // A test that branches to a move-less successor, then the other edge's moves.
  method PlaceOneSided(cg: Cg, c: CondCode, trueFalls: bool, moves: seq<Instr>, t: Term)
    requires t.CondBr? && t.ifFalse < |cg.offsets| && t.ifTrue < |cg.offsets|
    requires Built(cg.AsAsm()) && StraightLine(c.code) && StraightLine(moves)
    modifies cg`code, cg`fixups
    ensures Grown(old(cg.AsAsm()), cg.AsAsm())
    ensures ShapeAt(cg.AsAsm(), |old(cg.code)|, OneSided(c, trueFalls, moves), t)
  {
    ghost var a := cg.AsAsm();
    EmitCond(cg, c);
    ghost var a1 := cg.AsAsm();
    EmitTest(cg, if trueFalls then Beq(c.reg, REG_ZERO, 0) else Bne(c.reg, REG_ZERO, 0), Successor(t, !trueFalls));
    ghost var a2 := cg.AsAsm();
    EmitSide(cg, moves, Successor(t, trueFalls));
    OneSidedDone(a, a1, a2, cg.AsAsm(), OneSided(c, trueFalls, moves), t);
  }

  method EmitTest(cg: Cg, test: Instr, far: nat)
    requires Built(cg.AsAsm()) && (test.Beq? || test.Bne?) && test.off == 0 && far < |cg.offsets|
    modifies cg`code, cg`fixups
    ensures Grown(old(cg.AsAsm()), cg.AsAsm()) && |cg.code| == |old(cg.code)| + 1
    ensures InstrAt(cg.AsAsm(), |old(cg.code)|, test) && Fixup(|old(cg.code)|, far, 8) in cg.fixups
  {
    TestAppended(cg.AsAsm(), test, far);
    cg.QueueFixup(far, 8);
    cg.Emit(test);
  }

  lemma OneSidedDone(a: Asm, a1: Asm, a2: Asm, a3: Asm, s: Shape, t: Term)
    requires s.OneSided? && t.CondBr? && Grown(a, a1) && Grown(a1, a2) && Grown(a2, a3)
    requires CodeAt(a1, |a.code|, s.cond.code) && |a1.code| == |a.code| + |s.cond.code|
    requires InstrAt(a2, |a1.code|, TestOf(s)) && Fixup(|a1.code|, Successor(t, !s.trueFalls), 8) in a2.fixups
    requires |a2.code| == |a1.code| + 1 && SideAt(a3, |a2.code|, s.moves, Successor(t, s.trueFalls))
    ensures Grown(a, a3) && ShapeAt(a3, |a.code|, s, t)
  {
    GrownTwice(a1, a2, a3);
    GrownTwice(a, a1, a3);
    CodeAtKept(a1, a3, |a.code|, s.cond.code);
    FixupKept(a2, a3, Fixup(|a1.code|, Successor(t, !s.trueFalls), 8));
  }

  // Both successors have phis.
  method EmitTwoSided(cg: Cg, f: Function, alloc: map<nat, Loc>, high: nat, frameBase: nat, b: nat, c: CondCode)
    returns (ok: bool, ghost s: Shape)
    requires AllocationOk(f, alloc, high) && b < |f.blocks| && f.blocks[b].term.CondBr?
    requires c == LoadCond(f.blocks[b].term.cond, alloc, high, frameBase) && c.h <= MAX_EMIT_REG + 1
    requires Built(cg.AsAsm()) && |cg.offsets| == |f.blocks|
    modifies cg`code, cg`fixups
    ensures ok ==> TermEmitted(f, alloc, high, frameBase, b, s, old(cg.AsAsm()), cg.AsAsm())
    ensures PhisFit(f) && c.h + 4 <= MAX_EMIT_REG ==> ok || |cg.code| > MAX_CODE
  {
    var t := f.blocks[b].term;
    assert Edge(f, b, t.ifTrue) && Edge(f, b, t.ifFalse);
    var falseMoves, trueMoves, next;
    s := RetShape(Lit(0));
    ok, falseMoves, next := EmitEdge(f, alloc, high, frameBase, b, t.ifFalse, c.h);
    if !ok {
      return;
    }
    ghost var start := next;
    ok, trueMoves, next := EmitEdge(f, alloc, high, frameBase, b, t.ifTrue, next);
    if ok {
      ok := PlaceTwoSided(cg, c, falseMoves, trueMoves, t);
      s := TwoSided(c, falseMoves, trueMoves);
      if ok {
        TwoSidedOk(f, alloc, high, frameBase, b, s, start);
      }
    }
  }

  lemma TwoSidedOk(f: Function, alloc: map<nat, Loc>, high: nat, frameBase: nat, b: nat, s: Shape, start: nat)
    requires b < |f.blocks| && f.blocks[b].term.CondBr? && s.TwoSided? && Suits(s, f.blocks[b].term)
    requires s.cond == LoadCond(f.blocks[b].term.cond, alloc, high, frameBase) && s.cond.h <= MAX_EMIT_REG + 1
    requires f.blocks[b].term.ifFalse < |f.blocks| && start == SideStart(f, alloc, b, s, true) <= MAX_EMIT_REG + 1
    requires MovesFor(f, alloc, b, f.blocks[b].term.ifFalse, s.falseMoves, s.cond.h, frameBase)
    requires MovesFor(f, alloc, b, f.blocks[b].term.ifTrue, s.trueMoves, start, frameBase)
    ensures ShapeOk(f, alloc, high, frameBase, b, s)
  {
  }

  // At most one successor has phis.
  method EmitOneSided(cg: Cg, f: Function, alloc: map<nat, Loc>, high: nat, frameBase: nat, b: nat, c: CondCode)
    returns (ok: bool, ghost s: Shape)
    requires AllocationOk(f, alloc, high) && b < |f.blocks| && f.blocks[b].term.CondBr?
    requires c == LoadCond(f.blocks[b].term.cond, alloc, high, frameBase) && c.h <= MAX_EMIT_REG + 1
    requires Edge(f, b, f.blocks[b].term.ifTrue) && Edge(f, b, f.blocks[b].term.ifFalse)
    requires !HasPhi(f, f.blocks[b].term.ifTrue) || !HasPhi(f, f.blocks[b].term.ifFalse)
    requires Built(cg.AsAsm()) && |cg.offsets| == |f.blocks|
    modifies cg`code, cg`fixups
    ensures ok ==> TermEmitted(f, alloc, high, frameBase, b, s, old(cg.AsAsm()), cg.AsAsm())
    ensures PhisFit(f) && c.h + 4 <= MAX_EMIT_REG ==> ok || |cg.code| > MAX_CODE
  {
    var t := f.blocks[b].term;
    var trueFalls, moves, next := HasPhi(f, t.ifTrue), [], c.h;
    NoPhiNoMoves(f, alloc, b, Successor(t, !trueFalls), c.h, frameBase);
    ok, moves, next := EmitEdge(f, alloc, high, frameBase, b, Successor(t, trueFalls), c.h);
    s := OneSided(c, trueFalls, moves);
    if ok {
      PlaceOneSided(cg, c, trueFalls, moves, t);
    }
  }

  // The layout depends on which successors have phis.
  method EmitCondBr(cg: Cg, f: Function, alloc: map<nat, Loc>, high: nat, frameBase: nat, b: nat)
    returns (ok: bool, ghost s: Shape)
    requires AllocationOk(f, alloc, high) && b < |f.blocks| && f.blocks[b].term.CondBr?
    requires Built(cg.AsAsm()) && |cg.offsets| == |f.blocks|
    modifies cg`code, cg`fixups
    ensures ok ==> TermEmitted(f, alloc, high, frameBase, b, s, old(cg.AsAsm()), cg.AsAsm())
    ensures PhisFit(f) && high <= MAX_SSA_REG + 1 ==> ok || |cg.code| > MAX_CODE
  {
    var t := f.blocks[b].term;
    assert Edge(f, b, t.ifTrue) && Edge(f, b, t.ifFalse);
    var c := LoadCond(t.cond, alloc, high, frameBase);
    if c.h > MAX_EMIT_REG + 1 {
      return false, RetShape(Lit(0));
    }
    if HasPhi(f, t.ifTrue) && HasPhi(f, t.ifFalse) {
      ok, s := EmitTwoSided(cg, f, alloc, high, frameBase, b, c);
    } else {
      ok, s := EmitOneSided(cg, f, alloc, high, frameBase, b, c);
    }
  }

  // ----- Switches -----------------------------------------------------------------------------------

  // The windows of the first n successors' moves.
  ghost predicate WindowsUpTo(lists: seq<seq<Move>>, codes: seq<seq<Instr>>, hs: seq<nat>, frameBase: nat, h: nat, n: nat) {
    && |codes| == |hs| == n <= |lists|
    && forall i :: 0 <= i < n ==> h <= hs[i] && Sequentialises(lists[i], codes[i], hs[i], frameBase)
  }

  // How many of these edges lead to blocks with phis.
  function PhiEdges(f: Function, succs: seq<nat>, n: nat): nat
    requires n <= |succs|
  {
    if n == 0 then 0
    else PhiEdges(f, succs, n - 1) + if succs[n - 1] < |f.blocks| && HasPhi(f, succs[n - 1]) then 1 else 0
  }

  lemma {:induction false} PhiEdgesGrow(f: Function, succs: seq<nat>, m: nat, n: nat)
    requires m <= n <= |succs|
    ensures PhiEdges(f, succs, m) <= PhiEdges(f, succs, n)
  {
    if m < n {
      PhiEdgesGrow(f, succs, m, n - 1);
    }
  }

  // The code of the moves of the default and of every case, in that order, each after the two registers
  // the one before it takes; and where the window then starts.
  method EmitSwitchMoves(f: Function, alloc: map<nat, Loc>, high: nat, frameBase: nat, b: nat, h: nat)
    returns (ok: bool, code: seq<Instr>, next: nat, ghost codes: seq<seq<Instr>>, ghost hs: seq<nat>)
    requires AllocationOk(f, alloc, high) && b < |f.blocks| && f.blocks[b].term.Switch? && high <= h <= MAX_EMIT_REG + 1
    ensures ok ==> code == Concat(codes) && MovesEmitted(f, alloc, b, codes, hs, frameBase)
    ensures ok ==> SwitchWindows(EdgeLists(f, alloc, b), h, hs) && h <= next <= MAX_EMIT_REG + 1
    ensures ok ==> next <= h + 2 * PhiEdges(f, Succs(f.blocks[b].term), |Succs(f.blocks[b].term)|)
    ensures PhisFit(f) && h + 2 * PhiEdges(f, Succs(f.blocks[b].term), |Succs(f.blocks[b].term)|) + 2 <= MAX_EMIT_REG ==> ok
  {
    var succs := Succs(f.blocks[b].term);
    code, codes, hs := [], [], [];
    next := h;
    for k := 0 to |succs|
      invariant h <= next <= MAX_EMIT_REG + 1 && code == Concat(codes) && next <= h + 2 * PhiEdges(f, succs, k)
      invariant WindowsUpTo(EdgeLists(f, alloc, b), codes, hs, frameBase, h, k)
    {
      assert Edge(f, b, succs[k]);
      PhiEdgesGrow(f, succs, k, |succs|);
      var moves;
      ghost var start := next;
      ok, moves, next := EmitEdge(f, alloc, high, frameBase, b, succs[k], next);
      if !ok {
        return;
      }
      code := code + moves;
      OneMoreEdge(EdgeLists(f, alloc, b), codes, hs, frameBase, h, k, moves, start);
      codes, hs := codes + [moves], hs + [start];
    }
    WindowsDone(f, alloc, b, codes, hs, frameBase, h);
    ok := true;
  }

  lemma OneMoreEdge(lists: seq<seq<Move>>, codes: seq<seq<Instr>>, hs: seq<nat>, frameBase: nat, h: nat, n: nat, c: seq<Instr>, start: nat)
    requires WindowsUpTo(lists, codes, hs, frameBase, h, n) && n < |lists| && h <= start && Sequentialises(lists[n], c, start, frameBase)
    ensures WindowsUpTo(lists, codes + [c], hs + [start], frameBase, h, n + 1) && Concat(codes + [c]) == Concat(codes) + c
  {
    assert (codes + [c])[..|codes|] == codes;
  }

  lemma WindowsDone(f: Function, alloc: map<nat, Loc>, b: nat, codes: seq<seq<Instr>>, hs: seq<nat>, frameBase: nat, h: nat)
    requires WellFormed(f) && b < |f.blocks| && h <= MAX_EMIT_REG + 1
    requires WindowsUpTo(EdgeLists(f, alloc, b), codes, hs, frameBase, h, |EdgeLists(f, alloc, b)|)
    ensures MovesEmitted(f, alloc, b, codes, hs, frameBase) && SwitchWindows(EdgeLists(f, alloc, b), h, hs)
  {
    var lists := EdgeLists(f, alloc, b);
    forall i | 0 <= i < |lists|
      ensures h <= hs[i] && (lists[i] != [] ==> hs[i] + 1 <= MAX_EMIT_REG)
    {
      assert Sequentialises(lists[i], codes[i], hs[i], frameBase);
    }
  }

  method EmitStraight(cg: Cg, code: seq<Instr>)
    requires Built(cg.AsAsm()) && StraightLine(code)
    modifies cg`code
    ensures Grown(old(cg.AsAsm()), cg.AsAsm()) && CodeAt(cg.AsAsm(), |old(cg.code)|, code)
    ensures |cg.code| == |old(cg.code)| + |code|
  {
    StraightAppended(cg.AsAsm(), code);
    cg.code := cg.code + code;
  }

  // One comparison and its branch.
  method EmitCase(cg: Cg, c: Case, reg: nat, h: nat)
    requires Built(cg.AsAsm()) && c.target < |cg.offsets|
    modifies cg`code, cg`fixups
    ensures Grown(old(cg.AsAsm()), cg.AsAsm()) && CaseAt(cg.AsAsm(), |old(cg.code)|, c, reg, h)
    ensures |cg.code| == |old(cg.code)| + |CaseTest(c.value, reg, h)| + 1
  {
    ghost var a := cg.AsAsm();
    EmitStraight(cg, CaseTest(c.value, reg, h));
    ghost var a1 := cg.AsAsm();
    EmitTest(cg, Bne(h + 1, REG_ZERO, 0), c.target);
    GrownTwice(a, a1, cg.AsAsm());
    CodeAtKept(a1, cg.AsAsm(), |a.code|, CaseTest(c.value, reg, h));
  }

  // The comparisons one after the other, each in the same two registers; then the jump to the default.
  method EmitChain(cg: Cg, cases: seq<Case>, reg: nat, h: nat, otherwise: nat)
    requires Built(cg.AsAsm()) && otherwise < |cg.offsets| && forall i :: 0 <= i < |cases| ==> cases[i].target < |cg.offsets|
    modifies cg`code, cg`fixups
    ensures Grown(old(cg.AsAsm()), cg.AsAsm()) && ChainAt(cg.AsAsm(), |old(cg.code)|, cases, reg, h, otherwise)
  {
    ghost var a := cg.AsAsm();
    for k := 0 to |cases|
      invariant Grown(a, cg.AsAsm()) && |cg.code| == |a.code| + TestStart(cases, k, reg, h)
      invariant ComparisonsAt(cg.AsAsm(), |a.code|, cases, k, reg, h)
    {
      ghost var a1 := cg.AsAsm();
      EmitCase(cg, cases[k], reg, h);
      GrownTwice(a, a1, cg.AsAsm());
      assert ComparisonAt(cg.AsAsm(), |a.code|, cases, k, reg, h);
      OneMoreTest(a1, cg.AsAsm(), |a.code|, cases, k, reg, h);
    }
    ghost var a1 := cg.AsAsm();
    EmitSide(cg, [], otherwise);
    GrownTwice(a, a1, cg.AsAsm());
    ChainDone(a1, cg.AsAsm(), |a.code|, cases, reg, h, otherwise);
  }

  lemma ChainDone(a: Asm, a': Asm, p: nat, cases: seq<Case>, reg: nat, h: nat, otherwise: nat)
    requires ComparisonsAt(a, p, cases, |cases|, reg, h) && Extends(a, a')
    requires |a.code| == p + TestStart(cases, |cases|, reg, h) && SideAt(a', |a.code|, [], otherwise)
    ensures ChainAt(a', p, cases, reg, h, otherwise)
  {
    ComparisonsKept(a, a', p, cases, |cases|, reg, h);
    TestsAreChain(a', p, cases, 0, p, reg, h, otherwise, |a.code|);
    assert cases[0..] == cases;
  }

  function Zeros(n: nat): (s: seq<nat>)
    ensures |s| == n
  {
    seq(n, _ => 0)
  }

  // DATA and the entries to be resolved have grown at their ends, by entries of words behind the old DATA.
  ghost predicate DataGrown(tables: seq<TableFixup>, data: seq<nat>, tables': seq<TableFixup>, data': seq<nat>) {
    && tables <= tables' && data <= data'
    && forall i :: |tables| <= i < |tables'| ==> tables'[i].dataOff >= |data|
  }

  lemma DataGrownTwice(t: seq<TableFixup>, d: seq<nat>, t1: seq<TableFixup>, d1: seq<nat>, t2: seq<TableFixup>, d2: seq<nat>)
    requires DataGrown(t, d, t1, d1) && DataGrown(t1, d1, t2, d2)
    ensures DataGrown(t, d, t2, d2)
  {
  }

  // Room in DATA for a table, and the entries that are to be resolved.
  method ReserveTable(cg: Cg, targets: seq<nat>) returns (base: nat)
    requires Built(cg.AsAsm()) && TablesBelow(cg.tables, |cg.data|) && forall t :: t in targets ==> t < |cg.offsets|
    modifies cg`tables, cg`data
    ensures base == |old(cg.data)| && |cg.data| == base + 4 * |targets| && TablesBelow(cg.tables, |cg.data|)
    ensures Grown(old(cg.AsAsm()), cg.AsAsm()) && cg.tables == old(cg.tables) + TableWords(base, targets, |targets|)
    ensures DataGrown(old(cg.tables), old(cg.data), cg.tables, cg.data)
  {
    ghost var a := cg.AsAsm();
    base := |cg.data|;
    cg.data := cg.data + Zeros(4 * |targets|);
    for k := 0 to |targets|
      modifies cg`tables
      invariant cg.tables == a.tables + TableWords(base, targets, k)
    {
      cg.tables := cg.tables + [TableFixup(base + 4 * k, targets[k])];
      assert TableWords(base, targets, k + 1) == TableWords(base, targets, k) + [TableFixup(base + 4 * k, targets[k])];
    }
    TablesAppended(a, base, targets);
    assert cg.AsAsm() == a.(tables := a.tables + TableWords(base, targets, |targets|));
  }

  // The test whether the table reaches far enough, a skip patched once its length is known; the jump
  // through the table, and the jump to the default.
  method EmitTableJump(cg: Cg, base: nat, h: nat, otherwise: nat)
    requires Built(cg.AsAsm()) && otherwise < |cg.offsets|
    modifies cg`code, cg`fixups
    ensures Grown(old(cg.AsAsm()), cg.AsAsm()) && JumpAt(cg.AsAsm(), |old(cg.code)|, AddressWords(base), base, h, otherwise)
  {
    ghost var a := cg.AsAsm();
    var k := AddressWords(base);
    var testAt := |cg.code|;
    cg.Emit(Beq(h + 3, REG_ZERO, 0));
    cg.code := cg.code + Nops(k);
    cg.Emit(JmpTable(h + 1, base));
    var skip := |cg.code| - (testAt + 1);
    cg.code := cg.code[testAt := Beq(h + 3, REG_ZERO, skip)];
    cg.QueueFixup(otherwise, 24);
    cg.Emit(Jmp(0));
    JumpPatched(a.code, k, base, h);
    assert cg.AsAsm() == Append(a, JumpSection(k, base, h), [Fixup(|a.code| + 2 + k, otherwise, 24)]);
    JumpAppended(a, k, base, h, otherwise, cg.AsAsm());
  }

  lemma JumpPatched(code: seq<Instr>, k: nat, base: nat, h: nat)
    ensures (code + [Beq(h + 3, REG_ZERO, 0)] + Nops(k) + [JmpTable(h + 1, base)])[|code| := Beq(h + 3, REG_ZERO, k + 1)] + [Jmp(0)] ==
            code + JumpSection(k, base, h)
  {
  }

  method EmitTable(cg: Cg, least: int, targets: seq<nat>, reg: nat, h: nat, otherwise: nat) returns (base: nat)
    requires Built(cg.AsAsm()) && TablesBelow(cg.tables, |cg.data|) && otherwise < |cg.offsets|
    requires forall t :: t in targets ==> t < |cg.offsets|
    modifies cg`code, cg`fixups, cg`tables, cg`data
    ensures base == |old(cg.data)| && |cg.data| == base + 4 * |targets| && TablesBelow(cg.tables, |cg.data|)
    ensures Grown(old(cg.AsAsm()), cg.AsAsm()) && TableAt(cg.AsAsm(), |old(cg.code)|, least, targets, base, reg, h, otherwise)
    ensures DataGrown(old(cg.tables), old(cg.data), cg.tables, cg.data)
  {
    ghost var a := cg.AsAsm();
    base := ReserveTable(cg, targets);
    ghost var a1 := cg.AsAsm();
    EmitStraight(cg, Distance(least, |targets|, reg, h));
    ghost var a2 := cg.AsAsm();
    EmitTableJump(cg, base, h, otherwise);
    TableDone(a, a1, a2, cg.AsAsm(), least, targets, base, reg, h, otherwise);
  }

  lemma TableDone(a: Asm, a1: Asm, a2: Asm, a3: Asm, least: int, targets: seq<nat>, base: nat, reg: nat, h: nat, otherwise: nat)
    requires Grown(a, a1) && Grown(a1, a2) && Grown(a2, a3) && |a1.code| == |a.code|
    requires a1.tables == a.tables + TableWords(base, targets, |targets|)
    requires CodeAt(a2, |a.code|, Distance(least, |targets|, reg, h)) && |a2.code| == |a.code| + |Distance(least, |targets|, reg, h)|
    requires JumpAt(a3, |a2.code|, AddressWords(base), base, h, otherwise)
    ensures Grown(a, a3) && TableAt(a3, |a.code|, least, targets, base, reg, h, otherwise)
  {
    GrownTwice(a, a1, a2);
    GrownTwice(a, a2, a3);
    CodeAtKept(a2, a3, |a.code|, Distance(least, |targets|, reg, h));
    forall i | 0 <= i < |targets|
      ensures TableFixup(base + 4 * i, targets[i]) in a3.tables
    {
      assert a1.tables[|a.tables| + i] == TableFixup(base + 4 * i, targets[i]);
      TableKept(a1, a2, TableFixup(base + 4 * i, targets[i]));
      TableKept(a2, a3, TableFixup(base + 4 * i, targets[i]));
    }
  }

  // The offsets of DATA are words.
  const DATA_END: nat := TWO_TO_THE_32

  // The dispatch, in the form chosen for it.
  method EmitDispatch(cg: Cg, d: Dispatch, cases: seq<Case>, reg: nat, h: nat, otherwise: nat) returns (base: nat)
    requires Built(cg.AsAsm()) && TablesBelow(cg.tables, |cg.data|) && otherwise < |cg.offsets|
    requires forall i :: 0 <= i < |cases| ==> cases[i].target < |cg.offsets|
    requires d.Table? ==> forall t :: t in d.targets ==> t < |cg.offsets|
    modifies cg`code, cg`fixups, cg`tables, cg`data
    ensures TablesBelow(cg.tables, |cg.data|) && base <= |cg.data|
    ensures Grown(old(cg.AsAsm()), cg.AsAsm()) && DispatchAt(cg.AsAsm(), |old(cg.code)|, d, base, cases, reg, h, otherwise)
    ensures DataGrown(old(cg.tables), old(cg.data), cg.tables, cg.data)
  {
    base := 0;
    match d
    case Chain => EmitChain(cg, cases, reg, h, otherwise);
    case Table(least, targets) => base := EmitTable(cg, least, targets, reg, h, otherwise);
  }

  // What emitting the end of block b leaves behind.
  ghost predicate EndEmitted(f: Function, alloc: map<nat, Loc>, high: nat, frameBase: nat, b: nat, x: Ending, a: Asm, a': Asm)
    requires b < |f.blocks|
  {
    EndingOk(f, alloc, high, frameBase, b, x) && Grown(a, a') && EndingAt(a', |a.code|, x, f.blocks[b].term)
  }

  // The registers a switch needs above its condition's: two for each edge with moves, and those of the dispatch.
  ghost predicate SwitchRoom(f: Function) {
    forall b :: 0 <= b < |f.blocks| && f.blocks[b].term.Switch? ==> PhiEdges(f, Succs(f.blocks[b].term), |Succs(f.blocks[b].term)|) <= 6
  }

  // The constants of every switch.
  ghost predicate SwitchesOk(f: Function) {
    forall b :: 0 <= b < |f.blocks| && f.blocks[b].term.Switch? ==> CasesOk(f.blocks[b].term.cases)
  }

  // What is to be emitted for a switch, before the base of its table is known.
  method PlanSwitch(f: Function, alloc: map<nat, Loc>, high: nat, frameBase: nat, b: nat)
    returns (ok: bool, c: CondCode, moves: seq<Instr>, d: Dispatch, h: nat)
    requires AllocationOk(f, alloc, high) && b < |f.blocks| && f.blocks[b].term.Switch? && CasesOk(f.blocks[b].term.cases)
    ensures c == Cond(f, alloc, high, frameBase, b)
    ensures ok ==> c.h <= h && SwitchCoded(f, alloc, b, c.h, moves, frameBase) && StraightLine(c.code + moves)
    ensures ok ==> var t := f.blocks[b].term; forall base :: IsWord(base) ==> DispatchFits(d, base, t.cases, c.reg, h, t.otherwise)
    ensures ok && d.Table? ==> forall s :: s in d.targets ==> s < |f.blocks|
    ensures PhisFit(f) && SwitchRoom(f) && high <= MAX_SSA_REG + 1 ==> ok
  {
    var t := f.blocks[b].term;
    c := Cond(f, alloc, high, frameBase, b);
    moves, d, h := [], Chain, c.h;
    if c.h > MAX_EMIT_REG + 1 {
      ok := false;
      return;
    }
    ghost var codes, hs;
    ok, moves, h, codes, hs := EmitSwitchMoves(f, alloc, high, frameBase, b, c.h);
    if !ok {
      return;
    }
    MovesStraight(EdgeLists(f, alloc, b), codes, hs, frameBase);
    d := ChooseDispatch(t.cases, t.otherwise);
    TargetsInside(f, b, d);
    CondInReg(f, alloc, high, frameBase, b);
    ok := h + WindowOf(d, t.cases) <= MAX_EMIT_REG + 1;
  }

  lemma {:induction false} MovesStraight(lists: seq<seq<Move>>, codes: seq<seq<Instr>>, hs: seq<nat>, frameBase: nat)
    requires |codes| == |hs| == |lists| && forall i :: 0 <= i < |lists| ==> Sequentialises(lists[i], codes[i], hs[i], frameBase)
    ensures StraightLine(Concat(codes))
    decreases |lists|
  {
    if lists != [] {
      var n := |lists| - 1;
      MovesStraight(lists[..n], codes[..n], hs[..n], frameBase);
      assert Sequentialises(lists[n], codes[n], hs[n], frameBase);
    }
  }

  // The moves, then the dispatch, whose window starts where theirs end.
  method EmitSwitch(cg: Cg, f: Function, alloc: map<nat, Loc>, high: nat, frameBase: nat, b: nat) returns (ok: bool, ghost x: Ending)
    requires AllocationOk(f, alloc, high) && b < |f.blocks| && f.blocks[b].term.Switch? && CasesOk(f.blocks[b].term.cases)
    requires Built(cg.AsAsm()) && |cg.offsets| == |f.blocks| && TablesBelow(cg.tables, |cg.data|)
    modifies cg`code, cg`fixups, cg`tables, cg`data
    ensures TablesBelow(cg.tables, |cg.data|) && DataGrown(old(cg.tables), old(cg.data), cg.tables, cg.data)
    ensures ok ==> EndEmitted(f, alloc, high, frameBase, b, x, old(cg.AsAsm()), cg.AsAsm())
    ensures PhisFit(f) && SwitchRoom(f) && high <= MAX_SSA_REG + 1 ==> ok || |cg.data| >= DATA_END
  {
    var t := f.blocks[b].term;
    x := Plain(RetShape(Lit(0)));
    var c, moves, d, h;
    ok, c, moves, d, h := PlanSwitch(f, alloc, high, frameBase, b);
    if !ok {
      return;
    }
    ghost var a := cg.AsAsm();
    EmitStraight(cg, c.code + moves);
    ghost var a1 := cg.AsAsm();
    CasesInside(f, b);
    var base := EmitDispatch(cg, d, t.cases, c.reg, h, t.otherwise);
    ok := base < DATA_END;
    x := Multi(SwitchCode(c, moves, d, h, base));
    if ok {
      SwitchDone(f, alloc, high, frameBase, b, x, a, a1, cg.AsAsm());
    }
  }

  lemma SwitchDone(f: Function, alloc: map<nat, Loc>, high: nat, frameBase: nat, b: nat, x: Ending, a: Asm, a1: Asm, a2: Asm)
    requires b < |f.blocks| && f.blocks[b].term.Switch? && x.Multi? && SwitchOk(f, alloc, high, frameBase, b, x.code)
    requires Grown(a, a1) && CodeAt(a1, |a.code|, x.code.cond.code + x.code.moves) && |a1.code| == |a.code| + |x.code.cond.code + x.code.moves|
    requires var t := f.blocks[b].term; Grown(a1, a2) && DispatchAt(a2, |a1.code|, x.code.dispatch, x.code.base, t.cases, x.code.cond.reg, x.code.h, t.otherwise)
    ensures EndEmitted(f, alloc, high, frameBase, b, x, a, a2)
  {
    SwitchPlaced(a, a1, a2, x.code, f.blocks[b].term);
    SwitchEnding(f, alloc, high, frameBase, b, x);
  }

  lemma SwitchPlaced(a: Asm, a1: Asm, a2: Asm, s: SwitchCode, t: Term)
    requires t.Switch? && Grown(a, a1) && CodeAt(a1, |a.code|, s.cond.code + s.moves) && |a1.code| == |a.code| + |s.cond.code + s.moves|
    requires Grown(a1, a2) && DispatchAt(a2, |a1.code|, s.dispatch, s.base, t.cases, s.cond.reg, s.h, t.otherwise)
    ensures Grown(a, a2) && SwitchAt(a2, |a.code|, s, t)
  {
    GrownTwice(a, a1, a2);
    CodeAtKept(a1, a2, |a.code|, s.cond.code + s.moves);
  }

  lemma SwitchEnding(f: Function, alloc: map<nat, Loc>, high: nat, frameBase: nat, b: nat, x: Ending)
    requires b < |f.blocks| && f.blocks[b].term.Switch? && x.Multi? && SwitchOk(f, alloc, high, frameBase, b, x.code)
    ensures EndingOk(f, alloc, high, frameBase, b, x)
  {
  }

  lemma CasesInside(f: Function, b: nat)
    requires WellFormed(f) && b < |f.blocks| && f.blocks[b].term.Switch?
    ensures var t := f.blocks[b].term; t.otherwise < |f.blocks| && forall i :: 0 <= i < |t.cases| ==> t.cases[i].target < |f.blocks|
  {
    TargetsInside(f, b, Chain);
  }

  lemma TargetsInside(f: Function, b: nat, d: Dispatch)
    requires WellFormed(f) && b < |f.blocks| && f.blocks[b].term.Switch?
    requires d.Table? ==> forall t :: t in d.targets ==> t == f.blocks[b].term.otherwise || t in Targets(f.blocks[b].term.cases)
    ensures var t := f.blocks[b].term;
            && t.otherwise < |f.blocks| && (forall i :: 0 <= i < |t.cases| ==> t.cases[i].target < |f.blocks|)
            && (d.Table? ==> forall s :: s in d.targets ==> s < |f.blocks|)
  {
    var t := f.blocks[b].term;
    assert Succs(t)[0] == t.otherwise;
    assert Edge(f, b, t.otherwise);
    forall i | 0 <= i < |t.cases|
      ensures t.cases[i].target < |f.blocks|
    {
      assert Succs(t)[i + 1] == t.cases[i].target;
      assert Edge(f, b, t.cases[i].target);
    }
  }

  // Whatever its terminator is.
  method EmitTerm(cg: Cg, f: Function, alloc: map<nat, Loc>, high: nat, frameBase: nat, b: nat)
    returns (ok: bool, ghost x: Ending)
    requires AllocationOk(f, alloc, high) && b < |f.blocks| && SwitchesOk(f)
    requires Built(cg.AsAsm()) && |cg.offsets| == |f.blocks| && TablesBelow(cg.tables, |cg.data|)
    modifies cg`code, cg`fixups, cg`tables, cg`data
    ensures TablesBelow(cg.tables, |cg.data|) && DataGrown(old(cg.tables), old(cg.data), cg.tables, cg.data)
    ensures ok ==> EndEmitted(f, alloc, high, frameBase, b, x, old(cg.AsAsm()), cg.AsAsm())
    ensures PhisFit(f) && SwitchRoom(f) && high <= MAX_SSA_REG + 1 ==> ok || |cg.code| > MAX_CODE || |cg.data| >= DATA_END
  {
    var t := f.blocks[b].term;
    ghost var s := RetShape(Lit(0));
    x := Plain(s);
    if t.Switch? {
      ok, x := EmitSwitch(cg, f, alloc, high, frameBase, b);
      return;
    } else if t.Return? {
      s := RetShape(ArgOf(t.result, alloc));
      RetAppended(cg.AsAsm(), ArgOf(t.result, alloc));
      cg.Emit(Ret(ArgOf(t.result, alloc)));
      ok := true;
    } else if t.Br? {
      assert Edge(f, b, t.target);
      var moves, next;
      ok, moves, next := EmitEdge(f, alloc, high, frameBase, b, t.target, high);
      s := JumpShape(moves);
      if ok {
        EmitSide(cg, moves, t.target);
      }
    } else {
      ok, s := EmitCondBr(cg, f, alloc, high, frameBase, b);
    }
    x := Plain(s);
  }
}
