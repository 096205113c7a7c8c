// Where pieces of code sit in a program, and getting from one to the next.
module Placement {
  import opened Machine
  import opened Assembly

  ghost predicate CodeAt(a: Asm, pos: nat, seg: seq<Instr>) {
    pos + |seg| <= |a.code| && forall i :: 0 <= i < |seg| ==> a.code[pos + i] == seg[i]
  }

  predicate InstrAt(a: Asm, pos: nat, i: Instr) {
    pos < |a.code| && a.code[pos] == i
  }

  // An edge's moves and its jump.
  ghost predicate SideAt(a: Asm, pos: nat, moves: seq<Instr>, to: nat) {
    CodeAt(a, pos, moves) && InstrAt(a, pos + |moves|, Jmp(0)) && Fixup(pos + |moves|, to, 24) in a.fixups
  }

  // The local skip of the two-sided layout: no fixup will touch it.
  ghost predicate SkipAt(a: Asm, p: nat, reg: nat, n: nat) {
    && InstrAt(a, p, Beq(reg, REG_ZERO, 1)) && InstrAt(a, p + 1, Jmp(n))
    && !HasFixup(a, p) && !HasFixup(a, p + 1)
  }

  // ----- Running from one piece to the next -------------------------------------------------------

  // The machine gets from one point to another in n steps.
  ghost predicate Gets(a: Asm, pc: nat, st: State, env: Env, n: nat, pc': nat, st': State)
    requires WellFormedAsm(a)
  {
    AsmRun(a, pc, st, env, n) == Some(Next(pc', st'))
  }

  lemma GetsThen(a: Asm, pc: nat, st: State, env: Env, m: nat, pc1: nat, st1: State, n: nat)
    requires WellFormedAsm(a) && Gets(a, pc, st, env, m, pc1, st1)
    ensures AsmRun(a, pc, st, env, m + n) == AsmRun(a, pc1, st1, env, n)
  {
    AsmRunAdd(a, pc, st, env, m, n);
  }

  lemma GetsBoth(a: Asm, pc: nat, st: State, env: Env, m: nat, pc1: nat, st1: State, n: nat, pc2: nat, st2: State)
    requires WellFormedAsm(a) && Gets(a, pc, st, env, m, pc1, st1) && Gets(a, pc1, st1, env, n, pc2, st2)
    ensures Gets(a, pc, st, env, m + n, pc2, st2)
  {
    GetsThen(a, pc, st, env, m, pc1, st1, n);
  }

  lemma GetsStraight(a: Asm, pc: nat, seg: seq<Instr>, st: State, env: Env)
    requires WellFormedAsm(a) && StraightLine(seg) && CodeAt(a, pc, seg) && Exec(seg, st, env).Some?
    ensures Gets(a, pc, st, env, |seg|, pc + |seg|, Exec(seg, st, env).value)
  {
    assert a.code[pc..pc + |seg|] == seg;
    AsmStraight(a, pc, seg, st, env);
  }

  // One step.
  lemma GetsStep(a: Asm, pc: nat, st: State, env: Env, pc': nat)
    requires WellFormedAsm(a) && AsmStep(a, pc, st, env) == Some(Next(pc', st))
    ensures Gets(a, pc, st, env, 1, pc', st)
  {
    assert AsmRun(a, pc', st, env, 0) == Some(Next(pc', st));
  }

  lemma FixupTaken(a: Asm, x: Fixup)
    requires WellFormedAsm(a) && x in a.fixups
    ensures FixupOk(a, x) && HasFixup(a, x.pos) && Taken(a, x.pos) == a.offsets[x.target]
  {
    var i :| 0 <= i < |a.fixups| && a.fixups[i] == x;
    assert FixupOk(a, a.fixups[i]);
    TakenAt(a, i);
  }

  // Straight-line moves, then a jump.
  lemma SideGets(a: Asm, pos: nat, moves: seq<Instr>, s: nat, st: State, env: Env)
    requires WellFormedAsm(a) && StraightLine(moves) && Exec(moves, st, env).Some? && SideAt(a, pos, moves, s)
    ensures s < |a.offsets| && Gets(a, pos, st, env, |moves| + 1, a.offsets[s], Exec(moves, st, env).value)
  {
    var st' := Exec(moves, st, env).value;
    GetsStraight(a, pos, moves, st, env);
    FixupTaken(a, Fixup(pos + |moves|, s, 24));
    GetsStep(a, pos + |moves|, st', env, a.offsets[s]);
    GetsThen(a, pos, st, env, |moves|, pos + |moves|, st', 1);
  }
}
