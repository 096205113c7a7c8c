// The three layouts of a conditional branch, and what each block's code does when
// branches reach any distance.
module Branches {
  import opened Machine
  import opened Ssa
  import opened RegAlloc
  import opened PhiCopy
  import opened Assembly
  import opened Lowering
  import opened Placement
  import opened Conditions

  // ----- Layouts of a terminator --------------------------------------------------------------

  datatype Shape =
    | RetShape(result: Arg)
    | JumpShape(moves: seq<Instr>)
      // Both edges carry moves: a local skip separates them.
    | TwoSided(cond: CondCode, falseMoves: seq<Instr>, trueMoves: seq<Instr>)
      // A branch to a move-less successor, then the moves of the edge that falls through.
    | OneSided(cond: CondCode, trueFalls: bool, moves: seq<Instr>)

  // BEQ reaches the false block, BNE the true one.
  function TestOf(s: Shape): Instr
    requires s.OneSided?
  {
    if s.trueFalls then Beq(s.cond.reg, REG_ZERO, 0) else Bne(s.cond.reg, REG_ZERO, 0)
  }

  // The moves a layout runs on one of its edges.
  function SideMoves(s: Shape, taken: bool): seq<Instr> {
    match s
    case TwoSided(_, fm, tm) => if taken then tm else fm
    case OneSided(_, trueFalls, m) => if taken == trueFalls then m else []
    case _ => []
  }

  predicate IsConditional(s: Shape) {
    s.TwoSided? || s.OneSided?
  }

  // The layout is one for this kind of terminator. A switch has one of its own.
  predicate Suits(s: Shape, t: Term) {
    match t
    case Return(_) => s.RetShape?
    case Br(_) => s.JumpShape?
    case Switch(_, _, _) => false
    case CondBr(_, _, _) => IsConditional(s) && (s.TwoSided? ==> |s.falseMoves| + 1 <= 0x7F_FFFF)
  }

  function Successor(t: Term, taken: bool): nat
    requires t.CondBr?
  {
    if taken then t.ifTrue else t.ifFalse
  }

  ghost predicate MovesFor(f: Function, alloc: map<nat, Loc>, b: nat, to: nat, code: seq<Instr>, h: nat, frameBase: nat) {
    to < |f.blocks| && Sequentialises(MovesOfEdge(f, alloc, b, to), code, h, frameBase)
  }

  // Where the scratch window of one edge's moves starts: the moves of the false edge keep the two
  // registers they take, so the true edge's start after them.
  ghost function SideStart(f: Function, alloc: map<nat, Loc>, b: nat, s: Shape, taken: bool): nat
    requires IsConditional(s) && b < |f.blocks| && f.blocks[b].term.CondBr?
  {
    var ifFalse := f.blocks[b].term.ifFalse;
    if s.TwoSided? && taken && ifFalse < |f.blocks| && MovesOfEdge(f, alloc, b, ifFalse) != [] then s.cond.h + 2 else s.cond.h
  }

  // The layout is right for block b: its moves are those of its edges.
  ghost predicate ShapeOk(f: Function, alloc: map<nat, Loc>, high: nat, frameBase: nat, b: nat, s: Shape)
    requires b < |f.blocks|
  {
    Suits(s, f.blocks[b].term) &&
    match f.blocks[b].term
    case Return(r) => s.result == ArgOf(r, alloc)
    case Br(to) => MovesFor(f, alloc, b, to, s.moves, high, frameBase)
    case Switch(_, _, _) => false
    case CondBr(o, t, e) =>
      && s.cond == LoadCond(o, alloc, high, frameBase) && s.cond.h <= MAX_EMIT_REG + 1
      && SideStart(f, alloc, b, s, true) <= MAX_EMIT_REG + 1
      && MovesFor(f, alloc, b, t, SideMoves(s, true), SideStart(f, alloc, b, s, true), frameBase)
      && MovesFor(f, alloc, b, e, SideMoves(s, false), s.cond.h, frameBase)
  }

  // ----- Where the pieces of a layout sit ---------------------------------------------------------

  ghost predicate ShapeAt(a: Asm, pos: nat, s: Shape, t: Term)
    requires Suits(s, t)
  {
    match s
    case RetShape(x) => InstrAt(a, pos, Ret(x))
    case JumpShape(m) => SideAt(a, pos, m, t.target)
    case _ => CodeAt(a, pos, s.cond.code) && TestAt(a, pos + |s.cond.code|, s, t)
  }

  // A conditional layout from its test on.
  ghost predicate TestAt(a: Asm, p: nat, s: Shape, t: Term)
    requires IsConditional(s) && t.CondBr?
  {
    match s
    case TwoSided(c, fm, tm) =>
      SkipAt(a, p, c.reg, |fm| + 1) && SideAt(a, p + 2, fm, t.ifFalse) && SideAt(a, p + 3 + |fm|, tm, t.ifTrue)
    case OneSided(c, trueFalls, m) =>
      && InstrAt(a, p, TestOf(s)) && Fixup(p, Successor(t, !trueFalls), 8) in a.fixups
      && SideAt(a, p + 1, m, Successor(t, trueFalls))
  }

  // ----- Running a terminator ---------------------------------------------------------------------

  // A test against the zero register that names a move-less successor, else falls into
  // moves and a jump.
  lemma OneSidedGets(a: Asm, p: nat, reg: nat, trueFalls: bool, far: nat, moves: seq<Instr>, near: nat, st: State, env: Env)
    returns (n: nat)
    requires WellFormedAsm(a) && st.Get(Reg(REG_ZERO)) == 0
    requires StraightLine(moves) && Exec(moves, st, env).Some?
    requires InstrAt(a, p, if trueFalls then Beq(reg, REG_ZERO, 0) else Bne(reg, REG_ZERO, 0))
    requires Fixup(p, far, 8) in a.fixups && SideAt(a, p + 1, moves, near)
    ensures n > 0
    ensures (st.Get(Reg(reg)) != 0) != trueFalls ==> far < |a.offsets| && Gets(a, p, st, env, n, a.offsets[far], st)
    ensures (st.Get(Reg(reg)) != 0) == trueFalls ==>
              near < |a.offsets| && Gets(a, p, st, env, n, a.offsets[near], Exec(moves, st, env).value)
  {
    FixupTaken(a, Fixup(p, far, 8));
    if (st.Get(Reg(reg)) != 0) != trueFalls {
      n := 1;
      GetsStep(a, p, st, env, a.offsets[far]);
    } else {
      GetsStep(a, p, st, env, p + 1);
      SideGets(a, p + 1, moves, near, st, env);
      GetsThen(a, p, st, env, 1, p + 1, st, |moves| + 1);
      n := 1 + (|moves| + 1);
    }
  }

  // The skip falls into the false section or jumps over it.
  lemma SkipGets(a: Asm, p: nat, reg: nat, n: nat, st: State, env: Env)
    requires WellFormedAsm(a) && SkipAt(a, p, reg, n) && n <= 0x7F_FFFF && st.Get(Reg(REG_ZERO)) == 0
    ensures st.Get(Reg(reg)) == 0 ==> Gets(a, p, st, env, 1, p + 2, st)
    ensures st.Get(Reg(reg)) != 0 ==> Gets(a, p, st, env, 2, p + 2 + n, st)
  {
    if st.Get(Reg(reg)) == 0 {
      GetsStep(a, p, st, env, p + 2);
    } else {
      GetsStep(a, p, st, env, p + 1);
      GetsStep(a, p + 1, st, env, p + 2 + n);
      GetsThen(a, p, st, env, 1, p + 1, st, 1);
    }
  }

  lemma TwoSidedGets(a: Asm, p: nat, reg: nat, fm: seq<Instr>, ifFalse: nat, tm: seq<Instr>, ifTrue: nat, st: State, env: Env)
    returns (n: nat)
    requires WellFormedAsm(a) && st.Get(Reg(REG_ZERO)) == 0 && |fm| + 1 <= 0x7F_FFFF
    requires StraightLine(fm) && Exec(fm, st, env).Some? && StraightLine(tm) && Exec(tm, st, env).Some?
    requires SkipAt(a, p, reg, |fm| + 1) && SideAt(a, p + 2, fm, ifFalse) && SideAt(a, p + 3 + |fm|, tm, ifTrue)
    ensures n > 0
    ensures st.Get(Reg(reg)) == 0 ==>
              ifFalse < |a.offsets| && Gets(a, p, st, env, n, a.offsets[ifFalse], Exec(fm, st, env).value)
    ensures st.Get(Reg(reg)) != 0 ==>
              ifTrue < |a.offsets| && Gets(a, p, st, env, n, a.offsets[ifTrue], Exec(tm, st, env).value)
  {
    SkipGets(a, p, reg, |fm| + 1, st, env);
    if st.Get(Reg(reg)) == 0 {
      SideGets(a, p + 2, fm, ifFalse, st, env);
      GetsThen(a, p, st, env, 1, p + 2, st, |fm| + 1);
      n := 1 + (|fm| + 1);
    } else {
      SideGets(a, p + 3 + |fm|, tm, ifTrue, st, env);
      GetsThen(a, p, st, env, 2, p + 3 + |fm|, st, |tm| + 1);
      n := 2 + (|tm| + 1);
    }
  }

  // ----- Conditional branches isolate their edges ---------------------------------------------------

  // The moves of either side run from s1.
  ghost predicate SidesRun(s: Shape, s1: State, env: Env) {
    && StraightLine(SideMoves(s, true)) && Exec(SideMoves(s, true), s1, env).Some?
    && StraightLine(SideMoves(s, false)) && Exec(SideMoves(s, false), s1, env).Some?
  }

  // In n steps the machine is at the successor that the condition register of s1 chooses, having run
  // that side's moves from s1.
  ghost predicate Arrives(a: Asm, pc: nat, st: State, env: Env, n: nat, s: Shape, t: Term, s1: State)
    requires WellFormedAsm(a) && IsConditional(s) && t.CondBr? && SidesRun(s, s1, env)
  {
    var taken := s1.Get(Reg(s.cond.reg)) != 0;
    && Successor(t, taken) < |a.offsets|
    && Gets(a, pc, st, env, n, a.offsets[Successor(t, taken)], Exec(SideMoves(s, taken), s1, env).value)
  }

  lemma ArrivesAfter(a: Asm, pc: nat, st: State, env: Env, m: nat, pc1: nat, s1: State, n: nat, s: Shape, t: Term)
    requires WellFormedAsm(a) && IsConditional(s) && t.CondBr? && SidesRun(s, s1, env)
    requires Gets(a, pc, st, env, m, pc1, s1) && Arrives(a, pc1, s1, env, n, s, t, s1)
    ensures Arrives(a, pc, st, env, m + n, s, t, s1)
  {
    var taken := s1.Get(Reg(s.cond.reg)) != 0;
    GetsBoth(a, pc, st, env, m, pc1, s1, n, a.offsets[Successor(t, taken)], Exec(SideMoves(s, taken), s1, env).value);
  }

  // Whichever layout, the machine reaches the successor that the condition register
  // chooses, having run that side's moves and no others.
  lemma CondGets(a: Asm, pos: nat, s: Shape, t: Term, st: State, s1: State, env: Env) returns (n: nat)
    requires WellFormedAsm(a) && t.CondBr? && Suits(s, t) && TestAt(a, pos + |s.cond.code|, s, t)
    requires Gets(a, pos, st, env, |s.cond.code|, pos + |s.cond.code|, s1) && s1.Get(Reg(REG_ZERO)) == 0
    requires SidesRun(s, s1, env)
    ensures n > 0 && Arrives(a, pos, st, env, n, s, t, s1)
  {
    n := CondThenTest(a, pos, |s.cond.code|, pos + |s.cond.code|, s, t, st, s1, env);
  }

  lemma CondThenTest(a: Asm, pos: nat, m: nat, p: nat, s: Shape, t: Term, st: State, s1: State, env: Env) returns (n: nat)
    requires WellFormedAsm(a) && t.CondBr? && Suits(s, t) && TestAt(a, p, s, t)
    requires Gets(a, pos, st, env, m, p, s1) && s1.Get(Reg(REG_ZERO)) == 0 && SidesRun(s, s1, env)
    ensures n > 0 && Arrives(a, pos, st, env, n, s, t, s1)
  {
    n := TestGets(a, p, s, t, s1, env);
    ArrivesAfter(a, pos, st, env, m, p, s1, n, s, t);
    n := m + n;
  }

  // The same, from the test on.
  lemma TestGets(a: Asm, p: nat, s: Shape, t: Term, s1: State, env: Env) returns (n: nat)
    requires WellFormedAsm(a) && t.CondBr? && Suits(s, t) && TestAt(a, p, s, t)
    requires s1.Get(Reg(REG_ZERO)) == 0 && SidesRun(s, s1, env)
    ensures n > 0 && Arrives(a, p, s1, env, n, s, t, s1)
  {
    if s.TwoSided? {
      n := TwoSidedGets(a, p, s.cond.reg, s.falseMoves, t.ifFalse, s.trueMoves, t.ifTrue, s1, env);
    } else {
      var falls := s.trueFalls;
      n := OneSidedGets(a, p, s.cond.reg, falls, Successor(t, !falls), s.moves, Successor(t, falls), s1, env);
      assert Exec([], s1, env) == Some(s1);
    }
  }

  lemma MovesRun(f: Function, alloc: map<nat, Loc>, high: nat, b: nat, s: nat, moves: seq<Instr>, h: nat,
                 vals: Vals, world: World, st: State, env: Env)
    requires AllocationOk(f, alloc, high) && Edge(f, b, s) && high <= h <= MAX_EMIT_REG + 1
    requires MovesFor(f, alloc, b, s, moves, h, env.frameBase)
    requires Matches(f, alloc, vals, world, st, b, |f.blocks[b].body|)
    ensures Exec(moves, st, env).Some?
    ensures Matches(f, alloc, TakeEdge(f.blocks[s].phis, b, vals), world, Exec(moves, st, env).value, s, 0)
  {
    SequentialisesEffect(MovesOfEdge(f, alloc, b, s), moves, h, st, env);
    EdgeSimulated(f, alloc, high, b, s, h, vals, world, st, Exec(moves, st, env).value);
  }

  // Both sides of a layout install their own edge's phis, from the state in which the
  // condition is tested.
  lemma SideMatches(f: Function, alloc: map<nat, Loc>, high: nat, b: nat, s: Shape, taken: bool,
                    vals: Vals, world: World, s1: State, env: Env)
    requires AllocationOk(f, alloc, high) && b < |f.blocks| && f.blocks[b].term.CondBr?
    requires ShapeOk(f, alloc, high, env.frameBase, b, s)
    requires Matches(f, alloc, vals, world, s1, b, |f.blocks[b].body|)
    ensures StraightLine(SideMoves(s, taken)) && Exec(SideMoves(s, taken), s1, env).Some?
    ensures var to := Successor(f.blocks[b].term, taken);
            to < |f.blocks| &&
            Matches(f, alloc, TakeEdge(f.blocks[to].phis, b, vals), world, Exec(SideMoves(s, taken), s1, env).value, to, 0)
  {
    var to := Successor(f.blocks[b].term, taken);
    assert Edge(f, b, to);
    MovesRun(f, alloc, high, b, to, SideMoves(s, taken), SideStart(f, alloc, b, s, taken), vals, world, s1, env);
  }

  // In every layout, control reaches exactly the successor the condition chooses, with
  // exactly that edge's phis installed.
  lemma CondBrSimulated(f: Function, alloc: map<nat, Loc>, high: nat, b: nat, s: Shape,
                        a: Asm, pos: nat, vals: Vals, world: World, st: State, env: Env)
    returns (n: nat, st': State)
    requires AllocationOk(f, alloc, high) && b < |f.blocks| && f.blocks[b].term.CondBr?
    requires ShapeOk(f, alloc, high, env.frameBase, b, s)
    requires Matches(f, alloc, vals, world, st, b, |f.blocks[b].body|)
    requires WellFormedAsm(a) && ShapeAt(a, pos, s, f.blocks[b].term)
    ensures n > 0
    ensures var to := Successor(f.blocks[b].term, EvalOperand(f.blocks[b].term.cond, vals) != 0);
            && to < |f.blocks| && to < |a.offsets| && Gets(a, pos, st, env, n, a.offsets[to], st')
            && Matches(f, alloc, TakeEdge(f.blocks[to].phis, b, vals), world, st', to, 0)
  {
    var t := f.blocks[b].term;
    var taken := EvalOperand(t.cond, vals) != 0;
    CondLoaded(f, alloc, high, b, t.cond, vals, world, st, env);
    var s1 := Exec(s.cond.code, st, env).value;
    SideMatches(f, alloc, high, b, s, true, vals, world, s1, env);
    SideMatches(f, alloc, high, b, s, false, vals, world, s1, env);
    GetsStraight(a, pos, s.cond.code, st, env);
    n := CondGets(a, pos, s, t, st, s1, env);
    st' := Exec(SideMoves(s, taken), s1, env).value;
  }
}
