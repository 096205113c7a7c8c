// The code of a switch terminator: the condition, the moves of all edges, the dispatch; and what it does.
module SwitchRuns {
  import opened Machine
  import opened Ssa
  import opened PhiCopy
  import opened Assembly
  import opened Lowering
  import opened Placement
  import opened Conditions
  import opened CopyRuns
  import opened Switches
  import opened Dispatch

  // The window of the dispatch starts at h, and its table, if it has one, is at base.
  datatype SwitchCode = SwitchCode(cond: CondCode, moves: seq<Instr>, dispatch: Dispatch, h: nat, base: nat)

  // The code is right for the switch of block b: its moves are those of the edges.
  ghost predicate SwitchOk(f: Function, alloc: map<nat, Loc>, high: nat, frameBase: nat, b: nat, s: SwitchCode)
    requires b < |f.blocks| && f.blocks[b].term.Switch?
  {
    var t := f.blocks[b].term;
    && s.cond == Cond(f, alloc, high, frameBase, b) && s.cond.h <= s.h
    && SwitchCoded(f, alloc, b, s.cond.h, s.moves, frameBase)
    && DispatchFits(s.dispatch, s.base, t.cases, s.cond.reg, s.h, t.otherwise)
  }

  ghost predicate SwitchAt(a: Asm, pos: nat, s: SwitchCode, t: Term)
    requires t.Switch?
  {
    && CodeAt(a, pos, s.cond.code + s.moves)
    && DispatchAt(a, pos + |s.cond.code + s.moves|, s.dispatch, s.base, t.cases, s.cond.reg, s.h, t.otherwise)
  }

  lemma WindowKeeps(f: Function, alloc: map<nat, Loc>, high: nat, h: nat, s: nat, vals: Vals, world: World, st: State, st': State)
    requires AllocationOk(f, alloc, high) && high <= h && OnlyWindow(st, st', h) && Matches(f, alloc, vals, world, st, s, 0)
    ensures Matches(f, alloc, vals, world, st', s, 0)
  {
    forall u | Needed(f, u, s, 0)
      ensures st'.Get(Place(alloc, u)) == Lookup(vals, u)
    {
      PlaceIsFixed(f, alloc, high, u, s, 0);
    }
  }

  // The condition's code and the moves.
  lemma MovesGet(f: Function, alloc: map<nat, Loc>, high: nat, b: nat, c: CondCode, moves: seq<Instr>, a: Asm, pos: nat,
                 vals: Vals, world: World, st: State, env: Env) returns (n: nat, s1: State)
    requires AllocationOk(f, alloc, high) && b < |f.blocks| && f.blocks[b].term.Switch? && WellFormedAsm(a)
    requires c == Cond(f, alloc, high, env.frameBase, b) && MovesRight(f, alloc, b, c.reg)
    requires SwitchCoded(f, alloc, b, c.h, moves, env.frameBase) && CodeAt(a, pos, c.code + moves)
    requires Matches(f, alloc, vals, world, st, b, |f.blocks[b].body|) && IsWord(EvalOperand(f.blocks[b].term.on, vals))
    ensures n == |c.code + moves| && Gets(a, pos, st, env, n, pos + n, s1) && Enters(f, alloc, b, c.reg, vals, world, s1)
  {
    SwitchEnters(f, alloc, high, b, moves, vals, world, st, env);
    n, s1 := |c.code + moves|, Exec(c.code + moves, st, env).value;
    GetsStraight(a, pos, c.code + moves, st, env);
  }

  // The dispatch.
  lemma DispatchEnters(f: Function, alloc: map<nat, Loc>, high: nat, b: nat, reg: nat, h: nat, a: Asm, pos: nat, st: State, m: nat, p: nat,
                       vals: Vals, world: World, s1: State, env: Env)
    returns (to: nat, n: nat, st': State)
    requires AllocationOk(f, alloc, high) && b < |f.blocks| && f.blocks[b].term.Switch? && WellFormedAsm(a) && high <= h
    requires DispatchRuns(a, p, f.blocks[b].term.cases, f.blocks[b].term.otherwise, reg, h, env)
    requires Gets(a, pos, st, env, m, p, s1) && Enters(f, alloc, b, reg, vals, world, s1)
    ensures to == Chosen(f.blocks[b].term, vals)
    ensures n > 0 && to < |f.blocks| && to < |a.offsets| && Gets(a, pos, st, env, n, a.offsets[to], st')
    ensures Matches(f, alloc, TakeEdge(f.blocks[to].phis, b, vals), world, st', to, 0)
  {
    var t := f.blocks[b].term;
    to := Chosen(t, vals);
    assert Dispatches(a, p, t.cases, t.otherwise, reg, h, env, s1);
    n, st' :| ArrivesAt(a, p, to, h, env, s1, n, st');
    WindowKeeps(f, alloc, high, h, to, TakeEdge(f.blocks[to].phis, b, vals), world, s1, st');
    GetsBoth(a, pos, st, env, m, p, s1, n, a.offsets[to], st');
    n := m + n;
  }

  lemma DispatchFollows(a: Asm, pos: nat, s: SwitchCode, t: Term, env: Env)
    requires WellFormedAsm(a) && t.Switch? && SwitchAt(a, pos, s, t) && DispatchFits(s.dispatch, s.base, t.cases, s.cond.reg, s.h, t.otherwise)
    ensures DispatchRuns(a, pos + |s.cond.code + s.moves|, t.cases, t.otherwise, s.cond.reg, s.h, env)
  {
    DispatchAlwaysRuns(a, pos + |s.cond.code + s.moves|, s.dispatch, s.base, t.cases, s.cond.reg, s.h, t.otherwise, env);
  }

  // When the moves are right, control reaches exactly the successor the switch chooses, with exactly that
  // edge's phis installed.
  lemma SwitchSimulated(f: Function, alloc: map<nat, Loc>, high: nat, b: nat, s: SwitchCode,
                        a: Asm, pos: nat, vals: Vals, world: World, st: State, env: Env)
    returns (to: nat, n: nat, st': State)
    requires AllocationOk(f, alloc, high) && b < |f.blocks| && f.blocks[b].term.Switch? && WellFormedAsm(a)
    requires SwitchOk(f, alloc, high, env.frameBase, b, s) && SwitchAt(a, pos, s, f.blocks[b].term) && MovesRight(f, alloc, b, s.cond.reg)
    requires Matches(f, alloc, vals, world, st, b, |f.blocks[b].body|) && IsWord(EvalOperand(f.blocks[b].term.on, vals))
    ensures to == Chosen(f.blocks[b].term, vals)
    ensures n > 0 && to < |f.blocks| && to < |a.offsets| && Gets(a, pos, st, env, n, a.offsets[to], st')
    ensures Matches(f, alloc, TakeEdge(f.blocks[to].phis, b, vals), world, st', to, 0)
  {
    DispatchFollows(a, pos, s, f.blocks[b].term, env);
    var m, s1 := MovesGet(f, alloc, high, b, s.cond, s.moves, a, pos, vals, world, st, env);
    to, n, st' := DispatchEnters(f, alloc, high, b, s.cond.reg, s.h, a, pos, st, m, pos + m, vals, world, s1, env);
  }
}
