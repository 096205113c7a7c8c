// Bringing the condition of a branch or a switch into a register.
module Conditions {
  import opened Machine
  import opened Ssa
  import opened PhiCopy
  import opened Lowering

  // The code that brings a condition into a register, that register, and where the
  // scratch window then starts.
  datatype CondCode = CondCode(code: seq<Instr>, reg: nat, h: nat)

  function LoadCond(o: Operand, alloc: map<nat, Loc>, high: nat, frameBase: nat): (c: CondCode)
    ensures StraightLine(c.code) && high <= c.h <= high + 1
  {
    match o
    case Val(v) =>
      (match Place(alloc, v)
       case Reg(r) => CondCode([], r, high)
       case Slot(_) => CondCode(ReadTo(Place(alloc, v), high, frameBase), high, high + 1))
    case Imm(w) => CondCode(LoadConst(high, w), high, high + 1)
    case Undef => CondCode([], REG_ZERO, high)
  }

  // The condition is in its register and the relation to the SSA state still holds.
  lemma CondLoaded(f: Function, alloc: map<nat, Loc>, high: nat, b: nat, o: Operand,
                   vals: Vals, world: World, st: State, env: Env)
    requires AllocationOk(f, alloc, high) && b < |f.blocks|
    requires o in OperandsAt(f.blocks[b], |f.blocks[b].body|)
    requires Matches(f, alloc, vals, world, st, b, |f.blocks[b].body|)
    requires LoadCond(o, alloc, high, env.frameBase).h <= MAX_EMIT_REG + 1
    ensures var c := LoadCond(o, alloc, high, env.frameBase);
            && Exec(c.code, st, env).Some?
            && Exec(c.code, st, env).value.Get(Reg(c.reg)) == EvalOperand(o, vals)
            && Matches(f, alloc, vals, world, Exec(c.code, st, env).value, b, |f.blocks[b].body|)
  {
    var k := |f.blocks[b].body|;
    var c := LoadCond(o, alloc, high, env.frameBase);
    OperandMatches(f, alloc, vals, world, st, b, k, o);
    assert OperandsOk(f, b, k);
    assert OperandOk(f, o, b, k);
    if c.h == high + 1 {
      if o.Imm? {
        LoadConstLoads(high, o.w, st, env);
      } else {
        ReadToReads(Place(alloc, o.v), high, st, env);
      }
      var st' := Exec(c.code, st, env).value;
      forall u | Needed(f, u, b, k)
        ensures st'.Get(Place(alloc, u)) == Lookup(vals, u)
      {
        NeededIsReached(f, u, b, k);
        assert u in alloc;
      }
    }
  }
}
