// Lowering of blocks and branches: the shape of the emitted code, and why running it
// is running the SSA function.
module Lowering {
  import opened Machine
  import opened Ssa
  import opened RegAlloc
  import opened PhiCopy
  import opened Assembly
  import CallSaves
  import Liveness

  // What pre-allocation delivers for f.
  ghost predicate AllocationOk(f: Function, alloc: map<nat, Loc>, high: nat) {
    && WellFormed(f) && alloc.Keys == f.sites.Keys
    && NoInterference(f, alloc) && WithinBounds(alloc, high, 0xFFFF) && high <= 253
  }

  function Place(alloc: map<nat, Loc>, v: nat): Loc {
    if v in alloc then alloc[v] else Reg(REG_ZERO)
  }

  // Where an operand is found when an instruction runs; undef is the zero register.
  function ArgOf(o: Operand, alloc: map<nat, Loc>): Arg {
    match o
    case Val(v) => At(Place(alloc, v))
    case Imm(w) => Lit(w)
    case Undef => At(Reg(REG_ZERO))
  }

  function ArgsOf(args: seq<Operand>, alloc: map<nat, Loc>): (r: seq<Arg>)
    ensures |r| == |args| && forall i :: 0 <= i < |args| ==> r[i] == ArgOf(args[i], alloc)
  {
    seq(|args|, i requires 0 <= i < |args| => ArgOf(args[i], alloc))
  }

  // ----- The relation between an SSA state and a machine state --------------------------------

  // v may yet be read from position k of block b on.
  ghost predicate Needed(f: Function, v: nat, b: nat, k: nat) {
    Live(f, v, b, k)
  }

  // A value is live only where its definition has been passed on every path.
  lemma NeededIsReached(f: Function, v: nat, b: nat, k: nat)
    requires WellFormed(f) && Needed(f, v, b, k)
    ensures Reaches(f, v, b, k)
  {
    var p :| p != [] && p[0] == b && LiveAlong(f, v, p, k);
    WalkIsReached(f, v, p, k);
  }

  lemma {:induction false} WalkIsReached(f: Function, v: nat, p: seq<nat>, k: nat)
    requires WellFormed(f) && LiveAlong(f, v, p, k)
    ensures Reaches(f, v, p[0], k)
    decreases |p|
  {
    var blk := f.blocks[p[0]];
    if |p| == 1 {
      var j: nat :| k <= j <= |blk.body| && UsedAt(blk, j, v) && !DefinedWithin(f, v, p[0], k, j);
      UseIsReached(f, v, p[0], j);
    } else if |p| == 2 && PhiReads(f, p[0], p[1], v) {
      var i :| 0 <= i < |f.blocks[p[1]].phis| && p[0] in f.blocks[p[1]].phis[i].incoming &&
               f.blocks[p[1]].phis[i].incoming[p[0]] == Val(v);
      assert PhiOperandOk(f, p[0], f.blocks[p[1]].phis[i]);
      ReachedEarlier(f, v, p[0], k, |blk.body|);
    } else {
      WalkIsReached(f, v, p[1..], 0);
      ReachedAcross(f, v, p[0], p[1]);
      ReachedEarlier(f, v, p[0], k, |blk.body|);
    }
  }

  lemma ReachedEarlier(f: Function, v: nat, b: nat, k: nat, j: nat)
    requires Reaches(f, v, b, j) && !DefinedWithin(f, v, b, k, j) && k <= j
    ensures Reaches(f, v, b, k)
  {
  }

  lemma ReachedAcross(f: Function, v: nat, b: nat, s: nat)
    requires WellFormed(f) && Edge(f, b, s) && Reaches(f, v, s, 0) && !PhiWrites(f, s, v)
    ensures Reaches(f, v, b, |f.blocks[b].body|)
  {
    assert Defines(f, f.sites[v], v);
    if !f.sites[v].Param? {
      DominatesPred(f, f.sites[v].b, b, s);
    }
  }

  lemma UsedIsNeeded(f: Function, v: nat, b: nat, k: nat)
    requires b < |f.blocks| && k <= |f.blocks[b].body| && UsedAt(f.blocks[b], k, v)
    ensures Needed(f, v, b, k)
  {
    assert LiveAlong(f, v, [b], k);
  }

  // Every value that may yet be read is in its place.
  ghost predicate Matches(f: Function, alloc: map<nat, Loc>, vals: Vals, world: World, st: State, b: nat, k: nat) {
    && st.world == world && st.Get(Reg(REG_ZERO)) == 0
    && forall v :: Needed(f, v, b, k) ==> st.Get(Place(alloc, v)) == Lookup(vals, v)
  }

  // An operand at position k reads in the machine what it evaluates to.
  lemma OperandMatches(f: Function, alloc: map<nat, Loc>, vals: Vals, world: World, st: State, b: nat, k: nat, o: Operand)
    requires WellFormed(f) && alloc.Keys == f.sites.Keys && Matches(f, alloc, vals, world, st, b, k)
    requires b < |f.blocks| && k <= |f.blocks[b].body| && o in OperandsAt(f.blocks[b], k)
    ensures Value(ArgOf(o, alloc), st) == EvalOperand(o, vals)
  {
    if o.Val? {
      assert OperandsOk(f, b, k);
      assert OperandOk(f, o, b, k);
      UsedIsNeeded(f, o.v, b, k);
    }
  }

  // ----- Straight-line code ---------------------------------------------------------------------

  function DstOf(i: Inst, alloc: map<nat, Loc>): Option<Loc> {
    if i.dst.Some? then Some(Place(alloc, i.dst.value)) else None
  }

  // What the code of a body depends on besides places: where the scratch window starts, the offset of
  // the value-spill area, and what is saved around calls.
  datatype Layout = Layout(high: nat, frameBase: nat, saves: CallSaves.Saves)

  ghost predicate LayoutOk(f: Function, alloc: map<nat, Loc>, lay: Layout) {
    && CallSaves.EverySlot(f, Liveness.Homes(alloc, lay.high), lay.saves)
    && forall b: nat, k: nat :: CallSaves.IsCall(f, lay.saves.calls, b, k) ==> ResultFits(f.blocks[b].body[k], alloc, lay.high)
  }

  // The result of a call that goes to a slot passes through the first register of the window.
  predicate ResultFits(i: Inst, alloc: map<nat, Loc>, high: nat) {
    i.dst.Some? && Place(alloc, i.dst.value).Slot? ==> high <= MAX_EMIT_REG
  }

  function TakeResult(dst: Option<Loc>, high: nat, frameBase: nat): (code: seq<Instr>)
    ensures StraightLine(code)
  {
    match dst
    case None => []
    case Some(Reg(r)) => [Mov(r, 0)]
    case Some(Slot(s)) => [Mov(high, 0)] + WriteFrom(Slot(s), high, frameBase)
  }

  function WorkCode(i: Inst, alloc: map<nat, Loc>): (code: seq<Instr>)
    ensures StraightLine(code)
  {
    [Work(i.op, DstOf(i, alloc), ArgsOf(i.args, alloc))] + Nops(i.words)
  }

  function CallCode(i: Inst, saved: set<nat>, alloc: map<nat, Loc>, lay: Layout): (code: seq<Instr>)
    requires CallSaves.AreaOk(lay.saves)
    ensures StraightLine(code)
  {
    CallSaves.SpillCode(saved, lay.saves, lay.high, lay.frameBase) + (Nops(i.words) + [Call(i.op, ArgsOf(i.args, alloc))]) +
    CallSaves.RestoreCode(saved, lay.saves, lay.high, lay.frameBase) + TakeResult(DstOf(i, alloc), lay.high, lay.frameBase)
  }

  // The code of instruction k of block b.
  ghost function InstCode(f: Function, b: nat, k: nat, alloc: map<nat, Loc>, lay: Layout): (code: seq<Instr>)
    requires b < |f.blocks| && k < |f.blocks[b].body| && CallSaves.AreaOk(lay.saves)
    ensures StraightLine(code)
  {
    var i := f.blocks[b].body[k];
    if i.op in lay.saves.calls then CallCode(i, CallSaves.SpillSet(f, Liveness.Homes(alloc, lay.high), b, k), alloc, lay)
    else WorkCode(i, alloc)
  }

  // The code of the first n instructions of block b.
  ghost function BodyCode(f: Function, b: nat, n: nat, alloc: map<nat, Loc>, lay: Layout): (code: seq<Instr>)
    requires b < |f.blocks| && n <= |f.blocks[b].body| && CallSaves.AreaOk(lay.saves)
    ensures StraightLine(code)
  {
    if n == 0 then [] else BodyCode(f, b, n - 1, alloc, lay) + InstCode(f, b, n - 1, alloc, lay)
  }

  lemma WorkExec(i: Inst, alloc: map<nat, Loc>, st: State, env: Env)
    ensures Exec(WorkCode(i, alloc), st, env) == Apply(Work(i.op, DstOf(i, alloc), ArgsOf(i.args, alloc)), st, env)
  {
    var code := WorkCode(i, alloc);
    assert code[0] == Work(i.op, DstOf(i, alloc), ArgsOf(i.args, alloc)) && code[1..] == Nops(i.words);
    match Apply(code[0], st, env)
    case None =>
    case Some(st') => NopsDoNothing(i.words, st', env);
  }

  // Writing the result of instruction k disturbs no value read later.
  lemma ResultDisturbsNothing(f: Function, alloc: map<nat, Loc>, high: nat, b: nat, k: nat, u: nat)
    requires AllocationOk(f, alloc, high) && b < |f.blocks| && k < |f.blocks[b].body|
    requires f.blocks[b].body[k].dst.Some? && u != f.blocks[b].body[k].dst.value && Needed(f, u, b, k + 1)
    ensures Place(alloc, u) != Place(alloc, f.blocks[b].body[k].dst.value)
  {
    var d := f.blocks[b].body[k].dst.value;
    assert f.sites[d] == InstAt(b, k);
    NeededIsReached(f, u, b, k + 1);
    NotDead(f, b, k, u, d);
  }

  lemma NotDead(f: Function, b: nat, k: nat, u: nat, d: nat)
    requires WellFormed(f) && d in f.sites && f.sites[d] == InstAt(b, k) && Needed(f, u, b, k + 1)
    ensures !DeadBefore(f, u, d) && !DeadBefore(f, d, u)
  {
    var p :| p != [] && p[0] == b && LiveAlong(f, u, p, k + 1);
    if DeadBefore(f, u, d) {
      LiveThenEarly(f, u, d, p, k + 1);
    } else if DeadBefore(f, d, u) {
      NotLiveBeforeDef(f, u, p, k + 1);
    }
  }

  // A value needed after instruction k is its result or was needed before it.
  lemma NeededBefore(f: Function, b: nat, k: nat, u: nat)
    requires WellFormed(f) && b < |f.blocks| && k < |f.blocks[b].body| && Needed(f, u, b, k + 1)
    ensures f.blocks[b].body[k].dst == Some(u) || Needed(f, u, b, k)
  {
    var p :| p != [] && p[0] == b && LiveAlong(f, u, p, k + 1);
    NeededIsReached(f, u, b, k + 1);
    assert Defines(f, f.sites[u], u);
    if f.blocks[b].body[k].dst != Some(u) {
      if |p| == 1 {
        var j: nat :| k + 1 <= j <= |f.blocks[b].body| && UsedAt(f.blocks[b], j, u) && !DefinedWithin(f, u, b, k + 1, j);
        assert !DefinedWithin(f, u, b, k, j);
      }
      assert LiveAlong(f, u, p, k);
    }
  }

  // The operands of an instruction read in the machine what they evaluate to.
  lemma OperandsMatch(f: Function, alloc: map<nat, Loc>, vals: Vals, world: World, st: State, b: nat, k: nat)
    requires WellFormed(f) && alloc.Keys == f.sites.Keys && Matches(f, alloc, vals, world, st, b, k)
    requires b < |f.blocks| && k < |f.blocks[b].body|
    ensures Values(ArgsOf(f.blocks[b].body[k].args, alloc), st) == EvalAll(f.blocks[b].body[k].args, vals)
  {
    var i := f.blocks[b].body[k];
    forall n | 0 <= n < |i.args|
      ensures Value(ArgOf(i.args[n], alloc), st) == EvalOperand(i.args[n], vals)
    {
      OperandMatches(f, alloc, vals, world, st, b, k, i.args[n]);
    }
  }

  // What the machine holds after instruction k, when it held the values needed before.
  ghost predicate Carries(f: Function, alloc: map<nat, Loc>, b: nat, k: nat, v: int, w: World, st: State, st': State)
    requires b < |f.blocks| && k < |f.blocks[b].body|
  {
    && st'.world == w && st'.Get(Reg(REG_ZERO)) == st.Get(Reg(REG_ZERO))
    && (f.blocks[b].body[k].dst.Some? ==> st'.Get(Place(alloc, f.blocks[b].body[k].dst.value)) == v)
    && forall u: nat :: Needed(f, u, b, k + 1) && f.blocks[b].body[k].dst != Some(u) ==>
         st'.Get(Place(alloc, u)) == st.Get(Place(alloc, u))
  }

  lemma CarriesMatches(f: Function, alloc: map<nat, Loc>, b: nat, k: nat, vals: Vals, v: int, world: World, w: World,
                       st: State, st': State)
    requires WellFormed(f) && b < |f.blocks| && k < |f.blocks[b].body| && Matches(f, alloc, vals, world, st, b, k)
    requires Carries(f, alloc, b, k, v, w, st, st')
    ensures var d := f.blocks[b].body[k].dst;
            Matches(f, alloc, if d.Some? then vals[d.value := v] else vals, w, st', b, k + 1)
  {
    var d := f.blocks[b].body[k].dst;
    var vs := if d.Some? then vals[d.value := v] else vals;
    forall u | Needed(f, u, b, k + 1)
      ensures st'.Get(Place(alloc, u)) == Lookup(vs, u)
    {
      NeededBefore(f, b, k, u);
    }
  }

  lemma WorkSimulated(f: Function, alloc: map<nat, Loc>, high: nat, b: nat, k: nat,
                      vals: Vals, world: World, st: State, env: Env)
    requires AllocationOk(f, alloc, high) && b < |f.blocks| && k < |f.blocks[b].body|
    requires Matches(f, alloc, vals, world, st, b, k)
    ensures var i := f.blocks[b].body[k];
            match env.meaning(i.op, EvalAll(i.args, vals), world)
            case None => Exec(WorkCode(i, alloc), st, env) == None
            case Some((v, w)) =>
              Exec(WorkCode(i, alloc), st, env).Some? && Carries(f, alloc, b, k, v, w, st, Exec(WorkCode(i, alloc), st, env).value)
  {
    var i := f.blocks[b].body[k];
    WorkExec(i, alloc, st, env);
    OperandsMatch(f, alloc, vals, world, st, b, k);
    if i.dst.Some? {
      assert f.sites[i.dst.value] == InstAt(b, k);
      forall u | Needed(f, u, b, k + 1) && u != i.dst.value
        ensures Place(alloc, u) != Place(alloc, i.dst.value)
      {
        ResultDisturbsNothing(f, alloc, high, b, k, u);
      }
    }
  }

  // ----- Calls --------------------------------------------------------------------------------------

  lemma CallExec(words: nat, op: nat, args: seq<Arg>, st: State, env: Env)
    ensures StraightLine(Nops(words) + [Call(op, args)])
    ensures Exec(Nops(words) + [Call(op, args)], st, env) == Apply(Call(op, args), st, env)
  {
    var call := [Call(op, args)];
    NopsDoNothing(words, st, env);
    ExecAppend(Nops(words), call, st, env);
    assert call[1..] == [];
  }

  lemma TakeResultTakes(dst: Option<Loc>, high: nat, st: State, env: Env)
    requires high <= MAX_EMIT_REG + 1 && (dst.Some? ==> Outside(dst.value, high) && (dst.value.Slot? ==> high <= MAX_EMIT_REG))
    ensures Exec(TakeResult(dst, high, env.frameBase), st, env).Some?
    ensures var st' := Exec(TakeResult(dst, high, env.frameBase), st, env).value;
            && (dst.Some? ==> st'.Get(dst.value) == st.Get(Reg(0)))
            && OnlyChanges(st, st', (if dst.Some? then {dst.value} else {}) + {Reg(REG_SCRATCH)} + if high <= MAX_EMIT_REG then {Reg(high)} else {})
  {
    if dst.Some? {
      var mov := [Mov(if dst.value.Slot? then high else dst.value.r, 0)];
      assert mov[1..] == [];
      var s1 := Apply(mov[0], st, env).value;
      assert Exec(mov, st, env) == Some(s1);
      if dst.value.Slot? {
        WriteFromWrites(dst.value, high, s1, env);
        ExecAppend(mov, WriteFrom(dst.value, high, env.frameBase), st, env);
      }
    }
  }

  // The states a call's code goes through, from st to st4.
  ghost predicate CallRuns(i: Inst, saved: set<nat>, alloc: map<nat, Loc>, lay: Layout, env: Env,
                           st: State, st1: State, st2: State, st3: State, st4: State)
    requires CallSaves.AreaOk(lay.saves)
  {
    && CallSaves.Spilled(saved, lay.saves, lay.high, st, st1)
    && Apply(Call(i.op, ArgsOf(i.args, alloc)), st1, env) == Some(st2)
    && CallSaves.Restored(saved, lay.saves, lay.high, st2, st3)
    && (i.dst.Some? ==> st4.Get(Place(alloc, i.dst.value)) == st3.Get(Reg(0)))
    && OnlyChanges(st3, st4, ResultChanges(i, alloc, lay.high))
  }

  // What taking the result of a call may change.
  ghost function ResultChanges(i: Inst, alloc: map<nat, Loc>, high: nat): set<Loc> {
    (if i.dst.Some? then {Place(alloc, i.dst.value)} else {}) + {Reg(REG_SCRATCH)} +
    if high <= MAX_EMIT_REG then {Reg(high)} else {}
  }

  lemma CallCodeRuns(i: Inst, saved: set<nat>, alloc: map<nat, Loc>, lay: Layout, st: State, env: Env)
    returns (st1: State, st2: State, st3: State, st4: State)
    requires CallSaves.AreaOk(lay.saves) && lay.high <= MAX_EMIT_REG + 1 && lay.frameBase == env.frameBase
    requires i.dst.Some? ==> Outside(Place(alloc, i.dst.value), lay.high) && ResultFits(i, alloc, lay.high)
    ensures CallSaves.Spilled(saved, lay.saves, lay.high, st, st1)
    ensures match Apply(Call(i.op, ArgsOf(i.args, alloc)), st1, env)
            case None => Exec(CallCode(i, saved, alloc, lay), st, env) == None
            case Some(_) => Exec(CallCode(i, saved, alloc, lay), st, env) == Some(st4) && CallRuns(i, saved, alloc, lay, env, st, st1, st2, st3, st4)
  {
    var spill := CallSaves.SpillCode(saved, lay.saves, lay.high, lay.frameBase);
    var call := Nops(i.words) + [Call(i.op, ArgsOf(i.args, alloc))];
    var restore := CallSaves.RestoreCode(saved, lay.saves, lay.high, lay.frameBase);
    var take := TakeResult(DstOf(i, alloc), lay.high, lay.frameBase);
    CallSaves.SpillRuns(saved, lay.saves, lay.high, st, env);
    st1 := Exec(spill, st, env).value;
    st2, st3, st4 := st1, st1, st1;
    CallExec(i.words, i.op, ArgsOf(i.args, alloc), st1, env);
    ExecAppend(spill, call, st, env);
    ExecAppend(spill + call, restore, st, env);
    ExecAppend(spill + call + restore, take, st, env);
    if Apply(Call(i.op, ArgsOf(i.args, alloc)), st1, env).Some? {
      st2 := Exec(call, st1, env).value;
      CallSaves.RestoreRuns(saved, lay.saves, lay.high, st2, env);
      st3 := Exec(restore, st2, env).value;
      TakeResultTakes(DstOf(i, alloc), lay.high, st3, env);
      st4 := Exec(take, st3, env).value;
    }
  }

  // Spilling leaves every place an operand can be in as it was.
  lemma SpilledOperands(f: Function, alloc: map<nat, Loc>, high: nat, args: seq<Operand>, saved: set<nat>, sv: CallSaves.Saves, st: State, st1: State)
    requires AllocationOk(f, alloc, high) && CallSaves.AreaOk(sv) && CallSaves.Spilled(saved, sv, high, st, st1)
    ensures Values(ArgsOf(args, alloc), st1) == Values(ArgsOf(args, alloc), st)
  {
    forall n | 0 <= n < |args|
      ensures Value(ArgOf(args[n], alloc), st1) == Value(ArgOf(args[n], alloc), st)
    {
    }
  }

  // Every value needed after a call other than its result is where it was, whatever the callee left.
  lemma CallCarries(f: Function, alloc: map<nat, Loc>, lay: Layout, b: nat, k: nat, env: Env, u: nat,
                    st: State, st1: State, st2: State, st3: State, st4: State)
    requires AllocationOk(f, alloc, lay.high) && LayoutOk(f, alloc, lay) && CallSaves.IsCall(f, lay.saves.calls, b, k)
    requires CallRuns(f.blocks[b].body[k], CallSaves.SpillSet(f, Liveness.Homes(alloc, lay.high), b, k), alloc, lay, env, st, st1, st2, st3, st4)
    requires Needed(f, u, b, k + 1) && f.blocks[b].body[k].dst != Some(u)
    ensures st4.Get(Place(alloc, u)) == st.Get(Place(alloc, u))
  {
    NeededIsReached(f, u, b, k + 1);
    if f.blocks[b].body[k].dst.Some? {
      ResultDisturbsNothing(f, alloc, lay.high, b, k, u);
    }
    CallMeansSome(f.blocks[b].body[k], alloc, st1, st2, env);
    TakenKeeps(f.blocks[b].body[k], alloc, lay.high, st3, st4, Place(alloc, u));
    ValueSurvives(f, alloc, lay, b, k, u, st, st1, st2, st3);
  }

  lemma CallMeansSome(i: Inst, alloc: map<nat, Loc>, st1: State, st2: State, env: Env)
    requires Apply(Call(i.op, ArgsOf(i.args, alloc)), st1, env) == Some(st2)
    ensures forall l :: SurvivesCall(l) ==> st2.Get(l) == st1.Get(l)
  {
    CallMeans(i.op, ArgsOf(i.args, alloc), st1, env);
  }

  lemma ValueSurvives(f: Function, alloc: map<nat, Loc>, lay: Layout, b: nat, k: nat, u: nat,
                      st: State, st1: State, st2: State, st3: State)
    requires AllocationOk(f, alloc, lay.high) && LayoutOk(f, alloc, lay) && CallSaves.IsCall(f, lay.saves.calls, b, k)
    requires var saved := CallSaves.SpillSet(f, Liveness.Homes(alloc, lay.high), b, k);
             CallSaves.Spilled(saved, lay.saves, lay.high, st, st1) && CallSaves.Restored(saved, lay.saves, lay.high, st2, st3)
    requires forall l :: SurvivesCall(l) ==> st2.Get(l) == st1.Get(l)
    requires u in alloc && Needed(f, u, b, k + 1) && f.blocks[b].body[k].dst != Some(u)
    ensures st3.Get(alloc[u]) == st.Get(alloc[u])
  {
    var a, saved := Liveness.Homes(alloc, lay.high), CallSaves.SpillSet(f, Liveness.Homes(alloc, lay.high), b, k);
    if alloc[u].Reg? {
      assert Liveness.RegOf(a, u) == Some(alloc[u].r);
      CallSaves.LiveValuesSurvive(f, a, lay.saves, b, k, u, st, st1, st2, st3);
    } else {
      SpilledKeeps(saved, lay.saves, lay.high, st, st1, alloc[u]);
      RestoredKeeps(saved, lay.saves, lay.high, st2, st3, alloc[u]);
    }
  }

  lemma CallSimulated(f: Function, alloc: map<nat, Loc>, lay: Layout, b: nat, k: nat,
                      vals: Vals, world: World, st: State, env: Env)
    requires AllocationOk(f, alloc, lay.high) && LayoutOk(f, alloc, lay) && lay.frameBase == env.frameBase
    requires CallSaves.IsCall(f, lay.saves.calls, b, k) && Matches(f, alloc, vals, world, st, b, k)
    ensures var i, code := f.blocks[b].body[k], InstCode(f, b, k, alloc, lay);
            match env.meaning(i.op, EvalAll(i.args, vals), world)
            case None => Exec(code, st, env) == None
            case Some((v, w)) => Exec(code, st, env).Some? && Carries(f, alloc, b, k, v, w, st, Exec(code, st, env).value)
  {
    var i, saved := f.blocks[b].body[k], CallSaves.SpillSet(f, Liveness.Homes(alloc, lay.high), b, k);
    if i.dst.Some? {
      assert f.sites[i.dst.value] == InstAt(b, k);
    }
    var st1, st2, st3, st4 := CallCodeRuns(i, saved, alloc, lay, st, env);
    OperandsMatch(f, alloc, vals, world, st, b, k);
    SpilledOperands(f, alloc, lay.high, i.args, saved, lay.saves, st, st1);
    CallMeans(i.op, ArgsOf(i.args, alloc), st1, env);
    match env.meaning(i.op, EvalAll(i.args, vals), world)
    case None =>
    case Some((v, w)) =>
      CallDone(f, alloc, lay, b, k, env, v, w, st, st1, st2, st3, st4);
  }

  lemma CallMeans(op: nat, args: seq<Arg>, st: State, env: Env)
    ensures Apply(Call(op, args), st, env) ==
            match env.meaning(op, Values(args, st), st.world)
            case None => None
            case Some((v, w)) => Some(AfterCall(st, v, w, env.left(op, Values(args, st), st.world)))
  {
  }

  lemma CallDone(f: Function, alloc: map<nat, Loc>, lay: Layout, b: nat, k: nat, env: Env, v: int, w: World,
                 st: State, st1: State, st2: State, st3: State, st4: State)
    requires AllocationOk(f, alloc, lay.high) && LayoutOk(f, alloc, lay) && CallSaves.IsCall(f, lay.saves.calls, b, k)
    requires CallRuns(f.blocks[b].body[k], CallSaves.SpillSet(f, Liveness.Homes(alloc, lay.high), b, k), alloc, lay, env, st, st1, st2, st3, st4)
    requires var i := f.blocks[b].body[k]; env.meaning(i.op, Values(ArgsOf(i.args, alloc), st1), st1.world) == Some((v, w))
    ensures Carries(f, alloc, b, k, v, w, st, st4)
  {
    var i, saved := f.blocks[b].body[k], CallSaves.SpillSet(f, Liveness.Homes(alloc, lay.high), b, k);
    if i.dst.Some? {
      assert f.sites[i.dst.value] == InstAt(b, k);
    }
    CallLeaves(i, saved, alloc, lay, env, st, st1, st2, st3, st4, v, w);
    forall u: nat | Needed(f, u, b, k + 1) && i.dst != Some(u)
      ensures st4.Get(Place(alloc, u)) == st.Get(Place(alloc, u))
    {
      CallCarries(f, alloc, lay, b, k, env, u, st, st1, st2, st3, st4);
    }
  }

  // The result of a call is in its place and the zero register still holds zero.
  lemma CallLeaves(i: Inst, saved: set<nat>, alloc: map<nat, Loc>, lay: Layout, env: Env,
                   st: State, st1: State, st2: State, st3: State, st4: State, v: int, w: World)
    requires CallSaves.AreaOk(lay.saves) && lay.high <= MAX_EMIT_REG + 1
    requires CallRuns(i, saved, alloc, lay, env, st, st1, st2, st3, st4)
    requires i.dst.Some? ==> Place(alloc, i.dst.value) != Reg(REG_ZERO)
    requires env.meaning(i.op, Values(ArgsOf(i.args, alloc), st1), st1.world) == Some((v, w))
    ensures st4.world == w && st4.Get(Reg(REG_ZERO)) == st.Get(Reg(REG_ZERO))
    ensures i.dst.Some? ==> st4.Get(Place(alloc, i.dst.value)) == v
  {
    CallMeans(i.op, ArgsOf(i.args, alloc), st1, env);
    RestoredKeeps(saved, lay.saves, lay.high, st2, st3, Reg(0));
    RestoredKeeps(saved, lay.saves, lay.high, st2, st3, Reg(REG_ZERO));
    SpilledKeeps(saved, lay.saves, lay.high, st, st1, Reg(REG_ZERO));
    TakenKeeps(i, alloc, lay.high, st3, st4, Reg(REG_ZERO));
  }

  lemma SpilledKeeps(saved: set<nat>, sv: CallSaves.Saves, n: nat, st: State, st1: State, l: Loc)
    requires CallSaves.AreaOk(sv) && CallSaves.Spilled(saved, sv, n, st, st1) && !CallSaves.InArea(sv, l) && l != Reg(REG_SCRATCH)
    ensures st1.Get(l) == st.Get(l)
  {
  }

  lemma RestoredKeeps(saved: set<nat>, sv: CallSaves.Saves, n: nat, st: State, st1: State, l: Loc)
    requires CallSaves.AreaOk(sv) && CallSaves.Restored(saved, sv, n, st, st1)
    requires l.Reg? ==> !CallSaves.Saved(saved, sv, l.r, n) && l.r != REG_SCRATCH
    ensures st1.Get(l) == st.Get(l)
  {
  }

  lemma TakenKeeps(i: Inst, alloc: map<nat, Loc>, high: nat, st: State, st1: State, l: Loc)
    requires OnlyChanges(st, st1, ResultChanges(i, alloc, high)) && (i.dst.Some? ==> Place(alloc, i.dst.value) != l)
    requires Outside(l, high) || l == Reg(REG_ZERO)
    requires l != Reg(REG_SCRATCH)
    ensures st1.Get(l) == st.Get(l)
  {
  }

  // Running an instruction's code is running the instruction.
  lemma InstSimulated(f: Function, alloc: map<nat, Loc>, lay: Layout, b: nat, k: nat,
                      vals: Vals, world: World, st: State, env: Env)
    requires AllocationOk(f, alloc, lay.high) && LayoutOk(f, alloc, lay) && lay.frameBase == env.frameBase
    requires b < |f.blocks| && k < |f.blocks[b].body| && Matches(f, alloc, vals, world, st, b, k)
    ensures match StepInst(f.blocks[b].body[k], vals, world, env.meaning)
            case None => Exec(InstCode(f, b, k, alloc, lay), st, env) == None
            case Some((vs, w)) =>
              Exec(InstCode(f, b, k, alloc, lay), st, env).Some? &&
              Matches(f, alloc, vs, w, Exec(InstCode(f, b, k, alloc, lay), st, env).value, b, k + 1)
  {
    var i := f.blocks[b].body[k];
    if i.op in lay.saves.calls {
      CallSimulated(f, alloc, lay, b, k, vals, world, st, env);
    } else {
      WorkSimulated(f, alloc, lay.high, b, k, vals, world, st, env);
    }
    match env.meaning(i.op, EvalAll(i.args, vals), world)
    case None =>
    case Some((v, w)) =>
      CarriesMatches(f, alloc, b, k, vals, v, world, w, st, Exec(InstCode(f, b, k, alloc, lay), st, env).value);
  }

  lemma BodyExtended(f: Function, alloc: map<nat, Loc>, lay: Layout, b: nat, n: nat, st: State, env: Env)
    requires b < |f.blocks| && 0 < n <= |f.blocks[b].body| && CallSaves.AreaOk(lay.saves)
    ensures Exec(BodyCode(f, b, n, alloc, lay), st, env) ==
            match Exec(BodyCode(f, b, n - 1, alloc, lay), st, env)
            case None => None
            case Some(st') => Exec(InstCode(f, b, n - 1, alloc, lay), st', env)
  {
    ExecAppend(BodyCode(f, b, n - 1, alloc, lay), InstCode(f, b, n - 1, alloc, lay), st, env);
  }

  // What n instructions of a block lead to, and what their code leads to.
  ghost predicate Agree(f: Function, alloc: map<nat, Loc>, b: nat, n: nat, ran: Option<(Vals, World)>, got: Option<State>) {
    match ran
    case None => got == None
    case Some((vs, w)) => got.Some? && Matches(f, alloc, vs, w, got.value, b, n)
  }

  // Running a block's straight-line code is running its instructions.
  lemma {:induction false} BodySimulated(f: Function, alloc: map<nat, Loc>, lay: Layout, b: nat, n: nat,
                                         vals: Vals, world: World, st: State, env: Env)
    requires AllocationOk(f, alloc, lay.high) && LayoutOk(f, alloc, lay) && lay.frameBase == env.frameBase
    requires b < |f.blocks| && n <= |f.blocks[b].body| && Matches(f, alloc, vals, world, st, b, 0)
    ensures Agree(f, alloc, b, n, RunBody(f.blocks[b].body, n, vals, world, env.meaning), Exec(BodyCode(f, b, n, alloc, lay), st, env))
  {
    if n > 0 {
      BodySimulated(f, alloc, lay, b, n - 1, vals, world, st, env);
      BodyFurther(f, alloc, lay, b, n - 1, vals, world, st, env, RunBody(f.blocks[b].body, n - 1, vals, world, env.meaning),
                  Exec(BodyCode(f, b, n - 1, alloc, lay), st, env));
    }
  }

  lemma BodyFurther(f: Function, alloc: map<nat, Loc>, lay: Layout, b: nat, k: nat, vals: Vals, world: World, st: State, env: Env,
                    ran: Option<(Vals, World)>, got: Option<State>)
    requires AllocationOk(f, alloc, lay.high) && LayoutOk(f, alloc, lay) && lay.frameBase == env.frameBase
    requires b < |f.blocks| && k < |f.blocks[b].body| && Agree(f, alloc, b, k, ran, got)
    requires ran == RunBody(f.blocks[b].body, k, vals, world, env.meaning) && got == Exec(BodyCode(f, b, k, alloc, lay), st, env)
    ensures Agree(f, alloc, b, k + 1, RunBody(f.blocks[b].body, k + 1, vals, world, env.meaning), Exec(BodyCode(f, b, k + 1, alloc, lay), st, env))
  {
    var ran1 := RunBody(f.blocks[b].body, k + 1, vals, world, env.meaning);
    var got1 := ExecFurther(f, alloc, lay, b, k, st, env, got);
    OneInstFurther(f, alloc, lay, b, k, ran, got, env, ran1, got1);
  }

  lemma ExecFurther(f: Function, alloc: map<nat, Loc>, lay: Layout, b: nat, k: nat, st: State, env: Env, got: Option<State>)
    returns (got1: Option<State>)
    requires b < |f.blocks| && k < |f.blocks[b].body| && CallSaves.AreaOk(lay.saves) && got == Exec(BodyCode(f, b, k, alloc, lay), st, env)
    ensures got1 == Exec(BodyCode(f, b, k + 1, alloc, lay), st, env)
    ensures got1 == match got case None => None case Some(st') => Exec(InstCode(f, b, k, alloc, lay), st', env)
  {
    BodyExtended(f, alloc, lay, b, k + 1, st, env);
    got1 := Exec(BodyCode(f, b, k + 1, alloc, lay), st, env);
  }

  // From where n instructions lead, the next leads on.
  lemma OneInstFurther(f: Function, alloc: map<nat, Loc>, lay: Layout, b: nat, n: nat, ran: Option<(Vals, World)>, got: Option<State>, env: Env,
                       ran1: Option<(Vals, World)>, got1: Option<State>)
    requires AllocationOk(f, alloc, lay.high) && LayoutOk(f, alloc, lay) && lay.frameBase == env.frameBase
    requires b < |f.blocks| && n < |f.blocks[b].body|
    requires Agree(f, alloc, b, n, ran, got)
    requires ran1 == match ran case None => None case Some((vs, w)) => StepInst(f.blocks[b].body[n], vs, w, env.meaning)
    requires got1 == match got case None => None case Some(st) => Exec(InstCode(f, b, n, alloc, lay), st, env)
    ensures Agree(f, alloc, b, n + 1, ran1, got1)
  {
    if ran.Some? {
      InstSimulated(f, alloc, lay, b, n, ran.value.0, ran.value.1, got.value, env);
    }
  }

  // ----- Edges ------------------------------------------------------------------------------------

  function SourceOf(o: Operand, alloc: map<nat, Loc>): Source {
    match o
    case Val(v) => From(Place(alloc, v))
    case Imm(w) => Const(w)
    case Undef => From(Reg(REG_ZERO))
  }

  // Phi i's move on an edge: none when the value is already in place.
  function PhiMove(phi: Phi, from: nat, alloc: map<nat, Loc>): seq<Move> {
    if from !in phi.incoming then []
    else
      var dst, src := Place(alloc, phi.dst), SourceOf(phi.incoming[from], alloc);
      if src == From(dst) then [] else [Move(dst, src)]
  }

  function EdgeMovesUpTo(phis: seq<Phi>, n: nat, from: nat, alloc: map<nat, Loc>): seq<Move>
    requires n <= |phis|
  {
    if n == 0 then [] else EdgeMovesUpTo(phis, n - 1, from, alloc) + PhiMove(phis[n - 1], from, alloc)
  }

  ghost predicate FromPhi(phis: seq<Phi>, n: nat, from: nat, alloc: map<nat, Loc>, m: Move)
    requires n <= |phis|
  {
    exists i :: 0 <= i < n && PhiMove(phis[i], from, alloc) == [m]
  }

  lemma {:induction false} MoveIsFromPhi(phis: seq<Phi>, n: nat, from: nat, alloc: map<nat, Loc>, m: Move)
    requires n <= |phis| && m in EdgeMovesUpTo(phis, n, from, alloc)
    ensures FromPhi(phis, n, from, alloc, m)
  {
    if n > 0 {
      if m in EdgeMovesUpTo(phis, n - 1, from, alloc) {
        MoveIsFromPhi(phis, n - 1, from, alloc, m);
      } else {
        assert PhiMove(phis[n - 1], from, alloc) == [m];
      }
    }
  }

  lemma {:induction false} PhiMoveIsCollected(phis: seq<Phi>, n: nat, from: nat, alloc: map<nat, Loc>, i: nat)
    requires i < n <= |phis| && PhiMove(phis[i], from, alloc) != []
    ensures PhiMove(phis[i], from, alloc)[0] in EdgeMovesUpTo(phis, n, from, alloc)
  {
    if i < n - 1 {
      PhiMoveIsCollected(phis, n - 1, from, alloc, i);
    }
  }

  ghost predicate DistinctPhiPlaces(phis: seq<Phi>, alloc: map<nat, Loc>) {
    forall i, j :: 0 <= i < j < |phis| ==> Place(alloc, phis[i].dst) != Place(alloc, phis[j].dst)
  }

  lemma {:induction false} MovesDistinct(phis: seq<Phi>, n: nat, from: nat, alloc: map<nat, Loc>)
    requires n <= |phis| && DistinctPhiPlaces(phis, alloc)
    ensures DistinctDsts(EdgeMovesUpTo(phis, n, from, alloc))
  {
    if n > 0 {
      MovesDistinct(phis, n - 1, from, alloc);
      var before := EdgeMovesUpTo(phis, n - 1, from, alloc);
      forall m | 0 <= m < |before|
        ensures before[m].dst != Place(alloc, phis[n - 1].dst)
      {
        MoveIsFromPhi(phis, n - 1, from, alloc, before[m]);
        var i :| 0 <= i < n - 1 && PhiMove(phis[i], from, alloc) == [before[m]];
      }
    }
  }

  // The moves an edge of f asks for.
  function MovesOfEdge(f: Function, alloc: map<nat, Loc>, from: nat, to: nat): seq<Move>
    requires to < |f.blocks|
  {
    EdgeMovesUpTo(f.blocks[to].phis, |f.blocks[to].phis|, from, alloc)
  }

  // Nothing live at the end of b, and no other phi of s, sits where a phi of s goes.
  lemma PhiPlaceIsFree(f: Function, alloc: map<nat, Loc>, high: nat, s: nat, i: nat, u: nat)
    requires AllocationOk(f, alloc, high) && s < |f.blocks| && i < |f.blocks[s].phis|
    requires u in f.sites && u != f.blocks[s].phis[i].dst && !BlockLocal(f, u)
    ensures Place(alloc, u) != Place(alloc, f.blocks[s].phis[i].dst)
  {
    var d := f.blocks[s].phis[i].dst;
    assert f.sites[d] == PhiAt(s, i);
    assert !BlockLocal(f, d);
  }

  lemma PhiPlacesDistinct(f: Function, alloc: map<nat, Loc>, high: nat, s: nat)
    requires AllocationOk(f, alloc, high) && s < |f.blocks|
    ensures DistinctPhiPlaces(f.blocks[s].phis, alloc)
  {
    var phis := f.blocks[s].phis;
    forall i, j | 0 <= i < j < |phis|
      ensures Place(alloc, phis[i].dst) != Place(alloc, phis[j].dst)
    {
      assert f.sites[phis[i].dst] == PhiAt(s, i) && f.sites[phis[j].dst] == PhiAt(s, j);
      PhiPlaceIsFree(f, alloc, high, s, j, phis[i].dst);
    }
  }

  // What the sequentialiser requires of an edge's moves, for any scratch window above
  // the allocated registers.
  lemma EdgeMovesOk(f: Function, alloc: map<nat, Loc>, high: nat, from: nat, to: nat, h: nat)
    requires AllocationOk(f, alloc, high) && Edge(f, from, to) && high <= h <= MAX_EMIT_REG + 1
    ensures EdgeMoves(MovesOfEdge(f, alloc, from, to), h)
  {
    var phis := f.blocks[to].phis;
    var moves := MovesOfEdge(f, alloc, from, to);
    PhiPlacesDistinct(f, alloc, high, to);
    MovesDistinct(phis, |phis|, from, alloc);
    forall m | 0 <= m < |moves|
      ensures Outside(moves[m].dst, h)
      ensures match moves[m].src
              case From(l) => l != moves[m].dst && (Outside(l, h) || l == Reg(REG_ZERO))
              case Const(w) => IsWord(w)
              case Word(w) => IsWord(w)
    {
      MoveIsFromPhi(phis, |phis|, from, alloc, moves[m]);
      var i :| 0 <= i < |phis| && PhiMove(phis[i], from, alloc) == [moves[m]];
      assert f.sites[phis[i].dst] == PhiAt(to, i);
      assert PhiOperandOk(f, from, phis[i]);
    }
  }

  // The value a phi's operand has at the end of the predecessor is in the machine.
  lemma PhiOperandMatches(f: Function, alloc: map<nat, Loc>, vals: Vals, world: World, st: State, b: nat, s: nat, i: nat)
    requires WellFormed(f) && alloc.Keys == f.sites.Keys && Edge(f, b, s) && i < |f.blocks[s].phis|
    requires Matches(f, alloc, vals, world, st, b, |f.blocks[b].body|)
    ensures b in f.blocks[s].phis[i].incoming
    ensures Eval(SourceOf(f.blocks[s].phis[i].incoming[b], alloc), st) == EvalOperand(f.blocks[s].phis[i].incoming[b], vals)
  {
    var phi := f.blocks[s].phis[i];
    assert PhiOperandOk(f, b, phi);
    var o := phi.incoming[b];
    if o.Val? {
      assert LiveAlong(f, o.v, [b, s], |f.blocks[b].body|);
    }
  }

  // What a successor needs and its phis do not define was needed at the end of b.
  lemma NeededAcross(f: Function, b: nat, s: nat, u: nat)
    requires WellFormed(f) && Edge(f, b, s) && Needed(f, u, s, 0)
    requires forall i :: 0 <= i < |f.blocks[s].phis| ==> f.blocks[s].phis[i].dst != u
    ensures u in f.sites && Needed(f, u, b, |f.blocks[b].body|) && !BlockLocal(f, u)
  {
    var p :| p != [] && p[0] == s && LiveAlong(f, u, p, 0);
    NeededIsReached(f, u, s, 0);
    var q := [b] + p;
    assert q[1..] == p;
    assert LiveAlong(f, u, q, |f.blocks[b].body|);
    if BlockLocal(f, u) {
      NotLiveAtEntry(f, u, p);
    }
  }

  // The machine before and after an edge's moves.
  ghost predicate EdgeEffect(moves: seq<Move>, h: nat, st: State, st': State) {
    && (forall i :: 0 <= i < |moves| ==> st'.Get(moves[i].dst) == Eval(moves[i].src, st))
    && (moves != [] ==> h + 1 <= MAX_EMIT_REG)
    && OnlyChanges(st, st', Dsts(moves) + if moves == [] then {} else Scratch(h))
  }

  lemma SequentialisesEffect(moves: seq<Move>, code: seq<Instr>, h: nat, st: State, env: Env)
    requires Sequentialises(moves, code, h, env.frameBase)
    ensures Exec(code, st, env).Some? && EdgeEffect(moves, h, st, Exec(code, st, env).value)
  {
    assert IsParallelCopy(moves, code, h, st, env);
  }

  // A value in an allocated place that no phi of s takes survives the edge.
  lemma Bystander(f: Function, alloc: map<nat, Loc>, high: nat, b: nat, s: nat, h: nat, st: State, st': State, l: Loc)
    requires AllocationOk(f, alloc, high) && Edge(f, b, s) && high <= h <= MAX_EMIT_REG + 1
    requires EdgeEffect(MovesOfEdge(f, alloc, b, s), h, st, st')
    requires Outside(l, high) || l == Reg(REG_ZERO)
    requires forall i :: 0 <= i < |f.blocks[s].phis| && PhiMove(f.blocks[s].phis[i], b, alloc) != [] ==>
               l != Place(alloc, f.blocks[s].phis[i].dst)
    ensures st'.Get(l) == st.Get(l)
  {
    var phis := f.blocks[s].phis;
    var moves := MovesOfEdge(f, alloc, b, s);
    if l in Dsts(moves) {
      var m :| 0 <= m < |moves| && moves[m].dst == l;
      MoveIsFromPhi(phis, |phis|, b, alloc, moves[m]);
    }
  }

  lemma PhiArrives(f: Function, alloc: map<nat, Loc>, high: nat, b: nat, s: nat, h: nat,
                   vals: Vals, world: World, st: State, st': State, i: nat)
    requires AllocationOk(f, alloc, high) && Edge(f, b, s) && high <= h <= MAX_EMIT_REG + 1
    requires Matches(f, alloc, vals, world, st, b, |f.blocks[b].body|)
    requires EdgeEffect(MovesOfEdge(f, alloc, b, s), h, st, st')
    requires i < |f.blocks[s].phis|
    ensures st'.Get(Place(alloc, f.blocks[s].phis[i].dst)) ==
            Lookup(TakeEdge(f.blocks[s].phis, b, vals), f.blocks[s].phis[i].dst)
  {
    var phis := f.blocks[s].phis;
    PhiOperandMatches(f, alloc, vals, world, st, b, s, i);
    PhiDstsDistinct(f, s);
    PhiValueAt(phis, b, vals, i);
    PhiPlaced(f, alloc, high, b, s, h, st, st', i);
  }

  // A phi's place holds what its operand's source held before the edge.
  lemma PhiPlaced(f: Function, alloc: map<nat, Loc>, high: nat, b: nat, s: nat, h: nat, st: State, st': State, i: nat)
    requires AllocationOk(f, alloc, high) && Edge(f, b, s) && high <= h <= MAX_EMIT_REG + 1
    requires EdgeEffect(MovesOfEdge(f, alloc, b, s), h, st, st')
    requires i < |f.blocks[s].phis| && b in f.blocks[s].phis[i].incoming
    ensures st'.Get(Place(alloc, f.blocks[s].phis[i].dst)) == Eval(SourceOf(f.blocks[s].phis[i].incoming[b], alloc), st)
  {
    var phis := f.blocks[s].phis;
    assert f.sites[phis[i].dst] == PhiAt(s, i);
    if PhiMove(phis[i], b, alloc) != [] {
      PhiMoveIsCollected(phis, |phis|, b, alloc, i);
      MoveArrives(MovesOfEdge(f, alloc, b, s), h, st, st', PhiMove(phis[i], b, alloc)[0]);
    } else {
      PhiStays(f, alloc, high, b, s, h, st, st', i);
    }
  }

  lemma MoveArrives(moves: seq<Move>, h: nat, st: State, st': State, m: Move)
    requires EdgeEffect(moves, h, st, st') && m in moves
    ensures st'.Get(m.dst) == Eval(m.src, st)
  {
  }

  // A phi that no move installs has its operand in its own place.
  lemma PhiStays(f: Function, alloc: map<nat, Loc>, high: nat, b: nat, s: nat, h: nat, st: State, st': State, i: nat)
    requires AllocationOk(f, alloc, high) && Edge(f, b, s) && high <= h <= MAX_EMIT_REG + 1
    requires EdgeEffect(MovesOfEdge(f, alloc, b, s), h, st, st')
    requires i < |f.blocks[s].phis| && f.blocks[s].phis[i].dst in f.sites && PhiMove(f.blocks[s].phis[i], b, alloc) == []
    ensures st'.Get(Place(alloc, f.blocks[s].phis[i].dst)) == st.Get(Place(alloc, f.blocks[s].phis[i].dst))
  {
    var l := Place(alloc, f.blocks[s].phis[i].dst);
    PhiSpared(f, alloc, high, b, s, i, l);
    Bystander(f, alloc, high, b, s, h, st, st', l);
  }

  lemma PhiSpared(f: Function, alloc: map<nat, Loc>, high: nat, b: nat, s: nat, i: nat, l: Loc)
    requires AllocationOk(f, alloc, high) && Edge(f, b, s) && i < |f.blocks[s].phis| && f.blocks[s].phis[i].dst in f.sites
    requires PhiMove(f.blocks[s].phis[i], b, alloc) == [] && l == Place(alloc, f.blocks[s].phis[i].dst)
    ensures Outside(l, high)
    ensures forall j :: 0 <= j < |f.blocks[s].phis| && PhiMove(f.blocks[s].phis[j], b, alloc) != [] ==>
              l != Place(alloc, f.blocks[s].phis[j].dst)
  {
    PhiPlacesDistinct(f, alloc, high, s);
  }

  lemma PhiDstsDistinct(f: Function, s: nat)
    requires WellFormed(f) && s < |f.blocks|
    ensures forall j, k :: 0 <= j < k < |f.blocks[s].phis| ==> f.blocks[s].phis[j].dst != f.blocks[s].phis[k].dst
  {
    forall j, k | 0 <= j < k < |f.blocks[s].phis|
      ensures f.blocks[s].phis[j].dst != f.blocks[s].phis[k].dst
    {
      assert f.sites[f.blocks[s].phis[j].dst] == PhiAt(s, j) && f.sites[f.blocks[s].phis[k].dst] == PhiAt(s, k);
    }
  }

  // After the moves of an edge the machine matches the successor's entry.
  lemma EdgeSimulated(f: Function, alloc: map<nat, Loc>, high: nat, b: nat, s: nat, h: nat,
                      vals: Vals, world: World, st: State, st': State)
    requires AllocationOk(f, alloc, high) && Edge(f, b, s) && high <= h <= MAX_EMIT_REG + 1
    requires Matches(f, alloc, vals, world, st, b, |f.blocks[b].body|)
    requires EdgeEffect(MovesOfEdge(f, alloc, b, s), h, st, st')
    ensures Matches(f, alloc, TakeEdge(f.blocks[s].phis, b, vals), world, st', s, 0)
  {
    var phis := f.blocks[s].phis;
    var vals' := TakeEdge(phis, b, vals);
    forall u | Needed(f, u, s, 0)
      ensures st'.Get(Place(alloc, u)) == Lookup(vals', u)
    {
      if i :| 0 <= i < |phis| && phis[i].dst == u {
        PhiArrives(f, alloc, high, b, s, h, vals, world, st, st', i);
      } else {
        NeededAcross(f, b, s, u);
        forall i | 0 <= i < |phis|
          ensures Place(alloc, u) != Place(alloc, phis[i].dst)
        {
          PhiPlaceIsFree(f, alloc, high, s, i, u);
        }
        Bystander(f, alloc, high, b, s, h, st, st', Place(alloc, u));
      }
    }
    forall i | 0 <= i < |phis|
      ensures Place(alloc, phis[i].dst) != Reg(REG_ZERO)
    {
      assert f.sites[phis[i].dst] == PhiAt(s, i);
    }
    Bystander(f, alloc, high, b, s, h, st, st', Reg(REG_ZERO));
  }
}
