// Running a function's emitted code, with branches reaching any distance, is running
// the SSA function block by block.
module Simulation {
  import opened Machine
  import opened Ssa
  import opened PhiCopy
  import opened Assembly
  import opened Lowering
  import opened Placement
  import opened Conditions
  import opened Switches
  import opened SwitchRuns
  import opened Branches

  ghost function WholeBody(f: Function, b: nat, alloc: map<nat, Loc>, lay: Layout): (code: seq<Instr>)
    requires b < |f.blocks| && LayoutOk(f, alloc, lay)
    ensures StraightLine(code)
  {
    BodyCode(f, b, |f.blocks[b].body|, alloc, lay)
  }

  // The code a block ends with.
  datatype Ending = Plain(shape: Shape) | Multi(code: SwitchCode)

  predicate EndSuits(e: Ending, t: Term) {
    if t.Switch? then e.Multi? else e.Plain? && Suits(e.shape, t)
  }

  // The ending is right for block b.
  ghost predicate EndingOk(f: Function, alloc: map<nat, Loc>, high: nat, frameBase: nat, b: nat, e: Ending)
    requires b < |f.blocks|
  {
    if f.blocks[b].term.Switch? then e.Multi? && SwitchOk(f, alloc, high, frameBase, b, e.code)
    else e.Plain? && ShapeOk(f, alloc, high, frameBase, b, e.shape)
  }

  ghost predicate EndingAt(a: Asm, pos: nat, e: Ending, t: Term)
    requires EndSuits(e, t)
  {
    if t.Switch? then SwitchAt(a, pos, e.code, t) else ShapeAt(a, pos, e.shape, t)
  }

  // A straight-line body at a block's recorded offset, then a terminator.
  ghost predicate BlockAt(a: Asm, b: nat, body: seq<Instr>, e: Ending, t: Term) {
    && b < |a.offsets| && EndSuits(e, t)
    && CodeAt(a, a.offsets[b], body) && EndingAt(a, a.offsets[b] + |body|, e, t)
  }

  // Every block's code starts at its offset and ends as it should.
  ghost predicate LaidOut(f: Function, alloc: map<nat, Loc>, lay: Layout, a: Asm, ends: seq<Ending>) {
    && LayoutOk(f, alloc, lay) && |ends| == |f.blocks|
    && (forall b {:trigger ends[b]} :: 0 <= b < |f.blocks| ==> EndingOk(f, alloc, lay.high, lay.frameBase, b, ends[b]))
    && (forall b {:trigger ends[b]} :: 0 <= b < |f.blocks| ==> BlockAt(a, b, WholeBody(f, b, alloc, lay), ends[b], f.blocks[b].term))
  }

  // What n steps from the code of a block lead to, when the SSA function's run leads to e.
  ghost predicate Agrees(f: Function, alloc: map<nat, Loc>, a: Asm, e: Event, o: Option<Outcome>) {
    match e
    case Enter(s, vs, w) =>
      s < |f.blocks| && s < |a.offsets| && o.Some? && o.value.Next? && o.value.pc == a.offsets[s] &&
      Matches(f, alloc, vs, w, o.value.st, s, 0)
    case Done(v, w) => o == Some(Returned(v, w))
    case Stopped => o == Some(Trapped)
  }

  // The body of block b takes the machine to its terminator, or traps as the block does.
  lemma BodyRuns(f: Function, alloc: map<nat, Loc>, lay: Layout, a: Asm, b: nat, vals: Vals, world: World, st: State, env: Env)
    returns (s1: State)
    requires AllocationOk(f, alloc, lay.high) && LayoutOk(f, alloc, lay) && lay.frameBase == env.frameBase
    requires WellFormedAsm(a) && b < |f.blocks| && b < |a.offsets|
    requires CodeAt(a, a.offsets[b], WholeBody(f, b, alloc, lay)) && Matches(f, alloc, vals, world, st, b, 0)
    ensures var n := |WholeBody(f, b, alloc, lay)|;
            match RunBody(f.blocks[b].body, |f.blocks[b].body|, vals, world, env.meaning)
            case None => n > 0 && AsmRun(a, a.offsets[b], st, env, n) == Some(Trapped)
            case Some((vs, w)) =>
              Gets(a, a.offsets[b], st, env, n, a.offsets[b] + n, s1) && Matches(f, alloc, vs, w, s1, b, |f.blocks[b].body|)
  {
    var code := WholeBody(f, b, alloc, lay);
    BodySimulated(f, alloc, lay, b, |f.blocks[b].body|, vals, world, st, env);
    BodyGets(a, a.offsets[b], code, st, env);
    s1 := match Exec(code, st, env) case Some(st') => st' case None => st;
  }

  // What the terminator of b does in the SSA function.
  function Leave(f: Function, b: nat, vals: Vals, world: World): Event
    requires b < |f.blocks|
  {
    match f.blocks[b].term
    case Return(r) => Done(EvalOperand(r, vals), world)
    case Br(to) => Follow(f, b, to, vals, world)
    case CondBr(c, t, e) => Follow(f, b, if EvalOperand(c, vals) != 0 then t else e, vals, world)
    case Switch(c, cases, d) => Follow(f, b, SwitchTarget(cases, EvalOperand(c, vals), d), vals, world)
  }

  lemma BodyGets(a: Asm, pos: nat, body: seq<Instr>, st: State, env: Env)
    requires WellFormedAsm(a) && StraightLine(body) && CodeAt(a, pos, body)
    ensures match Exec(body, st, env)
            case Some(s1) => Gets(a, pos, st, env, |body|, pos + |body|, s1)
            case None => |body| > 0 && AsmRun(a, pos, st, env, |body|) == Some(Trapped)
  {
    assert a.code[pos..pos + |body|] == body;
    AsmStraight(a, pos, body, st, env);
  }

  lemma ReturnSimulated(f: Function, alloc: map<nat, Loc>, high: nat, a: Asm, pos: nat, b: nat, s: Shape,
                        vals: Vals, world: World, st: State, env: Env)
    requires AllocationOk(f, alloc, high) && WellFormedAsm(a) && b < |f.blocks| && f.blocks[b].term.Return?
    requires ShapeOk(f, alloc, high, env.frameBase, b, s) && ShapeAt(a, pos, s, f.blocks[b].term)
    requires Matches(f, alloc, vals, world, st, b, |f.blocks[b].body|)
    ensures AsmRun(a, pos, st, env, 1) == Some(Returned(EvalOperand(f.blocks[b].term.result, vals), world))
  {
    OperandMatches(f, alloc, vals, world, st, b, |f.blocks[b].body|, f.blocks[b].term.result);
    assert AsmStep(a, pos, st, env) == Some(Returned(EvalOperand(f.blocks[b].term.result, vals), world));
  }

  lemma JumpSimulated(f: Function, alloc: map<nat, Loc>, high: nat, a: Asm, pos: nat, b: nat, s: Shape,
                      vals: Vals, world: World, st: State, env: Env)
    requires AllocationOk(f, alloc, high) && WellFormedAsm(a) && b < |f.blocks| && f.blocks[b].term.Br?
    requires ShapeOk(f, alloc, high, env.frameBase, b, s) && ShapeAt(a, pos, s, f.blocks[b].term)
    requires Matches(f, alloc, vals, world, st, b, |f.blocks[b].body|)
    ensures Agrees(f, alloc, a, Leave(f, b, vals, world), AsmRun(a, pos, st, env, |s.moves| + 1))
  {
    var to := f.blocks[b].term.target;
    assert Edge(f, b, to);
    MovesRun(f, alloc, high, b, to, s.moves, high, vals, world, st, env);
    SideGets(a, pos, s.moves, to, st, env);
  }

  // What a switch needs of its moves and its condition.
  ghost predicate SwitchReady(f: Function, alloc: map<nat, Loc>, b: nat, x: Ending, vals: Vals)
    requires WellFormed(f) && b < |f.blocks|
  {
    f.blocks[b].term.Switch? ==> x.Multi? && MovesRight(f, alloc, b, x.code.cond.reg) && IsWord(EvalOperand(f.blocks[b].term.on, vals))
  }

  // From the terminator on.
  lemma TermSimulated(f: Function, alloc: map<nat, Loc>, high: nat, a: Asm, pos: nat, b: nat, s: Shape,
                      vals: Vals, world: World, st: State, env: Env) returns (n: nat)
    requires AllocationOk(f, alloc, high) && WellFormedAsm(a) && b < |f.blocks|
    requires ShapeOk(f, alloc, high, env.frameBase, b, s) && ShapeAt(a, pos, s, f.blocks[b].term)
    requires Matches(f, alloc, vals, world, st, b, |f.blocks[b].body|)
    ensures n > 0
    ensures Agrees(f, alloc, a, Leave(f, b, vals, world), AsmRun(a, pos, st, env, n))
  {
    if f.blocks[b].term.Return? {
      ReturnSimulated(f, alloc, high, a, pos, b, s, vals, world, st, env);
      n := 1;
    } else if f.blocks[b].term.Br? {
      JumpSimulated(f, alloc, high, a, pos, b, s, vals, world, st, env);
      n := |s.moves| + 1;
    } else {
      var st';
      n, st' := CondBrSimulated(f, alloc, high, b, s, a, pos, vals, world, st, env);
    }
  }

  lemma AgreesAfter(f: Function, alloc: map<nat, Loc>, a: Asm, pos: nat, st: State, env: Env, k: nat, pos1: nat, s1: State, n: nat, e: Event)
    requires WellFormedAsm(a) && Gets(a, pos, st, env, k, pos1, s1) && Agrees(f, alloc, a, e, AsmRun(a, pos1, s1, env, n))
    ensures Agrees(f, alloc, a, e, AsmRun(a, pos, st, env, k + n))
  {
    GetsThen(a, pos, st, env, k, pos1, s1, n);
  }

  // From a state that matches at the end of b's body, the code at pos runs as its terminator does.
  ghost predicate TermFollows(f: Function, alloc: map<nat, Loc>, a: Asm, env: Env, b: nat, x: Ending, pos: nat, vals: Vals, world: World, st: State)
    requires WellFormed(f) && WellFormedAsm(a) && b < |f.blocks|
  {
    Matches(f, alloc, vals, world, st, b, |f.blocks[b].body|) && SwitchReady(f, alloc, b, x, vals) ==>
      exists n: nat :: n > 0 && Agrees(f, alloc, a, Leave(f, b, vals, world), AsmRun(a, pos, st, env, n))
  }

  ghost predicate TermRuns(f: Function, alloc: map<nat, Loc>, a: Asm, env: Env, b: nat, x: Ending, pos: nat)
    requires WellFormed(f) && WellFormedAsm(a) && b < |f.blocks|
  {
    forall vals: Vals, world: World, st: State {:trigger TermFollows(f, alloc, a, env, b, x, pos, vals, world, st)} ::
      TermFollows(f, alloc, a, env, b, x, pos, vals, world, st)
  }

  lemma PlainRuns(f: Function, alloc: map<nat, Loc>, high: nat, a: Asm, b: nat, body: seq<Instr>, x: Ending, env: Env, pos: nat)
    requires AllocationOk(f, alloc, high) && WellFormedAsm(a) && b < |f.blocks| && !f.blocks[b].term.Switch?
    requires EndingOk(f, alloc, high, env.frameBase, b, x) && BlockAt(a, b, body, x, f.blocks[b].term) && pos == a.offsets[b] + |body|
    ensures TermRuns(f, alloc, a, env, b, x, pos)
  {
    forall vals: Vals, world: World, st: State
      ensures TermFollows(f, alloc, a, env, b, x, pos, vals, world, st)
    {
      if Matches(f, alloc, vals, world, st, b, |f.blocks[b].body|) {
        var n := TermSimulated(f, alloc, high, a, pos, b, x.shape, vals, world, st, env);
      }
    }
  }

  lemma MultiOk(f: Function, alloc: map<nat, Loc>, high: nat, frameBase: nat, b: nat, x: Ending)
    requires b < |f.blocks| && f.blocks[b].term.Switch? && EndingOk(f, alloc, high, frameBase, b, x)
    ensures x.Multi? && SwitchOk(f, alloc, high, frameBase, b, x.code)
  {
  }

  lemma MultiAt(a: Asm, b: nat, body: seq<Instr>, x: Ending, t: Term, pos: nat)
    requires t.Switch? && x.Multi? && BlockAt(a, b, body, x, t) && pos == a.offsets[b] + |body|
    ensures SwitchAt(a, pos, x.code, t)
  {
  }

  lemma MultiRuns(f: Function, alloc: map<nat, Loc>, high: nat, a: Asm, b: nat, x: Ending, env: Env, pos: nat)
    requires AllocationOk(f, alloc, high) && WellFormedAsm(a) && b < |f.blocks| && f.blocks[b].term.Switch?
    requires x.Multi? && SwitchOk(f, alloc, high, env.frameBase, b, x.code) && SwitchAt(a, pos, x.code, f.blocks[b].term)
    ensures TermRuns(f, alloc, a, env, b, x, pos)
  {
    forall vals: Vals, world: World, st: State
      ensures TermFollows(f, alloc, a, env, b, x, pos, vals, world, st)
    {
      if Matches(f, alloc, vals, world, st, b, |f.blocks[b].body|) && SwitchReady(f, alloc, b, x, vals) {
        var to, n, st' := SwitchSimulated(f, alloc, high, b, x.code, a, pos, vals, world, st, env);
      }
    }
  }

  lemma TermAlwaysRuns(f: Function, alloc: map<nat, Loc>, high: nat, a: Asm, b: nat, body: seq<Instr>, x: Ending, env: Env, pos: nat)
    requires AllocationOk(f, alloc, high) && WellFormedAsm(a) && b < |f.blocks|
    requires EndingOk(f, alloc, high, env.frameBase, b, x) && BlockAt(a, b, body, x, f.blocks[b].term) && pos == a.offsets[b] + |body|
    ensures TermRuns(f, alloc, a, env, b, x, pos)
  {
    if f.blocks[b].term.Switch? {
      MultiOk(f, alloc, high, env.frameBase, b, x);
      MultiAt(a, b, body, x, f.blocks[b].term, pos);
      MultiRuns(f, alloc, high, a, b, x, env, pos);
    } else {
      PlainRuns(f, alloc, high, a, b, body, x, env, pos);
    }
  }

  lemma RunBlockLeaves(f: Function, b: nat, vals: Vals, world: World, meaning: Meaning, ran: Option<(Vals, World)>)
    requires b < |f.blocks| && ran == RunBody(f.blocks[b].body, |f.blocks[b].body|, vals, world, meaning)
    ensures RunBlock(f, b, vals, world, meaning) == if ran.Some? then Leave(f, b, ran.value.0, ran.value.1) else Stopped
  {
  }

  // The values at the end of the body, if it gets there.
  ghost predicate EndReady(f: Function, alloc: map<nat, Loc>, b: nat, x: Ending, vals: Vals, world: World, meaning: Meaning)
    requires WellFormed(f) && b < |f.blocks|
  {
    var ran := RunBody(f.blocks[b].body, |f.blocks[b].body|, vals, world, meaning);
    ran.Some? ==> SwitchReady(f, alloc, b, x, ran.value.0)
  }

  // Running a block's code is running the block.
  lemma BlockSimulated(f: Function, alloc: map<nat, Loc>, lay: Layout, a: Asm, b: nat, x: Ending, pos: nat,
                       vals: Vals, world: World, st: State, env: Env) returns (n: nat)
    requires AllocationOk(f, alloc, lay.high) && LayoutOk(f, alloc, lay) && lay.frameBase == env.frameBase
    requires WellFormedAsm(a) && b < |f.blocks| && b < |a.offsets| && CodeAt(a, a.offsets[b], WholeBody(f, b, alloc, lay))
    requires pos == a.offsets[b] + |WholeBody(f, b, alloc, lay)| && TermRuns(f, alloc, a, env, b, x, pos)
    requires Matches(f, alloc, vals, world, st, b, 0) && EndReady(f, alloc, b, x, vals, world, env.meaning)
    ensures n > 0 && Agrees(f, alloc, a, RunBlock(f, b, vals, world, env.meaning), AsmRun(a, a.offsets[b], st, env, n))
  {
    n := |WholeBody(f, b, alloc, lay)|;
    var s1 := BodyRuns(f, alloc, lay, a, b, vals, world, st, env);
    var ran := RunBody(f.blocks[b].body, |f.blocks[b].body|, vals, world, env.meaning);
    RunBlockLeaves(f, b, vals, world, env.meaning, ran);
    n := BlockEnds(f, alloc, a, a.offsets[b], n, pos, b, x, ran, st, s1, env);
  }

  // The body has run, in k steps: to its end, or into a trap.
  ghost predicate BodyRan(f: Function, alloc: map<nat, Loc>, a: Asm, start: nat, k: nat, pos: nat, b: nat, x: Ending,
                          ran: Option<(Vals, World)>, st: State, s1: State, env: Env)
    requires WellFormed(f) && WellFormedAsm(a) && b < |f.blocks|
  {
    match ran
    case None => k > 0 && AsmRun(a, start, st, env, k) == Some(Trapped)
    case Some((vs, w)) =>
      && Gets(a, start, st, env, k, pos, s1) && Matches(f, alloc, vs, w, s1, b, |f.blocks[b].body|)
      && SwitchReady(f, alloc, b, x, vs)
  }

  // From the end of the body on.
  lemma BlockEnds(f: Function, alloc: map<nat, Loc>, a: Asm, start: nat, k: nat, pos: nat, b: nat, x: Ending,
                  ran: Option<(Vals, World)>, st: State, s1: State, env: Env) returns (n: nat)
    requires WellFormed(f) && WellFormedAsm(a) && b < |f.blocks| && TermRuns(f, alloc, a, env, b, x, pos)
    requires BodyRan(f, alloc, a, start, k, pos, b, x, ran, st, s1, env)
    ensures n > 0
    ensures Agrees(f, alloc, a, if ran.Some? then Leave(f, b, ran.value.0, ran.value.1) else Stopped, AsmRun(a, start, st, env, n))
  {
    n := k;
    if ran.Some? {
      var vals, world := ran.value.0, ran.value.1;
      assert TermFollows(f, alloc, a, env, b, x, pos, vals, world, s1);
      n :| n > 0 && Agrees(f, alloc, a, Leave(f, b, vals, world), AsmRun(a, pos, s1, env, n));
      AgreesAfter(f, alloc, a, start, st, env, k, pos, s1, n, Leave(f, b, vals, world));
      n := k + n;
    }
  }

  // From a state that matches, the code of block b runs as the block does.
  ghost predicate Follows(f: Function, alloc: map<nat, Loc>, a: Asm, env: Env, b: nat, vals: Vals, world: World, st: State)
    requires WellFormedAsm(a) && b < |f.blocks| && b < |a.offsets|
  {
    Matches(f, alloc, vals, world, st, b, 0) && SeesWords(f, env.meaning, vals) ==>
      exists n: nat :: n > 0 && Agrees(f, alloc, a, RunBlock(f, b, vals, world, env.meaning), AsmRun(a, a.offsets[b], st, env, n))
  }

  // The code of each block runs as the block does.
  ghost predicate BlocksSimulate(f: Function, alloc: map<nat, Loc>, a: Asm, env: Env)
    requires WellFormedAsm(a)
  {
    forall b: nat, vals: Vals, world: World, st: State {:trigger Follows(f, alloc, a, env, b, vals, world, st)} ::
      b < |f.blocks| && b < |a.offsets| ==> Follows(f, alloc, a, env, b, vals, world, st)
  }

  lemma SwitchesReady(f: Function, alloc: map<nat, Loc>, high: nat, frameBase: nat, b: nat, x: Ending, vals: Vals, world: World, meaning: Meaning)
    requires WellFormed(f) && b < |f.blocks| && SwitchesRight(f, alloc, high) && EndingOk(f, alloc, high, frameBase, b, x)
    requires SeesWords(f, meaning, vals)
    ensures EndReady(f, alloc, b, x, vals, world, meaning)
  {
    var ran := RunBody(f.blocks[b].body, |f.blocks[b].body|, vals, world, meaning);
    if ran.Some? && f.blocks[b].term.Switch? {
      BlockWords(f, b, vals, world, meaning);
      ConditionIsWord(f, b, meaning, ran.value.0);
      assert Cond(f, alloc, high, 0, b).reg == x.code.cond.reg;
    }
  }

  lemma LaidEnding(f: Function, alloc: map<nat, Loc>, lay: Layout, a: Asm, ends: seq<Ending>, b: nat, env: Env)
    requires LaidOut(f, alloc, lay, a, ends) && b < |f.blocks| && lay.frameBase == env.frameBase
    ensures EndingOk(f, alloc, lay.high, env.frameBase, b, ends[b])
    ensures BlockAt(a, b, WholeBody(f, b, alloc, lay), ends[b], f.blocks[b].term)
  {
  }

  lemma FollowsOn(f: Function, alloc: map<nat, Loc>, lay: Layout, a: Asm, b: nat, x: Ending, pos: nat, env: Env,
                  vals: Vals, world: World, st: State)
    requires AllocationOk(f, alloc, lay.high) && LayoutOk(f, alloc, lay) && lay.frameBase == env.frameBase
    requires WellFormedAsm(a) && b < |f.blocks| && b < |a.offsets| && CodeAt(a, a.offsets[b], WholeBody(f, b, alloc, lay))
    requires pos == a.offsets[b] + |WholeBody(f, b, alloc, lay)| && TermRuns(f, alloc, a, env, b, x, pos)
    requires SeesWords(f, env.meaning, vals) ==> EndReady(f, alloc, b, x, vals, world, env.meaning)
    ensures Follows(f, alloc, a, env, b, vals, world, st)
  {
    if Matches(f, alloc, vals, world, st, b, 0) && SeesWords(f, env.meaning, vals) {
      var n := BlockSimulated(f, alloc, lay, a, b, x, pos, vals, world, st, env);
    }
  }

  lemma BlockFollows(f: Function, alloc: map<nat, Loc>, lay: Layout, a: Asm, b: nat, x: Ending, env: Env, vals: Vals, world: World, st: State)
    requires AllocationOk(f, alloc, lay.high) && WellFormedAsm(a) && LayoutOk(f, alloc, lay) && b < |f.blocks| && lay.frameBase == env.frameBase
    requires EndingOk(f, alloc, lay.high, env.frameBase, b, x) && BlockAt(a, b, WholeBody(f, b, alloc, lay), x, f.blocks[b].term)
    requires SeesWords(f, env.meaning, vals) ==> EndReady(f, alloc, b, x, vals, world, env.meaning)
    ensures Follows(f, alloc, a, env, b, vals, world, st)
  {
    var body := WholeBody(f, b, alloc, lay);
    var pos := a.offsets[b] + |body|;
    TermAlwaysRuns(f, alloc, lay.high, a, b, body, x, env, pos);
    FollowsOn(f, alloc, lay, a, b, x, pos, env, vals, world, st);
  }

  lemma AllBlocksSimulate(f: Function, alloc: map<nat, Loc>, lay: Layout, a: Asm, ends: seq<Ending>, env: Env)
    requires AllocationOk(f, alloc, lay.high) && WellFormedAsm(a) && LaidOut(f, alloc, lay, a, ends) && lay.frameBase == env.frameBase
    requires SwitchesRight(f, alloc, lay.high)
    ensures BlocksSimulate(f, alloc, a, env)
  {
    forall b: nat, vals: Vals, world: World, st: State | b < |f.blocks| && b < |a.offsets|
      ensures Follows(f, alloc, a, env, b, vals, world, st)
    {
      LaidEnding(f, alloc, lay, a, ends, b, env);
      if SeesWords(f, env.meaning, vals) {
        SwitchesReady(f, alloc, lay.high, env.frameBase, b, ends[b], vals, world, env.meaning);
      }
      BlockFollows(f, alloc, lay, a, b, ends[b], env, vals, world, st);
    }
  }

  // Any number of blocks.
  lemma RunBlocksOnce(f: Function, b: nat, vals: Vals, world: World, meaning: Meaning, n: nat, e: Event)
    requires n > 0 && b < |f.blocks| && e == RunBlock(f, b, vals, world, meaning)
    ensures RunBlocks(f, b, vals, world, meaning, n) ==
            if e.Enter? && e.b < |f.blocks| then RunBlocks(f, e.b, e.vals, e.world, meaning, n - 1) else e
  {
  }

  lemma {:induction false} FunctionSimulated(f: Function, alloc: map<nat, Loc>, a: Asm,
                                             b: nat, vals: Vals, world: World, st: State, env: Env, n: nat, e: Event)
    returns (m: nat, o: Option<Outcome>)
    requires WellFormed(f) && WellFormedAsm(a) && BlocksSimulate(f, alloc, a, env)
    requires b < |f.blocks| && b < |a.offsets| && Matches(f, alloc, vals, world, st, b, 0) && SeesWords(f, env.meaning, vals)
    requires e == RunBlocks(f, b, vals, world, env.meaning, n)
    ensures m >= n || !e.Enter?
    ensures o == AsmRun(a, a.offsets[b], st, env, m) && Agrees(f, alloc, a, e, o)
    decreases n
  {
    if n == 0 {
      return 0, Some(Next(a.offsets[b], st));
    }
    var e1, o1;
    m, e1, o1 := FirstBlock(f, alloc, a, b, vals, world, st, env);
    RunBlocksOnce(f, b, vals, world, env.meaning, n, e1);
    o := o1;
    if e1.Enter? {
      var m';
      m', o := FunctionSimulated(f, alloc, a, e1.b, e1.vals, e1.world, o1.value.st, env, n - 1, e);
      AsmRunAdd(a, a.offsets[b], st, env, m, m');
      m := m + m';
    }
  }

  lemma FirstBlock(f: Function, alloc: map<nat, Loc>, a: Asm, b: nat, vals: Vals, world: World, st: State, env: Env)
    returns (m: nat, e: Event, o: Option<Outcome>)
    requires WellFormed(f) && WellFormedAsm(a) && BlocksSimulate(f, alloc, a, env)
    requires b < |f.blocks| && b < |a.offsets| && Matches(f, alloc, vals, world, st, b, 0) && SeesWords(f, env.meaning, vals)
    ensures m > 0 && e == RunBlock(f, b, vals, world, env.meaning) && (e.Enter? ==> SeesWords(f, env.meaning, e.vals))
    ensures o == AsmRun(a, a.offsets[b], st, env, m) && Agrees(f, alloc, a, e, o)
  {
    assert Follows(f, alloc, a, env, b, vals, world, st);
    m :| m > 0 && Agrees(f, alloc, a, RunBlock(f, b, vals, world, env.meaning), AsmRun(a, a.offsets[b], st, env, m));
    e, o := RunBlock(f, b, vals, world, env.meaning), AsmRun(a, a.offsets[b], st, env, m);
    BlockWords(f, b, vals, world, env.meaning);
  }

  // At the entry of the function only parameters are needed.
  lemma EntryMatches(f: Function, alloc: map<nat, Loc>, high: nat, vals: Vals, world: World, st: State)
    requires AllocationOk(f, alloc, high)
    requires st.world == world && st.Get(Reg(REG_ZERO)) == 0
    requires forall i :: 0 <= i < |f.params| ==> st.Get(Place(alloc, f.params[i])) == Lookup(vals, f.params[i])
    ensures Matches(f, alloc, vals, world, st, 0, 0)
  {
    forall u | Needed(f, u, 0, 0)
      ensures st.Get(Place(alloc, u)) == Lookup(vals, u)
    {
      NeededIsReached(f, u, 0, 0);
      assert Defines(f, f.sites[u], u);
      if !f.sites[u].Param? && f.sites[u].b != 0 {
        OnlyEntryDominatesEntry(f, f.sites[u].b);
      }
    }
  }
}
