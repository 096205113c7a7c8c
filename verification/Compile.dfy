// One function through the back end: pre-allocation, emission, relaxation, resolution;
// and the theorem that the result runs as the SSA function does.
module Compile {
  import opened Machine
  import opened Ssa
  import opened RegAlloc
  import opened PhiCopy
  import opened Assembly
  import opened Relaxation
  import opened Lowering
  import opened Placement
  import opened Switches
  import opened Branches
  import opened Simulation
  import opened Emission
  import opened Terminators
  import opened CodeGen
  import opened CallSaves
  import Liveness

  // The snapshots the registers saved around calls are read from.
  ghost predicate SavesOk(f: Function, alloc: map<nat, Loc>, lay: Layout, lives: seq<CallLive>) {
    EverySlot(f, Liveness.Homes(alloc, lay.high), lay.saves) && Snapshots(f, Liveness.Homes(alloc, lay.high), lay.saves.calls, lives)
  }

  // A call: its registers saved, the call, the registers restored, the result taken.
  method EmitCall(cg: Cg, f: Function, alloc: map<nat, Loc>, lay: Layout, lives: seq<CallLive>, ever: set<nat>, b: nat, k: nat)
    returns (ok: bool)
    requires SavesOk(f, alloc, lay, lives) && IsCall(f, lay.saves.calls, b, k) && 8 <= lay.high
    modifies cg`code
    ensures ok <==> ResultFits(f.blocks[b].body[k], alloc, lay.high)
    ensures ok ==> cg.code == old(cg.code) + InstCode(f, b, k, alloc, lay)
  {
    var i, a := f.blocks[b].body[k], Liveness.Homes(alloc, lay.high);
    ok := ResultFits(i, alloc, lay.high);
    if !ok {
      return;
    }
    var live := LookupCallLive(lives, b, k, ever, f, a, lay.saves.calls);
    var saved := CallSpillSet(f, a, b, k, live);
    var spill := EmitSpill(saved, lay.saves, lay.high, lay.frameBase);
    var restore := EmitRestore(saved, lay.saves, lay.high, lay.frameBase);
    cg.code := cg.code + spill;
    cg.code := cg.code + (Nops(i.words) + [Call(i.op, ArgsOf(i.args, alloc))]);
    cg.code := cg.code + restore;
    cg.code := cg.code + TakeResult(DstOf(i, alloc), lay.high, lay.frameBase);
  }

  method EmitInst(cg: Cg, f: Function, alloc: map<nat, Loc>, lay: Layout, lives: seq<CallLive>, ever: set<nat>, b: nat, k: nat)
    returns (ok: bool)
    requires b < |f.blocks| && k < |f.blocks[b].body| && SavesOk(f, alloc, lay, lives) && 8 <= lay.high
    modifies cg`code
    ensures ok ==> cg.code == old(cg.code) + InstCode(f, b, k, alloc, lay)
    ensures ok && IsCall(f, lay.saves.calls, b, k) ==> ResultFits(f.blocks[b].body[k], alloc, lay.high)
    ensures lay.high <= MAX_EMIT_REG ==> ok
  {
    var i := f.blocks[b].body[k];
    if i.op in lay.saves.calls {
      ok := EmitCall(cg, f, alloc, lay, lives, ever, b, k);
    } else {
      cg.Emit(Work(i.op, DstOf(i, alloc), ArgsOf(i.args, alloc)));
      cg.code := cg.code + Nops(i.words);
      ok := true;
    }
  }

  // The first k instructions of block b have been emitted after `before`.
  ghost predicate BodyUpTo(before: seq<Instr>, code: seq<Instr>, f: Function, alloc: map<nat, Loc>, lay: Layout, b: nat, k: nat) {
    && b < |f.blocks| && k <= |f.blocks[b].body| && AreaOk(lay.saves)
    && code == before + BodyCode(f, b, k, alloc, lay)
    && forall j: nat :: j < k && IsCall(f, lay.saves.calls, b, j) ==> ResultFits(f.blocks[b].body[j], alloc, lay.high)
  }

  lemma OneMoreInst(before: seq<Instr>, code: seq<Instr>, code': seq<Instr>, f: Function, alloc: map<nat, Loc>, lay: Layout, b: nat, k: nat)
    requires BodyUpTo(before, code, f, alloc, lay, b, k) && k < |f.blocks[b].body|
    requires code' == code + InstCode(f, b, k, alloc, lay)
    requires IsCall(f, lay.saves.calls, b, k) ==> ResultFits(f.blocks[b].body[k], alloc, lay.high)
    ensures BodyUpTo(before, code', f, alloc, lay, b, k + 1)
  {
    Rejoined(before, BodyCode(f, b, k, alloc, lay), InstCode(f, b, k, alloc, lay), code, code', BodyCode(f, b, k + 1, alloc, lay));
  }

  lemma Rejoined(before: seq<Instr>, body: seq<Instr>, inst: seq<Instr>, code: seq<Instr>, code': seq<Instr>, body': seq<Instr>)
    requires code == before + body && code' == code + inst && body' == body + inst
    ensures code' == before + body'
  {
  }

  method EmitBody(cg: Cg, f: Function, alloc: map<nat, Loc>, lay: Layout, lives: seq<CallLive>, ever: set<nat>, b: nat)
    returns (ok: bool)
    requires b < |f.blocks| && SavesOk(f, alloc, lay, lives) && 8 <= lay.high
    modifies cg`code
    ensures ok ==> BodyUpTo(old(cg.code), cg.code, f, alloc, lay, b, |f.blocks[b].body|)
    ensures lay.high <= MAX_EMIT_REG ==> ok
  {
    ghost var before := cg.code;
    for k := 0 to |f.blocks[b].body|
      invariant BodyUpTo(before, cg.code, f, alloc, lay, b, k)
    {
      ghost var code := cg.code;
      ok := EmitInst(cg, f, alloc, lay, lives, ever, b, k);
      if !ok {
        return;
      }
      OneMoreInst(before, code, cg.code, f, alloc, lay, b, k);
    }
    ok := true;
  }

  // A block: its instructions, then its end.
  method EmitBlock(cg: Cg, f: Function, alloc: map<nat, Loc>, lay: Layout, lives: seq<CallLive>, ever: set<nat>, b: nat)
    returns (ok: bool, ghost x: Ending)
    requires AllocationOk(f, alloc, lay.high) && SavesOk(f, alloc, lay, lives) && 8 <= lay.high && SwitchesOk(f)
    requires b < |f.blocks| == |cg.offsets| && Built(cg.AsAsm()) && TablesBelow(cg.tables, |cg.data|)
    modifies cg`code, cg`fixups, cg`offsets, cg`tables, cg`data
    ensures TablesBelow(cg.tables, |cg.data|) && DataGrown(old(cg.tables), old(cg.data), cg.tables, cg.data)
    ensures |cg.offsets| == |old(cg.offsets)| && cg.offsets[b] == |old(cg.code)|
    ensures forall c :: 0 <= c < |cg.offsets| && c != b ==> cg.offsets[c] == old(cg.offsets)[c]
    ensures ok ==> Built(cg.AsAsm()) && Extends(old(cg.AsAsm()), cg.AsAsm())
    ensures ok ==> BlockDoneAt(f, alloc, lay, cg.AsAsm(), x, b)
    ensures Fitting(f, lay.high) ==> ok || |cg.code| > MAX_CODE || |cg.data| >= DATA_END
  {
    OffsetKeepsBuilt(cg.AsAsm(), b);
    cg.offsets := cg.offsets[b := |cg.code|];
    ghost var a, body := cg.AsAsm(), BodyCode(f, b, |f.blocks[b].body|, alloc, lay);
    StraightAppended(a, body);
    x := Plain(RetShape(Lit(0)));
    ok := EmitBody(cg, f, alloc, lay, lives, ever, b);
    if !ok {
      return;
    }
    ghost var a1 := cg.AsAsm();
    ok, x := EmitTerm(cg, f, alloc, lay.high, lay.frameBase, b);
    if ok {
      BlockDone(old(cg.AsAsm()), a, a1, cg.AsAsm(), b, body, x, f.blocks[b].term);
    }
  }

  // The edges, the switches and the registers of f leave the windows the room they need.
  ghost predicate Fitting(f: Function, high: nat) {
    PhisFit(f) && SwitchRoom(f) && high <= MAX_SSA_REG + 1
  }

  ghost predicate CallsFit(f: Function, alloc: map<nat, Loc>, lay: Layout, b: nat) {
    forall k: nat :: IsCall(f, lay.saves.calls, b, k) ==> ResultFits(f.blocks[b].body[k], alloc, lay.high)
  }

  lemma BlockDone(a0: Asm, a: Asm, a1: Asm, a2: Asm, b: nat, body: seq<Instr>, x: Ending, t: Term)
    requires a.code == a0.code && a.fixups == a0.fixups && a.tables == a0.tables && b < |a.offsets| && a.offsets[b] == |a.code|
    requires Grown(a, a1) && Grown(a1, a2) && |a1.code| == |a.code| + |body| && CodeAt(a1, |a.code|, body)
    requires EndSuits(x, t) && EndingAt(a2, |a1.code|, x, t)
    ensures Built(a2) && Extends(a0, a2) && BlockAt(a2, b, body, x, t)
  {
    GrownTwice(a, a1, a2);
    CodeAtKept(a1, a2, |a.code|, body);
  }

  lemma OffsetKeepsBuilt(a: Asm, b: nat)
    requires Built(a) && b < |a.offsets|
    ensures Built(a.(offsets := a.offsets[b := |a.code|]))
  {
    var a' := a.(offsets := a.offsets[b := |a.code|]);
    forall i | 0 <= i < |a'.fixups|
      ensures FixupOk(a', a'.fixups[i])
    {
      assert FixupOk(a, a.fixups[i]);
    }
    assert Candidates(a') == Candidates(a);
    forall p | 0 <= p < |a'.code|
      ensures HasFixup(a', p) <==> HasFixup(a, p)
    {
    }
  }

  // The first n blocks are in place.
  ghost predicate BlocksUpTo(f: Function, alloc: map<nat, Loc>, lay: Layout, a: Asm, ends: seq<Ending>, n: nat) {
    && AreaOk(lay.saves) && |ends| == n <= |f.blocks|
    && forall c {:trigger ends[c]} :: 0 <= c < n ==> BlockDoneAt(f, alloc, lay, a, ends[c], c)
  }

  ghost predicate BlockDoneAt(f: Function, alloc: map<nat, Loc>, lay: Layout, a: Asm, x: Ending, b: nat)
    requires AreaOk(lay.saves) && b < |f.blocks|
  {
    && EndingOk(f, alloc, lay.high, lay.frameBase, b, x) && CallsFit(f, alloc, lay, b)
    && BlockAt(a, b, BodyCode(f, b, |f.blocks[b].body|, alloc, lay), x, f.blocks[b].term)
  }

  lemma BlockDoneKept(f: Function, alloc: map<nat, Loc>, lay: Layout, a: Asm, a': Asm, x: Ending, b: nat)
    requires AreaOk(lay.saves) && b < |f.blocks| && BlockDoneAt(f, alloc, lay, a, x, b) && Extends(a, a')
    requires b < |a.offsets| && b < |a'.offsets| && a'.offsets[b] == a.offsets[b]
    ensures BlockDoneAt(f, alloc, lay, a', x, b)
  {
    BlockAtKept(a, a', b, BodyCode(f, b, |f.blocks[b].body|, alloc, lay), x, f.blocks[b].term);
  }

  lemma OneMoreBlock(f: Function, alloc: map<nat, Loc>, lay: Layout, a: Asm, a': Asm, ends: seq<Ending>, x: Ending, n: nat)
    requires BlocksUpTo(f, alloc, lay, a, ends, n) && Extends(a, a') && n < |f.blocks| == |a.offsets| == |a'.offsets|
    requires forall c :: 0 <= c < |a.offsets| && c != n ==> a'.offsets[c] == a.offsets[c]
    requires BlockDoneAt(f, alloc, lay, a', x, n)
    ensures BlocksUpTo(f, alloc, lay, a', ends + [x], n + 1)
  {
    forall c | 0 <= c < n
      ensures BlockDoneAt(f, alloc, lay, a', (ends + [x])[c], c)
    {
      BlockDoneKept(f, alloc, lay, a, a', ends[c], c);
    }
  }

  // With every block in place the function is laid out.
  lemma AllBlocksDone(f: Function, alloc: map<nat, Loc>, lay: Layout, a: Asm, ends: seq<Ending>)
    requires EverySlot(f, Liveness.Homes(alloc, lay.high), lay.saves) && BlocksUpTo(f, alloc, lay, a, ends, |f.blocks|)
    ensures LaidOut(f, alloc, lay, a, ends)
  {
    forall b: nat, k: nat | IsCall(f, lay.saves.calls, b, k)
      ensures ResultFits(f.blocks[b].body[k], alloc, lay.high)
    {
      assert BlockDoneAt(f, alloc, lay, a, ends[b], b);
    }
    forall b | 0 <= b < |f.blocks|
      ensures EndingOk(f, alloc, lay.high, lay.frameBase, b, ends[b])
      ensures BlockAt(a, b, WholeBody(f, b, alloc, lay), ends[b], f.blocks[b].term)
    {
      assert BlockDoneAt(f, alloc, lay, a, ends[b], b);
    }
  }

  // The first n blocks lie from `start` on, the first of all right there.
  ghost predicate StartsAt(offsets: seq<nat>, start: nat, n: nat) {
    n <= |offsets| && (n > 0 ==> offsets[0] == start) && forall c :: 0 <= c < n ==> offsets[c] >= start
  }

  method EmitFunction(cg: Cg, f: Function, alloc: map<nat, Loc>, lay: Layout, lives: seq<CallLive>, ever: set<nat>)
    returns (ok: bool, ghost ends: seq<Ending>)
    requires AllocationOk(f, alloc, lay.high) && SavesOk(f, alloc, lay, lives) && 8 <= lay.high && SwitchesOk(f)
    requires |cg.offsets| == |f.blocks| && Built(cg.AsAsm()) && TablesBelow(cg.tables, |cg.data|)
    modifies cg`code, cg`fixups, cg`offsets, cg`tables, cg`data
    ensures TablesBelow(cg.tables, |cg.data|) && DataGrown(old(cg.tables), old(cg.data), cg.tables, cg.data)
    ensures ok ==> Built(cg.AsAsm()) && |cg.offsets| == |f.blocks|
    ensures ok ==> LaidOut(f, alloc, lay, cg.AsAsm(), ends)
    ensures ok ==> Extends(old(cg.AsAsm()), cg.AsAsm()) && StartsAt(cg.offsets, |old(cg.code)|, |f.blocks|)
    ensures Fitting(f, lay.high) ==> ok || |cg.code| > MAX_CODE || |cg.data| >= DATA_END
  {
    ends := [];
    for b := 0 to |f.blocks|
      invariant |cg.offsets| == |f.blocks| && Built(cg.AsAsm()) && TablesBelow(cg.tables, |cg.data|)
      invariant BlocksUpTo(f, alloc, lay, cg.AsAsm(), ends, b)
      invariant DataGrown(old(cg.tables), old(cg.data), cg.tables, cg.data)
      invariant Extends(old(cg.AsAsm()), cg.AsAsm()) && StartsAt(cg.offsets, |old(cg.code)|, b)
      invariant b == 0 ==> cg.code == old(cg.code)
    {
      ghost var tables, data := cg.tables, cg.data;
      ghost var a, x := cg.AsAsm(), Plain(RetShape(Lit(0)));
      ok, x := EmitBlock(cg, f, alloc, lay, lives, ever, b);
      DataGrownTwice(old(cg.tables), old(cg.data), tables, data, cg.tables, cg.data);
      if !ok {
        return;
      }
      ExtendsTwice(old(cg.AsAsm()), a, cg.AsAsm());
      OneMoreBlock(f, alloc, lay, a, cg.AsAsm(), ends, x, b);
      ends := ends + [x];
    }
    AllBlocksDone(f, alloc, lay, cg.AsAsm(), ends);
    ok := true;
  }

  // ----- The whole back end ---------------------------------------------------------------------

  // The registers live across each call, and the layout of the area they are saved in.
  method PlanSaves(f: Function, alloc: map<nat, Loc>, high: nat, allocaBytes: nat, calls: set<nat>)
    returns (lay: Layout, lives: seq<CallLive>, ever: set<nat>)
    requires AllocationOk(f, alloc, high) && 8 <= high
    ensures lay.high == high && lay.saves.calls == calls && lay.frameBase == allocaBytes + 4 * lay.saves.count
    ensures SavesOk(f, alloc, lay, lives)
  {
    var a := Liveness.Homes(alloc, high);
    var liveIn, liveOut := Liveness.ComputeLiveness(f, a);
    lives := ComputeCallLiveouts(f, a, calls, liveOut);
    ever := EverSpilled(lives);
    var saves := AssignSlots(calls, ever, high);
    lay := Layout(high, allocaBytes + 4 * saves.count, saves);
    SlotsSuffice(f, a, saves, lives, ever);
  }

  // code and data are the finished form of f: the program a, laid out under alloc, with
  // the branches of r relaxed.
  ghost predicate Compiled(f: Function, alloc: map<nat, Loc>, lay: Layout, a: Asm, ends: seq<Ending>,
                           r: set<int>, code: seq<Instr>, data: seq<nat>)
  {
    && AllocationOk(f, alloc, lay.high) && Built(a) && LaidOut(f, alloc, lay, a, ends)
    && |a.offsets| == |f.blocks|
    && IsLeastRelaxation(a, r) && IsFinal(a, r, code) && TablesFinal(a, r, data)
  }

  // What fits the translator: parameters that leave room for the scratch windows, no more values than
  // slots, edges with no more phis than the buffer for their moves, switches with no more than six edges
  // into blocks with phis.
  ghost predicate Small(f: Function) {
    && 8 + |f.params| <= 230 && DefCount(f, |f.blocks|) <= 0xFFFF
    && PhisFit(f) && SwitchRoom(f)
  }

  // Compiles f after the code already in cg; the operations in `calls` are calls of functions. It
  // succeeds for a function that fits, unless the code or DATA becomes too long.
  method CompileFunction(cg: Cg, f: Function, allocaBytes: nat, calls: set<nat>)
    returns (ok: bool, alloc: map<nat, Loc>, lay: Layout, ghost a: Asm, ghost ends: seq<Ending>, ghost r: set<int>)
    requires WellFormed(f) && SwitchesOk(f) && |cg.offsets| == |f.blocks| && !cg.hadError
    requires cg.fixups == [] && cg.tables == [] && Built(cg.AsAsm())
    modifies cg
    ensures ok ==> Compiled(f, alloc, lay, a, ends, r, cg.code, cg.data)
    ensures ok ==> lay.saves.calls == calls && lay.frameBase == allocaBytes + 4 * lay.saves.count
    ensures ok ==> old(cg.code) <= a.code && old(cg.code) <= cg.code && old(cg.data) <= cg.data
    ensures ok ==> StartsAt(a.offsets, |old(cg.code)|, |f.blocks|) && NewPos(r, a.offsets[0]) == |old(cg.code)|
    ensures ok ==> BranchesInside(cg.code) && !cg.hadError
    ensures Small(f) && |a.code| <= 0x3F_FFFF && |cg.data| < 0x1_0000_0000 ==> ok
  {
    var ra := new Allocator();
    ra.PreAllocFunction(f);
    alloc, lay, r, ends := ra.alloc, Layout(ra.nextReg, allocaBytes, Saves(calls, map[], 0)), {}, [];
    a := cg.AsAsm();
    if ra.hadError || ra.spillCount > MAX_SLOTS {
      ok := false;
      return;
    }
    assert AllocationOk(f, alloc, ra.nextReg);
    var lives, ever;
    lay, lives, ever := PlanSaves(f, alloc, ra.nextReg, allocaBytes, calls);
    ok, ends := EmitFunction(cg, f, alloc, lay, lives, ever);
    a := cg.AsAsm();
    if ok {
      // The words of the tables hold positions of the finished code.
      ok := cg.tables == [] || 2 * |cg.code| < TWO_TO_THE_32;
    }
    if ok {
      r := cg.Finish();
      ok := !cg.hadError;
      if ok {
        PrefixKept(a, r, cg.code, |old(cg.code)|);
        FinalInside(a, r, cg.code);
      }
    }
  }

  // What m steps of the finished code lead to, when the SSA function's run leads to e.
  ghost predicate RunsAs(f: Function, alloc: map<nat, Loc>, a: Asm, r: set<int>, e: Event, o: Outcome) {
    match e
    case Enter(s, vs, w) =>
      s < |f.blocks| && s < |a.offsets| && o.Next? && o.pc == NewPos(r, a.offsets[s]) && Matches(f, alloc, vs, w, o.st, s, 0)
    case Done(v, w) => o == Returned(v, w)
    case Stopped => o == Trapped
  }

  // Any run of the SSA function is a run of the finished code: after any number of
  // blocks it is at the entry of the same block with every needed value in its place, it
  // returns the same value having done the same to the world, or it traps as well. Calls are
  // taken to leave anything at all in registers other than SP and the zero register. Where f has
  // switches, their moves must be right, which for some they are not.
  lemma CompiledRuns(f: Function, alloc: map<nat, Loc>, lay: Layout, a: Asm, ends: seq<Ending>, r: set<int>,
                     code: seq<Instr>, env: Env, vals: Vals, world: World, st: State, n: nat)
    returns (m: nat)
    requires Compiled(f, alloc, lay, a, ends, r, code, env.data) && lay.frameBase == env.frameBase
    requires SwitchesRight(f, alloc, lay.high) && SeesWords(f, env.meaning, vals)
    requires st.world == world && st.Get(Reg(253)) == 0
    requires forall i :: 0 <= i < |f.params| ==> st.Get(Place(alloc, f.params[i])) == Lookup(vals, f.params[i])
    ensures 0 <= NewPos(r, a.offsets[0])
    ensures RunsAs(f, alloc, a, r, RunBlocks(f, 0, vals, world, env.meaning, n), Run(code, NewPos(r, a.offsets[0]), st, env, m))
    ensures m >= n || !RunBlocks(f, 0, vals, world, env.meaning, n).Enter?
  {
    EntryMatches(f, alloc, lay.high, vals, world, st);
    AllBlocksSimulate(f, alloc, lay, a, ends, env);
    var k, o := FunctionSimulated(f, alloc, a, 0, vals, world, st, env, n, RunBlocks(f, 0, vals, world, env.meaning, n));
    m := RunSimulated(a, r, code, a.offsets[0], st, env, env.data, k);
    assert env.(data := env.data) == env;
  }
}
