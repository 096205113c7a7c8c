// A whole program through the back end, function by function; and why each function still runs as it
// should among the others.
module Program {
  import opened Machine
  import opened Ssa
  import opened Assembly
  import opened Fenwick
  import opened Relaxation
  import opened Lowering
  import opened Switches
  import opened Branches
  import opened Simulation
  import opened Emission
  import opened Terminators
  import opened CodeGen
  import opened Compile

  // ----- Code behind the code -----------------------------------------------------------------------

  // What runs without a trap runs the same when more code follows.
  lemma {:induction false} RunKept(code: seq<Instr>, more: seq<Instr>, pc: nat, st: State, env: Env, m: nat)
    requires code <= more && !Run(code, pc, st, env, m).Trapped?
    ensures Run(more, pc, st, env, m) == Run(code, pc, st, env, m)
    decreases m
  {
    if m > 0 {
      match Step(code, pc, st, env)
      case Next(pc', st') => RunKept(code, more, pc', st', env, m - 1);
      case _ =>
    }
  }

  // The run leaves the code at its end.
  ghost predicate LeavesAt(code: seq<Instr>, pc: nat, st: State, env: Env, k: nat) {
    Run(code, pc, st, env, k).Next? && Run(code, pc, st, env, k).pc >= |code|
  }

  // What traps does so with more code as well, or leaves the code.
  lemma {:induction false} TrapKept(code: seq<Instr>, more: seq<Instr>, pc: nat, st: State, env: Env, m: nat) returns (k: nat)
    requires code <= more && Run(code, pc, st, env, m).Trapped?
    ensures k < m && (LeavesAt(code, pc, st, env, k) || Run(more, pc, st, env, m).Trapped?)
    decreases m
  {
    k := 0;
    if pc < |code| {
      match Step(code, pc, st, env)
      case Next(pc', st') =>
        k := TrapKept(code, more, pc', st', env, m - 1);
        k := k + 1;
      case _ =>
    }
  }

  function Rets(n: nat): (code: seq<Instr>)
    ensures |code| == n && forall i :: 0 <= i < n ==> code[i] == Ret(Lit(0))
  {
    seq(n, _ => Ret(Lit(0)))
  }

  // Where the code would be left, a return behind it is met instead.
  lemma LeavesReturning(code: seq<Instr>, pc: nat, st: State, env: Env, k: nat, n: nat, m: nat)
    requires LeavesAt(code, pc, st, env, k) && n == Run(code, pc, st, env, k).pc + 1 - |code|
    ensures !Run(code + Rets(n), pc, st, env, m).Trapped?
  {
    var more := code + Rets(n);
    RunKept(code, more, pc, st, env, k);
    if m <= k {
      RunAdd(more, pc, st, env, m, k - m);
    } else {
      RunAdd(more, pc, st, env, k, m - k);
    }
  }

  // ----- A function with returns behind it ------------------------------------------------------------

  lemma PaddedFinal(a: Asm, r: set<int>, code: seq<Instr>, n: nat)
    requires Built(a) && r <= Candidates(a) && IsFinal(a, r, code)
    ensures var a' := a.(code := a.code + Rets(n)); Built(a') && Extends(a, a') && IsFinal(a', r, code + Rets(n))
  {
    var a', code' := a.(code := a.code + Rets(n)), code + Rets(n);
    assert a.fixups + [] == a.fixups;
    assert Append(a, Rets(n), []) == a';
    AppendBuilt(a, Rets(n), []);
    AppendExtends(a, Rets(n), []);
    PaddedPositions(a, r, n);
    forall p | 0 <= p < |a'.code|
      ensures 0 <= NewPos(r, p) < |code'| && FinalAt(a', r, code', p)
    {
      if p < |a.code| {
        assert FinalAt(a, r, code, p);
        PaddedAt(a, a', r, code, code', p);
      } else {
        assert !HasFixup(a', p) by { NoFixupPast(a, p); }
        assert code'[NewPos(r, p)] == Rets(n)[p - |a.code|];
      }
    }
  }

  lemma NoFixupPast(a: Asm, p: nat)
    requires WellFormedAsm(a) && p >= |a.code|
    ensures !HasFixup(a, p)
  {
    forall i | 0 <= i < |a.fixups| ensures a.fixups[i].pos != p { assert FixupOk(a, a.fixups[i]); }
  }

  lemma PaddedPositions(a: Asm, r: set<int>, n: nat)
    requires WellFormedAsm(a) && r <= Candidates(a)
    ensures forall p :: |a.code| <= p <= |a.code| + n ==> NewPos(r, p) == NewPos(r, |a.code|) + p - |a.code|
    ensures forall p :: p in r ==> p < |a.code|
  {
    forall p | p in r ensures p < |a.code| { CandidateIsTest(a, p); }
    forall p | |a.code| <= p <= |a.code| + n ensures NewPos(r, p) == NewPos(r, |a.code|) + p - |a.code| {
      CountEmptyStretch(r, |a.code|, p);
    }
  }

  lemma PaddedAt(a: Asm, a': Asm, r: set<int>, code: seq<Instr>, code': seq<Instr>, p: nat)
    requires WellFormedAsm(a) && WellFormedAsm(a') && a.code <= a'.code && a'.fixups == a.fixups && a'.offsets == a.offsets
    requires code <= code' && p < |a.code| && 0 <= NewPos(r, p) < |code| && FinalAt(a, r, code, p)
    ensures FinalAt(a', r, code', p)
  {
    assert HasFixup(a', p) <==> HasFixup(a, p);
    if IsBranch(a.code[p]) && HasFixup(a, p) {
      var i :| 0 <= i < |a.fixups| && a.fixups[i].pos == p;
      TakenAt(a, i);
      TakenAt(a', i);
    }
  }

  lemma PaddedLeast(a: Asm, a': Asm, r: set<int>)
    requires WellFormedAsm(a) && WellFormedAsm(a') && a'.fixups == a.fixups && a'.offsets == a.offsets && IsLeastRelaxation(a, r)
    ensures IsLeastRelaxation(a', r)
  {
    assert Candidates(a') == Candidates(a);
    forall t: set<int> ensures Closed(a', t) <==> Closed(a, t) {
      assert forall i :: 0 <= i < |a.fixups| ==> Rel(a', t, a'.fixups[i]) == Rel(a, t, a.fixups[i]);
    }
  }

  lemma PaddedLaidOut(f: Function, alloc: map<nat, Loc>, lay: Layout, a: Asm, a': Asm, ends: seq<Ending>)
    requires LaidOut(f, alloc, lay, a, ends) && Extends(a, a') && a'.offsets == a.offsets && |a.offsets| == |f.blocks|
    ensures LaidOut(f, alloc, lay, a', ends)
  {
    forall b | 0 <= b < |f.blocks|
      ensures BlockAt(a', b, WholeBody(f, b, alloc, lay), ends[b], f.blocks[b].term)
    {
      BlockAtKept(a, a', b, WholeBody(f, b, alloc, lay), ends[b], f.blocks[b].term);
    }
  }

  lemma PaddedCompiled(f: Function, alloc: map<nat, Loc>, lay: Layout, a: Asm, ends: seq<Ending>, r: set<int>, code: seq<Instr>, data: seq<nat>, n: nat)
    requires Compiled(f, alloc, lay, a, ends, r, code, data)
    ensures Compiled(f, alloc, lay, a.(code := a.code + Rets(n)), ends, r, code + Rets(n), data)
  {
    var a' := a.(code := a.code + Rets(n));
    PaddedFinal(a, r, code, n);
    PaddedLeast(a, a', r);
    PaddedLaidOut(f, alloc, lay, a, a', ends);
  }

  lemma DataKept(a: Asm, r: set<int>, data: seq<nat>, data': seq<nat>)
    requires WellFormedAsm(a) && TablesFinal(a, r, data) && data <= data'
    ensures TablesFinal(a, r, data')
  {
  }

  // ----- Every function of a program ---------------------------------------------------------------------

  // A function to be compiled, the bytes of its allocas, and which of its operations are calls.
  datatype Source = Source(f: Function, allocaBytes: nat, calls: set<nat>)

  // What became of it: its allocation, its code before and after relaxation, with all the code before its own,
  // and DATA as it was then.
  datatype Unit = Unit(alloc: map<nat, Loc>, lay: Layout, a: Asm, ends: seq<Ending>, r: set<int>, code: seq<Instr>, data: seq<nat>)

  ghost predicate SourceOk(s: Source) {
    WellFormed(s.f) && SwitchesOk(s.f)
  }

  // The function stands in the finished code, with its entry where it was recorded.
  ghost predicate Stands(s: Source, u: Unit, entry: nat, code: seq<Instr>, data: seq<nat>) {
    && Compiled(s.f, u.alloc, u.lay, u.a, u.ends, u.r, u.code, u.data) && u.code <= code && u.data <= data
    && u.lay.saves.calls == s.calls && u.lay.frameBase == s.allocaBytes + 4 * u.lay.saves.count
    && |u.a.offsets| > 0 && NewPos(u.r, u.a.offsets[0]) == entry
  }

  // What the runs of a compiled function lead to.
  ghost predicate RunsTo(s: Source, u: Unit, entry: nat, code: seq<Instr>, st: State, env: Env, vals: Vals, world: World, n: nat, m: nat)
    requires WellFormed(s.f)
  {
    RunsAs(s.f, u.alloc, u.a, u.r, RunBlocks(s.f, 0, vals, world, env.meaning, n), Run(code, entry, st, env, m))
  }

  // A state in which the function is called.
  ghost predicate Called(s: Source, u: Unit, st: State, env: Env, vals: Vals, world: World) {
    && u.lay.frameBase == env.frameBase && SeesWords(s.f, env.meaning, vals)
    && st.world == world && st.Get(Reg(253)) == 0
    && forall i :: 0 <= i < |s.f.params| ==> st.Get(Place(u.alloc, s.f.params[i])) == Lookup(vals, s.f.params[i])
  }

  lemma OwnRuns(s: Source, u: Unit, entry: nat, code: seq<Instr>, st: State, env: Env, vals: Vals, world: World, n: nat) returns (m: nat)
    requires SourceOk(s) && Stands(s, u, entry, code, env.data) && SwitchesRight(s.f, u.alloc, u.lay.high)
    requires Called(s, u, st, env, vals, world)
    ensures RunsTo(s, u, entry, u.code, st, env, vals, world, n, m)
  {
    DataKept(u.a, u.r, u.data, env.data);
    m := CompiledRuns(s.f, u.alloc, u.lay, u.a, u.ends, u.r, u.code, env, vals, world, st, n);
  }

  // When the SSA function stops, its code does not run off its end.
  lemma NotLeft(s: Source, u: Unit, entry: nat, code: seq<Instr>, st: State, env: Env, vals: Vals, world: World, n: nat, k: nat)
    requires SourceOk(s) && Stands(s, u, entry, code, env.data) && SwitchesRight(s.f, u.alloc, u.lay.high)
    requires Called(s, u, st, env, vals, world) && RunBlocks(s.f, 0, vals, world, env.meaning, n).Stopped?
    ensures !LeavesAt(u.code, entry, st, env, k)
  {
    if LeavesAt(u.code, entry, st, env, k) {
      var pad := Run(u.code, entry, st, env, k).pc + 1 - |u.code|;
      PaddedCompiled(s.f, u.alloc, u.lay, u.a, u.ends, u.r, u.code, u.data, pad);
      var u' := u.(a := u.a.(code := u.a.code + Rets(pad)), code := u.code + Rets(pad));
      var m := OwnRuns(s, u', entry, u'.code, st, env, vals, world, n);
      LeavesReturning(u.code, entry, st, env, k, pad, m);
    }
  }

  // Any run of any of the functions is a run of the finished program's code from its entry.
  lemma ProgramRuns(s: Source, u: Unit, entry: nat, code: seq<Instr>, st: State, env: Env, vals: Vals, world: World, n: nat) returns (m: nat)
    requires SourceOk(s) && Stands(s, u, entry, code, env.data) && SwitchesRight(s.f, u.alloc, u.lay.high)
    requires Called(s, u, st, env, vals, world)
    ensures RunsTo(s, u, entry, code, st, env, vals, world, n, m)
  {
    m := OwnRuns(s, u, entry, code, st, env, vals, world, n);
    if Run(u.code, entry, st, env, m).Trapped? {
      var k := TrapKept(u.code, code, entry, st, env, m);
      if LeavesAt(u.code, entry, st, env, k) { NotLeft(s, u, entry, code, st, env, vals, world, n, k); }
    } else {
      RunKept(u.code, code, entry, st, env, m);
    }
  }

  // Each of them does.
  ghost predicate AllStand(sources: seq<Source>, units: seq<Unit>, entries: seq<nat>, n: nat, code: seq<Instr>, data: seq<nat>) {
    n <= |sources| && |units| == |entries| == n && forall k :: 0 <= k < n ==> Stands(sources[k], units[k], entries[k], code, data)
  }

  lemma OneMoreStands(sources: seq<Source>, units: seq<Unit>, entries: seq<nat>, n: nat, code: seq<Instr>, data: seq<nat>,
                      code': seq<Instr>, data': seq<nat>, u: Unit, entry: nat)
    requires AllStand(sources, units, entries, n, code, data) && code <= code' && data <= data'
    requires n < |sources| && Stands(sources[n], u, entry, code', data')
    ensures AllStand(sources, units + [u], entries + [entry], n + 1, code', data')
  {
    forall k | 0 <= k < n ensures Stands(sources[k], units[k], entries[k], code', data') {
      StillStands(sources[k], units[k], entries[k], code, data, code', data');
    }
  }

  lemma StillStands(s: Source, u: Unit, entry: nat, code: seq<Instr>, data: seq<nat>, code': seq<Instr>, data': seq<nat>)
    requires Stands(s, u, entry, code, data) && code <= code' && data <= data'
    ensures Stands(s, u, entry, code', data')
  {
  }

  // Finished code is code to build on.
  lemma BuiltOn(code: seq<Instr>, offsets: seq<nat>)
    requires BranchesInside(code) && forall b :: 0 <= b < |offsets| ==> offsets[b] == 0
    ensures Built(Asm(code, [], offsets, []))
  {
    assert Candidates(Asm(code, [], offsets, [])) == {};
  }

  // Pass 2 of the translator: the functions in order, each after the code of those before it. It succeeds
  // for functions that fit, unless the code or DATA becomes too long.
  method CompileProgram(sources: seq<Source>, data: seq<nat>) returns (cg: Cg, ok: bool, entries: seq<nat>, ghost units: seq<Unit>, ghost last: Asm)
    requires forall k :: 0 <= k < |sources| ==> SourceOk(sources[k])
    ensures fresh(cg)
    ensures ok ==> AllStand(sources, units, entries, |sources|, cg.code, cg.data) && data <= cg.data
    ensures (forall k :: 0 <= k < |sources| ==> Small(sources[k].f)) ==> ok || |last.code| > 0x3F_FFFF || |cg.data| >= 0x1_0000_0000
  {
    cg := new Cg(0, data);
    ok, entries, units, last := true, [], [], Asm([], [], [], []);
    for k := 0 to |sources|
      invariant fresh(cg) && BranchesInside(cg.code) && !cg.hadError && data <= cg.data && ok
      invariant AllStand(sources, units, entries, k, cg.code, cg.data)
    {
      ghost var code0, data0 := cg.code, cg.data;
      var entry := |cg.code|;
      cg.offsets, cg.fixups, cg.tables := seq(|sources[k].f.blocks|, _ => 0), [], [];
      BuiltOn(cg.code, cg.offsets);
      var alloc, lay;
      ghost var ends, r;
      ok, alloc, lay, last, ends, r := CompileFunction(cg, sources[k].f, sources[k].allocaBytes, sources[k].calls);
      if !ok {
        return;
      }
      ghost var u := Unit(alloc, lay, last, ends, r, cg.code, cg.data);
      OneMoreStands(sources, units, entries, k, code0, data0, cg.code, cg.data, u, entry);
      entries, units := entries + [entry], units + [u];
    }
  }
}
