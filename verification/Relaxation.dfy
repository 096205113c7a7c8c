// Branch relaxation: which branches grow into trampolines, where everything moves, and
// why the rewritten code runs as the original.
module Relaxation {
  import opened Machine
  import opened Fenwick
  import opened Assembly

  // ----- The layout after relaxing a set of branches --------------------------------------

  // Where position p ends up: one instruction is inserted after each relaxed branch.
  ghost function NewPos(r: set<int>, p: int): int {
    p + Count(r, p)
  }

  lemma NewPosMonotone(r: set<int>, p: int, q: int)
    requires 0 <= p <= q
    ensures NewPos(r, q) - NewPos(r, p) >= q - p
    ensures NewPos(r, q) <= 2 * q
  {
    CountGrows(r, r, p, q);
  }

  lemma NewPosAtLeast(r: set<int>, p: nat)
    ensures p <= NewPos(r, p)
  {
  }

  // The positions of the 8-bit fixups: the only candidates.
  ghost function Candidates(a: Asm): set<int> {
    set i | 0 <= i < |a.fixups| && a.fixups[i].bits == 8 :: a.fixups[i].pos
  }

  // The offset fixup x would encode in the layout of r.
  ghost function Rel(a: Asm, r: set<int>, x: Fixup): int
    requires x.target < |a.offsets|
  {
    NewPos(r, a.offsets[x.target]) - NewPos(r, x.pos + 1)
  }

  predicate InRange8(rel: int) {
    -128 <= rel <= 127
  }

  // Every 8-bit branch outside r reaches its target in the layout of r.
  ghost predicate Closed(a: Asm, r: set<int>)
    requires WellFormedAsm(a)
  {
    forall i :: 0 <= i < |a.fixups| && a.fixups[i].bits == 8 && a.fixups[i].pos !in r ==>
      InRange8(Rel(a, r, a.fixups[i]))
  }

  // The least set of candidates that leaves every other 8-bit branch in range.
  ghost predicate IsLeastRelaxation(a: Asm, r: set<int>)
    requires WellFormedAsm(a)
  {
    r <= Candidates(a) && Closed(a, r) && forall t: set<int> :: Closed(a, t) ==> r <= t
  }

  // More relaxations only push a branch further out of range.
  lemma OutOfRangeStays(a: Asm, r: set<int>, t: set<int>, x: Fixup)
    requires WellFormedAsm(a) && x.target < |a.offsets| && r <= t
    requires x.pos !in r && !InRange8(Rel(a, r, x))
    ensures !InRange8(Rel(a, t, x))
  {
    var target := a.offsets[x.target];
    if target >= x.pos + 1 {
      CountGrows(r, t, x.pos + 1, target);
    } else {
      CountGrows(r, t, target, x.pos + 1);
    }
  }

  // Hence a branch found out of range belongs to every closed set above r.
  lemma MustRelax(a: Asm, r: set<int>, i: nat)
    requires WellFormedAsm(a) && i < |a.fixups| && a.fixups[i].bits == 8 && a.fixups[i].pos !in r
    requires !InRange8(Rel(a, r, a.fixups[i]))
    requires forall t: set<int> :: Closed(a, t) ==> r <= t
    ensures forall t: set<int> :: Closed(a, t) ==> r + {a.fixups[i].pos} <= t
  {
    forall t: set<int> | Closed(a, t)
      ensures r + {a.fixups[i].pos} <= t
    {
      OutOfRangeStays(a, r, t, a.fixups[i]);
    }
  }

  // ----- The rewritten code -----------------------------------------------------------------

  // A relaxed branch: the opposite test, skipping the inserted jump.
  function Flip(i: Instr): Instr {
    match i
    case Beq(ra, rb, _) => Bne(ra, rb, 1)
    case Bne(ra, rb, _) => Beq(ra, rb, 1)
    case _ => i
  }

  function WithOffset(i: Instr, off: nat): Instr
    requires IsBranch(i)
  {
    match i
    case Beq(ra, rb, _) => Beq(ra, rb, off)
    case Bne(ra, rb, _) => Bne(ra, rb, off)
    case _ => Jmp(off)
  }

  // Where fixup x sits after relaxation.
  ghost function MovedFixup(r: set<int>, x: Fixup): Fixup {
    NewPosAtLeast(r, x.pos);
    if x.pos in r then Fixup(NewPos(r, x.pos) + 1, x.target, 24) else Fixup(NewPos(r, x.pos), x.target, x.bits)
  }

  // a' is a with the branches of r relaxed, targets still unresolved.
  ghost predicate IsRelaxed(a: Asm, r: set<int>, a': Asm)
    requires WellFormedAsm(a)
  {
    && |a'.code| == NewPos(r, |a.code|)
    && (forall p :: 0 <= p < |a.code| ==> NewPos(r, p) < |a'.code| && Placed(a, r, a'.code, p))
    && |a'.fixups| == |a.fixups|
    && (forall i :: 0 <= i < |a.fixups| ==> a'.fixups[i] == MovedFixup(r, a.fixups[i]))
    && |a'.offsets| == |a.offsets|
    && (forall b :: 0 <= b < |a.offsets| ==> a'.offsets[b] == NewPos(r, a.offsets[b]))
    && a'.tables == a.tables
  }

  ghost predicate Placed(a: Asm, r: set<int>, code: seq<Instr>, p: nat)
    requires p < |a.code|
  {
    if p in r then
      NewPos(r, p) + 1 < |code| && code[NewPos(r, p)] == Flip(a.code[p]) && code[NewPos(r, p) + 1] == Jmp(0)
    else
      NewPos(r, p) < |code| && code[NewPos(r, p)] == a.code[p]
  }

  // The final code: every fixup's field encodes the distance to its moved target.
  ghost predicate IsFinal(a: Asm, r: set<int>, code: seq<Instr>)
    requires WellFormedAsm(a)
  {
    && |code| == NewPos(r, |a.code|)
    && forall p :: 0 <= p < |a.code| ==> 0 <= NewPos(r, p) < |code| && FinalAt(a, r, code, p)
  }

  ghost predicate FinalAt(a: Asm, r: set<int>, code: seq<Instr>, p: nat)
    requires WellFormedAsm(a) && p < |a.code| && 0 <= NewPos(r, p) < |code|
  {
    var q := NewPos(r, p);
    if p in r then
      && q + 1 < |code| && code[q] == Flip(a.code[p]) && code[q + 1].Jmp?
      && IsBranch(a.code[p]) && FieldTarget(code[q + 1], q + 1) == NewPos(r, Taken(a, p))
    else if HasFixup(a, p) then
      && IsBranch(a.code[p]) && IsBranch(code[q]) && code[q] == WithOffset(a.code[p], code[q].off)
      && FieldTarget(code[q], q) == NewPos(r, Taken(a, p))
    else code[q] == a.code[p]
  }

  // Jump-table words hold the moved positions of their blocks.
  ghost predicate TablesFinal(a: Asm, r: set<int>, data: seq<nat>)
    requires WellFormedAsm(a)
  {
    forall i :: 0 <= i < |a.tables| ==>
      ReadLE32(data, a.tables[i].dataOff) == Some(NewPos(r, a.offsets[a.tables[i].target]))
  }

  // No branch with a hand-emitted offset jumps across a branch that may be relaxed.
  ghost predicate LocalsSafe(a: Asm)
    requires WellFormedAsm(a)
  {
    forall p :: 0 <= p < |a.code| && IsBranch(a.code[p]) && !HasFixup(a, p) ==>
      var t := FieldTarget(a.code[p], p);
      0 <= t <= |a.code| &&
      forall c :: c in Candidates(a) ==> !(p + 1 <= c < t) && !(t <= c < p + 1)
  }

  // ----- Simulation -------------------------------------------------------------------------

  ghost function Moved(r: set<int>, o: Outcome): Outcome {
    match o
    case Next(pc, st) => Next(NewPos(r, pc), st)
    case _ => o
  }

  lemma {:induction false} CountEmptyStretch(r: set<int>, x: int, y: int)
    requires 0 <= x <= y
    requires forall c :: x <= c < y ==> c !in r
    ensures Count(r, x) == Count(r, y)
    decreases y
  {
    if x < y {
      CountEmptyStretch(r, x, y - 1);
    }
  }

  // A local branch keeps its distance.
  lemma LocalMoves(a: Asm, r: set<int>, p: nat)
    requires WellFormedAsm(a) && LocalsSafe(a) && r <= Candidates(a)
    requires p < |a.code| && IsBranch(a.code[p]) && !HasFixup(a, p) && p !in r
    ensures FieldTarget(a.code[p], NewPos(r, p)) == NewPos(r, FieldTarget(a.code[p], p))
  {
    var t := FieldTarget(a.code[p], p);
    assert Count(r, p + 1) == Count(r, p);
    if p + 1 <= t {
      CountEmptyStretch(r, p + 1, t);
    } else {
      CountEmptyStretch(r, t, p + 1);
    }
  }

  lemma CandidateIsTest(a: Asm, p: int)
    requires WellFormedAsm(a) && p in Candidates(a)
    ensures 0 <= p < |a.code| && HasFixup(a, p) && (a.code[p].Beq? || a.code[p].Bne?)
  {
    var i :| 0 <= i < |a.fixups| && a.fixups[i].bits == 8 && a.fixups[i].pos == p;
    assert FixupOk(a, a.fixups[i]);
  }

  // How many steps of the final code do one step of the original.
  ghost function StepsFor(a: Asm, r: set<int>, pc: nat, st: State): nat
    requires WellFormedAsm(a)
  {
    if pc in r && pc < |a.code| &&
       match a.code[pc]
       case Beq(x, y, _) => st.Get(Reg(x)) == st.Get(Reg(y))
       case Bne(x, y, _) => st.Get(Reg(x)) != st.Get(Reg(y))
       case _ => false
    then 2 else 1
  }

  // One step of the original code is one or two steps of the final code, from the moved
  // position to the moved position, with the same effect.
  lemma StepSimulated(a: Asm, r: set<int>, code: seq<Instr>, pc: nat, st: State, env: Env, data: seq<nat>)
    requires WellFormedAsm(a) && LocalsSafe(a) && r <= Candidates(a)
    requires IsFinal(a, r, code) && TablesFinal(a, r, data)
    requires AsmStep(a, pc, st, env).Some?
    ensures 0 <= NewPos(r, pc)
    ensures Run(code, NewPos(r, pc), st, env.(data := data), StepsFor(a, r, pc, st)) ==
            Moved(r, AsmStep(a, pc, st, env).value)
  {
    NewPosMonotone(r, 0, pc);
    if pc >= |a.code| {
      NewPosMonotone(r, |a.code|, pc);
    } else {
      assert FinalAt(a, r, code, pc);
      assert NewPos(r, pc + 1) == NewPos(r, pc) + 1 + if pc in r then 1 else 0;
      if pc in r {
        CandidateIsTest(a, pc);
        TrampolineSimulated(a, r, code, pc, st, env, data);
      } else {
        RunOne(code, NewPos(r, pc), st, env.(data := data));
        if IsBranch(a.code[pc]) {
          BranchSimulated(a, r, code, pc, st, env, data);
        } else {
          PlainSimulated(a, r, code, pc, st, env, data);
        }
      }
    }
  }

  lemma BranchSimulated(a: Asm, r: set<int>, code: seq<Instr>, pc: nat, st: State, env: Env, data: seq<nat>)
    requires WellFormedAsm(a) && LocalsSafe(a) && r <= Candidates(a)
    requires pc < |a.code| && pc !in r && IsBranch(a.code[pc])
    requires 0 <= NewPos(r, pc) < |code| && FinalAt(a, r, code, pc) && NewPos(r, pc + 1) == NewPos(r, pc) + 1
    ensures AsmStep(a, pc, st, env).Some?
    ensures Step(code, NewPos(r, pc), st, env.(data := data)) == Moved(r, AsmStep(a, pc, st, env).value)
  {
    TakenIsPosition(a, pc);
    NewPosMonotone(r, 0, Taken(a, pc));
    if !HasFixup(a, pc) {
      LocalMoves(a, r, pc);
    }
  }

  lemma PlainSimulated(a: Asm, r: set<int>, code: seq<Instr>, pc: nat, st: State, env: Env, data: seq<nat>)
    requires WellFormedAsm(a) && TablesFinal(a, r, data)
    requires pc < |a.code| && pc !in r && !IsBranch(a.code[pc])
    requires 0 <= NewPos(r, pc) < |code| && FinalAt(a, r, code, pc) && NewPos(r, pc + 1) == NewPos(r, pc) + 1
    requires AsmStep(a, pc, st, env).Some?
    ensures Step(code, NewPos(r, pc), st, env.(data := data)) == Moved(r, AsmStep(a, pc, st, env).value)
  {
    var i := a.code[pc];
    assert !HasFixup(a, pc);
    if i.JmpTable? {
      var off := i.base + 4 * st.Get(Reg(i.r));
      var e :| 0 <= e < |a.tables| && a.tables[e].dataOff == off && a.offsets[a.tables[e].target] == Entry(a, off);
      NewPosMonotone(r, 0, a.offsets[a.tables[e].target]);
    } else if !i.Ret? {
      SameApply(i, st, env, data);
    }
  }

  lemma RunOne(code: seq<Instr>, pc: nat, st: State, env: Env)
    ensures Run(code, pc, st, env, 1) == Step(code, pc, st, env)
  {
    match Step(code, pc, st, env)
    case Next(pc', st') => assert Run(code, pc', st', env, 0) == Next(pc', st');
    case _ =>
  }

  lemma SameApply(i: Instr, st: State, env: Env, data: seq<nat>)
    requires !IsControl(i)
    ensures Apply(i, st, env.(data := data)) == Apply(i, st, env)
  {
  }

  lemma TakenIsPosition(a: Asm, p: nat)
    requires WellFormedAsm(a) && LocalsSafe(a) && p < |a.code| && IsBranch(a.code[p])
    ensures 0 <= Taken(a, p) <= |a.code|
  {
    if HasFixup(a, p) {
      var i :| 0 <= i < |a.fixups| && a.fixups[i].pos == p && Taken(a, p) == a.offsets[a.fixups[i].target];
    }
  }

  // A relaxed branch: the flipped test skips the jump exactly when the original falls
  // through.
  lemma TrampolineSimulated(a: Asm, r: set<int>, code: seq<Instr>, pc: nat, st: State, env: Env, data: seq<nat>)
    requires WellFormedAsm(a) && LocalsSafe(a) && pc < |a.code| && pc in r
    requires a.code[pc].Beq? || a.code[pc].Bne?
    requires 0 <= NewPos(r, pc) < |code| && FinalAt(a, r, code, pc) && NewPos(r, pc + 1) == NewPos(r, pc) + 2
    ensures Run(code, NewPos(r, pc), st, env.(data := data), StepsFor(a, r, pc, st)) ==
            Moved(r, AsmStep(a, pc, st, env).value)
  {
    var env' := env.(data := data);
    var q := NewPos(r, pc);
    TakenIsPosition(a, pc);
    NewPosMonotone(r, 0, Taken(a, pc));
    if StepsFor(a, r, pc, st) == 1 {
      RunOne(code, q, st, env');
    } else {
      RunAdd(code, q, st, env', 1, 1);
      RunOne(code, q, st, env');
      RunOne(code, q + 1, st, env');
    }
  }

  // Every run of the original is a run of the final code between moved positions.
  lemma {:induction false} RunSimulated(a: Asm, r: set<int>, code: seq<Instr>, pc: nat, st: State, env: Env,
                                        data: seq<nat>, n: nat) returns (m: nat)
    requires WellFormedAsm(a) && LocalsSafe(a) && r <= Candidates(a)
    requires IsFinal(a, r, code) && TablesFinal(a, r, data)
    requires AsmRun(a, pc, st, env, n).Some?
    ensures n <= m <= 2 * n
    ensures 0 <= NewPos(r, pc)
    ensures Run(code, NewPos(r, pc), st, env.(data := data), m) == Moved(r, AsmRun(a, pc, st, env, n).value)
    decreases n
  {
    NewPosMonotone(r, 0, pc);
    if n == 0 {
      return 0;
    }
    var env' := env.(data := data);
    StepSimulated(a, r, code, pc, st, env, data);
    var k := StepsFor(a, r, pc, st);
    m := n - 1;
    var o := AsmStep(a, pc, st, env).value;
    if o.Next? {
      assert AsmRun(a, pc, st, env, n) == AsmRun(a, o.pc, o.st, env, n - 1);
      m := RunSimulated(a, r, code, o.pc, o.st, env, data, n - 1);
    } else {
      assert AsmRun(a, pc, st, env, n) == Some(o);
    }
    StepThenRun(r, code, NewPos(r, pc), st, env', k, o, m);
    m := k + m;
  }

  lemma StepThenRun(r: set<int>, code: seq<Instr>, q: nat, st: State, env: Env, k: nat, o: Outcome, m: nat)
    requires o.Next? ==> 0 <= NewPos(r, o.pc)
    requires Run(code, q, st, env, k) == Moved(r, o)
    ensures Run(code, q, st, env, k + m) == if o.Next? then Run(code, NewPos(r, o.pc), o.st, env, m) else o
  {
    RunAdd(code, q, st, env, k, m);
  }

  // ----- The finished code is code without fixups ---------------------------------------------

  // Every position of the new layout is an instruction's or its trampoline's.
  lemma {:induction false} PositionOf(r: set<int>, n: nat, q: nat) returns (p: nat)
    requires q < NewPos(r, n)
    ensures p < n && (q == NewPos(r, p) || (p in r && q == NewPos(r, p) + 1))
  {
    if q >= NewPos(r, n - 1) { p := n - 1; } else { p := PositionOf(r, n - 1, q); }
  }

  // Its branches stay inside it.
  ghost predicate BranchesInside(code: seq<Instr>) {
    forall q :: 0 <= q < |code| && IsBranch(code[q]) ==> 0 <= FieldTarget(code[q], q) <= |code|
  }

  lemma FinalInside(a: Asm, r: set<int>, code: seq<Instr>)
    requires WellFormedAsm(a) && LocalsSafe(a) && r <= Candidates(a) && IsFinal(a, r, code)
    ensures BranchesInside(code)
  {
    forall q | 0 <= q < |code| && IsBranch(code[q])
      ensures 0 <= FieldTarget(code[q], q) <= |code|
    {
      var p := PositionOf(r, |a.code|, q);
      assert FinalAt(a, r, code, p);
      if p in r {
        CandidateIsTest(a, p);
      }
      TakenIsPosition(a, p);
      NewPosMonotone(r, 0, Taken(a, p));
      NewPosMonotone(r, Taken(a, p), |a.code|);
      if !HasFixup(a, p) { LocalMoves(a, r, p); }
    }
  }
}
