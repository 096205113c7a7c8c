// The target machine: the instructions the translator emits for moves, branches
// and straight-line work, and their effect in the interpreter.
module Machine {

  datatype Option<+T> = None | Some(value: T)

  const TWO_TO_THE_32: int := 0x1_0000_0000

  // Register conventions of the translator.
  const REG_ZERO: nat := 253
  const REG_SCRATCH: nat := 254
  const REG_SP: nat := 255
  const MAX_SSA_REG: nat := 229
  const MAX_EMIT_REG: nat := 252

  // Where a value lives: a register, or a 4-byte value-spill slot of the frame.
  datatype Loc = Reg(r: nat) | Slot(s: nat)

  // What straight-line work may touch besides its operands: user memory and the
  // record of system calls made so far.
  datatype World = World(mem: map<int, int>, trace: seq<int>)

  datatype State = State(locs: map<Loc, int>, world: World) {
    function Get(l: Loc): int {
      if l in locs then locs[l] else 0
    }

    function Put(l: Loc, v: int): State {
      this.(locs := locs[l := v])
    }
  }

  // An operand of straight-line work: a location or a literal word.
  datatype Arg = At(loc: Loc) | Lit(w: int)

  function Value(a: Arg, st: State): int {
    match a
    case At(l) => st.Get(l)
    case Lit(w) => w
  }

  function Values(args: seq<Arg>, st: State): (vs: seq<int>)
    ensures |vs| == |args|
    ensures forall i :: 0 <= i < |args| ==> vs[i] == Value(args[i], st)
  {
    seq(|args|, i requires 0 <= i < |args| => Value(args[i], st))
  }

  datatype Instr =
    | Movi(rd: nat, imm: int)
    | Movhi(rd: nat, imm: int)
    | Mov(rd: nat, rs: nat)
    | Add(rd: nat, rs: nat, rt: nat)
    | Sub(rd: nat, rs: nat, rt: nat)
    | CmpEq(rd: nat, rs: nat, rt: nat)
    | CmpLtu(rd: nat, rs: nat, rt: nat)
    | Ldw(rd: nat, ra: nat)
    | Stw(ra: nat, rs: nat)
      // An opaque state transformer: the lowering of one SSA instruction.
    | Work(op: nat, dst: Option<Loc>, args: seq<Arg>)
      // Any further instruction of such a lowering.
    | Nop
      // The call of a function, its arguments in place.
    | Call(op: nat, args: seq<Arg>)
    | Beq(ra: nat, rb: nat, off: nat)
    | Bne(ra: nat, rb: nat, off: nat)
    | Jmp(off: nat)
      // The load of word number r of the table at base, and the jump to it.
    | JmpTable(r: nat, base: nat)
    | Ret(result: Arg)

  predicate IsControl(i: Instr) {
    i.Beq? || i.Bne? || i.Jmp? || i.JmpTable? || i.Ret?
  }

  // The meaning of opaque work and of calls: from an operation and its operand words to a
  // result word and a new world, or a trap.
  type Meaning = (nat, seq<int>, World) -> Option<(int, World)>

  // What a called function leaves in registers.
  type Leftovers = (nat, seq<int>, World) -> map<Loc, int>

  // What one function body runs in: the meaning of its work and calls, what its callees leave in
  // registers, the offset of its value-spill area from SP, and the DATA section's bytes.
  datatype Env = Env(meaning: Meaning, left: Leftovers, frameBase: nat, data: seq<nat>)

  // A callee leaves the caller's frame alone, restores SP and sets the zero register.
  predicate SurvivesCall(l: Loc) {
    l.Slot? || l == Reg(253) || l == Reg(255)
  }

  // The state after a call: the result in R0, every other register as the callee left it.
  function AfterCall(st: State, v: int, w: World, left: map<Loc, int>): (st': State)
    ensures st'.world == w && st'.Get(Reg(0)) == v
    ensures forall l :: SurvivesCall(l) ==> st'.Get(l) == st.Get(l)
  {
    var kept := map l | l in st.locs && SurvivesCall(l) :: st.locs[l];
    var others := map l | l in left && !SurvivesCall(l) :: left[l];
    State((kept + others)[Reg(0) := v], w)
  }

  // The value-spill slot a frame address denotes.
  function SlotAt(addr: int, st: State, env: Env): Option<nat> {
    var d := (addr - st.Get(Reg(255)) - env.frameBase) % TWO_TO_THE_32;
    if d % 4 == 0 then Some(d / 4) else None
  }

  // The interpreter reads a 16-bit immediate as two's complement.
  function SignExtend16(x: nat): int {
    if x < 0x8000 then x else x - 0x1_0000
  }

  // One non-control instruction; None is a trap.
  function Apply(i: Instr, st: State, env: Env): Option<State>
    requires !IsControl(i)
  {
    match i
    case Movi(rd, imm) => Some(st.Put(Reg(rd), SignExtend16(imm % 0x1_0000) % TWO_TO_THE_32))
    case Movhi(rd, imm) => Some(st.Put(Reg(rd), imm % 0x1_0000 * 0x1_0000 + st.Get(Reg(rd)) % 0x1_0000))
    case Mov(rd, rs) => Some(st.Put(Reg(rd), st.Get(Reg(rs))))
    case Add(rd, rs, rt) => Some(st.Put(Reg(rd), (st.Get(Reg(rs)) + st.Get(Reg(rt))) % TWO_TO_THE_32))
    case Sub(rd, rs, rt) => Some(st.Put(Reg(rd), (st.Get(Reg(rs)) - st.Get(Reg(rt))) % TWO_TO_THE_32))
    case CmpEq(rd, rs, rt) => Some(st.Put(Reg(rd), if st.Get(Reg(rs)) == st.Get(Reg(rt)) then 1 else 0))
    case CmpLtu(rd, rs, rt) => Some(st.Put(Reg(rd), if st.Get(Reg(rs)) < st.Get(Reg(rt)) then 1 else 0))
    case Ldw(rd, ra) =>
      (match SlotAt(st.Get(Reg(ra)), st, env)
       case Some(s) => Some(st.Put(Reg(rd), st.Get(Slot(s))))
       case None => None)
    case Stw(ra, rs) =>
      (match SlotAt(st.Get(Reg(ra)), st, env)
       case Some(s) => Some(st.Put(Slot(s), st.Get(Reg(rs))))
       case None => None)
    case Work(op, dst, args) =>
      (match env.meaning(op, Values(args, st), st.world)
       case None => None
       case Some((v, w)) =>
         var st' := st.(world := w);
         Some(if dst.Some? then st'.Put(dst.value, v) else st'))
    case Nop => Some(st)
    case Call(op, args) =>
      (match env.meaning(op, Values(args, st), st.world)
       case None => None
       case Some((v, w)) => Some(AfterCall(st, v, w, env.left(op, Values(args, st), st.world))))
  }

  predicate StraightLine(code: seq<Instr>) {
    forall i :: 0 <= i < |code| ==> !IsControl(code[i])
  }

  function Exec(code: seq<Instr>, st: State, env: Env): Option<State>
    requires StraightLine(code)
  {
    if code == [] then Some(st)
    else
      match Apply(code[0], st, env)
      case None => None
      case Some(st') => Exec(code[1..], st', env)
  }

  lemma {:induction false} ExecAppend(c: seq<Instr>, d: seq<Instr>, st: State, env: Env)
    requires StraightLine(c) && StraightLine(d)
    ensures StraightLine(c + d)
    ensures Exec(c + d, st, env) ==
            match Exec(c, st, env) case None => None case Some(st') => Exec(d, st', env)
  {
    if c == [] {
      assert c + d == d;
    } else {
      assert (c + d)[0] == c[0] && (c + d)[1..] == c[1..] + d;
      match Apply(c[0], st, env)
      case None =>
      case Some(st') => ExecAppend(c[1..], d, st', env);
    }
  }

  function Nops(n: nat): (code: seq<Instr>)
    ensures StraightLine(code) && |code| == n && forall i :: 0 <= i < n ==> code[i] == Nop
  {
    seq(n, i => Nop)
  }

  lemma {:induction false} NopsDoNothing(n: nat, st: State, env: Env)
    ensures Exec(Nops(n), st, env) == Some(st)
  {
    if n > 0 {
      assert Nops(n)[1..] == Nops(n - 1);
      NopsDoNothing(n - 1, st, env);
    }
  }

  // ----- Control ---------------------------------------------------------------

  // The interpreter reads an n-bit offset field as two's complement.
  function SignExtend8(x: nat): int {
    if x < 0x80 then x else x - 0x100
  }

  function SignExtend24(x: nat): int {
    if x < 0x80_0000 then x else x - 0x100_0000
  }

  // Where the branch at pc goes when taken, by its offset field.
  function FieldTarget(i: Instr, pc: nat): int
    requires i.Beq? || i.Bne? || i.Jmp?
  {
    if i.Jmp? then pc + 1 + SignExtend24(i.off) else pc + 1 + SignExtend8(i.off)
  }

  // The little-endian 32-bit word at an offset of the DATA section.
  function ReadLE32(data: seq<nat>, off: int): Option<int> {
    if 0 <= off && off + 4 <= |data| then
      Some(data[off] + 0x100 * data[off + 1] + 0x1_0000 * data[off + 2] + 0x100_0000 * data[off + 3])
    else None
  }

  datatype Outcome =
    | Next(pc: nat, st: State)
    | Returned(v: int, world: World)
    | Trapped

  function Goto(pc: int, st: State): Outcome {
    if pc < 0 then Trapped else Next(pc, st)
  }

  // One step of the interpreter at pc.
  function Step(code: seq<Instr>, pc: nat, st: State, env: Env): Outcome {
    if pc >= |code| then Trapped
    else
      var i := code[pc];
      match i
      case Beq(ra, rb, _) =>
        if st.Get(Reg(ra)) == st.Get(Reg(rb)) then Goto(FieldTarget(i, pc), st) else Next(pc + 1, st)
      case Bne(ra, rb, _) =>
        if st.Get(Reg(ra)) != st.Get(Reg(rb)) then Goto(FieldTarget(i, pc), st) else Next(pc + 1, st)
      case Jmp(_) => Goto(FieldTarget(i, pc), st)
      case JmpTable(r, base) =>
        (match ReadLE32(env.data, base + 4 * st.Get(Reg(r)))
         case Some(t) => Goto(t, st)
         case None => Trapped)
      case Ret(a) => Returned(Value(a, st), st.world)
      case _ =>
        match Apply(i, st, env)
        case Some(st') => Next(pc + 1, st')
        case None => Trapped
  }

  // The outcome after n steps, or fewer when the run ends before.
  function Run(code: seq<Instr>, pc: nat, st: State, env: Env, n: nat): Outcome
    decreases n
  {
    if n == 0 then Next(pc, st)
    else
      match Step(code, pc, st, env)
      case Next(pc', st') => Run(code, pc', st', env, n - 1)
      case done => done
  }

  lemma {:induction false} RunAdd(code: seq<Instr>, pc: nat, st: State, env: Env, m: nat, n: nat)
    ensures Run(code, pc, st, env, m + n) ==
            match Run(code, pc, st, env, m)
            case Next(pc', st') => Run(code, pc', st', env, n)
            case done => done
    decreases m
  {
    if m > 0 {
      match Step(code, pc, st, env)
      case Next(pc', st') => RunAdd(code, pc', st', env, m - 1, n);
      case _ =>
    }
  }

  // A straight-line stretch of the program runs as Exec says.
  lemma {:induction false} RunStraight(code: seq<Instr>, pc: nat, seg: seq<Instr>, st: State, env: Env)
    requires StraightLine(seg)
    requires pc + |seg| <= |code| && code[pc..pc + |seg|] == seg
    ensures Exec(seg, st, env).Some? ==>
            Run(code, pc, st, env, |seg|) == Next(pc + |seg|, Exec(seg, st, env).value)
    ensures Exec(seg, st, env).None? ==> Run(code, pc, st, env, |seg|) == Trapped
    decreases |seg|
  {
    if seg != [] {
      assert code[pc] == code[pc..pc + |seg|][0] == seg[0];
      assert code[pc + 1..pc + 1 + |seg[1..]|] == seg[1..];
      match Apply(seg[0], st, env)
      case None =>
      case Some(st') => RunStraight(code, pc + 1, seg[1..], st', env);
    }
  }
}
