// Code with unresolved branches: what a function looks like between emission and the
// end of branch relaxation, and what it means while branches still name their targets.
module Assembly {
  import opened Machine
  import opened Fenwick

  // The branch at pos goes to a block; its offset field has 8 or 24 bits.
  datatype Fixup = Fixup(pos: nat, target: nat, bits: nat)

  // The DATA word at dataOff is to hold the position of a block.
  datatype TableFixup = TableFixup(dataOff: nat, target: nat)

  // Code, its branch fixups, the position of every block, and its jump-table entries.
  datatype Asm = Asm(code: seq<Instr>, fixups: seq<Fixup>, offsets: seq<nat>, tables: seq<TableFixup>)

  predicate IsBranch(i: Instr) {
    i.Beq? || i.Bne? || i.Jmp?
  }

  // What emission guarantees of the fixups: they name blocks, mark distinct branches
  // whose offset field is still zero, and an 8-bit one marks a BEQ or BNE.
  ghost predicate WellFormedAsm(a: Asm) {
    && (forall b :: 0 <= b < |a.offsets| ==> a.offsets[b] <= |a.code|)
    && (forall i :: 0 <= i < |a.fixups| ==> FixupOk(a, a.fixups[i]))
    && (forall i, j :: 0 <= i < j < |a.fixups| ==> a.fixups[i].pos != a.fixups[j].pos)
    && (forall i :: 0 <= i < |a.tables| ==> a.tables[i].target < |a.offsets|)
    && (forall i, j :: 0 <= i < j < |a.tables| ==>
          a.tables[i].dataOff + 4 <= a.tables[j].dataOff || a.tables[j].dataOff + 4 <= a.tables[i].dataOff)
  }

  ghost predicate FixupOk(a: Asm, x: Fixup) {
    && x.pos < |a.code| && x.target < |a.offsets|
    && IsBranch(a.code[x.pos]) && a.code[x.pos].off == 0
    && x.bits == (if a.code[x.pos].Jmp? then 24 else 8)
  }

  // ----- Unlimited-range semantics ------------------------------------------------------

  ghost predicate HasFixup(a: Asm, pc: nat) {
    exists i :: 0 <= i < |a.fixups| && a.fixups[i].pos == pc
  }

  // Where the branch at pc goes when taken.
  ghost function Taken(a: Asm, pc: nat): int
    requires WellFormedAsm(a) && pc < |a.code| && IsBranch(a.code[pc])
  {
    if HasFixup(a, pc) then
      (var i :| 0 <= i < |a.fixups| && a.fixups[i].pos == pc; a.offsets[a.fixups[i].target])
    else FieldTarget(a.code[pc], pc)
  }

  ghost predicate HasEntry(a: Asm, off: int) {
    exists i :: 0 <= i < |a.tables| && a.tables[i].dataOff == off
  }

  ghost function Entry(a: Asm, off: int): nat
    requires WellFormedAsm(a) && HasEntry(a, off)
  {
    var i :| 0 <= i < |a.tables| && a.tables[i].dataOff == off;
    a.offsets[a.tables[i].target]
  }

  // One step at pc, with every fixed-up branch reaching its block whatever the
  // distance. Undefined when a table dispatch reads no table entry.
  ghost function AsmStep(a: Asm, pc: nat, st: State, env: Env): Option<Outcome>
    requires WellFormedAsm(a)
  {
    if pc >= |a.code| then Some(Trapped)
    else
      var i := a.code[pc];
      match i
      case Beq(ra, rb, _) =>
        Some(if st.Get(Reg(ra)) == st.Get(Reg(rb)) then Goto(Taken(a, pc), st) else Next(pc + 1, st))
      case Bne(ra, rb, _) =>
        Some(if st.Get(Reg(ra)) != st.Get(Reg(rb)) then Goto(Taken(a, pc), st) else Next(pc + 1, st))
      case Jmp(_) => Some(Goto(Taken(a, pc), st))
      case JmpTable(r, base) =>
        var off := base + 4 * st.Get(Reg(r));
        if HasEntry(a, off) then Some(Goto(Entry(a, off), st)) else None
      case Ret(x) => Some(Returned(Value(x, st), st.world))
      case _ =>
        Some(match Apply(i, st, env)
             case Some(st') => Next(pc + 1, st')
             case None => Trapped)
  }

  ghost function AsmRun(a: Asm, pc: nat, st: State, env: Env, n: nat): Option<Outcome>
    requires WellFormedAsm(a)
    decreases n
  {
    if n == 0 then Some(Next(pc, st))
    else
      match AsmStep(a, pc, st, env)
      case Some(Next(pc', st')) => AsmRun(a, pc', st', env, n - 1)
      case done => done
  }

  lemma {:induction false} AsmRunAdd(a: Asm, pc: nat, st: State, env: Env, m: nat, n: nat)
    requires WellFormedAsm(a)
    ensures AsmRun(a, pc, st, env, m + n) ==
            match AsmRun(a, pc, st, env, m)
            case Some(Next(pc', st')) => AsmRun(a, pc', st', env, n)
            case done => done
    decreases m
  {
    if m > 0 {
      match AsmStep(a, pc, st, env)
      case Some(Next(pc', st')) => AsmRunAdd(a, pc', st', env, m - 1, n);
      case _ =>
    }
  }

  // A straight-line stretch runs as Exec says.
  lemma {:induction false} AsmStraight(a: Asm, pc: nat, seg: seq<Instr>, st: State, env: Env)
    requires WellFormedAsm(a) && StraightLine(seg)
    requires pc + |seg| <= |a.code| && a.code[pc..pc + |seg|] == seg
    ensures AsmRun(a, pc, st, env, |seg|) ==
            match Exec(seg, st, env) case Some(st') => Some(Next(pc + |seg|, st')) case None => Some(Trapped)
    decreases |seg|
  {
    if seg != [] {
      assert a.code[pc] == a.code[pc..pc + |seg|][0] == seg[0];
      assert a.code[pc + 1..pc + 1 + |seg[1..]|] == seg[1..];
      match Apply(seg[0], st, env)
      case None =>
      case Some(st') => AsmStraight(a, pc + 1, seg[1..], st', env);
    }
  }

  lemma TakenAt(a: Asm, i: nat)
    requires WellFormedAsm(a) && i < |a.fixups|
    ensures Taken(a, a.fixups[i].pos) == a.offsets[a.fixups[i].target]
  {
    assert HasFixup(a, a.fixups[i].pos);
  }
}
