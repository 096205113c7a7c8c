// The moves of one control-flow edge are a parallel copy; this module turns them
// into a sequence of instructions that uses one spare register.
module PhiCopy {
  import opened Machine
  import opened Sets

  // A move's source: a location, a constant materialised through a transient, or
  // one word of a wide constant.
  datatype Source = From(loc: Loc) | Const(w: int) | Word(w: int)

  datatype Move = Move(dst: Loc, src: Source)

  function Eval(src: Source, st: State): int {
    match src
    case From(l) => st.Get(l)
    case Const(w) => w
    case Word(w) => w
  }

  // ----- Single copies -----------------------------------------------------------

  const MAX_SLOTS: nat := 0xFFFF

  predicate IsWord(w: int) {
    0 <= w < TWO_TO_THE_32
  }

  // Words an address can denote. The words of the frame below the value-spill area have the
  // indices just below this one.
  const FRAME_WORDS: nat := 0x4000_0000

  // A location a copy may read or write: not the address scratch register, not SP.
  predicate Plain(l: Loc) {
    match l
    case Reg(r) => r != 254 && r != 255
    case Slot(s) => s < 0x4000_0000
  }

  // A 32-bit immediate: one instruction when it fits 16 bits, else two.
  function LoadConst(rd: nat, w: int): (code: seq<Instr>)
    ensures StraightLine(code)
  {
    if w < 0x8000 then [Movi(rd, w)]
    else if w >= TWO_TO_THE_32 - 0x8000 then [Movi(rd, w - TWO_TO_THE_32)]
    else
      var lo := w % 0x1_0000;
      [Movi(rd, if lo < 0x8000 then lo else lo - 0x1_0000), Movhi(rd, w / 0x1_0000)]
  }

  lemma LoadConstLoads(rd: nat, w: int, st: State, env: Env)
    requires IsWord(w)
    ensures Exec(LoadConst(rd, w), st, env) != None
    ensures var st' := Exec(LoadConst(rd, w), st, env).value;
            st'.Get(Reg(rd)) == w && st'.world == st.world &&
            forall l :: l != Reg(rd) ==> st'.Get(l) == st.Get(l)
  {
    var c := LoadConst(rd, w);
    if |c| == 2 {
      ExecTwo(c, st, env);
      HalvesJoin(w, if w % 0x1_0000 < 0x8000 then w % 0x1_0000 else w % 0x1_0000 - 0x1_0000, w / 0x1_0000);
    } else {
      assert c[1..] == [];
    }
  }

  lemma ExecTwo(c: seq<Instr>, st: State, env: Env)
    requires StraightLine(c) && |c| == 2 && Apply(c[0], st, env).Some?
    ensures Exec(c, st, env) == Apply(c[1], Apply(c[0], st, env).value, env)
  {
    var st1 := Apply(c[0], st, env).value;
    assert c[1..] == [c[1]] && c[1..][1..] == [];
    assert Exec(c[1..], st1, env) == Apply(c[1], st1, env);
  }

  // What the two immediates of a word leave in a register.
  lemma HalvesJoin(w: int, lo: int, hi: int)
    requires IsWord(w) && hi == w / 0x1_0000 && lo == if w % 0x1_0000 < 0x8000 then w % 0x1_0000 else w % 0x1_0000 - 0x1_0000
    ensures hi % 0x1_0000 * 0x1_0000 + SignExtend16(lo % 0x1_0000) % TWO_TO_THE_32 % 0x1_0000 == w
  {
  }

  // R254 = SP + offset of a value-spill slot.
  function SlotAddress(s: nat, frameBase: nat): (code: seq<Instr>)
    ensures StraightLine(code)
  {
    LoadConst(REG_SCRATCH, (frameBase + 4 * s) % TWO_TO_THE_32) + [Add(REG_SCRATCH, REG_SP, REG_SCRATCH)]
  }

  lemma SlotAddressPoints(s: nat, st: State, env: Env)
    requires s < FRAME_WORDS
    ensures Exec(SlotAddress(s, env.frameBase), st, env) != None
    ensures var st' := Exec(SlotAddress(s, env.frameBase), st, env).value;
            SlotAt(st'.Get(Reg(REG_SCRATCH)), st', env) == Some(s) && st'.world == st.world &&
            forall l :: l != Reg(REG_SCRATCH) ==> st'.Get(l) == st.Get(l)
  {
    var off := (env.frameBase + 4 * s) % TWO_TO_THE_32;
    var load := LoadConst(REG_SCRATCH, off);
    var add := [Add(REG_SCRATCH, REG_SP, REG_SCRATCH)];
    LoadConstLoads(REG_SCRATCH, off, st, env);
    ExecAppend(load, add, st, env);
    var s1 := Exec(load, st, env).value;
    assert add[1..] == [];
    var sp := st.Get(Reg(REG_SP));
    WrapsBack(sp, env.frameBase, 4 * s);
  }

  lemma WrapsBack(sp: int, base: int, d: int)
    requires 0 <= d < TWO_TO_THE_32
    ensures ((sp + (base + d) % TWO_TO_THE_32) % TWO_TO_THE_32 - sp - base) % TWO_TO_THE_32 == d
  {
    var k := (base + d) / TWO_TO_THE_32;
    var o := (base + d) % TWO_TO_THE_32;
    var j := (sp + o) / TWO_TO_THE_32;
    assert (sp + o) % TWO_TO_THE_32 - sp - base == d - (k + j) * TWO_TO_THE_32;
  }

  function ReadTo(src: Loc, rd: nat, frameBase: nat): (code: seq<Instr>)
    ensures StraightLine(code)
  {
    match src
    case Slot(s) => SlotAddress(s, frameBase) + [Ldw(rd, REG_SCRATCH)]
    case Reg(r) => if r != rd then [Mov(rd, r)] else []
  }

  function WriteFrom(dst: Loc, rs: nat, frameBase: nat): (code: seq<Instr>)
    ensures StraightLine(code)
  {
    match dst
    case Slot(s) => SlotAddress(s, frameBase) + [Stw(REG_SCRATCH, rs)]
    case Reg(r) => if r != rs then [Mov(r, rs)] else []
  }

  // Nothing but l and the scratch locations differs between the two states.
  ghost predicate OnlyChanges(st: State, st': State, changed: set<Loc>) {
    st'.world == st.world && forall l :: l !in changed ==> st'.Get(l) == st.Get(l)
  }

  lemma ReadToReads(src: Loc, rd: nat, st: State, env: Env)
    requires Plain(src) && Plain(Reg(rd))
    ensures Exec(ReadTo(src, rd, env.frameBase), st, env) != None
    ensures var st' := Exec(ReadTo(src, rd, env.frameBase), st, env).value;
            st'.Get(Reg(rd)) == st.Get(src) && OnlyChanges(st, st', {Reg(rd), Reg(REG_SCRATCH)})
  {
    match src
    case Slot(s) =>
      var load := [Ldw(rd, REG_SCRATCH)];
      SlotAddressPoints(s, st, env);
      ExecAppend(SlotAddress(s, env.frameBase), load, st, env);
      assert load[1..] == [];
    case Reg(r) =>
      var mov := [Mov(rd, r)];
      assert mov[1..] == [];
  }

  lemma WriteFromWrites(dst: Loc, rs: nat, st: State, env: Env)
    requires Plain(dst) && Plain(Reg(rs))
    ensures Exec(WriteFrom(dst, rs, env.frameBase), st, env) != None
    ensures var st' := Exec(WriteFrom(dst, rs, env.frameBase), st, env).value;
            st'.Get(dst) == st.Get(Reg(rs)) && OnlyChanges(st, st', {dst, Reg(REG_SCRATCH)})
  {
    match dst
    case Slot(s) =>
      var store := [Stw(REG_SCRATCH, rs)];
      SlotAddressPoints(s, st, env);
      ExecAppend(SlotAddress(s, env.frameBase), store, st, env);
      assert store[1..] == [];
    case Reg(r) =>
      var mov := [Mov(r, rs)];
      assert mov[1..] == [];
  }

  // One location-to-location copy; slot to slot goes through the staging register.
  function CopyLoc(dst: Loc, src: Loc, stage: nat, frameBase: nat): (code: seq<Instr>)
    ensures StraightLine(code)
  {
    if src == dst then []
    else if src.Slot? && dst.Slot? then ReadTo(src, stage, frameBase) + WriteFrom(dst, stage, frameBase)
    else if src.Slot? then ReadTo(src, dst.r, frameBase)
    else if dst.Slot? then WriteFrom(dst, src.r, frameBase)
    else [Mov(dst.r, src.r)]
  }

  lemma CopyLocCopies(dst: Loc, src: Loc, stage: nat, st: State, env: Env)
    requires Plain(dst) && Plain(src) && Plain(Reg(stage)) && dst != Reg(stage)
    ensures Exec(CopyLoc(dst, src, stage, env.frameBase), st, env) != None
    ensures var st' := Exec(CopyLoc(dst, src, stage, env.frameBase), st, env).value;
            st'.Get(dst) == st.Get(src) && OnlyChanges(st, st', {dst, Reg(stage), Reg(REG_SCRATCH)})
  {
    if src == dst {
    } else if src.Slot? && dst.Slot? {
      var read := ReadTo(src, stage, env.frameBase);
      ReadToReads(src, stage, st, env);
      var s1 := Exec(read, st, env).value;
      WriteFromWrites(dst, stage, s1, env);
      ExecAppend(read, WriteFrom(dst, stage, env.frameBase), st, env);
    } else if src.Slot? {
      ReadToReads(src, dst.r, st, env);
    } else if dst.Slot? {
      WriteFromWrites(dst, src.r, st, env);
    } else {
      var mov := [Mov(dst.r, src.r)];
      assert mov[1..] == [];
    }
  }

  // A constant goes through a transient, a word straight to a register or through
  // the staging register to a slot.
  function EmitConst(dst: Loc, w: int, transient: nat, frameBase: nat): (code: seq<Instr>)
    ensures StraightLine(code)
  {
    LoadConst(transient, w) + WriteFrom(dst, transient, frameBase)
  }

  function EmitWord(dst: Loc, w: int, stage: nat, frameBase: nat): (code: seq<Instr>)
    ensures StraightLine(code)
  {
    if dst.Slot? then EmitConst(dst, w, stage, frameBase) else LoadConst(dst.r, w)
  }

  lemma EmitConstWrites(dst: Loc, w: int, transient: nat, st: State, env: Env)
    requires Plain(dst) && Plain(Reg(transient)) && IsWord(w) && dst != Reg(transient)
    ensures Exec(EmitConst(dst, w, transient, env.frameBase), st, env) != None
    ensures var st' := Exec(EmitConst(dst, w, transient, env.frameBase), st, env).value;
            st'.Get(dst) == w && OnlyChanges(st, st', {dst, Reg(transient), Reg(REG_SCRATCH)})
  {
    LoadConstLoads(transient, w, st, env);
    var s1 := Exec(LoadConst(transient, w), st, env).value;
    WriteFromWrites(dst, transient, s1, env);
    ExecAppend(LoadConst(transient, w), WriteFrom(dst, transient, env.frameBase), st, env);
  }

  // ----- The parallel copy -------------------------------------------------------

  ghost predicate DistinctDsts(moves: seq<Move>) {
    forall i, j :: 0 <= i < j < |moves| ==> moves[i].dst != moves[j].dst
  }

  // A location the emit scratch window, starting at h, cannot disturb.
  predicate Outside(l: Loc, h: nat) {
    match l
    case Reg(r) => r < h
    case Slot(s) => s < 0xFFFF
  }

  // What collecting an edge's phi moves delivers: distinct destinations, no move
  // onto itself, and locations outside the scratch window.
  ghost predicate EdgeMoves(moves: seq<Move>, h: nat) {
    && DistinctDsts(moves)
    && h <= MAX_EMIT_REG + 1
    && (forall i :: 0 <= i < |moves| ==> Outside(moves[i].dst, h))
    && (forall i :: 0 <= i < |moves| ==>
          match moves[i].src
          case From(l) => l != moves[i].dst && (Outside(l, h) || l == Reg(REG_ZERO))
          case Const(w) => IsWord(w)
          case Word(w) => IsWord(w))
  }

  ghost function Dsts(moves: seq<Move>): set<Loc> {
    set i | 0 <= i < |moves| :: moves[i].dst
  }

  ghost function Scratch(h: nat): set<Loc> {
    {Reg(h)} + Transients(h)
  }

  // What single copies and literals may disturb.
  ghost function Transients(h: nat): set<Loc> {
    {Reg(h + 1), Reg(254)} + if h + 2 <= 252 then {Reg(h + 2)} else {}
  }

  // The code performs all moves at once: every destination holds what its source
  // held before, and nothing else but scratch has changed.
  ghost predicate IsParallelCopy(moves: seq<Move>, code: seq<Instr>, h: nat, st: State, env: Env)
    requires StraightLine(code)
  {
    Exec(code, st, env).Some? &&
    var st' := Exec(code, st, env).value;
    && (forall i :: 0 <= i < |moves| ==> st'.Get(moves[i].dst) == Eval(moves[i].src, st))
    && OnlyChanges(st, st', Dsts(moves) + Scratch(h))
  }

  // ----- Worklist invariant -------------------------------------------------------

  // Where things are: cur[a] says where the pre-edge value of a now is, and a ready
  // destination holds no value a pending move still reads.
  ghost predicate Placed(moves: seq<Move>, h: nat, done: set<Loc>, cur: map<Loc, Loc>, ready: set<Loc>) {
    && (forall i :: 0 <= i < |moves| && moves[i].src.From? ==> moves[i].src.loc in cur)
    && (forall l :: l in done ==> Outside(l, h))
    && (forall a :: a in cur ==> cur[a] == a || cur[a] == Reg(h) || cur[a] in done)
    && (forall b :: b in done && b in cur ==> cur[b] != b)
    && (forall b :: b in ready ==> Outside(b, h) && b !in done && !(b in cur && cur[b] == b))
  }

  // Nothing is forgotten: a destination neither written nor ready still holds its own
  // pre-edge value, which only pending moves read.
  ghost predicate Complete(moves: seq<Move>, done: set<Loc>, cur: map<Loc, Loc>, ready: set<Loc>) {
    && (forall a :: a in cur ==> IsSource(moves, a))
    && (forall i :: 0 <= i < |moves| && moves[i].dst in done && moves[i].src.From? && moves[i].src.loc in cur ==>
          cur[moves[i].src.loc] != moves[i].src.loc)
    && (forall i :: 0 <= i < |moves| && moves[i].dst !in done && moves[i].dst !in ready ==>
          moves[i].dst in cur && cur[moves[i].dst] == moves[i].dst)
  }

  // Every pending move reads a location that still holds its own pre-edge value.
  ghost predicate ReadInPlace(moves: seq<Move>, done: set<Loc>, cur: map<Loc, Loc>) {
    forall i :: 0 <= i < |moves| && moves[i].dst !in done ==>
      moves[i].src.From? && moves[i].src.loc in cur && cur[moves[i].src.loc] == moves[i].src.loc
  }

  ghost predicate IsSource(moves: seq<Move>, a: Loc) {
    exists i :: 0 <= i < |moves| && moves[i].src == From(a)
  }

  // st is the state at the edge, now the state the code so far has reached.
  ghost predicate ProgressAt(moves: seq<Move>, h: nat, st: State, now: State, done: set<Loc>, cur: map<Loc, Loc>) {
    && now.world == st.world
    && (forall i :: 0 <= i < |moves| && moves[i].dst in done ==> now.Get(moves[i].dst) == Eval(moves[i].src, st))
    && (forall i :: 0 <= i < |moves| && moves[i].dst !in done && moves[i].src.From? && moves[i].src.loc in cur ==>
          now.Get(cur[moves[i].src.loc]) == st.Get(moves[i].src.loc))
    && (forall l :: l !in done && l !in Scratch(h) ==> now.Get(l) == st.Get(l))
  }

  ghost predicate Progress(moves: seq<Move>, code: seq<Instr>, h: nat, st: State, env: Env,
                           done: set<Loc>, cur: map<Loc, Loc>)
  {
    StraightLine(code) && Exec(code, st, env).Some? &&
    ProgressAt(moves, h, st, Exec(code, st, env).value, done, cur)
  }

  // Writing a ready destination disturbs no location a pending move still reads.
  lemma PendingUndisturbed(moves: seq<Move>, h: nat, done: set<Loc>, cur: map<Loc, Loc>, ready: set<Loc>, b: Loc)
    requires EdgeMoves(moves, h) && h + 1 <= MAX_EMIT_REG
    requires Placed(moves, h, done, cur, ready) && b in ready
    ensures forall i :: 0 <= i < |moves| && moves[i].src.From? ==>
              var a := moves[i].src.loc; a in cur && cur[a] !in {b} + Transients(h)
  {
  }

  // One move done: what one instruction sequence writes to its destination, in terms
  // of the states around it.
  lemma MoveDone(moves: seq<Move>, h: nat, st: State, s1: State, s2: State,
                 done: set<Loc>, cur: map<Loc, Loc>, ready: set<Loc>, m: nat)
    requires EdgeMoves(moves, h) && h + 1 <= MAX_EMIT_REG
    requires Placed(moves, h, done, cur, ready) && ProgressAt(moves, h, st, s1, done, cur)
    requires m < |moves| && moves[m].dst in ready
    requires OnlyChanges(s1, s2, {moves[m].dst} + Transients(h))
    requires s2.Get(moves[m].dst) == Eval(moves[m].src, st)
    ensures ProgressAt(moves, h, st, s2, done + {moves[m].dst},
                       if moves[m].src.From? then cur[moves[m].src.loc := moves[m].dst] else cur)
  {
    var Move(b, src) := moves[m];
    var cur' := if src.From? then cur[src.loc := b] else cur;
    PendingUndisturbed(moves, h, done, cur, ready, b);
    forall i | 0 <= i < |moves| && moves[i].dst in done + {b}
      ensures s2.Get(moves[i].dst) == Eval(moves[i].src, st)
    {
      if moves[i].dst != b {
        assert Outside(moves[i].dst, h);
      }
    }
    forall i | 0 <= i < |moves| && moves[i].dst !in done + {b} && moves[i].src.From?
      ensures s2.Get(cur'[moves[i].src.loc]) == st.Get(moves[i].src.loc)
    {
      if src.From? && src.loc == moves[i].src.loc {
      } else {
        assert s2.Get(cur[moves[i].src.loc]) == s1.Get(cur[moves[i].src.loc]);
      }
    }
  }

  lemma CopyStep(moves: seq<Move>, code: seq<Instr>, h: nat, st: State, env: Env,
                 done: set<Loc>, cur: map<Loc, Loc>, ready: set<Loc>, m: nat)
    requires EdgeMoves(moves, h) && h + 1 <= MAX_EMIT_REG
    requires Placed(moves, h, done, cur, ready) && Progress(moves, code, h, st, env, done, cur)
    requires m < |moves| && moves[m].src.From? && moves[m].dst in ready && moves[m].src.loc in cur
    ensures var Move(b, src) := moves[m];
            Progress(moves, code + CopyLoc(b, cur[src.loc], h + 1, env.frameBase), h, st, env,
                     done + {b}, cur[src.loc := b])
  {
    var Move(b, src) := moves[m];
    var c := cur[src.loc];
    PendingUndisturbed(moves, h, done, cur, ready, b);
    PlainPlaces(moves, h, done, cur, ready, m);
    var s1 := Exec(code, st, env).value;
    CopyLocCopies(b, c, h + 1, s1, env);
    var copy := CopyLoc(b, c, h + 1, env.frameBase);
    ExecAppend(code, copy, st, env);
    MoveDone(moves, h, st, s1, Exec(copy, s1, env).value, done, cur, ready, m);
  }

  lemma PlainPlaces(moves: seq<Move>, h: nat, done: set<Loc>, cur: map<Loc, Loc>, ready: set<Loc>, m: nat)
    requires EdgeMoves(moves, h) && h + 1 <= MAX_EMIT_REG
    requires Placed(moves, h, done, cur, ready) && m < |moves|
    ensures Plain(moves[m].dst) && moves[m].dst !in Scratch(h)
    ensures moves[m].src.From? && moves[m].src.loc in cur ==> Plain(cur[moves[m].src.loc])
  {
  }

  // The code that materialises a move's constant or word source.
  function EmitLiteral(move: Move, h: nat, frameBase: nat): (code: seq<Instr>)
    requires !move.src.From?
    ensures StraightLine(code)
  {
    if move.src.Const? then EmitConst(move.dst, move.src.w, h + 2, frameBase)
    else EmitWord(move.dst, move.src.w, h + 1, frameBase)
  }

  lemma LiteralStep(moves: seq<Move>, code: seq<Instr>, h: nat, st: State, env: Env,
                    done: set<Loc>, cur: map<Loc, Loc>, ready: set<Loc>, m: nat)
    requires EdgeMoves(moves, h) && h + 1 <= MAX_EMIT_REG
    requires Placed(moves, h, done, cur, ready) && Progress(moves, code, h, st, env, done, cur)
    requires m < |moves| && moves[m].dst in ready && !moves[m].src.From?
    requires moves[m].src.Const? ==> h + 2 <= MAX_EMIT_REG
    ensures Progress(moves, code + EmitLiteral(moves[m], h, env.frameBase), h, st, env, done + {moves[m].dst}, cur)
  {
    var Move(b, src) := moves[m];
    PlainPlaces(moves, h, done, cur, ready, m);
    var s1 := Exec(code, st, env).value;
    if src.Const? {
      EmitConstWrites(b, src.w, h + 2, s1, env);
    } else if b.Slot? {
      EmitConstWrites(b, src.w, h + 1, s1, env);
    } else {
      LoadConstLoads(b.r, src.w, s1, env);
    }
    var emitted := EmitLiteral(moves[m], h, env.frameBase);
    ExecAppend(code, emitted, st, env);
    MoveDone(moves, h, st, s1, Exec(emitted, s1, env).value, done, cur, ready, m);
  }

  // Saving a cycle node to the spare, which no pending move reads.
  lemma SaveStep(moves: seq<Move>, code: seq<Instr>, h: nat, st: State, env: Env,
                 done: set<Loc>, cur: map<Loc, Loc>, b: Loc)
    requires EdgeMoves(moves, h) && h + 1 <= MAX_EMIT_REG
    requires Placed(moves, h, done, cur, {}) && Complete(moves, done, cur, {}) && Progress(moves, code, h, st, env, done, cur)
    requires b !in done && Outside(b, h)
    ensures Progress(moves, code + CopyLoc(Reg(h), b, h + 1, env.frameBase), h, st, env, done, cur[b := Reg(h)])
  {
    var save := CopyLoc(Reg(h), b, h + 1, env.frameBase);
    var s1 := Exec(code, st, env).value;
    PureCycles(moves, done, cur);
    CopyLocCopies(Reg(h), b, h + 1, s1, env);
    ExecAppend(code, save, st, env);
    SpareSaved(moves, h, st, s1, Exec(save, s1, env).value, done, cur, b);
  }

  lemma SpareSaved(moves: seq<Move>, h: nat, st: State, s1: State, s2: State,
                   done: set<Loc>, cur: map<Loc, Loc>, b: Loc)
    requires EdgeMoves(moves, h) && h + 1 <= MAX_EMIT_REG
    requires Placed(moves, h, done, cur, {}) && ReadInPlace(moves, done, cur)
    requires ProgressAt(moves, h, st, s1, done, cur)
    requires Outside(b, h) && b !in done
    requires OnlyChanges(s1, s2, {Reg(h), Reg(h + 1), Reg(REG_SCRATCH)})
    requires s2.Get(Reg(h)) == s1.Get(b)
    ensures ProgressAt(moves, h, st, s2, done, cur[b := Reg(h)])
  {
    forall i | 0 <= i < |moves| && moves[i].dst in done
      ensures s2.Get(moves[i].dst) == Eval(moves[i].src, st)
    {
      assert Outside(moves[i].dst, h);
    }
    forall i | 0 <= i < |moves| && moves[i].dst !in done && moves[i].src.From? && moves[i].src.loc != b
      ensures s2.Get(cur[moves[i].src.loc]) == st.Get(moves[i].src.loc)
    {
      assert cur[moves[i].src.loc] == moves[i].src.loc;
      assert Outside(moves[i].src.loc, h) || moves[i].src.loc == Reg(REG_ZERO);
    }
  }

  // ----- When nothing is ready, only cycles are left --------------------------------

  ghost function SrcsOf(moves: seq<Move>, s: set<int>): set<Loc>
    requires forall i :: i in s ==> 0 <= i < |moves| && moves[i].src.From?
  {
    set i | i in s :: moves[i].src.loc
  }

  ghost function DstsOf(moves: seq<Move>, s: set<int>): set<Loc>
    requires forall i :: i in s ==> 0 <= i < |moves|
  {
    set i | i in s :: moves[i].dst
  }

  lemma {:induction false} FewSources(moves: seq<Move>, s: set<int>)
    requires forall i :: i in s ==> 0 <= i < |moves| && moves[i].src.From?
    ensures |SrcsOf(moves, s)| <= |s|
  {
    if s != {} {
      var i := Pick(s);
      FewSources(moves, s - {i});
      assert SrcsOf(moves, s) == SrcsOf(moves, s - {i}) + {moves[i].src.loc};
    }
  }

  lemma {:induction false} DstsCount(moves: seq<Move>, s: set<int>)
    requires DistinctDsts(moves)
    requires forall i :: i in s ==> 0 <= i < |moves|
    ensures |DstsOf(moves, s)| == |s|
  {
    if s != {} {
      var i := Pick(s);
      DstsCount(moves, s - {i});
      assert DstsOf(moves, s) == DstsOf(moves, s - {i}) + {moves[i].dst};
    }
  }

  // With nothing ready, the pending moves permute their destinations: each reads a
  // pending destination in place, so no pending move reads the spare.
  lemma PureCycles(moves: seq<Move>, done: set<Loc>, cur: map<Loc, Loc>)
    requires DistinctDsts(moves) && Complete(moves, done, cur, {})
    ensures ReadInPlace(moves, done, cur)
    ensures forall i :: 0 <= i < |moves| && moves[i].dst !in done ==>
              moves[i].src.loc in Dsts(moves) && moves[i].src.loc !in done
  {
    Permutation(moves, done, cur);
    var pending := Pending(moves, done);
    forall i | 0 <= i < |moves| && moves[i].dst !in done
      ensures moves[i].src.From? && moves[i].src.loc in DstsOf(moves, pending)
    {
      assert i in pending;
      assert moves[i].src.loc in SrcsOf(moves, pending);
    }
  }

  ghost function Pending(moves: seq<Move>, done: set<Loc>): (s: set<int>)
    ensures forall i :: i in s <==> 0 <= i < |moves| && moves[i].dst !in done
  {
    set i | 0 <= i < |moves| && moves[i].dst !in done
  }

  // The pending destinations are as many as the pending moves, each is read by one of
  // them, and a move reads at most one: so they are exactly what is read.
  lemma Permutation(moves: seq<Move>, done: set<Loc>, cur: map<Loc, Loc>)
    requires DistinctDsts(moves) && Complete(moves, done, cur, {})
    ensures forall i :: i in Pending(moves, done) ==> moves[i].src.From?
    ensures DstsOf(moves, Pending(moves, done)) == SrcsOf(moves, Pending(moves, done))
  {
    var pending := Pending(moves, done);
    var reading := set i | i in pending && moves[i].src.From?;
    var left := DstsOf(moves, pending);
    forall b | b in left
      ensures b in SrcsOf(moves, reading)
    {
      PendingIsRead(moves, done, cur, b);
      var i :| 0 <= i < |moves| && moves[i].src == From(b) && moves[i].dst !in done;
      assert i in reading;
    }
    DstsCount(moves, pending);
    FewSources(moves, reading);
    SubsetSize(left, SrcsOf(moves, reading));
    SubsetSize(reading, pending);
    SubsetOfSameSize(reading, pending);
    SubsetOfSameSize(left, SrcsOf(moves, reading));
  }

  lemma PendingIsRead(moves: seq<Move>, done: set<Loc>, cur: map<Loc, Loc>, b: Loc)
    requires Complete(moves, done, cur, {})
    requires b in Dsts(moves) && b !in done
    ensures exists i :: 0 <= i < |moves| && moves[i].src == From(b) && moves[i].dst !in done
  {
    assert b in cur && cur[b] == b;
    assert IsSource(moves, b);
    var i :| 0 <= i < |moves| && moves[i].src == From(b);
    assert moves[i].src.loc in cur;
  }

  // ----- Steps of the worklist -------------------------------------------------------

  ghost predicate Worklist(moves: seq<Move>, h: nat, done: set<Loc>, cur: map<Loc, Loc>, ready: set<Loc>) {
    Placed(moves, h, done, cur, ready) && Complete(moves, done, cur, ready)
  }

  ghost function Freed(moves: seq<Move>, done: set<Loc>, cur: map<Loc, Loc>, rest: set<Loc>, a: Loc): set<Loc>
    requires a in cur
  {
    if cur[a] == a && Written(moves, a) && a !in done && a !in rest then rest + {a} else rest
  }

  // A ready destination is written; its source's location is freed if the value was
  // copied out of it, which makes it ready when it is itself a pending destination.
  lemma MoveKeeps(moves: seq<Move>, h: nat, done: set<Loc>, cur: map<Loc, Loc>, ready: set<Loc>, m: nat,
                  ready': set<Loc>)
    requires EdgeMoves(moves, h) && Worklist(moves, h, done, cur, ready)
    requires m < |moves| && moves[m].src.From? && moves[m].dst in ready
    requires moves[m].src.loc in cur
    requires ready' == Freed(moves, done + {moves[m].dst}, cur, ready - {moves[m].dst}, moves[m].src.loc)
    ensures Worklist(moves, h, done + {moves[m].dst}, cur[moves[m].src.loc := moves[m].dst], ready')
  {
    var Move(b, src) := moves[m];
    var a := src.loc;
    var done', cur' := done + {b}, cur[a := b];
    assert src == From(a) && IsSource(moves, a);
    assert cur[a] == a && Written(moves, a) ==> Outside(a, h);
    forall i | 0 <= i < |moves| && moves[i].dst !in done' && moves[i].dst !in ready'
      ensures moves[i].dst in cur' && cur'[moves[i].dst] == moves[i].dst
    {
      assert moves[i].dst !in ready;
      if moves[i].dst == a {
        assert Written(moves, a);
      }
    }
  }

  lemma LiteralKeeps(moves: seq<Move>, h: nat, done: set<Loc>, cur: map<Loc, Loc>, ready: set<Loc>, m: nat)
    requires EdgeMoves(moves, h) && Worklist(moves, h, done, cur, ready)
    requires m < |moves| && !moves[m].src.From? && moves[m].dst in ready
    ensures Worklist(moves, h, done + {moves[m].dst}, cur, ready - {moves[m].dst})
  {
  }

  ghost predicate Written(moves: seq<Move>, b: Loc) {
    exists i :: 0 <= i < |moves| && moves[i].dst == b
  }

  lemma SaveKeeps(moves: seq<Move>, h: nat, done: set<Loc>, cur: map<Loc, Loc>, m: nat)
    requires EdgeMoves(moves, h) && Worklist(moves, h, done, cur, {})
    requires m < |moves| && moves[m].dst !in done
    ensures var b := moves[m].dst; Worklist(moves, h, done, cur[b := Reg(h)], {b})
  {
  }

  // Every destination popped off the worklist is written, or about to be.
  ghost predicate Handled(moves: seq<Move>, tn: nat, done: set<Loc>, ready: set<Loc>) {
    forall i :: tn <= i < |moves| ==> moves[i].dst in done || moves[i].dst in ready
  }

  // The last destination on the worklist is never pending: alone it would be a cycle
  // of length one, a move onto itself.
  lemma LastIsDone(moves: seq<Move>, h: nat, done: set<Loc>, cur: map<Loc, Loc>)
    requires EdgeMoves(moves, h) && Complete(moves, done, cur, {}) && |moves| > 0
    requires Handled(moves, 1, done, {})
    ensures moves[0].dst in done
  {
    if moves[0].dst !in done {
      PureCycles(moves, done, cur);
    }
  }

  // ----- The sequentialiser ----------------------------------------------------------

  ghost predicate AllProgress(moves: seq<Move>, code: seq<Instr>, h: nat, frameBase: nat,
                              done: set<Loc>, cur: map<Loc, Loc>)
  {
    forall st: State, env: Env :: env.frameBase == frameBase ==> Progress(moves, code, h, st, env, done, cur)
  }

  predicate ScratchSuffices(moves: seq<Move>, nextReg: nat) {
    moves == [] ||
    (nextReg + 1 <= 252 &&
     ((exists i :: 0 <= i < |moves| && moves[i].src.Const?) ==> nextReg + 2 <= 252))
  }

  // predMove inverts the moves' destinations.
  ghost predicate Indexes(predMove: map<Loc, nat>, moves: seq<Move>) {
    && (forall i :: 0 <= i < |moves| ==> moves[i].dst in predMove)
    && (forall b :: b in predMove ==> predMove[b] < |moves| && moves[predMove[b]].dst == b)
  }

  // A stack without duplicates that holds exactly the elements of a set.
  ghost predicate StackOf(stack: seq<Loc>, s: set<Loc>) {
    && |stack| == |s|
    && (forall i, j :: 0 <= i < j < |stack| ==> stack[i] != stack[j])
    && (forall i :: 0 <= i < |stack| ==> stack[i] in s)
  }

  // Takes one destination off the ready stack and writes it. No result means that a
  // constant found the scratch window exhausted.
  method WriteReady(moves: seq<Move>, predMove: map<Loc, nat>, nextReg: nat, frameBase: nat,
                    code: seq<Instr>, done: set<Loc>, cur: map<Loc, Loc>, ready: seq<Loc>, inReady: set<Loc>)
    returns (ok: bool, code': seq<Instr>, cur': map<Loc, Loc>, ready': seq<Loc>, inReady': set<Loc>)
    requires EdgeMoves(moves, nextReg) && nextReg + 1 <= MAX_EMIT_REG && Indexes(predMove, moves)
    requires Worklist(moves, nextReg, done, cur, inReady) && StackOf(ready, inReady) && ready != []
    requires forall b :: b in inReady ==> b in predMove
    requires AllProgress(moves, code, nextReg, frameBase, done, cur)
    ensures !ok ==> nextReg + 2 > MAX_EMIT_REG && exists i :: 0 <= i < |moves| && moves[i].src.Const?
    ensures ok ==> var b := ready[|ready| - 1];
                   && b in inReady && b !in done
                   && Worklist(moves, nextReg, done + {b}, cur', inReady') && StackOf(ready', inReady')
                   && AllProgress(moves, code', nextReg, frameBase, done + {b}, cur')
                   && (forall x :: x in inReady ==> x in inReady' || x == b)
                   && (forall x :: x in inReady' ==> x in predMove)
  {
    var b := ready[|ready| - 1];
    var m := predMove[b];
    var src := moves[m].src;
    ok, cur' := true, cur;
    ready', inReady' := Pop(ready, inReady);
    if src.From? {
      var c := cur[src.loc];
      StepProgress(moves, code, nextReg, frameBase, done, cur, inReady, m);
      code' := code + CopyLoc(b, c, nextReg + 1, frameBase);
      cur' := cur[src.loc := b];
      assert src.loc in predMove <==> Written(moves, src.loc);
      if c == src.loc && src.loc in predMove && src.loc !in done + {b} && src.loc !in inReady' {
        ready', inReady' := Push(ready', inReady', src.loc);
      }
      MoveKeeps(moves, nextReg, done, cur, inReady, m, inReady');
    } else {
      if src.Const? && nextReg + 2 > MAX_EMIT_REG {
        return false, code, cur, ready, inReady;
      }
      StepProgress(moves, code, nextReg, frameBase, done, cur, inReady, m);
      LiteralKeeps(moves, nextReg, done, cur, inReady, m);
      code' := code + EmitLiteral(moves[m], nextReg, frameBase);
    }
  }

  // The inner loop: writes ready destinations until none is left.
  method DrainReady(moves: seq<Move>, predMove: map<Loc, nat>, nextReg: nat, frameBase: nat, code0: seq<Instr>,
                    done0: set<Loc>, cur0: map<Loc, Loc>, ready0: seq<Loc>, inReady0: set<Loc>)
    returns (ok: bool, code: seq<Instr>, done: set<Loc>, cur: map<Loc, Loc>)
    requires EdgeMoves(moves, nextReg) && nextReg + 1 <= MAX_EMIT_REG && Indexes(predMove, moves)
    requires Worklist(moves, nextReg, done0, cur0, inReady0) && StackOf(ready0, inReady0)
    requires done0 <= predMove.Keys && forall b :: b in inReady0 ==> b in predMove
    requires AllProgress(moves, code0, nextReg, frameBase, done0, cur0)
    ensures !ok ==> nextReg + 2 > MAX_EMIT_REG && exists i :: 0 <= i < |moves| && moves[i].src.Const?
    ensures ok ==> Worklist(moves, nextReg, done, cur, {}) && AllProgress(moves, code, nextReg, frameBase, done, cur)
    ensures ok ==> done0 <= done <= predMove.Keys && forall b :: b in inReady0 ==> b in done
  {
    code, done, cur := code0, done0, cur0;
    var ready, inReady := ready0, inReady0;
    while |ready| > 0
      invariant Worklist(moves, nextReg, done, cur, inReady) && StackOf(ready, inReady)
      invariant AllProgress(moves, code, nextReg, frameBase, done, cur)
      invariant done0 <= done <= predMove.Keys
      invariant forall b :: b in inReady0 ==> b in done || b in inReady
      invariant forall b :: b in inReady ==> b in predMove
      decreases predMove.Keys - done
    {
      var b := ready[|ready| - 1];
      ok, code, cur, ready, inReady := WriteReady(moves, predMove, nextReg, frameBase, code, done, cur, ready, inReady);
      if !ok {
        return;
      }
      done := done + {b};
    }
    ok := true;
  }

  method Pop(stack: seq<Loc>, s: set<Loc>) returns (stack': seq<Loc>, s': set<Loc>)
    requires StackOf(stack, s) && stack != []
    ensures StackOf(stack', s')
    ensures var b := stack[|stack| - 1]; s' == s - {b} && b in s
  {
    var b := stack[|stack| - 1];
    stack', s' := stack[..|stack| - 1], s - {b};
  }

  lemma SingletonStack(b: Loc)
    ensures StackOf([b], {b})
  {
  }

  method Push(stack: seq<Loc>, s: set<Loc>, b: Loc) returns (stack': seq<Loc>, s': set<Loc>)
    requires StackOf(stack, s) && b !in s
    ensures StackOf(stack', s') && s' == s + {b}
  {
    stack', s' := stack + [b], s + {b};
  }

  lemma StepProgress(moves: seq<Move>, code: seq<Instr>, h: nat, frameBase: nat,
                     done: set<Loc>, cur: map<Loc, Loc>, ready: set<Loc>, m: nat)
    requires EdgeMoves(moves, h) && h + 1 <= MAX_EMIT_REG && Placed(moves, h, done, cur, ready)
    requires m < |moves| && moves[m].dst in ready
    requires moves[m].src.Const? ==> h + 2 <= MAX_EMIT_REG
    requires AllProgress(moves, code, h, frameBase, done, cur)
    ensures var Move(b, src) := moves[m];
            if src.From? then
              src.loc in cur &&
              AllProgress(moves, code + CopyLoc(b, cur[src.loc], h + 1, frameBase), h, frameBase, done + {b}, cur[src.loc := b])
            else
              AllProgress(moves, code + EmitLiteral(moves[m], h, frameBase), h, frameBase, done + {b}, cur)
  {
    var Move(b, src) := moves[m];
    if src.From? {
      var code', cur' := code + CopyLoc(b, cur[src.loc], h + 1, frameBase), cur[src.loc := b];
      forall st: State, env: Env | env.frameBase == frameBase
        ensures Progress(moves, code', h, st, env, done + {b}, cur')
      {
        assert Progress(moves, code, h, st, env, done, cur);
        CopyStep(moves, code, h, st, env, done, cur, ready, m);
      }
    } else {
      var code' := code + EmitLiteral(moves[m], h, frameBase);
      forall st: State, env: Env | env.frameBase == frameBase
        ensures Progress(moves, code', h, st, env, done + {b}, cur)
      {
        assert Progress(moves, code, h, st, env, done, cur);
        LiteralStep(moves, code, h, st, env, done, cur, ready, m);
      }
    }
  }

  lemma SaveProgress(moves: seq<Move>, code: seq<Instr>, h: nat, frameBase: nat,
                     done: set<Loc>, cur: map<Loc, Loc>, m: nat)
    requires EdgeMoves(moves, h) && h + 1 <= MAX_EMIT_REG && Worklist(moves, h, done, cur, {})
    requires m < |moves| && moves[m].dst !in done
    requires AllProgress(moves, code, h, frameBase, done, cur)
    ensures var b := moves[m].dst;
            AllProgress(moves, code + CopyLoc(Reg(h), b, h + 1, frameBase), h, frameBase, done, cur[b := Reg(h)])
  {
    var b := moves[m].dst;
    var code', cur' := code + CopyLoc(Reg(h), b, h + 1, frameBase), cur[b := Reg(h)];
    forall st: State, env: Env | env.frameBase == frameBase
      ensures Progress(moves, code', h, st, env, done, cur')
    {
      assert Progress(moves, code, h, st, env, done, cur);
      SaveStep(moves, code, h, st, env, done, cur, b);
    }
  }

  lemma EverythingCopied(moves: seq<Move>, code: seq<Instr>, h: nat, frameBase: nat, done: set<Loc>, cur: map<Loc, Loc>)
    requires AllProgress(moves, code, h, frameBase, done, cur)
    requires Handled(moves, 0, done, {}) && forall b :: b in done ==> Written(moves, b)
    ensures StraightLine(code)
    ensures forall st: State, env: Env :: env.frameBase == frameBase ==> IsParallelCopy(moves, code, h, st, env)
  {
    var someEnv := Env((op, args, w) => None, (op, args, w) => map[], frameBase, []);
    assert Progress(moves, code, h, State(map[], World(map[], [])), someEnv, done, cur);
    forall st: State, env: Env | env.frameBase == frameBase
      ensures IsParallelCopy(moves, code, h, st, env)
    {
      assert Progress(moves, code, h, st, env, done, cur);
    }
  }

  // The dependency graph of the moves: where each source's value is, which move writes
  // each destination, and all destinations.
  method Prepare(moves: seq<Move>) returns (cur: map<Loc, Loc>, predMove: map<Loc, nat>, todo: seq<Loc>)
    requires DistinctDsts(moves)
    ensures |todo| == |moves| && forall i :: 0 <= i < |moves| ==> todo[i] == moves[i].dst
    ensures Indexes(predMove, moves)
    ensures forall i :: 0 <= i < |moves| && moves[i].src.From? ==> moves[i].src.loc in cur
    ensures forall a :: a in cur ==> cur[a] == a && IsSource(moves, a)
  {
    cur, predMove, todo := map[], map[], [];
    for m := 0 to |moves|
      invariant |todo| == m && forall i :: 0 <= i < m ==> todo[i] == moves[i].dst
      invariant forall i :: 0 <= i < m ==> moves[i].dst in predMove
      invariant forall b :: b in predMove ==> predMove[b] < m && moves[predMove[b]].dst == b
      invariant forall i :: 0 <= i < m && moves[i].src.From? ==> moves[i].src.loc in cur
      invariant forall a :: a in cur ==> cur[a] == a && IsSource(moves, a)
    {
      predMove := predMove[moves[m].dst := m];
      todo := todo + [moves[m].dst];
      if moves[m].src.From? {
        assert moves[m].src == From(moves[m].src.loc);
        cur := cur[moves[m].src.loc := moves[m].src.loc];
      }
    }
  }

  // The destinations no move reads.
  method FindReady(moves: seq<Move>, cur: map<Loc, Loc>) returns (ready: seq<Loc>, inReady: set<Loc>)
    ensures StackOf(ready, inReady)
    ensures forall b :: b in inReady ==> Written(moves, b) && b !in cur
    ensures forall i :: 0 <= i < |moves| && moves[i].dst !in cur ==> moves[i].dst in inReady
  {
    ready, inReady := [], {};
    for m := 0 to |moves|
      invariant StackOf(ready, inReady)
      invariant forall b :: b in inReady ==> Written(moves, b) && b !in cur
      invariant forall i :: 0 <= i < m && moves[i].dst !in cur ==> moves[i].dst in inReady
    {
      if moves[m].dst !in cur && moves[m].dst !in inReady {
        ready, inReady := Push(ready, inReady, moves[m].dst);
      }
    }
  }

  lemma Started(moves: seq<Move>, h: nat, frameBase: nat, cur: map<Loc, Loc>, inReady: set<Loc>)
    requires EdgeMoves(moves, h)
    requires forall i :: 0 <= i < |moves| && moves[i].src.From? ==> moves[i].src.loc in cur
    requires forall a :: a in cur ==> cur[a] == a && IsSource(moves, a)
    requires forall b :: b in inReady ==> Written(moves, b) && b !in cur
    requires forall i :: 0 <= i < |moves| && moves[i].dst !in cur ==> moves[i].dst in inReady
    ensures Worklist(moves, h, {}, cur, inReady)
    ensures AllProgress(moves, [], h, frameBase, {}, cur)
  {
  }

  // Once nothing is ready: what is so after the last destination not yet looked at, number m, has been
  // saved to the spare, if it is pending.
  method NextPending(moves: seq<Move>, predMove: map<Loc, nat>, h: nat, m: nat, done: set<Loc>, cur0: map<Loc, Loc>)
    returns (cur: map<Loc, Loc>, ready: seq<Loc>, inReady: set<Loc>)
    requires EdgeMoves(moves, h) && Indexes(predMove, moves) && m < |moves|
    requires Handled(moves, m + 1, done, {}) && Worklist(moves, h, done, cur0, {})
    ensures cur == if moves[m].dst in done then cur0 else cur0[moves[m].dst := Reg(h)]
    ensures Handled(moves, m, done, inReady) && (m == 0 ==> inReady == {})
    ensures Worklist(moves, h, done, cur, inReady) && StackOf(ready, inReady) && forall b :: b in inReady ==> b in predMove
  {
    if m == 0 {
      LastIsDone(moves, h, done, cur0);
    }
    var b := moves[m].dst;
    assert b in predMove;
    if b in done {
      cur, ready, inReady := cur0, [], {};
    } else {
      SaveKeeps(moves, h, done, cur0, m);
      SingletonStack(b);
      cur, ready, inReady := cur0[b := Reg(h)], [b], {b};
    }
    OneMoreHandled(moves, m, done, inReady);
  }

  lemma OneMoreHandled(moves: seq<Move>, m: nat, done: set<Loc>, ready: set<Loc>)
    requires m < |moves| && Handled(moves, m + 1, done, {}) && (moves[m].dst in done || moves[m].dst in ready)
    ensures Handled(moves, m, done, ready)
  {
  }

  // The code that saves a pending destination to the spare.
  method SavePending(moves: seq<Move>, h: nat, frameBase: nat, m: nat, code0: seq<Instr>, done: set<Loc>, cur: map<Loc, Loc>)
    returns (code: seq<Instr>)
    requires EdgeMoves(moves, h) && h + 1 <= MAX_EMIT_REG && m < |moves| && Worklist(moves, h, done, cur, {})
    requires AllProgress(moves, code0, h, frameBase, done, cur)
    ensures AllProgress(moves, code, h, frameBase, done, if moves[m].dst in done then cur else cur[moves[m].dst := Reg(h)])
  {
    code := code0;
    if moves[m].dst !in done {
      SaveProgress(moves, code0, h, frameBase, done, cur, m);
      code := code0 + CopyLoc(Reg(h), moves[m].dst, h + 1, frameBase);
    }
  }

  // The outer loop: when nothing is ready, saves the last destination still pending to
  // the spare, which breaks the cycle it lies on.
  method RunWorklist(moves: seq<Move>, predMove: map<Loc, nat>, nextReg: nat, frameBase: nat, todo: seq<Loc>,
                     cur0: map<Loc, Loc>, ready0: seq<Loc>, inReady0: set<Loc>)
    returns (ok: bool, code: seq<Instr>)
    requires EdgeMoves(moves, nextReg) && nextReg + 1 <= MAX_EMIT_REG && Indexes(predMove, moves)
    requires moves != [] && |todo| == |moves| && forall i :: 0 <= i < |moves| ==> todo[i] == moves[i].dst
    requires Worklist(moves, nextReg, {}, cur0, inReady0) && StackOf(ready0, inReady0)
    requires forall b :: b in inReady0 ==> b in predMove
    requires AllProgress(moves, [], nextReg, frameBase, {}, cur0)
    ensures !ok ==> nextReg + 2 > MAX_EMIT_REG && exists i :: 0 <= i < |moves| && moves[i].src.Const?
    ensures StraightLine(code)
    ensures ok ==> forall st: State, env: Env :: env.frameBase == frameBase ==>
                     IsParallelCopy(moves, code, nextReg, st, env)
  {
    code := [];
    var cur, ready, inReady := cur0, ready0, inReady0;
    var done: set<Loc> := {};
    var tn := |todo|;
    while tn > 0
      invariant 0 <= tn <= |moves| && Handled(moves, tn, done, inReady)
      invariant tn == 0 ==> inReady == {}
      invariant Worklist(moves, nextReg, done, cur, inReady) && StackOf(ready, inReady)
      invariant done <= predMove.Keys && forall b :: b in inReady ==> b in predMove
      invariant AllProgress(moves, code, nextReg, frameBase, done, cur)
    {
      ok, code, done, cur := DrainReady(moves, predMove, nextReg, frameBase, code, done, cur, ready, inReady);
      if !ok {
        return false, [];
      }
      tn := tn - 1;
      code := SavePending(moves, nextReg, frameBase, tn, code, done, cur);
      cur, ready, inReady := NextPending(moves, predMove, nextReg, tn, done, cur);
    }
    EverythingCopied(moves, code, nextReg, frameBase, done, cur);
    ok := true;
  }

  // The code is a parallel copy from every state.
  ghost predicate Sequentialises(moves: seq<Move>, code: seq<Instr>, h: nat, frameBase: nat) {
    && StraightLine(code)
    && (moves == [] ==> code == []) && (moves != [] ==> h + 1 <= MAX_EMIT_REG)
    && forall st: State, env: Env :: env.frameBase == frameBase ==> IsParallelCopy(moves, code, h, st, env)
  }

  // Emits one edge's moves. The scratch window starts at nextReg: spare, staging
  // register, then the transient of a constant.
  method EmitPhiMoves(moves: seq<Move>, nextReg: nat, frameBase: nat) returns (ok: bool, code: seq<Instr>)
    requires EdgeMoves(moves, nextReg)
    ensures ScratchSuffices(moves, nextReg) ==> ok
    ensures ok ==> Sequentialises(moves, code, nextReg, frameBase)
  {
    if moves == [] {
      return true, [];
    }
    if nextReg + 1 > MAX_EMIT_REG {
      return false, [];
    }
    var cur, predMove, todo := Prepare(moves);
    var ready, inReady := FindReady(moves, cur);
    Started(moves, nextReg, frameBase, cur, inReady);
    ok, code := RunWorklist(moves, predMove, nextReg, frameBase, todo, cur, ready, inReady);
  }
}
