// Functions in static single assignment form: what the translator reads, and what
// running one means.
module Ssa {
  import opened Machine

  // An operand: an SSA value, a literal word, or undef, which reads as zero.
  datatype Operand = Val(v: nat) | Imm(w: int) | Undef

  datatype Phi = Phi(dst: nat, incoming: map<nat, Operand>)

  // An instruction; words is how many further machine instructions its lowering takes.
  datatype Inst = Inst(op: nat, dst: Option<nat>, args: seq<Operand>, words: nat)

  datatype Term =
    | Br(target: nat)
    | CondBr(cond: Operand, ifTrue: nat, ifFalse: nat)
    | Switch(on: Operand, cases: seq<Case>, otherwise: nat)
    | Return(result: Operand)

  datatype Case = Case(value: int, target: nat)

  datatype Block = Block(phis: seq<Phi>, body: seq<Inst>, term: Term)

  // Where a value is defined.
  datatype Site = Param(i: nat) | PhiAt(b: nat, i: nat) | InstAt(b: nat, k: nat)

  // Block 0 is the entry. sites maps every value to its definition.
  datatype Function = Function(params: seq<nat>, blocks: seq<Block>, sites: map<nat, Site>)

  function Targets(cases: seq<Case>): seq<nat> {
    seq(|cases|, i requires 0 <= i < |cases| => cases[i].target)
  }

  // Where a switch goes: the first case of that value, or else the default.
  function SwitchTarget(cases: seq<Case>, v: int, otherwise: nat): (s: nat)
    ensures s == otherwise || exists i :: 0 <= i < |cases| && cases[i] == Case(v, s)
  {
    if cases == [] then otherwise
    else if cases[0].value == v then
      assert cases[0] == Case(v, cases[0].target);
      cases[0].target
    else
      var s := SwitchTarget(cases[1..], v, otherwise);
      assert forall i :: 0 <= i < |cases[1..]| ==> cases[1..][i] == cases[i + 1];
      s
  }

  // The constants of a switch are words, no two of them equal, and it has no more of them than an
  // instruction may have operands.
  predicate CasesOk(cases: seq<Case>) {
    && |cases| < 0x8000_0000
    && (forall i :: 0 <= i < |cases| ==> 0 <= cases[i].value < TWO_TO_THE_32)
    && (forall i, j :: 0 <= i < j < |cases| ==> cases[i].value != cases[j].value)
  }

  lemma {:induction false} NoCase(cases: seq<Case>, v: int, otherwise: nat)
    requires forall i :: 0 <= i < |cases| ==> cases[i].value != v
    ensures SwitchTarget(cases, v, otherwise) == otherwise
  {
    if cases != [] {
      NoCase(cases[1..], v, otherwise);
    }
  }

  // A number that a switch sends where it sends the word of it.
  predicate SameAsWord(cases: seq<Case>, v: int, otherwise: nat) {
    SwitchTarget(cases, v % TWO_TO_THE_32, otherwise) == SwitchTarget(cases, v, otherwise)
  }

  function Succs(t: Term): seq<nat> {
    match t
    case Br(s) => [s]
    case CondBr(_, t, f) => [t, f]
    case Switch(_, cases, d) => [d] + Targets(cases)
    case Return(_) => []
  }

  // ----- Well-formedness -----------------------------------------------------------

  // sites is exactly the definitions: every value is defined once.
  ghost predicate SingleAssignment(f: Function) {
    && (forall i :: 0 <= i < |f.params| ==> f.params[i] in f.sites && f.sites[f.params[i]] == Param(i))
    && (forall b, i :: 0 <= b < |f.blocks| && 0 <= i < |f.blocks[b].phis| ==>
          f.blocks[b].phis[i].dst in f.sites && f.sites[f.blocks[b].phis[i].dst] == PhiAt(b, i))
    && (forall b, k :: 0 <= b < |f.blocks| && 0 <= k < |f.blocks[b].body| && f.blocks[b].body[k].dst.Some? ==>
          f.blocks[b].body[k].dst.value in f.sites && f.sites[f.blocks[b].body[k].dst.value] == InstAt(b, k))
    && (forall v :: v in f.sites ==> Defines(f, f.sites[v], v))
  }

  predicate Defines(f: Function, site: Site, v: nat) {
    match site
    case Param(i) => i < |f.params| && f.params[i] == v
    case PhiAt(b, i) => b < |f.blocks| && i < |f.blocks[b].phis| && f.blocks[b].phis[i].dst == v
    case InstAt(b, k) => b < |f.blocks| && k < |f.blocks[b].body| && f.blocks[b].body[k].dst == Some(v)
  }

  ghost predicate Edge(f: Function, p: int, s: int) {
    0 <= p < |f.blocks| && s in Succs(f.blocks[p].term)
  }

  // A walk of the control-flow graph from the entry.
  ghost predicate IsPath(f: Function, p: seq<nat>) {
    p != [] && p[0] == 0 && forall i :: 0 <= i < |p| - 1 ==> Edge(f, p[i], p[i + 1])
  }

  ghost predicate Dominates(f: Function, c: nat, b: nat) {
    forall p :: IsPath(f, p) && p[|p| - 1] == b ==> c in p
  }

  // The definition of v is on every path to position k of block b.
  ghost predicate Reaches(f: Function, v: nat, b: nat, k: nat) {
    v in f.sites &&
    match f.sites[v]
    case Param(_) => true
    case PhiAt(c, _) => c == b || Dominates(f, c, b)
    case InstAt(c, j) => if c == b then j < k else Dominates(f, c, b)
  }

  predicate ValidOperand(o: Operand) {
    o.Imm? ==> 0 <= o.w < TWO_TO_THE_32
  }

  // The operands used at position k of a block; its terminator is position |body|.
  function OperandsAt(blk: Block, k: nat): seq<Operand>
    requires k <= |blk.body|
  {
    if k < |blk.body| then blk.body[k].args
    else
      match blk.term
      case Br(_) => []
      case CondBr(c, _, _) => [c]
      case Switch(c, _, _) => [c]
      case Return(r) => [r]
  }

  // Definitions dominate uses; a phi's operand is used at the end of the predecessor.
  ghost predicate DefsDominateUses(f: Function) {
    && (forall b, k :: 0 <= b < |f.blocks| && 0 <= k <= |f.blocks[b].body| ==> OperandsOk(f, b, k))
    && (forall p, s, i :: Edge(f, p, s) && 0 <= s < |f.blocks| && 0 <= i < |f.blocks[s].phis| ==>
          PhiOperandOk(f, p, f.blocks[s].phis[i]))
  }

  ghost predicate OperandsOk(f: Function, b: nat, k: nat)
    requires b < |f.blocks| && k <= |f.blocks[b].body|
  {
    forall o :: o in OperandsAt(f.blocks[b], k) ==> OperandOk(f, o, b, k)
  }

  ghost predicate OperandOk(f: Function, o: Operand, b: nat, k: nat) {
    ValidOperand(o) && (o.Val? ==> Reaches(f, o.v, b, k))
  }

  ghost predicate PhiOperandOk(f: Function, p: nat, phi: Phi)
    requires p < |f.blocks|
  {
    p in phi.incoming && OperandOk(f, phi.incoming[p], p, |f.blocks[p].body|)
  }

  // The entry block has no predecessor.
  ghost predicate WellFormed(f: Function) {
    && |f.blocks| > 0 && f.blocks[0].phis == []
    && (forall p, s :: Edge(f, p, s) ==> 0 < s < |f.blocks|)
    && SingleAssignment(f)
    && DefsDominateUses(f)
  }

  // What dominates a block other than itself dominates each of its predecessors.
  lemma DominatesPred(f: Function, c: nat, p: nat, s: nat)
    requires Edge(f, p, s) && Dominates(f, c, s) && c != s
    ensures Dominates(f, c, p)
  {
    forall q | IsPath(f, q) && q[|q| - 1] == p
      ensures c in q
    {
      var q' := q + [s];
      assert IsPath(f, q') && q'[|q'| - 1] == s;
      assert c in q';
    }
  }

  lemma OnlyEntryDominatesEntry(f: Function, c: nat)
    requires Dominates(f, c, 0)
    ensures c == 0
  {
    assert IsPath(f, [0]);
  }

  // ----- Semantics -------------------------------------------------------------------

  type Vals = map<nat, int>

  function Lookup(vals: Vals, v: nat): int {
    if v in vals then vals[v] else 0
  }

  function EvalOperand(o: Operand, vals: Vals): int {
    match o
    case Val(v) => Lookup(vals, v)
    case Imm(w) => w
    case Undef => 0
  }

  function EvalAll(args: seq<Operand>, vals: Vals): (vs: seq<int>)
    ensures |vs| == |args|
    ensures forall i :: 0 <= i < |args| ==> vs[i] == EvalOperand(args[i], vals)
  {
    seq(|args|, i requires 0 <= i < |args| => EvalOperand(args[i], vals))
  }

  function StepInst(i: Inst, vals: Vals, world: World, meaning: Meaning): Option<(Vals, World)> {
    match meaning(i.op, EvalAll(i.args, vals), world)
    case None => None
    case Some((v, w)) => Some((if i.dst.Some? then vals[i.dst.value := v] else vals, w))
  }

  // Runs the first n instructions of a body.
  function RunBody(body: seq<Inst>, n: nat, vals: Vals, world: World, meaning: Meaning): Option<(Vals, World)>
    requires n <= |body|
  {
    if n == 0 then Some((vals, world))
    else
      match RunBody(body, n - 1, vals, world, meaning)
      case None => None
      case Some((vs, w)) => StepInst(body[n - 1], vs, w, meaning)
  }

  // All phis of a block read their operands before any is written.
  function TakeEdge(phis: seq<Phi>, from: nat, vals: Vals): (vals': Vals)
    ensures forall v :: (forall i :: 0 <= i < |phis| ==> phis[i].dst != v) ==> Lookup(vals', v) == Lookup(vals, v)
  {
    map v | v in vals.Keys + (set i | 0 <= i < |phis| :: phis[i].dst) ::
      if exists i :: 0 <= i < |phis| && phis[i].dst == v && from in phis[i].incoming then
        PhiValue(phis, from, vals, v)
      else Lookup(vals, v)
  }

  function PhiValue(phis: seq<Phi>, from: nat, vals: Vals, v: nat): int {
    if phis == [] then 0
    else if phis[0].dst == v && from in phis[0].incoming then EvalOperand(phis[0].incoming[from], vals)
    else PhiValue(phis[1..], from, vals, v)
  }

  lemma {:induction false} PhiValueAt(phis: seq<Phi>, from: nat, vals: Vals, i: nat)
    requires i < |phis| && from in phis[i].incoming
    requires forall j, k :: 0 <= j < k < |phis| ==> phis[j].dst != phis[k].dst
    ensures PhiValue(phis, from, vals, phis[i].dst) == EvalOperand(phis[i].incoming[from], vals)
  {
    if i > 0 {
      PhiValueAt(phis[1..], from, vals, i - 1);
    }
  }

  datatype Event =
    | Enter(b: nat, vals: Vals, world: World)
    | Done(v: int, world: World)
    | Stopped

  // Runs block b, whose phis are installed, to the entry of the next.
  function RunBlock(f: Function, b: nat, vals: Vals, world: World, meaning: Meaning): Event
    requires b < |f.blocks|
  {
    var blk := f.blocks[b];
    match RunBody(blk.body, |blk.body|, vals, world, meaning)
    case None => Stopped
    case Some((vs, w)) =>
      match blk.term
      case Return(r) => Done(EvalOperand(r, vs), w)
      case Br(s) => Follow(f, b, s, vs, w)
      case CondBr(c, t, e) => Follow(f, b, if EvalOperand(c, vs) != 0 then t else e, vs, w)
      case Switch(c, cases, d) => Follow(f, b, SwitchTarget(cases, EvalOperand(c, vs), d), vs, w)
  }

  function Follow(f: Function, b: nat, s: nat, vals: Vals, world: World): Event {
    if s < |f.blocks| then Enter(s, TakeEdge(f.blocks[s].phis, b, vals), world) else Stopped
  }

  // Runs n blocks, or fewer when the function ends before.
  function RunBlocks(f: Function, b: nat, vals: Vals, world: World, meaning: Meaning, n: nat): Event
    requires b < |f.blocks|
    decreases n
  {
    if n == 0 then Enter(b, vals, world)
    else
      match RunBlock(f, b, vals, world, meaning)
      case Enter(s, vs, w) => RunBlocks(f, s, vs, w, meaning, n - 1)
      case done => done
  }

  // ----- Words ------------------------------------------------------------------------------------

  ghost predicate WordVals(vals: Vals) {
    forall v :: v in vals ==> 0 <= vals[v] < TWO_TO_THE_32
  }

  ghost predicate WordMeaning(meaning: Meaning) {
    forall op, args, world :: meaning(op, args, world).Some? ==> 0 <= meaning(op, args, world).value.0 < TWO_TO_THE_32
  }

  ghost predicate HasSwitch(f: Function) {
    exists b :: 0 <= b < |f.blocks| && f.blocks[b].term.Switch?
  }

  // What a function with a switch computes with is words.
  ghost predicate SeesWords(f: Function, meaning: Meaning, vals: Vals) {
    HasSwitch(f) ==> WordMeaning(meaning) && WordVals(vals)
  }

  lemma {:induction false} BodyWords(body: seq<Inst>, n: nat, vals: Vals, world: World, meaning: Meaning)
    requires n <= |body| && WordMeaning(meaning) && WordVals(vals)
    ensures match RunBody(body, n, vals, world, meaning) case None => true case Some((vs, w)) => WordVals(vs)
  {
    if n > 0 {
      BodyWords(body, n - 1, vals, world, meaning);
    }
  }

  lemma {:induction false} PhiWord(phis: seq<Phi>, from: nat, vals: Vals, v: nat)
    requires WordVals(vals) && forall i :: 0 <= i < |phis| && from in phis[i].incoming ==> ValidOperand(phis[i].incoming[from])
    ensures 0 <= PhiValue(phis, from, vals, v) < TWO_TO_THE_32
  {
    if phis != [] {
      PhiWord(phis[1..], from, vals, v);
    }
  }

  lemma EdgeWords(f: Function, b: nat, s: nat, vals: Vals)
    requires WellFormed(f) && Edge(f, b, s) && s < |f.blocks| && WordVals(vals)
    ensures WordVals(TakeEdge(f.blocks[s].phis, b, vals))
  {
    var phis := f.blocks[s].phis;
    forall i | 0 <= i < |phis| && b in phis[i].incoming
      ensures ValidOperand(phis[i].incoming[b])
    {
      assert PhiOperandOk(f, b, phis[i]);
    }
    forall v | v in TakeEdge(phis, b, vals)
      ensures 0 <= TakeEdge(phis, b, vals)[v] < TWO_TO_THE_32
    {
      PhiWord(phis, b, vals, v);
    }
  }

  lemma TargetIsSuccessor(t: Term, v: int)
    requires t.Switch?
    ensures SwitchTarget(t.cases, v, t.otherwise) in Succs(t)
  {
    var s := SwitchTarget(t.cases, v, t.otherwise);
    if s == t.otherwise {
      assert Succs(t)[0] == s;
    } else {
      var i :| 0 <= i < |t.cases| && t.cases[i] == Case(v, s);
      assert Succs(t)[i + 1] == s;
    }
  }

  // A block leaves words where it found words.
  lemma BlockWords(f: Function, b: nat, vals: Vals, world: World, meaning: Meaning)
    requires WellFormed(f) && b < |f.blocks| && SeesWords(f, meaning, vals)
    ensures match RunBody(f.blocks[b].body, |f.blocks[b].body|, vals, world, meaning)
            case None => true
            case Some((vs, w)) => SeesWords(f, meaning, vs)
    ensures RunBlock(f, b, vals, world, meaning).Enter? ==> SeesWords(f, meaning, RunBlock(f, b, vals, world, meaning).vals)
  {
    if HasSwitch(f) {
      BodyWords(f.blocks[b].body, |f.blocks[b].body|, vals, world, meaning);
      var e, t := RunBlock(f, b, vals, world, meaning), f.blocks[b].term;
      if e.Enter? {
        var vs := RunBody(f.blocks[b].body, |f.blocks[b].body|, vals, world, meaning).value.0;
        if t.Switch? {
          TargetIsSuccessor(t, EvalOperand(t.on, vs));
        }
        assert Edge(f, b, e.b);
        EdgeWords(f, b, e.b, vs);
      }
    }
  }

  lemma ConditionIsWord(f: Function, b: nat, meaning: Meaning, vals: Vals)
    requires WellFormed(f) && b < |f.blocks| && f.blocks[b].term.Switch? && SeesWords(f, meaning, vals)
    ensures 0 <= EvalOperand(f.blocks[b].term.on, vals) < TWO_TO_THE_32
  {
    assert OperandsOk(f, b, |f.blocks[b].body|);
    assert OperandOk(f, f.blocks[b].term.on, b, |f.blocks[b].body|);
  }
}
