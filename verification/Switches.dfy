// Switch terminators: the phi moves of all successors are emitted one after the other, before the
// dispatch. Exactly when that is right.
module Switches {
  import opened Machine
  import opened Ssa
  import opened RegAlloc
  import opened PhiCopy
  import opened Lowering
  import opened Conditions
  import opened CopyRuns

  // The copies of all successors of b, in the order they are emitted.
  ghost function EdgeLists(f: Function, alloc: map<nat, Loc>, b: nat): (lists: seq<seq<Move>>)
    requires b < |f.blocks|
    ensures |lists| == |Succs(f.blocks[b].term)|
    ensures forall i :: 0 <= i < |lists| && Succs(f.blocks[b].term)[i] < |f.blocks| ==>
              lists[i] == MovesOfEdge(f, alloc, b, Succs(f.blocks[b].term)[i])
  {
    var succs := Succs(f.blocks[b].term);
    seq(|succs|, i requires 0 <= i < |succs| => if succs[i] < |f.blocks| then MovesOfEdge(f, alloc, b, succs[i]) else [])
  }

  // The register of the condition, and where the scratch windows of the edges' moves start.
  function Cond(f: Function, alloc: map<nat, Loc>, high: nat, frameBase: nat, b: nat): CondCode
    requires b < |f.blocks| && f.blocks[b].term.Switch?
  {
    LoadCond(f.blocks[b].term.on, alloc, high, frameBase)
  }

  ghost predicate SwitchWindows(lists: seq<seq<Move>>, h: nat, hs: seq<nat>) {
    && h <= MAX_EMIT_REG + 1 && |hs| == |lists|
    && forall i :: 0 <= i < |lists| ==> h <= hs[i] && (lists[i] != [] ==> hs[i] + 1 <= MAX_EMIT_REG)
  }

  lemma SwitchFits(f: Function, alloc: map<nat, Loc>, high: nat, b: nat, h: nat, hs: seq<nat>)
    requires AllocationOk(f, alloc, high) && b < |f.blocks| && high <= h && SwitchWindows(EdgeLists(f, alloc, b), h, hs)
    ensures WindowsFit(EdgeLists(f, alloc, b), hs, h) && WindowsFit(EdgeLists(f, alloc, b), hs, high)
  {
    var lists, succs := EdgeLists(f, alloc, b), Succs(f.blocks[b].term);
    forall i | 0 <= i < |lists|
      ensures EdgeMoves(lists[i], h) && EdgeMoves(lists[i], high)
    {
      assert Edge(f, b, succs[i]);
      EdgeMovesOk(f, alloc, high, b, succs[i], h);
      EdgeMovesOk(f, alloc, high, b, succs[i], high);
    }
  }

  // ----- Where a switch may go, and what is then known of its condition ------------------------------------

  datatype Way = Way(target: nat, known: Known)

  function CaseValues(cases: seq<Case>): (ws: set<int>)
    ensures |ws| <= |cases|
    ensures forall i :: 0 <= i < |cases| ==> cases[i].value in ws
    ensures forall w :: w in ws ==> exists i :: 0 <= i < |cases| && cases[i].value == w
  {
    if cases == [] then {}
    else
      var rest := CaseValues(cases[1..]);
      assert forall i :: 0 <= i < |cases[1..]| ==> cases[1..][i] == cases[i + 1];
      {cases[0].value} + rest
  }

  // The default when the condition is no case's value, or the target of one of them; the only one when it
  // is a constant.
  function Ways(t: Term, alloc: map<nat, Loc>): seq<Way>
    requires t.Switch?
  {
    match t.on
    case Val(v) => [Way(t.otherwise, Avoids(Place(alloc, v), CaseValues(t.cases)))] + CaseWays(t, Place(alloc, v))
    case Imm(w) => [Way(SwitchTarget(t.cases, w, t.otherwise), Anything)]
    case Undef => [Way(SwitchTarget(t.cases, 0, t.otherwise), Anything)]
  }

  function CaseWays(t: Term, l: Loc): (ways: seq<Way>)
    requires t.Switch?
    ensures |ways| == |t.cases|
  {
    seq(|t.cases|, i requires 0 <= i < |t.cases| => Way(SwitchTarget(t.cases, t.cases[i].value, t.otherwise), Equals(l, t.cases[i].value)))
  }

  // One of the ways is the one taken.
  lemma WayTaken(t: Term, alloc: map<nat, Loc>, vals: Vals, st: State) returns (w: Way)
    requires t.Switch? && st.Get(Reg(REG_ZERO)) == 0 && Value(ArgOf(t.on, alloc), st) == EvalOperand(t.on, vals)
    ensures w in Ways(t, alloc) && w.target == SwitchTarget(t.cases, EvalOperand(t.on, vals), t.otherwise) && Fits(w.known, st)
  {
    var v := EvalOperand(t.on, vals);
    if !t.on.Val? {
      w := Ways(t, alloc)[0];
    } else if i :| 0 <= i < |t.cases| && t.cases[i].value == v {
      w := CaseWays(t, Place(alloc, t.on.v))[i];
      assert Ways(t, alloc)[i + 1] == w;
    } else {
      NoCase(t.cases, v, t.otherwise);
      w := Ways(t, alloc)[0];
    }
  }

  // What is known on a way decides that it is taken.
  lemma WayDecides(t: Term, alloc: map<nat, Loc>, vals: Vals, st: State, w: Way)
    requires t.Switch? && Value(ArgOf(t.on, alloc), st) == EvalOperand(t.on, vals) && w in Ways(t, alloc) && Fits(w.known, st)
    ensures w.target == SwitchTarget(t.cases, EvalOperand(t.on, vals), t.otherwise)
  {
    if t.on.Val? && w.known.Avoids? {
      NoCase(t.cases, EvalOperand(t.on, vals), t.otherwise);
    }
  }

  // ----- What the moves are for, and when they do it --------------------------------------------------------

  // Where the value u has at the entry of a block with these phis is found before the moves.
  function EntrySource(phis: seq<Phi>, b: nat, alloc: map<nat, Loc>, u: nat): Source {
    if phis == [] then From(Place(alloc, u))
    else if phis[0].dst == u && b in phis[0].incoming then SourceOf(phis[0].incoming[b], alloc)
    else EntrySource(phis[1..], b, alloc, u)
  }

  lemma {:induction false} PhiSource(phis: seq<Phi>, b: nat, alloc: map<nat, Loc>, i: nat)
    requires i < |phis| && b in phis[i].incoming && forall j, k :: 0 <= j < k < |phis| ==> phis[j].dst != phis[k].dst
    ensures EntrySource(phis, b, alloc, phis[i].dst) == SourceOf(phis[i].incoming[b], alloc)
  {
    if i > 0 {
      PhiSource(phis[1..], b, alloc, i - 1);
    }
  }

  lemma {:induction false} NoPhiSource(phis: seq<Phi>, b: nat, alloc: map<nat, Loc>, u: nat)
    requires forall i :: 0 <= i < |phis| ==> phis[i].dst != u
    ensures EntrySource(phis, b, alloc, u) == From(Place(alloc, u))
  {
    if phis != [] {
      NoPhiSource(phis[1..], b, alloc, u);
    }
  }

  // The entry source of a needed value reads in the machine the value it is to have.
  lemma EntryValue(f: Function, alloc: map<nat, Loc>, b: nat, s: nat, vals: Vals, world: World, st: State, u: nat)
    requires WellFormed(f) && alloc.Keys == f.sites.Keys && Edge(f, b, s) && Needed(f, u, s, 0)
    requires Matches(f, alloc, vals, world, st, b, |f.blocks[b].body|)
    ensures Eval(EntrySource(f.blocks[s].phis, b, alloc, u), st) == Lookup(TakeEdge(f.blocks[s].phis, b, vals), u)
  {
    var phis := f.blocks[s].phis;
    if i :| 0 <= i < |phis| && phis[i].dst == u {
      PhiOperandMatches(f, alloc, vals, world, st, b, s, i);
      PhiDstsDistinct(f, s);
      PhiValueAt(phis, b, vals, i);
      PhiSource(phis, b, alloc, i);
    } else {
      NoPhiSource(phis, b, alloc, u);
      NeededAcross(f, b, s, u);
    }
  }

  // Where a switch goes.
  function Chosen(t: Term, vals: Vals): nat
    requires t.Switch?
  {
    SwitchTarget(t.cases, EvalOperand(t.on, vals), t.otherwise)
  }

  // The dispatch goes where the SSA switch goes, be it by the number in the register or by the word, and
  // the machine is at that successor's entry with its phis installed.
  ghost predicate Enters(f: Function, alloc: map<nat, Loc>, b: nat, reg: nat, vals: Vals, world: World, st: State)
    requires b < |f.blocks| && f.blocks[b].term.Switch?
  {
    var t := f.blocks[b].term;
    var s := Chosen(t, vals);
    && s < |f.blocks| && Dispatched(t, st.Get(Reg(reg)), s)
    && Matches(f, alloc, TakeEdge(f.blocks[s].phis, b, vals), world, st, s, 0)
  }

  predicate Dispatched(t: Term, v: int, s: nat)
    requires t.Switch?
  {
    SwitchTarget(t.cases, v, t.otherwise) == s && SameAsWord(t.cases, v, t.otherwise)
  }

  // The machine is before the moves, the condition, a word, in its register.
  ghost predicate Before(f: Function, alloc: map<nat, Loc>, b: nat, reg: nat, vals: Vals, world: World, st: State)
    requires b < |f.blocks| && f.blocks[b].term.Switch?
  {
    && Matches(f, alloc, vals, world, st, b, |f.blocks[b].body|)
    && st.Get(Reg(reg)) == EvalOperand(f.blocks[b].term.on, vals) && IsWord(st.Get(Reg(reg)))
  }

  // Whatever the words in the machine, it enters the right successor after all the moves.
  ghost predicate AlwaysEnters(f: Function, alloc: map<nat, Loc>, b: nat, reg: nat, hs: seq<nat>)
    requires WellFormed(f) && b < |f.blocks| && f.blocks[b].term.Switch?
  {
    forall vals: Vals, world: World, sts: seq<State> {:trigger RunsAll(EdgeLists(f, alloc, b), hs, sts), Before(f, alloc, b, reg, vals, world, sts[0])} ::
      RunsAll(EdgeLists(f, alloc, b), hs, sts) && Words(sts[0]) && Before(f, alloc, b, reg, vals, world, sts[0]) ==>
        Enters(f, alloc, b, reg, vals, world, sts[|EdgeLists(f, alloc, b)|])
  }

  // The moves of all edges together bring every value the successor needs from where it is at the entry
  // of this one.
  ghost predicate WayRight(f: Function, alloc: map<nat, Loc>, b: nat, w: Way)
    requires WellFormed(f) && b < |f.blocks|
  {
    w.target < |f.blocks| && forall u :: Needed(f, u, w.target, 0) ==> ValueRight(f, alloc, b, w, u)
  }

  ghost predicate ValueRight(f: Function, alloc: map<nat, Loc>, b: nat, w: Way, u: nat)
    requires WellFormed(f) && b < |f.blocks| && w.target < |f.blocks|
  {
    Same(Composed(EdgeLists(f, alloc, b), Place(alloc, u)), EntrySource(f.blocks[w.target].phis, b, alloc, u), w.known)
  }

  // The moves of all edges leave the condition in its register, or no case leads anywhere but the default.
  ghost predicate DispatchRight(f: Function, alloc: map<nat, Loc>, b: nat, reg: nat)
    requires WellFormed(f) && b < |f.blocks| && f.blocks[b].term.Switch?
  {
    var t := f.blocks[b].term;
    || Same(Composed(EdgeLists(f, alloc, b), Reg(reg)), From(Reg(reg)), Anything)
    || forall i :: 0 <= i < |t.cases| ==> SwitchTarget(t.cases, t.cases[i].value, t.otherwise) == t.otherwise
  }

  // ----- Right moves enter ---------------------------------------------------------------------------------------

  lemma ZeroUnwritten(lists: seq<seq<Move>>, hs: seq<nat>, h: nat, l: Loc)
    requires WindowsFit(lists, hs, h) && !Outside(l, h)
    ensures Composed(lists, l) == From(l)
  {
    forall i | 0 <= i < |lists|
      ensures DistinctDsts(lists[i]) && forall m :: m in lists[i] ==> m.dst != l
    {
      assert EdgeMoves(lists[i], h);
    }
    UnwrittenStays(lists, l);
  }

  lemma PlaceIsFixed(f: Function, alloc: map<nat, Loc>, high: nat, u: nat, b: nat, k: nat)
    requires AllocationOk(f, alloc, high) && Needed(f, u, b, k)
    ensures u in alloc && Fixed(Place(alloc, u), high)
  {
    NeededIsReached(f, u, b, k);
  }

  lemma RightWayMatches(f: Function, alloc: map<nat, Loc>, high: nat, b: nat, h: nat, hs: seq<nat>, w: Way,
                        vals: Vals, world: World, sts: seq<State>)
    requires AllocationOk(f, alloc, high) && Edge(f, b, w.target) && high <= h && SwitchWindows(EdgeLists(f, alloc, b), h, hs)
    requires RunsAll(EdgeLists(f, alloc, b), hs, sts) && Matches(f, alloc, vals, world, sts[0], b, |f.blocks[b].body|)
    requires Fits(w.known, sts[0]) && WayRight(f, alloc, b, w)
    ensures Matches(f, alloc, TakeEdge(f.blocks[w.target].phis, b, vals), world, sts[|EdgeLists(f, alloc, b)|], w.target, 0)
  {
    var lists, s := EdgeLists(f, alloc, b), w.target;
    SwitchFits(f, alloc, high, b, h, hs);
    forall u | Needed(f, u, s, 0)
      ensures sts[|lists|].Get(Place(alloc, u)) == Lookup(TakeEdge(f.blocks[s].phis, b, vals), u)
    {
      PlaceIsFixed(f, alloc, high, u, s, 0);
      ComposedHolds(lists, hs, high, sts, Place(alloc, u));
      assert ValueRight(f, alloc, b, w, u);
      SameHolds(Composed(lists, Place(alloc, u)), EntrySource(f.blocks[s].phis, b, alloc, u), w.known, sts[0]);
      EntryValue(f, alloc, b, s, vals, world, sts[0], u);
    }
    WorldKept(lists, hs, sts, |lists|);
    ZeroUnwritten(lists, hs, high, Reg(REG_ZERO));
    ComposedHolds(lists, hs, high, sts, Reg(REG_ZERO));
  }

  lemma RightDispatches(f: Function, alloc: map<nat, Loc>, high: nat, b: nat, reg: nat, h: nat, hs: seq<nat>, vals: Vals, sts: seq<State>)
    requires AllocationOk(f, alloc, high) && b < |f.blocks| && f.blocks[b].term.Switch? && high <= h
    requires SwitchWindows(EdgeLists(f, alloc, b), h, hs) && Fixed(Reg(reg), h) && DispatchRight(f, alloc, b, reg)
    requires RunsAll(EdgeLists(f, alloc, b), hs, sts) && sts[0].Get(Reg(REG_ZERO)) == 0 && IsWord(sts[0].Get(Reg(reg)))
    ensures var t := f.blocks[b].term;
            Dispatched(t, sts[|EdgeLists(f, alloc, b)|].Get(Reg(reg)), SwitchTarget(t.cases, sts[0].Get(Reg(reg)), t.otherwise))
  {
    var lists, t := EdgeLists(f, alloc, b), f.blocks[b].term;
    SwitchFits(f, alloc, high, b, h, hs);
    ComposedHolds(lists, hs, h, sts, Reg(reg));
    if Same(Composed(lists, Reg(reg)), From(Reg(reg)), Anything) {
      SameHolds(Composed(lists, Reg(reg)), From(Reg(reg)), Anything, sts[0]);
    } else {
      AllDefault(t.cases, sts[0].Get(Reg(reg)), t.otherwise);
      AllDefault(t.cases, sts[|lists|].Get(Reg(reg)), t.otherwise);
      AllDefault(t.cases, sts[|lists|].Get(Reg(reg)) % TWO_TO_THE_32, t.otherwise);
    }
  }

  lemma AllDefault(cases: seq<Case>, v: int, otherwise: nat)
    requires forall i :: 0 <= i < |cases| ==> SwitchTarget(cases, cases[i].value, otherwise) == otherwise
    ensures SwitchTarget(cases, v, otherwise) == otherwise
  {
    if !(exists i :: 0 <= i < |cases| && cases[i].value == v) {
      NoCase(cases, v, otherwise);
    }
  }

  // All the moves of the switch, of which each way's are right.
  ghost predicate MovesRight(f: Function, alloc: map<nat, Loc>, b: nat, reg: nat)
    requires WellFormed(f) && b < |f.blocks| && f.blocks[b].term.Switch?
  {
    DispatchRight(f, alloc, b, reg) && forall w :: w in Ways(f.blocks[b].term, alloc) ==> WayRight(f, alloc, b, w)
  }

  lemma RightEnters(f: Function, alloc: map<nat, Loc>, high: nat, b: nat, reg: nat, h: nat, hs: seq<nat>, vals: Vals, world: World, sts: seq<State>)
    requires AllocationOk(f, alloc, high) && b < |f.blocks| && f.blocks[b].term.Switch? && high <= h
    requires SwitchWindows(EdgeLists(f, alloc, b), h, hs) && Fixed(Reg(reg), h) && MovesRight(f, alloc, b, reg)
    requires RunsAll(EdgeLists(f, alloc, b), hs, sts) && Before(f, alloc, b, reg, vals, world, sts[0])
    ensures Enters(f, alloc, b, reg, vals, world, sts[|EdgeLists(f, alloc, b)|])
  {
    var t := f.blocks[b].term;
    OperandMatches(f, alloc, vals, world, sts[0], b, |f.blocks[b].body|, t.on);
    var w := WayTaken(t, alloc, vals, sts[0]);
    TargetIsSuccessor(t, EvalOperand(t.on, vals));
    RightDispatches(f, alloc, high, b, reg, h, hs, vals, sts);
    RightWayMatches(f, alloc, high, b, h, hs, w, vals, world, sts);
  }

  // A value that is where s wants it without a move.
  ghost predicate InPlace(f: Function, alloc: map<nat, Loc>, b: nat, s: nat, u: nat)
    requires s < |f.blocks|
  {
    Needed(f, u, s, 0) && EntrySource(f.blocks[s].phis, b, alloc, u) == From(Place(alloc, u))
  }

  // Moves are right that leave alone the condition, what later moves read, and what is in place already;
  // those of edges to one block may be the same.
  lemma ApartIsRight(f: Function, alloc: map<nat, Loc>, high: nat, b: nat, reg: nat)
    requires AllocationOk(f, alloc, high) && b < |f.blocks| && f.blocks[b].term.Switch? && CasesOk(f.blocks[b].term.cases)
    requires Apart(EdgeLists(f, alloc, b)) && Unwritten(EdgeLists(f, alloc, b), Reg(reg))
    requires forall s: nat, u :: s in Succs(f.blocks[b].term) && s < |f.blocks| && InPlace(f, alloc, b, s, u) ==>
               Unwritten(EdgeLists(f, alloc, b), Place(alloc, u))
    ensures MovesRight(f, alloc, b, reg)
  {
    var lists, t := EdgeLists(f, alloc, b), f.blocks[b].term;
    ListsDistinct(f, alloc, high, b);
    UnwrittenStays(lists, Reg(reg));
    forall w | w in Ways(t, alloc)
      ensures WayRight(f, alloc, b, w)
    {
      WaysPlausible(f, alloc, high, b, w);
      assert Edge(f, b, w.target);
      forall u | Needed(f, u, w.target, 0)
        ensures ValueRight(f, alloc, b, w, u)
      {
        if InPlace(f, alloc, b, w.target, u) {
          UnwrittenStays(lists, Place(alloc, u));
        } else {
          MovedIsListed(f, alloc, b, w.target, u);
        }
      }
    }
  }

  lemma ListsDistinct(f: Function, alloc: map<nat, Loc>, high: nat, b: nat)
    requires AllocationOk(f, alloc, high) && b < |f.blocks|
    ensures forall i :: 0 <= i < |EdgeLists(f, alloc, b)| ==> DistinctDsts(EdgeLists(f, alloc, b)[i])
  {
    var lists, succs := EdgeLists(f, alloc, b), Succs(f.blocks[b].term);
    forall i | 0 <= i < |lists|
      ensures DistinctDsts(lists[i])
    {
      assert Edge(f, b, succs[i]);
      EdgeMovesOk(f, alloc, high, b, succs[i], high);
    }
  }

  lemma MovedIsListed(f: Function, alloc: map<nat, Loc>, b: nat, s: nat, u: nat)
    requires WellFormed(f) && alloc.Keys == f.sites.Keys && Edge(f, b, s) && Needed(f, u, s, 0) && !InPlace(f, alloc, b, s, u)
    requires Apart(EdgeLists(f, alloc, b))
    requires forall i :: 0 <= i < |EdgeLists(f, alloc, b)| ==> DistinctDsts(EdgeLists(f, alloc, b)[i])
    ensures Composed(EdgeLists(f, alloc, b), Place(alloc, u)) == EntrySource(f.blocks[s].phis, b, alloc, u)
  {
    var phis, succs := f.blocks[s].phis, Succs(f.blocks[b].term);
    if forall i :: 0 <= i < |phis| ==> phis[i].dst != u {
      NoPhiSource(phis, b, alloc, u);
    } else {
      var i :| 0 <= i < |phis| && phis[i].dst == u;
      assert PhiOperandOk(f, b, phis[i]);
      PhiDstsDistinct(f, s);
      PhiSource(phis, b, alloc, i);
      PhiMoveIsCollected(phis, |phis|, b, alloc, i);
      var k :| 0 <= k < |succs| && succs[k] == s;
      ApartComposed(EdgeLists(f, alloc, b), k, PhiMove(phis[i], b, alloc)[0]);
    }
  }

  // ----- Wrong moves do not --------------------------------------------------------------------------------------

  // The values a state holds.
  ghost function ValuesOf(f: Function, alloc: map<nat, Loc>, st: State): Vals {
    map u | u in f.sites :: st.Get(Place(alloc, u))
  }

  lemma HeldMatches(f: Function, alloc: map<nat, Loc>, st: State, b: nat, k: nat)
    requires WellFormed(f) && st.Get(Reg(REG_ZERO)) == 0
    ensures Matches(f, alloc, ValuesOf(f, alloc, st), st.world, st, b, k)
  {
    forall u | Needed(f, u, b, k)
      ensures st.Get(Place(alloc, u)) == Lookup(ValuesOf(f, alloc, st), u)
    {
      NeededIsReached(f, u, b, k);
    }
  }

  // A run from the words of st, whose values are those st holds, the condition being in its register.
  lemma Shown(f: Function, alloc: map<nat, Loc>, high: nat, b: nat, reg: nat, h: nat, hs: seq<nat>, st: State) returns (sts: seq<State>)
    requires AllocationOk(f, alloc, high) && b < |f.blocks| && f.blocks[b].term.Switch? && high <= h
    requires SwitchWindows(EdgeLists(f, alloc, b), h, hs) && InReg(f.blocks[b].term.on, alloc, high, reg)
    requires Words(st) && st.Get(Reg(REG_ZERO)) == 0 && high <= MAX_EMIT_REG + 1
    ensures RunsAll(EdgeLists(f, alloc, b), hs, sts) && Words(sts[0])
    ensures Before(f, alloc, b, reg, ValuesOf(f, alloc, st), st.world, sts[0])
    ensures forall l :: Fixed(l, high) ==> sts[0].Get(l) == st.Get(l)
    ensures Value(ArgOf(f.blocks[b].term.on, alloc), sts[0]) == EvalOperand(f.blocks[b].term.on, ValuesOf(f, alloc, st))
  {
    var on, vals := f.blocks[b].term.on, ValuesOf(f, alloc, st);
    SwitchFits(f, alloc, high, b, h, hs);
    assert OperandsOk(f, b, |f.blocks[b].body|);
    assert OperandOk(f, on, b, |f.blocks[b].body|);
    var st' := if reg == high then st.Put(Reg(high), EvalOperand(on, vals)) else st;
    assert forall u :: u in alloc ==> Fixed(Place(alloc, u), high);
    HeldMatches(f, alloc, st', b, |f.blocks[b].body|);
    assert ValuesOf(f, alloc, st') == vals;
    sts := SomeRun(EdgeLists(f, alloc, b), hs, h, st');
  }

  // The condition's register is its place, the first register of the window, or the zero register.
  ghost predicate InReg(on: Operand, alloc: map<nat, Loc>, high: nat, reg: nat) {
    if on.Val? && Place(alloc, on.v).Reg? then Reg(reg) == Place(alloc, on.v)
    else if on.Undef? then reg == REG_ZERO
    else reg == high <= MAX_EMIT_REG
  }

  // What the composed moves read lies outside the window.
  lemma {:induction false} ComposedFixed(lists: seq<seq<Move>>, hs: seq<nat>, h: nat, l: Loc)
    requires WindowsFit(lists, hs, h) && Fixed(l, h)
    ensures Composed(lists, l).From? ==> Fixed(Composed(lists, l).loc, h)
    decreases |lists|
  {
    if lists != [] {
      var n := |lists| - 1;
      assert EdgeMoves(lists[n], h);
      SourceFound(lists[n], l);
      var src := SourceIn(lists[n], l);
      forall i | 0 <= i < n
        ensures EdgeMoves(lists[..n][i], h) && h <= hs[..n][i] && (lists[..n][i] != [] ==> hs[..n][i] + 1 <= MAX_EMIT_REG)
      {
        assert EdgeMoves(lists[i], h);
      }
      if src.None? {
        ComposedFixed(lists[..n], hs[..n], h, l);
      } else if src.value.From? {
        SourceFixed(lists[n], h, Move(l, src.value));
        ComposedFixed(lists[..n], hs[..n], h, src.value.loc);
      }
    }
  }

  lemma SourceFixed(moves: seq<Move>, h: nat, m: Move)
    requires EdgeMoves(moves, h) && m in moves && m.src.From?
    ensures Fixed(m.src.loc, h)
  {
    var i :| 0 <= i < |moves| && moves[i] == m;
  }

  lemma EntryFixed(f: Function, alloc: map<nat, Loc>, high: nat, b: nat, s: nat, u: nat)
    requires AllocationOk(f, alloc, high) && Edge(f, b, s) && Needed(f, u, s, 0)
    ensures var src := EntrySource(f.blocks[s].phis, b, alloc, u); src.From? ==> Fixed(src.loc, high)
  {
    var phis := f.blocks[s].phis;
    PlaceIsFixed(f, alloc, high, u, s, 0);
    if i :| 0 <= i < |phis| && phis[i].dst == u {
      assert PhiOperandOk(f, b, phis[i]);
      PhiDstsDistinct(f, s);
      PhiSource(phis, b, alloc, i);
    } else {
      NoPhiSource(phis, b, alloc, u);
    }
  }

  lemma WaysPlausible(f: Function, alloc: map<nat, Loc>, high: nat, b: nat, w: Way)
    requires AllocationOk(f, alloc, high) && b < |f.blocks| && f.blocks[b].term.Switch? && CasesOk(f.blocks[b].term.cases)
    requires w in Ways(f.blocks[b].term, alloc)
    ensures Plausible(w.known) && (!w.known.Anything? ==> f.blocks[b].term.on.Val? && w.known.l == Place(alloc, f.blocks[b].term.on.v) && Fixed(w.known.l, high))
    ensures w.target in Succs(f.blocks[b].term)
  {
    var t := f.blocks[b].term;
    assert OperandsOk(f, b, |f.blocks[b].body|);
    assert OperandOk(f, t.on, b, |f.blocks[b].body|);
    TargetIsSuccessor(t, if t.on.Imm? then t.on.w else 0);
    if t.on.Val? {
      assert Succs(t)[0] == t.otherwise;
      forall i | 0 <= i < |t.cases|
        ensures SwitchTarget(t.cases, t.cases[i].value, t.otherwise) in Succs(t)
      {
        TargetIsSuccessor(t, t.cases[i].value);
      }
    }
  }

  lemma WrongWay(f: Function, alloc: map<nat, Loc>, high: nat, b: nat, reg: nat, h: nat, hs: seq<nat>, w: Way)
    requires AllocationOk(f, alloc, high) && b < |f.blocks| && f.blocks[b].term.Switch? && high <= h
    requires SwitchWindows(EdgeLists(f, alloc, b), h, hs) && InReg(f.blocks[b].term.on, alloc, high, reg) && high <= MAX_EMIT_REG + 1
    requires CasesOk(f.blocks[b].term.cases) && w in Ways(f.blocks[b].term, alloc) && !WayRight(f, alloc, b, w)
    ensures !AlwaysEnters(f, alloc, b, reg, hs)
  {
    WaysPlausible(f, alloc, high, b, w);
    assert Edge(f, b, w.target);
    var u :| Needed(f, u, w.target, 0) && !ValueRight(f, alloc, b, w, u);
    WrongValue(f, alloc, high, b, reg, h, hs, w, u);
  }

  lemma WrongValue(f: Function, alloc: map<nat, Loc>, high: nat, b: nat, reg: nat, h: nat, hs: seq<nat>, w: Way, u: nat)
    requires AllocationOk(f, alloc, high) && b < |f.blocks| && f.blocks[b].term.Switch? && high <= h
    requires SwitchWindows(EdgeLists(f, alloc, b), h, hs) && InReg(f.blocks[b].term.on, alloc, high, reg) && high <= MAX_EMIT_REG + 1
    requires CasesOk(f.blocks[b].term.cases) && w in Ways(f.blocks[b].term, alloc)
    requires Edge(f, b, w.target) && w.target < |f.blocks| && Needed(f, u, w.target, 0) && !ValueRight(f, alloc, b, w, u)
    ensures !AlwaysEnters(f, alloc, b, reg, hs)
  {
    var lists, s := EdgeLists(f, alloc, b), w.target;
    var got, want := Composed(lists, Place(alloc, u)), EntrySource(f.blocks[s].phis, b, alloc, u);
    WaysPlausible(f, alloc, high, b, w);
    var st := Differ(got, want, w.known);
    var sts := Shown(f, alloc, high, b, reg, h, hs, st);
    var vals := ValuesOf(f, alloc, st);
    WayDecides(f.blocks[b].term, alloc, vals, sts[0], w);
    SwitchFits(f, alloc, high, b, h, hs);
    PlaceIsFixed(f, alloc, high, u, s, 0);
    ComposedHolds(lists, hs, high, sts, Place(alloc, u));
    ComposedFixed(lists, hs, high, Place(alloc, u));
    EntryFixed(f, alloc, high, b, s, u);
    EntryValue(f, alloc, b, s, vals, st.world, sts[0], u);
    assert !Enters(f, alloc, b, reg, vals, st.world, sts[|lists|]);
  }

  // A state of words in which a dispatch that reads something else than the register goes elsewhere.
  lemma Misdirects(t: Term, reg: nat, read: Held, i: nat) returns (st: State)
    requires t.Switch? && CasesOk(t.cases) && i < |t.cases| && SwitchTarget(t.cases, t.cases[i].value, t.otherwise) != t.otherwise
    requires reg != REG_ZERO && read != ThatOf(Reg(reg)) && read != ThatOf(Reg(REG_ZERO))
    ensures Words(st) && st.Get(Reg(REG_ZERO)) == 0
    ensures SwitchTarget(t.cases, Content(read, st), t.otherwise) != SwitchTarget(t.cases, st.Get(Reg(reg)), t.otherwise)
  {
    var n := Other(CaseValues(t.cases), 0);
    var v := t.cases[i].value;
    NoCase(t.cases, n, t.otherwise);
    if read.ThatOf? {
      st := State(map[read.l := n, Reg(reg) := v], World(map[], []));
    } else {
      st := State(map[Reg(reg) := if SwitchTarget(t.cases, read.w, t.otherwise) == t.otherwise then v else n], World(map[], []));
    }
  }

  lemma WrongDispatch(f: Function, alloc: map<nat, Loc>, high: nat, b: nat, reg: nat, h: nat, hs: seq<nat>)
    requires AllocationOk(f, alloc, high) && b < |f.blocks| && f.blocks[b].term.Switch? && high <= h
    requires SwitchWindows(EdgeLists(f, alloc, b), h, hs) && InReg(f.blocks[b].term.on, alloc, high, reg) && high <= MAX_EMIT_REG + 1
    requires CasesOk(f.blocks[b].term.cases) && !DispatchRight(f, alloc, b, reg)
    ensures !AlwaysEnters(f, alloc, b, reg, hs)
  {
    var lists, t := EdgeLists(f, alloc, b), f.blocks[b].term;
    SwitchFits(f, alloc, high, b, h, hs);
    var i :| 0 <= i < |t.cases| && SwitchTarget(t.cases, t.cases[i].value, t.otherwise) != t.otherwise;
    if !Outside(Reg(reg), high) {
      ZeroUnwritten(lists, hs, high, Reg(reg));
    }
    ComposedFixed(lists, hs, high, Reg(reg));
    var read := HeldBy(Composed(lists, Reg(reg)), Anything);
    var st := Misdirects(t, reg, read, i);
    var sts := Shown(f, alloc, high, b, reg, h, hs, st);
    ComposedHolds(lists, hs, high, sts, Reg(reg));
    NotEntered(f, alloc, b, reg, ValuesOf(f, alloc, st), st.world, hs, sts);
  }

  // A run that dispatches wrongly.
  lemma NotEntered(f: Function, alloc: map<nat, Loc>, b: nat, reg: nat, vals: Vals, world: World, hs: seq<nat>, sts: seq<State>)
    requires WellFormed(f) && b < |f.blocks| && f.blocks[b].term.Switch?
    requires RunsAll(EdgeLists(f, alloc, b), hs, sts) && Words(sts[0]) && Before(f, alloc, b, reg, vals, world, sts[0])
    requires var t := f.blocks[b].term;
             SwitchTarget(t.cases, sts[|EdgeLists(f, alloc, b)|].Get(Reg(reg)), t.otherwise) != SwitchTarget(t.cases, sts[0].Get(Reg(reg)), t.otherwise)
    ensures !AlwaysEnters(f, alloc, b, reg, hs)
  {
    assert !Enters(f, alloc, b, reg, vals, world, sts[|EdgeLists(f, alloc, b)|]);
  }

  lemma CondInReg(f: Function, alloc: map<nat, Loc>, high: nat, frameBase: nat, b: nat)
    requires AllocationOk(f, alloc, high) && b < |f.blocks| && f.blocks[b].term.Switch? && Cond(f, alloc, high, frameBase, b).h <= MAX_EMIT_REG + 1
    ensures var c := Cond(f, alloc, high, frameBase, b); InReg(f.blocks[b].term.on, alloc, high, c.reg) && Fixed(Reg(c.reg), c.h)
  {
    assert OperandsOk(f, b, |f.blocks[b].body|);
    assert OperandOk(f, f.blocks[b].term.on, b, |f.blocks[b].body|);
  }

  // All the moves up front are right, whatever the words in the machine, exactly when composing them
  // brings each value a successor needs from where it is to come from, and keeps the condition.
  lemma SwitchMovesIff(f: Function, alloc: map<nat, Loc>, high: nat, frameBase: nat, b: nat, hs: seq<nat>)
    requires AllocationOk(f, alloc, high) && b < |f.blocks| && f.blocks[b].term.Switch? && CasesOk(f.blocks[b].term.cases)
    requires SwitchWindows(EdgeLists(f, alloc, b), Cond(f, alloc, high, frameBase, b).h, hs)
    ensures var reg := Cond(f, alloc, high, frameBase, b).reg;
            AlwaysEnters(f, alloc, b, reg, hs) <==> MovesRight(f, alloc, b, reg)
  {
    var c, lists := Cond(f, alloc, high, frameBase, b), EdgeLists(f, alloc, b);
    CondInReg(f, alloc, high, frameBase, b);
    if MovesRight(f, alloc, b, c.reg) {
      forall vals: Vals, world: World, sts: seq<State> | RunsAll(lists, hs, sts) && Before(f, alloc, b, c.reg, vals, world, sts[0])
        ensures Enters(f, alloc, b, c.reg, vals, world, sts[|lists|])
      {
        RightEnters(f, alloc, high, b, c.reg, c.h, hs, vals, world, sts);
      }
    } else if !DispatchRight(f, alloc, b, c.reg) {
      WrongDispatch(f, alloc, high, b, c.reg, c.h, hs);
    } else {
      var w :| w in Ways(f.blocks[b].term, alloc) && !WayRight(f, alloc, b, w);
      WrongWay(f, alloc, high, b, c.reg, c.h, hs, w);
    }
  }

  // ----- The code of the moves ---------------------------------------------------------------------------

  function Concat(codes: seq<seq<Instr>>): seq<Instr> {
    if codes == [] then [] else Concat(codes[..|codes| - 1]) + codes[|codes| - 1]
  }

  // The emitted moves of every successor, each a parallel copy in its window.
  ghost predicate MovesEmitted(f: Function, alloc: map<nat, Loc>, b: nat, codes: seq<seq<Instr>>, hs: seq<nat>, frameBase: nat)
    requires b < |f.blocks|
  {
    var lists := EdgeLists(f, alloc, b);
    |codes| == |hs| == |lists| && forall i :: 0 <= i < |lists| ==> Sequentialises(lists[i], codes[i], hs[i], frameBase)
  }

  lemma {:induction false} ConcatRuns(lists: seq<seq<Move>>, codes: seq<seq<Instr>>, hs: seq<nat>, st: State, env: Env) returns (sts: seq<State>)
    requires |codes| == |hs| == |lists| && forall i :: 0 <= i < |lists| ==> Sequentialises(lists[i], codes[i], hs[i], env.frameBase)
    ensures StraightLine(Concat(codes)) && RunsAll(lists, hs, sts) && sts[0] == st
    ensures Exec(Concat(codes), st, env) == Some(sts[|lists|])
    decreases |lists|
  {
    if lists == [] {
      return [st];
    }
    var n := |lists| - 1;
    var before := ConcatRuns(lists[..n], codes[..n], hs[..n], st, env);
    SequentialisesEffect(lists[n], codes[n], hs[n], before[n], env);
    ExecAppend(Concat(codes[..n]), codes[n], st, env);
    sts := before + [Exec(codes[n], before[n], env).value];
    forall i | 0 <= i < |lists|
      ensures EdgeEffect(lists[i], hs[i], sts[i], sts[i + 1])
    {
      if i < n {
        assert EdgeEffect(lists[..n][i], hs[..n][i], before[i], before[i + 1]);
      }
    }
  }

  // The code of all the moves, in windows from h up.
  ghost predicate SwitchCoded(f: Function, alloc: map<nat, Loc>, b: nat, h: nat, code: seq<Instr>, frameBase: nat)
    requires b < |f.blocks|
  {
    exists codes, hs :: MovesEmitted(f, alloc, b, codes, hs, frameBase) && SwitchWindows(EdgeLists(f, alloc, b), h, hs) && code == Concat(codes)
  }

  // When the moves are right, running the condition's code and all of the moves brings the machine to the
  // entry of the successor the switch chooses, which is where the dispatch goes from there.
  lemma SwitchEnters(f: Function, alloc: map<nat, Loc>, high: nat, b: nat, moves: seq<Instr>,
                     vals: Vals, world: World, st: State, env: Env)
    requires AllocationOk(f, alloc, high) && b < |f.blocks| && f.blocks[b].term.Switch?
    requires SwitchCoded(f, alloc, b, Cond(f, alloc, high, env.frameBase, b).h, moves, env.frameBase)
    requires MovesRight(f, alloc, b, Cond(f, alloc, high, env.frameBase, b).reg)
    requires Matches(f, alloc, vals, world, st, b, |f.blocks[b].body|) && IsWord(EvalOperand(f.blocks[b].term.on, vals))
    ensures var c := Cond(f, alloc, high, env.frameBase, b);
            && StraightLine(c.code + moves) && Exec(c.code + moves, st, env).Some?
            && Enters(f, alloc, b, c.reg, vals, world, Exec(c.code + moves, st, env).value)
  {
    var c := Cond(f, alloc, high, env.frameBase, b);
    var codes, hs :| MovesEmitted(f, alloc, b, codes, hs, env.frameBase) && SwitchWindows(EdgeLists(f, alloc, b), c.h, hs) && moves == Concat(codes);
    CondInReg(f, alloc, high, env.frameBase, b);
    CondLoaded(f, alloc, high, b, f.blocks[b].term.on, vals, world, st, env);
    var s1 := Exec(c.code, st, env).value;
    var sts := ConcatRuns(EdgeLists(f, alloc, b), codes, hs, s1, env);
    ExecAppend(c.code, moves, st, env);
    RightEnters(f, alloc, high, b, c.reg, c.h, hs, vals, world, sts);
  }

  // The moves of every switch are right.
  ghost predicate SwitchesRight(f: Function, alloc: map<nat, Loc>, high: nat)
    requires WellFormed(f)
  {
    forall b :: 0 <= b < |f.blocks| && f.blocks[b].term.Switch? ==> MovesRight(f, alloc, b, Cond(f, alloc, high, 0, b).reg)
  }

  // ----- A switch that goes wrong -------------------------------------------------------------------------

  // A loop whose back edge is a case of its own switch: value 0 is the loop's phi, value 1 what one round
  // makes of it. The loop goes on while that is zero, and returns the phi.
  function Loop(): Function {
    Function([], [
      Block([], [], Br(1)),
      Block([Phi(0, map[0 := Imm(7), 1 := Val(1)])], [Inst(0, Some(1), [Val(0)], 0)], Switch(Val(1), [Case(0, 1)], 2)),
      Block([], [], Return(Val(0)))
    ], map[0 := PhiAt(1, 0), 1 := InstAt(1, 0)])
  }

  const LOOP_PLACES: map<nat, Loc> := map[0 := Reg(8), 1 := Reg(9)]

  lemma LoopEdges(p: int, s: int)
    ensures Edge(Loop(), p, s) <==> (p == 0 && s == 1) || (p == 1 && (s == 1 || s == 2))
  {
    assert Succs(Loop().blocks[1].term) == [2, 1];
    assert Succs(Loop().blocks[0].term) == [1] && Succs(Loop().blocks[2].term) == [];
  }

  lemma HeaderDominates(b: nat)
    requires b == 1 || b == 2
    ensures Dominates(Loop(), 1, b)
  {
    forall p | IsPath(Loop(), p) && p[|p| - 1] == b
      ensures 1 in p
    {
      assert |p| >= 2;
      LoopEdges(p[0], p[1]);
      assert Edge(Loop(), p[0], p[1]);
      assert p[1] == 1;
    }
  }

  lemma LoopOperands(b: nat, k: nat)
    requires b < 3 && k <= |Loop().blocks[b].body|
    ensures OperandsOk(Loop(), b, k)
  {
    HeaderDominates(2);
    assert OperandsAt(Loop().blocks[0], 0) == [];
  }

  lemma LoopSites()
    ensures SingleAssignment(Loop())
  {
  }

  lemma LoopWellFormed()
    ensures WellFormed(Loop())
  {
    var f := Loop();
    forall p, s
      ensures Edge(f, p, s) ==> 0 < s < |f.blocks|
    {
      LoopEdges(p, s);
    }
    forall b, k | 0 <= b < |f.blocks| && 0 <= k <= |f.blocks[b].body|
      ensures OperandsOk(f, b, k)
    {
      LoopOperands(b, k);
    }
    forall p, s, i | Edge(f, p, s) && 0 <= s < |f.blocks| && 0 <= i < |f.blocks[s].phis|
      ensures PhiOperandOk(f, p, f.blocks[s].phis[i])
    {
      LoopEdges(p, s);
    }
    LoopSites();
  }

  lemma LoopAllocation()
    ensures AllocationOk(Loop(), LOOP_PLACES, 10)
  {
    LoopWellFormed();
    assert Loop().sites.Keys == {0, 1} == LOOP_PLACES.Keys;
  }

  // From round x with result y the function leaves the loop and returns x.
  lemma LoopReturns(x: int, y: int, world: World, meaning: Meaning)
    requires y != 0 && meaning(0, [x], world) == Some((y, world))
    ensures RunBlocks(Loop(), 1, map[0 := x], world, meaning, 2) == Done(x, world)
  {
    var f := Loop();
    var vals: Vals := map[0 := x];
    var body := f.blocks[1].body;
    assert EvalAll(body[0].args, vals) == [x];
    assert RunBody(body, 0, vals, world, meaning) == Some((vals, world));
    assert RunBody(body, 1, vals, world, meaning) == Some((vals[1 := y], world));
    var after := TakeEdge(f.blocks[2].phis, 1, vals[1 := y]);
    assert RunBlock(f, 1, vals, world, meaning) == Enter(2, after, world);
    assert RunBody(f.blocks[2].body, 0, after, world, meaning) == Some((after, world));
    assert RunBlock(f, 2, after, world, meaning) == Done(x, world);
  }

  // The moves up front overwrite the phi before the exit returns it: the register that holds it then
  // holds y, although the function returns x.
  lemma LoopGoesWrong(x: int, y: int, world: World, hs: seq<nat>, sts: seq<State>, meaning: Meaning)
    requires x != y && y != 0 && meaning(0, [x], world) == Some((y, world))
    requires WellFormed(Loop()) && RunsAll(EdgeLists(Loop(), LOOP_PLACES, 1), hs, sts)
    requires sts[0].Get(Reg(8)) == x && sts[0].Get(Reg(9)) == y
    ensures AllocationOk(Loop(), LOOP_PLACES, 10)
    ensures RunBlocks(Loop(), 1, map[0 := x], world, meaning, 2) == Done(x, world)
    ensures ArgOf(Loop().blocks[2].term.result, LOOP_PLACES) == At(Reg(8)) && sts[2].Get(Reg(8)) == y
  {
    LoopAllocation();
    LoopReturns(x, y, world, meaning);
    LoopMoves();
    var lists := EdgeLists(Loop(), LOOP_PLACES, 1);
    assert EdgeEffect(lists[0], hs[0], sts[0], sts[1]) && EdgeEffect(lists[1], hs[1], sts[1], sts[2]);
    assert sts[2].Get(lists[1][0].dst) == Eval(lists[1][0].src, sts[1]);
  }

  lemma LoopComposed(lists: seq<seq<Move>>)
    requires lists == [[], [Move(Reg(8), From(Reg(9)))]]
    ensures Composed(lists, Reg(8)) == From(Reg(9))
  {
    var before := lists[..1];
    assert before == [[]] && before[..0] == [];
    assert SourceIn(lists[1], Reg(8)) == Some(From(Reg(9)));
    assert Composed(before, Reg(9)) == From(Reg(9));
  }

  // In terms of the condition: the exit needs the phi, and the moves composed bring it something else.
  lemma LoopIsNotRight()
    ensures WellFormed(Loop()) && !MovesRight(Loop(), LOOP_PLACES, 1, 9)
  {
    var f := Loop();
    LoopWellFormed();
    LoopMoves();
    var lists := EdgeLists(f, LOOP_PLACES, 1);
    var w := Ways(f.blocks[1].term, LOOP_PLACES)[0];
    LoopComposed(lists);
    assert OperandsAt(f.blocks[2], 0) == [Val(0)] && UsedAt(f.blocks[2], 0, 0);
    UsedIsNeeded(f, 0, 2, 0);
    assert Needed(f, 0, w.target, 0) && !ValueRight(f, LOOP_PLACES, 1, w, 0);
    assert w in Ways(f.blocks[1].term, LOOP_PLACES) && !WayRight(f, LOOP_PLACES, 1, w);
  }

  lemma LoopMoves()
    requires WellFormed(Loop())
    ensures EdgeLists(Loop(), LOOP_PLACES, 1) == [[], [Move(Reg(8), From(Reg(9)))]]
  {
    var f := Loop();
    var phis := f.blocks[1].phis;
    assert Succs(f.blocks[1].term) == [2, 1];
    assert MovesOfEdge(f, LOOP_PLACES, 1, 2) == [];
    assert PhiMove(phis[0], 1, LOOP_PLACES) == [Move(Reg(8), From(Reg(9)))];
    assert EdgeMovesUpTo(phis, 0, 1, LOOP_PLACES) == [];
    assert EdgeMovesUpTo(phis, 1, 1, LOOP_PLACES) == [] + PhiMove(phis[0], 1, LOOP_PLACES);
    var lists := EdgeLists(f, LOOP_PLACES, 1);
    assert lists[0] == [] && lists[1] == [Move(Reg(8), From(Reg(9)))];
  }
}
