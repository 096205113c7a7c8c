// Liveness of registers: the backward data flow that decides which registers a call must
// preserve. Registers, not values: one register holds several block-local values in turn.
module Liveness {
  import opened Machine
  import opened Ssa
  import RegAlloc
  import Sets

  // Where pre-allocation put the values; registers from `high` on are transient.
  datatype Homes = Homes(alloc: map<nat, Loc>, high: nat)

  // The register a value keeps, if it keeps one.
  function RegOf(a: Homes, v: nat): (r: Option<nat>)
    ensures r.Some? ==> 8 <= r.value < a.high && v in a.alloc && a.alloc[v] == Reg(r.value)
  {
    if v in a.alloc && a.alloc[v].Reg? && 8 <= a.alloc[v].r < a.high then Some(a.alloc[v].r) else None
  }

  function OperandReg(a: Homes, o: Operand): Option<nat> {
    if o.Val? then RegOf(a, o.v) else None
  }

  // What position k of a block defines; position |body| is the terminator.
  function DefAt(a: Homes, blk: Block, k: nat): Option<nat> {
    if k < |blk.body| && blk.body[k].dst.Some? then RegOf(a, blk.body[k].dst.value) else None
  }

  // ----- Reading and writing registers ----------------------------------------------------------

  // Register r is that of a value.
  ghost predicate Keeps(a: Homes, v: nat, r: nat) {
    v in a.alloc && a.alloc[v] == Reg(r) && 8 <= r < a.high
  }

  // Which register a value keeps, an operand and a phi read, and a position writes.
  lemma HomesMean(a: Homes, v: nat, o: Operand, blk: Block, k: nat, phi: Phi, p: nat, r: nat)
    ensures RegOf(a, v) == Some(r) <==> Keeps(a, v, r)
    ensures OperandReg(a, o) == Some(r) <==> o.Val? && Keeps(a, o.v, r)
    ensures DefAt(a, blk, k) == Some(r) <==> k < |blk.body| && blk.body[k].dst.Some? && Keeps(a, blk.body[k].dst.value, r)
    ensures PhiOperandIs(a, phi, p, r) <==> p in phi.incoming && phi.incoming[p].Val? && Keeps(a, phi.incoming[p].v, r)
  {
  }

  ghost predicate ReadsReg(a: Homes, os: seq<Operand>, r: nat) {
    exists i :: 0 <= i < |os| && OperandReg(a, os[i]) == Some(r)
  }

  ghost predicate ReadsAt(a: Homes, blk: Block, k: nat, r: nat) {
    k <= |blk.body| && ReadsReg(a, OperandsAt(blk, k), r)
  }

  ghost predicate DefinedIn(a: Homes, blk: Block, r: nat, from: nat, to: nat) {
    exists k: nat :: from <= k < to && DefAt(a, blk, k) == Some(r)
  }

  // From position k on the block reads r before it writes it.
  ghost predicate ReadsFirst(a: Homes, blk: Block, k: nat, r: nat) {
    exists j: nat :: k <= j <= |blk.body| && ReadsAt(a, blk, j, r) && !DefinedIn(a, blk, r, k, j)
  }

  ghost predicate PhiWritesReg(f: Function, a: Homes, s: nat, r: nat) {
    s < |f.blocks| && exists i :: 0 <= i < |f.blocks[s].phis| && RegOf(a, f.blocks[s].phis[i].dst) == Some(r)
  }

  ghost predicate PhiReadsReg(f: Function, a: Homes, p: nat, s: nat, r: nat) {
    s < |f.blocks| &&
    exists i :: 0 <= i < |f.blocks[s].phis| && PhiOperandIs(a, f.blocks[s].phis[i], p, r)
  }

  predicate PhiOperandIs(a: Homes, phi: Phi, p: nat, r: nat) {
    p in phi.incoming && OperandReg(a, phi.incoming[p]) == Some(r)
  }

  ghost predicate ParamReg(f: Function, a: Homes, r: nat) {
    exists i :: 0 <= i < |f.params| && RegOf(a, f.params[i]) == Some(r)
  }

  // ----- Liveness by paths --------------------------------------------------------------------------

  // A walk p from position k of block p[0] that reads r, in its last block or as a phi operand
  // on its last edge, before anything writes it. Position |body| + 1 is past the terminator.
  ghost predicate LiveAlong(f: Function, a: Homes, r: nat, p: seq<nat>, k: nat)
    decreases |p|
  {
    p != [] && p[0] < |f.blocks| && k <= |f.blocks[p[0]].body| + 1 &&
    var blk := f.blocks[p[0]];
    if |p| == 1 then ReadsFirst(a, blk, k, r)
    else
      && Edge(f, p[0], p[1]) && !DefinedIn(a, blk, r, k, |blk.body|)
      && ((|p| == 2 && PhiReadsReg(f, a, p[0], p[1], r)) ||
          (!PhiWritesReg(f, a, p[1], r) && LiveAlong(f, a, r, p[1..], 0)))
  }

  ghost predicate LiveAt(f: Function, a: Homes, b: nat, k: nat, r: nat) {
    exists p :: p != [] && p[0] == b && LiveAlong(f, a, r, p, k)
  }

  ghost predicate LiveOut(f: Function, a: Homes, b: nat, r: nat) {
    b < |f.blocks| && LiveAt(f, a, b, |f.blocks[b].body| + 1, r)
  }

  // The entry block has no predecessor.
  ghost predicate EntryFirst(f: Function) {
    forall p, s :: Edge(f, p, s) ==> 0 < s < |f.blocks|
  }

  // ----- The equations -----------------------------------------------------------------------------------

  ghost predicate UpwardExposed(f: Function, a: Homes, b: nat, r: nat) {
    b < |f.blocks| && !PhiWritesReg(f, a, b, r) && ReadsFirst(a, f.blocks[b], 0, r)
  }

  ghost predicate Defines(f: Function, a: Homes, b: nat, r: nat) {
    b < |f.blocks| &&
    (DefinedIn(a, f.blocks[b], r, 0, |f.blocks[b].body|) || PhiWritesReg(f, a, b, r) || (b == 0 && ParamReg(f, a, r)))
  }

  ghost predicate InEq(f: Function, a: Homes, out: set<nat>, b: nat, r: nat) {
    UpwardExposed(f, a, b, r) || (r in out && !Defines(f, a, b, r))
  }

  // r comes in over the edge from b to s.
  ghost predicate OverEdge(f: Function, a: Homes, ins: set<nat>, b: nat, s: nat, r: nat) {
    (r in ins && !PhiWritesReg(f, a, s, r)) || PhiReadsReg(f, a, b, s, r)
  }

  ghost predicate OutEq(f: Function, a: Homes, ins: seq<set<nat>>, b: nat, r: nat) {
    b < |f.blocks| <= |ins| &&
    exists i :: 0 <= i < |Succs(f.blocks[b].term)| && Succs(f.blocks[b].term)[i] < |f.blocks| &&
                OverEdge(f, a, ins[Succs(f.blocks[b].term)[i]], b, Succs(f.blocks[b].term)[i], r)
  }

  // ins and outs solve the data-flow equations.
  ghost predicate Solves(f: Function, a: Homes, ins: seq<set<nat>>, outs: seq<set<nat>>) {
    && |ins| == |outs| == |f.blocks|
    && (forall b, r: nat :: 0 <= b < |f.blocks| ==> (r in outs[b] <==> OutEq(f, a, ins, b, r)))
    && (forall b, r: nat :: 0 <= b < |f.blocks| ==> (r in ins[b] <==> InEq(f, a, outs[b], b, r)))
  }

  // Past the terminator nothing is read or written.
  lemma PastEnd(a: Homes, blk: Block, r: nat)
    ensures !ReadsFirst(a, blk, |blk.body| + 1, r) && !DefinedIn(a, blk, r, |blk.body| + 1, |blk.body|)
  {
  }

  // A walk beyond its first block.
  lemma WalkOn(f: Function, a: Homes, r: nat, p: seq<nat>, k: nat)
    requires LiveAlong(f, a, r, p, k) && |p| >= 2
    ensures LiveAlong(f, a, r, p, |f.blocks[p[0]].body| + 1)
  {
    PastEnd(a, f.blocks[p[0]], r);
  }

  // Any solution contains every register a walk keeps live.
  lemma {:induction false} SolutionsContainWalks(f: Function, a: Homes, ins: seq<set<nat>>, outs: seq<set<nat>>, r: nat, p: seq<nat>)
    requires EntryFirst(f) && Solves(f, a, ins, outs) && p != [] && p[0] < |f.blocks|
    requires LiveAlong(f, a, r, p, |f.blocks[p[0]].body| + 1)
    ensures r in outs[p[0]]
    decreases |p|
  {
    var b := p[0];
    PastEnd(a, f.blocks[b], r);
    assert |p| >= 2;
    var s := p[1];
    var i :| 0 <= i < |Succs(f.blocks[b].term)| && Succs(f.blocks[b].term)[i] == s;
    assert Edge(f, b, s);
    if !(|p| == 2 && PhiReadsReg(f, a, b, s, r)) {
      if |p| == 2 {
        assert UpwardExposed(f, a, s, r);
      } else {
        WalkOn(f, a, r, p[1..], 0);
        SolutionsContainWalks(f, a, ins, outs, r, p[1..]);
        assert !Defines(f, a, s, r);
      }
      assert InEq(f, a, outs[s], s, r);
    }
    assert OverEdge(f, a, ins[s], b, s, r);
    assert OutEq(f, a, ins, b, r);
  }

  // What holds of a walk holds one block earlier.
  lemma ExtendWalk(f: Function, a: Homes, b: nat, s: nat, r: nat, p: seq<nat>)
    requires Edge(f, b, s) && s < |f.blocks| && !PhiWritesReg(f, a, s, r)
    requires p != [] && p[0] == s && LiveAlong(f, a, r, p, 0)
    ensures LiveOut(f, a, b, r)
  {
    PastEnd(a, f.blocks[b], r);
    var q := [b] + p;
    assert q[1..] == p;
    assert LiveAlong(f, a, r, q, |f.blocks[b].body| + 1);
  }

  // ----- Only what a walk keeps live gets in ------------------------------------------------------------

  ghost predicate Justified(f: Function, a: Homes, ins: seq<set<nat>>, outs: seq<set<nat>>) {
    && |ins| == |outs| == |f.blocks|
    && (forall b, r: nat :: 0 <= b < |f.blocks| && r in outs[b] ==> LiveOut(f, a, b, r))
    && (forall b, r: nat :: 0 <= b < |f.blocks| && r in ins[b] ==>
          UpwardExposed(f, a, b, r) || (LiveOut(f, a, b, r) && !Defines(f, a, b, r)))
  }

  lemma OverEdgeJustified(f: Function, a: Homes, ins: seq<set<nat>>, outs: seq<set<nat>>, b: nat, s: nat, r: nat)
    requires Justified(f, a, ins, outs) && Edge(f, b, s) && s < |f.blocks| && OverEdge(f, a, ins[s], b, s, r)
    ensures LiveOut(f, a, b, r)
  {
    if PhiReadsReg(f, a, b, s, r) {
      PastEnd(a, f.blocks[b], r);
      assert LiveAlong(f, a, r, [b, s], |f.blocks[b].body| + 1);
    } else if UpwardExposed(f, a, s, r) {
      assert LiveAlong(f, a, r, [s], 0);
      ExtendWalk(f, a, b, s, r, [s]);
    } else {
      var p :| p != [] && p[0] == s && LiveAlong(f, a, r, p, |f.blocks[s].body| + 1);
      PastEnd(a, f.blocks[s], r);
      assert LiveAlong(f, a, r, p, 0);
      ExtendWalk(f, a, b, s, r, p);
    }
  }

  // ----- One block recomputed ----------------------------------------------------------------------------

  // The sets so far are below what the equations make of them.
  ghost predicate Rising(f: Function, a: Homes, ins: seq<set<nat>>, outs: seq<set<nat>>) {
    && |ins| == |outs| == |f.blocks|
    && (forall b, r: nat :: 0 <= b < |f.blocks| && r in outs[b] ==> OutEq(f, a, ins, b, r))
    && (forall b, r: nat :: 0 <= b < |f.blocks| && r in ins[b] ==> InEq(f, a, outs[b], b, r))
  }

  // What the body of the loop computes for block b.
  ghost predicate Recomputed(f: Function, a: Homes, ins: seq<set<nat>>, b: nat, newIn: set<nat>, newOut: set<nat>) {
    && (forall r: nat :: r in newOut <==> OutEq(f, a, ins, b, r))
    && (forall r: nat :: r in newIn <==> InEq(f, a, newOut, b, r))
  }

  lemma OutMonotone(f: Function, a: Homes, ins: seq<set<nat>>, b: nat, c: nat, newIn: set<nat>, r: nat)
    requires |ins| == |f.blocks| && c < |ins| && ins[c] <= newIn && OutEq(f, a, ins, b, r)
    ensures OutEq(f, a, ins[c := newIn], b, r)
  {
    var i :| 0 <= i < |Succs(f.blocks[b].term)| && Succs(f.blocks[b].term)[i] < |f.blocks| &&
             OverEdge(f, a, ins[Succs(f.blocks[b].term)[i]], b, Succs(f.blocks[b].term)[i], r);
    assert OverEdge(f, a, ins[c := newIn][Succs(f.blocks[b].term)[i]], b, Succs(f.blocks[b].term)[i], r);
  }

  lemma StepGrows(f: Function, a: Homes, ins: seq<set<nat>>, outs: seq<set<nat>>, b: nat, newIn: set<nat>, newOut: set<nat>)
    requires Rising(f, a, ins, outs) && b < |f.blocks| && Recomputed(f, a, ins, b, newIn, newOut)
    ensures ins[b] <= newIn && outs[b] <= newOut
  {
  }

  lemma StepRises(f: Function, a: Homes, ins: seq<set<nat>>, outs: seq<set<nat>>, b: nat, newIn: set<nat>, newOut: set<nat>)
    requires Rising(f, a, ins, outs) && b < |f.blocks| && Recomputed(f, a, ins, b, newIn, newOut)
    ensures Rising(f, a, ins[b := newIn], outs[b := newOut])
  {
    StepGrows(f, a, ins, outs, b, newIn, newOut);
    var outs1 := outs[b := newOut];
    forall c, r: nat | 0 <= c < |f.blocks| && r in outs1[c]
      ensures OutEq(f, a, ins[b := newIn], c, r)
    {
      OutMonotone(f, a, ins, c, b, newIn, r);
    }
  }

  lemma StepJustified(f: Function, a: Homes, ins: seq<set<nat>>, outs: seq<set<nat>>, b: nat, newIn: set<nat>, newOut: set<nat>)
    requires Justified(f, a, ins, outs) && b < |f.blocks| && Recomputed(f, a, ins, b, newIn, newOut)
    ensures Justified(f, a, ins[b := newIn], outs[b := newOut])
  {
    forall r: nat | r in newOut
      ensures LiveOut(f, a, b, r)
    {
      var i :| 0 <= i < |Succs(f.blocks[b].term)| && Succs(f.blocks[b].term)[i] < |f.blocks| &&
               OverEdge(f, a, ins[Succs(f.blocks[b].term)[i]], b, Succs(f.blocks[b].term)[i], r);
      OverEdgeJustified(f, a, ins, outs, b, Succs(f.blocks[b].term)[i], r);
    }
  }

  // A justified solution is exact.
  lemma SolutionIsExact(f: Function, a: Homes, ins: seq<set<nat>>, outs: seq<set<nat>>)
    requires EntryFirst(f) && Solves(f, a, ins, outs) && Justified(f, a, ins, outs)
    ensures forall b, r: nat :: 0 <= b < |f.blocks| ==> (r in outs[b] <==> LiveOut(f, a, b, r))
  {
    forall b, r: nat | 0 <= b < |f.blocks| && LiveOut(f, a, b, r)
      ensures r in outs[b]
    {
      var p :| p != [] && p[0] == b && LiveAlong(f, a, r, p, |f.blocks[b].body| + 1);
      SolutionsContainWalks(f, a, ins, outs, r, p);
    }
  }

  // It is the least solution.
  lemma ExactIsLeast(f: Function, a: Homes, ins: seq<set<nat>>, outs: seq<set<nat>>, ins1: seq<set<nat>>, outs1: seq<set<nat>>, b: nat)
    requires EntryFirst(f) && Solves(f, a, ins, outs) && Justified(f, a, ins, outs) && Solves(f, a, ins1, outs1)
    requires b < |f.blocks|
    ensures outs[b] <= outs1[b] && ins[b] <= ins1[b]
  {
    forall r: nat | r in outs[b]
      ensures r in outs1[b]
    {
      var p :| p != [] && p[0] == b && LiveAlong(f, a, r, p, |f.blocks[b].body| + 1);
      SolutionsContainWalks(f, a, ins1, outs1, r, p);
    }
  }

  // ----- The sets of a block ------------------------------------------------------------------------------

  method AddOperands(a: Homes, os: seq<Operand>, live0: set<nat>) returns (live: set<nat>)
    ensures forall r: nat :: r in live <==> r in live0 || ReadsReg(a, os, r)
  {
    live := live0;
    for k := 0 to |os|
      invariant forall r: nat :: r in live <==> r in live0 || exists i :: 0 <= i < k && OperandReg(a, os[i]) == Some(r)
    {
      var b := OperandReg(a, os[k]);
      if b.Some? {
        live := live + {b.value};
      }
    }
  }

  method PhiDefs(f: Function, a: Homes, b: nat) returns (phiDef: set<nat>)
    requires b < |f.blocks|
    ensures forall r: nat :: r in phiDef <==> PhiWritesReg(f, a, b, r)
  {
    phiDef := {};
    var phis := f.blocks[b].phis;
    for k := 0 to |phis|
      invariant forall r: nat :: r in phiDef <==> exists i :: 0 <= i < k && RegOf(a, phis[i].dst) == Some(r)
    {
      var d := RegOf(a, phis[k].dst);
      if d.Some? {
        phiDef := phiDef + {d.value};
      }
    }
  }

  // Everything the block defines; the parameters count as defined at the top of the entry.
  method BlockDefs(f: Function, a: Homes, b: nat, phiDef: set<nat>) returns (def: set<nat>)
    requires b < |f.blocks| && forall r: nat :: r in phiDef <==> PhiWritesReg(f, a, b, r)
    ensures forall r: nat :: r in def <==> Defines(f, a, b, r)
  {
    def := phiDef;
    var body := f.blocks[b].body;
    for k := 0 to |body|
      invariant forall r: nat :: r in def <==> r in phiDef || DefinedIn(a, f.blocks[b], r, 0, k)
    {
      ghost var before := def;
      if body[k].dst.Some? {
        var d := RegOf(a, body[k].dst.value);
        if d.Some? {
          def := def + {d.value};
        }
      }
      DefinedOneMore(a, f.blocks[b], k);
    }
    if b == 0 {
      ghost var before := def;
      for i := 0 to |f.params|
        invariant forall r: nat :: r in def <==> r in before || exists j :: 0 <= j < i && RegOf(a, f.params[j]) == Some(r)
      {
        var d := RegOf(a, f.params[i]);
        if d.Some? {
          def := def + {d.value};
        }
      }
    }
  }

  lemma DefinedOneMore(a: Homes, blk: Block, k: nat)
    ensures forall r: nat :: DefinedIn(a, blk, r, 0, k + 1) <==> DefinedIn(a, blk, r, 0, k) || DefAt(a, blk, k) == Some(r)
  {
    forall r: nat
      ensures DefinedIn(a, blk, r, 0, k + 1) <==> DefinedIn(a, blk, r, 0, k) || DefAt(a, blk, k) == Some(r)
    {
      if DefinedIn(a, blk, r, 0, k) {
        var j: nat :| 0 <= j < k && DefAt(a, blk, j) == Some(r);
        assert DefinedIn(a, blk, r, 0, k + 1);
      }
    }
  }

  // One position further back.
  lemma ReadsOneMore(a: Homes, blk: Block, k: nat, r: nat)
    requires k <= |blk.body|
    ensures ReadsFirst(a, blk, k, r) <==> ReadsAt(a, blk, k, r) || (ReadsFirst(a, blk, k + 1, r) && DefAt(a, blk, k) != Some(r))
  {
    if ReadsFirst(a, blk, k, r) && !ReadsAt(a, blk, k, r) {
      var j: nat :| k <= j <= |blk.body| && ReadsAt(a, blk, j, r) && !DefinedIn(a, blk, r, k, j);
      assert !DefinedIn(a, blk, r, k + 1, j);
    }
    if ReadsFirst(a, blk, k + 1, r) && DefAt(a, blk, k) != Some(r) {
      var j: nat :| k + 1 <= j <= |blk.body| && ReadsAt(a, blk, j, r) && !DefinedIn(a, blk, r, k + 1, j);
      assert !DefinedIn(a, blk, r, k, j);
      assert ReadsFirst(a, blk, k, r);
    }
    if ReadsAt(a, blk, k, r) {
      assert ReadsFirst(a, blk, k, r);
    }
  }

  // The backward walk over the non-phi instructions.
  method UpwardUses(f: Function, a: Homes, b: nat, phiDef: set<nat>) returns (use: set<nat>)
    requires b < |f.blocks| && forall r: nat :: r in phiDef <==> PhiWritesReg(f, a, b, r)
    ensures forall r: nat :: r in use <==> UpwardExposed(f, a, b, r)
  {
    var blk := f.blocks[b];
    var live: set<nat> := {};
    var k := |blk.body| + 1;
    while k > 0
      invariant 0 <= k <= |blk.body| + 1
      invariant forall r: nat :: r in live <==> ReadsFirst(a, blk, k, r)
    {
      k := k - 1;
      live := Backward(a, blk, k, live);
      forall r: nat
        ensures r in live <==> ReadsFirst(a, blk, k, r)
      {
        ReadsOneMore(a, blk, k, r);
      }
    }
    use := live - phiDef;
  }

  // The effect of the instruction at position k on the set live after it.
  method Backward(a: Homes, blk: Block, k: nat, after: set<nat>) returns (before: set<nat>)
    requires k <= |blk.body|
    ensures forall r: nat :: r in before <==> ReadsAt(a, blk, k, r) || (r in after && DefAt(a, blk, k) != Some(r))
  {
    before := after;
    var d := DefAt(a, blk, k);
    if d.Some? {
      before := before - {d.value};
    }
    before := AddOperands(a, OperandsAt(blk, k), before);
  }

  // ----- The fixed point ------------------------------------------------------------------------------------

  // The numbers below n.
  ghost function Universe(n: nat): (u: set<nat>)
    ensures forall r: nat :: r in u <==> r < n
  {
    if n == 0 then {} else Universe(n - 1) + {n - 1}
  }

  // How many registers could still be added.
  ghost function Missing(sets: seq<set<nat>>, u: set<nat>): (n: nat) {
    if sets == [] then 0 else |u - sets[0]| + Missing(sets[1..], u)
  }

  lemma {:induction false} MissingUpdate(sets: seq<set<nat>>, i: nat, s: set<nat>, u: set<nat>)
    requires i < |sets| && sets[i] <= s <= u
    ensures Missing(sets[i := s], u) <= Missing(sets, u)
    ensures sets[i] != s ==> Missing(sets[i := s], u) < Missing(sets, u)
  {
    if i == 0 {
      assert sets[i := s][1..] == sets[1..];
      Sets.SubsetSize(u - s, u - sets[0]);
      if sets[0] != s {
        FewerMissing(sets[0], s, u);
      }
    } else {
      assert sets[i := s][1..] == sets[1..][i - 1 := s];
      MissingUpdate(sets[1..], i - 1, s, u);
    }
  }

  lemma FewerMissing(s0: set<nat>, s: set<nat>, u: set<nat>)
    requires s0 <= s <= u && s0 != s
    ensures |u - s| < |u - s0|
  {
    var x :| x in s && x !in s0;
    Sets.SubsetSize(u - s, (u - s0) - {x});
  }

  // Every set so far holds only registers that pre-allocation handed out.
  lemma WithinUniverse(f: Function, a: Homes, ins: seq<set<nat>>, b: nat, newIn: set<nat>, newOut: set<nat>)
    requires |ins| == |f.blocks| && Recomputed(f, a, ins, b, newIn, newOut)
    requires Within(ins, Universe(a.high))
    ensures newIn <= Universe(a.high) && newOut <= Universe(a.high)
  {
    forall r: nat | r in newOut
      ensures r < a.high
    {
      var i :| 0 <= i < |Succs(f.blocks[b].term)| && Succs(f.blocks[b].term)[i] < |f.blocks| &&
               OverEdge(f, a, ins[Succs(f.blocks[b].term)[i]], b, Succs(f.blocks[b].term)[i], r);
    }
  }

  // The union over the successors of what comes in over each edge.
  method OverEdges(f: Function, a: Homes, ins: seq<set<nat>>, b: nat, phiDefs: seq<set<nat>>) returns (newOut: set<nat>)
    requires b < |f.blocks| == |ins| == |phiDefs|
    requires forall s, r: nat :: 0 <= s < |f.blocks| ==> (r in phiDefs[s] <==> PhiWritesReg(f, a, s, r))
    ensures forall r: nat :: r in newOut <==> OutEq(f, a, ins, b, r)
  {
    newOut := {};
    var succs := Succs(f.blocks[b].term);
    for k := 0 to |succs|
      invariant forall r: nat :: r in newOut <==>
                  exists i :: 0 <= i < k && succs[i] < |f.blocks| && OverEdge(f, a, ins[succs[i]], b, succs[i], r)
    {
      var s := succs[k];
      if s < |f.blocks| {
        var phiUse := PhiUses(f, a, b, s);
        newOut := newOut + (ins[s] - phiDefs[s]) + phiUse;
      }
    }
  }

  method PhiUses(f: Function, a: Homes, b: nat, s: nat) returns (uses: set<nat>)
    requires s < |f.blocks|
    ensures forall r: nat :: r in uses <==> PhiReadsReg(f, a, b, s, r)
  {
    uses := {};
    var phis := f.blocks[s].phis;
    for k := 0 to |phis|
      invariant forall r: nat :: r in uses <==> exists i :: 0 <= i < k && PhiOperandIs(a, phis[i], b, r)
    {
      if b in phis[k].incoming {
        var r := OperandReg(a, phis[k].incoming[b]);
        if r.Some? {
          uses := uses + {r.value};
        }
      }
    }
  }

  ghost predicate BlockSets(f: Function, a: Homes, defs: seq<set<nat>>, uses: seq<set<nat>>, phiDefs: seq<set<nat>>, n: nat)
    requires n <= |f.blocks|
  {
    && |defs| == |uses| == |phiDefs| == n
    && (forall b, r: nat :: 0 <= b < n ==> (r in defs[b] <==> Defines(f, a, b, r)))
    && (forall b, r: nat :: 0 <= b < n ==> (r in uses[b] <==> UpwardExposed(f, a, b, r)))
    && (forall b, r: nat :: 0 <= b < n ==> (r in phiDefs[b] <==> PhiWritesReg(f, a, b, r)))
  }

  method BlockDefUse(f: Function, a: Homes) returns (defs: seq<set<nat>>, uses: seq<set<nat>>, phiDefs: seq<set<nat>>)
    ensures BlockSets(f, a, defs, uses, phiDefs, |f.blocks|)
  {
    defs, uses, phiDefs := [], [], [];
    for b := 0 to |f.blocks|
      invariant BlockSets(f, a, defs, uses, phiDefs, b)
    {
      var p := PhiDefs(f, a, b);
      var d := BlockDefs(f, a, b, p);
      var u := UpwardUses(f, a, b, p);
      defs, uses, phiDefs := defs + [d], uses + [u], phiDefs + [p];
    }
  }

  ghost predicate Within(sets: seq<set<nat>>, u: set<nat>) {
    forall c :: 0 <= c < |sets| ==> sets[c] <= u
  }

  // The state of the iteration: what holds between any two blocks.
  ghost predicate Iterating(f: Function, a: Homes, ins: seq<set<nat>>, outs: seq<set<nat>>) {
    && Rising(f, a, ins, outs) && Justified(f, a, ins, outs)
    && Within(ins, Universe(a.high)) && Within(outs, Universe(a.high))
  }

  ghost function ToGo(a: Homes, ins: seq<set<nat>>, outs: seq<set<nat>>): nat {
    Missing(ins, Universe(a.high)) + Missing(outs, Universe(a.high))
  }

  lemma WithinUpdate(sets: seq<set<nat>>, b: nat, s: set<nat>, u: set<nat>)
    requires Within(sets, u) && b < |sets| && s <= u
    ensures Within(sets[b := s], u)
  {
  }

  lemma StepIterates(f: Function, a: Homes, ins: seq<set<nat>>, outs: seq<set<nat>>, b: nat, newIn: set<nat>, newOut: set<nat>)
    requires Iterating(f, a, ins, outs) && b < |f.blocks| && Recomputed(f, a, ins, b, newIn, newOut)
    ensures Iterating(f, a, ins[b := newIn], outs[b := newOut])
    ensures ToGo(a, ins[b := newIn], outs[b := newOut]) <= ToGo(a, ins, outs)
    ensures newIn != ins[b] || newOut != outs[b] ==> ToGo(a, ins[b := newIn], outs[b := newOut]) < ToGo(a, ins, outs)
  {
    StepGrows(f, a, ins, outs, b, newIn, newOut);
    StepRises(f, a, ins, outs, b, newIn, newOut);
    StepJustified(f, a, ins, outs, b, newIn, newOut);
    WithinUniverse(f, a, ins, b, newIn, newOut);
    WithinUpdate(ins, b, newIn, Universe(a.high));
    WithinUpdate(outs, b, newOut, Universe(a.high));
    MissingUpdate(ins, b, newIn, Universe(a.high));
    MissingUpdate(outs, b, newOut, Universe(a.high));
  }

  // The equations of the blocks from b on hold.
  ghost predicate SolvesFrom(f: Function, a: Homes, ins: seq<set<nat>>, outs: seq<set<nat>>, b: int) {
    && |ins| == |outs| == |f.blocks|
    && forall c {:trigger Recomputed(f, a, ins, c, ins[c], outs[c])} ::
         0 <= c < |f.blocks| && b <= c ==> Recomputed(f, a, ins, c, ins[c], outs[c])
  }

  lemma SolvesOneMore(f: Function, a: Homes, ins: seq<set<nat>>, outs: seq<set<nat>>, b: nat)
    requires SolvesFrom(f, a, ins, outs, b + 1) && b < |f.blocks| && Recomputed(f, a, ins, b, ins[b], outs[b])
    ensures SolvesFrom(f, a, ins, outs, b)
  {
  }

  lemma SolvesAll(f: Function, a: Homes, ins: seq<set<nat>>, outs: seq<set<nat>>)
    requires SolvesFrom(f, a, ins, outs, 0)
    ensures Solves(f, a, ins, outs)
  {
    forall c, r: nat | 0 <= c < |f.blocks|
      ensures r in outs[c] <==> OutEq(f, a, ins, c, r)
      ensures r in ins[c] <==> InEq(f, a, outs[c], c, r)
    {
      assert Recomputed(f, a, ins, c, ins[c], outs[c]);
    }
  }

  method UpdateBlock(f: Function, a: Homes, liveIn: array<set<nat>>, liveOut: array<set<nat>>, b: nat,
                     defs: seq<set<nat>>, uses: seq<set<nat>>, phiDefs: seq<set<nat>>) returns (changed: bool)
    requires liveIn != liveOut && BlockSets(f, a, defs, uses, phiDefs, |f.blocks|) && b < |f.blocks|
    requires Iterating(f, a, liveIn[..], liveOut[..])
    modifies liveIn, liveOut
    ensures Iterating(f, a, liveIn[..], liveOut[..])
    ensures !changed ==> liveIn[..] == old(liveIn[..]) && liveOut[..] == old(liveOut[..])
                         && Recomputed(f, a, liveIn[..], b, liveIn[b], liveOut[b])
    ensures changed ==> ToGo(a, liveIn[..], liveOut[..]) < ToGo(a, old(liveIn[..]), old(liveOut[..]))
  {
    ghost var ins, outs := liveIn[..], liveOut[..];
    var newOut := OverEdges(f, a, liveIn[..], b, phiDefs);
    var newIn := uses[b] + (newOut - defs[b]);
    assert Recomputed(f, a, ins, b, newIn, newOut);
    StepIterates(f, a, ins, outs, b, newIn, newOut);
    changed := false;
    if newIn != liveIn[b] {
      changed := true;
      liveIn[b] := newIn;
    }
    if newOut != liveOut[b] {
      changed := true;
      liveOut[b] := newOut;
    }
    assert liveIn[..] == ins[b := newIn];
    assert liveOut[..] == outs[b := newOut];
  }

  // One pass over the blocks, last to first.
  method Pass(f: Function, a: Homes, liveIn: array<set<nat>>, liveOut: array<set<nat>>,
              defs: seq<set<nat>>, uses: seq<set<nat>>, phiDefs: seq<set<nat>>) returns (changed: bool)
    requires liveIn != liveOut && BlockSets(f, a, defs, uses, phiDefs, |f.blocks|)
    requires Iterating(f, a, liveIn[..], liveOut[..])
    modifies liveIn, liveOut
    ensures Iterating(f, a, liveIn[..], liveOut[..])
    ensures !changed ==> liveIn[..] == old(liveIn[..]) && liveOut[..] == old(liveOut[..])
                         && Solves(f, a, liveIn[..], liveOut[..])
    ensures changed ==> ToGo(a, liveIn[..], liveOut[..]) < ToGo(a, old(liveIn[..]), old(liveOut[..]))
  {
    changed := false;
    ghost var ins, outs := liveIn[..], liveOut[..];
    var b := |f.blocks| - 1;
    while b >= 0
      invariant -1 <= b < |f.blocks| && Iterating(f, a, liveIn[..], liveOut[..])
      invariant changed ==> ToGo(a, liveIn[..], liveOut[..]) < ToGo(a, ins, outs)
      invariant !changed ==> liveIn[..] == ins && liveOut[..] == outs && SolvesFrom(f, a, ins, outs, b + 1)
    {
      var more := UpdateBlock(f, a, liveIn, liveOut, b, defs, uses, phiDefs);
      changed := changed || more;
      if !changed {
        SolvesOneMore(f, a, ins, outs, b);
      }
      b := b - 1;
    }
    if !changed {
      SolvesAll(f, a, ins, outs);
    }
  }

  // Starting from nothing the passes reach the exact answer.
  method ComputeLiveness(f: Function, a: Homes) returns (liveIn: array<set<nat>>, liveOut: array<set<nat>>)
    requires EntryFirst(f)
    ensures fresh(liveIn) && fresh(liveOut) && Solves(f, a, liveIn[..], liveOut[..])
    ensures liveOut.Length == |f.blocks|
    ensures forall b, r: nat :: 0 <= b < |f.blocks| ==> (r in liveOut[b] <==> LiveOut(f, a, b, r))
  {
    var n := |f.blocks|;
    var defs, uses, phiDefs := BlockDefUse(f, a);
    liveIn := new set<nat>[n](_ => {});
    liveOut := new set<nat>[n](_ => {});
    var changed := true;
    while changed
      invariant fresh(liveIn) && fresh(liveOut) && liveIn != liveOut && liveOut.Length == n
      invariant Iterating(f, a, liveIn[..], liveOut[..])
      invariant !changed ==> Solves(f, a, liveIn[..], liveOut[..])
      decreases ToGo(a, liveIn[..], liveOut[..]), changed
    {
      changed := Pass(f, a, liveIn, liveOut, defs, uses, phiDefs);
    }
    SolutionIsExact(f, a, liveIn[..], liveOut[..]);
  }
}
