// Register pre-allocation: every value gets a register or a value-spill slot in one
// pass over the blocks; registers of block-local values are recycled in their block.
module RegAlloc {
  import opened Machine
  import opened Ssa

  // ----- What recycling needs to know -------------------------------------------------

  predicate UsedAt(blk: Block, k: nat, v: nat)
    requires k <= |blk.body|
  {
    Val(v) in OperandsAt(blk, k)
  }

  predicate UsedByPhi(f: Function, v: nat) {
    exists b, i :: 0 <= b < |f.blocks| && 0 <= i < |f.blocks[b].phis| && Val(v) in f.blocks[b].phis[i].incoming.Values
  }

  // An instruction's value that is used, only in its own block, and by no phi.
  predicate BlockLocal(f: Function, v: nat) {
    && v in f.sites && f.sites[v].InstAt?
    && !UsedByPhi(f, v)
    && (forall c, k :: 0 <= c < |f.blocks| && 0 <= k <= |f.blocks[c].body| && UsedAt(f.blocks[c], k, v) ==>
          c == f.sites[v].b)
    && (exists c, k :: 0 <= c < |f.blocks| && 0 <= k <= |f.blocks[c].body| && UsedAt(f.blocks[c], k, v))
  }

  // No instruction of the block after position k uses v.
  predicate LastUse(blk: Block, k: nat, v: nat) {
    forall j :: k < j <= |blk.body| ==> !UsedAt(blk, j, v)
  }

  // ----- Soundness ---------------------------------------------------------------------

  // v, defined before w in the same block, is dead once w is defined.
  ghost predicate DeadBefore(f: Function, v: nat, w: nat) {
    w in f.sites && f.sites[w].InstAt? && DeadAt(f, v, f.sites[w].b, f.sites[w].k)
  }

  // v is block-local to b and defined and last used before position k.
  ghost predicate DeadAt(f: Function, v: nat, b: nat, k: nat) {
    && BlockLocal(f, v) && f.sites[v].b == b && f.sites[v].k < k
    && b < |f.blocks| && k <= |f.blocks[b].body|
    && forall j :: k <= j <= |f.blocks[b].body| ==> !UsedAt(f.blocks[b], j, v)
  }

  // Two values share a location only when one is dead before the other is defined.
  ghost predicate NoInterference(f: Function, alloc: map<nat, Loc>) {
    forall v, w :: v in alloc && w in alloc && v != w && alloc[v] == alloc[w] ==>
      DeadBefore(f, v, w) || DeadBefore(f, w, v)
  }

  ghost predicate WithinBounds(alloc: map<nat, Loc>, high: nat, slots: nat) {
    forall v :: v in alloc ==>
      match alloc[v]
      case Reg(r) => 8 <= r < high
      case Slot(s) => s < slots
  }

  // ----- What soundness means for simultaneously live values ----------------------------

  ghost predicate DefinedWithin(f: Function, v: nat, b: nat, from: nat, to: nat) {
    v in f.sites && f.sites[v].InstAt? && f.sites[v].b == b && from <= f.sites[v].k < to
  }

  // A walk p from position k of block p[0] that uses v, at its last block or as a phi
  // operand on its last edge, before any definition of v.
  ghost predicate LiveAlong(f: Function, v: nat, p: seq<nat>, k: nat) {
    p != [] && p[0] < |f.blocks| && k <= |f.blocks[p[0]].body| &&
    var blk := f.blocks[p[0]];
    if |p| == 1 then
      exists j :: k <= j <= |blk.body| && UsedAt(blk, j, v) && !DefinedWithin(f, v, p[0], k, j)
    else
      && Edge(f, p[0], p[1]) && !DefinedWithin(f, v, p[0], k, |blk.body|)
      && ((|p| == 2 && PhiReads(f, p[0], p[1], v)) ||
          (!PhiWrites(f, p[1], v) && LiveAlong(f, v, p[1..], 0)))
  }

  ghost predicate PhiReads(f: Function, p: nat, s: nat, v: nat) {
    s < |f.blocks| &&
    exists i :: 0 <= i < |f.blocks[s].phis| && p in f.blocks[s].phis[i].incoming && f.blocks[s].phis[i].incoming[p] == Val(v)
  }

  ghost predicate PhiWrites(f: Function, s: nat, v: nat) {
    s < |f.blocks| && exists i :: 0 <= i < |f.blocks[s].phis| && f.blocks[s].phis[i].dst == v
  }

  ghost predicate Live(f: Function, v: nat, b: nat, k: nat) {
    exists p :: p != [] && p[0] == b && LiveAlong(f, v, p, k)
  }

  lemma UseIsReached(f: Function, v: nat, b: nat, j: nat)
    requires WellFormed(f) && b < |f.blocks| && j <= |f.blocks[b].body| && UsedAt(f.blocks[b], j, v)
    ensures Reaches(f, v, b, j)
  {
    assert OperandsOk(f, b, j);
    assert OperandOk(f, Val(v), b, j);
  }

  lemma PhiReadUses(f: Function, p: nat, s: nat, v: nat)
    requires PhiReads(f, p, s, v)
    ensures UsedByPhi(f, v)
  {
  }

  // A block-local value is not live at the entry of any block.
  lemma {:induction false} NotLiveAtEntry(f: Function, v: nat, p: seq<nat>)
    requires WellFormed(f) && BlockLocal(f, v)
    ensures !LiveAlong(f, v, p, 0)
  {
    if LiveAlong(f, v, p, 0) {
      if |p| == 1 {
        var blk := f.blocks[p[0]];
        var j :| 0 <= j <= |blk.body| && UsedAt(blk, j, v) && !DefinedWithin(f, v, p[0], 0, j);
        UseIsReached(f, v, p[0], j);
      } else if |p| == 2 && PhiReads(f, p[0], p[1], v) {
        PhiReadUses(f, p[0], p[1], v);
      } else {
        NotLiveAtEntry(f, v, p[1..]);
      }
    }
  }

  // A walk that keeps a value live that is dead before w starts in their block, before w.
  lemma LiveThenEarly(f: Function, v: nat, w: nat, p: seq<nat>, k: nat)
    requires WellFormed(f) && DeadBefore(f, v, w) && LiveAlong(f, v, p, k)
    ensures p[0] == f.sites[w].b && k < f.sites[w].k
  {
    if |p| > 1 {
      NotLiveAtEntry(f, v, p[1..]);
      PhiReadUses(f, p[0], p[1], v);
    }
  }

  // Two values that are live at the same point never share a register or slot.
  lemma LiveValuesDontShare(f: Function, alloc: map<nat, Loc>, v: nat, w: nat, b: nat, k: nat)
    requires WellFormed(f) && NoInterference(f, alloc)
    requires v in alloc && w in alloc && v != w
    requires Live(f, v, b, k) && Live(f, w, b, k)
    ensures alloc[v] != alloc[w]
  {
    if alloc[v] == alloc[w] {
      var p :| p != [] && p[0] == b && LiveAlong(f, v, p, k);
      var q :| q != [] && q[0] == b && LiveAlong(f, w, q, k);
      if DeadBefore(f, v, w) {
        LiveThenEarly(f, v, w, p, k);
        NotLiveBeforeDef(f, w, q, k);
      } else {
        LiveThenEarly(f, w, v, q, k);
        NotLiveBeforeDef(f, v, p, k);
      }
    }
  }

  // A value is not live before its definition in its own block.
  lemma NotLiveBeforeDef(f: Function, w: nat, q: seq<nat>, k: nat)
    requires WellFormed(f) && w in f.sites && f.sites[w].InstAt? && q != [] && q[0] == f.sites[w].b && k <= f.sites[w].k
    ensures !LiveAlong(f, w, q, k)
  {
    if LiveAlong(f, w, q, k) {
      assert Defines(f, f.sites[w], w);
      if |q| == 1 {
        var blk := f.blocks[q[0]];
        var j :| k <= j <= |blk.body| && UsedAt(blk, j, w) && !DefinedWithin(f, w, q[0], k, j);
        UseIsReached(f, w, q[0], j);
      }
    }
  }

  // An instruction's destination never aliases one of its operands.
  lemma ResultNotAnOperand(f: Function, alloc: map<nat, Loc>, b: nat, k: nat, v: nat)
    requires WellFormed(f) && NoInterference(f, alloc) && alloc.Keys == f.sites.Keys
    requires b < |f.blocks| && k < |f.blocks[b].body| && f.blocks[b].body[k].dst.Some?
    requires Val(v) in f.blocks[b].body[k].args
    ensures v in alloc && f.blocks[b].body[k].dst.value in alloc
    ensures alloc[v] != alloc[f.blocks[b].body[k].dst.value]
  {
    var d := f.blocks[b].body[k].dst.value;
    assert f.sites[d] == InstAt(b, k);
    assert UsedAt(f.blocks[b], k, v);
    UseIsReached(f, v, b, k);
    if DeadBefore(f, d, v) {
    } else if DeadBefore(f, v, d) {
    }
  }

  // ----- The pass -------------------------------------------------------------------------

  // Is the definition before phi i and instruction k of block b, in program order?
  predicate Visited(site: Site, b: nat, i: nat, k: nat) {
    match site
    case Param(_) => true
    case PhiAt(c, j) => c < b || (c == b && j < i)
    case InstAt(c, j) => c < b || (c == b && j < k)
  }

  // What is visited at the end of a block is what is visited at the beginning of the next.
  lemma AllVisited(f: Function, b: nat)
    requires WellFormed(f) && b < |f.blocks|
    ensures forall v :: v in f.sites ==>
              (Visited(f.sites[v], b, |f.blocks[b].phis|, |f.blocks[b].body|) <==> Visited(f.sites[v], b + 1, 0, 0))
  {
    forall v | v in f.sites
      ensures Visited(f.sites[v], b, |f.blocks[b].phis|, |f.blocks[b].body|) <==> Visited(f.sites[v], b + 1, 0, 0)
    {
      assert Defines(f, f.sites[v], v);
    }
  }

  // ----- Which place is chosen --------------------------------------------------------------

  // Some value has register r.
  ghost predicate Given(alloc: map<nat, Loc>, r: nat) {
    exists u :: u in alloc && alloc[u] == Reg(r)
  }

  // Register r has been given to values, and they are all dead at position k of block b.
  ghost predicate FreeAt(f: Function, alloc: map<nat, Loc>, b: nat, k: nat, r: nat) {
    Given(alloc, r) && forall u :: u in alloc && alloc[u] == Reg(r) ==> DeadAt(f, u, b, k)
  }

  // u is defined before v.
  ghost predicate Earlier(f: Function, u: nat, v: nat) {
    u in f.sites && v in f.sites &&
    match f.sites[v]
    case Param(i) => f.sites[u].Param? && f.sites[u].i < i
    case PhiAt(b, i) => Visited(f.sites[u], b, i, 0)
    case InstAt(b, k) => b < |f.blocks| && Visited(f.sites[u], b, |f.blocks[b].phis|, k)
  }

  // The places of the values defined before v.
  ghost function Before(f: Function, alloc: map<nat, Loc>, v: nat): map<nat, Loc> {
    map u | u in alloc && Earlier(f, u, v) :: alloc[u]
  }

  // The place chosen for v when others have theirs. An instruction's value gets a register that is free, if
  // any is; else v gets a register that no other has had, or, when R8 to R229 have all been given, a slot.
  ghost predicate WellChosen(f: Function, others: map<nat, Loc>, v: nat, l: Loc)
    requires v in f.sites
  {
    var site := f.sites[v];
    if site.InstAt? && exists r: nat :: FreeAt(f, others, site.b, site.k, r) then
      l.Reg? && FreeAt(f, others, site.b, site.k, l.r)
    else
      match l
      case Reg(r) => !Given(others, r)
      case Slot(_) => l !in others.Values && forall r: nat :: 8 <= r < 230 ==> Given(others, r)
  }

  ghost predicate ChosenFor(f: Function, alloc: map<nat, Loc>, v: nat) {
    v in f.sites && v in alloc && WellChosen(f, Before(f, alloc, v), v, alloc[v])
  }

  ghost predicate AllChosen(f: Function, alloc: map<nat, Loc>) {
    forall v :: v in alloc ==> ChosenFor(f, alloc, v)
  }

  // The registers given are R8 and those after it, up to the highest.
  ghost predicate AllGiven(alloc: map<nat, Loc>, next: nat) {
    forall r: nat :: 8 <= r < next ==> Given(alloc, r)
  }

  // v is defined after everything placed.
  ghost predicate Latest(f: Function, alloc: map<nat, Loc>, v: nat) {
    v in f.sites && v !in alloc && !Earlier(f, v, v) && forall u :: u in alloc ==> Earlier(f, u, v) && !Earlier(f, v, u)
  }

  // A choice stands when a later value is placed.
  lemma ChosenKept(f: Function, alloc: map<nat, Loc>, v: nat, l: Loc)
    requires AllChosen(f, alloc) && Latest(f, alloc, v) && WellChosen(f, alloc, v, l)
    ensures AllChosen(f, alloc[v := l])
  {
    var more := alloc[v := l];
    forall u | u in more ensures ChosenFor(f, more, u) {
      if u == v {
        assert Before(f, more, v) == alloc;
      } else {
        assert ChosenFor(f, alloc, u);
        assert Before(f, more, u) == Before(f, alloc, u);
      }
    }
  }

  lemma GivenKept(alloc: map<nat, Loc>, next: nat, v: nat, l: Loc)
    requires AllGiven(alloc, next) && v !in alloc
    ensures AllGiven(alloc[v := l], next) && (l == Reg(next) ==> AllGiven(alloc[v := l], next + 1))
  {
    var more := alloc[v := l];
    forall r: nat | 8 <= r < next ensures Given(more, r) {
      assert Given(alloc, r);
      var u :| u in alloc && alloc[u] == Reg(r);
      assert more[u] == Reg(r);
    }
    if l == Reg(next) { assert more[v] == Reg(next); }
  }

  // The pool is exactly the registers that are free.
  ghost predicate PoolIs(f: Function, alloc: map<nat, Loc>, pool: seq<nat>, b: nat, k: nat) {
    forall r: nat :: r in pool <==> FreeAt(f, alloc, b, k, r)
  }

  // Nothing is free at the beginning of a block.
  lemma NoneFree(f: Function, alloc: map<nat, Loc>, b: nat)
    ensures PoolIs(f, alloc, [], b, 0)
  {
  }

  // Placing the value that the instruction defines frees nothing, and takes its register out of the pool.
  lemma PoolAfter(f: Function, alloc: map<nat, Loc>, pool: seq<nat>, b: nat, k: nat, v: nat, l: Loc, pool': seq<nat>)
    requires PoolIs(f, alloc, pool, b, k) && v !in alloc && v in f.sites && f.sites[v] == InstAt(b, k)
    requires forall r: nat :: r in pool' <==> r in pool && l != Reg(r)
    ensures PoolIs(f, alloc[v := l], pool', b, k)
  {
    var more := alloc[v := l];
    forall r: nat ensures r in pool' <==> FreeAt(f, more, b, k, r) {
      if l == Reg(r) {
        assert more[v] == Reg(r) && !DeadAt(f, v, b, k);
      } else {
        SameOwners(alloc, more, v, r);
        assert FreeAt(f, more, b, k, r) <==> FreeAt(f, alloc, b, k, r);
      }
    }
  }

  lemma SameOwners(alloc: map<nat, Loc>, more: map<nat, Loc>, v: nat, r: nat)
    requires v !in alloc && v in more && more == alloc[v := more[v]] && more[v] != Reg(r)
    ensures forall u :: u in more && more[u] == Reg(r) <==> u in alloc && alloc[u] == Reg(r)
    ensures Given(more, r) <==> Given(alloc, r)
  {
    if Given(alloc, r) {
      var u :| u in alloc && alloc[u] == Reg(r);
      assert more[u] == Reg(r);
    }
  }

  // Register r is that of operand m.
  ghost predicate Holds(f: Function, alloc: map<nat, Loc>, b: nat, k: nat, m: nat, r: nat)
    requires b < |f.blocks| && k < |f.blocks[b].body|
  {
    && m < |f.blocks[b].body[k].args|
    && var o := f.blocks[b].body[k].args[m]; o.Val? && o.v in alloc && alloc[o.v] == Reg(r)
  }

  // What an instruction frees is the register of one of its operands.
  lemma NewlyFree(f: Function, alloc: map<nat, Loc>, pool: seq<nat>, b: nat, k: nat, r: nat) returns (m: nat)
    requires WellFormed(f) && b < |f.blocks| && k < |f.blocks[b].body| && PoolIs(f, alloc, pool, b, k)
    requires FreeAt(f, alloc, b, k + 1, r) && r !in pool
    ensures Holds(f, alloc, b, k, m, r)
  {
    assert !FreeAt(f, alloc, b, k, r);
    var u :| u in alloc && alloc[u] == Reg(r) && !DeadAt(f, u, b, k);
    DiesHere(f, u, b, k);
    m :| 0 <= m < |f.blocks[b].body[k].args| && f.blocks[b].body[k].args[m] == Val(u);
  }

  lemma DiesHere(f: Function, u: nat, b: nat, k: nat)
    requires WellFormed(f) && b < |f.blocks| && k < |f.blocks[b].body| && DeadAt(f, u, b, k + 1) && !DeadAt(f, u, b, k)
    ensures UsedAt(f.blocks[b], k, u)
  {
    if f.sites[u].k == k { NotDeadAtOnce(f, u, b, k); }
  }

  // A value is not dead right after the instruction that defines it.
  lemma NotDeadAtOnce(f: Function, v: nat, b: nat, k: nat)
    requires WellFormed(f) && v in f.sites && f.sites[v] == InstAt(b, k)
    ensures !DeadAt(f, v, b, k + 1)
  {
    if DeadAt(f, v, b, k + 1) {
      var c, j :| 0 <= c < |f.blocks| && 0 <= j <= |f.blocks[c].body| && UsedAt(f.blocks[c], j, v);
      UseIsReached(f, v, c, j);
    }
  }

  // What is dead stays dead.
  lemma DeadStays(f: Function, v: nat, b: nat, k: nat)
    requires DeadAt(f, v, b, k) && b < |f.blocks| && k < |f.blocks[b].body|
    ensures DeadAt(f, v, b, k + 1)
  {
  }

  // What is pooled is free, and what is free is pooled or the register of an operand from the n-th on.
  ghost predicate PoolUpTo(f: Function, alloc: map<nat, Loc>, pool: seq<nat>, b: nat, k: nat, n: nat)
    requires b < |f.blocks| && k < |f.blocks[b].body|
  {
    && (forall r: nat :: r in pool ==> FreeAt(f, alloc, b, k + 1, r))
    && forall r: nat :: FreeAt(f, alloc, b, k + 1, r) ==> r in pool || exists m: nat :: n <= m && Holds(f, alloc, b, k, m, r)
  }

  lemma PoolStarts(f: Function, alloc: map<nat, Loc>, pool: seq<nat>, b: nat, k: nat)
    requires WellFormed(f) && b < |f.blocks| && k < |f.blocks[b].body| && PoolIs(f, alloc, pool, b, k)
    ensures PoolUpTo(f, alloc, pool, b, k, 0)
  {
    forall r: nat | r in pool ensures FreeAt(f, alloc, b, k + 1, r) {
      assert FreeAt(f, alloc, b, k, r);
    }
    forall r: nat | FreeAt(f, alloc, b, k + 1, r) && r !in pool ensures exists m: nat :: 0 <= m && Holds(f, alloc, b, k, m, r) {
      var m := NewlyFree(f, alloc, pool, b, k, r);
    }
  }

  // Operand n is done with: its register is pooled if it is free.
  ghost predicate Dealt(f: Function, alloc: map<nat, Loc>, pool: seq<nat>, pool': seq<nat>, b: nat, k: nat, n: nat)
    requires b < |f.blocks| && k < |f.blocks[b].body| && n < |f.blocks[b].body[k].args|
  {
    && (forall q :: q in pool ==> q in pool')
    && (forall r: nat :: r in pool' && r !in pool ==> Holds(f, alloc, b, k, n, r) && FreeAt(f, alloc, b, k + 1, r))
    && forall r: nat :: Holds(f, alloc, b, k, n, r) && FreeAt(f, alloc, b, k + 1, r) ==> r in pool'
  }

  lemma OneOperandMore(f: Function, alloc: map<nat, Loc>, pool: seq<nat>, pool': seq<nat>, b: nat, k: nat, n: nat)
    requires b < |f.blocks| && k < |f.blocks[b].body| && n < |f.blocks[b].body[k].args|
    requires PoolUpTo(f, alloc, pool, b, k, n) && Dealt(f, alloc, pool, pool', b, k, n)
    ensures PoolUpTo(f, alloc, pool', b, k, n + 1)
  {
    forall r: nat | FreeAt(f, alloc, b, k + 1, r) && r !in pool' ensures exists m: nat :: n + 1 <= m && Holds(f, alloc, b, k, m, r) {
      var m: nat :| n <= m && Holds(f, alloc, b, k, m, r);
    }
  }

  lemma NoOperandLeft(f: Function, alloc: map<nat, Loc>, pool: seq<nat>, b: nat, k: nat)
    requires b < |f.blocks| && k < |f.blocks[b].body| && PoolUpTo(f, alloc, pool, b, k, |f.blocks[b].body[k].args|)
    ensures PoolIs(f, alloc, pool, b, k + 1)
  {
  }

  // An operand's register that is free afterwards: it was the operand's last use, and the result has another.
  lemma FreedIff(f: Function, alloc: map<nat, Loc>, b: nat, k: nat, n: nat)
    requires WellFormed(f) && b < |f.blocks| && k < |f.blocks[b].body| && n < |f.blocks[b].body[k].args|
    ensures var o, dst := f.blocks[b].body[k].args[n], f.blocks[b].body[k].dst;
            forall r: nat :: Holds(f, alloc, b, k, n, r) && FreeAt(f, alloc, b, k + 1, r) ==>
              && BlockLocal(f, o.v) && f.sites[o.v].b == b && LastUse(f.blocks[b], k, o.v)
              && !(dst.Some? && dst.value in alloc && alloc[dst.value] == Reg(r))
  {
    var dst := f.blocks[b].body[k].dst;
    if dst.Some? {
      assert f.sites[dst.value] == InstAt(b, k);
      NotDeadAtOnce(f, dst.value, b, k);
    }
  }

  // What instruction k defines is what is visited next.
  lemma OneInstMore(f: Function, b: nat, k: nat)
    requires WellFormed(f) && b < |f.blocks| && k < |f.blocks[b].body|
    ensures var dst, n := f.blocks[b].body[k].dst, |f.blocks[b].phis|;
            && (dst.Some? ==> dst.value in f.sites && f.sites[dst.value] == InstAt(b, k))
            && forall v :: v in f.sites ==> (Visited(f.sites[v], b, n, k + 1) <==> Visited(f.sites[v], b, n, k) || dst == Some(v))
  {
    var dst := f.blocks[b].body[k].dst;
    forall v | v in f.sites && f.sites[v] == InstAt(b, k) ensures dst == Some(v) {
      assert Defines(f, f.sites[v], v);
    }
  }

  // A new place that only dead values have had does not interfere.
  lemma InterferenceKept(f: Function, alloc: map<nat, Loc>, v: nat, l: Loc)
    requires NoInterference(f, alloc) && v !in alloc && forall u :: u in alloc && alloc[u] == l ==> DeadBefore(f, u, v)
    ensures NoInterference(f, alloc[v := l])
  {
  }

  // The first n parameters have R8 and the registers after it.
  ghost predicate ParamsIn(f: Function, alloc: map<nat, Loc>, n: nat) {
    && (forall v :: v in alloc <==> v in f.sites && f.sites[v].Param? && f.sites[v].i < n)
    && (forall v :: v in alloc ==> alloc[v] == Reg(8 + f.sites[v].i))
    && AllChosen(f, alloc) && AllGiven(alloc, 8 + n)
  }

  lemma OneParamMore(f: Function, alloc: map<nat, Loc>, n: nat)
    requires WellFormed(f) && n < |f.params| && ParamsIn(f, alloc, n)
    ensures ParamsIn(f, alloc[f.params[n] := Reg(8 + n)], n + 1)
  {
    ChosenKept(f, alloc, f.params[n], Reg(8 + n));
    GivenKept(alloc, 8 + n, f.params[n], Reg(8 + n));
    ParamsMore(f, alloc, n);
  }

  lemma ParamsMore(f: Function, alloc: map<nat, Loc>, n: nat)
    requires WellFormed(f) && n < |f.params|
    requires forall v :: v in alloc <==> v in f.sites && f.sites[v].Param? && f.sites[v].i < n
    requires forall v :: v in alloc ==> alloc[v] == Reg(8 + f.sites[v].i)
    ensures var more := alloc[f.params[n] := Reg(8 + n)];
            && (forall v :: v in more <==> v in f.sites && f.sites[v].Param? && f.sites[v].i < n + 1)
            && forall v :: v in more ==> more[v] == Reg(8 + f.sites[v].i)
  {
    forall v | v in f.sites && f.sites[v] == Param(n) ensures v == f.params[n] {
      assert Defines(f, f.sites[v], v);
    }
  }

  lemma ParamsDone(f: Function, alloc: map<nat, Loc>)
    requires WellFormed(f) && ParamsIn(f, alloc, |f.params|)
    ensures NoInterference(f, alloc) && WithinBounds(alloc, 8 + |f.params|, 0)
    ensures forall v :: v in alloc <==> v in f.sites && Visited(f.sites[v], 0, 0, 0)
  {
    forall v | v in f.sites && f.sites[v].Param? ensures v == f.params[f.sites[v].i] && f.sites[v].i < |f.params| {
      assert Defines(f, f.sites[v], v);
    }
  }

  // A pooled register, else the next, else a slot.
  lemma PlacedThriftily(f: Function, alloc: map<nat, Loc>, pool: seq<nat>, next: nat, slots: nat, v: nat, l: Loc, next': nat, pool': seq<nat>)
    requires AllChosen(f, alloc) && AllGiven(alloc, next) && WithinBounds(alloc, next, slots) && Latest(f, alloc, v)
    requires f.sites[v].InstAt? ==> PoolIs(f, alloc, pool, f.sites[v].b, f.sites[v].k)
    requires forall i, j :: 0 <= i < j < |pool| ==> pool[i] != pool[j]
    requires if f.sites[v].InstAt? && pool != [] then l == Reg(pool[|pool| - 1]) && pool' == pool[..|pool| - 1] && next' == next
             else pool == pool' == [] && if next < 230 then l == Reg(next) && next' == next + 1 else l == Slot(slots) && next' == next
    ensures AllChosen(f, alloc[v := l]) && AllGiven(alloc[v := l], next')
    ensures f.sites[v].InstAt? ==> PoolIs(f, alloc[v := l], pool', f.sites[v].b, f.sites[v].k)
  {
    ChoiceIsRight(f, alloc, pool, next, slots, v, l);
    ChosenKept(f, alloc, v, l);
    GivenKept(alloc, next, v, l);
    if f.sites[v].InstAt? {
      if pool != [] { LastTaken(pool, pool'); }
      PoolAfter(f, alloc, pool, f.sites[v].b, f.sites[v].k, v, l, pool');
    }
  }

  lemma LastTaken(pool: seq<nat>, pool': seq<nat>)
    requires pool != [] && pool' == pool[..|pool| - 1] && forall i, j :: 0 <= i < j < |pool| ==> pool[i] != pool[j]
    ensures forall r: nat :: r in pool' <==> r in pool && r != pool[|pool| - 1]
  {
    forall r: nat | r in pool && r != pool[|pool| - 1] ensures r in pool' {
      var i :| 0 <= i < |pool| && pool[i] == r;
      assert pool'[i] == r;
    }
  }

  lemma ChoiceIsRight(f: Function, alloc: map<nat, Loc>, pool: seq<nat>, next: nat, slots: nat, v: nat, l: Loc)
    requires AllGiven(alloc, next) && WithinBounds(alloc, next, slots) && v in f.sites
    requires f.sites[v].InstAt? ==> PoolIs(f, alloc, pool, f.sites[v].b, f.sites[v].k)
    requires if f.sites[v].InstAt? && pool != [] then l == Reg(pool[|pool| - 1])
             else pool == [] && if next < 230 then l == Reg(next) else l == Slot(slots)
    ensures WellChosen(f, alloc, v, l)
  {
    if f.sites[v].InstAt? && pool != [] {
      assert l.r in pool;
      assert FreeAt(f, alloc, f.sites[v].b, f.sites[v].k, l.r);
    }
  }

  // The next definition in program order is the latest.
  lemma LatestPhi(f: Function, alloc: map<nat, Loc>, v: nat, b: nat, i: nat)
    requires v in f.sites && f.sites[v] == PhiAt(b, i) && forall u :: u in alloc <==> u in f.sites && Visited(f.sites[u], b, i, 0)
    ensures Latest(f, alloc, v)
  {
  }

  lemma LatestInst(f: Function, alloc: map<nat, Loc>, v: nat, b: nat, k: nat)
    requires WellFormed(f) && b < |f.blocks| && v in f.sites && f.sites[v] == InstAt(b, k)
    requires forall u :: u in alloc <==> u in f.sites && Visited(f.sites[u], b, |f.blocks[b].phis|, k)
    ensures Latest(f, alloc, v)
  {
    forall u | u in alloc ensures !Earlier(f, v, u) {
      assert Defines(f, f.sites[u], u);
    }
  }

  // A pool has room for every register.
  lemma {:induction false} PoolSmall(pool: seq<nat>, next: nat)
    requires forall i, j :: 0 <= i < j < |pool| ==> pool[i] != pool[j]
    requires forall i :: 0 <= i < |pool| ==> 8 <= pool[i] < next
    ensures pool != [] ==> |pool| <= next - 8
    decreases next
  {
    if pool != [] {
      assert pool[0] < next;
      if next - 1 in pool {
        var i :| 0 <= i < |pool| && pool[i] == next - 1;
        PoolSmall(pool[..i] + pool[i + 1..], next - 1);
      } else {
        PoolSmall(pool, next - 1);
      }
    }
  }

  // Only parameters are given registers above R229.
  function Ceiling(f: Function): nat {
    if 8 + |f.params| > MAX_SSA_REG + 1 then 8 + |f.params| else MAX_SSA_REG + 1
  }

  // The phis and instructions of the first n blocks.
  function DefCount(f: Function, n: nat): nat
    requires n <= |f.blocks|
  {
    if n == 0 then 0 else DefCount(f, n - 1) + |f.blocks[n - 1].phis| + |f.blocks[n - 1].body|
  }

  class Allocator {
    var freeList: seq<nat>
    var nextReg: nat
    var alloc: map<nat, Loc>
    var spillCount: nat
    var hadError: bool

    constructor ()
      ensures freeList == [] && nextReg == 8 && alloc == map[] && spillCount == 0 && !hadError
    {
      freeList, nextReg, alloc, spillCount, hadError := [], 8, map[], 0, false;
    }

    ghost predicate Valid(f: Function)
      reads this
    {
      && NoInterference(f, alloc) && WithinBounds(alloc, nextReg, spillCount)
      && 8 <= nextReg <= MAX_EMIT_REG + 1
    }

    // No more registers than there may be.
    ghost predicate Bounded(f: Function)
      reads this
    {
      nextReg <= Ceiling(f)
    }

    // The pool holds distinct registers, none of which carries a value that is live at
    // or after position k of block b.
    ghost predicate PoolDead(f: Function, b: nat, k: nat)
      reads this
    {
      && (forall i, j :: 0 <= i < j < |freeList| ==> freeList[i] != freeList[j])
      && (forall i :: 0 <= i < |freeList| ==> 8 <= freeList[i] < nextReg)
      && (forall i, v :: 0 <= i < |freeList| && v in alloc && alloc[v] == Reg(freeList[i]) ==> DeadAt(f, v, b, k))
    }

    // Places have been chosen as they should be.
    ghost predicate Thrifty(f: Function)
      reads this
    {
      AllChosen(f, alloc) && AllGiven(alloc, nextReg)
    }

    // Exactly the values defined so far are placed.
    ghost predicate Placed(f: Function, b: nat, i: nat, k: nat)
      reads this
    {
      forall v :: v in alloc <==> v in f.sites && Visited(f.sites[v], b, i, k)
    }

    // A register for a parameter: the next one, up to the end of the scratch window.
    method AllocReg() returns (r: nat)
      requires freeList == []
      modifies this`nextReg, this`hadError
      ensures old(nextReg) > MAX_EMIT_REG ==> hadError && nextReg == old(nextReg)
      ensures old(nextReg) <= MAX_EMIT_REG ==>
                r == old(nextReg) && nextReg == r + 1 && hadError == old(hadError)
    {
      if nextReg > MAX_EMIT_REG {
        hadError := true;
        return 0;
      }
      r := nextReg;
      nextReg := nextReg + 1;
    }

    // A place for the value an instruction or phi defines: a pooled register, else the
    // next register up to R229, else a fresh spill slot.
    method PreAllocDef(f: Function, v: nat, ghost b: nat, ghost k: nat)
      requires Valid(f) && v !in alloc && v in f.sites
      requires freeList != [] ==> f.sites[v] == InstAt(b, k)
      requires PoolDead(f, b, k)
      requires Bounded(f)
      requires Latest(f, alloc, v) && Thrifty(f) && (f.sites[v].InstAt? ==> f.sites[v] == InstAt(b, k) && PoolIs(f, alloc, freeList, b, k))
      modifies this`freeList, this`nextReg, this`alloc, this`spillCount
      ensures Thrifty(f) && (f.sites[v].InstAt? ==> PoolIs(f, alloc, freeList, b, k))
      ensures spillCount <= old(spillCount) + 1
      ensures Bounded(f)
      ensures Valid(f) && PoolDead(f, b, k)
      ensures alloc.Keys == old(alloc.Keys) + {v}
      ensures forall u :: u in old(alloc) ==> alloc[u] == old(alloc)[u]
      ensures forall i :: 0 <= i < |freeList| ==> Reg(freeList[i]) != alloc[v]
      ensures old(freeList) == [] ==> freeList == []
    {
      ghost var was, pool := alloc, freeList;
      if |freeList| > 0 {
        var r := freeList[|freeList| - 1];
        freeList := freeList[..|freeList| - 1];
        InterferenceKept(f, alloc, v, Reg(r));
        alloc := alloc[v := Reg(r)];
      } else if nextReg <= MAX_SSA_REG {
        InterferenceKept(f, alloc, v, Reg(nextReg));
        alloc := alloc[v := Reg(nextReg)];
        nextReg := nextReg + 1;
      } else {
        InterferenceKept(f, alloc, v, Slot(spillCount));
        alloc := alloc[v := Slot(spillCount)];
        spillCount := spillCount + 1;
      }
      PlacedThriftily(f, was, pool, old(nextReg), old(spillCount), v, alloc[v], nextReg, freeList);
    }

    // Pools a register unless it is pooled already.
    method FreeReg(f: Function, r: nat, ghost b: nat, ghost k: nat)
      requires PoolDead(f, b, k) && 8 <= r < nextReg <= MAX_EMIT_REG + 1
      requires forall v :: v in alloc && alloc[v] == Reg(r) ==> DeadAt(f, v, b, k)
      modifies this`freeList
      ensures PoolDead(f, b, k) && forall q :: q in freeList <==> q in old(freeList) || q == r
    {
      PoolSmall(freeList, nextReg);
      for i := 0 to |freeList|
        invariant r !in freeList[..i]
      {
        if freeList[i] == r {
          return;
        }
      }
      if |freeList| < 256 {
        freeList := freeList + [r];
      }
    }

    // Returns the registers of the operands whose last use is instruction k, except one
    // the instruction's own result now owns.
    method FreeOperands(f: Function, b: nat, k: nat)
      requires WellFormed(f) && b < |f.blocks| && k < |f.blocks[b].body|
      requires Valid(f) && PoolDead(f, b, k + 1) && Placed(f, b, |f.blocks[b].phis|, k + 1)
      requires PoolIs(f, alloc, freeList, b, k)
      modifies this`freeList
      ensures PoolDead(f, b, k + 1) && PoolIs(f, alloc, freeList, b, k + 1)
    {
      PoolStarts(f, alloc, freeList, b, k);
      for n := 0 to |f.blocks[b].body[k].args|
        invariant PoolDead(f, b, k + 1) && PoolUpTo(f, alloc, freeList, b, k, n)
      {
        ghost var pool := freeList;
        FreeOperand(f, b, k, n);
        OneOperandMore(f, alloc, pool, freeList, b, k, n);
      }
      NoOperandLeft(f, alloc, freeList, b, k);
    }

    method FreeOperand(f: Function, b: nat, k: nat, n: nat)
      requires WellFormed(f) && b < |f.blocks| && k < |f.blocks[b].body| && n < |f.blocks[b].body[k].args|
      requires Valid(f) && PoolDead(f, b, k + 1) && Placed(f, b, |f.blocks[b].phis|, k + 1)
      modifies this`freeList
      ensures PoolDead(f, b, k + 1) && Dealt(f, alloc, old(freeList), freeList, b, k, n)
    {
      var blk := f.blocks[b];
      var dst := blk.body[k].dst;
      var o := blk.body[k].args[n];
      FreedIff(f, alloc, b, k, n);
      if o.Val? && o.v in alloc && BlockLocal(f, o.v) && f.sites[o.v].b == b && LastUse(blk, k, o.v) {
        var place := alloc[o.v];
        if place.Reg? && !(dst.Some? && dst.value in alloc && alloc[dst.value] == place) {
          assert o in OperandsAt(blk, k);
          OwnerIsDead(f, b, k, o.v);
          FreeReg(f, place.r, b, k + 1);
        }
      }
    }

    // Whatever else carries the register of an operand at its last use is dead too.
    lemma OwnerIsDead(f: Function, b: nat, k: nat, v: nat)
      requires WellFormed(f) && b < |f.blocks| && k < |f.blocks[b].body|
      requires Valid(f) && Placed(f, b, |f.blocks[b].phis|, k + 1)
      requires v in alloc && BlockLocal(f, v) && f.sites[v].b == b
      requires UsedAt(f.blocks[b], k, v) && LastUse(f.blocks[b], k, v)
      ensures forall u :: u in alloc && alloc[u] == alloc[v] ==> DeadAt(f, u, b, k + 1)
    {
      assert OperandsOk(f, b, k);
      assert OperandOk(f, Val(v), b, k);
      assert f.sites[v].k < k;
      forall u | u in alloc && alloc[u] == alloc[v] && u != v
        ensures DeadAt(f, u, b, k + 1)
      {
        // v cannot be dead before u, which is defined at k or earlier: k uses v.
        assert DeadBefore(f, u, v) || DeadBefore(f, v, u);
      }
    }

    method PreAllocParams(f: Function)
      requires WellFormed(f)
      requires freeList == [] && nextReg == 8 && alloc == map[] && spillCount == 0 && !hadError
      modifies this
      ensures !hadError ==> spillCount == 0
      ensures !hadError ==> Bounded(f)
      ensures hadError <==> |f.params| > 245
      ensures nextReg <= MAX_EMIT_REG + 1
      ensures !hadError ==> Valid(f) && Placed(f, 0, 0, 0) && Thrifty(f)
    {
      for i := 0 to |f.params|
        invariant freeList == [] && nextReg == 8 + i <= MAX_EMIT_REG + 1 && !hadError && spillCount == 0
        invariant ParamsIn(f, alloc, i) && i <= 245
      {
        PreAllocParam(f, i);
        if hadError {
          return;
        }
      }
      ParamsDone(f, alloc);
    }

    method PreAllocParam(f: Function, i: nat)
      requires WellFormed(f) && i < |f.params| && ParamsIn(f, alloc, i)
      requires freeList == [] && nextReg == 8 + i <= MAX_EMIT_REG + 1 && !hadError
      modifies this`nextReg, this`hadError, this`alloc
      ensures hadError <==> 8 + i > MAX_EMIT_REG
      ensures if hadError then nextReg == 8 + i else nextReg == 8 + i + 1 && ParamsIn(f, alloc, i + 1)
    {
      var r := AllocReg();
      if !hadError {
        OneParamMore(f, alloc, i);
        alloc := alloc[f.params[i] := Reg(r)];
      }
    }

    method PreAllocPhis(f: Function, b: nat)
      requires WellFormed(f) && b < |f.blocks|
      requires Valid(f) && Placed(f, b, 0, 0) && freeList == [] && Thrifty(f)
      requires Bounded(f)
      modifies this`freeList, this`nextReg, this`alloc, this`spillCount
      ensures Thrifty(f)
      ensures spillCount <= old(spillCount) + |f.blocks[b].phis|
      ensures Bounded(f)
      ensures Valid(f) && Placed(f, b, |f.blocks[b].phis|, 0) && freeList == []
    {
      for i := 0 to |f.blocks[b].phis|
        invariant Valid(f) && Placed(f, b, i, 0) && freeList == [] && Bounded(f) && spillCount <= old(spillCount) + i
        invariant Thrifty(f)
      {
        assert f.sites[f.blocks[b].phis[i].dst] == PhiAt(b, i);
        LatestPhi(f, alloc, f.blocks[b].phis[i].dst, b, i);
        PreAllocDef(f, f.blocks[b].phis[i].dst, b, 0);
      }
    }

    method PreAllocBlock(f: Function, b: nat)
      requires WellFormed(f) && b < |f.blocks|
      requires Valid(f) && Placed(f, b, 0, 0) && Thrifty(f)
      requires Bounded(f)
      modifies this`freeList, this`nextReg, this`alloc, this`spillCount
      ensures Thrifty(f)
      ensures spillCount <= old(spillCount) + |f.blocks[b].phis| + |f.blocks[b].body|
      ensures Bounded(f)
      ensures Valid(f) && Placed(f, b + 1, 0, 0)
    {
      freeList := [];
      PreAllocPhis(f, b);
      var blk := f.blocks[b];
      NoneFree(f, alloc, b);
      for k := 0 to |blk.body|
        invariant Thrifty(f) && PoolIs(f, alloc, freeList, b, k)
        invariant Valid(f) && Placed(f, b, |blk.phis|, k) && PoolDead(f, b, k) && Bounded(f)
        invariant spillCount <= old(spillCount) + |blk.phis| + k
      {
        PreAllocInst(f, b, k);
      }
      AllVisited(f, b);
    }

    method PreAllocInst(f: Function, b: nat, k: nat)
      requires WellFormed(f) && b < |f.blocks| && k < |f.blocks[b].body|
      requires Valid(f) && Placed(f, b, |f.blocks[b].phis|, k) && PoolDead(f, b, k)
      requires Bounded(f) && Thrifty(f) && PoolIs(f, alloc, freeList, b, k)
      modifies this`freeList, this`nextReg, this`alloc, this`spillCount
      ensures Thrifty(f) && PoolIs(f, alloc, freeList, b, k + 1)
      ensures spillCount <= old(spillCount) + 1
      ensures Bounded(f)
      ensures Valid(f) && Placed(f, b, |f.blocks[b].phis|, k + 1) && PoolDead(f, b, k + 1)
    {
      PlaceResult(f, b, k);
      FreeOperands(f, b, k);
    }

    method PlaceResult(f: Function, b: nat, k: nat)
      requires WellFormed(f) && b < |f.blocks| && k < |f.blocks[b].body|
      requires Valid(f) && Placed(f, b, |f.blocks[b].phis|, k) && PoolDead(f, b, k)
      requires Bounded(f) && Thrifty(f) && PoolIs(f, alloc, freeList, b, k)
      modifies this`freeList, this`nextReg, this`alloc, this`spillCount
      ensures Thrifty(f) && PoolIs(f, alloc, freeList, b, k)
      ensures spillCount <= old(spillCount) + 1
      ensures Bounded(f)
      ensures Valid(f) && Placed(f, b, |f.blocks[b].phis|, k + 1) && PoolDead(f, b, k + 1)
    {
      var dst := f.blocks[b].body[k].dst;
      OneInstMore(f, b, k);
      if dst.Some? {
        LatestInst(f, alloc, dst.value, b, k);
        PreAllocDef(f, dst.value, b, k);
      }
      PoolStaysDead(f, b, k);
    }

    lemma PoolStaysDead(f: Function, b: nat, k: nat)
      requires b < |f.blocks| && k < |f.blocks[b].body| && PoolDead(f, b, k)
      ensures PoolDead(f, b, k + 1)
    {
    }

    // The whole pass.
    method PreAllocFunction(f: Function)
      requires WellFormed(f)
      requires freeList == [] && nextReg == 8 && alloc == map[] && spillCount == 0 && !hadError
      modifies this
      ensures !hadError ==> alloc.Keys == f.sites.Keys && freeList == []
      ensures !hadError ==> NoInterference(f, alloc) && WithinBounds(alloc, nextReg, spillCount)
      ensures !hadError ==> AllChosen(f, alloc) && AllGiven(alloc, nextReg)
      ensures nextReg <= 253 && (!hadError ==> 8 <= nextReg <= Ceiling(f) && spillCount <= DefCount(f, |f.blocks|))
      ensures hadError <==> |f.params| > 245
    {
      PreAllocParams(f);
      if hadError {
        return;
      }
      for b := 0 to |f.blocks|
        invariant Valid(f) && Placed(f, b, 0, 0) && Bounded(f) && !hadError && spillCount <= DefCount(f, b) && Thrifty(f)
      {
        PreAllocBlock(f, b);
      }
      forall v | v in f.sites
        ensures v in alloc
      {
        assert Defines(f, f.sites[v], v);
      }
      assert alloc.Keys == f.sites.Keys;
      freeList := [];
    }
  }
}
