// What a call must preserve: the registers live after it are stored to a compact area of the
// frame before it and loaded back afterwards.
module CallSaves {
  import opened Machine
  import opened Ssa
  import opened Liveness
  import opened PhiCopy
  import RegAlloc

  // ----- A live value's register is live ---------------------------------------------------------

  lemma ShareOnlyWhenDead(f: Function, a: Homes, v: nat, w: nat)
    requires RegAlloc.NoInterference(f, a.alloc) && RegOf(a, v).Some? && w != v
    requires !RegAlloc.DeadBefore(f, v, w) && !RegAlloc.DeadBefore(f, w, v)
    ensures RegOf(a, w) != RegOf(a, v)
  {
  }

  // Between a position and a use of v nothing else is put into v's register.
  lemma NotOverwritten(f: Function, a: Homes, v: nat, w: nat, b: nat, i: nat, j: nat)
    requires WellFormed(f) && RegAlloc.NoInterference(f, a.alloc) && RegOf(a, v).Some? && w != v
    requires b < |f.blocks| && i < j <= |f.blocks[b].body| && f.blocks[b].body[i].dst == Some(w)
    requires RegAlloc.UsedAt(f.blocks[b], j, v) && !RegAlloc.DefinedWithin(f, v, b, i, j)
    ensures RegOf(a, w) != RegOf(a, v)
  {
    SiteOfResult(f, b, i, w);
    RegAlloc.UseIsReached(f, v, b, j);
    assert !RegAlloc.DeadAt(f, v, b, i);
    ShareOnlyWhenDead(f, a, v, w);
  }

  lemma SiteOfResult(f: Function, b: nat, i: nat, w: nat)
    requires WellFormed(f) && b < |f.blocks| && i < |f.blocks[b].body| && f.blocks[b].body[i].dst == Some(w)
    ensures w in f.sites && f.sites[w] == InstAt(b, i)
  {
    assert f.blocks[b].body[i].dst.Some?;
  }

  // A value that lives on in another block is not block-local.
  lemma ThroughNotLocal(f: Function, v: nat, p: seq<nat>, k: nat)
    requires WellFormed(f) && RegAlloc.LiveAlong(f, v, p, k) && |p| >= 2
    ensures !RegAlloc.BlockLocal(f, v)
  {
    if RegAlloc.BlockLocal(f, v) {
      if |p| == 2 && RegAlloc.PhiReads(f, p[0], p[1], v) {
        RegAlloc.PhiReadUses(f, p[0], p[1], v);
      } else {
        RegAlloc.NotLiveAtEntry(f, v, p[1..]);
      }
    }
  }

  // Nor is anything put into it in a block v lives through.
  lemma NotOverwrittenThrough(f: Function, a: Homes, v: nat, w: nat, p: seq<nat>, k: nat, i: nat)
    requires WellFormed(f) && RegAlloc.NoInterference(f, a.alloc) && RegOf(a, v).Some? && w != v
    requires RegAlloc.LiveAlong(f, v, p, k) && |p| >= 2
    requires k <= i < |f.blocks[p[0]].body| && f.blocks[p[0]].body[i].dst == Some(w)
    ensures RegOf(a, w) != RegOf(a, v)
  {
    SiteOfResult(f, p[0], i, w);
    ThroughNotLocal(f, v, p, k);
    if v in f.sites && f.sites[v].InstAt? {
      SiteInside(f, v);
    }
    ShareOnlyWhenDead(f, a, v, w);
  }

  lemma SiteInside(f: Function, v: nat)
    requires WellFormed(f) && v in f.sites && f.sites[v].InstAt?
    ensures f.sites[v].b < |f.blocks| && f.sites[v].k < |f.blocks[f.sites[v].b].body|
  {
    assert Ssa.Defines(f, f.sites[v], v);
  }

  // Phi results are never block-local, so they share with nothing.
  lemma PhiResultAlone(f: Function, a: Homes, v: nat, s: nat)
    requires WellFormed(f) && RegAlloc.NoInterference(f, a.alloc) && s < |f.blocks|
    requires RegOf(a, v).Some? && !RegAlloc.PhiWrites(f, s, v) && !RegAlloc.BlockLocal(f, v)
    ensures !PhiWritesReg(f, a, s, RegOf(a, v).value)
  {
  }

  // Wherever a walk keeps a value live, it keeps the value's register live.
  lemma {:induction false} LiveValueRegister(f: Function, a: Homes, v: nat, p: seq<nat>, k: nat)
    requires WellFormed(f) && RegAlloc.NoInterference(f, a.alloc) && RegOf(a, v).Some?
    requires RegAlloc.LiveAlong(f, v, p, k)
    ensures Liveness.LiveAlong(f, a, RegOf(a, v).value, p, k)
    decreases |p|
  {
    var r, blk := RegOf(a, v).value, f.blocks[p[0]];
    if |p| == 1 {
      var j: nat :| k <= j <= |blk.body| && RegAlloc.UsedAt(blk, j, v) && !RegAlloc.DefinedWithin(f, v, p[0], k, j);
      UseIsRead(a, blk, j, v);
      forall i: nat | k <= i < j
        ensures DefAt(a, blk, i) != Some(r)
      {
        if blk.body[i].dst.Some? && blk.body[i].dst.value != v {
          NotOverwritten(f, a, v, blk.body[i].dst.value, p[0], i, j);
        }
      }
      assert ReadsFirst(a, blk, k, r);
    } else {
      forall i: nat | k <= i < |blk.body|
        ensures DefAt(a, blk, i) != Some(r)
      {
        if blk.body[i].dst.Some? && blk.body[i].dst.value != v {
          NotOverwrittenThrough(f, a, v, blk.body[i].dst.value, p, k, i);
        }
      }
      assert !DefinedIn(a, blk, r, k, |blk.body|);
      if |p| == 2 && RegAlloc.PhiReads(f, p[0], p[1], v) {
        PhiReadIsRead(f, a, p[0], p[1], v);
      } else {
        ThroughNotLocal(f, v, p, k);
        PhiResultAlone(f, a, v, p[1]);
        LiveValueRegister(f, a, v, p[1..], 0);
      }
    }
  }

  lemma UseIsRead(a: Homes, blk: Block, j: nat, v: nat)
    requires j <= |blk.body| && RegAlloc.UsedAt(blk, j, v) && RegOf(a, v).Some?
    ensures ReadsAt(a, blk, j, RegOf(a, v).value)
  {
    var os := OperandsAt(blk, j);
    var i :| 0 <= i < |os| && os[i] == Val(v);
  }

  lemma PhiReadIsRead(f: Function, a: Homes, p: nat, s: nat, v: nat)
    requires RegAlloc.PhiReads(f, p, s, v) && RegOf(a, v).Some?
    ensures PhiReadsReg(f, a, p, s, RegOf(a, v).value)
  {
    var i :| 0 <= i < |f.blocks[s].phis| && p in f.blocks[s].phis[i].incoming && f.blocks[s].phis[i].incoming[p] == Val(v);
    assert PhiOperandIs(a, f.blocks[s].phis[i], p, RegOf(a, v).value);
  }

  // ----- Snapshots ---------------------------------------------------------------------------------

  // What is live at a position, from what is live out of the block.
  lemma LiveAtBody(f: Function, a: Homes, b: nat, k: nat, r: nat)
    requires b < |f.blocks| && k <= |f.blocks[b].body| + 1
    ensures LiveAt(f, a, b, k, r) <==>
            ReadsFirst(a, f.blocks[b], k, r) ||
            (!DefinedIn(a, f.blocks[b], r, k, |f.blocks[b].body|) && LiveOut(f, a, b, r))
  {
    var blk := f.blocks[b];
    PastEnd(a, blk, r);
    if LiveAt(f, a, b, k, r) {
      var p :| p != [] && p[0] == b && Liveness.LiveAlong(f, a, r, p, k);
      if |p| >= 2 {
        WalkOn(f, a, r, p, k);
      }
    }
    if ReadsFirst(a, blk, k, r) {
      assert Liveness.LiveAlong(f, a, r, [b], k);
    } else if !DefinedIn(a, blk, r, k, |blk.body|) && LiveOut(f, a, b, r) {
      var p :| p != [] && p[0] == b && Liveness.LiveAlong(f, a, r, p, |blk.body| + 1);
      assert Liveness.LiveAlong(f, a, r, p, k);
    }
  }

  lemma LiveAtStep(f: Function, a: Homes, b: nat, k: nat, r: nat)
    requires b < |f.blocks| && k <= |f.blocks[b].body|
    ensures LiveAt(f, a, b, k, r) <==>
            ReadsAt(a, f.blocks[b], k, r) || (LiveAt(f, a, b, k + 1, r) && DefAt(a, f.blocks[b], k) != Some(r))
  {
    LiveAtBody(f, a, b, k, r);
    LiveAtBody(f, a, b, k + 1, r);
    ReadsOneMore(a, f.blocks[b], k, r);
    DefinedSplit(a, f.blocks[b], r, k);
  }

  lemma DefinedSplit(a: Homes, blk: Block, r: nat, k: nat)
    requires k <= |blk.body|
    ensures DefinedIn(a, blk, r, k, |blk.body|) <==>
            DefAt(a, blk, k) == Some(r) || DefinedIn(a, blk, r, k + 1, |blk.body|)
  {
    if DefinedIn(a, blk, r, k + 1, |blk.body|) {
      var j: nat :| k + 1 <= j < |blk.body| && DefAt(a, blk, j) == Some(r);
      assert DefinedIn(a, blk, r, k, |blk.body|);
    }
  }

  // A call instruction and the registers live just after it.
  datatype CallLive = CallLive(b: nat, k: nat, live: set<nat>)

  ghost predicate IsCall(f: Function, calls: set<nat>, b: nat, k: nat) {
    b < |f.blocks| && k < |f.blocks[b].body| && f.blocks[b].body[k].op in calls
  }

  ghost predicate Exact(f: Function, a: Homes, calls: set<nat>, c: CallLive) {
    IsCall(f, calls, c.b, c.k) && forall r: nat :: r in c.live <==> LiveAt(f, a, c.b, c.k + 1, r)
  }

  ghost predicate Listed(lives: seq<CallLive>, b: nat, k: nat) {
    exists i :: 0 <= i < |lives| && lives[i].b == b && lives[i].k == k
  }

  // One exact snapshot for every call.
  ghost predicate Snapshots(f: Function, a: Homes, calls: set<nat>, lives: seq<CallLive>) {
    && (forall i :: 0 <= i < |lives| ==> Exact(f, a, calls, lives[i]))
    && (forall b: nat, k: nat :: IsCall(f, calls, b, k) ==> Listed(lives, b, k))
  }

  // The backward walk over one block.
  method BlockCallLives(f: Function, a: Homes, calls: set<nat>, b: nat, out: set<nat>) returns (lives: seq<CallLive>)
    requires b < |f.blocks| && forall r: nat :: r in out <==> LiveOut(f, a, b, r)
    ensures forall i :: 0 <= i < |lives| ==> Exact(f, a, calls, lives[i])
    ensures forall k: nat :: IsCall(f, calls, b, k) ==> Listed(lives, b, k)
  {
    lives := [];
    var blk := f.blocks[b];
    var live := out;
    var k := |blk.body| + 1;
    while k > 0
      invariant 0 <= k <= |blk.body| + 1
      invariant forall r: nat :: r in live <==> LiveAt(f, a, b, k, r)
      invariant forall i :: 0 <= i < |lives| ==> Exact(f, a, calls, lives[i])
      invariant forall j: nat :: k <= j && IsCall(f, calls, b, j) ==> Listed(lives, b, j)
    {
      k := k - 1;
      if k < |blk.body| && blk.body[k].op in calls {
        ghost var before := lives;
        lives := lives + [CallLive(b, k, live)];
        StillListed(before, CallLive(b, k, live));
      }
      live := Backward(a, blk, k, live);
      forall r: nat
        ensures r in live <==> LiveAt(f, a, b, k, r)
      {
        LiveAtStep(f, a, b, k, r);
      }
    }
  }

  lemma StillListed(lives: seq<CallLive>, c: CallLive)
    ensures Listed(lives + [c], c.b, c.k)
    ensures forall b: nat, k: nat :: Listed(lives, b, k) ==> Listed(lives + [c], b, k)
  {
    var all := lives + [c];
    assert all[|lives|] == c;
    forall b: nat, k: nat | Listed(lives, b, k)
      ensures Listed(all, b, k)
    {
      var i :| 0 <= i < |lives| && lives[i].b == b && lives[i].k == k;
      assert all[i] == lives[i];
    }
  }

  lemma BothListed(l1: seq<CallLive>, l2: seq<CallLive>)
    ensures forall b: nat, k: nat :: Listed(l1, b, k) || Listed(l2, b, k) ==> Listed(l1 + l2, b, k)
  {
    var all := l1 + l2;
    forall b: nat, k: nat | Listed(l1, b, k) || Listed(l2, b, k)
      ensures Listed(all, b, k)
    {
      if Listed(l1, b, k) {
        var i :| 0 <= i < |l1| && l1[i].b == b && l1[i].k == k;
        assert all[i] == l1[i];
      } else {
        var i :| 0 <= i < |l2| && l2[i].b == b && l2[i].k == k;
        assert all[|l1| + i] == l2[i];
      }
    }
  }

  method ComputeCallLiveouts(f: Function, a: Homes, calls: set<nat>, liveOut: array<set<nat>>) returns (lives: seq<CallLive>)
    requires liveOut.Length == |f.blocks|
    requires forall b, r: nat :: 0 <= b < |f.blocks| ==> (r in liveOut[b] <==> LiveOut(f, a, b, r))
    ensures Snapshots(f, a, calls, lives)
  {
    lives := [];
    for b := 0 to |f.blocks|
      invariant forall i :: 0 <= i < |lives| ==> Exact(f, a, calls, lives[i])
      invariant forall c: nat, k: nat :: c < b && IsCall(f, calls, c, k) ==> Listed(lives, c, k)
    {
      var more := BlockCallLives(f, a, calls, b, liveOut[b]);
      BothListed(lives, more);
      lives := lives + more;
    }
  }

  // The call's snapshot; when it is missing, every register that has a slot.
  method LookupCallLive(lives: seq<CallLive>, b: nat, k: nat, ever: set<nat>, ghost f: Function, ghost a: Homes, ghost calls: set<nat>)
    returns (live: set<nat>)
    requires Snapshots(f, a, calls, lives) && IsCall(f, calls, b, k)
    ensures forall r: nat :: r in live <==> LiveAt(f, a, b, k + 1, r)
  {
    live := ever;
    assert Listed(lives, b, k);
    var n := 0;
    while n < |lives| && !(lives[n].b == b && lives[n].k == k)
      invariant 0 <= n <= |lives| && forall m :: 0 <= m < n ==> !(lives[m].b == b && lives[m].k == k)
    {
      n := n + 1;
    }
    if n < |lives| {
      live := lives[n].live;
      assert Exact(f, a, calls, lives[n]);
    }
  }

  // ----- The compact save area ----------------------------------------------------------------------

  // The operations that are calls, and the slot of each register that crosses one.
  datatype Saves = Saves(calls: set<nat>, slotOf: map<nat, nat>, count: nat)

  // Slots are numbered in register order, one for each register that crosses some call.
  ghost predicate SlotsOk(sv: Saves, ever: set<nat>, high: nat) {
    && (forall r :: r in sv.slotOf <==> r in ever && 8 <= r < high)
    && AreaOk(sv) && 8 + sv.count <= high
  }

  // Distinct registers have distinct slots.
  ghost predicate AreaOk(sv: Saves) {
    && sv.count <= 0x100
    && (forall r :: r in sv.slotOf ==> sv.slotOf[r] < sv.count)
    && (forall r, s :: r in sv.slotOf && s in sv.slotOf && r < s ==> sv.slotOf[r] < sv.slotOf[s])
  }

  method AssignSlots(calls: set<nat>, ever: set<nat>, high: nat) returns (sv: Saves)
    requires 8 <= high <= MAX_EMIT_REG + 1
    ensures sv.calls == calls && SlotsOk(sv, ever, high)
  {
    sv := Saves(calls, map[], 0);
    for r := 8 to high
      invariant sv.calls == calls && SlotsOk(sv, ever, r)
    {
      if r in ever {
        sv := Saves(calls, sv.slotOf[r := sv.count], sv.count + 1);
      }
    }
  }

  method EverSpilled(lives: seq<CallLive>) returns (ever: set<nat>)
    ensures forall i :: 0 <= i < |lives| ==> lives[i].live <= ever
    ensures forall r :: r in ever ==> exists i :: 0 <= i < |lives| && r in lives[i].live
  {
    ever := {};
    for n := 0 to |lives|
      invariant forall i :: 0 <= i < n ==> lives[i].live <= ever
      invariant forall r :: r in ever ==> exists i :: 0 <= i < n && r in lives[i].live
    {
      ever := ever + lives[n].live;
    }
  }

  // The save area lies just below the value-spill area.
  function SaveSlot(sv: Saves, r: nat): Loc
    requires AreaOk(sv) && r in sv.slotOf
  {
    Slot(FRAME_WORDS - sv.count + sv.slotOf[r])
  }

  predicate InArea(sv: Saves, l: Loc) {
    l.Slot? && FRAME_WORDS - sv.count <= l.s < FRAME_WORDS
  }

  // Its words lie above the allocas, at the offsets of their slots.
  lemma SaveOffset(sv: Saves, r: nat, allocaBytes: nat)
    requires AreaOk(sv) && r in sv.slotOf && allocaBytes + 4 * sv.count <= TWO_TO_THE_32
    ensures (allocaBytes + 4 * sv.count + 4 * SaveSlot(sv, r).s) % TWO_TO_THE_32 == allocaBytes + 4 * sv.slotOf[r]
  {
  }

  predicate Saved(saved: set<nat>, sv: Saves, r: nat, n: nat) {
    r in saved && r in sv.slotOf && 8 <= r < n
  }

  // Stores of the saved registers below n.
  function SpillCode(saved: set<nat>, sv: Saves, n: nat, frameBase: nat): (code: seq<Instr>)
    requires AreaOk(sv)
    ensures StraightLine(code)
  {
    if n == 0 then []
    else SpillCode(saved, sv, n - 1, frameBase) +
         if Saved(saved, sv, n - 1, n) then WriteFrom(SaveSlot(sv, n - 1), n - 1, frameBase) else []
  }

  // Loads of the same.
  function RestoreCode(saved: set<nat>, sv: Saves, n: nat, frameBase: nat): (code: seq<Instr>)
    requires AreaOk(sv)
    ensures StraightLine(code)
  {
    if n == 0 then []
    else RestoreCode(saved, sv, n - 1, frameBase) +
         if Saved(saved, sv, n - 1, n) then ReadTo(SaveSlot(sv, n - 1), n - 1, frameBase) else []
  }

  lemma NothingBelowEight(saved: set<nat>, sv: Saves, n: nat, frameBase: nat)
    requires AreaOk(sv) && n <= 8
    ensures SpillCode(saved, sv, n, frameBase) == [] && RestoreCode(saved, sv, n, frameBase) == []
  {
    if n > 0 { NothingBelowEight(saved, sv, n - 1, frameBase); }
  }

  // cg_emit_spill
  method EmitSpill(saved: set<nat>, sv: Saves, high: nat, frameBase: nat) returns (code: seq<Instr>)
    requires 8 <= high && AreaOk(sv)
    ensures code == SpillCode(saved, sv, high, frameBase)
  {
    code := [];
    NothingBelowEight(saved, sv, 8, frameBase);
    for r := 8 to high
      invariant code == SpillCode(saved, sv, r, frameBase)
    {
      if r in saved && r in sv.slotOf {
        code := code + WriteFrom(SaveSlot(sv, r), r, frameBase);
      }
    }
  }

  // cg_emit_restore
  method EmitRestore(saved: set<nat>, sv: Saves, high: nat, frameBase: nat) returns (code: seq<Instr>)
    requires 8 <= high && AreaOk(sv)
    ensures code == RestoreCode(saved, sv, high, frameBase)
  {
    code := [];
    NothingBelowEight(saved, sv, 8, frameBase);
    for r := 8 to high
      invariant code == RestoreCode(saved, sv, r, frameBase)
    {
      if r in saved && r in sv.slotOf {
        code := code + ReadTo(SaveSlot(sv, r), r, frameBase);
      }
    }
  }

  // The saved registers below n are in their slots; all but the save area is as it was.
  ghost predicate Spilled(saved: set<nat>, sv: Saves, n: nat, st: State, st1: State)
    requires AreaOk(sv)
  {
    && st1.world == st.world
    && (forall r :: Saved(saved, sv, r, n) ==> st1.Get(SaveSlot(sv, r)) == st.Get(Reg(r)))
    && (forall l :: !InArea(sv, l) && l != Reg(REG_SCRATCH) ==> st1.Get(l) == st.Get(l))
  }

  lemma {:induction false} SpillRuns(saved: set<nat>, sv: Saves, n: nat, st: State, env: Env)
    requires AreaOk(sv) && n <= MAX_EMIT_REG + 1
    ensures Exec(SpillCode(saved, sv, n, env.frameBase), st, env).Some?
    ensures Spilled(saved, sv, n, st, Exec(SpillCode(saved, sv, n, env.frameBase), st, env).value)
  {
    if n > 0 {
      SpillRuns(saved, sv, n - 1, st, env);
      var st1 := Exec(SpillCode(saved, sv, n - 1, env.frameBase), st, env).value;
      if Saved(saved, sv, n - 1, n) {
        var one := WriteFrom(SaveSlot(sv, n - 1), n - 1, env.frameBase);
        WriteFromWrites(SaveSlot(sv, n - 1), n - 1, st1, env);
        ExecAppend(SpillCode(saved, sv, n - 1, env.frameBase), one, st, env);
        OneMoreSpilled(saved, sv, n, st, st1, Exec(one, st1, env).value);
      } else {
        assert SpillCode(saved, sv, n, env.frameBase) == SpillCode(saved, sv, n - 1, env.frameBase);
      }
    }
  }

  lemma OneMoreSpilled(saved: set<nat>, sv: Saves, n: nat, st: State, st1: State, st2: State)
    requires AreaOk(sv) && 0 < n <= MAX_EMIT_REG + 1 && Saved(saved, sv, n - 1, n) && Spilled(saved, sv, n - 1, st, st1)
    requires st2.Get(SaveSlot(sv, n - 1)) == st1.Get(Reg(n - 1))
    requires OnlyChanges(st1, st2, {SaveSlot(sv, n - 1), Reg(REG_SCRATCH)})
    ensures Spilled(saved, sv, n, st, st2)
  {
  }

  // The saved registers below n loaded from their slots, all else as it was.
  ghost predicate Restored(saved: set<nat>, sv: Saves, n: nat, st: State, st1: State)
    requires AreaOk(sv)
  {
    && st1.world == st.world
    && (forall r :: Saved(saved, sv, r, n) ==> st1.Get(Reg(r)) == st.Get(SaveSlot(sv, r)))
    && (forall l: Loc :: !(l.Reg? && Saved(saved, sv, l.r, n)) && l != Reg(REG_SCRATCH) ==> st1.Get(l) == st.Get(l))
  }

  lemma {:induction false} RestoreRuns(saved: set<nat>, sv: Saves, n: nat, st: State, env: Env)
    requires AreaOk(sv) && n <= MAX_EMIT_REG + 1
    ensures Exec(RestoreCode(saved, sv, n, env.frameBase), st, env).Some?
    ensures Restored(saved, sv, n, st, Exec(RestoreCode(saved, sv, n, env.frameBase), st, env).value)
  {
    if n > 0 {
      RestoreRuns(saved, sv, n - 1, st, env);
      var st1 := Exec(RestoreCode(saved, sv, n - 1, env.frameBase), st, env).value;
      if Saved(saved, sv, n - 1, n) {
        var one := ReadTo(SaveSlot(sv, n - 1), n - 1, env.frameBase);
        ReadToReads(SaveSlot(sv, n - 1), n - 1, st1, env);
        ExecAppend(RestoreCode(saved, sv, n - 1, env.frameBase), one, st, env);
        OneMoreRestored(saved, sv, n, st, st1, Exec(one, st1, env).value);
      } else {
        assert RestoreCode(saved, sv, n, env.frameBase) == RestoreCode(saved, sv, n - 1, env.frameBase);
      }
    }
  }

  lemma OneMoreRestored(saved: set<nat>, sv: Saves, n: nat, st: State, st1: State, st2: State)
    requires AreaOk(sv) && 0 < n <= MAX_EMIT_REG + 1 && Saved(saved, sv, n - 1, n) && Restored(saved, sv, n - 1, st, st1)
    requires st2.Get(Reg(n - 1)) == st1.Get(SaveSlot(sv, n - 1))
    requires OnlyChanges(st1, st2, {Reg(n - 1), Reg(REG_SCRATCH)})
    ensures Restored(saved, sv, n, st, st2)
  {
    assert st1.Get(SaveSlot(sv, n - 1)) == st.Get(SaveSlot(sv, n - 1));
    forall r: nat | Saved(saved, sv, r, n)
      ensures st2.Get(Reg(r)) == st.Get(SaveSlot(sv, r))
    {
      if r < n - 1 {
        assert Saved(saved, sv, r, n - 1) && st2.Get(Reg(r)) == st1.Get(Reg(r));
      }
    }
  }

  // ----- What survives a call ---------------------------------------------------------------------------

  // cg_call_spill_set: live after the call, less the register the call itself defines.
  ghost function SpillSet(f: Function, a: Homes, b: nat, k: nat): set<nat>
    requires b < |f.blocks|
  {
    set r: nat | 8 <= r < a.high && LiveAt(f, a, b, k + 1, r) && DefAt(a, f.blocks[b], k) != Some(r)
  }

  method CallSpillSet(f: Function, a: Homes, b: nat, k: nat, live: set<nat>) returns (saved: set<nat>)
    requires b < |f.blocks| && k < |f.blocks[b].body| && forall r: nat :: r in live <==> LiveAt(f, a, b, k + 1, r)
    ensures saved == SpillSet(f, a, b, k)
  {
    var d := DefAt(a, f.blocks[b], k);
    saved := if d.Some? then live - {d.value} else live;
    forall r | r in live
      ensures 8 <= r < a.high
    {
      LiveIsAllocated(f, a, b, k + 1, r);
    }
  }

  // Only registers that hold values are ever live.
  lemma LiveIsAllocated(f: Function, a: Homes, b: nat, k: nat, r: nat)
    requires LiveAt(f, a, b, k, r)
    ensures 8 <= r < a.high
  {
    var p :| p != [] && p[0] == b && Liveness.LiveAlong(f, a, r, p, k);
    WalkIsAllocated(f, a, p, k, r);
  }

  lemma {:induction false} WalkIsAllocated(f: Function, a: Homes, p: seq<nat>, k: nat, r: nat)
    requires Liveness.LiveAlong(f, a, r, p, k)
    ensures 8 <= r < a.high
    decreases |p|
  {
    if |p| > 1 && !(|p| == 2 && PhiReadsReg(f, a, p[0], p[1], r)) {
      WalkIsAllocated(f, a, p[1..], 0, r);
    }
  }

  // Every register that crosses a call has a slot.
  ghost predicate EverySlot(f: Function, a: Homes, sv: Saves) {
    AreaOk(sv) && forall b: nat, k: nat :: IsCall(f, sv.calls, b, k) ==> SpillSet(f, a, b, k) <= sv.slotOf.Keys
  }

  lemma SlotsSuffice(f: Function, a: Homes, sv: Saves, lives: seq<CallLive>, ever: set<nat>)
    requires Snapshots(f, a, sv.calls, lives) && SlotsOk(sv, ever, a.high)
    requires forall i :: 0 <= i < |lives| ==> lives[i].live <= ever
    ensures EverySlot(f, a, sv)
  {
    forall b: nat, k: nat | IsCall(f, sv.calls, b, k)
      ensures SpillSet(f, a, b, k) <= sv.slotOf.Keys
    {
      assert Listed(lives, b, k);
      var i :| 0 <= i < |lives| && lives[i].b == b && lives[i].k == k;
      assert Exact(f, a, sv.calls, lives[i]);
    }
  }

  // Whatever the callee does to registers, as long as it leaves the caller's frame alone: spill,
  // call and restore keep every saved register and every word outside the save area.
  lemma SavedSurvive(saved: set<nat>, sv: Saves, high: nat, st: State, st1: State, st2: State, st3: State)
    requires AreaOk(sv) && saved <= sv.slotOf.Keys && (forall r :: r in saved ==> 8 <= r < high)
    requires high <= MAX_EMIT_REG + 1
    requires Spilled(saved, sv, high, st, st1) && Restored(saved, sv, high, st2, st3)
    requires forall l :: SurvivesCall(l) ==> st2.Get(l) == st1.Get(l)
    ensures forall r :: r in saved ==> st3.Get(Reg(r)) == st.Get(Reg(r))
    ensures forall l :: SurvivesCall(l) && !InArea(sv, l) ==> st3.Get(l) == st.Get(l)
  {
    forall l | SurvivesCall(l) && !InArea(sv, l)
      ensures st3.Get(l) == st.Get(l)
    {
      assert st1.Get(l) == st.Get(l);
      assert st3.Get(l) == st2.Get(l);
    }
  }

  // The value a call defines shares no register with one that is live after it.
  lemma ResultRegisterFree(f: Function, a: Homes, v: nat, b: nat, k: nat)
    requires WellFormed(f) && RegAlloc.NoInterference(f, a.alloc) && RegOf(a, v).Some?
    requires b < |f.blocks| && k < |f.blocks[b].body| && f.blocks[b].body[k].dst != Some(v)
    requires RegAlloc.Live(f, v, b, k + 1)
    ensures DefAt(a, f.blocks[b], k) != RegOf(a, v)
  {
    var blk := f.blocks[b];
    var p :| p != [] && p[0] == b && RegAlloc.LiveAlong(f, v, p, k + 1);
    if blk.body[k].dst.Some? {
      var w := blk.body[k].dst.value;
      NotItsOwn(f, v, b, k);
      if |p| == 1 {
        var j: nat :| k + 1 <= j <= |blk.body| && RegAlloc.UsedAt(blk, j, v) && !RegAlloc.DefinedWithin(f, v, b, k + 1, j);
        NotOverwritten(f, a, v, w, b, k, j);
      } else {
        assert RegAlloc.LiveAlong(f, v, p, k);
        NotOverwrittenThrough(f, a, v, w, p, k, k);
      }
    }
  }

  lemma NotItsOwn(f: Function, v: nat, b: nat, k: nat)
    requires WellFormed(f) && b < |f.blocks| && k < |f.blocks[b].body| && f.blocks[b].body[k].dst != Some(v)
    ensures !(v in f.sites && f.sites[v] == InstAt(b, k))
  {
    if v in f.sites {
      assert Ssa.Defines(f, f.sites[v], v);
    }
  }

  // Every value needed after a call, other than its result, is in its register again after the
  // restore, whatever the callee did to the registers.
  lemma LiveValuesSurvive(f: Function, a: Homes, sv: Saves, b: nat, k: nat, v: nat,
                          st: State, st1: State, st2: State, st3: State)
    requires WellFormed(f) && RegAlloc.NoInterference(f, a.alloc) && a.high <= MAX_EMIT_REG + 1
    requires IsCall(f, sv.calls, b, k) && EverySlot(f, a, sv)
    requires RegOf(a, v).Some? && f.blocks[b].body[k].dst != Some(v) && RegAlloc.Live(f, v, b, k + 1)
    requires var saved := SpillSet(f, a, b, k); Spilled(saved, sv, a.high, st, st1) && Restored(saved, sv, a.high, st2, st3)
    requires forall l :: SurvivesCall(l) ==> st2.Get(l) == st1.Get(l)
    ensures st3.Get(Reg(RegOf(a, v).value)) == st.Get(Reg(RegOf(a, v).value))
  {
    var r, saved := RegOf(a, v).value, SpillSet(f, a, b, k);
    ResultRegisterFree(f, a, v, b, k);
    var p :| p != [] && p[0] == b && RegAlloc.LiveAlong(f, v, p, k + 1);
    LiveValueRegister(f, a, v, p, k + 1);
    assert LiveAt(f, a, b, k + 1, r);
    assert r in saved;
    SavedSurvive(saved, sv, a.high, st, st1, st2, st3);
  }
}
