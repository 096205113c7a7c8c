// The dispatch of a switch: a chain of comparisons, or a jump table in DATA. What each does when it runs.
module Dispatch {
  import opened Machine
  import opened Ssa
  import opened PhiCopy
  import opened Assembly
  import opened Placement

  // ----- Choosing between the two --------------------------------------------------------------------

  // A chain of comparisons, or a table indexed by the distance from the least case, as signed numbers.
  datatype Dispatch = Chain | Table(least: int, targets: seq<nat>)

  // A word as a signed number.
  function AsSigned(v: int): int {
    if v >= 0x8000_0000 then v - TWO_TO_THE_32 else v
  }

  // How far v lies above the least case.
  function Above(least: int, v: int): nat {
    (v - least) % TWO_TO_THE_32
  }

  // Where a table sends v: by its entry, or to the default when off the end.
  function Sent(least: int, targets: seq<nat>, v: int, otherwise: nat): nat {
    EntryAt(targets, Above(least, v), otherwise)
  }

  function EntryAt(targets: seq<nat>, off: nat, otherwise: nat): nat {
    if off < |targets| then targets[off] else otherwise
  }

  lemma {:induction false} TargetOf(cases: seq<Case>, v: int, otherwise: nat, i: nat)
    requires CasesOk(cases) && i < |cases| && cases[i].value == v
    ensures SwitchTarget(cases, v, otherwise) == cases[i].target
  {
    if i > 0 {
      TargetOf(cases[1..], v, otherwise, i - 1);
    }
  }

  predicate HasSigned(cases: seq<Case>, v: int) {
    exists i :: 0 <= i < |cases| && AsSigned(cases[i].value) == v
  }

  // The least and greatest case, as signed numbers.
  method Span(cases: seq<Case>) returns (lo: int, hi: int)
    requires CasesOk(cases) && cases != []
    ensures lo <= hi && forall i :: 0 <= i < |cases| ==> lo <= AsSigned(cases[i].value) <= hi
    ensures -0x8000_0000 <= lo && hi < 0x8000_0000 && HasSigned(cases, lo) && HasSigned(cases, hi)
  {
    lo, hi := AsSigned(cases[0].value), AsSigned(cases[0].value);
    for k := 1 to |cases|
      invariant lo <= hi && -0x8000_0000 <= lo && hi < 0x8000_0000 && HasSigned(cases, lo) && HasSigned(cases, hi)
      invariant forall i :: 0 <= i < k ==> lo <= AsSigned(cases[i].value) <= hi
    {
      var v := AsSigned(cases[k].value);
      if v < lo { lo := v; }
      if v > hi { hi := v; }
    }
  }

  // Every slot holds the default, but for those of cases.
  ghost predicate Filled(cases: seq<Case>, lo: int, targets: seq<nat>, otherwise: nat) {
    && (forall i :: 0 <= i < |cases| ==> InTable(cases[i], lo, targets))
    && (forall k :: 0 <= k < |targets| && !HasSigned(cases, lo + k) ==> targets[k] == otherwise)
  }

  predicate InTable(c: Case, lo: int, targets: seq<nat>) {
    0 <= AsSigned(c.value) - lo < |targets| && targets[AsSigned(c.value) - lo] == c.target
  }

  // The table: every slot the default, then each case in its own.
  method FillTable(cases: seq<Case>, lo: int, range: nat, otherwise: nat) returns (targets: array<nat>)
    requires CasesOk(cases) && forall i :: 0 <= i < |cases| ==> lo <= AsSigned(cases[i].value) < lo + range
    ensures fresh(targets) && targets.Length == range && Filled(cases, lo, targets[..], otherwise)
  {
    targets := new nat[range](_ => otherwise);
    for n := 0 to |cases|
      invariant Filled(cases[..n], lo, targets[..], otherwise)
    {
      ghost var before := targets[..];
      targets[AsSigned(cases[n].value) - lo] := cases[n].target;
      OneMoreFilled(cases, n, lo, before, otherwise);
      assert targets[..] == before[AsSigned(cases[n].value) - lo := cases[n].target];
    }
    assert cases[..|cases|] == cases;
  }

  lemma OneMoreFilled(cases: seq<Case>, n: nat, lo: int, targets: seq<nat>, otherwise: nat)
    requires CasesOk(cases) && n < |cases| && Filled(cases[..n], lo, targets, otherwise) && lo <= AsSigned(cases[n].value) < lo + |targets|
    ensures Filled(cases[..n + 1], lo, targets[AsSigned(cases[n].value) - lo := cases[n].target], otherwise)
  {
    var targets' := targets[AsSigned(cases[n].value) - lo := cases[n].target];
    var now := cases[..n + 1];
    forall i | 0 <= i < |now|
      ensures InTable(now[i], lo, targets')
    {
      if i < n {
        assert InTable(cases[..n][i], lo, targets) && cases[i].value != cases[n].value;
      }
    }
    forall k | 0 <= k < |targets'|
      ensures !HasSigned(now, lo + k) ==> targets'[k] == otherwise
    {
      if !HasSigned(now, lo + k) {
        NotSignedBefore(cases, n, lo + k);
      }
    }
  }

  lemma NotSignedBefore(cases: seq<Case>, n: nat, v: int)
    requires n < |cases| && !HasSigned(cases[..n + 1], v)
    ensures !HasSigned(cases[..n], v) && AsSigned(cases[n].value) != v
  {
    assert cases[..n + 1][n] == cases[n];
    forall i | 0 <= i < n
      ensures AsSigned(cases[..n][i].value) != v
    {
      assert cases[..n + 1][i] == cases[..n][i];
    }
  }

  // Four cases or more, within a span of twice as many numbers.
  ghost predicate Dense(cases: seq<Case>) {
    |cases| >= 4 && exists least :: Within(cases, least, 2 * |cases|)
  }

  ghost predicate Within(cases: seq<Case>, least: int, span: nat) {
    forall i :: 0 <= i < |cases| ==> least <= AsSigned(cases[i].value) < least + span
  }

  // A table sends every word where the comparisons one after the other would.
  ghost predicate DispatchOk(d: Dispatch, cases: seq<Case>, otherwise: nat) {
    d.Table? ==> |d.targets| < TWO_TO_THE_32 && forall v {:trigger Sent(d.least, d.targets, v, otherwise)} ::
      IsWord(v) ==> Sent(d.least, d.targets, v, otherwise) == SwitchTarget(cases, v, otherwise)
  }

  // A table where the cases are dense, else a chain.
  method ChooseDispatch(cases: seq<Case>, otherwise: nat) returns (d: Dispatch)
    requires CasesOk(cases)
    ensures DispatchOk(d, cases, otherwise) && (d.Table? <==> Dense(cases))
    ensures d.Table? ==> |d.targets| <= 2 * |cases| && forall t :: t in d.targets ==> t == otherwise || t in Targets(cases)
  {
    d := Chain;
    if |cases| >= 4 {
      var lo, hi := Span(cases);
      var range := hi - lo + 1;
      if range <= 2 * |cases| {
        assert Within(cases, lo, 2 * |cases|);
        var targets := FillTable(cases, lo, range, otherwise);
        d := Table(lo, targets[..]);
        TableIsOk(cases, lo, hi, targets[..], otherwise);
      }
    }
  }

  lemma TableIsOk(cases: seq<Case>, lo: int, hi: int, targets: seq<nat>, otherwise: nat)
    requires CasesOk(cases) && -0x8000_0000 <= lo <= hi < 0x8000_0000 && |targets| == hi - lo + 1 <= 2 * |cases|
    requires Filled(cases, lo, targets, otherwise)
    ensures DispatchOk(Table(lo, targets), cases, otherwise) && forall t :: t in targets ==> t == otherwise || t in Targets(cases)
  {
    forall v | 0 <= v < TWO_TO_THE_32
      ensures Sent(lo, targets, v, otherwise) == SwitchTarget(cases, v, otherwise)
    {
      SlotOf(v, lo, hi);
      EntryOf(cases, lo, hi, targets, v, (v - lo) % TWO_TO_THE_32, otherwise);
    }
    forall k | 0 <= k < |targets|
      ensures targets[k] == otherwise || targets[k] in Targets(cases)
    {
      if i :| 0 <= i < |cases| && AsSigned(cases[i].value) == lo + k {
        assert InTable(cases[i], lo, targets) && Targets(cases)[i] == targets[k];
      }
    }
  }

  lemma EntryOf(cases: seq<Case>, lo: int, hi: int, targets: seq<nat>, v: int, off: nat, otherwise: nat)
    requires CasesOk(cases) && lo <= hi && |targets| == hi - lo + 1 && 0 <= v < TWO_TO_THE_32
    requires Filled(cases, lo, targets, otherwise)
    requires (off < |targets| <==> lo <= AsSigned(v) <= hi) && (lo <= AsSigned(v) ==> off == AsSigned(v) - lo)
    ensures (if off < |targets| then targets[off] else otherwise) == SwitchTarget(cases, v, otherwise)
  {
    if i :| 0 <= i < |cases| && cases[i].value == v {
      assert InTable(cases[i], lo, targets);
      TargetOf(cases, v, otherwise, i);
    } else {
      NoCase(cases, v, otherwise);
      NotSigned(cases, v);
      assert off < |targets| ==> lo + off == AsSigned(v);
    }
  }

  // The index of v, which is in the table exactly when v is in the span.
  lemma SlotOf(v: int, lo: int, hi: int)
    requires -0x8000_0000 <= lo <= hi < 0x8000_0000 && 0 <= v < TWO_TO_THE_32
    ensures (v - lo) % TWO_TO_THE_32 < hi - lo + 1 <==> lo <= AsSigned(v) <= hi
    ensures lo <= AsSigned(v) ==> (v - lo) % TWO_TO_THE_32 == AsSigned(v) - lo
  {
    var off := (v - lo) % TWO_TO_THE_32;
    assert off == if AsSigned(v) >= lo then AsSigned(v) - lo else AsSigned(v) - lo + TWO_TO_THE_32;
  }

  lemma NotSigned(cases: seq<Case>, v: int)
    requires CasesOk(cases) && 0 <= v < TWO_TO_THE_32 && forall i :: 0 <= i < |cases| ==> cases[i].value != v
    ensures !HasSigned(cases, AsSigned(v))
  {
  }

  // ----- The code of each ------------------------------------------------------------------------------

  // One comparison of a chain: 1 into h + 1 when the condition, in reg, is the constant.
  function CaseTest(value: int, reg: nat, h: nat): (code: seq<Instr>)
    ensures StraightLine(code)
  {
    LoadConst(h, value) + [CmpEq(h + 1, reg, h)]
  }

  // The distance from the least case into h + 1, and whether the table reaches that far into h + 3.
  function Distance(least: int, n: nat, reg: nat, h: nat): (code: seq<Instr>)
    ensures StraightLine(code)
  {
    Offset(least, reg, h) + Reach(n, h)
  }

  function Offset(least: int, reg: nat, h: nat): (code: seq<Instr>)
    ensures StraightLine(code)
  {
    LoadConst(h, least % TWO_TO_THE_32) + [Sub(h + 1, reg, h)]
  }

  function Reach(n: nat, h: nat): (code: seq<Instr>)
    ensures StraightLine(code)
  {
    LoadConst(h + 2, n) + [CmpLtu(h + 3, h + 1, h + 2)]
  }

  // The instructions that work out the address of the table's word: a shift by a constant, the base, an
  // addition; and the load, which is one with the jump here.
  function AddressWords(base: nat): nat {
    |LoadConst(0, base)| + 4
  }

  // The registers of the emit window a dispatch takes.
  function WindowOf(d: Dispatch, cases: seq<Case>): nat {
    if d.Table? then 9 else if cases == [] then 0 else 2
  }

  // A comparison and its branch.
  ghost predicate CaseAt(a: Asm, p: nat, c: Case, reg: nat, h: nat) {
    var test := CaseTest(c.value, reg, h);
    && CodeAt(a, p, test) && InstrAt(a, p + |test|, Bne(h + 1, REG_ZERO, 0))
    && Fixup(p + |test|, c.target, 8) in a.fixups
  }

  ghost predicate ChainAt(a: Asm, p: nat, cases: seq<Case>, reg: nat, h: nat, otherwise: nat)
    decreases |cases|
  {
    if cases == [] then SideAt(a, p, [], otherwise)
    else CaseAt(a, p, cases[0], reg, h) && ChainAt(a, p + |CaseTest(cases[0].value, reg, h)| + 1, cases[1..], reg, h, otherwise)
  }

  ghost predicate TableAt(a: Asm, p: nat, least: int, targets: seq<nat>, base: nat, reg: nat, h: nat, otherwise: nat) {
    var head, k := Distance(least, |targets|, reg, h), AddressWords(base);
    && CodeAt(a, p, head) && JumpAt(a, p + |head|, k, base, h, otherwise)
    && forall i :: 0 <= i < |targets| ==> TableFixup(base + 4 * i, targets[i]) in a.tables
  }

  // The test that skips the jump through the table, that jump, and the jump to the default.
  ghost predicate JumpAt(a: Asm, p: nat, k: nat, base: nat, h: nat, otherwise: nat) {
    && InstrAt(a, p, Beq(h + 3, REG_ZERO, k + 1)) && !HasFixup(a, p)
    && CodeAt(a, p + 1, Nops(k)) && InstrAt(a, p + 1 + k, JmpTable(h + 1, base))
    && SideAt(a, p + 2 + k, [], otherwise)
  }

  ghost predicate DispatchAt(a: Asm, p: nat, d: Dispatch, base: nat, cases: seq<Case>, reg: nat, h: nat, otherwise: nat) {
    match d
    case Chain => ChainAt(a, p, cases, reg, h, otherwise)
    case Table(least, targets) => TableAt(a, p, least, targets, base, reg, h, otherwise)
  }

  // ----- Running it ------------------------------------------------------------------------------------------

  // What a dispatch may disturb.
  ghost predicate OnlyWindow(st: State, st': State, h: nat) {
    st'.world == st.world && forall l: Loc :: (l.Reg? ==> l.r < h || l.r == REG_ZERO) ==> st'.Get(l) == st.Get(l)
  }

  lemma CaseTests(value: int, reg: nat, h: nat, st: State, env: Env)
    requires IsWord(value) && h + 1 <= MAX_EMIT_REG && (reg < h || reg == REG_ZERO)
    ensures Exec(CaseTest(value, reg, h), st, env).Some?
    ensures var st' := Exec(CaseTest(value, reg, h), st, env).value;
            OnlyWindow(st, st', h) && st'.Get(Reg(h + 1)) == if st.Get(Reg(reg)) == value then 1 else 0
  {
    var cmp := [CmpEq(h + 1, reg, h)];
    LoadConstLoads(h, value, st, env);
    ExecAppend(LoadConst(h, value), cmp, st, env);
    assert cmp[1..] == [];
  }

  // A comparison and its branch lead to the case's block, or on to the next.
  lemma CaseGets(a: Asm, p: nat, c: Case, reg: nat, h: nat, st: State, env: Env) returns (q: nat, n: nat, st': State)
    requires WellFormedAsm(a) && IsWord(c.value) && h + 1 <= MAX_EMIT_REG && (reg < h || reg == REG_ZERO) && st.Get(Reg(REG_ZERO)) == 0
    requires CaseAt(a, p, c, reg, h)
    ensures c.target < |a.offsets| && OnlyWindow(st, st', h)
    ensures q == if st.Get(Reg(reg)) == c.value then a.offsets[c.target] else p + |CaseTest(c.value, reg, h)| + 1
    ensures n > 0 && Gets(a, p, st, env, n, q, st')
  {
    var test := CaseTest(c.value, reg, h);
    CaseTests(c.value, reg, h, st, env);
    st' := Exec(test, st, env).value;
    GetsStraight(a, p, test, st, env);
    FixupTaken(a, Fixup(p + |test|, c.target, 8));
    q := if st.Get(Reg(reg)) == c.value then a.offsets[c.target] else p + |test| + 1;
    GetsStep(a, p + |test|, st', env, q);
    GetsBoth(a, p, st, env, |test|, p + |test|, st', 1, q, st');
    n := |test| + 1;
  }

  // A chain of comparisons arrives at the first case that is the condition, or at the default.
  lemma {:induction false} ChainGets(a: Asm, p: nat, cases: seq<Case>, reg: nat, h: nat, otherwise: nat, st: State, env: Env)
    returns (to: nat, n: nat, st': State)
    requires WellFormedAsm(a) && ChainAt(a, p, cases, reg, h, otherwise) && st.Get(Reg(REG_ZERO)) == 0
    requires (cases != [] ==> h + 1 <= MAX_EMIT_REG) && (reg < h || reg == REG_ZERO)
    requires forall i :: 0 <= i < |cases| ==> IsWord(cases[i].value)
    ensures to == SwitchTarget(cases, st.Get(Reg(reg)), otherwise)
    ensures n > 0 && to < |a.offsets| && Gets(a, p, st, env, n, a.offsets[to], st') && OnlyWindow(st, st', h)
    decreases |cases|
  {
    if cases == [] {
      assert Exec([], st, env) == Some(st);
      SideGets(a, p, [], otherwise, st, env);
      return otherwise, 1, st;
    }
    var c := cases[0];
    var q;
    q, n, st' := CaseGets(a, p, c, reg, h, st, env);
    to := c.target;
    if st.Get(Reg(reg)) != c.value {
      var m, st1 := n, st';
      to, n, st' := ChainGets(a, q, cases[1..], reg, h, otherwise, st1, env);
      GetsBoth(a, p, st, env, m, q, st1, n, a.offsets[to], st');
      n := m + n;
    }
  }

  lemma OffsetFound(least: int, reg: nat, h: nat, st: State, env: Env)
    requires h + 1 <= MAX_EMIT_REG && (reg < h || reg == REG_ZERO)
    ensures Exec(Offset(least, reg, h), st, env).Some?
    ensures var st' := Exec(Offset(least, reg, h), st, env).value;
            OnlyWindow(st, st', h) && st'.Get(Reg(h + 1)) == Above(least, st.Get(Reg(reg)))
  {
    var sub := [Sub(h + 1, reg, h)];
    LoadConstLoads(h, least % TWO_TO_THE_32, st, env);
    ExecAppend(LoadConst(h, least % TWO_TO_THE_32), sub, st, env);
    assert sub[1..] == [];
    SameDistance(st.Get(Reg(reg)), least);
  }

  lemma ReachFound(n: nat, h: nat, st: State, env: Env)
    requires IsWord(n) && h + 3 <= MAX_EMIT_REG
    ensures Exec(Reach(n, h), st, env).Some?
    ensures var st' := Exec(Reach(n, h), st, env).value;
            OnlyWindow(st, st', h + 2) && st'.Get(Reg(h + 3)) == if st.Get(Reg(h + 1)) < n then 1 else 0
  {
    var cmp := [CmpLtu(h + 3, h + 1, h + 2)];
    LoadConstLoads(h + 2, n, st, env);
    ExecAppend(LoadConst(h + 2, n), cmp, st, env);
    assert cmp[1..] == [];
  }

  lemma DistanceFound(least: int, n: nat, reg: nat, h: nat, st: State, env: Env) returns (st': State)
    requires IsWord(n) && h + 3 <= MAX_EMIT_REG && (reg < h || reg == REG_ZERO)
    ensures Exec(Distance(least, n, reg, h), st, env) == Some(st') && OnlyWindow(st, st', h)
    ensures st'.Get(Reg(h + 1)) == Above(least, st.Get(Reg(reg)))
    ensures st'.Get(Reg(h + 3)) == if st'.Get(Reg(h + 1)) < n then 1 else 0
  {
    OffsetFound(least, reg, h, st, env);
    var s1 := Exec(Offset(least, reg, h), st, env).value;
    ReachFound(n, h, s1, env);
    ExecAppend(Offset(least, reg, h), Reach(n, h), st, env);
    st' := Exec(Reach(n, h), s1, env).value;
  }

  lemma SameDistance(v: int, least: int)
    ensures (v - least % TWO_TO_THE_32) % TWO_TO_THE_32 == (v - least) % TWO_TO_THE_32
  {
  }

  lemma DistanceGets(a: Asm, p: nat, least: int, n: nat, reg: nat, h: nat, st: State, env: Env) returns (m: nat, st': State)
    requires WellFormedAsm(a) && IsWord(n) && h + 3 <= MAX_EMIT_REG && (reg < h || reg == REG_ZERO)
    requires CodeAt(a, p, Distance(least, n, reg, h))
    ensures m == |Distance(least, n, reg, h)| && Gets(a, p, st, env, m, p + m, st') && OnlyWindow(st, st', h)
    ensures st'.Get(Reg(h + 1)) == Above(least, st.Get(Reg(reg)))
    ensures st'.Get(Reg(h + 3)) == if st'.Get(Reg(h + 1)) < n then 1 else 0
  {
    m := |Distance(least, n, reg, h)|;
    st' := DistanceFound(least, n, reg, h, st, env);
    GetsStraight(a, p, Distance(least, n, reg, h), st, env);
  }

  // A table arrives where its entry points, or at the default.
  lemma TableGets(a: Asm, p: nat, least: int, targets: seq<nat>, base: nat, reg: nat, h: nat, otherwise: nat, st: State, env: Env)
    returns (to: nat, n: nat, st': State)
    requires WellFormedAsm(a) && TableAt(a, p, least, targets, base, reg, h, otherwise) && st.Get(Reg(REG_ZERO)) == 0
    requires IsWord(|targets|) && h + 3 <= MAX_EMIT_REG && (reg < h || reg == REG_ZERO)
    ensures to == Sent(least, targets, st.Get(Reg(reg)), otherwise)
    ensures n > 0 && to < |a.offsets| && Gets(a, p, st, env, n, a.offsets[to], st') && OnlyWindow(st, st', h)
  {
    var m;
    m, st' := DistanceGets(a, p, least, |targets|, reg, h, st, env);
    to, n := JumpGets(a, p, least, targets, base, reg, h, otherwise, st'.Get(Reg(h + 1)), st', env);
    GetsBoth(a, p, st, env, m, p + m, st', n, a.offsets[to], st');
    n := m + n;
  }

  // From the test on.
  lemma JumpGets(a: Asm, p: nat, least: int, targets: seq<nat>, base: nat, reg: nat, h: nat, otherwise: nat, off: nat, st: State, env: Env)
    returns (to: nat, n: nat)
    requires WellFormedAsm(a) && TableAt(a, p, least, targets, base, reg, h, otherwise) && st.Get(Reg(REG_ZERO)) == 0
    requires st.Get(Reg(h + 1)) == off && st.Get(Reg(h + 3)) == if off < |targets| then 1 else 0
    ensures to == EntryAt(targets, off, otherwise)
    ensures n > 0 && to < |a.offsets| && Gets(a, p + |Distance(least, |targets|, reg, h)|, st, env, n, a.offsets[to], st)
  {
    var q, k := p + |Distance(least, |targets|, reg, h)|, AddressWords(base);
    if off < |targets| {
      to := targets[off];
      GetsStep(a, q, st, env, q + 1);
      n := ThroughTable(a, q + 1, k, targets, base, h, off, st, env);
      GetsBoth(a, q, st, env, 1, q + 1, st, n, a.offsets[to], st);
      n := 1 + n;
    } else {
      to := otherwise;
      GetsStep(a, q, st, env, q + 2 + k);
      StepThenSide(a, q, q + 2 + k, otherwise, st, env);
      n := 2;
    }
  }

  lemma StepThenSide(a: Asm, q: nat, q': nat, to: nat, st: State, env: Env)
    requires WellFormedAsm(a) && Gets(a, q, st, env, 1, q', st) && SideAt(a, q', [], to)
    ensures to < |a.offsets| && Gets(a, q, st, env, 2, a.offsets[to], st)
  {
    assert Exec([], st, env) == Some(st);
    SideGets(a, q', [], to, st, env);
    GetsBoth(a, q, st, env, 1, q', st, 1, a.offsets[to], st);
  }

  lemma ThroughTable(a: Asm, p: nat, k: nat, targets: seq<nat>, base: nat, h: nat, off: nat, st: State, env: Env) returns (n: nat)
    requires WellFormedAsm(a) && CodeAt(a, p, Nops(k)) && InstrAt(a, p + k, JmpTable(h + 1, base)) && st.Get(Reg(h + 1)) == off < |targets|
    requires forall i :: 0 <= i < |targets| ==> TableFixup(base + 4 * i, targets[i]) in a.tables
    ensures targets[off] < |a.offsets| && Gets(a, p, st, env, n, a.offsets[targets[off]], st)
  {
    NopsDoNothing(k, st, env);
    GetsStraight(a, p, Nops(k), st, env);
    EntryIs(a, TableFixup(base + 4 * off, targets[off]));
    GetsStep(a, p + k, st, env, a.offsets[targets[off]]);
    GetsBoth(a, p, st, env, k, p + k, st, 1, a.offsets[targets[off]], st);
    n := k + 1;
  }

  lemma EntryIs(a: Asm, t: TableFixup)
    requires WellFormedAsm(a) && t in a.tables
    ensures t.target < |a.offsets| && HasEntry(a, t.dataOff) && Entry(a, t.dataOff) == a.offsets[t.target]
  {
    var i :| 0 <= i < |a.tables| && a.tables[i] == t;
    assert HasEntry(a, t.dataOff);
    var j :| 0 <= j < |a.tables| && a.tables[j].dataOff == t.dataOff && Entry(a, t.dataOff) == a.offsets[a.tables[j].target];
    assert i == j;
  }

  // The window of a dispatch, and the words it loads.
  ghost predicate DispatchFits(d: Dispatch, base: nat, cases: seq<Case>, reg: nat, h: nat, otherwise: nat) {
    && CasesOk(cases) && DispatchOk(d, cases, otherwise) && h + WindowOf(d, cases) <= MAX_EMIT_REG + 1
    && (reg < h || reg == REG_ZERO) && (d.Table? ==> IsWord(base))
  }

  lemma SentByWord(least: int, targets: seq<nat>, v: int, otherwise: nat)
    ensures Sent(least, targets, v % TWO_TO_THE_32, otherwise) == Sent(least, targets, v, otherwise)
  {
    assert (v % TWO_TO_THE_32 - least) % TWO_TO_THE_32 == (v - least) % TWO_TO_THE_32;
  }

  // Either form arrives at the block the SSA switch chooses, for any number that the switch would send
  // where it sends the word of it.
  lemma DispatchGets(a: Asm, p: nat, d: Dispatch, base: nat, cases: seq<Case>, reg: nat, h: nat, otherwise: nat, st: State, env: Env)
    returns (to: nat, n: nat, st': State)
    requires WellFormedAsm(a) && DispatchAt(a, p, d, base, cases, reg, h, otherwise) && st.Get(Reg(REG_ZERO)) == 0
    requires DispatchFits(d, base, cases, reg, h, otherwise)
    requires SameAsWord(cases, st.Get(Reg(reg)), otherwise)
    ensures to == SwitchTarget(cases, st.Get(Reg(reg)), otherwise)
    ensures n > 0 && to < |a.offsets| && Gets(a, p, st, env, n, a.offsets[to], st') && OnlyWindow(st, st', h)
  {
    if d.Table? {
      SentByWord(d.least, d.targets, st.Get(Reg(reg)), otherwise);
      to, n, st' := TableGets(a, p, d.least, d.targets, base, reg, h, otherwise, st, env);
    } else {
      to, n, st' := ChainGets(a, p, cases, reg, h, otherwise, st, env);
    }
  }

  // From any state, the code at p arrives where the switch goes.
  ghost predicate DispatchRuns(a: Asm, p: nat, cases: seq<Case>, otherwise: nat, reg: nat, h: nat, env: Env)
    requires WellFormedAsm(a)
  {
    forall st: State {:trigger Dispatches(a, p, cases, otherwise, reg, h, env, st)} :: Dispatches(a, p, cases, otherwise, reg, h, env, st)
  }

  ghost predicate Dispatches(a: Asm, p: nat, cases: seq<Case>, otherwise: nat, reg: nat, h: nat, env: Env, st: State)
    requires WellFormedAsm(a)
  {
    st.Get(Reg(REG_ZERO)) == 0 && SameAsWord(cases, st.Get(Reg(reg)), otherwise) ==>
      exists n: nat, st' :: ArrivesAt(a, p, SwitchTarget(cases, st.Get(Reg(reg)), otherwise), h, env, st, n, st')
  }

  // In n steps the machine is at block to, and only the window has changed.
  ghost predicate ArrivesAt(a: Asm, p: nat, to: nat, h: nat, env: Env, st: State, n: nat, st': State)
    requires WellFormedAsm(a)
  {
    n > 0 && to < |a.offsets| && Gets(a, p, st, env, n, a.offsets[to], st') && OnlyWindow(st, st', h)
  }

  lemma DispatchAlwaysRuns(a: Asm, p: nat, d: Dispatch, base: nat, cases: seq<Case>, reg: nat, h: nat, otherwise: nat, env: Env)
    requires WellFormedAsm(a) && DispatchAt(a, p, d, base, cases, reg, h, otherwise) && DispatchFits(d, base, cases, reg, h, otherwise)
    ensures DispatchRuns(a, p, cases, otherwise, reg, h, env)
  {
    forall st: State
      ensures Dispatches(a, p, cases, otherwise, reg, h, env, st)
    {
      if st.Get(Reg(REG_ZERO)) == 0 && SameAsWord(cases, st.Get(Reg(reg)), otherwise) {
        var to, n, st' := DispatchGets(a, p, d, base, cases, reg, h, otherwise, st, env);
        assert ArrivesAt(a, p, to, h, env, st, n, st');
      }
    }
  }
}
