// The code generator's buffers, and the passes that finish a function's code: branch
// relaxation, fixup resolution and jump-table resolution.
module CodeGen {
  import opened Machine
  import opened Sets
  import opened Fenwick
  import opened Assembly
  import opened Relaxation

  // ----- Deciding what to relax -----------------------------------------------------------

  // relaxed marks exactly the fixups whose positions are in r.
  ghost predicate Marks(a: Asm, relaxed: seq<bool>, r: set<int>) {
    && |relaxed| == |a.fixups| && r <= Candidates(a)
    && forall i :: 0 <= i < |a.fixups| ==> (relaxed[i] <==> a.fixups[i].pos in r)
  }

  // Every closed set contains r.
  ghost predicate BelowClosed(a: Asm, r: set<int>)
    requires WellFormedAsm(a)
  {
    forall t: set<int> :: Closed(a, t) ==> r <= t
  }

  // The unrelaxed 8-bit fixups before i are in range.
  ghost predicate ClosedUpTo(a: Asm, r: set<int>, n: nat)
    requires WellFormedAsm(a) && n <= |a.fixups|
  {
    forall i :: 0 <= i < n && a.fixups[i].bits == 8 && a.fixups[i].pos !in r ==> InRange8(Rel(a, r, a.fixups[i]))
  }

  ghost predicate AtSome(fixups: seq<Fixup>, p: int) {
    exists i :: 0 <= i < |fixups| && fixups[i].pos == p
  }

  lemma {:induction false} CandidatesCount(fixups: seq<Fixup>, s: set<int>)
    requires forall p :: p in s ==> AtSome(fixups, p)
    ensures |s| <= |fixups|
  {
    if fixups != [] {
      var last := fixups[|fixups| - 1];
      var rest := s - {last.pos};
      forall p | p in rest
        ensures AtSome(fixups[..|fixups| - 1], p)
      {
        var i :| 0 <= i < |fixups| && fixups[i].pos == p;
        assert fixups[..|fixups| - 1][i].pos == p;
      }
      CandidatesCount(fixups[..|fixups| - 1], rest);
      assert s <= rest + {last.pos};
      if last.pos in s {
        assert s == rest + {last.pos};
      } else {
        assert s == rest;
      }
    } else if s != {} {
      var p := Pick(s);
    }
  }

  lemma MarkOne(a: Asm, relaxed: seq<bool>, r: set<int>, i: nat)
    requires WellFormedAsm(a) && i < |a.fixups| && a.fixups[i].bits == 8
    requires Marks(a, relaxed, r) && !relaxed[i]
    ensures Marks(a, relaxed[i := true], r + {a.fixups[i].pos})
    ensures a.fixups[i].pos !in r && |r + {a.fixups[i].pos}| == |r| + 1
  {
    assert a.fixups[i].pos in Candidates(a);
  }

  // All fixups marked after as many rounds as there are fixups.
  lemma RelaxedAtMost(a: Asm, relaxed: seq<bool>, r: set<int>)
    requires WellFormedAsm(a) && Marks(a, relaxed, r)
    ensures |r| <= |a.fixups|
    ensures |r| == |a.fixups| ==> forall i :: 0 <= i < |a.fixups| ==> relaxed[i]
  {
    forall p | p in r
      ensures AtSome(a.fixups, p)
    {
      assert p in Candidates(a);
    }
    CandidatesCount(a.fixups, r);
    if |r| == |a.fixups| && exists i :: 0 <= i < |a.fixups| && !relaxed[i] {
      var i :| 0 <= i < |a.fixups| && !relaxed[i];
      var more := r + {a.fixups[i].pos};
      forall p | p in more
        ensures AtSome(a.fixups, p)
      {
        if p in r {
          assert p in Candidates(a);
        }
      }
      assert |more| == |r| + 1;
      CandidatesCount(a.fixups, more);
    }
  }

  // One pass over the fixups: relaxes every branch found out of range given the
  // relaxations recorded so far.
  method RelaxPass(a: Asm, relaxed: array<bool>, bit: array<int>, ghost r0: set<int>)
    returns (changed: bool, ghost r: set<int>)
    requires WellFormedAsm(a) && Marks(a, relaxed[..], r0) && BelowClosed(a, r0)
    requires bit.Length == |a.code| + 1 && Represents(bit[..], r0)
    modifies relaxed, bit
    ensures Marks(a, relaxed[..], r) && BelowClosed(a, r) && Represents(bit[..], r)
    ensures changed ==> |r| > |r0|
    ensures !changed ==> r == r0 && Closed(a, r)
  {
    changed, r := false, r0;
    for i := 0 to |a.fixups|
      invariant Marks(a, relaxed[..], r) && BelowClosed(a, r) && Represents(bit[..], r)
      invariant |r| >= |r0| && (changed ==> |r| > |r0|)
      invariant !changed ==> r == r0 && ClosedUpTo(a, r, i)
    {
      if a.fixups[i].bits == 8 && !relaxed[i] {
        assert FixupOk(a, a.fixups[i]);
        var target := a.offsets[a.fixups[i].target];
        var pcAfter := a.fixups[i].pos + 1;
        var targetDispl := FenBelow(bit, target, r);
        var pcDispl := FenBelow(bit, pcAfter, r);
        var rel := (target + targetDispl) - (pcAfter + pcDispl);
        if rel < -128 || rel > 127 {
          MarkOne(a, relaxed[..], r, i);
          MustRelax(a, r, i);
          FenAdd(bit, a.fixups[i].pos, r);
          ghost var before := relaxed[..];
          relaxed[i] := true;
          assert relaxed[..] == before[i := true];
          changed, r := true, r + {a.fixups[i].pos};
        }
      }
    }
  }

  // The passes up to the fixed point: at most one more than there are fixups.
  method DecideRelaxations(a: Asm) returns (relaxed: array<bool>, ghost r: set<int>)
    requires WellFormedAsm(a)
    ensures fresh(relaxed) && Marks(a, relaxed[..], r) && IsLeastRelaxation(a, r)
  {
    relaxed := new bool[|a.fixups|](_ => false);
    var bit := new int[|a.code| + 1](_ => 0);
    r := {};
    EmptyTree(bit[..]);
    var it := 0;
    var changed := true;
    while it <= |a.fixups| && changed
      invariant 0 <= it <= |a.fixups| + 1
      invariant Marks(a, relaxed[..], r) && BelowClosed(a, r) && Represents(bit[..], r)
      invariant changed ==> |r| >= it
      invariant !changed ==> Closed(a, r)
    {
      changed, r := RelaxPass(a, relaxed, bit, r);
      it := it + 1;
    }
    RelaxedAtMost(a, relaxed[..], r);
  }

  lemma EmptyTree(bit: seq<int>)
    requires forall i :: 0 <= i < |bit| ==> bit[i] == 0
    ensures Represents(bit, {})
  {
    forall i | 0 < i < |bit|
      ensures Cell(bit, {}, i)
    {
      NoneBelow(i);
      NoneBelow(i - Lowbit(i));
    }
  }

  lemma {:induction false} NoneBelow(x: int)
    ensures Count({}, x) == 0
    decreases x
  {
    if x > 0 {
      NoneBelow(x - 1);
    }
  }

  // ----- Rewriting the code -----------------------------------------------------------------

  // How many relaxed fixups sit at each position: none or one.
  method CountExtra(a: Asm, relaxed: array<bool>, ghost r: set<int>) returns (extra: array<nat>)
    requires WellFormedAsm(a) && Marks(a, relaxed[..], r)
    ensures fresh(extra) && extra.Length == |a.code|
    ensures forall p :: 0 <= p < |a.code| ==> extra[p] == if p in r then 1 else 0
  {
    extra := new nat[|a.code|](_ => 0);
    for i := 0 to |a.fixups|
      invariant forall p :: 0 <= p < |a.code| ==>
                  extra[p] == if exists j :: 0 <= j < i && a.fixups[j].pos == p && relaxed[j] then 1 else 0
    {
      if relaxed[i] {
        assert FixupOk(a, a.fixups[i]);
        extra[a.fixups[i].pos] := extra[a.fixups[i].pos] + 1;
      }
    }
    forall p | 0 <= p < |a.code|
      ensures p in r <==> exists j :: 0 <= j < |a.fixups| && a.fixups[j].pos == p && relaxed[j]
    {
      if p in r {
        assert p in Candidates(a);
      }
    }
  }

  // p's instruction has been copied, followed by a placeholder jump if p is relaxed.
  ghost predicate Copied(a: Asm, r: set<int>, code: seq<Instr>, p: nat)
    requires p < |a.code|
  {
    && 0 <= NewPos(r, p) < |code| && code[NewPos(r, p)] == a.code[p]
    && (p in r ==> NewPos(r, p) + 1 < |code| && code[NewPos(r, p) + 1] == Jmp(0))
  }

  lemma CopiedStays(a: Asm, r: set<int>, code: seq<Instr>, code': seq<Instr>, n: nat)
    requires n <= |a.code| && code <= code' && forall p :: 0 <= p < n ==> Copied(a, r, code, p)
    ensures forall p :: 0 <= p < n ==> Copied(a, r, code', p)
  {
    forall p | 0 <= p < n
      ensures Copied(a, r, code', p)
    {
      assert Copied(a, r, code, p);
    }
  }

  // Copies the code with a placeholder jump after each relaxed branch; newPosOf records
  // where each instruction went.
  method Rebuild(a: Asm, extra: array<nat>, ghost r: set<int>) returns (newCode: seq<Instr>, newPosOf: array<nat>)
    requires extra.Length == |a.code| && forall p :: 0 <= p < |a.code| ==> extra[p] == if p in r then 1 else 0
    ensures |newCode| == NewPos(r, |a.code|)
    ensures forall p :: 0 <= p < |a.code| ==> Copied(a, r, newCode, p)
    ensures fresh(newPosOf) && newPosOf.Length == |a.code|
    ensures forall p :: 0 <= p < |a.code| ==> newPosOf[p] == NewPos(r, p)
  {
    newCode := [];
    newPosOf := new nat[|a.code|];
    for op := 0 to |a.code|
      invariant |newCode| == NewPos(r, op)
      invariant forall p :: 0 <= p < op ==> Copied(a, r, newCode, p)
      invariant forall p :: 0 <= p < op ==> newPosOf[p] == NewPos(r, p)
    {
      newPosOf[op] := |newCode|;
      CopiedStays(a, r, newCode, newCode + [a.code[op]], op);
      newCode := newCode + [a.code[op]];
      for e := 0 to extra[op]
        invariant |newCode| == NewPos(r, op) + 1 + e
        invariant forall p :: 0 <= p < op ==> Copied(a, r, newCode, p)
        invariant newCode[NewPos(r, op)] == a.code[op]
        invariant forall p :: 0 <= p <= op ==> newPosOf[p] == NewPos(r, p)
        invariant e == 1 ==> newCode[NewPos(r, op) + 1] == Jmp(0)
      {
        CopiedStays(a, r, newCode, newCode + [Jmp(0)], op);
        newCode := newCode + [Jmp(0)];
      }
    }
  }

  // Positions of different instructions, and of their trampolines, never collide.
  lemma NewPosApart(r: set<int>, p: int, q: int)
    requires 0 <= p < q
    ensures NewPos(r, q) > NewPos(r, p)
    ensures p in r ==> NewPos(r, q) > NewPos(r, p) + 1
  {
    CountGrows(r, r, p + 1, q);
  }

  // Positions in done have been flipped, the others only copied.
  ghost predicate FlippedAt(a: Asm, r: set<int>, code: seq<Instr>, done: set<int>, p: nat)
    requires p < |a.code|
  {
    if p in done then Placed(a, r, code, p) else Copied(a, r, code, p)
  }

  function FlipIn(code: seq<Instr>, q: int): seq<Instr>
    requires 0 <= q < |code|
  {
    code[q := Flip(code[q])]
  }

  lemma FlipOne(a: Asm, r: set<int>, code: seq<Instr>, done: set<int>, pos: nat)
    requires pos < |a.code| && pos in r && pos !in done
    requires forall p :: 0 <= p < |a.code| ==> FlippedAt(a, r, code, done, p)
    ensures 0 <= NewPos(r, pos) < |code|
    ensures var q := NewPos(r, pos);
            forall p :: 0 <= p < |a.code| ==> FlippedAt(a, r, FlipIn(code, q), done + {pos}, p)
  {
    assert FlippedAt(a, r, code, done, pos);
    var q := NewPos(r, pos);
    var code' := FlipIn(code, q);
    forall p | 0 <= p < |a.code|
      ensures FlippedAt(a, r, code', done + {pos}, p)
    {
      assert FlippedAt(a, r, code, done, p);
      if p < pos {
        NewPosApart(r, p, pos);
      } else if pos < p {
        NewPosApart(r, pos, p);
      }
    }
  }

  // Flips the relaxed branches in place.
  method FlipRelaxed(a: Asm, relaxed: seq<bool>, newPosOf: seq<nat>, code0: seq<Instr>, ghost r: set<int>)
    returns (code: seq<Instr>)
    requires WellFormedAsm(a) && Marks(a, relaxed, r)
    requires |newPosOf| == |a.code| && forall p :: 0 <= p < |a.code| ==> newPosOf[p] == NewPos(r, p)
    requires forall p :: 0 <= p < |a.code| ==> Copied(a, r, code0, p)
    ensures |code| == |code0|
    ensures forall p :: 0 <= p < |a.code| ==> Placed(a, r, code, p)
  {
    code := code0;
    ghost var done: set<int> := {};
    assert forall p :: 0 <= p < |a.code| ==> Copied(a, r, code0, p) ==> FlippedAt(a, r, code, done, p);
    for f := 0 to |a.fixups|
      invariant |code| == |code0|
      invariant forall p :: p in done ==> exists i :: 0 <= i < f && a.fixups[i].pos == p
      invariant forall i :: 0 <= i < f && relaxed[i] ==> a.fixups[i].pos in done
      invariant done <= r
      invariant forall p :: 0 <= p < |a.code| ==> FlippedAt(a, r, code, done, p)
    {
      if relaxed[f] {
        var pos := a.fixups[f].pos;
        assert FixupOk(a, a.fixups[f]);
        FlipOne(a, r, code, done, pos);
        code := FlipIn(code, newPosOf[pos]);
        done := done + {pos};
      }
    }
    forall p | 0 <= p < |a.code|
      ensures Placed(a, r, code, p)
    {
      assert FlippedAt(a, r, code, done, p);
      if p in r {
        assert p in Candidates(a);
      }
    }
  }

  // ----- The buffers ------------------------------------------------------------------------

  class Cg {
    var code: seq<Instr>
    var fixups: seq<Fixup>
    var offsets: seq<nat>
    var tables: seq<TableFixup>
    var data: seq<nat>
    var hadError: bool

    constructor (blocks: nat, data: seq<nat>)
      ensures code == [] && fixups == [] && tables == [] && this.data == data && !hadError
      ensures offsets == seq(blocks, _ => 0)
    {
      code, fixups, tables, this.data, hadError := [], [], [], data, false;
      offsets := seq(blocks, _ => 0);
    }

    function AsAsm(): Asm
      reads this
    {
      Asm(code, fixups, offsets, tables)
    }

    method Emit(i: Instr)
      modifies this`code
      ensures code == old(code) + [i]
    {
      code := code + [i];
    }

    method QueueFixup(target: nat, bits: nat)
      modifies this`fixups
      ensures fixups == old(fixups) + [Fixup(|code|, target, bits)]
    {
      fixups := fixups + [Fixup(|code|, target, bits)];
    }

    // The fixups of relaxed branches move to their jumps, the others with their instructions.
    method MoveFixups(a: Asm, ghost r: set<int>, marks: seq<bool>, newPosOf: seq<nat>)
      requires a == AsAsm() && WellFormedAsm(a) && Marks(a, marks, r)
      requires |newPosOf| == |a.code| && forall p :: 0 <= p < |a.code| ==> newPosOf[p] == NewPos(r, p)
      modifies this`fixups
      ensures |fixups| == |a.fixups| && forall i :: 0 <= i < |fixups| ==> fixups[i] == MovedFixup(r, a.fixups[i])
    {
      for f := 0 to |fixups|
        invariant |fixups| == |a.fixups|
        invariant forall i :: 0 <= i < f ==> fixups[i] == MovedFixup(r, a.fixups[i])
        invariant forall i :: f <= i < |fixups| ==> fixups[i] == a.fixups[i]
      {
        var x := fixups[f];
        assert FixupOk(a, a.fixups[f]);
        if marks[f] {
          fixups := fixups[f := Fixup(newPosOf[x.pos] + 1, x.target, 24)];
        } else {
          fixups := fixups[f := x.(pos := newPosOf[x.pos])];
        }
      }
    }

    // Block offsets move with the code; one at the end stays at the end.
    method MoveOffsets(a: Asm, ghost r: set<int>, newPosOf: seq<nat>, end: nat)
      requires offsets == a.offsets && WellFormedAsm(a) && end == NewPos(r, |a.code|)
      requires |newPosOf| == |a.code| && forall p :: 0 <= p < |a.code| ==> newPosOf[p] == NewPos(r, p)
      modifies this`offsets
      ensures |offsets| == |a.offsets| && forall c :: 0 <= c < |offsets| ==> offsets[c] == NewPos(r, a.offsets[c])
    {
      for b := 0 to |offsets|
        invariant |offsets| == |a.offsets|
        invariant forall c :: 0 <= c < b ==> offsets[c] == NewPos(r, a.offsets[c])
        invariant forall c :: b <= c < |offsets| ==> offsets[c] == a.offsets[c]
      {
        offsets := offsets[b := if offsets[b] < |newPosOf| then newPosOf[offsets[b]] else end];
      }
    }

    // Grows every 8-bit branch that cannot reach its target into a trampoline.
    method RelaxBranches() returns (ghost r: set<int>)
      requires WellFormedAsm(AsAsm())
      modifies this`code, this`fixups, this`offsets
      ensures IsLeastRelaxation(old(AsAsm()), r)
      ensures IsRelaxed(old(AsAsm()), r, AsAsm())
    {
      var a := AsAsm();
      var relaxed;
      relaxed, r := DecideRelaxations(a);
      if forall f :: 0 <= f < |fixups| ==> !relaxed[f] {
        NothingRelaxed(a, relaxed[..], r);
        return;
      }
      var extra := CountExtra(a, relaxed, r);
      var newCode, newPosArray := Rebuild(a, extra, r);
      var newPosOf, marks := newPosArray[..], relaxed[..];
      newCode := FlipRelaxed(a, marks, newPosOf, newCode, r);

      MoveFixups(a, r, marks, newPosOf);
      MoveOffsets(a, r, newPosOf, |newCode|);
      code := newCode;
      RelaxedFrom(a, r, AsAsm());
    }

    // Writes the offset of fixup f, or fails when it does not fit the field.
    method ResolveOne(f: nat, ghost a: Asm, ghost r: set<int>, ghost code0: seq<Instr>)
      requires WellFormedAsm(a) && Closed(a, r) && IsRelaxed(a, r, AsAsm().(code := code0))
      requires f < |fixups| && |code| == |code0| && !hadError
      requires var p := MovedFixup(r, a.fixups[f]).pos; p < |code| ==> code[p] == code0[p]
      modifies this`code, this`hadError
      ensures |code| == |code0| && (|code0| <= 0x7F_FFFF ==> !hadError)
      ensures !hadError ==> FixupOk(a, a.fixups[f]) && Encoded(a, r, code0, code, a.fixups[f])
      ensures forall q :: 0 <= q < |code| && q != MovedFixup(r, a.fixups[f]).pos ==> code[q] == old(code)[q]
    {
      MovedSite(a, r, AsAsm().(code := code0), f);
      var x := fixups[f];
      var rel := offsets[x.target] - (x.pos + 1);
      var maxv := if x.bits == 8 then 0x7F else 0x7F_FFFF;
      if rel < -maxv - 1 || rel > maxv {
        hadError := true;
        return;
      }
      code := code[x.pos := WithOffset(code[x.pos], code[x.pos].off + Field(rel, x.bits))];
    }

    // Writes every branch's offset, or fails when one does not fit its field.
    method ResolveFixups(ghost a: Asm, ghost r: set<int>)
      requires WellFormedAsm(a) && r <= Candidates(a) && Closed(a, r) && IsRelaxed(a, r, AsAsm()) && !hadError
      modifies this`code, this`hadError
      ensures !hadError ==> IsFinal(a, r, code)
      ensures |old(code)| <= 0x7F_FFFF ==> !hadError
    {
      ghost var code0 := code;
      ghost var done: set<int> := {};
      for f := 0 to |fixups|
        invariant !hadError && |code| == |code0|
        invariant forall i :: 0 <= i < f ==> FixupOk(a, a.fixups[i]) && Encoded(a, r, code0, code, a.fixups[i])
        invariant forall q :: q in done ==> exists i :: 0 <= i < f && MovedFixup(r, a.fixups[i]).pos == q
        invariant forall q :: 0 <= q < |code| && q !in done ==> code[q] == code0[q]
      {
        MovedApart(a, r, f);
        assert MovedFixup(r, a.fixups[f]).pos !in done;
        ghost var before := code;
        ResolveOne(f, a, r, code0);
        if hadError {
          return;
        }
        EncodedStay(a, r, code0, before, code, f, f);
        done := done + {MovedFixup(r, a.fixups[f]).pos};
      }
      FinalFromEncoded(a, r, AsAsm().(code := code0), code);
    }

    // Writes the final position of each jump-table entry's block into DATA.
    method ResolveTableFixups(ghost a: Asm, ghost r: set<int>)
      requires WellFormedAsm(a) && tables == a.tables && |offsets| == |a.offsets|
      requires forall b :: 0 <= b < |a.offsets| ==> offsets[b] == NewPos(r, a.offsets[b])
      requires tables != [] ==> forall b :: 0 <= b < |offsets| ==> offsets[b] < TWO_TO_THE_32
      requires forall i :: 0 <= i < |tables| ==> tables[i].dataOff + 4 <= |data|
      modifies this`data
      ensures TablesFinal(a, r, data)
      ensures |data| == |old(data)|
      ensures forall k :: 0 <= k < |data| && (forall i :: 0 <= i < |tables| ==> !InSlot(tables[i], k)) ==>
                data[k] == old(data)[k]
    {
      for i := 0 to |tables|
        invariant |data| == |old(data)|
        invariant forall j :: 0 <= j < i ==> ReadLE32(data, tables[j].dataOff) == Some(offsets[tables[j].target])
        invariant forall k :: 0 <= k < |data| && (forall j :: 0 <= j < i ==> !InSlot(tables[j], k)) ==> data[k] == old(data)[k]
      {
        ghost var before := data;
        data := WriteLE32(data, tables[i].dataOff, offsets[tables[i].target]);
        forall j | 0 <= j < i
          ensures ReadLE32(data, tables[j].dataOff) == Some(offsets[tables[j].target])
        {
          ReadElsewhere(before, tables[i].dataOff, offsets[tables[i].target], tables[j].dataOff);
        }
      }
      forall i | 0 <= i < |a.tables|
        ensures ReadLE32(data, a.tables[i].dataOff) == Some(NewPos(r, a.offsets[a.tables[i].target]))
      {
        assert ReadLE32(data, tables[i].dataOff) == Some(offsets[tables[i].target]);
      }
    }

    // All three passes, as they end a function.
    method Finish() returns (ghost r: set<int>)
      requires WellFormedAsm(AsAsm()) && !hadError
      requires tables != [] ==> 2 * |code| < TWO_TO_THE_32
      requires forall i :: 0 <= i < |tables| ==> tables[i].dataOff + 4 <= |data|
      modifies this
      ensures IsLeastRelaxation(old(AsAsm()), r)
      ensures !hadError ==> IsFinal(old(AsAsm()), r, code) && TablesFinal(old(AsAsm()), r, data)
      ensures |data| == |old(data)|
      ensures forall k :: 0 <= k < |data| && (forall i :: 0 <= i < |old(tables)| ==> !InSlot(old(tables)[i], k)) ==>
                data[k] == old(data)[k]
      ensures 2 * |old(code)| <= 0x7F_FFFF ==> !hadError
    {
      ghost var a := AsAsm();
      r := RelaxBranches();
      NewPosMonotone(r, 0, |a.code|);
      ResolveFixups(a, r);
      if !hadError {
        forall b | 0 <= b < |a.offsets|
          ensures NewPos(r, a.offsets[b]) <= NewPos(r, |a.code|)
        {
          NewPosMonotone(r, a.offsets[b], |a.code|);
        }
        ResolveTableFixups(a, r);
      }
    }
  }

  // Below n no branch is to be resolved.
  ghost predicate NoFixupBelow(a: Asm, n: nat) {
    forall i :: 0 <= i < |a.fixups| ==> a.fixups[i].pos >= n
  }

  // There the finished code is as it was, at the same positions.
  lemma PrefixKept(a: Asm, r: set<int>, code: seq<Instr>, n: nat)
    requires WellFormedAsm(a) && r <= Candidates(a) && IsFinal(a, r, code) && NoFixupBelow(a, n) && n <= |a.code|
    ensures a.code[..n] <= code && forall p :: 0 <= p <= n ==> NewPos(r, p) == p
  {
    forall p | 0 <= p <= n ensures NewPos(r, p) == p {
      CountEmptyStretch(r, 0, p);
    }
    NewPosMonotone(r, n, |a.code|);
    forall p | 0 <= p < n ensures code[p] == a.code[p] {
      assert FinalAt(a, r, code, p);
    }
  }

  // DATA below m is as it was, with every slot from m on.
  ghost predicate SlotsFrom(tables: seq<TableFixup>, m: nat) {
    forall i :: 0 <= i < |tables| ==> tables[i].dataOff >= m
  }

  predicate InSlot(t: TableFixup, k: int) {
    t.dataOff <= k < t.dataOff + 4
  }

  // Stores a word at an offset, low byte first.
  function WriteLE32(data: seq<nat>, p: nat, w: nat): (data': seq<nat>)
    requires p + 4 <= |data| && w < TWO_TO_THE_32
    ensures |data'| == |data| && ReadLE32(data', p) == Some(w)
    ensures forall k :: 0 <= k < |data| && !(p <= k < p + 4) ==> data'[k] == data[k]
  {
    var w1, w2, w3 := w / 0x100, w / 0x100 / 0x100, w / 0x100 / 0x100 / 0x100;
    data[p := w % 0x100][p + 1 := w1 % 0x100][p + 2 := w2 % 0x100][p + 3 := w3 % 0x100]
  }

  lemma ReadElsewhere(data: seq<nat>, p: nat, w: nat, q: nat)
    requires p + 4 <= |data| && w < TWO_TO_THE_32 && (q + 4 <= p || p + 4 <= q)
    ensures ReadLE32(WriteLE32(data, p, w), q) == ReadLE32(data, q)
  {
  }

  // The two's-complement field of n bits that encodes rel.
  function Field(rel: int, bits: nat): int {
    if rel >= 0 then rel else if bits == 8 then rel + 0x100 else rel + 0x100_0000
  }

  // Fixup x of the original code has its distance in its field.
  ghost predicate Encoded(a: Asm, r: set<int>, code0: seq<Instr>, code: seq<Instr>, x: Fixup)
    requires WellFormedAsm(a) && FixupOk(a, x)
  {
    var q := MovedFixup(r, x).pos;
    && 0 <= q < |code| == |code0| && IsBranch(code0[q]) && IsBranch(code[q])
    && code[q] == WithOffset(code0[q], code[q].off)
    && FieldTarget(code[q], q) == NewPos(r, a.offsets[x.target])
  }

  // Writing the field of fixup f leaves the first n encoded.
  lemma EncodedStay(a: Asm, r: set<int>, code0: seq<Instr>, before: seq<Instr>, code: seq<Instr>, f: nat, n: nat)
    requires WellFormedAsm(a) && n <= f < |a.fixups| && |before| == |code|
    requires forall i :: 0 <= i < n ==> Encoded(a, r, code0, before, a.fixups[i])
    requires forall q :: 0 <= q < |code| && q != MovedFixup(r, a.fixups[f]).pos ==> code[q] == before[q]
    ensures forall i :: 0 <= i < n ==> Encoded(a, r, code0, code, a.fixups[i])
  {
    MovedApart(a, r, f);
    forall i | 0 <= i < n
      ensures Encoded(a, r, code0, code, a.fixups[i])
    {
      assert Encoded(a, r, code0, before, a.fixups[i]);
    }
  }

  // Where fixup i sits after relaxation: a branch whose field is zero, with room for
  // the distance if the branch was left short.
  lemma MovedSite(a: Asm, r: set<int>, a': Asm, i: nat)
    requires WellFormedAsm(a) && Closed(a, r) && IsRelaxed(a, r, a') && i < |a.fixups|
    ensures FixupOk(a, a.fixups[i])
    ensures var x := a'.fixups[i];
            && x.pos < |a'.code| && IsBranch(a'.code[x.pos]) && a'.code[x.pos].off == 0 && x.target < |a'.offsets|
            && x.bits == (if a'.code[x.pos].Jmp? then 24 else 8)
            && (x.bits == 8 ==> InRange8(a'.offsets[x.target] - (x.pos + 1)))
            && 0 <= a'.offsets[x.target] <= |a'.code|
  {
    var x := a.fixups[i];
    assert FixupOk(a, x);
    assert Placed(a, r, a'.code, x.pos);
    NewPosMonotone(r, a.offsets[x.target], |a.code|);
    NewPosMonotone(r, 0, a.offsets[x.target]);
  }

  lemma MovedApart(a: Asm, r: set<int>, f: nat)
    requires WellFormedAsm(a) && f < |a.fixups|
    ensures forall i :: 0 <= i < |a.fixups| && i != f ==> MovedFixup(r, a.fixups[i]).pos != MovedFixup(r, a.fixups[f]).pos
  {
    forall i | 0 <= i < |a.fixups| && i != f
      ensures MovedFixup(r, a.fixups[i]).pos != MovedFixup(r, a.fixups[f]).pos
    {
      var p, q := a.fixups[i].pos, a.fixups[f].pos;
      if p < q {
        NewPosApart(r, p, q);
      } else {
        NewPosApart(r, q, p);
      }
    }
  }

  // The code agrees with a' wherever no fixup sits.
  ghost predicate OnlyFixupsChanged(a: Asm, r: set<int>, a': Asm, code: seq<Instr>) {
    |code| == |a'.code| &&
    forall q :: 0 <= q < |code| && (forall i :: 0 <= i < |a.fixups| ==> MovedFixup(r, a.fixups[i]).pos != q) ==>
      code[q] == a'.code[q]
  }

  lemma FinalFromEncoded(a: Asm, r: set<int>, a': Asm, code: seq<Instr>)
    requires WellFormedAsm(a) && r <= Candidates(a) && IsRelaxed(a, r, a') && OnlyFixupsChanged(a, r, a', code)
    requires forall i :: 0 <= i < |a.fixups| ==> FixupOk(a, a.fixups[i]) && Encoded(a, r, a'.code, code, a.fixups[i])
    ensures IsFinal(a, r, code)
  {
    forall p | 0 <= p < |a.code|
      ensures 0 <= NewPos(r, p) < |code| && FinalAt(a, r, code, p)
    {
      assert Placed(a, r, a'.code, p);
      NewPosMonotone(r, 0, p);
      if p in r {
        CandidateIsTest(a, p);
      }
      if HasFixup(a, p) {
        var i :| 0 <= i < |a.fixups| && a.fixups[i].pos == p && Taken(a, p) == a.offsets[a.fixups[i].target];
        assert Encoded(a, r, a'.code, code, a.fixups[i]);
        FinalAtFixup(a, r, a', code, i);
      } else {
        Untouched(a, r, p, NewPos(r, p));
      }
    }
  }

  lemma FinalAtFixup(a: Asm, r: set<int>, a': Asm, code: seq<Instr>, i: nat)
    requires WellFormedAsm(a) && r <= Candidates(a) && OnlyFixupsChanged(a, r, a', code)
    requires i < |a.fixups| && FixupOk(a, a.fixups[i]) && Encoded(a, r, a'.code, code, a.fixups[i])
    requires var p := a.fixups[i].pos;
             Placed(a, r, a'.code, p) && 0 <= NewPos(r, p) < |code| && HasFixup(a, p) &&
             Taken(a, p) == a.offsets[a.fixups[i].target]
    ensures FinalAt(a, r, code, a.fixups[i].pos)
  {
    var p := a.fixups[i].pos;
    if p in r {
      CandidateIsTest(a, p);
      Untouched(a, r, p, NewPos(r, p));
    }
  }

  // No fixup sits at the first instruction of a trampoline, nor at an unfixed one.
  lemma Untouched(a: Asm, r: set<int>, p: nat, q: int)
    requires WellFormedAsm(a) && q == NewPos(r, p) && (p in r || !HasFixup(a, p))
    ensures forall i :: 0 <= i < |a.fixups| ==> MovedFixup(r, a.fixups[i]).pos != q
  {
    forall i | 0 <= i < |a.fixups|
      ensures MovedFixup(r, a.fixups[i]).pos != q
    {
      var x := a.fixups[i].pos;
      if x < p {
        NewPosApart(r, x, p);
      } else if p < x {
        NewPosApart(r, p, x);
      }
    }
  }

  lemma RelaxedFrom(a: Asm, r: set<int>, a': Asm)
    requires WellFormedAsm(a) && |a'.code| == NewPos(r, |a.code|)
    requires forall p :: 0 <= p < |a.code| ==> Placed(a, r, a'.code, p)
    requires |a'.fixups| == |a.fixups| && forall i :: 0 <= i < |a.fixups| ==> a'.fixups[i] == MovedFixup(r, a.fixups[i])
    requires |a'.offsets| == |a.offsets| && forall b :: 0 <= b < |a.offsets| ==> a'.offsets[b] == NewPos(r, a.offsets[b])
    requires a'.tables == a.tables
    ensures IsRelaxed(a, r, a')
  {
    forall p | 0 <= p < |a.code|
      ensures NewPos(r, p) < |a'.code| && Placed(a, r, a'.code, p)
    {
      assert Placed(a, r, a'.code, p);
    }
  }

  lemma MarkedCandidate(a: Asm, relaxed: seq<bool>, r: set<int>, p: int)
    requires WellFormedAsm(a) && Marks(a, relaxed, r) && p in r
    ensures exists i :: 0 <= i < |a.fixups| && relaxed[i] && a.fixups[i].pos == p
  {
    assert p in Candidates(a);
  }

  lemma NothingRelaxed(a: Asm, relaxed: seq<bool>, r: set<int>)
    requires WellFormedAsm(a) && Marks(a, relaxed, r)
    requires forall i :: 0 <= i < |relaxed| ==> !relaxed[i]
    ensures r == {} && IsRelaxed(a, r, a)
  {
    if r != {} {
      var p := Pick(r);
      MarkedCandidate(a, relaxed, r, p);
    }
    forall p: int
      ensures NewPos(r, p) == p
    {
      NoneBelow(p);
    }
  }
}
