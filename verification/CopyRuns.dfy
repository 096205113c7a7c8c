// Parallel copies run one after the other: what they come to, and when each still gets what was
// there before the first of them.
module CopyRuns {
  import opened Machine
  import opened PhiCopy
  import opened Lowering

  // The states before, between and after the copies; the scratch window of copy i starts at hs[i].
  ghost predicate RunsAll(lists: seq<seq<Move>>, hs: seq<nat>, sts: seq<State>) {
    && |hs| == |lists| && |sts| == |lists| + 1
    && forall i :: 0 <= i < |lists| ==> EdgeEffect(lists[i], hs[i], sts[i], sts[i + 1])
  }

  // No scratch window, all of which start at h or above, disturbs l.
  predicate Fixed(l: Loc, h: nat) {
    Outside(l, h) || l == Reg(REG_ZERO)
  }

  ghost predicate WindowsFit(lists: seq<seq<Move>>, hs: seq<nat>, h: nat) {
    && |hs| == |lists|
    && forall i :: 0 <= i < |lists| ==> h <= hs[i] && EdgeMoves(lists[i], h) && (lists[i] != [] ==> hs[i] + 1 <= MAX_EMIT_REG)
  }

  // What a copy puts into l, if anything.
  function SourceIn(moves: seq<Move>, l: Loc): Option<Source> {
    if moves == [] then None
    else if moves[|moves| - 1].dst == l then Some(moves[|moves| - 1].src)
    else SourceIn(moves[..|moves| - 1], l)
  }

  lemma {:induction false} SourceFound(moves: seq<Move>, l: Loc)
    requires DistinctDsts(moves)
    ensures forall m :: m in moves && m.dst == l ==> SourceIn(moves, l) == Some(m.src)
    ensures SourceIn(moves, l).Some? ==> Move(l, SourceIn(moves, l).value) in moves
    ensures SourceIn(moves, l).None? ==> l !in Dsts(moves)
  {
    if moves != [] {
      var n := |moves| - 1;
      SourceFound(moves[..n], l);
      assert moves == moves[..n] + [moves[n]];
      assert SourceIn(moves, l).None? ==> forall i :: 0 <= i < n ==> moves[..n][i].dst in Dsts(moves[..n]);
    }
  }

  // What l holds after all the copies, in terms of what was there before them.
  function Composed(lists: seq<seq<Move>>, l: Loc): Source {
    if lists == [] then From(l)
    else
      var n := |lists| - 1;
      var src := SourceIn(lists[n], l);
      if src.None? then Composed(lists[..n], l)
      else if src.value.From? then Composed(lists[..n], src.value.loc)
      else src.value
  }

  lemma {:induction false} ComposedHolds(lists: seq<seq<Move>>, hs: seq<nat>, h: nat, sts: seq<State>, l: Loc)
    requires WindowsFit(lists, hs, h) && RunsAll(lists, hs, sts) && Fixed(l, h)
    ensures sts[|lists|].Get(l) == Eval(Composed(lists, l), sts[0])
    decreases |lists|
  {
    if lists != [] {
      var n := |lists| - 1;
      var before := sts[..n + 1];
      PrefixRuns(lists, hs, h, sts);
      LastCopy(lists[n], hs[n], h, sts[n], sts[n + 1], l);
      var src := SourceIn(lists[n], l);
      if src.None? {
        ComposedHolds(lists[..n], hs[..n], h, before, l);
      } else if src.value.From? {
        ComposedHolds(lists[..n], hs[..n], h, before, src.value.loc);
      }
    }
  }

  lemma PrefixRuns(lists: seq<seq<Move>>, hs: seq<nat>, h: nat, sts: seq<State>)
    requires WindowsFit(lists, hs, h) && RunsAll(lists, hs, sts) && lists != []
    ensures var n := |lists| - 1; WindowsFit(lists[..n], hs[..n], h) && RunsAll(lists[..n], hs[..n], sts[..n + 1])
  {
    var n := |lists| - 1;
    forall i | 0 <= i < n
      ensures EdgeEffect(lists[..n][i], hs[..n][i], sts[..n + 1][i], sts[..n + 1][i + 1])
    {
      assert EdgeEffect(lists[i], hs[i], sts[i], sts[i + 1]);
    }
    forall i | 0 <= i < n
      ensures EdgeMoves(lists[..n][i], h) && h <= hs[..n][i] && (lists[..n][i] != [] ==> hs[..n][i] + 1 <= MAX_EMIT_REG)
    {
      assert EdgeMoves(lists[i], h);
    }
  }

  lemma LastCopy(moves: seq<Move>, hk: nat, h: nat, st: State, st': State, l: Loc)
    requires EdgeMoves(moves, h) && h <= hk && (moves != [] ==> hk + 1 <= MAX_EMIT_REG) && EdgeEffect(moves, hk, st, st') && Fixed(l, h)
    ensures st'.Get(l) == match SourceIn(moves, l) case None => st.Get(l) case Some(src) => Eval(src, st)
    ensures SourceIn(moves, l).Some? && SourceIn(moves, l).value.From? ==> Fixed(SourceIn(moves, l).value.loc, h)
  {
    SourceFound(moves, l);
    if SourceIn(moves, l).Some? {
      var i :| 0 <= i < |moves| && moves[i] == Move(l, SourceIn(moves, l).value);
      assert st'.Get(moves[i].dst) == Eval(moves[i].src, st);
    }
  }

  lemma {:induction false} WorldKept(lists: seq<seq<Move>>, hs: seq<nat>, sts: seq<State>, n: nat)
    requires RunsAll(lists, hs, sts) && n <= |lists|
    ensures sts[n].world == sts[0].world
  {
    if n > 0 {
      WorldKept(lists, hs, sts, n - 1);
      assert EdgeEffect(lists[n - 1], hs[n - 1], sts[n - 1], sts[n]);
    }
  }

  // There is a run of the copies from any state.
  function Copied(moves: seq<Move>, n: nat, st: State): State
    requires n <= |moves|
  {
    if n == 0 then st else Copied(moves, n - 1, st).Put(moves[n - 1].dst, Eval(moves[n - 1].src, st))
  }

  lemma {:induction false} CopiedHolds(moves: seq<Move>, n: nat, st: State)
    requires DistinctDsts(moves) && n <= |moves|
    ensures Copied(moves, n, st).world == st.world
    ensures forall i :: 0 <= i < n ==> Copied(moves, n, st).Get(moves[i].dst) == Eval(moves[i].src, st)
    ensures forall l :: (forall i :: 0 <= i < n ==> moves[i].dst != l) ==> Copied(moves, n, st).Get(l) == st.Get(l)
  {
    if n > 0 {
      CopiedHolds(moves, n - 1, st);
    }
  }

  lemma CopiedIsCopy(moves: seq<Move>, h: nat, st: State)
    requires DistinctDsts(moves) && (moves != [] ==> h + 1 <= MAX_EMIT_REG)
    ensures EdgeEffect(moves, h, st, Copied(moves, |moves|, st))
  {
    CopiedHolds(moves, |moves|, st);
    var st' := Copied(moves, |moves|, st);
    forall l | l !in Dsts(moves)
      ensures st'.Get(l) == st.Get(l)
    {
      forall i | 0 <= i < |moves|
        ensures moves[i].dst != l
      {
        assert moves[i].dst in Dsts(moves);
      }
    }
  }

  lemma {:induction false} SomeRun(lists: seq<seq<Move>>, hs: seq<nat>, h: nat, st: State) returns (sts: seq<State>)
    requires WindowsFit(lists, hs, h)
    ensures RunsAll(lists, hs, sts) && sts[0] == st
    decreases |lists|
  {
    if lists == [] {
      return [st];
    }
    var n := |lists| - 1;
    var before := SomeRun(lists[..n], hs[..n], h, st);
    CopiedIsCopy(lists[n], hs[n], before[n]);
    sts := before + [Copied(lists[n], |lists[n]|, before[n])];
    forall i | 0 <= i < |lists|
      ensures EdgeEffect(lists[i], hs[i], sts[i], sts[i + 1])
    {
      if i < n {
        assert EdgeEffect(lists[..n][i], hs[..n][i], before[i], before[i + 1]);
      }
    }
  }

  // ----- When two sources hold the same ----------------------------------------------------------------

  predicate Words(st: State) {
    forall l :: l in st.locs ==> IsWord(st.locs[l])
  }

  // What is known of a state: nothing, that a location holds a word, or that it holds none of some words.
  datatype Known = Anything | Equals(l: Loc, w: int) | Avoids(l: Loc, ws: set<int>)

  predicate Fits(k: Known, st: State) {
    && st.Get(Reg(REG_ZERO)) == 0
    && match k
       case Anything => true
       case Equals(l, w) => st.Get(l) == w
       case Avoids(l, ws) => st.Get(l) !in ws
  }

  // Some state of words fits k, whatever three other locations hold.
  predicate Plausible(k: Known) {
    match k
    case Anything => true
    case Equals(l, w) => l != Reg(REG_ZERO) && IsWord(w)
    case Avoids(l, ws) => l != Reg(REG_ZERO) && |ws| + 4 < TWO_TO_THE_32
  }

  // A source as a known word, or as what a location happens to hold.
  datatype Held = ThatWord(w: int) | ThatOf(l: Loc)

  function HeldBy(src: Source, k: Known): Held {
    match src
    case Const(w) => ThatWord(w)
    case Word(w) => ThatWord(w)
    case From(l) => if l == Reg(REG_ZERO) then ThatWord(0) else if k.Equals? && k.l == l then ThatWord(k.w) else ThatOf(l)
  }

  function Content(x: Held, st: State): int {
    match x
    case ThatWord(w) => w
    case ThatOf(l) => st.Get(l)
  }

  predicate Same(a: Source, b: Source, k: Known) {
    HeldBy(a, k) == HeldBy(b, k)
  }

  lemma SameHolds(a: Source, b: Source, k: Known, st: State)
    requires Fits(k, st) && Same(a, b, k)
    ensures Eval(a, st) == Eval(b, st)
  {
    assert Eval(a, st) == Content(HeldBy(a, k), st) && Eval(b, st) == Content(HeldBy(b, k), st);
  }

  // A word that is none of ws.
  function Other(ws: set<int>, least: nat): (n: nat)
    ensures least <= n <= least + |ws| && n !in ws
  {
    if least in ws then Other(ws - {least}, least + 1) else least
  }

  lemma TwoOthers(ws: set<int>) returns (n: nat, n': nat)
    requires |ws| + 2 < TWO_TO_THE_32
    ensures IsWord(n) && IsWord(n') && n != n' && n !in ws && n' !in ws
  {
    n := Other(ws, 0);
    n' := Other(ws + {n}, 0);
  }

  predicate Varies(x: Held, k: Known) {
    x.ThatOf? ==> x.l != Reg(REG_ZERO) && !(k.Equals? && k.l == x.l)
  }

  // The words that telling a and b apart must steer clear of.
  function WordsIn(a: Held, b: Held, k: Known): set<int> {
    (if k.Avoids? then k.ws else {}) + (if a.ThatWord? then {a.w} else {}) + (if b.ThatWord? then {b.w} else {})
  }

  // A state in which a and b hold n and n', and what is known of otherwise fits.
  function Telling(a: Held, b: Held, k: Known, n: int, n': int): State {
    var base: map<Loc, int> := match k
      case Anything => map[]
      case Equals(l, w) => map[l := w]
      case Avoids(l, _) => map[l := n];
    var one := if a.ThatOf? then base[a.l := n] else base;
    State(if b.ThatOf? then one[b.l := n'] else one, World(map[], []))
  }

  lemma Tells(a: Held, b: Held, k: Known, n: int, n': int)
    requires a != b && Plausible(k) && Varies(a, k) && Varies(b, k) && IsWord(n) && IsWord(n') && n != n'
    requires n !in WordsIn(a, b, k) && n' !in WordsIn(a, b, k)
    ensures Fits(k, Telling(a, b, k, n, n')) && Words(Telling(a, b, k, n, n'))
    ensures Content(a, Telling(a, b, k, n, n')) != Content(b, Telling(a, b, k, n, n'))
  {
  }

  lemma FewWords(a: Held, b: Held, k: Known)
    requires Plausible(k)
    ensures |WordsIn(a, b, k)| + 2 < TWO_TO_THE_32
  {
  }

  // Sources that are not the same differ in some state of words that fits what is known.
  lemma Differ(a: Source, b: Source, k: Known) returns (st: State)
    requires !Same(a, b, k) && Plausible(k)
    ensures Fits(k, st) && Words(st) && Eval(a, st) != Eval(b, st)
  {
    var x, y := HeldBy(a, k), HeldBy(b, k);
    FewWords(x, y, k);
    var n, n' := TwoOthers(WordsIn(x, y, k));
    Tells(x, y, k, n, n');
    st := Telling(x, y, k, n, n');
    assert Eval(a, st) == Content(x, st) && Eval(b, st) == Content(y, st);
  }

  // ----- When copies one after the other are right ---------------------------------------------------------

  // What the copies are for: each destination gets what its source held before the first of them, and
  // the locations in keep are as they were.
  ghost predicate Right(lists: seq<seq<Move>>, keep: set<Loc>, st: State, st': State) {
    && (forall i, m :: 0 <= i < |lists| && m in lists[i] ==> st'.Get(m.dst) == Eval(m.src, st))
    && forall l :: l in keep ==> st'.Get(l) == st.Get(l)
  }

  ghost predicate AlwaysRight(lists: seq<seq<Move>>, hs: seq<nat>, keep: set<Loc>) {
    forall sts: seq<State> :: RunsAll(lists, hs, sts) && Words(sts[0]) && sts[0].Get(Reg(REG_ZERO)) == 0 ==>
      Right(lists, keep, sts[0], sts[|lists|])
  }

  // The copies composed send each destination to its own source, and the rest to itself.
  ghost predicate ComposesTo(lists: seq<seq<Move>>, keep: set<Loc>) {
    && (forall i, m :: 0 <= i < |lists| && m in lists[i] ==> Same(Composed(lists, m.dst), m.src, Anything))
    && forall l :: l in keep ==> Same(Composed(lists, l), From(l), Anything)
  }

  lemma DstFixed(lists: seq<seq<Move>>, hs: seq<nat>, h: nat, i: nat, m: Move)
    requires WindowsFit(lists, hs, h) && i < |lists| && m in lists[i]
    ensures Fixed(m.dst, h)
  {
    assert EdgeMoves(lists[i], h);
    var n :| 0 <= n < |lists[i]| && lists[i][n] == m;
  }

  // Copies one after the other are right from every state exactly when they compose to what they are for.
  lemma CopiesRightIff(lists: seq<seq<Move>>, hs: seq<nat>, h: nat, keep: set<Loc>)
    requires WindowsFit(lists, hs, h) && forall l :: l in keep ==> Fixed(l, h)
    ensures AlwaysRight(lists, hs, keep) <==> ComposesTo(lists, keep)
  {
    if ComposesTo(lists, keep) {
      forall sts: seq<State> | RunsAll(lists, hs, sts) && sts[0].Get(Reg(REG_ZERO)) == 0
        ensures Right(lists, keep, sts[0], sts[|lists|])
      {
        ComposedIsRight(lists, hs, h, keep, sts);
      }
    } else if i, m :| 0 <= i < |lists| && m in lists[i] && !Same(Composed(lists, m.dst), m.src, Anything) {
      var st := Differ(Composed(lists, m.dst), m.src, Anything);
      var sts := SomeRun(lists, hs, h, st);
      DstFixed(lists, hs, h, i, m);
      ComposedHolds(lists, hs, h, sts, m.dst);
    } else {
      var l :| l in keep && !Same(Composed(lists, l), From(l), Anything);
      var st := Differ(Composed(lists, l), From(l), Anything);
      var sts := SomeRun(lists, hs, h, st);
      ComposedHolds(lists, hs, h, sts, l);
    }
  }

  lemma ComposedIsRight(lists: seq<seq<Move>>, hs: seq<nat>, h: nat, keep: set<Loc>, sts: seq<State>)
    requires WindowsFit(lists, hs, h) && (forall l :: l in keep ==> Fixed(l, h)) && ComposesTo(lists, keep)
    requires RunsAll(lists, hs, sts) && sts[0].Get(Reg(REG_ZERO)) == 0
    ensures Right(lists, keep, sts[0], sts[|lists|])
  {
    forall i, m: Move | 0 <= i < |lists| && m in lists[i]
      ensures sts[|lists|].Get(m.dst) == Eval(m.src, sts[0])
    {
      DstFixed(lists, hs, h, i, m);
      ComposedHolds(lists, hs, h, sts, m.dst);
      SameHolds(Composed(lists, m.dst), m.src, Anything, sts[0]);
    }
    forall l | l in keep
      ensures sts[|lists|].Get(l) == sts[0].Get(l)
    {
      ComposedHolds(lists, hs, h, sts, l);
      SameHolds(Composed(lists, l), From(l), Anything, sts[0]);
    }
  }

  // No copy writes what a later one reads, and copies with a destination in common agree on its source.
  ghost predicate Apart(lists: seq<seq<Move>>) {
    forall i, j, m, n :: 0 <= i < j < |lists| && m in lists[i] && n in lists[j] ==>
      n.src != From(m.dst) && (m.dst == n.dst ==> m.src == n.src)
  }

  ghost predicate Unwritten(lists: seq<seq<Move>>, l: Loc) {
    forall i, m :: 0 <= i < |lists| && m in lists[i] ==> m.dst != l
  }

  lemma {:induction false} UnwrittenStays(lists: seq<seq<Move>>, l: Loc)
    requires Unwritten(lists, l) && forall i :: 0 <= i < |lists| ==> DistinctDsts(lists[i])
    ensures Composed(lists, l) == From(l)
  {
    if lists != [] {
      var n := |lists| - 1;
      SourceFound(lists[n], l);
      UnwrittenStays(lists[..n], l);
    }
  }

  lemma {:induction false} ApartComposed(lists: seq<seq<Move>>, i: nat, m: Move)
    requires Apart(lists) && i < |lists| && m in lists[i] && forall j :: 0 <= j < |lists| ==> DistinctDsts(lists[j])
    ensures Composed(lists, m.dst) == m.src
    decreases |lists|
  {
    var n := |lists| - 1;
    SourceFound(lists[n], m.dst);
    if SourceIn(lists[n], m.dst).None? {
      ApartPrefix(lists);
      ApartComposed(lists[..n], i, m);
    } else {
      LastAgrees(lists, i, m, Move(m.dst, SourceIn(lists[n], m.dst).value));
      if m.src.From? {
        UnwrittenStays(lists[..n], m.src.loc);
      }
    }
  }

  lemma ApartPrefix(lists: seq<seq<Move>>)
    requires Apart(lists) && lists != []
    ensures Apart(lists[..|lists| - 1])
  {
  }

  lemma LastAgrees(lists: seq<seq<Move>>, i: nat, m: Move, last: Move)
    requires Apart(lists) && i < |lists| && m in lists[i] && last in lists[|lists| - 1] && last.dst == m.dst && DistinctDsts(lists[|lists| - 1])
    ensures last.src == m.src && (m.src.From? ==> Unwritten(lists[..|lists| - 1], m.src.loc))
  {
    SourceFound(lists[|lists| - 1], m.dst);
  }

  // Copies that are apart, and leave keep alone, are right.
  lemma ApartComposes(lists: seq<seq<Move>>, keep: set<Loc>)
    requires Apart(lists) && (forall j :: 0 <= j < |lists| ==> DistinctDsts(lists[j])) && forall l :: l in keep ==> Unwritten(lists, l)
    ensures ComposesTo(lists, keep)
  {
    forall i, m: Move | 0 <= i < |lists| && m in lists[i]
      ensures Same(Composed(lists, m.dst), m.src, Anything)
    {
      ApartComposed(lists, i, m);
    }
    forall l | l in keep
      ensures Same(Composed(lists, l), From(l), Anything)
    {
      UnwrittenStays(lists, l);
    }
  }

  // ----- One list more than once ------------------------------------------------------------------------------

  lemma OnceMore(moves: seq<Move>, lists: seq<seq<Move>>, l: Loc)
    requires DistinctDsts(moves)
    ensures var src := SourceIn(moves, l);
            Composed(lists + [moves], l) ==
            if src.None? then Composed(lists, l) else if src.value.From? then Composed(lists, src.value.loc) else src.value
  {
    assert (lists + [moves])[..|lists|] == lists;
  }

  ghost predicate ReadsNoneOfItsOwn(moves: seq<Move>) {
    forall m, n :: m in moves && n in moves ==> n.src != From(m.dst)
  }

  lemma TwiceIsApart(moves: seq<Move>)
    requires DistinctDsts(moves) && ReadsNoneOfItsOwn(moves)
    ensures Apart([moves, moves])
  {
    forall m, n | m in moves && n in moves && m.dst == n.dst
      ensures m.src == n.src
    {
      SourceFound(moves, m.dst);
    }
  }

  // A copy made twice is right exactly when it reads none of its destinations.
  lemma TwiceIff(moves: seq<Move>, hs: seq<nat>, h: nat)
    requires WindowsFit([moves, moves], hs, h)
    ensures AlwaysRight([moves, moves], hs, {}) <==> ReadsNoneOfItsOwn(moves)
  {
    var lists := [moves, moves];
    CopiesRightIff(lists, hs, h, {});
    assert EdgeMoves(lists[0], h);
    if ReadsNoneOfItsOwn(moves) {
      TwiceIsApart(moves);
      ApartComposes(lists, {});
    } else {
      var m, n :| m in moves && n in moves && n.src == From(m.dst);
      ReadsItself(moves, h, m, n);
      assert n in lists[0];
    }
  }

  lemma ReadsItself(moves: seq<Move>, h: nat, m: Move, n: Move)
    requires EdgeMoves(moves, h) && m in moves && n in moves && n.src == From(m.dst)
    ensures !Same(Composed([moves, moves], n.dst), n.src, Anything)
  {
    var i :| 0 <= i < |moves| && moves[i] == m;
    SourceFound(moves, m.dst);
    SourceFound(moves, n.dst);
    OnceMore(moves, [], m.dst);
    OnceMore(moves, [moves], n.dst);
    assert [] + [moves] == [moves] && [moves] + [moves] == [moves, moves];
    assert Composed([moves, moves], n.dst) == m.src;
  }

  // Three copies of a swap are right, although each reads what the one before it writes.
  lemma SwapThrice(a: Loc, b: Loc)
    requires a != b
    ensures var swap := [Move(a, From(b)), Move(b, From(a))]; ComposesTo([swap, swap, swap], {}) && !Apart([swap, swap, swap])
  {
    var swap := [Move(a, From(b)), Move(b, From(a))];
    SourceFound(swap, a);
    SourceFound(swap, b);
    assert swap[0] in swap && swap[1] in swap;
    forall lists | lists in [[], [swap], [swap, swap]]
      ensures Composed(lists + [swap], a) == Composed(lists, b) && Composed(lists + [swap], b) == Composed(lists, a)
    {
      OnceMore(swap, lists, a);
      OnceMore(swap, lists, b);
    }
    assert [] + [swap] == [swap] && [swap] + [swap] == [swap, swap] && [swap, swap] + [swap] == [swap, swap, swap];
    assert swap[0] in [swap, swap, swap][0] && swap[1] in [swap, swap, swap][1];
  }
}
