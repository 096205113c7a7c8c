// The exception runtime: a chain of the landing frames that are open, the search for the one
// that takes an exception, and the handler count that decides when an exception object dies.
module Exceptions {
  import opened Machine

  // ----- Types ------------------------------------------------------------------------------------

  // type_info of a class without, with one, or with several bases; a type is known by its id.
  datatype Type =
    | Leaf(id: nat)
    | Single(id: nat, base: Type)
    | Multi(id: nat, bases: seq<Base>)

  // A base class of a Multi: at a fixed offset, or at the offset read through the object's vtable.
  datatype Base =
    | Fixed(ti: Type, offset: nat, isPublic: bool)
    | Virtual(ti: Type, read: int, isPublic: bool)

  function Offset(b: Base): int {
    if b.Fixed? then b.offset else b.read
  }

  // ti_search: the offset of the first public base dst, or a negative number.
  function Search(t: Type, dst: nat, off: int): int
    decreases t, if t.Multi? then |t.bases| + 1 else 0
  {
    if t.id == dst then off
    else
      match t
      case Leaf(_) => -1
      case Single(_, base) => Search(base, dst, off)
      case Multi(_, bases) => SearchBases(t, bases, dst, off)
  }

  function SearchBases(t: Type, bases: seq<Base>, dst: nat, off: int): int
    requires forall b :: b in bases ==> b.ti < t
    decreases t, |bases|
  {
    if bases == [] then -1
    else if !bases[0].isPublic then SearchBases(t, bases[1..], dst, off)
    else
      var r := Search(bases[0].ti, dst, off + Offset(bases[0]));
      if r >= 0 then r else SearchBases(t, bases[1..], dst, off)
  }

  // By a path of base indices t is or publicly derives from dst, which then lies at `at` when t lies
  // at `off`.
  ghost predicate DerivesBy(t: Type, dst: nat, path: seq<nat>, off: int, at: int)
    decreases |path|
  {
    if path == [] then t.id == dst && at == off
    else
      t.id != dst &&
      match t
      case Leaf(_) => false
      case Single(_, base) => DerivesBy(base, dst, path[1..], off, at)
      case Multi(_, bases) =>
        path[0] < |bases| &&
        match bases[path[0]]
        case Fixed(base, offset, isPublic) => isPublic && DerivesBy(base, dst, path[1..], off + offset, at)
        case Virtual(base, read, isPublic) => isPublic && DerivesBy(base, dst, path[1..], off + read, at)
  }

  // What is found is a public base, at the offset its path gives.
  lemma {:induction false} SearchFinds(t: Type, dst: nat, off: int) returns (path: seq<nat>)
    requires Search(t, dst, off) >= 0
    ensures DerivesBy(t, dst, path, off, Search(t, dst, off))
    decreases t, if t.Multi? then |t.bases| + 1 else 0
  {
    if t.id == dst {
      path := [];
    } else if t.Single? {
      path := SearchFinds(t.base, dst, off);
      path := [0] + path;
    } else if t.Multi? {
      path := BasesFind(t, t.bases, dst, off);
      assert t.bases[path[0]..][0] == t.bases[path[0]];
    }
  }

  lemma {:induction false} BasesFind(t: Type, bases: seq<Base>, dst: nat, off: int) returns (path: seq<nat>)
    requires (forall b :: b in bases ==> b.ti < t) && SearchBases(t, bases, dst, off) >= 0
    ensures path != [] && path[0] < |bases| && bases[path[0]].isPublic
    ensures DerivesBy(bases[path[0]].ti, dst, path[1..], off + Offset(bases[path[0]]), SearchBases(t, bases, dst, off))
    decreases t, |bases|
  {
    if bases[0].isPublic && Search(bases[0].ti, dst, off + Offset(bases[0])) >= 0 {
      path := SearchFinds(bases[0].ti, dst, off + Offset(bases[0]));
      path := [0] + path;
      assert path[1..] == path[1..];
    } else {
      path := BasesFind(t, bases[1..], dst, off);
      path := [path[0] + 1] + path[1..];
    }
  }

  // A public base at an offset that is not negative is never missed.
  lemma {:induction false} SearchMissesNone(t: Type, dst: nat, off: int, path: seq<nat>, at: int)
    requires DerivesBy(t, dst, path, off, at) && at >= 0
    ensures Search(t, dst, off) >= 0
    decreases |path|, 0
  {
    if path != [] {
      match t
      case Leaf(_) =>
      case Single(_, base) => SearchMissesNone(base, dst, off, path[1..], at);
      case Multi(_, bases) => BasesMissNone(t, bases, dst, off, path, path[0], at);
    }
  }

  lemma {:induction false} BasesMissNone(t: Type, bases: seq<Base>, dst: nat, off: int, path: seq<nat>, i: nat, at: int)
    requires (forall b :: b in bases ==> b.ti < t) && path != [] && i < |bases| && bases[i].isPublic && at >= 0
    requires DerivesBy(bases[i].ti, dst, path[1..], off + Offset(bases[i]), at)
    ensures SearchBases(t, bases, dst, off) >= 0
    decreases |path| - 1, 1 + i
  {
    if i == 0 {
      SearchMissesNone(bases[0].ti, dst, off + Offset(bases[0]), path[1..], at);
    } else {
      BasesMissNone(t, bases[1..], dst, off, path, i - 1, at);
    }
  }

  // dst is t, or a public base `at` bytes into t.
  ghost predicate PublicBase(t: Type, dst: nat, path: seq<nat>, at: int) {
    DerivesBy(t, dst, path, 0, at)
  }

  // A search succeeds exactly when dst is a public base at an offset that is not negative.
  lemma SearchIff(t: Type, dst: nat)
    ensures Search(t, dst, 0) >= 0 <==> exists path, at :: PublicBase(t, dst, path, at) && at >= 0
  {
    if Search(t, dst, 0) >= 0 {
      var path := SearchFinds(t, dst, 0);
      assert PublicBase(t, dst, path, Search(t, dst, 0));
    }
    if path, at :| PublicBase(t, dst, path, at) && at >= 0 {
      SearchMissesNone(t, dst, 0, path, at);
    }
  }

  // Without virtual bases offsets only grow, so a search succeeds exactly when dst is a public base.
  ghost predicate AllFixed(t: Type) {
    match t
    case Leaf(_) => true
    case Single(_, base) => AllFixed(base)
    case Multi(_, bases) => forall i :: 0 <= i < |bases| ==> bases[i].Fixed? && AllFixed(bases[i].ti)
  }

  lemma {:induction false} FixedGrows(t: Type, dst: nat, path: seq<nat>, off: int, at: int)
    requires AllFixed(t) && DerivesBy(t, dst, path, off, at)
    ensures off <= at
    decreases |path|
  {
    if path != [] {
      match t
      case Leaf(_) =>
      case Single(_, base) => FixedGrows(base, dst, path[1..], off, at);
      case Multi(_, bases) => FixedGrows(bases[path[0]].ti, dst, path[1..], off + Offset(bases[path[0]]), at);
    }
  }

  lemma MatchIsRight(t: Type, dst: nat)
    requires AllFixed(t)
    ensures Search(t, dst, 0) >= 0 <==> exists path, at :: PublicBase(t, dst, path, at)
  {
    SearchIff(t, dst);
    if path, at :| PublicBase(t, dst, path, at) {
      FixedGrows(t, dst, path, 0, at);
    }
  }

  // With one it can fail: matching a catch clause looks for the offset of a virtual base through a
  // dummy object, and a negative one hides the base.
  lemma VirtualBaseMissed()
    ensures var t := Multi(2, [Virtual(Leaf(1), -8, true)]);
            Search(t, 1, 0) < 0 && PublicBase(t, 1, [0], -8)
  {
    var bases := [Virtual(Leaf(1), -8, true)];
    assert bases[1..] == [];
    assert [0][1..] == [];
    assert DerivesBy(Leaf(1), 1, [], -8, -8);
  }

  // ----- Landing pads -----------------------------------------------------------------------------

  datatype Clause = CatchAll | Catch(ti: nat)

  datatype Desc = Desc(clauses: seq<Clause>, cleanup: bool)

  predicate Takes(c: Clause, thrown: Option<Type>) {
    c.CatchAll? || (thrown.Some? && Search(thrown.value, c.ti, 0) >= 0)
  }

  // The first clause from i on that takes the exception, or |clauses|.
  function FirstTaking(clauses: seq<Clause>, thrown: Option<Type>, i: nat): (r: nat)
    requires i <= |clauses|
    ensures i <= r <= |clauses| && (r < |clauses| ==> Takes(clauses[r], thrown))
    ensures forall j :: i <= j < r ==> !Takes(clauses[j], thrown)
    decreases |clauses| - i
  {
    if i == |clauses| || Takes(clauses[i], thrown) then i else FirstTaking(clauses, thrown, i + 1)
  }

  // The selector a frame lands with, if it takes the exception.
  function Landing(d: Desc, thrown: Option<Type>): Option<nat> {
    var i := FirstTaking(d.clauses, thrown, 0);
    if i < |d.clauses| then Some(if d.clauses[i].CatchAll? then 0 else d.clauses[i].ti)
    else if d.cleanup then Some(0)
    else None
  }

  // What a clause takes: anything, or what is or publicly derives from its type.
  ghost predicate CanTake(c: Clause, thrown: Option<Type>) {
    c.CatchAll? || (thrown.Some? && exists path, at :: PublicBase(thrown.value, c.ti, path, at) && at >= 0)
  }

  lemma TakesIff(c: Clause, thrown: Option<Type>)
    ensures Takes(c, thrown) <==> CanTake(c, thrown)
  {
    if c.Catch? && thrown.Some? { SearchIff(thrown.value, c.ti); }
  }

  // Clause j takes what is thrown, and none before it does.
  ghost predicate TakesFirst(d: Desc, thrown: Option<Type>, j: nat) {
    j < |d.clauses| && CanTake(d.clauses[j], thrown) && forall i :: 0 <= i < j ==> !CanTake(d.clauses[i], thrown)
  }

  // The selector a landing pad gets: by the first clause that takes what is thrown, whether or not there is a
  // cleanup; if there is none, 0 for the cleanup; and without a cleanup the pad is passed over.
  ghost predicate Selects(d: Desc, thrown: Option<Type>, sel: Option<nat>) {
    && (forall j: nat :: TakesFirst(d, thrown, j) ==> sel == match d.clauses[j] case CatchAll => Some(0) case Catch(ti) => Some(ti))
    && ((forall j :: 0 <= j < |d.clauses| ==> !CanTake(d.clauses[j], thrown)) ==> sel == if d.cleanup then Some(0) else None)
  }

  // Landing computes that selector, and there is no other.
  lemma LandingSelects(d: Desc, thrown: Option<Type>, sel: Option<nat>)
    ensures Selects(d, thrown, sel) <==> sel == Landing(d, thrown)
  {
    forall c | c in d.clauses ensures Takes(c, thrown) <==> CanTake(c, thrown) { TakesIff(c, thrown); }
    var i := FirstTaking(d.clauses, thrown, 0);
    if i < |d.clauses| {
      assert TakesFirst(d, thrown, i);
      assert forall j: nat :: TakesFirst(d, thrown, j) ==> j == i;
    }
  }

  // ----- The globals ------------------------------------------------------------------------------

  // An exception object: which one it is, in the order they are thrown, and its handler count.
  datatype Object = Object(id: nat, count: int)

  // g_eh_exc (or none), g_eh_ti, g_eh_sel, how many exceptions have been thrown, which have been
  // destroyed, in that order, and what the program has done so far.
  datatype Globals = Globals(exc: Option<Object>, ti: Option<Type>, sel: nat, thrown: nat, destroyed: seq<nat>, trace: seq<nat>)

  function Thrown(g: Globals, t: Type): Globals {
    g.(exc := Some(Object(g.thrown, 0)), ti := Some(t), thrown := g.thrown + 1)
  }

  function Caught(g: Globals): Globals {
    match g.exc
    case None => g
    case Some(x) => g.(exc := Some(x.(count := if x.count < 0 then -x.count + 1 else x.count + 1)))
  }

  function HandlerEnded(g: Globals): Globals {
    match g.exc
    case None => g
    case Some(x) =>
      if x.count < 0 then g.(exc := Some(x.(count := x.count + 1)))
      else if x.count - 1 == 0 then g.(exc := None, ti := None, destroyed := g.destroyed + [x.id])
      else g.(exc := Some(x.(count := x.count - 1)))
  }

  function Rethrown(g: Globals): Globals {
    match g.exc
    case None => g
    case Some(x) => g.(exc := Some(x.(count := -x.count)))
  }

  // ----- Programs that throw ----------------------------------------------------------------------

  datatype Instr =
    | Emit(e: nat)
    | Throw(t: Type)
    | Resume
    | Rethrow
    | BeginCatch
    | EndCatch
    | Call(f: nat)
    | Invoke(f: nat, desc: Desc, normal: seq<Instr>, pad: seq<Instr>)
    | OnSelector(ti: nat, equal: seq<Instr>, other: seq<Instr>)

  type Code = seq<Instr>

  function Body(p: seq<Code>, f: nat): Code {
    if f < |p| then p[f] else []
  }

  // Code left by falling off its end, or by an exception.
  datatype Outcome = Outcome(raised: bool, g: Globals)

  // What the source language means: an exception leaves every call it passes through, and the
  // nearest enclosing invoke that takes it goes on at its landing pad. None: no answer within fuel.
  function Eval(p: seq<Code>, code: Code, g: Globals, fuel: nat): (out: Option<Outcome>)
    decreases fuel
  {
    if code == [] then Some(Outcome(false, g))
    else if fuel == 0 then None
    else
      var rest := code[1..];
      match code[0]
      case Emit(e) => Eval(p, rest, g.(trace := g.trace + [e]), fuel - 1)
      case Throw(t) => Some(Outcome(true, Thrown(g, t)))
      case Resume => Some(Outcome(true, g))
      case Rethrow => Some(Outcome(true, Rethrown(g)))
      case BeginCatch => Eval(p, rest, Caught(g), fuel - 1)
      case EndCatch => Eval(p, rest, HandlerEnded(g), fuel - 1)
      case OnSelector(ti, equal, other) => Eval(p, (if g.sel == ti then equal else other) + rest, g, fuel - 1)
      case Call(f) =>
        var out := Eval(p, Body(p, f), g, fuel - 1);
        if out.None? || out.value.raised then out else Eval(p, rest, out.value.g, fuel - 1)
      case Invoke(f, desc, normal, pad) =>
        var out := Eval(p, Body(p, f), g, fuel - 1);
        if out.None? then None
        else if !out.value.raised then Eval(p, normal + rest, out.value.g, fuel - 1)
        else
          var sel := Landing(desc, out.value.g.ti);
          if sel.None? then out else Eval(p, pad + rest, out.value.g.(sel := sel.value), fuel - 1)
  }

  // ----- The lowered program ----------------------------------------------------------------------

  // An activation: what it still has to do, after unlinking its frame if it is armed.
  datatype Act = Act(armed: bool, code: Code)

  // The landing frame of an activation, at the stack height it is known by: where SETJMP was, the
  // clauses, and the frame outside it.
  datatype Frame = Frame(pc: Code, desc: Desc, next: Option<nat>)

  datatype Mode = Running | Unwinding | Finished | Terminated

  datatype State = State(mode: Mode, acts: seq<Act>, frames: map<nat, Frame>, top: Option<nat>, g: Globals)

  function Popped(frames: map<nat, Frame>, top: Option<nat>): Option<nat> {
    if top.Some? && top.value in frames then frames[top.value].next else top
  }

  // One round of the unwinder: unlink the top frame, and jump to it if it takes the exception, which
  // restores the height of the stack and the place in the code and nothing else.
  function Unwound(s: State): State {
    if s.top.None? || s.top.value !in s.frames then s.(mode := Terminated)
    else
      var a := s.top.value;
      var f := s.frames[a];
      var sel := Landing(f.desc, s.g.ti);
      var s' := s.(top := f.next);
      if sel.None? then s'
      else if a <= |s.acts| then s'.(mode := Running, acts := s.acts[..a] + [Act(false, f.pc)], g := s.g.(sel := sel.value))
      else s.(mode := Terminated)
  }

  function Step(p: seq<Code>, s: State): State {
    if s.mode.Finished? || s.mode.Terminated? then s
    else if s.mode.Unwinding? then Unwound(s)
    else if s.acts == [] then s.(mode := Finished)
    else
      var a := |s.acts| - 1;
      var below := s.acts[..a];
      var act := s.acts[a];
      if act.armed then s.(acts := below + [Act(false, act.code)], top := Popped(s.frames, s.top))
      else if act.code == [] then s.(acts := below)
      else Execute(p, s, below, act.code[0], act.code[1..])
  }

  function Execute(p: seq<Code>, s: State, below: seq<Act>, i: Instr, rest: Code): State {
    match i
    case Emit(e) => s.(acts := below + [Act(false, rest)], g := s.g.(trace := s.g.trace + [e]))
    case Throw(t) => s.(mode := Unwinding, g := Thrown(s.g, t))
    case Resume => s.(mode := Unwinding)
    case Rethrow => s.(mode := Unwinding, g := Rethrown(s.g))
    case BeginCatch => s.(acts := below + [Act(false, rest)], g := Caught(s.g))
    case EndCatch => s.(acts := below + [Act(false, rest)], g := HandlerEnded(s.g))
    case OnSelector(ti, equal, other) =>
      s.(acts := below + [Act(false, (if s.g.sel == ti then equal else other) + rest)])
    case Call(f) => s.(acts := below + [Act(false, rest), Act(false, Body(p, f))])
    case Invoke(f, desc, normal, pad) =>
      s.(acts := below + [Act(true, normal + rest), Act(false, Body(p, f))],
         frames := s.frames[|below| := Frame(pad + rest, desc, s.top)],
         top := Some(|below|))
  }

  function Run(p: seq<Code>, s: State, n: nat): State
    decreases n
  {
    if n == 0 then s else Run(p, Step(p, s), n - 1)
  }

  lemma {:induction false} RunTwice(p: seq<Code>, s: State, n: nat, m: nat)
    ensures Run(p, s, n + m) == Run(p, Run(p, s, n), m)
    decreases n
  {
    if n > 0 { RunTwice(p, Step(p, s), n - 1, m); }
  }

  // ----- Counting handlers ------------------------------------------------------------------------

  datatype Event = New | Begin | End | Again

  // The exception object (or none), how many have been thrown, and which have been destroyed.
  datatype Record = Record(exc: Option<Object>, thrown: nat, destroyed: seq<nat>)

  function RecordOf(g: Globals): Record {
    Record(g.exc, g.thrown, g.destroyed)
  }

  // What an event does to them.
  function Apply(h: Record, e: Event): Record {
    var g := Globals(h.exc, None, 0, h.thrown, h.destroyed, []);
    match e
    case New => Record(Some(Object(h.thrown, 0)), h.thrown + 1, h.destroyed)
    case Begin => RecordOf(Caught(g))
    case End => RecordOf(HandlerEnded(g))
    case Again => RecordOf(Rethrown(g))
  }

  function Play(h: Record, events: seq<Event>): Record
    decreases |events|
  {
    if events == [] then h else Play(Apply(h, events[0]), events[1..])
  }

  // The event of the next step, if it is one.
  function EventOf(s: State): seq<Event> {
    if !s.mode.Running? || s.acts == [] then []
    else
      var act := s.acts[|s.acts| - 1];
      if act.armed || act.code == [] then []
      else
        match act.code[0]
        case Throw(_) => [New]
        case BeginCatch => [Begin]
        case EndCatch => [End]
        case Rethrow => [Again]
        case _ => []
  }

  function Events(p: seq<Code>, s: State, n: nat): seq<Event>
    decreases n
  {
    if n == 0 then [] else EventOf(s) + Events(p, Step(p, s), n - 1)
  }

  lemma StepPlays(p: seq<Code>, s: State)
    ensures RecordOf(Step(p, s).g) == Play(RecordOf(s.g), EventOf(s))
  {
    var e := EventOf(s);
    if e != [] { assert e[1..] == []; }
  }

  lemma {:induction false} PlayAppend(h: Record, a: seq<Event>, b: seq<Event>)
    ensures Play(h, a + b) == Play(Play(h, a), b)
    decreases |a|
  {
    if a == [] {
      assert a + b == b;
    } else {
      PlayAppend(Apply(h, a[0]), a[1..], b);
      assert (a + b)[1..] == a[1..] + b;
    }
  }

  lemma {:induction false} RunPlays(p: seq<Code>, s: State, n: nat)
    ensures RecordOf(Run(p, s, n).g) == Play(RecordOf(s.g), Events(p, s, n))
    decreases n
  {
    if n > 0 {
      StepPlays(p, s);
      RunPlays(p, Step(p, s), n - 1);
      PlayAppend(RecordOf(s.g), EventOf(s), Events(p, Step(p, s), n - 1));
    }
  }

  // ----- Which exceptions are destroyed -----------------------------------------------------------

  // How many exceptions are thrown.
  function Throws(events: seq<Event>): nat {
    if events == [] then 0 else (if events[0] == New then 1 else 0) + Throws(events[1..])
  }

  // What follows the k-th throw.
  function AfterThrow(events: seq<Event>, k: nat): seq<Event>
    decreases |events|
  {
    if events == [] then []
    else if events[0] != New then AfterThrow(events[1..], k)
    else if k == 0 then events[1..]
    else AfterThrow(events[1..], k - 1)
  }

  // Whether a handler count that starts at c comes down to zero before the next throw.
  predicate Frees(c: int, events: seq<Event>)
    decreases |events|
  {
    if events == [] then false
    else
      match events[0]
      case New => false
      case Begin => Frees(if c < 0 then -c + 1 else c + 1, events[1..])
      case Again => Frees(-c, events[1..])
      case End => c == 1 || Frees(if c < 0 then c + 1 else c - 1, events[1..])
  }

  ghost predicate Consistent(h: Record) {
    && (forall x :: x in h.destroyed ==> x < h.thrown)
    && (h.exc.Some? ==> h.exc.value.id < h.thrown && h.exc.value.id !in h.destroyed)
    && (forall i, j :: 0 <= i < j < |h.destroyed| ==> h.destroyed[i] != h.destroyed[j])
  }

  lemma {:induction false} PlayDestroys(h: Record, events: seq<Event>, x: nat)
    requires Consistent(h)
    ensures Consistent(Play(h, events)) && Play(h, events).thrown == h.thrown + Throws(events)
    ensures x in Play(h, events).destroyed <==>
            x in h.destroyed || (h.exc.Some? && h.exc.value.id == x && Frees(h.exc.value.count, events)) ||
            (h.thrown <= x < h.thrown + Throws(events) && Frees(0, AfterThrow(events, x - h.thrown)))
    decreases |events|
  {
    if events != [] {
      PlayDestroys(Apply(h, events[0]), events[1..], x);
    }
  }

  // In every run from a state with no exception, an exception is destroyed exactly when, in what the
  // program does between its throw and the next one, the handler count comes down to zero; and none is
  // destroyed twice.
  lemma DestroyedOnce(p: seq<Code>, s: State, n: nat, x: nat)
    requires s.g.exc.None? && Consistent(RecordOf(s.g)) && x >= s.g.thrown
    ensures var events, g := Events(p, s, n), Run(p, s, n).g;
            && (x in g.destroyed <==> x < s.g.thrown + Throws(events) && Frees(0, AfterThrow(events, x - s.g.thrown)))
            && forall i, j :: 0 <= i < j < |g.destroyed| ==> g.destroyed[i] != g.destroyed[j]
  {
    RunPlays(p, s, n);
    PlayDestroys(RecordOf(s.g), Events(p, s, n), x);
  }

  // ----- What the language says of them -----------------------------------------------------------

  // An open handler of an exception, or the exception in flight.
  datatype Entry = Open(x: nat) | Flying(x: nat)

  // The handlers that are open and what is in flight, innermost last; how many exceptions have been
  // thrown; and how many handlers of other exceptions the latest has flown out of.
  datatype Live = Live(stack: seq<Entry>, thrown: nat, escaped: nat)

  // The handler that ends next: the innermost, or the one just outside the exception in flight.
  function Ending(stack: seq<Entry>): (r: Option<nat>)
    ensures r.Some? ==> r.value < |stack| && stack[r.value].Open?
  {
    var n := |stack|;
    if n > 0 && stack[n - 1].Open? then Some(n - 1)
    else if n > 1 && stack[n - 2].Open? then Some(n - 2)
    else None
  }

  // What a program may do: throw at any time, catch what is in flight, end a handler, either at its
  // close or because an exception leaves it, and throw again what the innermost handler handles.
  predicate Allowed(l: Live, e: Event) {
    var n := |l.stack|;
    match e
    case New => true
    case Begin => n > 0 && l.stack[n - 1].Flying?
    case End => Ending(l.stack).Some?
    case Again => n > 0 && l.stack[n - 1].Open?
  }

  function After(l: Live, e: Event): Live
    requires Allowed(l, e)
  {
    var n := |l.stack|;
    match e
    case New => Live(l.stack + [Flying(l.thrown)], l.thrown + 1, 0)
    case Begin => l.(stack := l.stack[..n - 1] + [Open(l.stack[n - 1].x)])
    case End =>
      var i := Ending(l.stack).value;
      Live(l.stack[..i] + l.stack[i + 1..], l.thrown,
           if l.stack[n - 1].Flying? && l.stack[i].x != l.stack[n - 1].x then l.escaped + 1 else l.escaped)
    case Again => l.(stack := l.stack + [Flying(l.stack[n - 1].x)])
  }

  predicate Legal(l: Live, events: seq<Event>)
    decreases |events|
  {
    events == [] || (Allowed(l, events[0]) && Legal(After(l, events[0]), events[1..]))
  }

  function Final(l: Live, events: seq<Event>): Live
    requires Legal(l, events)
    decreases |events|
  {
    if events == [] then l else Final(After(l, events[0]), events[1..])
  }

  // A throw while another exception is there.
  predicate Crowded(l: Live, events: seq<Event>)
    requires Legal(l, events)
    decreases |events|
  {
    events != [] && ((events[0] == New && l.stack != []) || Crowded(After(l, events[0]), events[1..]))
  }

  predicate Gone(l: Live, x: nat) {
    forall i :: 0 <= i < |l.stack| ==> l.stack[i].x != x
  }

  function Opens(x: nat, k: nat): (s: seq<Entry>)
    ensures |s| == k && forall i :: 0 <= i < k ==> s[i] == Open(x)
  {
    seq(k, _ => Open(x))
  }

  // The latest exception: k handlers of it are open on top of the others, and it may be in flight.
  ghost predicate Shaped(l: Live, below: seq<Entry>, k: nat, flying: bool) {
    && l.thrown > 0 && (flying || k > 0)
    && l.stack == below + Opens(l.thrown - 1, k) + (if flying then [Flying(l.thrown - 1)] else [])
    && forall i :: 0 <= i < |below| ==> below[i].x < l.thrown - 1
  }

  function Signed(m: nat, flying: bool): int {
    if flying then 0 - m else m
  }

  // The object there is is the latest exception. While that has a handler open or is in flight, its count
  // is the number of its handlers, and one more when it has flown out of an odd number of others.
  ghost predicate Tracks(h: Record, l: Live) {
    && h.thrown == l.thrown && Consistent(h) && (h.exc.Some? ==> h.exc.value.id == l.thrown - 1)
    && ((forall i :: 0 <= i < |l.stack| ==> l.stack[i].x < l.thrown - 1) || Held(h, l))
  }

  ghost predicate Held(h: Record, l: Live) {
    exists below, k: nat, flying :: Shaped(l, below, k, flying) && h.exc == Some(Object(l.thrown - 1, Signed(k + l.escaped % 2, flying)))
  }

  lemma ShapedHolds(h: Record, l: Live, below: seq<Entry>, k: nat, flying: bool)
    requires h.thrown == l.thrown && Consistent(h) && Shaped(l, below, k, flying)
    requires h.exc == Some(Object(l.thrown - 1, Signed(k + l.escaped % 2, flying)))
    ensures Tracks(h, l)
  {
    assert Held(h, l);
  }

  lemma NewTracks(h: Record, l: Live)
    requires Tracks(h, l)
    ensures Tracks(Apply(h, New), After(l, New))
  {
    var h', l' := Apply(h, New), After(l, New);
    if Held(h, l) {
      var below, k: nat, flying :| Shaped(l, below, k, flying) && h.exc == Some(Object(l.thrown - 1, Signed(k + l.escaped % 2, flying)));
    }
    assert l'.stack == l.stack + Opens(l.thrown, 0) + [Flying(l.thrown)];
    assert Shaped(l', l.stack, 0, true);
    ShapedHolds(h', l', l.stack, 0, true);
  }

  lemma BeginTracks(h: Record, l: Live, below: seq<Entry>, k: nat, flying: bool)
    requires Tracks(h, l) && Shaped(l, below, k, flying) && Allowed(l, Begin)
    requires h.exc == Some(Object(l.thrown - 1, Signed(k + l.escaped % 2, flying)))
    ensures Tracks(Apply(h, Begin), After(l, Begin))
  {
    var x := l.thrown - 1;
    assert flying;
    assert l.stack[..|l.stack| - 1] + [Open(x)] == below + Opens(x, k + 1) + [];
    assert Shaped(After(l, Begin), below, k + 1, false);
    ShapedHolds(Apply(h, Begin), After(l, Begin), below, k + 1, false);
  }

  lemma AgainTracks(h: Record, l: Live, below: seq<Entry>, k: nat, flying: bool)
    requires Tracks(h, l) && Shaped(l, below, k, flying) && Allowed(l, Again)
    requires h.exc == Some(Object(l.thrown - 1, Signed(k + l.escaped % 2, flying)))
    ensures Tracks(Apply(h, Again), After(l, Again))
  {
    assert !flying;
    assert l.stack[|l.stack| - 1].x == l.thrown - 1;
    assert Shaped(After(l, Again), below, k, true);
    ShapedHolds(Apply(h, Again), After(l, Again), below, k, true);
  }

  // The handler that ends is the latest exception's own, or another's that it flies out of.
  lemma EndTracks(h: Record, l: Live, below: seq<Entry>, k: nat, flying: bool)
    requires Tracks(h, l) && Shaped(l, below, k, flying) && Allowed(l, End)
    requires h.exc == Some(Object(l.thrown - 1, Signed(k + l.escaped % 2, flying)))
    ensures Tracks(Apply(h, End), After(l, End))
    ensures (l.stack[Ending(l.stack).value].x == l.thrown - 1 && Gone(After(l, End), l.thrown - 1)) <==> !flying && k == 1
    ensures Apply(h, End).destroyed == if !flying && k + l.escaped % 2 == 1 then h.destroyed + [l.thrown - 1] else h.destroyed
  {
    if k == 0 {
      EndOfAnother(h, l, below);
    } else if flying || k > 1 {
      EndOfOne(h, l, below, k, flying);
    } else {
      EndOfLast(h, l, below);
    }
  }

  // Another exception's handler, which the latest flies out of.
  lemma EndOfAnother(h: Record, l: Live, below: seq<Entry>)
    requires Tracks(h, l) && Shaped(l, below, 0, true) && Allowed(l, End)
    requires h.exc == Some(Object(l.thrown - 1, Signed(l.escaped % 2, true)))
    ensures Tracks(Apply(h, End), After(l, End)) && !Gone(After(l, End), l.thrown - 1)
    ensures Apply(h, End).destroyed == h.destroyed
  {
    var x, n, l' := l.thrown - 1, |l.stack|, After(l, End);
    var i := Ending(l.stack).value;
    assert l.stack[n - 1] == Flying(x) && i == n - 2 && l.stack[i] == below[|below| - 1];
    assert l'.stack == below[..|below| - 1] + Opens(x, 0) + [Flying(x)];
    assert Shaped(l', below[..|below| - 1], 0, true);
    assert l'.stack[|l'.stack| - 1].x == x;
    ShapedHolds(Apply(h, End), l', below[..|below| - 1], 0, true);
  }

  // One of the latest exception's own handlers, with it still there.
  lemma EndOfOne(h: Record, l: Live, below: seq<Entry>, k: nat, flying: bool)
    requires Tracks(h, l) && Shaped(l, below, k, flying) && Allowed(l, End) && k > 0 && (flying || k > 1)
    requires h.exc == Some(Object(l.thrown - 1, Signed(k + l.escaped % 2, flying)))
    ensures Tracks(Apply(h, End), After(l, End)) && !Gone(After(l, End), l.thrown - 1)
    ensures Apply(h, End).destroyed == h.destroyed
  {
    var x, l' := l.thrown - 1, After(l, End);
    EndedOwn(l, below, k, flying);
    assert Shaped(l', below, k - 1, flying);
    assert l'.stack[|l'.stack| - 1].x == x;
    ShapedHolds(Apply(h, End), l', below, k - 1, flying);
  }

  lemma EndOfLast(h: Record, l: Live, below: seq<Entry>)
    requires Tracks(h, l) && Shaped(l, below, 1, false) && Allowed(l, End)
    requires h.exc == Some(Object(l.thrown - 1, Signed(1 + l.escaped % 2, false)))
    ensures Tracks(Apply(h, End), After(l, End))
    ensures l.stack[Ending(l.stack).value].x == l.thrown - 1 && Gone(After(l, End), l.thrown - 1)
    ensures Apply(h, End).destroyed == if l.escaped % 2 == 0 then h.destroyed + [l.thrown - 1] else h.destroyed
  {
    EndedOwn(l, below, 1, false);
    assert After(l, End).stack == below;
  }

  lemma EndedOwn(l: Live, below: seq<Entry>, k: nat, flying: bool)
    requires Shaped(l, below, k, flying) && Allowed(l, End) && k > 0
    ensures Ending(l.stack) == Some(|below| + k - 1) && l.stack[|below| + k - 1] == Open(l.thrown - 1)
    ensures After(l, End).stack == below + Opens(l.thrown - 1, k - 1) + if flying then [Flying(l.thrown - 1)] else []
  {
    assert l.stack[|below| + k - 1] == Open(l.thrown - 1);
  }

  // Once the latest exception is gone, the object there is is still its own, whatever other handlers do to
  // the count.
  lemma StaleTracks(h: Record, l: Live, e: Event)
    requires Tracks(h, l) && Allowed(l, e) && e != New
    requires forall i :: 0 <= i < |l.stack| ==> l.stack[i].x < l.thrown - 1
    ensures Tracks(Apply(h, e), After(l, e))
  {
  }

  lemma StepTracks(h: Record, l: Live, e: Event)
    requires Tracks(h, l) && Allowed(l, e)
    ensures Tracks(Apply(h, e), After(l, e))
  {
    if e == New {
      NewTracks(h, l);
    } else if forall i :: 0 <= i < |l.stack| ==> l.stack[i].x < l.thrown - 1 {
      StaleTracks(h, l, e);
    } else {
      var below, k: nat, flying :| Shaped(l, below, k, flying) && h.exc == Some(Object(l.thrown - 1, Signed(k + l.escaped % 2, flying)));
      match e
      case Begin => BeginTracks(h, l, below, k, flying);
      case Again => AgainTracks(h, l, below, k, flying);
      case End => EndTracks(h, l, below, k, flying);
    }
  }

  lemma {:induction false} PlayTracks(h: Record, l: Live, events: seq<Event>)
    requires Tracks(h, l) && Legal(l, events)
    ensures Tracks(Play(h, events), Final(l, events))
    decreases |events|
  {
    if events != [] {
      StepTracks(h, l, events[0]);
      PlayTracks(Apply(h, events[0]), After(l, events[0]), events[1..]);
    }
  }

  // Where the language destroys an exception, with its last handler, the runtime does exactly when there
  // has been no throw since its own and it has flown out of an even number of other exceptions' handlers.
  lemma OnTimeIff(h: Record, l: Live, x: nat)
    requires Tracks(h, l) && Allowed(l, End)
    requires l.stack[Ending(l.stack).value].x == x && Gone(After(l, End), x)
    ensures Apply(h, End).destroyed == h.destroyed + [x] <==> x == l.thrown - 1 && l.escaped % 2 == 0
  {
    if x == l.thrown - 1 {
      assert !(l.stack[Ending(l.stack).value].x < l.thrown - 1);
      var below, k: nat, flying :| Shaped(l, below, k, flying) && h.exc == Some(Object(l.thrown - 1, Signed(k + l.escaped % 2, flying)));
      EndTracks(h, l, below, k, flying);
    } else {
      assert Apply(h, End).destroyed == h.destroyed || Apply(h, End).destroyed == h.destroyed + [l.thrown - 1];
      assert (h.destroyed + [l.thrown - 1])[|h.destroyed|] != x;
    }
  }

  // The language's view of a run so far, from a state with no exception.
  function LiveOf(p: seq<Code>, s: State, n: nat): Live
    requires Legal(Live([], s.g.thrown, 0), Events(p, s, n))
  {
    Final(Live([], s.g.thrown, 0), Events(p, s, n))
  }

  lemma RunTracks(p: seq<Code>, s: State, n: nat)
    requires s.g.exc.None? && Consistent(RecordOf(s.g)) && Legal(Live([], s.g.thrown, 0), Events(p, s, n))
    ensures Tracks(RecordOf(Run(p, s, n).g), LiveOf(p, s, n))
  {
    RunPlays(p, s, n);
    PlayTracks(RecordOf(s.g), Live([], s.g.thrown, 0), Events(p, s, n));
  }

  // The same at any step of any run: the next step ends a handler of x, the last that keeps x alive.
  lemma DestroyedOnTimeIff(p: seq<Code>, s: State, n: nat, x: nat)
    requires s.g.exc.None? && Consistent(RecordOf(s.g)) && Legal(Live([], s.g.thrown, 0), Events(p, s, n))
    requires EventOf(Run(p, s, n)) == [End] && Allowed(LiveOf(p, s, n), End)
    requires var l := LiveOf(p, s, n); l.stack[Ending(l.stack).value].x == x && Gone(After(l, End), x)
    ensures var l, g, g' := LiveOf(p, s, n), Run(p, s, n).g, Step(p, Run(p, s, n)).g;
            g'.destroyed == g.destroyed + [x] <==> x == l.thrown - 1 && l.escaped % 2 == 0
  {
    RunTracks(p, s, n);
    var s' := Run(p, s, n);
    StepPlays(p, s');
    assert EventOf(s')[1..] == [];
    assert Play(RecordOf(s'.g), [End]) == Apply(RecordOf(s'.g), End);
    OnTimeIff(RecordOf(s'.g), LiveOf(p, s, n), x);
  }

  // Up to here one exception at a time: those before it destroyed, it not yet, and its count is right.
  ghost predicate Single(h: Record, l: Live, first: nat) {
    && h.thrown == l.thrown >= first && Consistent(h)
    && if l.stack == [] then h.exc.None? && forall x :: first <= x < l.thrown ==> x in h.destroyed
       else l.thrown > first && SingleHeld(h, l) && forall x :: first <= x < l.thrown - 1 ==> x in h.destroyed
  }

  ghost predicate SingleHeld(h: Record, l: Live) {
    exists k: nat, flying :: Shaped(l, [], k, flying) && h.exc == Some(Object(l.thrown - 1, Signed(k, flying)))
  }

  lemma SingleStep(h: Record, l: Live, first: nat, e: Event)
    requires Single(h, l, first) && Allowed(l, e) && (e == New ==> l.stack == [])
    ensures Single(Apply(h, e), After(l, e), first)
  {
    var h', l' := Apply(h, e), After(l, e);
    if e == New {
      assert l'.stack == [] + Opens(l.thrown, 0) + [Flying(l.thrown)];
      assert Shaped(l', [], 0, true);
    } else {
      var k: nat, flying :| Shaped(l, [], k, flying) && h.exc == Some(Object(l.thrown - 1, Signed(k, flying)));
      SingleMoves(h, l, e, k, flying);
    }
  }

  // The outcome of an event that is no throw.
  ghost predicate SingleOutcome(h: Record, h': Record, l: Live, l': Live) {
    if l'.stack == [] then h'.exc.None? && h'.destroyed == h.destroyed + [l.thrown - 1]
    else SingleHeld(h', l') && h'.destroyed == h.destroyed
  }

  lemma SingleMoves(h: Record, l: Live, e: Event, k: nat, flying: bool)
    requires h.thrown == l.thrown && Consistent(h) && Allowed(l, e) && e != New
    requires Shaped(l, [], k, flying) && h.exc == Some(Object(l.thrown - 1, Signed(k, flying)))
    ensures SingleOutcome(h, Apply(h, e), l, After(l, e))
  {
    match e
    case Begin => SingleBegins(h, l, k, flying);
    case Again => SingleAgain(h, l, k, flying);
    case End => SingleEnds(h, l, k, flying);
  }

  lemma SingleHolds(h: Record, l: Live, k: nat, flying: bool)
    requires Shaped(l, [], k, flying) && h.exc == Some(Object(l.thrown - 1, Signed(k, flying)))
    ensures SingleHeld(h, l) && l.stack != []
  {
    assert |l.stack| == k + if flying then 1 else 0;
  }

  lemma SingleBegins(h: Record, l: Live, k: nat, flying: bool)
    requires Consistent(h) && Allowed(l, Begin) && Shaped(l, [], k, flying) && h.exc == Some(Object(l.thrown - 1, Signed(k, flying)))
    ensures SingleOutcome(h, Apply(h, Begin), l, After(l, Begin))
  {
    var x, l' := l.thrown - 1, After(l, Begin);
    assert flying;
    assert l.stack[..|l.stack| - 1] + [Open(x)] == [] + Opens(x, k + 1) + [];
    assert Shaped(l', [], k + 1, false);
    SingleHolds(Apply(h, Begin), l', k + 1, false);
  }

  lemma SingleAgain(h: Record, l: Live, k: nat, flying: bool)
    requires Consistent(h) && Allowed(l, Again) && Shaped(l, [], k, flying) && h.exc == Some(Object(l.thrown - 1, Signed(k, flying)))
    ensures SingleOutcome(h, Apply(h, Again), l, After(l, Again))
  {
    assert !flying;
    assert Shaped(After(l, Again), [], k, true);
    SingleHolds(Apply(h, Again), After(l, Again), k, true);
  }

  lemma SingleEnds(h: Record, l: Live, k: nat, flying: bool)
    requires Consistent(h) && Allowed(l, End) && Shaped(l, [], k, flying) && h.exc == Some(Object(l.thrown - 1, Signed(k, flying)))
    ensures SingleOutcome(h, Apply(h, End), l, After(l, End))
  {
    EndedOwn(l, [], k, flying);
    if flying || k > 1 {
      assert Shaped(After(l, End), [], k - 1, flying);
      SingleHolds(Apply(h, End), After(l, End), k - 1, flying);
    } else {
      assert After(l, End).stack == [];
    }
  }

  lemma {:induction false} SingleToTheEnd(h: Record, l: Live, first: nat, events: seq<Event>)
    requires Single(h, l, first) && Legal(l, events) && !Crowded(l, events)
    ensures Single(Play(h, events), Final(l, events), first)
    decreases |events|
  {
    if events != [] {
      SingleStep(h, l, first, events[0]);
      SingleToTheEnd(Apply(h, events[0]), After(l, events[0]), first, events[1..]);
    }
  }

  // What another throw has replaced is never destroyed.
  lemma {:induction false} NeverLater(h: Record, events: seq<Event>, x: nat)
    requires x < h.thrown && x !in h.destroyed && (h.exc.Some? ==> h.exc.value.id != x)
    ensures x !in Play(h, events).destroyed
    decreases |events|
  {
    if events != [] { NeverLater(Apply(h, events[0]), events[1..], x); }
  }

  lemma {:induction false} CrowdedLoses(h: Record, l: Live, first: nat, events: seq<Event>) returns (x: nat)
    requires Single(h, l, first) && Legal(l, events) && Crowded(l, events)
    ensures first <= x < Final(l, events).thrown && x !in Play(h, events).destroyed
    decreases |events|
  {
    if events[0] == New && l.stack != [] {
      x := l.thrown - 1;
      NeverLater(Apply(h, New), events[1..], x);
      ThrownGrows(After(l, New), events[1..]);
    } else {
      SingleStep(h, l, first, events[0]);
      x := CrowdedLoses(Apply(h, events[0]), After(l, events[0]), first, events[1..]);
    }
  }

  lemma {:induction false} ThrownGrows(l: Live, events: seq<Event>)
    requires Legal(l, events)
    ensures Final(l, events).thrown >= l.thrown
    decreases |events|
  {
    if events != [] { ThrownGrows(After(l, events[0]), events[1..]); }
  }

  // In every run, all exceptions thrown have been destroyed exactly when none was thrown while another was
  // there, handled or in flight, and none is there now.
  lemma AllDestroyedIff(p: seq<Code>, s: State, n: nat)
    requires s.g.exc.None? && Consistent(RecordOf(s.g)) && Legal(Live([], s.g.thrown, 0), Events(p, s, n))
    ensures var l, g := LiveOf(p, s, n), Run(p, s, n).g;
            && g.thrown == l.thrown
            && ((forall x :: s.g.thrown <= x < g.thrown ==> x in g.destroyed) <==>
                !Crowded(Live([], s.g.thrown, 0), Events(p, s, n)) && l.stack == [])
  {
    var h, l, events := RecordOf(s.g), Live([], s.g.thrown, 0), Events(p, s, n);
    RunPlays(p, s, n);
    PlayTracks(h, l, events);
    if Crowded(l, events) {
      var x := CrowdedLoses(h, l, s.g.thrown, events);
    } else {
      SingleToTheEnd(h, l, s.g.thrown, events);
    }
  }


  // ----- The chain is the open invokes ------------------------------------------------------------

  // The innermost activation below k that is inside an invoke.
  function Armed(acts: seq<Act>, k: nat): (r: Option<nat>)
    requires k <= |acts|
    ensures r.Some? ==> r.value < k && acts[r.value].armed
    ensures forall i :: (if r.Some? then r.value + 1 else 0) <= i < k ==> !acts[i].armed
  {
    if k == 0 then None else if acts[k - 1].armed then Some(k - 1) else Armed(acts, k - 1)
  }

  lemma {:induction false} ArmedPrefix(acts: seq<Act>, acts': seq<Act>, k: nat)
    requires k <= |acts| && k <= |acts'| && acts[..k] == acts'[..k]
    ensures Armed(acts, k) == Armed(acts', k)
  {
    if k > 0 {
      assert acts[k - 1] == acts[..k][k - 1] == acts'[..k][k - 1] == acts'[k - 1];
      assert acts[..k - 1] == acts[..k][..k - 1] == acts'[..k][..k - 1] == acts'[..k - 1];
      ArmedPrefix(acts, acts', k - 1);
    }
  }

  ghost predicate FramesLinked(acts: seq<Act>, frames: map<nat, Frame>) {
    forall i :: 0 <= i < |acts| && acts[i].armed ==> i in frames && frames[i].next == Armed(acts, i)
  }

  ghost predicate Inv(s: State) {
    && FramesLinked(s.acts, s.frames)
    && (s.mode.Running? ==> s.top == Armed(s.acts, |s.acts|))
    && (s.top.Some? ==> s.top.value < |s.acts| && s.acts[s.top.value].armed)
  }

  // Keeping the activations below k and linking nothing new among them.
  lemma StillLinked(acts: seq<Act>, acts': seq<Act>, frames: map<nat, Frame>, frames': map<nat, Frame>, k: nat)
    requires FramesLinked(acts, frames) && k <= |acts| && k <= |acts'| && acts[..k] == acts'[..k]
    requires forall i :: 0 <= i < k && i in frames ==> i in frames' && frames'[i] == frames[i]
    requires forall i :: k <= i < |acts'| && acts'[i].armed ==> i in frames' && frames'[i].next == Armed(acts', i)
    ensures FramesLinked(acts', frames')
  {
    forall i | 0 <= i < |acts'| && acts'[i].armed
      ensures i in frames' && frames'[i].next == Armed(acts', i)
    {
      if i < k {
        assert acts[i] == acts[..k][i] == acts'[..k][i];
        assert acts[..i] == acts[..k][..i] == acts'[..k][..i] == acts'[..i];
        ArmedPrefix(acts, acts', i);
      }
    }
  }

  lemma UnwoundKeeps(s: State)
    requires Inv(s) && s.mode.Unwinding?
    ensures Inv(Unwound(s))
  {
    if s.top.Some? {
      var a := s.top.value;
      var s' := Unwound(s);
      if s'.mode.Running? {
        assert s'.acts[..a] == s.acts[..a];
        StillLinked(s.acts, s'.acts, s.frames, s'.frames, a);
        ArmedPrefix(s.acts, s'.acts, a);
        var r := Armed(s.acts, a);
        if r.Some? { assert s'.acts[r.value] == s.acts[r.value]; }
      }
    }
  }

  lemma ReturnKeeps(p: seq<Code>, s: State)
    requires Inv(s) && s.mode.Running? && s.acts != []
    requires s.acts[|s.acts| - 1].armed || s.acts[|s.acts| - 1].code == []
    ensures Inv(Step(p, s))
  {
    var a := |s.acts| - 1;
    var s' := Step(p, s);
    assert s'.acts[..a] == s.acts[..a];
    StillLinked(s.acts, s'.acts, s.frames, s'.frames, a);
    ArmedPrefix(s.acts, s'.acts, a);
    var r := Armed(s.acts, a);
    if r.Some? { assert s'.acts[r.value] == s.acts[r.value]; }
  }

  // What changes only the innermost activation's code.
  lemma CodeKeeps(s: State, s': State)
    requires Inv(s) && s.mode.Running? && s.acts != [] && !s.acts[|s.acts| - 1].armed
    requires s'.frames == s.frames && s'.top == s.top && !s'.mode.Finished?
    requires s'.acts == s.acts || exists code :: s'.acts == s.acts[..|s.acts| - 1] + [Act(false, code)]
    ensures Inv(s')
  {
    var a := |s.acts| - 1;
    assert s'.acts[..a] == s.acts[..a];
    ArmedPrefix(s.acts, s'.acts, a);
    StillLinked(s.acts, s'.acts, s.frames, s'.frames, a);
    var r := Armed(s.acts, a);
    if r.Some? { assert s'.acts[r.value] == s.acts[r.value]; }
  }

  // A call, and an invoke that links its frame.
  lemma CallKeeps(s: State, s': State, act: Act, callee: Act)
    requires Inv(s) && s.mode.Running? && s.acts != [] && !s.acts[|s.acts| - 1].armed && !callee.armed
    requires s'.acts == s.acts[..|s.acts| - 1] + [act, callee] && s'.mode.Running?
    requires forall i :: 0 <= i < |s.acts| - 1 && i in s.frames ==> i in s'.frames && s'.frames[i] == s.frames[i]
    requires if act.armed then
               var a := |s.acts| - 1;
               s'.top == Some(a) && a in s'.frames && s'.frames[a].next == s.top
             else s'.top == s.top
    ensures Inv(s')
  {
    var a := |s.acts| - 1;
    assert s'.acts[..a] == s.acts[..a];
    ArmedPrefix(s.acts, s'.acts, a);
    assert Armed(s'.acts, a) == s.top;
    forall i | a <= i < |s'.acts| && s'.acts[i].armed
      ensures i in s'.frames && s'.frames[i].next == Armed(s'.acts, i)
    {
      assert i == a;
    }
    StillLinked(s.acts, s'.acts, s.frames, s'.frames, a);
    assert Armed(s'.acts, a + 2) == s'.top;
  }

  lemma ExecuteKeeps(p: seq<Code>, s: State, below: seq<Act>, i: Instr, rest: Code)
    requires Inv(s) && s.mode.Running? && s.acts != [] && below == s.acts[..|s.acts| - 1]
    requires !s.acts[|s.acts| - 1].armed
    ensures Inv(Execute(p, s, below, i, rest))
  {
    var s' := Execute(p, s, below, i, rest);
    match i
    case Call(f) => CallKeeps(s, s', Act(false, rest), Act(false, Body(p, f)));
    case Invoke(f, _, normal, _) => CallKeeps(s, s', Act(true, normal + rest), Act(false, Body(p, f)));
    case _ => CodeKeeps(s, s');
  }

  lemma StepKeeps(p: seq<Code>, s: State)
    requires Inv(s)
    ensures Inv(Step(p, s))
  {
    if s.mode.Unwinding? {
      UnwoundKeeps(s);
    } else if s.mode.Running? && s.acts != [] {
      var act := s.acts[|s.acts| - 1];
      if act.armed || act.code == [] {
        ReturnKeeps(p, s);
      } else {
        ExecuteKeeps(p, s, s.acts[..|s.acts| - 1], act.code[0], act.code[1..]);
      }
    }
  }

  // The frames on the chain from `top`, innermost first, as the next fields link them.
  function Chain(frames: map<nat, Frame>, top: Option<nat>, bound: nat): seq<nat>
    decreases bound
  {
    if top.None? || top.value >= bound || top.value !in frames then []
    else [top.value] + Chain(frames, frames[top.value].next, top.value)
  }

  // The activations below k that are inside an invoke, innermost first.
  function OpenInvokes(acts: seq<Act>, k: nat): seq<nat>
    requires k <= |acts|
  {
    if k == 0 then [] else (if acts[k - 1].armed then [k - 1] else []) + OpenInvokes(acts, k - 1)
  }

  lemma {:induction false} ChainFollows(acts: seq<Act>, frames: map<nat, Frame>, k: nat)
    requires FramesLinked(acts, frames) && k <= |acts|
    ensures Chain(frames, Armed(acts, k), k) == OpenInvokes(acts, k)
  {
    if k > 0 {
      ChainFollows(acts, frames, k - 1);
      if !acts[k - 1].armed { ChainBound(frames, Armed(acts, k), k, k - 1); }
    }
  }

  lemma ChainBound(frames: map<nat, Frame>, top: Option<nat>, k: nat, k': nat)
    requires top.Some? ==> top.value < k && top.value < k'
    ensures Chain(frames, top, k) == Chain(frames, top, k')
  {
  }

  function Start(code: Code, g: Globals): State {
    State.State(Running, [Act(false, code)], map[], None, g)
  }

  lemma {:induction false} RunKeeps(p: seq<Code>, s: State, n: nat)
    requires Inv(s)
    ensures Inv(Run(p, s, n))
    decreases n
  {
    if n > 0 {
      StepKeeps(p, s);
      RunKeeps(p, Step(p, s), n - 1);
    }
  }

  // In every run of nested calls, invokes, returns, throws and resumes, the chain is at each step the
  // invokes that are open, innermost first.
  lemma ChainIsOpenInvokes(p: seq<Code>, code: Code, g: Globals, n: nat)
    ensures var s := Run(p, Start(code, g), n);
            s.mode.Running? ==> Chain(s.frames, s.top, |s.acts|) == OpenInvokes(s.acts, |s.acts|)
  {
    RunKeeps(p, Start(code, g), n);
    var s := Run(p, Start(code, g), n);
    ChainFollows(s.acts, s.frames, |s.acts|);
  }

  // ----- The lowering means what the source means -------------------------------------------------

  // t is s after its innermost activation is done with its code: everything below is as it was.
  ghost predicate Left(s: State, t: State, out: Outcome)
    requires s.acts != []
  {
    var a := |s.acts| - 1;
    && t.g == out.g && t.top == s.top
    && (forall i :: 0 <= i < a && i in s.frames ==> i in t.frames && t.frames[i] == s.frames[i])
    && (if out.raised then t.mode.Unwinding? && s.acts[..a] <= t.acts
        else t.mode.Running? && t.acts == s.acts[..a] + [Act(false, [])])
  }

  ghost predicate AtCode(s: State, below: seq<Act>, code: Code) {
    s.mode.Running? && s.acts == below + [Act(false, code)]
  }

  lemma LeftVia(s: State, s1: State, t: State, out: Outcome, below: seq<Act>, code: Code, code1: Code)
    requires AtCode(s, below, code) && AtCode(s1, below, code1) && s1.top == s.top
    requires forall i :: 0 <= i < |below| && i in s.frames ==> i in s1.frames && s1.frames[i] == s.frames[i]
    requires Left(s1, t, out)
    ensures Left(s, t, out)
  {
    assert s.acts[..|below|] == below == s1.acts[..|below|];
  }

  // A step, n more, another step, and m more.
  lemma RunThen(p: seq<Code>, s: State, s1: State, n: nat, s2: State, m: nat)
    requires s1 == Step(p, s) && s2 == Step(p, Run(p, s1, n))
    ensures Run(p, s, 1 + n + 1 + m) == Run(p, s2, m)
  {
    RunTwice(p, s, 1 + n, 1 + m);
    assert Run(p, s, 1 + n) == Run(p, s1, n);
  }

  // Running the code of the innermost activation leads where its meaning says: to its end, or to the
  // unwinder, with the chain, the activations and the frames below as they were.
  lemma {:induction false} Reaches(p: seq<Code>, s: State, below: seq<Act>, code: Code, fuel: nat) returns (n: nat)
    requires AtCode(s, below, code) && Eval(p, code, s.g, fuel).Some?
    ensures Left(s, Run(p, s, n), Eval(p, code, s.g, fuel).value)
    decreases fuel, 1
  {
    assert s.acts[..|below|] == below;
    if code == [] {
      n := 0;
    } else if code[0].Throw? || code[0].Resume? || code[0].Rethrow? {
      n := 1;
      assert Run(p, s, 1) == Run(p, Step(p, s), 0);
    } else if code[0].Call? {
      n := ReachesCall(p, s, below, code, fuel);
    } else if code[0].Invoke? {
      n := ReachesInvoke(p, s, below, code, fuel);
    } else {
      var s1 := Step(p, s);
      var code1 := s1.acts[|below|].code;
      n := Reaches(p, s1, below, code1, fuel - 1);
      LeftVia(s, s1, Run(p, s1, n), Eval(p, code, s.g, fuel).value, below, code, code1);
      n := n + 1;
    }
  }

  lemma {:induction false} ReachesCall(p: seq<Code>, s: State, below: seq<Act>, code: Code, fuel: nat) returns (n: nat)
    requires AtCode(s, below, code) && Eval(p, code, s.g, fuel).Some? && code != [] && code[0].Call?
    ensures Left(s, Run(p, s, n), Eval(p, code, s.g, fuel).value)
    decreases fuel, 0
  {
    assert s.acts[..|below|] == below;
    var rest := code[1..];
    var body := Body(p, code[0].f);
    var s1 := Step(p, s);
    var below1 := below + [Act(false, rest)];
    assert s1.acts == below1 + [Act(false, body)];
    var n1 := Reaches(p, s1, below1, body, fuel - 1);
    var t1 := Run(p, s1, n1);
    var out1 := Eval(p, body, s.g, fuel - 1).value;
    assert s1.acts[..|below1|] == below1;
    if out1.raised {
      n := 1 + n1;
      assert below <= below1 <= t1.acts;
    } else {
      var s2 := Step(p, t1);
      assert s2.acts == below1;
      RunThen(p, s, s1, n1, s2, 0);
      n := ReachesOn(p, s, 1 + n1 + 1, s2, below, code, rest, fuel - 1, Eval(p, code, s.g, fuel).value);
    }
  }

  // What an invoke means, by what its callee does.
  lemma InvokeMeans(p: seq<Code>, code: Code, g: Globals, fuel: nat)
    requires Eval(p, code, g, fuel).Some? && code != [] && code[0].Invoke?
    ensures fuel > 0 && Eval(p, Body(p, code[0].f), g, fuel - 1).Some?
    ensures var out1 := Eval(p, Body(p, code[0].f), g, fuel - 1).value;
            var sel := Landing(code[0].desc, out1.g.ti);
            Eval(p, code, g, fuel) ==
            if !out1.raised then Eval(p, code[0].normal + code[1..], out1.g, fuel - 1)
            else if sel.None? then Some(Outcome(true, out1.g))
            else Eval(p, code[0].pad + code[1..], out1.g.(sel := sel.value), fuel - 1)
  {
  }

  // An invoke whose callee throws goes on at its landing pad with the selector the clauses give, or passes the
  // exception on.
  lemma InvokeLands(p: seq<Code>, code: Code, g: Globals, fuel: nat, g1: Globals, sel: Option<nat>)
    requires code != [] && code[0].Invoke? && Eval(p, Body(p, code[0].f), g, fuel) == Some(Outcome(true, g1))
    requires Selects(code[0].desc, g1.ti, sel)
    ensures Eval(p, code, g, fuel + 1) ==
            if sel.None? then Some(Outcome(true, g1)) else Eval(p, code[0].pad + code[1..], g1.(sel := sel.value), fuel)
  {
    LandingSelects(code[0].desc, g1.ti, sel);
  }

  lemma {:induction false} ReachesInvoke(p: seq<Code>, s: State, below: seq<Act>, code: Code, fuel: nat) returns (n: nat)
    requires AtCode(s, below, code) && Eval(p, code, s.g, fuel).Some? && code != [] && code[0].Invoke?
    ensures Left(s, Run(p, s, n), Eval(p, code, s.g, fuel).value)
    decreases fuel, 0
  {
    InvokeMeans(p, code, s.g, fuel);
    n := ReachesBoth(p, s, below, code, fuel - 1, Eval(p, Body(p, code[0].f), s.g, fuel - 1).value, Eval(p, code, s.g, fuel).value);
  }

  lemma {:induction false} ReachesBoth(p: seq<Code>, s: State, below: seq<Act>, code: Code, fuel: nat, out1: Outcome, out: Outcome)
    returns (n: nat)
    requires AtCode(s, below, code) && code != [] && code[0].Invoke?
    requires Eval(p, Body(p, code[0].f), s.g, fuel) == Some(out1)
    requires var sel := Landing(code[0].desc, out1.g.ti);
             if !out1.raised then Eval(p, code[0].normal + code[1..], out1.g, fuel) == Some(out)
             else if sel.None? then out == Outcome(true, out1.g)
             else Eval(p, code[0].pad + code[1..], out1.g.(sel := sel.value), fuel) == Some(out)
    ensures Left(s, Run(p, s, n), out)
    decreases fuel, 4
  {
    var code3 := code[0].normal + code[1..];
    var body := Body(p, code[0].f);
    var s1 := Step(p, s);
    var below1 := below + [Act(true, code3)];
    assert s.acts[..|below|] == below;
    assert s1.acts == below1 + [Act(false, body)];
    var n1 := Reaches(p, s1, below1, body, fuel);
    var t1 := Run(p, s1, n1);
    assert s1.acts[..|below1|] == below1;
    assert t1.frames[|below|] == s1.frames[|below|];
    if out1.raised {
      assert t1.acts[..|below|] == below1[..|below|] == below;
      n := ReachesRaised(p, s, s1, n1, below, code, fuel, out1, out);
    } else {
      var s2 := Step(p, t1);
      assert s2.acts == below1;
      RunThen(p, s, s1, n1, s2, 0);
      n := ReachesAfterPop(p, s, 1 + n1 + 1, s2, below, code, code3, fuel, out);
    }
  }

  // The rest of an invoke whose callee threw.
  lemma {:induction false} ReachesRaised(p: seq<Code>, s: State, s1: State, n1: nat, below: seq<Act>, code: Code, fuel: nat, out1: Outcome, out: Outcome)
    returns (n: nat)
    requires AtCode(s, below, code) && code != [] && code[0].Invoke? && s1 == Step(p, s)
    requires var t1 := Run(p, s1, n1);
             && t1.mode.Unwinding? && t1.g == out1.g && below <= t1.acts && t1.top == Some(|below|)
             && |below| in t1.frames && t1.frames[|below|] == Frame(code[0].pad + code[1..], code[0].desc, s.top)
             && (forall i :: 0 <= i < |below| && i in s.frames ==> i in t1.frames && t1.frames[i] == s.frames[i])
    requires var sel := Landing(code[0].desc, out1.g.ti);
             if sel.None? then out == Outcome(true, out1.g)
             else Eval(p, code[0].pad + code[1..], out1.g.(sel := sel.value), fuel) == Some(out)
    ensures Left(s, Run(p, s, n), out)
    decreases fuel, 3
  {
    var t1 := Run(p, s1, n1);
    var s2 := Step(p, t1);
    assert t1.acts[..|below|] == below == s.acts[..|below|];
    if Landing(code[0].desc, out1.g.ti).None? {
      RunThen(p, s, s1, n1, s2, 0);
      n := 1 + n1 + 1;
      assert s2 == t1.(top := s.top);
    } else {
      RunThen(p, s, s1, n1, s2, 0);
      n := ReachesOn(p, s, 1 + n1 + 1, s2, below, code, code[0].pad + code[1..], fuel, out);
    }
  }

  // The rest of a call or an invoke, once its activation runs again, m steps on.
  lemma {:induction false} ReachesOn(p: seq<Code>, s: State, m: nat, s2: State, below: seq<Act>, code: Code, code2: Code, fuel: nat, out: Outcome)
    returns (n: nat)
    requires AtCode(s, below, code) && Run(p, s, m) == s2 && AtCode(s2, below, code2) && s2.top == s.top
    requires forall i :: 0 <= i < |below| && i in s.frames ==> i in s2.frames && s2.frames[i] == s.frames[i]
    requires Eval(p, code2, s2.g, fuel) == Some(out)
    ensures Left(s, Run(p, s, n), out)
    decreases fuel, 2
  {
    var n2 := Reaches(p, s2, below, code2, fuel);
    RunTwice(p, s, m, n2);
    n := m + n2;
    LeftVia(s, s2, Run(p, s2, n2), out, below, code, code2);
  }

  // The rest of an invoke whose callee returned: the caller is back in its activation, unlinks the
  // frame, and goes on.
  lemma {:induction false} ReachesAfterPop(p: seq<Code>, s: State, m: nat, s2: State, below: seq<Act>, code: Code, code3: Code, fuel: nat, out: Outcome)
    returns (n: nat)
    requires AtCode(s, below, code) && Run(p, s, m) == s2
    requires s2.mode.Running? && s2.acts == below + [Act(true, code3)]
    requires s2.top == Some(|below|) && |below| in s2.frames && s2.frames[|below|].next == s.top
    requires forall i :: 0 <= i < |below| && i in s.frames ==> i in s2.frames && s2.frames[i] == s.frames[i]
    requires Eval(p, code3, s2.g, fuel) == Some(out)
    ensures Left(s, Run(p, s, n), out)
    decreases fuel, 3
  {
    var s3 := Unlinked(p, s, m, s2, below, code3);
    n := ReachesOn(p, s, m + 1, s3, below, code, code3, fuel, out);
  }

  lemma Unlinked(p: seq<Code>, s: State, m: nat, s2: State, below: seq<Act>, code: Code) returns (s3: State)
    requires Run(p, s, m) == s2
    requires s2.mode.Running? && s2.acts == below + [Act(true, code)] && s2.top == Some(|below|) && |below| in s2.frames
    ensures Run(p, s, m + 1) == s3
    ensures AtCode(s3, below, code) && s3.top == s2.frames[|below|].next && s3.frames == s2.frames && s3.g == s2.g
  {
    s3 := Step(p, s2);
    assert s2.acts[..|below|] == below;
    RunTwice(p, s, m, 1);
  }

  ghost predicate Halted(s: State) {
    s.mode.Finished? || s.mode.Terminated?
  }

  lemma {:induction false} HaltedStays(p: seq<Code>, s: State, n: nat, m: nat)
    requires Halted(Run(p, s, n)) && n <= m
    ensures Run(p, s, m) == Run(p, s, n)
  {
    if n < m {
      HaltedStays(p, s, n, m - 1);
      RunTwice(p, s, m - 1, 1);
      assert Run(p, Run(p, s, m - 1), 1) == Run(p, Step(p, Run(p, s, m - 1)), 0);
    }
  }

  lemma {:induction false} FuelMonotone(p: seq<Code>, code: Code, g: Globals, fuel: nat, more: nat)
    requires Eval(p, code, g, fuel).Some? && fuel <= more
    ensures Eval(p, code, g, more) == Eval(p, code, g, fuel)
    decreases fuel
  {
    if code != [] {
      var rest := code[1..];
      match code[0]
      case Throw(_) | Resume | Rethrow =>
      case Emit(e) => FuelMonotone(p, rest, g.(trace := g.trace + [e]), fuel - 1, more - 1);
      case BeginCatch => FuelMonotone(p, rest, Caught(g), fuel - 1, more - 1);
      case EndCatch => FuelMonotone(p, rest, HandlerEnded(g), fuel - 1, more - 1);
      case OnSelector(ti, equal, other) =>
        FuelMonotone(p, (if g.sel == ti then equal else other) + rest, g, fuel - 1, more - 1);
      case Call(f) =>
        FuelMonotone(p, Body(p, f), g, fuel - 1, more - 1);
        var out := Eval(p, Body(p, f), g, fuel - 1).value;
        if !out.raised { FuelMonotone(p, rest, out.g, fuel - 1, more - 1); }
      case Invoke(f, desc, normal, pad) =>
        FuelMonotone(p, Body(p, f), g, fuel - 1, more - 1);
        var out := Eval(p, Body(p, f), g, fuel - 1).value;
        var sel := Landing(desc, out.g.ti);
        if !out.raised {
          FuelMonotone(p, normal + rest, out.g, fuel - 1, more - 1);
        } else if sel.Some? {
          FuelMonotone(p, pad + rest, out.g.(sel := sel.value), fuel - 1, more - 1);
        }
    }
  }

  // A run that halts halts after any state on its way that is still running.
  lemma HaltsAfter(p: seq<Code>, s: State, s1: State, n1: nat, s2: State, n: nat)
    requires Halted(Run(p, s, n)) && s1 == Step(p, s) && s2 == Step(p, Run(p, s1, n1)) && !Halted(s2)
    ensures 2 + n1 < n && Halted(Run(p, s2, n - 2 - n1))
  {
    RunThen(p, s, s1, n1, s2, 0);
    if n <= 2 + n1 {
      HaltedStays(p, s, n, 1 + n1 + 1);
    } else {
      RunThen(p, s, s1, n1, s2, n - 2 - n1);
    }
  }

  // A lowered program that halts has a meaning.
  lemma {:induction false} HaltingHasMeaning(p: seq<Code>, s: State, below: seq<Act>, code: Code, n: nat)
    requires AtCode(s, below, code) && Halted(Run(p, s, n))
    ensures Eval(p, code, s.g, n).Some?
    decreases n, 2
  {
    assert s.acts[..|below|] == below;
    if code != [] && !code[0].Throw? && !code[0].Resume? && !code[0].Rethrow? {
      assert n > 0;
      var s1 := Step(p, s);
      if code[0].Call? || code[0].Invoke? {
        if code[0].Call? { CallHasMeaning(p, s, below, code, n); } else { InvokeHasMeaning(p, s, below, code, n); }
      } else {
        HaltingHasMeaning(p, s1, below, s1.acts[|below|].code, n - 1);
      }
    }
  }

  // The state just after a call or an invoke has been left, in a run that halts.
  lemma {:induction false} CalleeLeft(p: seq<Code>, s: State, s1: State, below1: seq<Act>, body: Code, n: nat) returns (n1: nat)
    requires s.mode.Running? && n > 0 && Halted(Run(p, s, n)) && s1 == Step(p, s) && AtCode(s1, below1, body)
    ensures Eval(p, body, s1.g, n - 1).Some?
    ensures var t1 := Run(p, s1, n1);
            var out1 := Eval(p, body, s1.g, n - 1).value;
            && t1.g == out1.g && t1.top == s1.top
            && (forall i :: 0 <= i < |below1| && i in s1.frames ==> i in t1.frames && t1.frames[i] == s1.frames[i])
            && (if out1.raised then t1.mode.Unwinding? && below1 <= t1.acts
                else t1.mode.Running? && t1.acts == below1 + [Act(false, [])])
    decreases n, 0
  {
    HaltingHasMeaning(p, s1, below1, body, n - 1);
    n1 := Reaches(p, s1, below1, body, n - 1);
    assert s1.acts[..|below1|] == below1;
  }

  lemma {:induction false} CallHasMeaning(p: seq<Code>, s: State, below: seq<Act>, code: Code, n: nat)
    requires AtCode(s, below, code) && Halted(Run(p, s, n)) && n > 0 && code != [] && code[0].Call?
    ensures Eval(p, code, s.g, n).Some?
    decreases n, 1
  {
    assert s.acts[..|below|] == below;
    var rest := code[1..];
    var body := Body(p, code[0].f);
    var below1 := below + [Act(false, rest)];
    var s1 := Step(p, s);
    assert s1.acts == below1 + [Act(false, body)];
    var n1 := CalleeLeft(p, s, s1, below1, body, n);
    var out1 := Eval(p, body, s.g, n - 1).value;
    if !out1.raised {
      var s2 := Step(p, Run(p, s1, n1));
      assert s2.acts == below1;
      HaltsAfter(p, s, s1, n1, s2, n);
      HaltingHasMeaning(p, s2, below, rest, n - 2 - n1);
      FuelMonotone(p, rest, out1.g, n - 2 - n1, n - 1);
    }
  }

  lemma {:induction false} InvokeHasMeaning(p: seq<Code>, s: State, below: seq<Act>, code: Code, n: nat)
    requires AtCode(s, below, code) && Halted(Run(p, s, n)) && n > 0 && code != [] && code[0].Invoke?
    ensures Eval(p, code, s.g, n).Some?
    decreases n, 1
  {
    assert s.acts[..|below|] == below;
    var code3 := code[0].normal + code[1..];
    var body := Body(p, code[0].f);
    var below1 := below + [Act(true, code3)];
    var s1 := Step(p, s);
    assert s1.acts == below1 + [Act(false, body)];
    var n1 := CalleeLeft(p, s, s1, below1, body, n);
    var t1 := Run(p, s1, n1);
    var out1 := Eval(p, body, s.g, n - 1).value;
    if !out1.raised {
      NormalHasMeaning(p, s, s1, n1, below, code3, n, out1.g);
    } else if Landing(code[0].desc, out1.g.ti).Some? {
      assert t1.acts[..|below|] == below1[..|below|] == below;
      LandingHasMeaning(p, s, s1, n1, below, code, n, out1.g);
    }
  }

  // An invoke's callee that returned.
  lemma {:induction false} NormalHasMeaning(p: seq<Code>, s: State, s1: State, n1: nat, below: seq<Act>, code3: Code, n: nat, g1: Globals)
    requires s.mode.Running? && Halted(Run(p, s, n)) && n > 0 && s1 == Step(p, s)
    requires var t1 := Run(p, s1, n1);
             t1.mode.Running? && t1.g == g1 && t1.acts == below + [Act(true, code3)] + [Act(false, [])]
    ensures Eval(p, code3, g1, n - 1).Some?
    decreases n, 0
  {
    var t1 := Run(p, s1, n1);
    var s2 := Step(p, t1);
    assert s2.acts == below + [Act(true, code3)];
    HaltsAfter(p, s, s1, n1, s2, n);
    var s3 := Step(p, s2);
    assert s2.acts[..|below|] == below;
    assert s3.acts == below + [Act(false, code3)];
    HaltingHasMeaning(p, s3, below, code3, n - 3 - n1);
    FuelMonotone(p, code3, g1, n - 3 - n1, n - 1);
  }

  // An invoke's callee that threw what the invoke takes.
  lemma {:induction false} LandingHasMeaning(p: seq<Code>, s: State, s1: State, n1: nat, below: seq<Act>, code: Code, n: nat, g1: Globals)
    requires AtCode(s, below, code) && Halted(Run(p, s, n)) && code != [] && code[0].Invoke? && n > 0
    requires s1 == Step(p, s) && Landing(code[0].desc, g1.ti).Some?
    requires var t1 := Run(p, s1, n1);
             t1.mode.Unwinding? && t1.g == g1 && t1.top == Some(|below|) && |below| in t1.frames && below <= t1.acts &&
             t1.frames[|below|] == Frame(code[0].pad + code[1..], code[0].desc, s.top)
    ensures Eval(p, code[0].pad + code[1..], g1.(sel := Landing(code[0].desc, g1.ti).value), n - 1).Some?
    decreases n, 0
  {
    var code2 := code[0].pad + code[1..];
    var s2 := Step(p, Run(p, s1, n1));
    HaltsAfter(p, s, s1, n1, s2, n);
    HaltingHasMeaning(p, s2, below, code2, n - 2 - n1);
    FuelMonotone(p, code2, s2.g, n - 2 - n1, n - 1);
  }

  ghost predicate HaltsWith(s: State, out: Outcome) {
    s.g == out.g && if out.raised then s.mode.Terminated? else s.mode.Finished?
  }

  lemma MeaningHalts(p: seq<Code>, code: Code, g: Globals, fuel: nat) returns (n: nat)
    requires Eval(p, code, g, fuel).Some?
    ensures HaltsWith(Run(p, Start(code, g), n), Eval(p, code, g, fuel).value)
  {
    var s := Start(code, g);
    var out := Eval(p, code, g, fuel).value;
    var n1 := Reaches(p, s, [], code, fuel);
    var t := Run(p, s, n1);
    n := n1 + 2;
    RunTwice(p, s, n1, 2);
    var t1 := Step(p, t);
    assert Run(p, t, 2) == Run(p, t1, 1) == Run(p, Step(p, t1), 0);
  }

  ghost predicate HaltsIn(p: seq<Code>, code: Code, g: Globals, n: nat) {
    Halted(Run(p, Start(code, g), n))
  }

  ghost predicate MeansIn(p: seq<Code>, code: Code, g: Globals, fuel: nat) {
    Eval(p, code, g, fuel).Some?
  }

  // The lowered program over push, pop, SETJMP and LONGJMP halts exactly when the program has a
  // meaning, and then does the same, and terminates exactly when an exception leaves the program.
  lemma LoweringIsFaithful(p: seq<Code>, code: Code, g: Globals)
    ensures (exists n :: HaltsIn(p, code, g, n)) <==> (exists fuel :: MeansIn(p, code, g, fuel))
    ensures forall n, fuel :: HaltsIn(p, code, g, n) && MeansIn(p, code, g, fuel) ==>
              Eval(p, code, g, fuel).value == Outcome(Run(p, Start(code, g), n).mode.Terminated?, Run(p, Start(code, g), n).g)
  {
    if n :| HaltsIn(p, code, g, n) {
      HaltingHasMeaning(p, Start(code, g), [], code, n);
      assert MeansIn(p, code, g, n);
    }
    if fuel :| MeansIn(p, code, g, fuel) {
      var m := MeaningHalts(p, code, g, fuel);
      assert HaltsIn(p, code, g, m);
    }
    forall n, fuel | HaltsIn(p, code, g, n) && MeansIn(p, code, g, fuel)
      ensures Eval(p, code, g, fuel).value == Outcome(Run(p, Start(code, g), n).mode.Terminated?, Run(p, Start(code, g), n).g)
    {
      var m := MeaningHalts(p, code, g, fuel);
      if n <= m { HaltedStays(p, Start(code, g), n, m); } else { HaltedStays(p, Start(code, g), m, n); }
    }
  }

  // ----- The unwinder -----------------------------------------------------------------------------

  // Following the next fields from `top` ends.
  ghost predicate Ends(frames: map<nat, Frame>, top: Option<nat>, bound: nat)
    decreases bound
  {
    top.None? || (top.value < bound && top.value in frames && Ends(frames, frames[top.value].next, top.value))
  }

  // Unwinding a chain passes over its first k frames and lands in the next, with the selector that one gets,
  // leaving the frames outside it linked; with no frame after them, none is left.
  ghost predicate LandsAt(frames: map<nat, Frame>, chain: seq<nat>, g: Globals, k: nat, at: Option<nat>, top: Option<nat>, g': Globals) {
    && k <= |chain| && PassedOver(frames, chain, g.ti, k)
    && if k < |chain| then
         chain[k] in frames && at == Some(chain[k]) && Chain(frames, top, chain[k]) == chain[k + 1..] &&
         Selects(frames[chain[k]].desc, g.ti, Some(g'.sel)) && g' == g.(sel := g'.sel)
       else at == None && top == None && g' == g
  }

  ghost predicate PassedOver(frames: map<nat, Frame>, chain: seq<nat>, ti: Option<Type>, k: nat)
    requires k <= |chain|
  {
    forall j :: 0 <= j < k ==> chain[j] in frames && Selects(frames[chain[j]].desc, ti, None)
  }

  ghost predicate LandsInnermost(frames: map<nat, Frame>, chain: seq<nat>, g: Globals, at: Option<nat>, top: Option<nat>, g': Globals) {
    exists k: nat :: LandsAt(frames, chain, g, k, at, top, g')
  }

  // The invariant of a run gives the unwinder a chain that ends.
  lemma {:induction false} ArmedEnds(acts: seq<Act>, frames: map<nat, Frame>, k: nat)
    requires FramesLinked(acts, frames) && k <= |acts|
    ensures Ends(frames, Armed(acts, k), k)
  {
    if k > 0 {
      ArmedEnds(acts, frames, k - 1);
      if acts[k - 1].armed { } else { EndsBelow(frames, Armed(acts, k), k - 1, k); }
    }
  }

  lemma EndsBelow(frames: map<nat, Frame>, top: Option<nat>, k: nat, k': nat)
    requires Ends(frames, top, k) && k <= k'
    ensures Ends(frames, top, k')
  {
  }

  // The runtime's globals, and the operations on them that lowered code calls.
  class Runtime {
    var frames: map<nat, Frame>
    var top: Option<nat>
    var g: Globals

    constructor ()
      ensures frames == map[] && top == None && g == Globals(None, None, 0, 0, [], [])
    {
      frames, top, g := map[], None, Globals(None, None, 0, 0, [], []);
    }

    // __cvm_eh_push
    method Push(at: nat, pc: Code, desc: Desc)
      modifies this
      ensures frames == old(frames)[at := Frame(pc, desc, old(top))] && top == Some(at) && g == old(g)
      ensures forall bound: nat :: old(Ends(frames, top, bound)) && bound <= at ==> Ends(frames, top, at + 1)
    {
      frames := frames[at := Frame(pc, desc, top)];
      top := Some(at);
      forall bound: nat | old(Ends(frames, top, bound)) && bound <= at
        ensures Ends(frames, top, at + 1)
      {
        EndsBelow(old(frames), old(top), bound, at);
        EndsUnder(old(frames), frames, old(top), at);
      }
    }

    // __cvm_eh_pop
    method Pop()
      modifies this`top
      ensures top == Popped(frames, old(top))
    {
      if top.Some? && top.value in frames { top := frames[top.value].next; }
    }

    // eh_unwind: where to longjmp, or nowhere.
    method Unwind(ghost bound: nat) returns (at: Option<nat>)
      requires Ends(frames, top, bound)
      modifies this`top, this`g
      ensures LandsInnermost(frames, Chain(frames, old(top), bound), old(g), at, top, g)
    {
      ghost var fs, chain := frames, Chain(frames, top, bound);
      ghost var b, k := bound, 0;
      while top.Some?
        invariant Ends(fs, top, b) && g == old(g) && frames == fs
        invariant k <= |chain| && PassedOver(fs, chain, g.ti, k) && Chain(fs, top, b) == chain[k..]
        decreases b
      {
        var a := top.value;
        ChainStep(fs, top, b, chain, k);
        top := frames[a].next;
        var sel := Select(frames[a].desc);
        if sel.Some? {
          g := g.(sel := sel.value);
          assert LandsAt(fs, chain, old(g), k, Some(a), top, g);
          return Some(a);
        }
        b, k := a, k + 1;
      }
      assert LandsAt(fs, chain, g, k, None, None, g);
      return None;
    }

    // One round of eh_unwind: the clauses in order, then the cleanup.
    method Select(d: Desc) returns (sel: Option<nat>)
      ensures Selects(d, g.ti, sel)
    {
      var i := 0;
      while i < |d.clauses|
        invariant i <= |d.clauses| && forall j :: 0 <= j < i ==> !CanTake(d.clauses[j], g.ti)
      {
        var c := d.clauses[i];
        if c.CatchAll? {
          return Some(0);
        }
        TakesIff(c, g.ti);
        if g.ti.Some? && Search(g.ti.value, c.ti, 0) >= 0 {
          return Some(c.ti);
        }
        i := i + 1;
      }
      return if d.cleanup then Some(0) else None;
    }

    // __cxa_throw
    method Throw(t: Type, ghost bound: nat) returns (at: Option<nat>)
      requires Ends(frames, top, bound)
      modifies this`top, this`g
      ensures LandsInnermost(frames, Chain(frames, old(top), bound), Thrown(old(g), t), at, top, g)
    {
      g := g.(exc := Some(Object(g.thrown, 0)), ti := Some(t), thrown := g.thrown + 1);
      at := Unwind(bound);
    }

    // __cxa_rethrow
    method Rethrow(ghost bound: nat) returns (at: Option<nat>)
      requires Ends(frames, top, bound)
      modifies this`top, this`g
      ensures LandsInnermost(frames, Chain(frames, old(top), bound), Rethrown(old(g)), at, top, g)
    {
      if g.exc.Some? {
        var x := g.exc.value;
        g := g.(exc := Some(x.(count := -x.count)));
      }
      at := Unwind(bound);
    }

    // __cxa_begin_catch
    method BeginCatch()
      modifies this`g
      ensures g == Caught(old(g))
    {
      if g.exc.Some? {
        var x := g.exc.value;
        g := g.(exc := Some(x.(count := if x.count < 0 then -x.count + 1 else x.count + 1)));
      }
    }

    // __cxa_end_catch
    method EndCatch()
      modifies this`g
      ensures g == HandlerEnded(old(g))
    {
      if g.exc.None? {
        return;
      }
      var x := g.exc.value;
      if x.count < 0 {
        g := g.(exc := Some(x.(count := x.count + 1)));
      } else {
        x := x.(count := x.count - 1);
        g := g.(exc := Some(x));
        if x.count == 0 {
          g := g.(exc := None, ti := None, destroyed := g.destroyed + [x.id]);
        }
      }
    }
  }

  lemma {:induction false} EndsUnder(frames: map<nat, Frame>, frames': map<nat, Frame>, top: Option<nat>, bound: nat)
    requires Ends(frames, top, bound)
    requires forall i :: 0 <= i < bound && i in frames ==> i in frames' && frames'[i] == frames[i]
    ensures Ends(frames', top, bound)
    decreases bound
  {
    if top.Some? { EndsUnder(frames, frames', frames[top.value].next, top.value); }
  }

  // One frame further along a chain.
  lemma ChainStep(frames: map<nat, Frame>, top: Option<nat>, b: nat, chain: seq<nat>, k: nat)
    requires top.Some? && Ends(frames, top, b) && k <= |chain| && Chain(frames, top, b) == chain[k..]
    ensures k < |chain| && chain[k] == top.value && Chain(frames, frames[top.value].next, top.value) == chain[k + 1..]
  {
    var tail := chain[k..];
    assert tail == [top.value] + Chain(frames, frames[top.value].next, top.value);
    assert chain[k] == tail[0];
    assert chain[k + 1..] == tail[1..];
  }

  // A chain whose first frame is passed over is unwound as the rest of it is.
  lemma OneFrameMore(frames: map<nat, Frame>, chain: seq<nat>, g: Globals, at: Option<nat>, top: Option<nat>, g': Globals)
    requires chain != [] && chain[0] in frames && Selects(frames[chain[0]].desc, g.ti, None)
    requires LandsInnermost(frames, chain[1..], g, at, top, g')
    ensures LandsInnermost(frames, chain, g, at, top, g')
  {
    var k: nat :| LandsAt(frames, chain[1..], g, k, at, top, g');
    assert k < |chain| - 1 ==> chain[1..][k + 1..] == chain[k + 2..];
    forall j | 0 <= j < k + 1 ensures chain[j] in frames && Selects(frames[chain[j]].desc, g.ti, None) {
      if j > 0 { assert chain[j] == chain[1..][j - 1]; }
    }
    assert LandsAt(frames, chain, g, k + 1, at, top, g');
  }

  // The unwinding of the lowered program is the unwinder's, round by round.
  lemma {:induction false} UnwindingLands(p: seq<Code>, s: State, bound: nat) returns (n: nat)
    requires s.mode.Unwinding? && Ends(s.frames, s.top, bound) && bound <= |s.acts|
    ensures Unwinds(s, Chain(s.frames, s.top, bound), Run(p, s, n))
    decreases bound
  {
    n := 1;
    var s1 := Step(p, s);
    assert Run(p, s, 1) == Run(p, s1, 0);
    if s.top.Some? {
      var a := s.top.value;
      var chain := Chain(s.frames, s.top, bound);
      assert chain[0] == a && chain[1..] == Chain(s.frames, s.frames[a].next, a);
      if s1.mode.Running? {
        LandingSelects(s.frames[a].desc, s.g.ti, Some(s1.g.sel));
        assert LandsAt(s.frames, chain, s.g, 0, Some(a), s1.top, s1.g);
        assert Lands(s, chain, a, s1);
      } else {
        n := UnwindingLands(p, s1, a);
        var s' := Run(p, s1, n);
        LandingSelects(s.frames[a].desc, s.g.ti, None);
        if s'.mode.Running? {
          var at: nat :| Lands(s1, chain[1..], at, s');
          OneFrameMore(s.frames, chain, s.g, Some(at), s'.top, s'.g);
          assert Lands(s, chain, at, s');
        } else {
          OneFrameMore(s.frames, chain, s.g, None, s'.top, s'.g);
        }
        n := n + 1;
      }
    } else {
      assert LandsAt(s.frames, [], s.g, 0, None, s1.top, s1.g);
    }
  }

  function Height(top: Option<nat>): nat {
    if top.Some? then top.value + 1 else 0
  }

  lemma ChainEnds(s: State)
    requires Inv(s)
    ensures Height(s.top) <= |s.acts| && Ends(s.frames, s.top, Height(s.top))
    ensures Chain(s.frames, s.top, Height(s.top)) == OpenInvokes(s.acts, Height(s.top))
  {
    if s.top.Some? {
      var a := s.top.value;
      assert s.top == Armed(s.acts, a + 1);
      ArmedEnds(s.acts, s.frames, a + 1);
      ChainFollows(s.acts, s.frames, a + 1);
    }
  }

  // In every run, whatever throws or resumes lands in the innermost of the open invokes that takes the
  // exception, with the selector of its first clause that does, and cuts the activations back to that
  // invoke's; if no open invoke takes it, the program is terminated.
  lemma ThrowLandsInnermost(p: seq<Code>, code: Code, g: Globals, n: nat) returns (m: nat)
    requires Run(p, Start(code, g), n).mode.Unwinding?
    ensures var s := Run(p, Start(code, g), n);
            Height(s.top) <= |s.acts| && Unwinds(s, OpenInvokes(s.acts, Height(s.top)), Run(p, s, m))
  {
    RunKeeps(p, Start(code, g), n);
    var s := Run(p, Start(code, g), n);
    ChainEnds(s);
    m := UnwindingLands(p, s, Height(s.top));
  }

  ghost predicate Unwinds(s: State, chain: seq<nat>, s': State) {
    if s'.mode.Running? then exists at: nat :: Lands(s, chain, at, s')
    else s'.mode.Terminated? && LandsInnermost(s.frames, chain, s.g, None, s'.top, s'.g)
  }

  ghost predicate Lands(s: State, chain: seq<nat>, at: nat, s': State) {
    && LandsInnermost(s.frames, chain, s.g, Some(at), s'.top, s'.g)
    && at < |s.acts| && at in s.frames && s'.acts == s.acts[..at] + [Act(false, s.frames[at].pc)]
  }
}
