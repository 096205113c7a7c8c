// Handlers and destructors that throw: what becomes of the exceptions, on three programs.
module ThrowingHandlers {
  import opened Exceptions
  import Machine

  const NOTHING: Globals := Globals(Machine.None, Machine.None, 0, 0, [], [])

  // What code means, with `fuel` to spare.
  ghost predicate Means(p: seq<Code>, code: Code, g: Globals, fuel: nat, raised: bool, g': Globals) {
    Eval(p, code, g, fuel).Some? && Eval(p, code, g, fuel).value == Outcome(raised, g')
  }

  // An invoke that takes what its callee throws goes on at its landing pad.
  lemma Lands(p: seq<Code>, i: Instr, rest: Code, g: Globals, g1: Globals, sel: nat, fuel: nat, raised: bool, g': Globals)
    requires i.Invoke? && Means(p, Body(p, i.f), g, fuel, true, g1) && Landing(i.desc, g1.ti) == Machine.Some(sel)
    requires Means(p, i.pad + rest, g1.(sel := sel), fuel, raised, g')
    ensures Means(p, [i] + rest, g, fuel + 1, raised, g')
  {
    assert ([i] + rest)[1..] == rest;
  }

  // One that does not lets it through.
  lemma Passes(p: seq<Code>, i: Instr, rest: Code, g: Globals, g1: Globals, fuel: nat)
    requires i.Invoke? && Means(p, Body(p, i.f), g, fuel, true, g1) && Landing(i.desc, g1.ti).None?
    ensures Means(p, [i] + rest, g, fuel + 1, true, g1)
  {
  }

  lemma Begins(p: seq<Code>, rest: Code, g: Globals, fuel: nat, raised: bool, g': Globals)
    requires Means(p, rest, Caught(g), fuel, raised, g')
    ensures Means(p, [BeginCatch] + rest, g, fuel + 1, raised, g')
  {
    assert ([BeginCatch] + rest)[1..] == rest;
  }

  lemma EndsHandler(p: seq<Code>, rest: Code, g: Globals, fuel: nat, raised: bool, g': Globals)
    requires Means(p, rest, HandlerEnded(g), fuel, raised, g')
    ensures Means(p, [EndCatch] + rest, g, fuel + 1, raised, g')
  {
    assert ([EndCatch] + rest)[1..] == rest;
  }

  lemma Calls(p: seq<Code>, f: nat, rest: Code, g: Globals, g1: Globals, fuel: nat, raised: bool, g': Globals)
    requires Means(p, Body(p, f), g, fuel, false, g1) && Means(p, rest, g1, fuel, raised, g')
    ensures Means(p, [Call(f)] + rest, g, fuel + 1, raised, g')
  {
    assert ([Call(f)] + rest)[1..] == rest;
  }

  // A handler that only closes, and the cleanup of a handler that an exception leaves.
  const CLOSE: Code := [BeginCatch] + ([EndCatch] + [])
  const LEAVE: Code := [EndCatch] + [Resume]

  lemma Closes(p: seq<Code>, rest: Code, g: Globals, fuel: nat, raised: bool, g': Globals)
    requires Means(p, rest, HandlerEnded(Caught(g)), fuel, raised, g')
    ensures Means(p, CLOSE + rest, g, fuel + 2, raised, g')
  {
    EndsHandler(p, rest, Caught(g), fuel, raised, g');
    Begins(p, [EndCatch] + rest, g, fuel + 1, raised, g');
    assert CLOSE + rest == [BeginCatch] + ([EndCatch] + rest);
  }

  lemma Leaves(p: seq<Code>, g: Globals, fuel: nat)
    requires fuel > 0
    ensures Means(p, LEAVE, g, fuel + 1, true, HandlerEnded(g))
  {
    EndsHandler(p, [Resume], g, fuel, true, HandlerEnded(g));
  }

  // What code means is what its lowered form does.
  lemma MeantIsRun(p: seq<Code>, code: Code, g: Globals, fuel: nat, raised: bool, g': Globals)
    requires Means(p, code, g, fuel, raised, g')
    ensures exists n: nat :: HaltsWith(Run(p, Start(code, g), n), Outcome(raised, g'))
  {
    var n := MeaningHalts(p, code, g, fuel);
  }

  lemma Emits(p: seq<Code>, e: nat, rest: Code, g: Globals, fuel: nat, raised: bool, g': Globals)
    requires Means(p, rest, g.(trace := g.trace + [e]), fuel, raised, g')
    ensures Means(p, [Emit(e)] + rest, g, fuel + 1, raised, g')
  {
    assert ([Emit(e)] + rest)[1..] == rest;
  }

  lemma Tests(p: seq<Code>, ti: nat, equal: Code, other: Code, g: Globals, fuel: nat, raised: bool, g': Globals)
    requires Means(p, if g.sel == ti then equal else other, g, fuel, raised, g')
    ensures Means(p, [OnSelector(ti, equal, other)], g, fuel + 1, raised, g')
  {
    assert equal + [] == equal && other + [] == other;
  }

  // ----- A handler beside a cleanup -----------------------------------------------------------------

  // try { Local l; throw A; } catch (A) { 2 }, where ~Local() is { 1 }; and the same with B thrown.
  const HANDLED: Code := [BeginCatch] + ([Emit(2)] + ([EndCatch] + []))
  const PAD: Code := [Call(2)] + [OnSelector(7, HANDLED, [Resume])]
  const GUARDED: Desc := Desc([Catch(7)], true)
  const BESIDE: seq<Code> :=
    [[Invoke(3, GUARDED, [], PAD)] + [], [Invoke(4, GUARDED, [], PAD)] + [], [Emit(1)] + [], [Throw(Leaf(7))], [Throw(Leaf(1))]]

  // A is handled after the destructor has run, and destroyed.
  lemma HandlerBesideCleanup() returns (g: Globals)
    ensures exists n: nat :: HaltsWith(Run(BESIDE, Start(BESIDE[0], NOTHING), n), Outcome(false, g))
    ensures g.trace == [1, 2] && g.thrown == 1 && g.destroyed == [0] && g.exc.None?
  {
    var p := BESIDE;
    var a := Thrown(NOTHING, Leaf(7));
    var cleaned := a.(sel := 7).(trace := [1]);
    var caught := Caught(cleaned);
    g := HandlerEnded(caught.(trace := [1, 2]));
    EndsHandler(p, [], caught.(trace := [1, 2]), 1, false, g);
    Emits(p, 2, [EndCatch] + [], caught, 2, false, g);
    Begins(p, [Emit(2)] + ([EndCatch] + []), cleaned, 3, false, g);
    Tests(p, 7, HANDLED, [Resume], cleaned, 4, false, g);
    Emits(p, 1, [], a.(sel := 7), 4, false, cleaned);
    Calls(p, 2, [OnSelector(7, HANDLED, [Resume])], a.(sel := 7), cleaned, 5, false, g);
    assert Means(p, p[3], NOTHING, 6, true, a);
    assert PAD + [] == PAD;
    Lands(p, p[0][0], [], NOTHING, a, 7, 6, false, g);
    MeantIsRun(p, p[0], NOTHING, 7, false, g);
  }

  // B stops for the destructor and goes on.
  lemma CleanupBesideHandler() returns (g: Globals)
    ensures exists n: nat :: HaltsWith(Run(BESIDE, Start(BESIDE[1], NOTHING), n), Outcome(true, g))
    ensures g.trace == [1] && g.thrown == 1 && g.destroyed == []
  {
    var p := BESIDE;
    var b := Thrown(NOTHING, Leaf(1));
    g := b.(sel := 0).(trace := [1]);
    Tests(p, 7, HANDLED, [Resume], g, 1, true, g);
    Emits(p, 1, [], b.(sel := 0), 1, false, g);
    Calls(p, 2, [OnSelector(7, HANDLED, [Resume])], b.(sel := 0), g, 2, true, g);
    assert Means(p, p[4], NOTHING, 3, true, b);
    assert PAD + [] == PAD;
    Lands(p, p[1][0], [], NOTHING, b, 0, 3, true, g);
    MeantIsRun(p, p[1], NOTHING, 4, true, g);
  }

  // ----- A handler that throws --------------------------------------------------------------------

  // try { try { throw A; } catch (A) { throw B; } } catch (B) {}
  const ESCAPING: Instr := Invoke(3, Desc([], true), [], LEAVE)
  const INNER: Instr := Invoke(2, Desc([Catch(0)], false), [], [BeginCatch] + ([ESCAPING] + []))
  const OUTER: Instr := Invoke(0, Desc([Catch(1)], false), [], CLOSE)
  const THROWING: seq<Code> := [[INNER] + [], [OUTER] + [], [Throw(Leaf(0))], [Throw(Leaf(1))]]

  // The program finishes, every handler has ended, and neither exception is destroyed: A because B replaced
  // it, B because it flew out of one handler, A's.
  lemma ThrowingHandlerLeaks() returns (g: Globals)
    ensures exists n: nat :: HaltsWith(Run(THROWING, Start(THROWING[1], NOTHING), n), Outcome(false, g))
    ensures g.thrown == 2 && g.destroyed == [] && g.exc == Machine.Some(Object(1, 1))
  {
    var p := THROWING;
    var a := Thrown(NOTHING, Leaf(0));
    var caught := Caught(a.(sel := 0));
    var b := Thrown(caught, Leaf(1));
    var left := HandlerEnded(b.(sel := 0));
    g := HandlerEnded(Caught(left.(sel := 1)));
    Leaves(p, b.(sel := 0), 3);
    assert Means(p, p[3], caught, 4, true, b);
    assert LEAVE + [] == LEAVE;
    Lands(p, ESCAPING, [], caught, b, 0, 4, true, left);
    Begins(p, [ESCAPING] + [], a.(sel := 0), 5, true, left);
    assert Means(p, p[2], NOTHING, 6, true, a);
    assert INNER.pad + [] == INNER.pad;
    Lands(p, INNER, [], NOTHING, a, 0, 6, true, left);
    Closes(p, [], left.(sel := 1), 5, false, g);
    Lands(p, OUTER, [], NOTHING, left, 1, 7, false, g);
    MeantIsRun(p, p[1], NOTHING, 8, false, g);
  }

  // ----- A handler that handles another exception and then throws its own again ---------------------

  // try { try { throw A; } catch (A) { try { throw B; } catch (B) {} throw; } } catch (A) {}
  const NESTED: Instr := Invoke(3, Desc([Catch(1)], false), [], CLOSE)
  const AGAIN: Instr := Invoke(4, Desc([], true), [], LEAVE)
  const HANDLING: Instr := Invoke(2, Desc([Catch(0)], false), [], [BeginCatch] + ([NESTED] + ([AGAIN] + [])))
  const OUTSIDE: Instr := Invoke(0, Desc([Catch(0)], false), [], CLOSE)
  const RETHROWING: seq<Code> := [[HANDLING] + [], [OUTSIDE] + [], [Throw(Leaf(0))], [Throw(Leaf(1))], [Rethrow]]

  // A is thrown again and its handler misses it, because the end of B's has forgotten it: the program is
  // terminated.
  lemma RethrownIsMissed() returns (g: Globals)
    ensures exists n: nat :: HaltsWith(Run(RETHROWING, Start(RETHROWING[1], NOTHING), n), Outcome(true, g))
    ensures g.thrown == 2 && g.destroyed == [1] && g.exc.None?
  {
    var p := RETHROWING;
    var a := Thrown(NOTHING, Leaf(0));
    var caught := Caught(a.(sel := 0));
    var b := Thrown(caught, Leaf(1));
    var ended := HandlerEnded(Caught(b.(sel := 1)));
    g := HandlerEnded(Rethrown(ended).(sel := 0));
    Leaves(p, Rethrown(ended).(sel := 0), 3);
    assert Means(p, p[4], ended, 4, true, Rethrown(ended));
    assert LEAVE + [] == LEAVE;
    Lands(p, AGAIN, [], ended, Rethrown(ended), 0, 4, true, g);
    Closes(p, [AGAIN] + [], b.(sel := 1), 5, true, g);
    assert Means(p, p[3], caught, 7, true, b);
    Lands(p, NESTED, [AGAIN] + [], caught, b, 1, 7, true, g);
    Begins(p, [NESTED] + ([AGAIN] + []), a.(sel := 0), 8, true, g);
    assert Means(p, p[2], NOTHING, 9, true, a);
    assert HANDLING.pad + [] == HANDLING.pad;
    Lands(p, HANDLING, [], NOTHING, a, 0, 9, true, g);
    Passes(p, OUTSIDE, [], NOTHING, g, 10);
    MeantIsRun(p, p[1], NOTHING, 11, true, g);
  }

  // ----- A destructor that throws again, during unwinding ---------------------------------------------

  // try { try { throw A; } catch (A) { Local d; throw; } } catch (A) {}, where ~Local() is
  // { try { throw; } catch (...) {} }.
  const CLEANING: Instr := Invoke(3, Desc([], true), [], [Call(4)] + LEAVE)
  const HOLDING: Instr := Invoke(2, Desc([Catch(0)], false), [], [BeginCatch] + ([CLEANING] + []))
  const SWALLOWING: Instr := Invoke(3, Desc([CatchAll], false), [], CLOSE)
  const CLEANUP: seq<Code> := [[HOLDING] + [], [OUTSIDE] + [], [Throw(Leaf(0))], [Rethrow], [SWALLOWING] + []]

  // The second throw turns the count positive, the end of A's handler destroys A in flight, and the handler
  // outside misses it. Throwing again while an exception flies is what Allowed leaves out.
  lemma FlyingIsDestroyed() returns (g: Globals)
    ensures exists n: nat :: HaltsWith(Run(CLEANUP, Start(CLEANUP[1], NOTHING), n), Outcome(true, g))
    ensures g.thrown == 1 && g.destroyed == [0] && g.exc.None?
  {
    var p := CLEANUP;
    var a := Thrown(NOTHING, Leaf(0));
    var caught := Caught(a.(sel := 0));
    var again := Rethrown(caught).(sel := 0);
    var swallowed := HandlerEnded(Caught(Rethrown(again).(sel := 0)));
    g := HandlerEnded(swallowed);
    Closes(p, [], Rethrown(again).(sel := 0), 2, false, swallowed);
    assert Means(p, p[3], again, 4, true, Rethrown(again));
    Lands(p, SWALLOWING, [], again, Rethrown(again), 0, 4, false, swallowed);
    Leaves(p, swallowed, 4);
    Calls(p, 4, LEAVE, again, swallowed, 5, true, g);
    assert Means(p, p[3], caught, 6, true, Rethrown(caught));
    assert CLEANING.pad + [] == CLEANING.pad;
    Lands(p, CLEANING, [], caught, Rethrown(caught), 0, 6, true, g);
    Begins(p, [CLEANING] + [], a.(sel := 0), 7, true, g);
    assert Means(p, p[2], NOTHING, 8, true, a);
    assert HOLDING.pad + [] == HOLDING.pad;
    Lands(p, HOLDING, [], NOTHING, a, 0, 8, true, g);
    Passes(p, OUTSIDE, [], NOTHING, g, 9);
    MeantIsRun(p, p[1], NOTHING, 10, true, g);
  }
}
