// Runs of a program over the allocator: requests, frees, and the program's own stores into what
// it was given.
module HeapRuns {
  import opened HeapBlocks
  import opened Malloc

  datatype Step = Request(bytes: int) | Release(p: int) | Store(x: int, v: int)

  // x is a word of the payload of block b.
  ghost predicate InPayload(h: Heap, b: int, x: int) {
    b in Live(h.tags) && b + HDR <= x < b + Live(h.tags)[b] - FTR
  }

  // What the program may do: ask for any amount, free null or what it holds, store into what it holds.
  ghost predicate Allowed(h: Heap, s: Step) {
    match s
    case Request(bytes) => -INT_LIMIT <= bytes < INT_LIMIT
    case Release(p) => p == 0 || p - HDR in Live(h.tags)
    case Store(x, _) => exists b :: InPayload(h, b, x)
  }

  ghost function Stored(h: Heap, x: int, v: int): Heap
    requires 0 <= x < |h.m|
  {
    h.(m := h.m[x := v])
  }

  lemma PayloadInside(h: Heap, b: int, x: int)
    requires HeapOk(h) && InPayload(h, b, x)
    ensures 0 < h.start <= b && b < x < h.end <= |h.m|
  {
    assert BlockOk(h.start, h.end, h.tags, b);
  }

  // A payload word is no tag, and no link of a free block.
  lemma PayloadIsFree(h: Heap, b: int, x: int, c: int)
    requires HeapOk(h) && InPayload(h, b, x) && c in h.tags
    ensures x != c && x != End(h.tags, c) - FTR
    ensures h.tags[c].free ==> x != c + 4 && x != c + 8
  {
    assert BlockOk(h.start, h.end, h.tags, b) && BlockOk(h.start, h.end, h.tags, c);
  }

  // A store into a payload keeps the invariant.
  lemma StoreKeeps(h: Heap, b: int, x: int, v: int)
    requires Sound(h) && InPayload(h, b, x)
    ensures 0 <= x < |h.m| && Sound(Stored(h, x, v))
  {
    PayloadInside(h, b, x);
    var k := Stored(h, x, v);
    forall c | c in k.tags
      ensures TagWords(k.m, k.tags, c)
    {
      assert TagWords(h.m, h.tags, c);
      PayloadIsFree(h, b, x, c);
    }
    forall i | 0 <= i < |k.list|
      ensures NodeOk(k.m, k.list, i)
    {
      assert NodeOk(h.m, h.list, i);
      PayloadIsFree(h, b, x, h.list[i]);
    }
  }

  ghost function After(h: Heap, s: Step): (k: Heap)
    requires Sound(h) && Allowed(h, s)
    ensures Sound(k) && k.start == h.start && k.end == h.end && |k.m| == |h.m|
  {
    match s
    case Request(bytes) =>
      MallocedMeans(h, bytes);
      Malloced(h, bytes).heap
    case Release(p) =>
      FreedMeans(h, p);
      Freed(h, p)
    case Store(x, v) =>
      var b :| InPayload(h, b, x);
      StoreKeeps(h, b, x, v);
      Stored(h, x, v)
  }

  ghost predicate Legal(h: Heap, steps: seq<Step>)
    requires Sound(h)
    decreases |steps|
  {
    steps == [] || (Allowed(h, steps[0]) && Legal(After(h, steps[0]), steps[1..]))
  }

  // The heap after a run. The invariant holds after every run from a heap where it holds.
  ghost function Run(h: Heap, steps: seq<Step>): (k: Heap)
    requires Sound(h) && Legal(h, steps)
    ensures Sound(k) && k.start == h.start && k.end == h.end && |k.m| == |h.m|
    decreases |steps|
  {
    if steps == [] then h else Run(After(h, steps[0]), steps[1..])
  }

  // A request that succeeds gives a block that was not live, with each byte x asked for in its payload
  // unless the size arithmetic wrapped.
  lemma RequestGives(h: Heap, bytes: int, x: int)
    requires Sound(h) && 0 < bytes < INT_LIMIT && Malloced(h, bytes).p != 0
    ensures var p := Malloced(h, bytes).p;
            && p - HDR !in Live(h.tags) && p - HDR in Live(After(h, Request(bytes)).tags)
            && (p <= x < p + bytes && bytes <= MAX_REQUEST ==> InPayload(After(h, Request(bytes)), p - HDR, x))
  {
    MallocedMeans(h, bytes);
    MallocedFits(h, bytes);
  }

  // ----- What a run keeps -------------------------------------------------------------------------

  // The program's last store to x, or what was there before.
  function LastStored(was: int, x: int, steps: seq<Step>): int
    decreases |steps|
  {
    if steps == [] then was
    else LastStored(if steps[0].Store? && steps[0].x == x then steps[0].v else was, x, steps[1..])
  }

  // One step leaves a block that it does not free live, of its size, and its words as the program
  // stored them.
  lemma StepKeeps(h: Heap, s: Step, b: int, x: int)
    requires Sound(h) && Allowed(h, s) && InPayload(h, b, x) && s != Release(b + HDR)
    ensures InPayload(After(h, s), b, x) && Live(After(h, s).tags)[b] == Live(h.tags)[b]
    ensures 0 <= x < |h.m| && After(h, s).m[x] == if s.Store? && s.x == x then s.v else h.m[x]
  {
    PayloadInside(h, b, x);
    match s
    case Request(bytes) => MallocedMeans(h, bytes);
    case Release(p) => FreedMeans(h, p);
    case Store(_, _) =>
  }

  // Throughout any run, a block that is not freed keeps its size, and each word of its payload holds
  // the program's last store to it.
  lemma {:induction false} LiveBlocksKept(h: Heap, steps: seq<Step>, b: int, x: int)
    requires Sound(h) && Legal(h, steps) && InPayload(h, b, x) && Release(b + HDR) !in steps
    ensures var k := Run(h, steps);
            && InPayload(k, b, x) && Live(k.tags)[b] == Live(h.tags)[b]
            && 0 <= x < |h.m| && k.m[x] == LastStored(h.m[x], x, steps)
    decreases |steps|
  {
    PayloadInside(h, b, x);
    if steps != [] {
      StepKeeps(h, steps[0], b, x);
      LiveBlocksKept(After(h, steps[0]), steps[1..], b, x);
    }
  }

  // Nothing outside the heap is ever touched.
  lemma {:induction false} OutsideKept(h: Heap, steps: seq<Step>, x: int)
    requires Sound(h) && Legal(h, steps) && 0 <= x < |h.m| && !(h.start <= x < h.end)
    ensures Run(h, steps).m[x] == h.m[x]
    decreases |steps|
  {
    if steps != [] {
      OutsideKeptOnce(h, steps[0], x);
      OutsideKept(After(h, steps[0]), steps[1..], x);
    }
  }

  lemma OutsideKeptOnce(h: Heap, s: Step, x: int)
    requires Sound(h) && Allowed(h, s) && 0 <= x < |h.m| && !(h.start <= x < h.end)
    ensures After(h, s).m[x] == h.m[x]
  {
    match s
    case Request(bytes) => MallocedMeans(h, bytes);
    case Release(p) => FreedMeans(h, p);
    case Store(y, _) =>
      var b :| InPayload(h, b, y);
      PayloadInside(h, b, y);
  }

  // ----- Freeing everything -----------------------------------------------------------------------

  lemma BlocksPositive(h: Heap)
    requires HeapOk(h)
    ensures forall b :: b in h.tags ==> 0 < b
  {
    forall b | b in h.tags ensures 0 < b { assert BlockOk(h.start, h.end, h.tags, b); }
  }

  // A step that is no request makes exactly what it frees not live.
  lemma StepLeaves(h: Heap, s: Step, b: int)
    requires Sound(h) && Allowed(h, s) && !s.Request?
    ensures b in Live(After(h, s).tags) <==> b in Live(h.tags) && s != Release(b + HDR)
  {
    if s.Release? {
      FreedMeans(h, s.p);
      if s.p == 0 {
        BlocksPositive(h);
      } else {
        assert Live(Freed(h, s.p).tags) == Live(h.tags) - {s.p - HDR};
      }
    }
  }

  // A run of frees and stores makes exactly the blocks it frees not live.
  lemma {:induction false} FreesLeave(h: Heap, steps: seq<Step>, b: int)
    requires Sound(h) && Legal(h, steps) && forall s :: s in steps ==> !s.Request?
    ensures b in Live(Run(h, steps).tags) <==> b in Live(h.tags) && Release(b + HDR) !in steps
    decreases |steps|
  {
    if steps != [] {
      StepLeaves(h, steps[0], b);
      FreesLeave(After(h, steps[0]), steps[1..], b);
      assert steps == [steps[0]] + steps[1..];
    }
  }

  // Freeing everything that is live, in any order and with stores in between, leaves one free block:
  // the whole heap.
  lemma FreeingAllRestores(h: Heap, steps: seq<Step>)
    requires Sound(h) && h.start < h.end && Legal(h, steps) && forall s :: s in steps ==> !s.Request?
    requires forall b :: b in Live(h.tags) ==> Release(b + HDR) in steps
    ensures var k := Run(h, steps);
            k.tags == map[h.start := Tag(h.end - h.start, true)] && k.list == [h.start] && k.head == h.start
  {
    var k := Run(h, steps);
    forall b ensures b !in Live(k.tags) { FreesLeave(h, steps, b); }
    assert Live(k.tags) == map[];
    AllFreeIsOneBlock(k);
  }

  // ----- The allocator runs -----------------------------------------------------------------------

  lemma NothingLiveAtFirst(m: Mem, start: int, size: int)
    requires 0 < start && 0 <= size && start + size <= |m|
    ensures Live(Initial(m, start, size).tags) == map[]
  {
  }

  // One step of a program, by the allocator's methods and a write to memory.
  method Do(a: Allocator, s: Step)
    requires a.Valid() && Sound(a.Ready()) && Allowed(a.Ready(), s)
    modifies a, a.mem
    ensures a.Valid() && Sound(a.Ready()) && a.Ready() == After(old(a.Ready()), s)
  {
    NothingLiveAtFirst(a.mem[..], a.sysStart, a.sysSize);
    match s
    case Request(bytes) =>
      MallocedMeans(a.Ready(), bytes);
      var _ := a.Alloc(bytes);
    case Release(p) =>
      FreedMeans(a.Ready(), p);
      a.Free(p);
    case Store(x, v) =>
      ghost var b :| InPayload(a.Ready(), b, x);
      PayloadInside(a.Ready(), b, x);
      StoreKeeps(a.Value(), b, x, v);
      a.mem[x] := v;
      assert a.Value() == Stored(old(a.Value()), x, v);
  }

  // Any program the allocator serves makes the run its steps describe.
  method Drive(a: Allocator, steps: seq<Step>)
    requires a.Valid() && Sound(a.Ready()) && Legal(a.Ready(), steps)
    modifies a, a.mem
    ensures a.Valid() && Sound(a.Ready()) && a.Ready() == Run(old(a.Ready()), steps)
  {
    var i := 0;
    while i < |steps|
      invariant i <= |steps| && a.Valid() && Sound(a.Ready()) && Legal(a.Ready(), steps[i..])
      invariant Run(a.Ready(), steps[i..]) == Run(old(a.Ready()), steps)
    {
      assert steps[i..][0] == steps[i] && steps[i..][1..] == steps[i + 1..];
      Do(a, steps[i]);
      i := i + 1;
    }
  }
}
