// The run of a trace over what the implicit-list allocator does to a tiling.
module ImplicitTrace {
  import opened Words
  import opened Tiling
  import opened MemLib
  import opened BoundaryTags
  import opened ImplicitSpec
  import opened TraceLedger

  datatype State = State(heap: Heap, books: Ledger)

  ghost predicate Consistent(s: State) {
    Good(s.heap) && Balanced(s.heap.blocks, s.books)
  }

  datatype Outcome = Done(s: State) | OutOfMemory

  ghost function Step(s: State, op: Op, numIds: int, capacity: int): (r: Outcome)
    requires Consistent(s) && Admissible(op, s.books.at.Keys, numIds)
    ensures r.Done? ==> r.s.books.at.Keys == IdsAfter(op, s.books.at.Keys)
  {
    match op
    case Alloc(id, size) =>
      var (h, p) := Malloc(s.heap, size, capacity);
      if p == 0 then OutOfMemory else Done(State(h, Entered(s.books, id, p, size)))
    case Realloc(id, size) =>
      HeldLive(s, id);
      var (h, q) := ImplicitSpec.Realloc(s.heap, s.books.at[id], size, capacity);
      if q == 0 then OutOfMemory else Done(State(h, Amended(s.books, id, q, size)))
    case Free(id) =>
      HeldLive(s, id);
      Done(State(ImplicitSpec.Free(s.heap, s.books.at[id]), Struck(s.books, id)))
  }

  lemma HeldLive(s: State, id: int)
    requires Consistent(s) && id in s.books.at
    ensures Live(s.heap, s.books.at[id]) && s.books.at[id] != 0
  {
  }

  // After every operation the live blocks are exactly the blocks held.
  lemma StepConsistent(s: State, op: Op, numIds: int, capacity: int)
    requires Consistent(s) && Admissible(op, s.books.at.Keys, numIds)
    ensures var r := Step(s, op, numIds, capacity);
      r.Done? ==> Consistent(r.s)
  {
    hide Good, SameLive, Replaced, Housed, Named, Malloc, ImplicitSpec.Realloc, ImplicitSpec.Free;
    match op
    case Alloc(id, size) =>
      MallocEffect(s.heap, size, capacity);
      var (h, p) := Malloc(s.heap, size, capacity);
      if p != 0 {
        EnteredBalanced(s.heap.blocks, h.blocks, s.books, id, p, size);
      }
    case Realloc(id, size) =>
      HeldLive(s, id);
      ReallocEffect(s.heap, s.books.at[id], size, capacity);
      var (h, q) := ImplicitSpec.Realloc(s.heap, s.books.at[id], size, capacity);
      if q != 0 {
        AmendedBalanced(s.heap.blocks, h.blocks, s.books, id, q, size);
      }
    case Free(id) =>
      HeldLive(s, id);
      FreeEffect(s.heap, s.books.at[id]);
      StruckBalanced(s.heap.blocks, ImplicitSpec.Free(s.heap, s.books.at[id]).blocks, s.books, id);
  }

  // The whole run, from state s.
  ghost function Run(s: State, ops: seq<Op>, numIds: int, capacity: int): Outcome
    requires Consistent(s) && WellFormed(ops, s.books.at.Keys, numIds)
    decreases |ops|
  {
    if ops == [] then Done(s)
    else
      StepConsistent(s, ops[0], numIds, capacity);
      var r := Step(s, ops[0], numIds, capacity);
      if r.Done? then Run(r.s, ops[1..], numIds, capacity) else OutOfMemory
  }

  ghost function Start(): State {
    State(Initial(), Ledger(map[], map[]))
  }

  lemma StartConsistent()
    ensures Consistent(Start()) && Start().books.at.Keys == {}
  {
    InitialMeaning();
  }

  // ---- Room -------------------------------------------------------------------------

  lemma StepGrowth(s: State, op: Op, numIds: int, capacity: int)
    requires Consistent(s) && Admissible(op, s.books.at.Keys, numIds)
    ensures var r := Step(s, op, numIds, capacity);
      && (s.heap.end + 2 * Demand(op) <= capacity ==> r.Done?)
      && (r.Done? ==> s.heap.end <= r.s.heap.end <= s.heap.end + 2 * Demand(op))
  {
    hide Good, Balanced, Malloc;
    match op
    case Alloc(id, size) => MallocGrowth(s.heap, size, capacity);
    case Realloc(id, size) =>
      HeldLive(s, id);
      MallocGrowth(s.heap, size, capacity);
    case Free(id) => HeldLive(s, id);
  }

  lemma MallocGrowth(h: Heap, size: int, capacity: int)
    requires Good(h) && 0 < size
    ensures var (g, p) := Malloc(h, size, capacity);
      var k := if BlockUnits(size) > CHUNK_UNITS then BlockUnits(size) else CHUNK_UNITS;
      && h.end <= g.end <= h.end + 2 * k
      && (h.end + 2 * k <= capacity ==> p != 0)
  {
    hide Good, Malloc;
    MallocOutcome(h, size, capacity);
  }

  // A trace whose requests, each counted as at least one chunk, fit in the heap
  // together with the first chunk always runs to its end.
  lemma {:induction false} EnoughRoom(s: State, ops: seq<Op>, numIds: int, capacity: int)
    requires Consistent(s) && WellFormed(ops, s.books.at.Keys, numIds)
    requires s.heap.end + 2 * TotalDemand(ops) <= capacity
    ensures Run(s, ops, numIds, capacity).Done?
    decreases |ops|
  {
    hide Consistent, Step;
    if ops != [] {
      StepGrowth(s, ops[0], numIds, capacity);
      StepConsistent(s, ops[0], numIds, capacity);
      EnoughRoom(Step(s, ops[0], numIds, capacity).s, ops[1..], numIds, capacity);
    }
  }

  lemma {:induction false} RunConsistent(s: State, ops: seq<Op>, numIds: int, capacity: int)
    requires Consistent(s) && WellFormed(ops, s.books.at.Keys, numIds)
    ensures var r := Run(s, ops, numIds, capacity);
      r.Done? ==> Consistent(r.s) && s.heap.end <= r.s.heap.end
    decreases |ops|
  {
    hide Consistent, Step;
    if ops != [] {
      StepConsistent(s, ops[0], numIds, capacity);
      StepGrowth(s, ops[0], numIds, capacity);
      var r := Step(s, ops[0], numIds, capacity);
      if r.Done? {
        RunConsistent(r.s, ops[1..], numIds, capacity);
      }
    }
  }

  // A run that frees everything leaves one free block of the heap size less 16 bytes.
  lemma AllFreed(s: State, ops: seq<Op>, numIds: int, capacity: int)
    requires Consistent(s) && WellFormed(ops, s.books.at.Keys, numIds) && s.heap.end > 4
    requires var r := Run(s, ops, numIds, capacity); r.Done? && r.s.books.held == map[]
    ensures var h := Run(s, ops, numIds, capacity).s.heap;
      h.blocks == map[PROLOGUE := Block(1, true), 4 := Block((h.end - 4) / 2, false)]
  {
    hide Tiled, Isolated, Run;
    RunConsistent(s, ops, numIds, capacity);
    var t := Run(s, ops, numIds, capacity).s;
    assert forall p :: p in t.heap.blocks && p != PROLOGUE ==> p !in t.books.held;
    AllFree(t.heap.blocks, t.heap.end);
  }

  // ---- Utilisation ------------------------------------------------------------------

  // The largest number of live bytes at any point of a run.
  ghost function Peak(s: State, ops: seq<Op>, numIds: int, capacity: int): int
    requires Consistent(s) && WellFormed(ops, s.books.at.Keys, numIds)
    decreases |ops|
  {
    var now := LiveBytes(s.books.held);
    if ops == [] then now
    else
      StepConsistent(s, ops[0], numIds, capacity);
      var r := Step(s, ops[0], numIds, capacity);
      Larger(now, if r.Done? then Peak(r.s, ops[1..], numIds, capacity) else now)
  }

  lemma PeakCountsStart(s: State, ops: seq<Op>, numIds: int, capacity: int)
    requires Consistent(s) && WellFormed(ops, s.books.at.Keys, numIds)
    ensures LiveBytes(s.books.held) <= Peak(s, ops, numIds, capacity)
  {
  }

  lemma HeldFits(s: State)
    requires Consistent(s)
    ensures LiveBytes(s.books.held) + DSIZE * |s.books.held| <= 4 * (s.heap.end - 4)
  {
    LiveBytesFit(s.heap.blocks, s.heap.end, s.books.held);
  }

  // At no point of a completed run are there more live bytes than the final heap has.
  lemma {:induction false} PeakFits(s: State, ops: seq<Op>, numIds: int, capacity: int)
    requires Consistent(s) && WellFormed(ops, s.books.at.Keys, numIds)
    requires Run(s, ops, numIds, capacity).Done?
    ensures Peak(s, ops, numIds, capacity) <= 4 * Run(s, ops, numIds, capacity).s.heap.end - 16
    decreases |ops|
  {
    hide Consistent, Step, LiveBytes;
    HeldFits(s);
    RunConsistent(s, ops, numIds, capacity);
    if ops != [] {
      StepConsistent(s, ops[0], numIds, capacity);
      PeakFits(Step(s, ops[0], numIds, capacity).s, ops[1..], numIds, capacity);
    }
  }

  lemma {:induction false} PrefixFormed(ops: seq<Op>, ids: set<int>, numIds: int, i: int)
    requires WellFormed(ops, ids, numIds) && 0 <= i <= |ops|
    ensures WellFormed(ops[..i], ids, numIds)
  {
    if i > 0 {
      PrefixFormed(ops[1..], IdsAfter(ops[0], ids), numIds, i - 1);
      assert ops[..i][1..] == ops[1..][..i - 1];
    }
  }

  // The live bytes after the first i operations, on a run of their own.
  ghost function LiveAfter(s: State, ops: seq<Op>, i: int, numIds: int, capacity: int): int
    requires Consistent(s) && WellFormed(ops, s.books.at.Keys, numIds) && 0 <= i <= |ops|
  {
    PrefixFormed(ops, s.books.at.Keys, numIds, i);
    var r := Run(s, ops[..i], numIds, capacity);
    if r.Done? then LiveBytes(r.s.books.held) else 0
  }

  lemma LiveAfterStep(s: State, ops: seq<Op>, i: int, numIds: int, capacity: int)
    requires Consistent(s) && WellFormed(ops, s.books.at.Keys, numIds) && 0 < i <= |ops|
    requires Step(s, ops[0], numIds, capacity).Done?
    ensures var t := Step(s, ops[0], numIds, capacity).s;
      && Consistent(t) && WellFormed(ops[1..], t.books.at.Keys, numIds)
      && LiveAfter(s, ops, i, numIds, capacity) == LiveAfter(t, ops[1..], i - 1, numIds, capacity)
  {
    hide Consistent, Step, LiveBytes;
    StepConsistent(s, ops[0], numIds, capacity);
    PrefixFormed(ops, s.books.at.Keys, numIds, i);
    assert ops[..i][1..] == ops[1..][..i - 1];
  }

  // The peak bounds the live bytes after every operation...
  lemma {:induction false} PeakBounds(s: State, ops: seq<Op>, numIds: int, capacity: int, i: int)
    requires Consistent(s) && WellFormed(ops, s.books.at.Keys, numIds)
    requires Run(s, ops, numIds, capacity).Done? && 0 <= i <= |ops|
    ensures LiveAfter(s, ops, i, numIds, capacity) <= Peak(s, ops, numIds, capacity)
    decreases |ops|
  {
    hide Consistent, Step, LiveBytes;
    if i == 0 {
      assert ops[..0] == [];
    } else {
      LiveAfterStep(s, ops, i, numIds, capacity);
      PeakBounds(Step(s, ops[0], numIds, capacity).s, ops[1..], numIds, capacity, i - 1);
    }
  }

  // ... and is reached after one of them.
  lemma {:induction false} PeakReached(s: State, ops: seq<Op>, numIds: int, capacity: int) returns (i: int)
    requires Consistent(s) && WellFormed(ops, s.books.at.Keys, numIds)
    requires Run(s, ops, numIds, capacity).Done?
    ensures 0 <= i <= |ops| && LiveAfter(s, ops, i, numIds, capacity) == Peak(s, ops, numIds, capacity)
    decreases |ops|
  {
    hide Consistent, Step, LiveBytes;
    assert ops[..0] == [];
    i := 0;
    if LiveBytes(s.books.held) < Peak(s, ops, numIds, capacity) {
      StepConsistent(s, ops[0], numIds, capacity);
      i := PeakReached(Step(s, ops[0], numIds, capacity).s, ops[1..], numIds, capacity);
      i := i + 1;
      LiveAfterStep(s, ops, i, numIds, capacity);
    }
  }

  // What an operation does to the live bytes.
  lemma StepBytes(s: State, op: Op, numIds: int, capacity: int)
    requires Consistent(s) && Admissible(op, s.books.at.Keys, numIds) && Step(s, op, numIds, capacity).Done?
    requires !op.Alloc? ==> op.id in s.books.at && s.books.at[op.id] in s.books.held
    ensures var t := Step(s, op, numIds, capacity).s;
      LiveBytes(t.books.held) == LiveBytes(s.books.held)
        + (if op.Free? then 0 else op.size) - (if op.Alloc? then 0 else s.books.held[s.books.at[op.id]].size)
  {
    hide Good, LiveBytes, Malloc, ImplicitSpec.Realloc, ImplicitSpec.Free, Named, SameLive;
    match op
    case Alloc(id, size) =>
      MallocEffect(s.heap, size, capacity);
      var (h, p) := Malloc(s.heap, size, capacity);
      LiveBytesAdd(s.books.held, p, Lease(size, id % 256));
    case Realloc(id, size) =>
      HeldLive(s, id);
      ReallocEffect(s.heap, s.books.at[id], size, capacity);
      var (h, q) := ImplicitSpec.Realloc(s.heap, s.books.at[id], size, capacity);
      LiveBytesPick(s.books.held, s.books.at[id]);
      LiveBytesAdd(s.books.held - {s.books.at[id]}, q, Lease(size, id % 256));
    case Free(id) =>
      LiveBytesPick(s.books.held, s.books.at[id]);
  }

  lemma RunEnds(s: State, numIds: int, capacity: int)
    requires Consistent(s)
    ensures Run(s, [], numIds, capacity) == Done(s) && Peak(s, [], numIds, capacity) == LiveBytes(s.books.held)
  {
  }

  // The first step of a run.
  lemma RunUnfold(s: State, ops: seq<Op>, numIds: int, capacity: int)
    requires Consistent(s) && ops != [] && WellFormed(ops, s.books.at.Keys, numIds)
    ensures var r := Step(s, ops[0], numIds, capacity);
      if r.Done? then
        && Consistent(r.s) && WellFormed(ops[1..], r.s.books.at.Keys, numIds)
        && Run(s, ops, numIds, capacity) == Run(r.s, ops[1..], numIds, capacity)
        && LiveBytes(r.s.books.held) <= Peak(r.s, ops[1..], numIds, capacity)
        && Peak(s, ops, numIds, capacity) == Larger(LiveBytes(s.books.held), Peak(r.s, ops[1..], numIds, capacity))
      else
        Run(s, ops, numIds, capacity) == OutOfMemory
  {
    hide Consistent, Step, LiveBytes;
    StepConsistent(s, ops[0], numIds, capacity);
    var r := Step(s, ops[0], numIds, capacity);
    if r.Done? {
      PeakCountsStart(r.s, ops[1..], numIds, capacity);
    }
  }
}
