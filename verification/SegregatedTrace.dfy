// The runs of a trace over what the segregated allocator does to a tiling.  Which
// of several best fits is taken is left open, so that a trace can have several runs.
module SegregatedTrace {
  import opened Words
  import opened Tiling
  import opened MemLib
  import opened BoundaryTags
  import opened SegregatedSpec
  import opened TraceLedger

  datatype State = State(heap: Config, books: Ledger)

  ghost predicate Consistent(s: State) {
    Orderly(s.heap) && Balanced(s.heap.blocks, s.books)
  }

  function Start(): State {
    State(Config(map[PROLOGUE := Block(1, true), 4 := Block(CHUNK_UNITS, false)], 4 + 2 * CHUNK_UNITS),
          Ledger(map[], map[]))
  }

  lemma StartConsistent()
    ensures Consistent(Start()) && Start().books.at.Keys == {}
  {
    FirstChunk();
    GrowsTidy(map[PROLOGUE := Block(1, true)], 4, CHUNK_UNITS);
  }

  lemma HeldLive(s: State, id: int)
    requires Consistent(s) && id in s.books.at
    ensures LiveAt(s.heap.blocks, s.books.at[id]) && s.books.at[id] != PROLOGUE && s.books.at[id] != 0
  {
  }

  // The operation takes s to t.
  ghost predicate Step(s: State, op: Op, numIds: int, capacity: int, t: State) {
    && Consistent(s) && Admissible(op, s.books.at.Keys, numIds)
    && match op
       case Alloc(id, size) =>
         exists p ::
           && p != 0 && Handed(s.heap.blocks, s.heap.end, size, capacity, t.heap.blocks, t.heap.end, p)
           && t.books == Entered(s.books, id, p, size)
       case Realloc(id, size) =>
         && !Wrecks(s, op, capacity)
         && LiveAt(s.heap.blocks, s.books.at[id])
         && exists q ::
              && q != 0 && Resized(s.heap.blocks, s.heap.end, s.books.at[id], size, capacity,
                                   t.heap.blocks, t.heap.end, q, false)
              && t.books == Amended(s.books, id, q, size)
       case Free(id) =>
         && LiveAt(s.heap.blocks, s.books.at[id]) && s.books.at[id] != PROLOGUE
         && t == State(Config(Freed(s.heap.blocks, s.heap.end, s.books.at[id]), s.heap.end), Struck(s.books, id))
  }

  // The realloc would swallow a live block or copy to the null pointer.
  ghost predicate Wrecks(s: State, op: Op, capacity: int) {
    && op.Realloc? && 0 < op.size && op.id in s.books.at && s.books.at[op.id] in s.heap.blocks
    && var p, n := s.books.at[op.id], BlockUnits(op.size);
      Swallows(s.heap.blocks, s.heap.end, p, n, capacity) || Crashes(s.heap.blocks, s.heap.end, p, n, capacity)
  }

  // mm_malloc or mm_realloc returns null.
  ghost predicate Stuck(s: State, op: Op, capacity: int) {
    match op
    case Alloc(id, size) => 0 < size && Refused(s.heap.blocks, s.heap.end, BlockUnits(size), capacity)
    case Realloc(id, size) =>
      && 0 < size && id in s.books.at && s.books.at[id] in s.heap.blocks
      && Starved(s.heap.blocks, s.heap.end, s.books.at[id], BlockUnits(size), capacity)
    case Free(_) => false
  }

  lemma AllocConsistent(s: State, id: int, size: int, numIds: int, capacity: int, t: State, p: int)
    requires Consistent(s) && Admissible(Op.Alloc(id, size), s.books.at.Keys, numIds) && p != 0
    requires Handed(s.heap.blocks, s.heap.end, size, capacity, t.heap.blocks, t.heap.end, p)
    requires t.books == Entered(s.books, id, p, size)
    ensures Consistent(t) && s.heap.end <= t.heap.end <= s.heap.end + 2 * Demand(Op.Alloc(id, size))
  {
    hide Tiled, Isolated, Handed, Housed, Named, SameLive;
    HandedEffect(s.heap.blocks, s.heap.end, size, capacity, t.heap.blocks, t.heap.end, p);
    HandedOutcome(s.heap.blocks, s.heap.end, size, capacity, t.heap.blocks, t.heap.end, p);
    EnteredBalanced(s.heap.blocks, t.heap.blocks, s.books, id, p, size);
  }

  lemma ReallocConsistent(s: State, id: int, size: int, numIds: int, capacity: int, t: State, q: int)
    requires Consistent(s) && Admissible(Op.Realloc(id, size), s.books.at.Keys, numIds) && q != 0
    requires !Wrecks(s, Op.Realloc(id, size), capacity)
    requires LiveAt(s.heap.blocks, s.books.at[id])
    requires Resized(s.heap.blocks, s.heap.end, s.books.at[id], size, capacity, t.heap.blocks, t.heap.end, q, false)
    requires t.books == Amended(s.books, id, q, size)
    ensures Consistent(t) && s.heap.end <= t.heap.end <= s.heap.end + 2 * Demand(Op.Realloc(id, size))
  {
    hide Tiled, Isolated, Resized, Housed, Named, Replaced, Crashes, Swallows;
    var p := s.books.at[id];
    HeldLive(s, id);
    ResizedEffect(s.heap.blocks, s.heap.end, p, size, capacity, t.heap.blocks, t.heap.end, q, false);
    ResizedGrowth(s.heap.blocks, s.heap.end, p, size, capacity, t.heap.blocks, t.heap.end, q);
    AmendedBalanced(s.heap.blocks, t.heap.blocks, s.books, id, q, size);
  }

  lemma ResizedGrowth(b: Blocks, end: int, p: int, size: int, capacity: int, c: Blocks, end': int, at: int)
    requires Tiled(b, end) && Isolated(b) && LiveAt(b, p) && size > 0 && at != 0
    requires Resized(b, end, p, size, capacity, c, end', at, false)
    ensures end <= end' <= end + 2 * Demand(Op.Realloc(0, size))
  {
    hide Tiled, Isolated, Handed, Enlarged;
    ShortfallBound(b, end, p, BlockUnits(size));
    if PlanOf(b, p, BlockUnits(size)) == Move {
      var d :| Handed(b, end, size, capacity, d, end', at);
      HandedOutcome(b, end, size, capacity, d, end', at);
    }
  }

  // No realloc grows the heap by more than its own block or a chunk.
  lemma ShortfallBound(b: Blocks, end: int, p: int, n: int)
    requires Tiled(b, end) && p in b && n > 0
    ensures 0 <= Shortfall(b, p, n) && (Shortfall(b, p, n) <= CHUNK_UNITS || Shortfall(b, p, n) < n)
  {
  }

  // Every step keeps the live blocks to exactly the blocks held.
  lemma StepConsistent(s: State, op: Op, numIds: int, capacity: int, t: State)
    requires Step(s, op, numIds, capacity, t)
    ensures Consistent(t) && t.books.at.Keys == IdsAfter(op, s.books.at.Keys)
    ensures s.heap.end <= t.heap.end <= s.heap.end + 2 * Demand(op)
  {
    hide Tiled, Isolated, Resized, Handed, Housed, Named, Wrecks;
    match op
    case Alloc(id, size) =>
      var p :| p != 0 && Handed(s.heap.blocks, s.heap.end, size, capacity, t.heap.blocks, t.heap.end, p)
               && t.books == Entered(s.books, id, p, size);
      AllocConsistent(s, id, size, numIds, capacity, t, p);
    case Realloc(id, size) =>
      var q :| q != 0 && Resized(s.heap.blocks, s.heap.end, s.books.at[id], size, capacity,
                                 t.heap.blocks, t.heap.end, q, false)
               && t.books == Amended(s.books, id, q, size);
      ReallocConsistent(s, id, size, numIds, capacity, t, q);
    case Free(id) =>
      StruckBalanced(s.heap.blocks, t.heap.blocks, s.books, id);
  }

  // What an operation does to the live bytes, and with them to the blocks held.
  lemma StepBytes(s: State, op: Op, numIds: int, capacity: int, t: State)
    requires Step(s, op, numIds, capacity, t)
    requires !op.Alloc? ==> op.id in s.books.at && s.books.at[op.id] in s.books.held
    ensures LiveBytes(t.books.held) == LiveBytes(s.books.held)
      + (if op.Free? then 0 else op.size) - (if op.Alloc? then 0 else s.books.held[s.books.at[op.id]].size)
  {
    hide Tiled, Isolated, Resized, Handed, Wrecks, Named, LiveBytes, SameLive;
    match op
    case Alloc(id, size) =>
      var p :| p != 0 && Handed(s.heap.blocks, s.heap.end, size, capacity, t.heap.blocks, t.heap.end, p)
               && t.books == Entered(s.books, id, p, size);
      HandedEffect(s.heap.blocks, s.heap.end, size, capacity, t.heap.blocks, t.heap.end, p);
      LiveBytesAdd(s.books.held, p, Lease(size, id % 256));
    case Realloc(id, size) =>
      var q :| q != 0 && Resized(s.heap.blocks, s.heap.end, s.books.at[id], size, capacity,
                                 t.heap.blocks, t.heap.end, q, false)
               && t.books == Amended(s.books, id, q, size);
      NotSwallowed(s, op, capacity);
      ResizedEffect(s.heap.blocks, s.heap.end, s.books.at[id], size, capacity, t.heap.blocks, t.heap.end, q, false);
      LiveBytesPick(s.books.held, s.books.at[id]);
      LiveBytesAdd(s.books.held - {s.books.at[id]}, q, Lease(size, id % 256));
    case Free(id) =>
      LiveBytesPick(s.books.held, s.books.at[id]);
  }

  // With room for its demand, an operation gets its block, unless it swallows another.
  lemma RoomServes(s: State, op: Op, numIds: int, capacity: int)
    requires Consistent(s) && Admissible(op, s.books.at.Keys, numIds) && s.heap.end + 2 * Demand(op) <= capacity
    ensures !Stuck(s, op, capacity)
    ensures Wrecks(s, op, capacity) ==>
      Swallows(s.heap.blocks, s.heap.end, s.books.at[op.id], BlockUnits(op.size), capacity)
  {
    hide Isolated;
    if op.Realloc? {
      HeldLive(s, op.id);
      ShortfallBound(s.heap.blocks, s.heap.end, s.books.at[op.id], BlockUnits(op.size));
    }
  }

  // The states the first operations of a trace go through.
  ghost predicate IsTraceRun(run: seq<State>, ops: seq<Op>, numIds: int, capacity: int) {
    && 0 < |run| <= |ops| + 1 && run[0] == Start()
    && forall i :: 0 <= i < |run| - 1 ==> Step(run[i], ops[i], numIds, capacity, run[i + 1])
  }

  // No run of the trace comes to a realloc that swallows a block or crashes.
  ghost predicate Harmless(ops: seq<Op>, numIds: int, capacity: int) {
    forall run: seq<State> {:trigger IsTraceRun(run, ops, numIds, capacity)} ::
      IsTraceRun(run, ops, numIds, capacity) && 0 < |run| <= |ops| ==>
        !Wrecks(run[|run| - 1], ops[|run| - 1], capacity)
  }

  lemma {:induction false} RunConsistent(run: seq<State>, ops: seq<Op>, numIds: int, capacity: int, i: int)
    requires IsTraceRun(run, ops, numIds, capacity) && WellFormed(ops, {}, numIds) && 0 <= i < |run|
    ensures Consistent(run[i]) && WellFormed(ops[i..], run[i].books.at.Keys, numIds)
    ensures run[i].heap.end + 2 * TotalDemand(ops[i..]) <= 4 + 2 * CHUNK_UNITS + 2 * TotalDemand(ops)
    decreases i
  {
    hide Consistent, Step;
    if i == 0 {
      StartConsistent();
      assert ops[0..] == ops;
    } else {
      RunConsistent(run, ops, numIds, capacity, i - 1);
      assert ops[i - 1..][1..] == ops[i..];
      assert Step(run[i - 1], ops[i - 1], numIds, capacity, run[i - 1 + 1]);
      StepConsistent(run[i - 1], ops[i - 1], numIds, capacity, run[i]);
    }
  }

  // A trace whose requests, each counted as at least one chunk, fit in the heap
  // together with the first chunk never gets stuck.
  lemma EnoughRoom(run: seq<State>, ops: seq<Op>, numIds: int, capacity: int)
    requires IsTraceRun(run, ops, numIds, capacity) && WellFormed(ops, {}, numIds) && |run| <= |ops|
    requires 4 + 2 * CHUNK_UNITS + 2 * TotalDemand(ops) <= capacity
    ensures !Stuck(run[|run| - 1], ops[|run| - 1], capacity)
  {
    hide Consistent, Step, Stuck, Wrecks;
    var i := |run| - 1;
    RunConsistent(run, ops, numIds, capacity, i);
    assert ops[i..][0] == ops[i];
    RoomServes(run[i], ops[i], numIds, capacity);
  }

  // Whatever a run has done, once everything held is freed one free block is left.
  lemma AllFreed(run: seq<State>, ops: seq<Op>, numIds: int, capacity: int, i: int)
    requires IsTraceRun(run, ops, numIds, capacity) && WellFormed(ops, {}, numIds) && 0 <= i < |run|
    requires run[i].books.held == map[] && run[i].heap.end > 4
    ensures run[i].heap.blocks == map[PROLOGUE := Block(1, true), 4 := Block((run[i].heap.end - 4) / 2, false)]
  {
    hide Tiled, Isolated, Step;
    RunConsistent(run, ops, numIds, capacity, i);
    var b := run[i].heap.blocks;
    assert forall p :: p in b && p != PROLOGUE ==> p !in run[i].books.held;
    AllFree(b, run[i].heap.end);
  }

  // ---- Traces that do no harm ----------------------------------------------------------

  // The sizes of the live requests, as the trace alone tells them.
  function SizesAfter(op: Op, sizes: map<int, int>): map<int, int> {
    match op
    case Alloc(id, size) => sizes[id := size]
    case Realloc(id, size) => sizes[id := size]
    case Free(id) => sizes - {id}
  }

  // No realloc asks for more than the request has.
  predicate Shrinking(ops: seq<Op>, sizes: map<int, int>) {
    ops == []
    || ((ops[0].Realloc? ==> ops[0].id in sizes && ops[0].size <= sizes[ops[0].id])
        && Shrinking(ops[1..], SizesAfter(ops[0], sizes)))
  }

  ghost predicate SizesAgree(l: Ledger, sizes: map<int, int>) {
    forall id :: id in sizes ==> id in l.at && l.at[id] in l.held && sizes[id] == l.held[l.at[id]].size
  }

  lemma EnteredSizes(l: Ledger, sizes: map<int, int>, id: int, p: int, size: int)
    requires SizesAgree(l, sizes) && p !in l.held
    ensures SizesAgree(Entered(l, id, p, size), sizes[id := size])
  {
  }

  lemma StruckSizes(l: Ledger, sizes: map<int, int>, id: int)
    requires SizesAgree(l, sizes) && Named(l) && id in l.at
    ensures SizesAgree(Struck(l, id), sizes - {id})
  {
  }

  lemma StepSizes(s: State, op: Op, numIds: int, capacity: int, t: State, sizes: map<int, int>)
    requires Step(s, op, numIds, capacity, t) && SizesAgree(s.books, sizes)
    ensures SizesAgree(t.books, SizesAfter(op, sizes))
  {
    hide Tiled, Isolated, Resized, Handed, Wrecks, Named, SizesAgree, Crashes, Swallows;
    match op
    case Alloc(id, size) =>
      var p :| p != 0 && Handed(s.heap.blocks, s.heap.end, size, capacity, t.heap.blocks, t.heap.end, p)
               && t.books == Entered(s.books, id, p, size);
      HandedEffect(s.heap.blocks, s.heap.end, size, capacity, t.heap.blocks, t.heap.end, p);
      EnteredSizes(s.books, sizes, id, p, size);
    case Realloc(id, size) =>
      var q :| q != 0 && Resized(s.heap.blocks, s.heap.end, s.books.at[id], size, capacity,
                                 t.heap.blocks, t.heap.end, q, false)
               && t.books == Amended(s.books, id, q, size);
      NotSwallowed(s, op, capacity);
      ResizedEffect(s.heap.blocks, s.heap.end, s.books.at[id], size, capacity, t.heap.blocks, t.heap.end, q, false);
      StruckSizes(s.books, sizes, id);
      EnteredSizes(Struck(s.books, id), sizes - {id}, id, q, size);
      assert (sizes - {id})[id := size] == sizes[id := size];
    case Free(id) =>
      StruckSizes(s.books, sizes, id);
  }

  lemma NotSwallowed(s: State, op: Op, capacity: int)
    requires Consistent(s) && op.Realloc? && 0 < op.size && op.id in s.books.at && !Wrecks(s, op, capacity)
    ensures var p := s.books.at[op.id];
      && LiveAt(s.heap.blocks, p) && p != PROLOGUE
      && !Swallows(s.heap.blocks, s.heap.end, p, BlockUnits(op.size), capacity)
  {
    HeldLive(s, op.id);
  }

  // A block always has room for as much as it was asked for.
  lemma ShrinkKeeps(s: State, op: Op, capacity: int)
    requires Consistent(s) && op.Realloc? && 0 < op.size && op.id in s.books.at && s.books.at[op.id] in s.books.held
    requires op.size <= s.books.held[s.books.at[op.id]].size
    ensures !Wrecks(s, op, capacity)
  {
    hide Isolated;
    var p := s.books.at[op.id];
    assert p in s.books.held && Roomy(s.heap.blocks[p], s.books.held[p].size);
    assert PlanOf(s.heap.blocks, p, BlockUnits(op.size)) == Keep;
  }

  // From state i of a run on, the sizes told by the trace are those held.
  lemma {:induction false} RunSizes(run: seq<State>, ops: seq<Op>, numIds: int, capacity: int, i: int)
    returns (sizes: map<int, int>)
    requires IsTraceRun(run, ops, numIds, capacity) && Shrinking(ops, map[]) && 0 <= i < |run|
    ensures SizesAgree(run[i].books, sizes) && Shrinking(ops[i..], sizes)
    decreases i
  {
    hide Step;
    if i == 0 {
      sizes := map[];
      assert ops[0..] == ops;
    } else {
      var before := RunSizes(run, ops, numIds, capacity, i - 1);
      sizes := SizesAfter(ops[i - 1], before);
      assert ops[i - 1..][1..] == ops[i..];
      assert Step(run[i - 1], ops[i - 1], numIds, capacity, run[i - 1 + 1]);
      StepSizes(run[i - 1], ops[i - 1], numIds, capacity, run[i], before);
    }
  }

  // A trace whose reallocs never ask for more than the request has does no harm.
  lemma ShrinkingHarmless(ops: seq<Op>, numIds: int, capacity: int)
    requires WellFormed(ops, {}, numIds) && Shrinking(ops, map[])
    ensures Harmless(ops, numIds, capacity)
  {
    hide Consistent, Step, Wrecks, IsTraceRun;
    forall run: seq<State> {:trigger IsTraceRun(run, ops, numIds, capacity)}
      | IsTraceRun(run, ops, numIds, capacity) && 0 < |run| <= |ops|
      ensures !Wrecks(run[|run| - 1], ops[|run| - 1], capacity)
    {
      var i := |run| - 1;
      var sizes := RunSizes(run, ops, numIds, capacity, i);
      RunConsistent(run, ops, numIds, capacity, i);
      assert ops[i..][0] == ops[i];
      if ops[i].Realloc? {
        ShrinkKeeps(run[i], ops[i], capacity);
      } else {
        OnlyReallocs(run[i], ops[i], capacity);
      }
    }
  }

  lemma OnlyReallocs(s: State, op: Op, capacity: int)
    requires !op.Realloc?
    ensures !Wrecks(s, op, capacity)
  {
  }
}
