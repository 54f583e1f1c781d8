// The correctness run of malloc/malloc-package/mdriver.c over the segregated
// allocator, of which malloc/malloc-package/mm.c is a copy.
module SegregatedDriver {
  import opened Words
  import opened MemLib
  import opened Tiling
  import opened BoundaryTags
  import opened FreeLists
  import opened SegregatedSpec
  import opened SegregatedHeap
  import opened TraceLedger
  import opened TraceRecords
  import opened SegregatedTrace

  class TraceRun {
    const mem: Memory
    const heap: Allocator
    const records: Records

    constructor (heap: Allocator, records: Records)
      requires heap.mem == records.mem && heap.Separated() && records.Separated()
      requires heap.freeLists != records.ptrs && heap.freeLists != records.sizes
      ensures this.mem == heap.mem && this.heap == heap && this.records == records && Separated()
    {
      this.mem, this.heap, this.records := heap.mem, heap, records;
    }

    ghost predicate Separated() {
      && heap.mem == mem && records.mem == mem && heap.Separated() && records.Separated()
      && heap.freeLists != records.ptrs && heap.freeLists != records.sizes
    }

    ghost function Abs(): State
      reads heap, mem, records
    {
      State(Config(heap.blocks, mem.brk), records.books)
    }

    // The allocator and the records are in order and agree with each other.
    ghost predicate Valid()
      reads heap, heap.freeLists, mem, mem.words, records, records.ptrs, records.sizes
    {
      Separated() && heap.Valid() && Consistent(Abs()) && records.InOrder()
    }

    method DoAlloc(id: int, size: int, ghost numIds: int) returns (ok: bool)
      requires Valid() && Admissible(Op.Alloc(id, size), records.books.at.Keys, numIds) && records.ptrs.Length == numIds
      modifies heap, heap.freeLists, mem, mem.words, records, records.ptrs, records.sizes
      ensures ok <==> !Stuck(old(Abs()), Op.Alloc(id, size), mem.words.Length)
      ensures ok ==> Valid() && Step(old(Abs()), Op.Alloc(id, size), numIds, mem.words.Length, Abs())
    {
      hide Housed, Named, Represents, Filled, Listed, Recorded, PayloadsKept, SameLive, Handed, Elsewhere, Tiled,
        Isolated, Index, FreeSizes, Refused;
      ghost var s, m, capacity := Abs(), mem.words[..], mem.words.Length;
      var p := heap.MmMalloc(size);
      AllocServed(s, heap.blocks, mem.brk, size, capacity, p);
      if p == 0 {
        return false;
      }
      ghost var t := State(Config(heap.blocks, mem.brk), Entered(s.books, id, p, size));
      AllocPlaced(s, m, mem.words[..], id, p, size, numIds, capacity, t);
      ghost var m1 := mem.words[..];
      ok := records.Admit(id, p, size, heap.blocks);
      CopyDone(m1, mem.words[..], heap.freeLists[..], heap.lists, heap.blocks, mem.brk, p, size);
    }

    method DoRealloc(id: int, size: int, signedChar: bool, ghost numIds: int) returns (ok: bool)
      requires Valid() && Admissible(Op.Realloc(id, size), records.books.at.Keys, numIds)
      requires records.ptrs.Length == numIds && !Wrecks(Abs(), Op.Realloc(id, size), mem.words.Length)
      modifies heap, heap.freeLists, mem, mem.words, records, records.ptrs, records.sizes
      ensures var op := Op.Realloc(id, size);
        ok <==> !Stuck(old(Abs()), op, mem.words.Length) && !Misread(op, signedChar)
      ensures ok ==> Valid() && Step(old(Abs()), Op.Realloc(id, size), numIds, mem.words.Length, Abs())
    {
      hide Housed, Named, Represents, Filled, Listed, PayloadsKept, SameLive, Elsewhere, Tiled, Isolated, SameBytes,
        Recorded, ByteAt, Replaced, Index, FreeSizes, Resized, Swallows, Crashes, Starved, Intact;
      ghost var s, m, capacity := Abs(), mem.words[..], mem.words.Length;
      SizeKept(s.books, records.ptrs[..], records.sizes[..], id);
      HeldLive(s, id);
      var oldp: int := records.ptrs[id];
      var newp, crashed := heap.MmRealloc(oldp, size);
      ghost var t := State(Config(heap.blocks, mem.brk), Amended(s.books, id, newp, size));
      ReallocServed(s, id, size, capacity, t, newp, crashed);
      if newp == 0 {
        return false;
      }
      ReallocPlaced(s, m, mem.words[..], id, newp, size, numIds, capacity, t);
      ghost var m1 := mem.words[..];
      ok := records.Readmit(id, oldp, newp, size, signedChar, heap.blocks);
      if ok {
        CopyDone(m1, mem.words[..], heap.freeLists[..], heap.lists, heap.blocks, mem.brk, newp, size);
      }
    }

    method DoFree(id: int, ghost numIds: int)
      requires Valid() && Admissible(Op.Free(id), records.books.at.Keys, numIds) && records.ptrs.Length == numIds
      modifies heap, heap.freeLists, mem, mem.words, records
      ensures Valid() && Step(old(Abs()), Op.Free(id), numIds, mem.words.Length, Abs())
    {
      hide Housed, Named, Represents, Filled, Listed, PayloadsKept, SameLive, Freed, Elsewhere, Tiled, Isolated,
        Recorded, Index, FreeSizes;
      ghost var s, m := Abs(), mem.words[..];
      SizeKept(s.books, records.ptrs[..], records.sizes[..], id);
      HeldLive(s, id);
      var p: int := records.ptrs[id];
      records.Dismiss(id, p);
      heap.MmFree(p);
      FreeDone(s, m, mem.words[..], id, numIds, mem.words.Length, Abs());
    }

    // eval_mm_valid, for a trace none of whose reallocs can swallow a block or crash:
    // it runs until an operation is refused or misread, and accepts if none is.
    method EvalMmValid(ops: seq<Op>, signedChar: bool) returns (ok: bool, ghost run: seq<State>)
      requires Separated() && mem.Valid() && WellFormed(ops, {}, records.ptrs.Length)
      requires Harmless(ops, records.ptrs.Length, mem.words.Length)
      modifies heap, heap.freeLists, mem, mem.words, records, records.ptrs, records.sizes
      ensures mem.words.Length < 4 + 2 * CHUNK_UNITS ==> !ok
      ensures 4 + 2 * CHUNK_UNITS <= mem.words.Length ==>
        && IsTraceRun(run, ops, records.ptrs.Length, mem.words.Length)
        && if ok then |run| == |ops| + 1 && Abs() == run[|ops|] && Valid()
           else
             && |run| <= |ops|
             && (Stuck(run[|run| - 1], ops[|run| - 1], mem.words.Length) || Misread(ops[|run| - 1], signedChar))
      ensures ok ==> forall i :: 0 <= i < |ops| ==> !Misread(ops[i], signedChar)
      // With room for all requests the verdict depends on the trace alone.
      ensures 4 + 2 * CHUNK_UNITS + 2 * TotalDemand(ops) <= mem.words.Length ==>
        (ok <==> forall i :: 0 <= i < |ops| ==> !Misread(ops[i], signedChar))
    {
      hide Consistent, Filled, Listed, Recorded, Represents, Isolated, Step, Index, FreeSizes, IsTraceRun, Harmless,
        Stuck, Wrecks;
      ghost var numIds, capacity := records.ptrs.Length, mem.words.Length;
      StartConsistent();
      mem.ResetBrk();
      records.Clear();
      run := [Start()];
      var r := heap.MmInit();
      if r < 0 {
        return false, [];
      }
      NothingFilled(mem.words[..], records.books);
      RunStarts(ops, numIds, capacity);
      for i := 0 to |ops|
        invariant Valid() && IsTraceRun(run, ops, numIds, capacity) && |run| == i + 1 && Abs() == run[i]
        invariant forall j :: 0 <= j < i ==> !Misread(ops[j], signedChar)
      {
        RunGoesOn(run, ops, numIds, capacity, i);
        if 4 + 2 * CHUNK_UNITS + 2 * TotalDemand(ops) <= capacity {
          EnoughRoom(run, ops, numIds, capacity);
        }
        match ops[i] {
          case Alloc(id, size) => ok := DoAlloc(id, size, numIds);
          case Realloc(id, size) => ok := DoRealloc(id, size, signedChar, numIds);
          case Free(id) =>
            DoFree(id, numIds);
            ok := true;
        }
        if !ok {
          return;
        }
        RunExtended(run, ops, numIds, capacity, i, Abs());
        run := run + [Abs()];
      }
      return true, run;
    }
  }

  lemma RunStarts(ops: seq<Op>, numIds: int, capacity: int)
    ensures IsTraceRun([Start()], ops, numIds, capacity)
  {
  }

  lemma RunGoesOn(run: seq<State>, ops: seq<Op>, numIds: int, capacity: int, i: int)
    requires IsTraceRun(run, ops, numIds, capacity) && WellFormed(ops, {}, numIds) && Harmless(ops, numIds, capacity)
    requires |run| == i + 1 <= |ops|
    ensures Admissible(ops[i], run[i].books.at.Keys, numIds) && !Wrecks(run[i], ops[i], capacity)
  {
    RunConsistent(run, ops, numIds, capacity, i);
    assert ops[i..][0] == ops[i];
  }

  lemma RunExtended(run: seq<State>, ops: seq<Op>, numIds: int, capacity: int, i: int, t: State)
    requires IsTraceRun(run, ops, numIds, capacity) && |run| == i + 1 <= |ops|
    requires Step(run[i], ops[i], numIds, capacity, t)
    ensures IsTraceRun(run + [t], ops, numIds, capacity)
  {
    hide Step;
    var longer := run + [t];
    forall j | 0 <= j < |longer| - 1 ensures Step(longer[j], ops[j], numIds, capacity, longer[j + 1]) {
      if j < i {
        assert Step(run[j], ops[j], numIds, capacity, run[j + 1]);
      }
    }
  }

  // mm_malloc fails exactly when it is refused.
  lemma AllocServed(s: State, c: Blocks, end': int, size: int, capacity: int, p: int)
    requires Consistent(s) && 0 < size && Handed(s.heap.blocks, s.heap.end, size, capacity, c, end', p)
    ensures p == 0 <==> Refused(s.heap.blocks, s.heap.end, BlockUnits(size), capacity)
  {
    hide Tiled, Isolated, Handed;
    HandedOutcome(s.heap.blocks, s.heap.end, size, capacity, c, end', p);
  }

  // What holds once mm_malloc has returned a block for request id.
  lemma AllocPlaced(s: State, m: seq<Word>, m1: seq<Word>, id: int, p: int, size: int, numIds: int, capacity: int,
                    t: State)
    requires Consistent(s) && Admissible(Op.Alloc(id, size), s.books.at.Keys, numIds) && Filled(m, s.books.held)
    requires p != 0 && Handed(s.heap.blocks, s.heap.end, size, capacity, t.heap.blocks, t.heap.end, p)
    requires t.books == Entered(s.books, id, p, size) && PayloadsKept(m, m1, s.heap.blocks, 0) && s.heap.end <= |m|
    ensures Step(s, Op.Alloc(id, size), numIds, capacity, t) && Consistent(t)
    ensures Elsewhere(t.heap.blocks, s.books.held, p) && Filled(m1, s.books.held)
    ensures LiveAt(t.heap.blocks, p) && Roomy(t.heap.blocks[p], size)
  {
    hide Handed, SameLive, Filled, PayloadsKept, Elsewhere, Isolated, Housed, Named;
    HandedEffect(s.heap.blocks, s.heap.end, size, capacity, t.heap.blocks, t.heap.end, p);
    assert Step(s, Op.Alloc(id, size), numIds, capacity, t);
    StepConsistent(s, Op.Alloc(id, size), numIds, capacity, t);
    AllElsewhere(s.heap.blocks, t.heap.blocks, s.books.held, p);
    FilledKept(m, m1, s.heap.blocks, s.heap.end, 0, s.books.held);
  }

  // mm_realloc, when it does no harm, returns null exactly when it is starved.
  lemma ReallocServed(s: State, id: int, size: int, capacity: int, t: State, q: int, crashed: bool)
    requires Consistent(s) && id in s.books.at && LiveAt(s.heap.blocks, s.books.at[id]) && 0 < size
    requires Resized(s.heap.blocks, s.heap.end, s.books.at[id], size, capacity, t.heap.blocks, t.heap.end, q, crashed)
    requires !Wrecks(s, Op.Realloc(id, size), capacity)
    ensures !crashed && (q == 0 <==> Stuck(s, Op.Realloc(id, size), capacity))
    ensures !Swallows(s.heap.blocks, s.heap.end, s.books.at[id], BlockUnits(size), capacity)
  {
    hide Tiled, Isolated, Resized, Swallows, Crashes, Starved, Replaced, Balanced;
    HeldPlaced(s, id);
    CrashCondition(s.heap.blocks, s.heap.end, s.books.at[id], size, capacity, t.heap.blocks, t.heap.end, q, crashed);
    ResizedEffect(s.heap.blocks, s.heap.end, s.books.at[id], size, capacity, t.heap.blocks, t.heap.end, q, crashed);
  }

  lemma HeldPlaced(s: State, id: int)
    requires Consistent(s) && id in s.books.at
    ensures s.books.at[id] != PROLOGUE
  {
    HeldLive(s, id);
  }

  // What holds once mm_realloc has resized request id.
  lemma ReallocPlaced(s: State, m: seq<Word>, m1: seq<Word>, id: int, q: int, size: int, numIds: int, capacity: int,
                      t: State)
    requires Consistent(s) && Admissible(Op.Realloc(id, size), s.books.at.Keys, numIds) && Filled(m, s.books.held)
    requires s.heap.end <= |m| && LiveAt(s.heap.blocks, s.books.at[id]) && s.books.at[id] != PROLOGUE && q != 0
    requires Resized(s.heap.blocks, s.heap.end, s.books.at[id], size, capacity, t.heap.blocks, t.heap.end, q, false)
    requires !Wrecks(s, Op.Realloc(id, size), capacity) && t.books == Amended(s.books, id, q, size)
    requires PayloadsKept(m, m1, s.heap.blocks, s.books.at[id])
    requires SameBytes(m, 4 * s.books.at[id], m1, 4 * q, 8 * s.heap.blocks[s.books.at[id]].units - 8)
    ensures Step(s, Op.Realloc(id, size), numIds, capacity, t) && Consistent(t) && Named(s.books)
    ensures var p := s.books.at[id];
      && p in s.books.held && 0 < s.books.held[p].size
      && Elsewhere(t.heap.blocks, s.books.held - {p}, q) && Filled(m1, s.books.held - {p})
      && LiveAt(t.heap.blocks, q) && Roomy(t.heap.blocks[q], size)
      && forall a :: 4 * q <= a < 4 * q + Smaller(size, s.books.held[p].size) && 0 <= a < 4 * |m1| ==>
           ByteAt(m1, a) == id % 256
  {
    hide Resized, SameLive, Filled, PayloadsKept, Elsewhere, Isolated, SameBytes, Replaced, ByteAt, Swallows, Crashes;
    var p, held := s.books.at[id], s.books.held;
    ResizedEffect(s.heap.blocks, s.heap.end, p, size, capacity, t.heap.blocks, t.heap.end, q, false);
    assert Step(s, Op.Realloc(id, size), numIds, capacity, t);
    StepConsistent(s, Op.Realloc(id, size), numIds, capacity, t);
    ReallocKept(s.heap.blocks, t.heap.blocks, s.heap.end, m, m1, held, p, q);
    MovedFill(m, m1, held, p, q, 8 * s.heap.blocks[p].units - 8, Smaller(size, held[p].size));
  }

  lemma FreeDone(s: State, m: seq<Word>, m1: seq<Word>, id: int, numIds: int, capacity: int, t: State)
    requires Consistent(s) && Admissible(Op.Free(id), s.books.at.Keys, numIds) && Filled(m, s.books.held)
    requires LiveAt(s.heap.blocks, s.books.at[id]) && s.books.at[id] != PROLOGUE
    requires t == State(Config(Freed(s.heap.blocks, s.heap.end, s.books.at[id]), s.heap.end), Struck(s.books, id))
    requires s.heap.end <= |m| && PayloadsKept(m, m1, s.heap.blocks, s.books.at[id])
    ensures Step(s, Op.Free(id), numIds, capacity, t) && Consistent(t)
    ensures Filled(m1, Struck(s.books, id).held)
  {
    hide Filled, PayloadsKept, Isolated, Freed;
    var p, held := s.books.at[id], s.books.held;
    StepConsistent(s, Op.Free(id), numIds, capacity, t);
    LessFilled(m, held, p);
    assert Elsewhere(s.heap.blocks, held - {p}, p);
    FilledKept(m, m1, s.heap.blocks, s.heap.end, p, held - {p});
  }
}
