// The correctness and utilisation runs of malloc/malloc-package/mdriver.c over the
// implicit-list allocator.
module ImplicitDriver {
  import opened Words
  import opened MemLib
  import opened Tiling
  import opened BoundaryTags
  import opened ImplicitSpec
  import opened ImplicitHeap
  import opened TraceLedger
  import opened TraceRecords
  import opened ImplicitTrace

  class TraceRun {
    const mem: Memory
    const heap: Allocator
    const records: Records

    constructor (heap: Allocator, records: Records)
      requires heap.mem == records.mem && records.Separated()
      ensures this.mem == heap.mem && this.heap == heap && this.records == records && Separated()
    {
      this.mem, this.heap, this.records := heap.mem, heap, records;
    }

    ghost predicate Separated() {
      heap.mem == mem && records.mem == mem && records.Separated()
    }

    ghost function Abs(): State
      reads heap, mem, records
    {
      State(Heap(heap.blocks, heap.prevBp, mem.brk), records.books)
    }

    // The allocator and the records are in order and agree with each other.
    ghost predicate Valid()
      reads heap, mem, mem.words, records, records.ptrs, records.sizes
    {
      Separated() && heap.Valid() && Consistent(Abs()) && records.InOrder()
    }

    method DoAlloc(id: int, size: int, ghost numIds: int) returns (ok: bool)
      requires Valid() && Admissible(Op.Alloc(id, size), records.books.at.Keys, numIds) && records.ptrs.Length == numIds
      modifies heap, mem, mem.words, records, records.ptrs, records.sizes
      ensures var r := Step(old(Abs()), Op.Alloc(id, size), numIds, mem.words.Length);
        if r == OutOfMemory then !ok else ok && Valid() && r == Done(Abs())
    {
      hide Good, Housed, Named, Represents, Filled, Listed, Recorded, PayloadsKept, SameLive, Malloc, Elsewhere,
        Tiled, Isolated;
      ghost var s, m := Abs(), mem.words[..];
      var p := heap.MmMalloc(size);
      if p == 0 {
        return false;
      }
      ghost var g := heap.Abs();
      AllocPlaced(s, m, mem.words[..], g, id, p, size, mem.words.Length, numIds);
      ok := records.Admit(id, p, size, g.blocks);
    }

    method DoRealloc(id: int, size: int, signedChar: bool, ghost numIds: int) returns (ok: bool)
      requires Valid() && Admissible(Op.Realloc(id, size), records.books.at.Keys, numIds)
      requires records.ptrs.Length == numIds
      modifies heap, mem, mem.words, records, records.ptrs, records.sizes
      ensures var r := Step(old(Abs()), Op.Realloc(id, size), numIds, mem.words.Length);
        if r == OutOfMemory || Misread(Op.Realloc(id, size), signedChar) then !ok else ok && Valid() && r == Done(Abs())
    {
      hide Good, Housed, Named, Represents, Filled, Listed, PayloadsKept, SameLive, ImplicitSpec.Realloc, Elsewhere,
        Tiled, Isolated, SameBytes, Recorded, ByteAt, Replaced;
      ghost var s, m := Abs(), mem.words[..];
      SizeKept(s.books, records.ptrs[..], records.sizes[..], id);
      HeldLive(s, id);
      var oldp: int := records.ptrs[id];
      var newp := heap.MmRealloc(oldp, size);
      if newp == 0 {
        return false;
      }
      ghost var g := heap.Abs();
      ReallocPlaced(s, m, mem.words[..], g, id, newp, size, mem.words.Length, numIds);
      ok := records.Readmit(id, oldp, newp, size, signedChar, g.blocks);
    }

    method DoFree(id: int, ghost numIds: int)
      requires Valid() && Admissible(Op.Free(id), records.books.at.Keys, numIds) && records.ptrs.Length == numIds
      modifies heap, mem, mem.words, records
      ensures Valid() && Step(old(Abs()), Op.Free(id), numIds, mem.words.Length) == Done(Abs())
    {
      hide Good, Housed, Named, Represents, Filled, Listed, PayloadsKept, SameLive, ImplicitSpec.Free, Elsewhere,
        Tiled, Isolated, Recorded;
      ghost var s, m := Abs(), mem.words[..];
      SizeKept(s.books, records.ptrs[..], records.sizes[..], id);
      HeldLive(s, id);
      var p: int := records.ptrs[id];
      records.Dismiss(id, p);
      heap.MmFree(p);
      FreeDone(s, m, mem.words[..], id, numIds, mem.words.Length);
    }

    // eval_mm_valid: runs the trace on a fresh heap.  It accepts exactly the traces
    // that fit in the heap and whose copied bytes are not misread.
    method EvalMmValid(ops: seq<Op>, signedChar: bool) returns (ok: bool)
      requires Separated() && mem.Valid() && WellFormed(ops, {}, records.ptrs.Length)
      modifies heap, mem, mem.words, records, records.ptrs, records.sizes
      ensures Consistent(Start()) && Start().books.at.Keys == {}
      ensures ok <==>
        && 4 + 2 * CHUNK_UNITS <= mem.words.Length
        && Run(Start(), ops, records.ptrs.Length, mem.words.Length).Done?
        && forall i :: 0 <= i < |ops| ==> !Misread(ops[i], signedChar)
      ensures ok ==> Valid() && Run(Start(), ops, records.ptrs.Length, mem.words.Length) == Done(Abs())
    {
      hide Consistent, Filled, Listed, Recorded, Represents, Isolated, Step, Run;
      ghost var numIds, capacity := records.ptrs.Length, mem.words.Length;
      StartConsistent();
      mem.ResetBrk();
      records.Clear();
      var r := heap.MmInit();
      if r < 0 {
        return false;
      }
      NothingFilled(mem.words[..], records.books);
      for i := 0 to |ops|
        invariant Valid() && WellFormed(ops[i..], records.books.at.Keys, numIds)
        invariant Run(Start(), ops, numIds, capacity) == Run(Abs(), ops[i..], numIds, capacity)
        invariant forall j :: 0 <= j < i ==> !Misread(ops[j], signedChar)
      {
        assert ops[i..][1..] == ops[i + 1..];
        RunUnfold(Abs(), ops[i..], numIds, capacity);
        match ops[i] {
          case Alloc(id, size) => ok := DoAlloc(id, size, numIds);
          case Realloc(id, size) => ok := DoRealloc(id, size, signedChar, numIds);
          case Free(id) =>
            DoFree(id, numIds);
            ok := true;
        }
        if !ok {
          return;
        }
      }
      assert ops[|ops|..] == [];
      RunEnds(Abs(), numIds, capacity);
      return true;
    }

    // What eval_mm_util keeps true: it neither fills payloads nor lists ranges.
    ghost predicate Counting()
      reads heap, mem, mem.words, records, records.ptrs, records.sizes
    {
      && Separated() && heap.Valid() && Consistent(Abs())
      && Recorded(records.books, records.ptrs[..], records.sizes[..])
    }

    // Notes where request id is.
    method Note(id: int, p: int, size: int)
      requires Separated() && Recorded(records.books, records.ptrs[..], records.sizes[..]) && p !in records.books.held
      requires 0 <= id < records.ptrs.Length && 0 <= p < 0x1_0000_0000 && 0 < size <= INT_MAX
      modifies records`books, records.ptrs, records.sizes
      ensures records.books == Entered(old(records.books), id, p, size)
      ensures Recorded(records.books, records.ptrs[..], records.sizes[..])
      ensures LiveBytes(records.books.held) == LiveBytes(old(records.books.held)) + size
    {
      hide Recorded, LiveBytes;
      RecordedEntered(records.books, records.ptrs[..], records.sizes[..], id, p, size);
      LiveBytesAdd(records.books.held, p, Lease(size, id % 256));
      records.ptrs[id] := p;
      records.sizes[id] := size;
      records.books := Entered(records.books, id, p, size);
    }

    method UtilAlloc(id: int, size: int, ghost numIds: int) returns (ok: bool)
      requires Counting() && Admissible(Op.Alloc(id, size), records.books.at.Keys, numIds)
      requires records.ptrs.Length == numIds
      modifies heap, mem, mem.words, records`books, records.ptrs, records.sizes
      ensures var r := Step(old(Abs()), Op.Alloc(id, size), numIds, mem.words.Length);
        if r == OutOfMemory then !ok
        else
          && ok && Counting() && r == Done(Abs())
          && LiveBytes(records.books.held) == LiveBytes(old(records.books.held)) + size >= 0
    {
      hide Good, Represents, Recorded, PayloadsKept, Malloc, LiveBytes, Isolated, SameLive, Balanced;
      ghost var s := Abs();
      StepConsistent(s, Op.Alloc(id, size), numIds, mem.words.Length);
      var p := heap.MmMalloc(size);
      if p == 0 {
        return false;
      }
      Unheld(mem.words[..], s, heap.Abs(), id, p, size, mem.words.Length);
      Note(id, p, size);
      NonNegative(Abs());
      return true;
    }

    method UtilRealloc(id: int, size: int, ghost numIds: int) returns (ok: bool, oldsize: int)
      requires Counting() && Admissible(Op.Realloc(id, size), records.books.at.Keys, numIds)
      requires records.ptrs.Length == numIds
      modifies heap, mem, mem.words, records`books, records.ptrs, records.sizes
      ensures var r := Step(old(Abs()), Op.Realloc(id, size), numIds, mem.words.Length);
        if r == OutOfMemory then !ok
        else
          && ok && Counting() && r == Done(Abs())
          && LiveBytes(records.books.held) == LiveBytes(old(records.books.held)) + (size - oldsize) >= 0
    {
      hide Good, Represents, Recorded, PayloadsKept, ImplicitSpec.Realloc, LiveBytes, Isolated, SameBytes, SameLive,
        Balanced, Named, Replaced;
      ghost var s := Abs();
      StepConsistent(s, Op.Realloc(id, size), numIds, mem.words.Length);
      SizeKept(s.books, records.ptrs[..], records.sizes[..], id);
      HeldLive(s, id);
      NamesDiffer(s);
      RecordedStruck(s.books, records.ptrs[..], records.sizes[..], id);
      LiveBytesPick(s.books.held, s.books.at[id]);
      oldsize := records.sizes[id];
      var p := heap.MmRealloc(records.ptrs[id], size);
      if p == 0 {
        return false, oldsize;
      }
      Reheld(mem.words[..], s, heap.Abs(), id, p, size, mem.words.Length);
      records.books := Struck(records.books, id);
      Note(id, p, size);
      NonNegative(Abs());
      return true, oldsize;
    }

    method UtilFree(id: int, ghost numIds: int) returns (size: int)
      requires Counting() && Admissible(Op.Free(id), records.books.at.Keys, numIds) && records.ptrs.Length == numIds
      modifies heap, mem, mem.words, records`books
      ensures Counting() && Step(old(Abs()), Op.Free(id), numIds, mem.words.Length) == Done(Abs())
      ensures LiveBytes(records.books.held) == LiveBytes(old(records.books.held)) - size >= 0
      ensures 0 < size
    {
      hide Good, Represents, PayloadsKept, ImplicitSpec.Free, Isolated, LiveBytes, SameLive, Balanced, Recorded,
        Named;
      ghost var s := Abs();
      StepConsistent(s, Op.Free(id), numIds, mem.words.Length);
      SizeKept(s.books, records.ptrs[..], records.sizes[..], id);
      HeldLive(s, id);
      NamesDiffer(s);
      RecordedStruck(s.books, records.ptrs[..], records.sizes[..], id);
      LiveBytesPick(s.books.held, s.books.at[id]);
      size := records.sizes[id];
      heap.MmFree(records.ptrs[id]);
      records.books := Struck(records.books, id);
      NonNegative(Abs());
    }

    // eval_mm_util: the peak of the live bytes and the final heap size, or a failure
    // exactly when the trace does not fit.
    method EvalMmUtil(ops: seq<Op>) returns (ok: bool, maxTotal: int, heapSize: int)
      requires Separated() && mem.Valid() && WellFormed(ops, {}, records.ptrs.Length)
      modifies heap, mem, mem.words, records`books, records.ptrs, records.sizes
      ensures Consistent(Start()) && Start().books.at.Keys == {}
      ensures ok <==>
        4 + 2 * CHUNK_UNITS <= mem.words.Length && Run(Start(), ops, records.ptrs.Length, mem.words.Length).Done?
      ensures ok ==>
        && Counting() && Run(Start(), ops, records.ptrs.Length, mem.words.Length) == Done(Abs())
        && maxTotal == Peak(Start(), ops, records.ptrs.Length, mem.words.Length)
        && heapSize == 4 * mem.brk && 0 <= maxTotal <= heapSize - 16
      // No prefix of the trace leaves more live bytes, and one leaves as many.
      ensures ok ==>
        && (forall i :: 0 <= i <= |ops| ==>
              LiveAfter(Start(), ops, i, records.ptrs.Length, mem.words.Length) <= maxTotal)
        && exists i :: 0 <= i <= |ops| && LiveAfter(Start(), ops, i, records.ptrs.Length, mem.words.Length) == maxTotal
    {
      hide Consistent, Recorded, Represents, Isolated, Step, LiveBytes, Run, Peak, LiveAfter;
      ghost var numIds, capacity := records.ptrs.Length, mem.words.Length;
      StartConsistent();
      PeakCountsStart(Start(), ops, numIds, capacity);
      ok, maxTotal, heapSize := true, 0, 0;
      var totalSize := 0;
      mem.ResetBrk();
      var r := heap.MmInit();
      if r < 0 {
        return false, 0, 0;
      }
      records.books := Ledger(map[], map[]);
      NothingRecorded(records.ptrs[..], records.sizes[..]);
      for i := 0 to |ops|
        invariant Counting() && WellFormed(ops[i..], records.books.at.Keys, numIds)
        invariant Run(Start(), ops, numIds, capacity) == Run(Abs(), ops[i..], numIds, capacity)
        invariant totalSize == LiveBytes(records.books.held) && 0 <= totalSize <= maxTotal
        invariant Peak(Start(), ops, numIds, capacity) == Larger(maxTotal, Peak(Abs(), ops[i..], numIds, capacity))
      {
        assert ops[i..][1..] == ops[i + 1..];
        RunUnfold(Abs(), ops[i..], numIds, capacity);
        match ops[i] {
          case Alloc(id, size) =>
            ok := UtilAlloc(id, size, numIds);
            totalSize := totalSize + size;
            maxTotal := if totalSize > maxTotal then totalSize else maxTotal;
          case Realloc(id, newsize) =>
            var oldsize;
            ok, oldsize := UtilRealloc(id, newsize, numIds);
            totalSize := totalSize + (newsize - oldsize);
            maxTotal := if totalSize > maxTotal then totalSize else maxTotal;
          case Free(id) =>
            var size := UtilFree(id, numIds);
            totalSize := totalSize - size;
        }
        if !ok {
          return;
        }
      }
      assert ops[|ops|..] == [];
      RunEnds(Abs(), numIds, capacity);
      PeakFits(Start(), ops, numIds, capacity);
      PeakMeaning(ops, numIds, capacity);
      heapSize := mem.HeapSize();
    }
  }

  lemma PeakMeaning(ops: seq<Op>, numIds: int, capacity: int)
    requires Consistent(Start()) && WellFormed(ops, Start().books.at.Keys, numIds)
    requires Run(Start(), ops, numIds, capacity).Done?
    ensures forall i :: 0 <= i <= |ops| ==>
      LiveAfter(Start(), ops, i, numIds, capacity) <= Peak(Start(), ops, numIds, capacity)
    ensures exists i ::
      0 <= i <= |ops| && LiveAfter(Start(), ops, i, numIds, capacity) == Peak(Start(), ops, numIds, capacity)
  {
    hide Consistent, LiveAfter, Peak, Run;
    forall i | 0 <= i <= |ops|
      ensures LiveAfter(Start(), ops, i, numIds, capacity) <= Peak(Start(), ops, numIds, capacity)
    {
      PeakBounds(Start(), ops, numIds, capacity, i);
    }
    var i := PeakReached(Start(), ops, numIds, capacity);
  }

  lemma NothingRecorded(ptrs: seq<Word>, sizes: seq<Word>)
    ensures LiveBytes(map[]) == 0 && Recorded(Ledger(map[], map[]), ptrs, sizes)
  {
  }

  lemma NonNegative(s: State)
    requires Consistent(s)
    ensures 0 <= LiveBytes(s.books.held)
  {
    LiveBytesNonNegative(s.books.held);
  }

  lemma NamesDiffer(s: State)
    requires Consistent(s)
    ensures Named(s.books) && forall id :: id in s.books.at ==> 0 < s.books.held[s.books.at[id]].size
  {
    forall id | id in s.books.at ensures 0 < s.books.held[s.books.at[id]].size {
      var p := s.books.at[id];
      assert p in s.books.held && Roomy(s.heap.blocks[p], s.books.held[p].size);
    }
  }

  // The block mm_malloc has returned was not held.
  lemma Unheld(m: seq<Word>, s: State, g: Heap, id: int, p: int, size: int, capacity: int)
    requires Consistent(s) && 0 < size && (g, p) == Malloc(s.heap, size, capacity) && p != 0
    requires Represents(m, g.blocks, g.end) && |m| <= MAX_WORDS
    ensures p !in s.books.held && 0 <= p < 0x1_0000_0000
  {
    hide Malloc, SameLive, Isolated;
    MallocEffect(s.heap, size, capacity);
    InBounds(m, g.blocks, g.end, p);
  }

  lemma Reheld(m: seq<Word>, s: State, g: Heap, id: int, q: int, size: int, capacity: int)
    requires Consistent(s) && 0 < size && id in s.books.at && Live(s.heap, s.books.at[id]) && s.books.at[id] != 0
    requires (g, q) == ImplicitSpec.Realloc(s.heap, s.books.at[id], size, capacity) && q != 0
    requires Represents(m, g.blocks, g.end) && |m| <= MAX_WORDS
    ensures q !in Struck(s.books, id).held && 0 <= q < 0x1_0000_0000
  {
    hide ImplicitSpec.Realloc, SameLive, Isolated;
    ReallocEffect(s.heap, s.books.at[id], size, capacity);
    InBounds(m, g.blocks, g.end, q);
  }

  // What holds once mm_malloc has returned a block for request id.
  lemma AllocPlaced(s: State, m: seq<Word>, m1: seq<Word>, g: Heap, id: int, p: int, size: int,
                    capacity: int, numIds: int)
    requires Consistent(s) && Admissible(Op.Alloc(id, size), s.books.at.Keys, numIds) && Filled(m, s.books.held)
    requires (g, p) == Malloc(s.heap, size, capacity) && p != 0 && PayloadsKept(m, m1, s.heap.blocks, 0)
    requires s.heap.end <= |m|
    ensures Consistent(State(g, Entered(s.books, id, p, size)))
    ensures Elsewhere(g.blocks, s.books.held, p) && Filled(m1, s.books.held)
    ensures LiveAt(g.blocks, p) && Roomy(g.blocks[p], size)
  {
    hide Malloc, SameLive, Filled, PayloadsKept, Elsewhere, Isolated, Housed, Named;
    MallocEffect(s.heap, size, capacity);
    StepConsistent(s, Op.Alloc(id, size), numIds, capacity);
    AllElsewhere(s.heap.blocks, g.blocks, s.books.held, p);
    FilledKept(m, m1, s.heap.blocks, s.heap.end, 0, s.books.held);
  }

  // What holds once mm_realloc has moved request id.
  lemma ReallocPlaced(s: State, m: seq<Word>, m1: seq<Word>, g: Heap, id: int, q: int, size: int,
                      capacity: int, numIds: int)
    requires Consistent(s) && Admissible(Op.Realloc(id, size), s.books.at.Keys, numIds) && Filled(m, s.books.held)
    requires s.heap.end <= |m| && Live(s.heap, s.books.at[id]) && s.books.at[id] != 0
    requires (g, q) == ImplicitSpec.Realloc(s.heap, s.books.at[id], size, capacity) && q != 0
    requires PayloadsKept(m, m1, s.heap.blocks, s.books.at[id])
    requires SameBytes(m, 4 * s.books.at[id], m1, 4 * q, Smaller(size, 8 * s.heap.blocks[s.books.at[id]].units - 8))
    ensures Consistent(State(g, Amended(s.books, id, q, size))) && Named(s.books)
    ensures var p := s.books.at[id];
      && p in s.books.held && 0 < s.books.held[p].size
      && Elsewhere(g.blocks, s.books.held - {p}, q) && Filled(m1, s.books.held - {p})
      && LiveAt(g.blocks, q) && Roomy(g.blocks[q], size)
      && forall a :: 4 * q <= a < 4 * q + Smaller(size, s.books.held[p].size) && 0 <= a < 4 * |m1| ==>
           ByteAt(m1, a) == id % 256
  {
    hide ImplicitSpec.Realloc, SameLive, Filled, PayloadsKept, Elsewhere, Isolated, SameBytes, Replaced, ByteAt;
    var p, held := s.books.at[id], s.books.held;
    ReallocEffect(s.heap, p, size, capacity);
    StepConsistent(s, Op.Realloc(id, size), numIds, capacity);
    ReallocKept(s.heap.blocks, g.blocks, s.heap.end, m, m1, held, p, q);
    MovedFill(m, m1, held, p, q, Smaller(size, 8 * s.heap.blocks[p].units - 8), Smaller(size, held[p].size));
  }

  lemma FreeDone(s: State, m: seq<Word>, m1: seq<Word>, id: int, numIds: int, capacity: int)
    requires Consistent(s) && Admissible(Op.Free(id), s.books.at.Keys, numIds) && Filled(m, s.books.held)
    requires s.heap.end <= |m| && PayloadsKept(m, m1, s.heap.blocks, s.books.at[id]) && Live(s.heap, s.books.at[id])
    ensures Consistent(State(ImplicitSpec.Free(s.heap, s.books.at[id]), Struck(s.books, id)))
    ensures Filled(m1, Struck(s.books, id).held)
  {
    hide Filled, PayloadsKept, Isolated, ImplicitSpec.Free;
    var p, held := s.books.at[id], s.books.held;
    StepConsistent(s, Op.Free(id), numIds, capacity);
    LessFilled(m, held, p);
    assert Elsewhere(s.heap.blocks, held - {p}, p);
    FilledKept(m, m1, s.heap.blocks, s.heap.end, p, held - {p});
  }
}
