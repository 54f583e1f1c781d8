// Traces with the verdicts and figures the driver gives.
module TraceExamples {
  import opened Words
  import opened Tiling
  import opened TraceLedger
  import opened ImplicitSpec
  import opened ImplicitTrace
  import opened ImplicitDriver

  // Allocate request 128 and give it the same size again.
  const HIGH_ID := [Op.Alloc(128, 8), Op.Realloc(128, 8)]

  lemma HighIdFacts(numIds: int)
    requires numIds > 128
    ensures WellFormed(HIGH_ID, {}, numIds) && TotalDemand(HIGH_ID) == 2 * CHUNK_UNITS
  {
    var rest := HIGH_ID[1..];
    assert rest == [Op.Realloc(128, 8)] && rest[1..] == [];
    assert WellFormed(rest, IdsAfter(HIGH_ID[0], {}), numIds);
    assert TotalDemand(HIGH_ID) == Demand(HIGH_ID[0]) + (Demand(rest[0]) + TotalDemand(rest[1..]));
  }

  // With signed characters a trace that fits, over a correct allocator, is rejected.
  method HighIdRejected(d: TraceRun, signedChar: bool) returns (ok: bool)
    requires d.Separated() && d.mem.Valid() && d.records.ptrs.Length > 128
    requires 4 + 6 * CHUNK_UNITS <= d.mem.words.Length
    modifies d.heap, d.mem, d.mem.words, d.records, d.records.ptrs, d.records.sizes
    ensures Consistent(Start()) && WellFormed(HIGH_ID, Start().books.at.Keys, d.records.ptrs.Length)
    ensures Run(Start(), HIGH_ID, d.records.ptrs.Length, d.mem.words.Length).Done?
    ensures ok <==> !signedChar
  {
    hide Run, Consistent, WellFormed, TotalDemand;
    StartConsistent();
    HighIdFacts(d.records.ptrs.Length);
    EnoughRoom(Start(), HIGH_ID, d.records.ptrs.Length, d.mem.words.Length);
    ok := d.EvalMmValid(HIGH_ID, signedChar);
    assert HIGH_ID[1] == Op.Realloc(128, 8);
  }

  // Allocate request 0, allocate it again, free it: the first block stays.
  const REUSED := [Op.Alloc(0, 8), Op.Alloc(0, 100), Op.Free(0)]

  lemma ReusedFacts(numIds: int)
    requires numIds > 0
    ensures WellFormed(REUSED, {}, numIds) && TotalDemand(REUSED) == 2 * CHUNK_UNITS
  {
    var rest := REUSED[1..];
    assert rest == [Op.Alloc(0, 100), Op.Free(0)] && rest[1..] == [Op.Free(0)] && rest[1..][1..] == [];
    assert WellFormed(rest, IdsAfter(REUSED[0], {}), numIds) by {
      assert WellFormed(rest[1..], IdsAfter(rest[0], IdsAfter(REUSED[0], {})), numIds);
    }
    assert TotalDemand(REUSED)
        == Demand(REUSED[0]) + (Demand(rest[0]) + (Demand(rest[1..][0]) + TotalDemand(rest[1..][1..])));
  }

  lemma ReusedRun(numIds: int, capacity: int)
    requires numIds > 0 && 4 + 6 * CHUNK_UNITS <= capacity
    ensures Consistent(Start()) && WellFormed(REUSED, Start().books.at.Keys, numIds)
    ensures Run(Start(), REUSED, numIds, capacity).Done?
    ensures Peak(Start(), REUSED, numIds, capacity) == 108
    ensures LiveBytes(Run(Start(), REUSED, numIds, capacity).s.books.held) == 8
  {
    hide Consistent, Step, LiveBytes, WellFormed, TotalDemand, Run, Peak;
    StartConsistent();
    ReusedFacts(numIds);
    EnoughRoom(Start(), REUSED, numIds, capacity);
    var s0, rest := Start(), REUSED[1..];
    assert LiveBytes(s0.books.held) == 0 by { NothingLive(); }
    RunUnfold(s0, REUSED, numIds, capacity);
    StepServed(s0, REUSED[0], numIds, capacity);
    var s1 := Step(s0, REUSED[0], numIds, capacity).s;
    assert rest[0] == Op.Alloc(0, 100) && rest[1..] == REUSED[2..];
    RunUnfold(s1, rest, numIds, capacity);
    StepServed(s1, rest[0], numIds, capacity);
    var s2 := Step(s1, rest[0], numIds, capacity).s;
    assert REUSED[2..][0] == Op.Free(0) && REUSED[2..][1..] == [];
    RunUnfold(s2, REUSED[2..], numIds, capacity);
    LastGone(s1, s2, numIds, capacity);
    RunEnds(Step(s2, Op.Free(0), numIds, capacity).s, numIds, capacity);
  }

  lemma NothingLive()
    ensures LiveBytes(map[]) == 0
  {
  }

  lemma StepServed(s: State, op: Op, numIds: int, capacity: int)
    requires Consistent(s) && op.Alloc? && Admissible(op, s.books.at.Keys, numIds)
    requires Step(s, op, numIds, capacity).Done?
    ensures LiveBytes(Step(s, op, numIds, capacity).s.books.held) == LiveBytes(s.books.held) + op.size
    ensures Step(s, op, numIds, capacity).s.books.at.Keys == IdsAfter(op, s.books.at.Keys)
  {
    hide Step, LiveBytes, Consistent;
    StepBytes(s, op, numIds, capacity);
  }

  // Request 0 of 100 bytes is freed.
  lemma LastGone(s: State, t: State, numIds: int, capacity: int)
    requires Consistent(s) && Consistent(t) && numIds > 0
    requires Step(s, Op.Alloc(0, 100), numIds, capacity) == Done(t)
    ensures 0 in t.books.at && Step(t, Op.Free(0), numIds, capacity).Done?
    ensures LiveBytes(Step(t, Op.Free(0), numIds, capacity).s.books.held) == LiveBytes(t.books.held) - 100
  {
    hide Consistent, LiveBytes, Malloc, ImplicitSpec.Free;
    assert t.books.held[t.books.at[0]].size == 100;
    StepBytes(t, Op.Free(0), numIds, capacity);
  }

  // The peak counts the block that lost its name, and the driver accepts the trace.
  method ReusedCounts(d: TraceRun) returns (ok: bool, maxTotal: int, heapSize: int)
    requires d.Separated() && d.mem.Valid() && d.records.ptrs.Length > 0 && 4 + 6 * CHUNK_UNITS <= d.mem.words.Length
    modifies d.heap, d.mem, d.mem.words, d.records, d.records.ptrs, d.records.sizes
    ensures ok && maxTotal == 108 && LiveBytes(d.records.books.held) == 8
  {
    hide Run, Consistent, WellFormed, TotalDemand, Peak, LiveBytes, LiveAfter;
    ReusedFacts(d.records.ptrs.Length);
    ReusedRun(d.records.ptrs.Length, d.mem.words.Length);
    ok, maxTotal, heapSize := d.EvalMmUtil(REUSED);
    ok := d.EvalMmValid(REUSED, true);
  }
}
