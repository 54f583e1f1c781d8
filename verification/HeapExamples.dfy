// Runs of the segregated allocator that reach the states in which it fails.
module HeapExamples {
  import opened Words
  import opened MemLib
  import opened Tiling
  import opened BoundaryTags
  import opened SegregatedSpec
  import opened SegregatedHeap

  // malloc 8, 8
  method TwoSmallBlocks(a: Allocator) returns (first: int, second: int)
    requires a.Separated() && a.mem.Valid() && a.mem.brk == 0 && 4 + 2 * CHUNK_UNITS <= a.mem.words.Length
    modifies a, a.mem, a.mem.words, a.freeLists
    ensures a.Valid() && first == 4 && second == 8 && a.mem.brk == 4 + 2 * CHUNK_UNITS
    ensures a.blocks == map[PROLOGUE := Block(1, true), 4 := Block(2, true), 8 := Block(2, true),
                            12 := Block(CHUNK_UNITS - 4, false)]
  {
    hide FreeLists.Index, Represents, Tiled, Isolated, PayloadsKept, Handed;
    var r := a.MmInit();
    ghost var b0, end, cap := a.blocks, a.mem.brk, a.mem.words.Length;
    first := a.MmMalloc(8);
    HandedOnly(b0, end, 8, cap, a.blocks, a.mem.brk, first, 4);
    ghost var b1 := a.blocks;
    assert b1 == map[PROLOGUE := Block(1, true), 4 := Block(2, true), 8 := Block(CHUNK_UNITS - 2, false)];
    second := a.MmMalloc(8);
    HandedOnly(b1, end, 8, cap, a.blocks, a.mem.brk, second, 8);
  }

  // malloc 8, 8, 8; free the second.
  method ThreeSmallBlocks(a: Allocator) returns (first: int, third: int)
    requires a.Separated() && a.mem.Valid() && a.mem.brk == 0 && 4 + 2 * CHUNK_UNITS <= a.mem.words.Length
    modifies a, a.mem, a.mem.words, a.freeLists
    ensures a.Valid() && first == 4 && third == 12 && a.mem.brk == 4 + 2 * CHUNK_UNITS
    ensures a.blocks == map[PROLOGUE := Block(1, true), 4 := Block(2, true), 8 := Block(2, false),
                            12 := Block(2, true), 16 := Block(CHUNK_UNITS - 6, false)]
    ensures PlanOf(a.blocks, 4, BlockUnits(100)) == Swallow && Shortfall(a.blocks, 4, BlockUnits(100)) == CHUNK_UNITS
  {
    hide FreeLists.Index, Represents, Tiled, Isolated, PayloadsKept, Handed, Freed, PlanOf;
    var second;
    first, second := TwoSmallBlocks(a);
    ghost var b2, end := a.blocks, a.mem.brk;
    third := a.MmMalloc(8);
    HandedOnly(b2, end, 8, a.mem.words.Length, a.blocks, a.mem.brk, third, 12);
    ghost var b3 := a.blocks;
    assert b3 == map[PROLOGUE := Block(1, true), 4 := Block(2, true), 8 := Block(2, true), 12 := Block(2, true),
                     16 := Block(CHUNK_UNITS - 6, false)];
    a.MmFree(second);
    SecondFreed(b3, end);
  }

  // Then realloc the first to 100.  The free block behind it is too small and the
  // third is live, so the heap grows at the brk and the first block claims the
  // space of the third: `third`, live in b, can no longer be a block of the heap
  // together with `first`.
  method GrowOverThird(a: Allocator) returns (first: int, third: int, ghost b: Blocks)
    requires a.Separated() && a.mem.Valid() && a.mem.brk == 0 && 4 + 4 * CHUNK_UNITS <= a.mem.words.Length
    modifies a, a.mem, a.mem.words, a.freeLists
    ensures LiveAt(b, first) && LiveAt(b, third) && first != third
    ensures !Intact(a.mem.words[..], b, first, first)
  {
    hide FreeLists.Index, Represents, Tiled, Isolated, PayloadsKept, Intact, SameBytes, Handed, Freed, PlanOf,
      Shortfall, Crashes;
    first, third := ThreeSmallBlocks(a);
    b := a.blocks;
    var again, crashed := a.MmRealloc(first, 100);
  }

  // In a heap of one chunk: malloc 8, 8, realloc the first to 5000.  The block has
  // to move, there is no room for 5000 bytes, and the copy goes to address 0.
  method CopyToNull(a: Allocator) returns (crashed: bool)
    requires a.Separated() && a.mem.Valid() && a.mem.brk == 0 && a.mem.words.Length == 4 + 2 * CHUNK_UNITS
    modifies a, a.mem, a.mem.words, a.freeLists
    ensures crashed
  {
    hide FreeLists.Index, Represents, Tiled, Isolated, PayloadsKept, Intact, SameBytes, Handed, Freed, Swallows;
    var first, second := TwoSmallBlocks(a);
    assert BlockUnits(5000) == 626;
    assert Next(a.blocks, 4) == 8;
    var again;
    again, crashed := a.MmRealloc(first, 5000);
  }

  // malloc 70000, free it, malloc 70000.  One free block of more than 70000 bytes is
  // left before the last call, and yet the heap grows.
  method LargeTwice(a: Allocator) returns (ghost b: Blocks, ghost end: int)
    requires a.Separated() && a.mem.Valid() && a.mem.brk == 0
    requires 4 + 2 * CHUNK_UNITS + 4 * BlockUnits(70000) <= a.mem.words.Length
    modifies a, a.mem, a.mem.words, a.freeLists
    ensures Fits(b, 4, BlockUnits(70000))
    ensures end == 4 + 2 * CHUNK_UNITS + 2 * BlockUnits(70000) && a.mem.brk == end + 2 * BlockUnits(70000)
  {
    hide FreeLists.Index, Represents, Tiled, Isolated, PayloadsKept, Handed, Freed;
    var r := a.MmInit();
    ghost var b0, end0, cap := a.blocks, a.mem.brk, a.mem.words.Length;
    assert BlockUnits(70000) == 8751;
    var large := a.MmMalloc(70000);
    HandedOutcome(b0, end0, 70000, cap, a.blocks, a.mem.brk, large);
    HandedEffect(b0, end0, 70000, cap, a.blocks, a.mem.brk, large);
    ghost var b1 := a.blocks;
    a.MmFree(large);
    b, end := a.blocks, a.mem.brk;
    OneLeft(b0, b1, b, end, large);
    large := a.MmMalloc(70000);
    HandedOutcome(b, end, 70000, cap, a.blocks, a.mem.brk, large);
  }

  // The first request of a fresh heap is served from the front of the first chunk up
  // to 80 bytes, and from its back above.
  method FirstRequest(a: Allocator, size: int) returns (p: int)
    requires a.Separated() && a.mem.Valid() && a.mem.brk == 0 && 4 + 2 * CHUNK_UNITS <= a.mem.words.Length
    requires 0 < size <= 4072
    modifies a, a.mem, a.mem.words, a.freeLists
    ensures a.Valid() && 4 * a.mem.brk == 4112
    ensures p == if size <= 80 then 4 else 4 + 2 * (512 - (size + 15) / 8)
    ensures (size == 80 ==> p == 4) && (size == 81 ==> p == 1004) && (size == 100 ==> p == 1000)
  {
    hide FreeLists.Index, Represents, Tiled, Isolated, PayloadsKept, Handed;
    var r := a.MmInit();
    ghost var b, end := a.blocks, a.mem.brk;
    p := a.MmMalloc(size);
    assert Fits(b, 4, BlockUnits(size));
    HandedOutcome(b, end, size, a.mem.words.Length, a.blocks, a.mem.brk, p);
    ghost var q, u := HandedPlace(b, end, size, a.mem.words.Length, a.blocks, a.mem.brk, p, 4);
  }

  // malloc 4080 takes the whole first chunk; realloc to 6480 lacks 2392 bytes and
  // grows the heap by 4096, or returns null when there is no room for these.
  method GrowsByChunk(a: Allocator) returns (p: int, q: int)
    requires a.Separated() && a.mem.Valid() && a.mem.brk == 0 && 4 + 2 * CHUNK_UNITS <= a.mem.words.Length
    modifies a, a.mem, a.mem.words, a.freeLists
    ensures a.Valid() && p == 4
    ensures if a.mem.words.Length >= 2052 then
              q == p && 4 * a.mem.brk == 8208 && p in a.blocks && a.blocks[p] == Block(1024, true)
            else q == 0 && 4 * a.mem.brk == 4112
  {
    hide FreeLists.Index, Represents, Tiled, Isolated, PayloadsKept, Handed, Resized, Swallows, Crashes, Intact,
      SameBytes;
    var r := a.MmInit();
    ghost var b0, end, capacity := a.blocks, a.mem.brk, a.mem.words.Length;
    p := a.MmMalloc(4080);
    assert BlockUnits(4080) == 511 && BlockUnits(6480) == 811 && Fits(b0, 4, 511);
    HandedOutcome(b0, end, 4080, capacity, a.blocks, a.mem.brk, p);
    ghost var x, u := HandedPlace(b0, end, 4080, capacity, a.blocks, a.mem.brk, p, 4);
    ghost var b := a.blocks;
    assert b == map[PROLOGUE := Block(1, true), 4 := Block(512, true)];
    HarmMeaning(b, end, p, 811, capacity);
    var crashed;
    q, crashed := a.MmRealloc(p, 6480);
    ReallocCourses(b, end, p, 6480, capacity, a.blocks, a.mem.brk, q, crashed);
  }

  // Once the only live block is freed.
  lemma OneLeft(b0: Blocks, b1: Blocks, b: Blocks, end: int, p: int)
    requires b0 == map[PROLOGUE := Block(1, true), 4 := Block(CHUNK_UNITS, false)]
    requires Tiled(b1, end) && Isolated(b1) && SameLive(b0, b1, p) && LiveAt(b1, p) && p != PROLOGUE
    requires b == Freed(b1, end, p) && end > 4
    ensures b == map[PROLOGUE := Block(1, true), 4 := Block((end - 4) / 2, false)]
  {
    forall x | x in b && x != PROLOGUE ensures !b[x].alloc {
      assert LiveAt(b, x) ==> LiveAt(b1, x);
    }
    AllFree(b, end);
  }
}
