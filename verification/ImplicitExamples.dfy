// Runs of the implicit-list allocator with the addresses it returns.
module ImplicitExamples {
  import opened Words
  import opened MemLib
  import opened Tiling
  import opened BoundaryTags
  import opened ImplicitSpec
  import opened ImplicitHeap

  // malloc 8, 8, free the first, malloc 8: the search goes on from the second block
  // and does not come back to the first.
  method RoverGoesOn(a: Allocator) returns (first: int, second: int, third: int)
    requires a.mem.Valid() && a.mem.brk == 0 && 4112 <= 4 * a.mem.words.Length
    modifies a, a.mem, a.mem.words
    ensures a.Valid() && 4 * a.mem.brk == 4112
    ensures first == 4 && second == 8 && third == 12
  {
    hide Represents, PayloadsKept, Malloc, Free, Good, Isolated;
    var r := a.MmInit();
    ghost var capacity := a.mem.words.Length;
    first := a.MmMalloc(8);
    InitialMeaning();
    ServedAt(Initial(), 4, 4, capacity);
    ghost var h1 := a.Abs();
    assert h1 == Heap(map[PROLOGUE := Block(1, true), 4 := Block(2, true), 8 := Block(510, false)], 4, 1028);
    second := a.MmMalloc(8);
    ServedAt(h1, 8, 8, capacity);
    ghost var h2 := a.Abs();
    assert h2 == Heap(map[PROLOGUE := Block(1, true), 4 := Block(2, true), 8 := Block(2, true), 12 := Block(508, false)],
                      8, 1028);
    a.MmFree(first);
    FirstFreed(h2);
    ghost var h3 := a.Abs();
    third := a.MmMalloc(8);
    ServedAt(h3, 12, 12, capacity);
  }

  // A small request when the next fit is at p.
  lemma ServedAt(h: Heap, p: int, last: int, capacity: int)
    requires Good(h) && Fits(h.blocks, p, 2) && last in h.blocks && Next(h.blocks, last) == h.end
    requires forall x :: NextFrom(h.blocks, h.rover, 2, x) ==> x == p
    ensures var u, rest := h.blocks[p].units, h.blocks - {p};
      Malloc(h, 8, capacity)
      == (Heap(if u < 4 then rest[p := Block(u, true)] else rest[p := Block(2, true)][p + 4 := Block(u - 2, false)],
               p, h.end), p)
  {
    hide Malloc, Good, NextFrom;
    MallocOutcome(h, 8, capacity);
    MallocPlace(h, 8, capacity, last);
  }

  lemma FirstFreed(h: Heap)
    requires Good(h)
    requires h == Heap(map[PROLOGUE := Block(1, true), 4 := Block(2, true), 8 := Block(2, true), 12 := Block(508, false)],
                       8, 1028)
    ensures Free(h, 4) == Heap(map[PROLOGUE := Block(1, true), 4 := Block(2, false), 8 := Block(2, true),
                                   12 := Block(508, false)], 8, 1028)
  {
    var c := Tag(h.blocks, 4, false);
    FreeEffect(h, 4);
    FreeRover(h, 4);
    TagTiled(h.blocks, 1028, 4, false);
    assert Next(c, PROLOGUE) == 4 && Next(c, 4) == 8 && Next(c, 8) == 12 && Next(c, 12) == 1028;
    LiveDetermine(c, Free(h, 4).blocks, 1028);
  }

  // malloc 8, realloc to 8: the block is large enough, and moves all the same.
  method MovesAnyway(a: Allocator) returns (first: int, again: int)
    requires a.mem.Valid() && a.mem.brk == 0 && 4112 <= 4 * a.mem.words.Length
    modifies a, a.mem, a.mem.words
    ensures a.Valid() && first == 4 && again == 8
  {
    hide Represents, PayloadsKept, Malloc, Free, Good, Isolated, SameBytes;
    var r := a.MmInit();
    ghost var capacity := a.mem.words.Length;
    first := a.MmMalloc(8);
    InitialMeaning();
    ServedAt(Initial(), 4, 4, capacity);
    ghost var h1 := a.Abs();
    assert h1 == Heap(map[PROLOGUE := Block(1, true), 4 := Block(2, true), 8 := Block(510, false)], 4, 1028);
    again := a.MmRealloc(first, 8);
    ServedAt(h1, 8, 8, capacity);
  }
}
