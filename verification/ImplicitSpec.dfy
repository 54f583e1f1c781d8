// What the implicit-list allocator does to a tiling and to its rover, stated
// without words, headers or loops.  0 stands for the null pointer.
module ImplicitSpec {
  import opened Words
  import opened Tiling
  import opened BoundaryTags

  datatype Heap = Heap(blocks: Blocks, rover: int, end: int)

  ghost predicate Good(h: Heap) {
    Tiled(h.blocks, h.end) && Isolated(h.blocks) && h.rover in h.blocks
  }

  // ---- Searching --------------------------------------------------------------

  // The first fitting block met on the way from p to stop, or 0.
  ghost function FitFrom(b: Blocks, p: int, stop: int, n: int): int
    decreases stop - p
  {
    if p !in b || p >= stop || b[p].units <= 0 then 0
    else if Fits(b, p, n) then p
    else FitFrom(b, Next(b, p), stop, n)
  }

  lemma {:induction false} FitFromMeaning(b: Blocks, end: int, p: int, stop: int, n: int)
    requires Tiled(b, end) && p <= stop
    requires (p in b || p == end) && (stop in b || stop == end)
    ensures var r := FitFrom(b, p, stop, n);
      && (r != 0 ==> p <= r < stop && Fits(b, r, n))
      && forall x :: Fits(b, x, n) && p <= x < stop ==> 0 < r <= x
    decreases stop - p
  {
    if p in b && p < stop && !Fits(b, p, n) {
      assert Next(b, p) <= stop;
      FitFromMeaning(b, end, Next(b, p), stop, n);
      assert forall x :: x in b && p < x ==> Next(b, p) <= x;
    } else {
      assert forall x :: x in b ==> x + 2 * b[x].units <= end;
    }
  }

  ghost function FirstFit(h: Heap, n: int): int {
    FitFrom(h.blocks, PROLOGUE, h.end, n)
  }

  ghost function NextFit(h: Heap, n: int): int {
    var r := FitFrom(h.blocks, h.rover, h.end, n);
    if r != 0 then r else FitFrom(h.blocks, PROLOGUE, h.rover, n)
  }

  // First fit returns the lowest fitting block, and 0 exactly when nothing fits.
  lemma FirstFitMeaning(h: Heap, n: int)
    requires Good(h)
    ensures var r := FirstFit(h, n);
      && (r == 0 <==> forall x :: !Fits(h.blocks, x, n))
      && (r != 0 ==> Fits(h.blocks, r, n) && forall x :: Fits(h.blocks, x, n) ==> r <= x)
  {
    FitFromMeaning(h.blocks, h.end, PROLOGUE, h.end, n);
    assert forall x :: x in h.blocks ==> PROLOGUE <= x && x + 2 * h.blocks[x].units <= h.end;
  }

  // p is the first block of at least n units when the heap is read from the rover to
  // its end and then from its start to the rover.
  ghost predicate NextFrom(b: Blocks, rover: int, n: int, p: int) {
    && Fits(b, p, n)
    && forall x :: Fits(b, x, n) ==> if p >= rover then x < rover || p <= x else p <= x < rover
  }

  // Next fit returns the first fitting block in cyclic order from the rover, and
  // fails exactly when no block of the heap fits, that is, when first fit fails.
  lemma NextFitMeaning(h: Heap, n: int)
    requires Good(h)
    ensures var r := NextFit(h, n);
      && (r == 0 <==> forall x :: x in h.blocks ==> !Fits(h.blocks, x, n))
      && (r == 0 <==> FirstFit(h, n) == 0)
      && (r != 0 ==> NextFrom(h.blocks, h.rover, n, r))
  {
    FitFromMeaning(h.blocks, h.end, h.rover, h.end, n);
    FitFromMeaning(h.blocks, h.end, PROLOGUE, h.rover, n);
    FitFromMeaning(h.blocks, h.end, PROLOGUE, h.end, n);
    assert forall x :: x in h.blocks ==> PROLOGUE <= x && x + 2 * h.blocks[x].units <= h.end;
  }

  // ---- Steps --------------------------------------------------------------------

  // A rover inside the block at `at` moves back to its start.
  function Repaired(rover: int, b: Blocks, at: int): int
    requires at in b
  {
    if at < rover < Next(b, at) then at else rover
  }

  ghost function Settled(b: Blocks, rover: int, end: int, p: int): (h: Heap)
    requires Tiled(b, end) && p in b && p != PROLOGUE && !b[p].alloc && IsolatedExcept(b, p) && rover in b
    ensures Good(h)
  {
    CoalescedIsolated(b, end, p);
    RoverStays(b, end, rover, p);
    var c := Coalesced(b, p);
    Heap(c, Repaired(rover, c, CoalescedAt(b, p)), end)
  }

  // A rover that still starts a block stays; one swallowed by the merged block moves
  // to its start.
  lemma RoverStays(b: Blocks, end: int, rover: int, p: int)
    requires Tiled(b, end) && p in b && p != PROLOGUE && !b[p].alloc && IsolatedExcept(b, p) && rover in b
    ensures HasPrev(b, p) && CoalescedAt(b, p) in Coalesced(b, p)
    ensures var c, r := Coalesced(b, p), Repaired(rover, Coalesced(b, p), CoalescedAt(b, p));
      r in c && if rover in c then r == rover else r < rover < Next(c, r)
  {
    CoalescedIsolated(b, end, p);
  }

  ghost function Extended(h: Heap, n: int): (r: Heap)
    requires Good(h) && n >= MIN_UNITS
    ensures Good(r) && r.end == h.end + 2 * n
  {
    AppendedIsolated(h.blocks, h.end, n);
    Settled(h.blocks[h.end := Block(n, false)], h.rover, h.end + 2 * n, h.end)
  }

  // Where the free space made by Extended starts.
  ghost function ExtendedAt(h: Heap, n: int): int
    requires Good(h) && n >= MIN_UNITS
  {
    AppendedIsolated(h.blocks, h.end, n);
    CoalescedIsolated(h.blocks[h.end := Block(n, false)], h.end + 2 * n, h.end);
    CoalescedAt(h.blocks[h.end := Block(n, false)], h.end)
  }

  lemma ExtendedFits(h: Heap, n: int)
    requires Good(h) && n >= MIN_UNITS
    ensures Fits(Extended(h, n).blocks, ExtendedAt(h, n), n)
    ensures ExtendedAt(h, n) != PROLOGUE
  {
    AppendedIsolated(h.blocks, h.end, n);
    CoalescedIsolated(h.blocks[h.end := Block(n, false)], h.end + 2 * n, h.end);
  }

  lemma GrownFits(h: Heap, k: int, n: int)
    requires Good(h) && k >= MIN_UNITS && k >= n
    ensures SameLive(h.blocks, Extended(h, k).blocks, 0) && 0 !in h.blocks
    ensures Fits(Extended(h, k).blocks, ExtendedAt(h, k), n) && ExtendedAt(h, k) != 0
  {
    ExtendedKeeps(h, k);
    ExtendedFits(h, k);
  }

  lemma EmptyTiled()
    ensures Good(Heap(map[PROLOGUE := Block(1, true)], PROLOGUE, 4))
  {
    var b := map[PROLOGUE := Block(1, true)];
    assert Next(b, PROLOGUE) == 4;
  }

  // The four words mm_init writes are a heap without regular blocks.
  lemma EmptyTagged(m: seq<Word>)
    requires |m| >= 4
    ensures var b := map[PROLOGUE := Block(1, true)];
      Represents(m[0 := 0][1 := Pack(DSIZE, true)][2 := Pack(DSIZE, true)][3 := Pack(0, true)], b, 4) && Isolated(b)
  {
    EmptyTiled();
  }

  // The heap after mm_init: the prologue and one free chunk.
  function Initial(): Heap {
    Heap(map[PROLOGUE := Block(1, true), 4 := Block(CHUNK_UNITS, false)], PROLOGUE, 4 + 2 * CHUNK_UNITS)
  }

  lemma InitialMeaning()
    ensures Good(Heap(map[PROLOGUE := Block(1, true)], PROLOGUE, 4)) && Good(Initial())
    ensures Extended(Heap(map[PROLOGUE := Block(1, true)], PROLOGUE, 4), CHUNK_UNITS) == Initial()
    ensures ExtendedAt(Heap(map[PROLOGUE := Block(1, true)], PROLOGUE, 4), CHUNK_UNITS) == 4
  {
    EmptyTiled();
    var h := Heap(map[PROLOGUE := Block(1, true)], PROLOGUE, 4);
    AppendedIsolated(h.blocks, 4, CHUNK_UNITS);
    var b := h.blocks[4 := Block(CHUNK_UNITS, false)];
    assert Next(b, PROLOGUE) == 4 && Next(b, 4) == 4 + 2 * CHUNK_UNITS;
    PrevIsUnique(b, 4, PROLOGUE);
    assert Coalesced(b, 4) == b;
  }

  lemma FrontPlacedGood(b: Blocks, end: int, p: int, n: int)
    requires Tiled(b, end) && Isolated(b) && n >= MIN_UNITS && Fits(b, p, n)
    ensures var c := FrontPlaced(b, p, n);
      && Tiled(c, end) && Isolated(c)
      && p in c && c[p].alloc && c[p].units >= n && c[p].units <= n + 1
      && forall x :: x in b ==> x in c
  {
    var c := FrontPlaced(b, p, n);
    if b[p].units - n < MIN_UNITS {
      TagTiled(b, end, p, true);
    } else {
      SplitTiled(b, end, p, n, true, false);
      assert Next(c, p + 2 * n) == Next(b, p);
    }
    forall x | x in c && Next(c, x) in c ensures c[x].alloc || c[Next(c, x)].alloc {
      if x in b && x != p {
        assert Next(c, x) == Next(b, x);
      }
    }
  }

  lemma FrontPlacedKeeps(a: Blocks, b: Blocks, end: int, p: int, n: int)
    requires Shaped(a) && Tiled(b, end) && n >= MIN_UNITS && Fits(b, p, n) && SameLive(a, b, 0)
    ensures p != PROLOGUE && !LiveAt(a, p) && LiveAt(FrontPlaced(b, p, n), p)
    ensures SameLive(a, FrontPlaced(b, p, n), p)
  {
    assert 0 !in a;
    assert p + 2 * n in b ==> p + 2 * b[p].units <= p + 2 * n;
  }

  // mm_malloc: the new heap and the payload address, or 0.
  ghost function Malloc(h: Heap, size: int, capacity: int): (r: (Heap, int))
    requires Good(h) && 0 <= size
    ensures Good(r.0)
  {
    if size == 0 then (h, 0)
    else
      var n := BlockUnits(size);
      var p := NextFit(h, n);
      NextFitMeaning(h, n);
      if p != 0 then
        FrontPlacedGood(h.blocks, h.end, p, n);
        (Heap(FrontPlaced(h.blocks, p, n), p, h.end), p)
      else
        var k := if n > CHUNK_UNITS then n else CHUNK_UNITS;
        if h.end + 2 * k > capacity then (h, 0)
        else
          var g, at := Extended(h, k), ExtendedAt(h, k);
          ExtendedFits(h, k);
          FrontPlacedGood(g.blocks, g.end, at, n);
          (Heap(FrontPlaced(g.blocks, at, n), g.rover, g.end), at)
  }

  ghost predicate Live(h: Heap, p: int) {
    p in h.blocks && p != PROLOGUE && h.blocks[p].alloc
  }

  // mm_free
  ghost function Free(h: Heap, p: int): (r: Heap)
    requires Good(h) && Live(h, p)
    ensures Good(r)
  {
    FreedIsolated(h.blocks, h.end, p);
    Settled(Tag(h.blocks, p, false), h.rover, h.end, p)
  }

  // mm_realloc always moves; a failed move leaves the old block alone.
  ghost function Realloc(h: Heap, p: int, size: int, capacity: int): (r: (Heap, int))
    requires Good(h) && (p == 0 || Live(h, p)) && 0 <= size
    ensures Good(r.0)
  {
    if p == 0 then Malloc(h, size, capacity)
    else if size == 0 then (Free(h, p), 0)
    else
      var (g, q) := Malloc(h, size, capacity);
      if q == 0 then (g, 0)
      else
        MallocEffect(h, size, capacity);
        assert LiveAt(h.blocks, p);
        (Free(g, p), q)
  }

  lemma ExtendedKeeps(h: Heap, n: int)
    requires Good(h) && n >= MIN_UNITS
    ensures SameLive(h.blocks, Extended(h, n).blocks, 0)
  {
    hide Separate, Chained, Below, Isolated, IsolatedExcept, Coalesced, CoalescedAt;
    AppendedIsolated(h.blocks, h.end, n);
    AppendTiled(h.blocks, h.end, n, false);
    var b := h.blocks[h.end := Block(n, false)];
    WalkReaches(b, h.end + 2 * n, PROLOGUE, h.end);
    CoalescedKeeps(b, h.end + 2 * n, h.end);
  }

  // A successful malloc hands out a fresh, large enough block and touches no live one.
  lemma MallocEffect(h: Heap, size: int, capacity: int)
    requires Good(h) && 0 <= size
    ensures var (g, q) := Malloc(h, size, capacity);
      && SameLive(h.blocks, g.blocks, q)
      && (q == 0 ==> g == h)
      && (q != 0 ==> 0 < size && Live(g, q) && !LiveAt(h.blocks, q)
                     && size + DSIZE <= DSIZE * g.blocks[q].units)
  {
    if size > 0 {
      var n := BlockUnits(size);
      NextFitMeaning(h, n);
      if NextFit(h, n) != 0 {
        FrontPlacedKeeps(h.blocks, h.blocks, h.end, NextFit(h, n), n);
        FrontPlacedGood(h.blocks, h.end, NextFit(h, n), n);
      } else {
        var k := if n > CHUNK_UNITS then n else CHUNK_UNITS;
        if h.end + 2 * k <= capacity {
          var g, at := Extended(h, k), ExtendedAt(h, k);
          ExtendedKeeps(h, k);
          ExtendedFits(h, k);
          FrontPlacedKeeps(h.blocks, g.blocks, g.end, at, n);
          FrontPlacedGood(g.blocks, g.end, at, n);
        }
      }
    }
  }

  lemma FreeEffect(h: Heap, p: int)
    requires Good(h) && Live(h, p)
    ensures SameLive(h.blocks, Free(h, p).blocks, p)
    ensures !LiveAt(Free(h, p).blocks, p) && Free(h, p).end == h.end
  {
    FreedIsolated(h.blocks, h.end, p);
    var b := Tag(h.blocks, p, false);
    WalkReaches(b, h.end, PROLOGUE, p);
    CoalescedKeeps(b, h.end, p);
  }

  // Where a successful mm_malloc takes its block, how it splits it, and where the
  // rover is afterwards; `last` is the last block of the heap.
  lemma MallocPlace(h: Heap, size: int, capacity: int, last: int)
    requires Good(h) && 0 < size && last in h.blocks && Next(h.blocks, last) == h.end
    ensures var (g, q) := Malloc(h, size, capacity);
      var b, n := h.blocks, BlockUnits(size);
      var found := exists x :: Fits(b, x, n);
      var k := if n > 512 then n else 512;
      q != 0 ==>
        && (found ==> NextFrom(b, h.rover, n, q) && g.rover == q && g.end == h.end)
        && (!found ==>
              q == (if b[last].alloc then h.end else last) && g.rover == h.rover && g.end == h.end + 2 * k)
        && var u := if found then b[q].units else if b[last].alloc then k else b[last].units + k;
           var rest := b - {q};
           g.blocks == if u - n < 2 then rest[q := Block(u, true)]
                       else rest[q := Block(n, true)][q + 2 * n := Block(u - n, false)]
  {
    hide Tiled, Isolated, NextFit, FirstFit, NextFrom, FrontPlaced, Extended, ExtendedAt;
    var b, n := h.blocks, BlockUnits(size);
    var k := if n > 512 then n else 512;
    NextFitMeaning(h, n);
    var p := NextFit(h, n);
    if p != 0 {
      NextFromFits(b, h.rover, n, p);
      FrontExact(b, b - {p}, p, b[p].units, n);
    } else if h.end + 2 * k <= capacity {
      ExtendedExact(h, k, last);
      var at, u := ExtendedAt(h, k), if b[last].alloc then k else b[last].units + k;
      FrontExact(Extended(h, k).blocks, b - {at}, at, u, n);
    }
  }

  lemma FrontExact(b: Blocks, rest: Blocks, p: int, u: int, n: int)
    requires p in b && b[p].units == u && p !in rest && b == rest[p := b[p]]
    ensures FrontPlaced(b, p, n) == if u - n < 2 then rest[p := Block(u, true)]
                                    else rest[p := Block(n, true)][p + 2 * n := Block(u - n, false)]
  {
  }

  lemma NextFromFits(b: Blocks, rover: int, n: int, p: int)
    requires p != 0 ==> NextFrom(b, rover, n, p)
    ensures p != 0 ==> Fits(b, p, n)
  {
  }

  // Growing the heap changes its last block, if that is free, and never the rover.
  lemma ExtendedExact(h: Heap, k: int, last: int)
    requires Good(h) && k >= MIN_UNITS && last in h.blocks && Next(h.blocks, last) == h.end
    ensures var g, b := Extended(h, k), h.blocks;
      var at := if b[last].alloc then h.end else last;
      && ExtendedAt(h, k) == at && g.rover == h.rover && g.end == h.end + 2 * k
      && g.blocks == (b - {at})[at := Block(if b[last].alloc then k else b[last].units + k, false)]
  {
    AppendedSpan(h.blocks, h.end, k, last);
    AppendedIsolated(h.blocks, h.end, k);
    assert h.rover <= last && h.rover != h.end;
  }

  // The search goes on where the last one found its block, not at the start of the heap.
  lemma SecondFit(h: Heap, size: int, size': int, capacity: int)
    requires Good(h) && 0 < size && 0 < size'
    requires var (g, q) := Malloc(h, size, capacity); q != 0 && g.end == h.end
    ensures var (g, q) := Malloc(h, size, capacity);
      var n := BlockUnits(size');
      (exists x :: Fits(g.blocks, x, n)) ==> NextFrom(g.blocks, q, n, Malloc(g, size', capacity).1)
  {
    hide Malloc, NextFrom;
    var (g, q) := Malloc(h, size, capacity);
    var n := BlockUnits(size');
    DropLast(h.blocks, h.end);
    DropLast(g.blocks, g.end);
    MallocOutcome(h, size, capacity);
    MallocPlace(h, size, capacity, Prev(h.blocks, h.end));
    MallocOutcome(g, size', capacity);
    MallocPlace(g, size', capacity, Prev(g.blocks, g.end));
  }

  // mm_free moves the rover only when the block it points to is merged into another.
  lemma FreeRover(h: Heap, p: int)
    requires Good(h) && Live(h, p)
    ensures var f := Free(h, p);
      && f.rover in f.blocks
      && if h.rover in f.blocks then f.rover == h.rover else f.rover < h.rover < Next(f.blocks, f.rover)
  {
    FreedIsolated(h.blocks, h.end, p);
    RoverStays(Tag(h.blocks, p, false), h.end, h.rover, p);
  }

  // mm_realloc always moves, even a block that is large enough, and fails exactly
  // when mm_malloc does.
  lemma ReallocOutcome(h: Heap, p: int, size: int, capacity: int)
    requires Good(h) && Live(h, p) && p != 0 && 0 < size
    ensures var (g, q) := Realloc(h, p, size, capacity);
      var n := BlockUnits(size);
      var k := if n > 512 then n else 512;
      && (q == 0 <==> (forall x :: !Fits(h.blocks, x, n)) && h.end + 2 * k > capacity)
      && (q != 0 ==> q != p && !LiveAt(h.blocks, q) && LiveAt(g.blocks, q) && !LiveAt(g.blocks, p))
      && g.end == (if q == 0 || exists x :: Fits(h.blocks, x, n) then h.end else h.end + 2 * k)
  {
    hide Good, Malloc, Free;
    MallocEffect(h, size, capacity);
    MallocOutcome(h, size, capacity);
    var (d, q) := Malloc(h, size, capacity);
    if q != 0 {
      assert LiveAt(h.blocks, p) && Live(d, p);
      FreeEffect(d, p);
      assert LiveAt(d.blocks, q);
    }
  }

  // A successful realloc puts a large enough block in the place of the old one.
  lemma ReallocEffect(h: Heap, p: int, size: int, capacity: int)
    requires Good(h) && Live(h, p) && p != 0 && 0 < size
    ensures var (g, q) := Realloc(h, p, size, capacity);
      && (q == 0 ==> g == h)
      && (q != 0 ==> q != PROLOGUE && Replaced(h.blocks, g.blocks, p, q) && size + DSIZE <= DSIZE * g.blocks[q].units)
  {
    hide Good, Malloc, Free;
    MallocEffect(h, size, capacity);
    var (d, q) := Malloc(h, size, capacity);
    if q != 0 {
      assert LiveAt(h.blocks, p) && Live(d, p);
      FreeEffect(d, p);
      assert LiveAt(d.blocks, q);
      forall x | x != p && x != q ensures LiveAt(h.blocks, x) <==> LiveAt(Free(d, p).blocks, x) {
        assert LiveAt(h.blocks, x) <==> LiveAt(d.blocks, x);
      }
    }
  }

  // mm_free undoes an mm_malloc that did not grow the heap; only the rover may differ.
  lemma FreeUndoesMalloc(h: Heap, size: int, capacity: int)
    requires Good(h) && 0 <= size
    requires var (g, q) := Malloc(h, size, capacity); q != 0 && g.end == h.end
    ensures var (g, q) := Malloc(h, size, capacity);
      Live(g, q) && Free(g, q).blocks == h.blocks && Free(g, q).end == h.end
  {
    hide Tiled, Isolated, SameLive, Malloc;
    var (g, q) := Malloc(h, size, capacity);
    MallocEffect(h, size, capacity);
    FreeEffect(g, q);
    ComesAndGoes(h.blocks, g.blocks, Free(g, q).blocks, h.end, q);
  }

  // When mm_malloc fails, how much the heap grows, and what it returns.
  lemma MallocOutcome(h: Heap, size: int, capacity: int)
    requires Good(h) && 0 < size
    ensures var (g, q) := Malloc(h, size, capacity);
      var n := BlockUnits(size);
      var k := if n > CHUNK_UNITS then n else CHUNK_UNITS;
      && (q == 0 <==> (forall x :: !Fits(h.blocks, x, n)) && h.end + 2 * k > capacity)
      && g.end == (if q == 0 || exists x :: Fits(h.blocks, x, n) then h.end else h.end + 2 * k)
      && (q != 0 ==> 4 * q % 8 == 0 && q in g.blocks && size <= 8 * g.blocks[q].units - 8)
  {
    hide Separate, Chained, Below, Isolated, SameLive, NextFit, FirstFit, Extended, ExtendedAt, FrontPlaced;
    var n := BlockUnits(size);
    var k := if n > CHUNK_UNITS then n else CHUNK_UNITS;
    var (g, q) := Malloc(h, size, capacity);
    MallocEffect(h, size, capacity);
    NextFitMeaning(h, n);
    var r := NextFit(h, n);
    assert r == 0 <==> forall x :: !Fits(h.blocks, x, n);
    GrownFits(h, k, n);
  }
}
