// The allocator of malloc/mm_implicit.c: an implicit list of blocks, boundary
// tags, immediate coalescing and next fit with a rover.
module ImplicitHeap {
  import opened Words
  import opened MemLib
  import opened Tiling
  import opened BoundaryTags
  import opened ImplicitSpec

  class Allocator {
    const mem: Memory
    var heapListp: int
    var prevBp: int
    ghost var blocks: Blocks

    ghost function Abs(): Heap
      reads this, mem
    {
      Heap(blocks, prevBp, mem.brk)
    }

    // The words represent the tiling, and the rover is the start of one of its blocks.
    ghost predicate Tidy()
      reads this, mem, mem.words
    {
      && mem.Valid()
      && heapListp == PROLOGUE
      && Represents(mem.words[..], blocks, mem.brk)
      && prevBp in blocks
    }

    ghost predicate Valid()
      reads this, mem, mem.words
    {
      Tidy() && Isolated(blocks)
    }

    constructor (mem: Memory)
      ensures this.mem == mem
    {
      this.mem := mem;
      heapListp, prevBp, blocks := 0, 0, map[];
    }

    // Merges the free block at p with its free neighbours, in terms of the tags
    // it reads and writes.
    method MergeFree(p: int, ghost units: int, ghost before: Block, ghost behind: Block)
      returns (bp: int, merged: bool)
      requires mem.words.Length <= MAX_WORDS
      requires Around(mem.words[..], p, units, before, behind)
      modifies mem.words
      ensures merged == (!before.alloc || !behind.alloc)
      ensures bp == SpanStart(p, before)
      ensures mem.words[..] ==
        WriteTags(old(mem.words[..]), bp, Block(SpanUnits(units, before, behind), false))
    {
      hide WriteTags;
      bp, merged := p, true;
      ghost var n := SpanUnits(units, before, behind);
      var prevAlloc := GetAlloc(mem.words[Ftrp(mem.words[..], PrevBlkp(mem.words[..], bp))]);
      var nextAlloc := GetAlloc(mem.words[Hdrp(NextBlkp(mem.words[..], bp))]);
      assert prevAlloc == before.alloc && nextAlloc == behind.alloc;
      var size := GetSize(mem.words[Hdrp(bp)]);
      if prevAlloc && nextAlloc {
        merged := false;
        SameTags(mem.words[..], p, Block(n, false));
      } else if prevAlloc && !nextAlloc {
        size := size + GetSize(mem.words[Hdrp(NextBlkp(mem.words[..], bp))]);
        assert size / 8 == n;
        TagBlock(mem, bp, size, false);
      } else if !prevAlloc && nextAlloc {
        size := size + GetSize(mem.words[Hdrp(PrevBlkp(mem.words[..], bp))]);
        assert size / 8 == n;
        TagFromPrev(mem, bp, size, before.units, units);
        bp := PrevBlkp(mem.words[..], bp);
      } else {
        size := size + GetSize(mem.words[Hdrp(PrevBlkp(mem.words[..], bp))])
                + GetSize(mem.words[Hdrp(NextBlkp(mem.words[..], bp))]);
        assert size / 8 == n;
        TagAcross(mem, bp, size, before.units, units, behind.units);
        bp := PrevBlkp(mem.words[..], bp);
      }
    }

    method Coalesce(p: int) returns (bp: int)
      requires Tidy() && p in blocks && p != PROLOGUE && !blocks[p].alloc && IsolatedExcept(blocks, p)
      modifies this, mem.words
      ensures Valid() && Abs() == Settled(old(blocks), old(prevBp), mem.brk, p)
      ensures HasPrev(old(blocks), p) && bp == CoalescedAt(old(blocks), p)
      ensures PayloadsKept(old(mem.words[..]), mem.words[..], old(blocks), 0)
    {
      hide Tiled, Shaped, Separate, Chained, Below, Isolated, IsolatedExcept, Tagged, PayloadsKept, Coalesced,
        CoalescedAt, Settled, Good;
      ghost var m, b, end := mem.words[..], blocks, mem.brk;
      CoalesceStep(m, b, end, prevBp, p);
      var merged;
      bp, merged := MergeFree(p, b[p].units, b[Prev(b, p)], Behind(b, Next(b, p)));
      blocks := Coalesced(b, p);
      ghost var w := mem.words[..];
      if merged && prevBp > bp && prevBp < NextBlkp(mem.words[..], bp) {
        prevBp := bp;
      }
      assert mem.words[..] == w;
    }

    // A request of `words` words, rounded up to an even number; 0 when it does not fit.
    method ExtendHeap(words: int) returns (bp: int)
      requires Valid() && 2 * MIN_UNITS <= words < 0x3FFF_FFFF
      modifies this, mem, mem.words
      ensures Valid()
      ensures var n := (words + 1) / 2;
        if mem.words.Length < old(mem.brk) + 2 * n then bp == 0 && Abs() == old(Abs())
        else Abs() == Extended(old(Abs()), n) && bp == ExtendedAt(old(Abs()), n)
      ensures PayloadsKept(old(mem.words[..]), mem.words[..], old(blocks), 0)
    {
      hide Tiled, Shaped, Separate, Chained, Below, Isolated, IsolatedExcept, Tagged, PayloadsKept, Coalesced,
        CoalescedAt, Settled, Good, SameLive;
      ghost var m, b, end, n := mem.words[..], blocks, mem.brk, (words + 1) / 2;
      ExtendStep(m, b, prevBp, end, n);
      bp := AppendFree(mem, words);
      if bp == -1 {
        KeptSame(m, b, 0);
        return 0;
      }
      blocks := b[end := Block(n, false)];
      bp := Coalesce(bp);
      KeptTwice(m, AppendImage(m, end, n), mem.words[..], b, b[end := Block(n, false)], 0);
    }

    method FirstFit(newSize: int) returns (bp: int)
      requires Valid() && newSize % 8 == 0
      ensures bp == ImplicitSpec.FirstFit(Abs(), newSize / 8)
    {
      hide Tiled, Shaped, Separate, Chained, Below, Isolated, Tagged;
      ghost var m, b, end, n := mem.words[..], blocks, mem.brk, newSize / 8;
      PrologueFirst(b, end);
      bp := heapListp;
      ReadHeader(m, b, end, bp);
      while GetSize(mem.words[Hdrp(bp)]) > 0
        invariant 2 <= bp <= end && (bp in b || bp == end)
        invariant GetSize(m[bp - 1]) > 0 <==> bp in b
        invariant FitFrom(b, PROLOGUE, end, n) == FitFrom(b, bp, end, n)
        decreases end - bp
      {
        ReadHeader(m, b, end, bp);
        if !GetAlloc(mem.words[Hdrp(bp)]) && GetSize(mem.words[Hdrp(bp)]) >= newSize {
          return;
        } else {
          bp := NextBlkp(mem.words[..], bp);
          ReadHeader(m, b, end, bp);
        }
      }
      return 0;
    }

    method NextFit(newSize: int) returns (bp: int)
      requires Valid() && newSize % 8 == 0
      modifies this`prevBp
      ensures bp == ImplicitSpec.NextFit(old(Abs()), newSize / 8)
      ensures prevBp == if bp != 0 then bp else old(prevBp)
    {
      hide Tiled, Shaped, Separate, Chained, Below, Isolated, Tagged;
      ghost var m, b, end, n := mem.words[..], blocks, mem.brk, newSize / 8;
      bp := prevBp;
      ReadHeader(m, b, end, bp);
      while GetSize(mem.words[Hdrp(bp)]) > 0
        invariant 2 <= bp <= end && (bp in b || bp == end)
        invariant GetSize(m[bp - 1]) > 0 <==> bp in b
        invariant prevBp == old(prevBp)
        invariant FitFrom(b, prevBp, end, n) == FitFrom(b, bp, end, n)
        decreases end - bp
      {
        ReadHeader(m, b, end, bp);
        if !GetAlloc(mem.words[Hdrp(bp)]) && GetSize(mem.words[Hdrp(bp)]) >= newSize {
          prevBp := bp;
          return;
        } else {
          bp := NextBlkp(mem.words[..], bp);
          ReadHeader(m, b, end, bp);
        }
      }
      bp := heapListp;
      ReadHeader(m, b, end, prevBp);
      assert bp in b && bp <= prevBp by { PrologueFirst(b, end); }
      while bp != prevBp
        invariant bp in b && 2 <= bp <= prevBp <= end
        invariant prevBp == old(prevBp)
        invariant FitFrom(b, PROLOGUE, prevBp, n) == FitFrom(b, bp, prevBp, n)
        decreases prevBp - bp
      {
        ReadHeader(m, b, end, bp);
        if !GetAlloc(mem.words[Hdrp(bp)]) && GetSize(mem.words[Hdrp(bp)]) >= newSize {
          prevBp := bp;
          return;
        } else {
          bp := NextBlkp(mem.words[..], bp);
        }
      }
      return 0;
    }

    // Hands out the front of the free block at bp.
    method Place(bp: int, newSize: int)
      requires Tidy() && Isolated(blocks)
      requires newSize % 8 == 0 && newSize / 8 >= MIN_UNITS && Fits(blocks, bp, newSize / 8)
      modifies this`blocks, mem.words
      ensures Valid() && Abs() == old(Abs()).(blocks := FrontPlaced(old(blocks), bp, newSize / 8))
      ensures PayloadsKept(old(mem.words[..]), mem.words[..], old(blocks), 0)
    {
      PlaceStep(mem.words[..], blocks, prevBp, mem.brk, bp, newSize / 8);
      TagFront(mem, bp, blocks[bp].units, newSize);
      blocks := FrontPlaced(blocks, bp, newSize / 8);
    }

    // 0, or -1 when the first chunk does not fit.
    method MmInit() returns (r: int)
      requires mem.Valid() && mem.brk == 0
      modifies this, mem, mem.words
      ensures mem.Valid() && r == (if 4 + 2 * CHUNK_UNITS <= mem.words.Length then 0 else -1)
      ensures r == 0 ==> Valid() && Abs() == Initial() && 4 * mem.brk == 4112
    {
      hide Tiled, Shaped, Separate, Chained, Below, Isolated, Tagged, PayloadsKept, Extended, ExtendedAt;
      ghost var m := mem.words[..];
      heapListp := mem.Sbrk(4 * WSIZE);
      if heapListp == -1 {
        return -1;
      }
      mem.Put(heapListp, 0);
      mem.Put(heapListp + 1, Pack(DSIZE, true));
      mem.Put(heapListp + 2, Pack(DSIZE, true));
      mem.Put(heapListp + 3, Pack(0, true));
      heapListp := heapListp + 2;
      prevBp := heapListp;
      blocks := map[PROLOGUE := Block(1, true)];
      EmptyTagged(m);
      InitialMeaning();
      var bp := ExtendHeap(CHUNKSIZE / WSIZE);
      return if bp == 0 then -1 else 0;
    }

    // The address of the payload, or 0.
    method MmMalloc(size: int) returns (bp: int)
      requires Valid() && 0 <= size <= 0xFFFF_FFF0
      modifies this, mem, mem.words
      ensures Valid() && (Abs(), bp) == Malloc(old(Abs()), size, mem.words.Length)
      ensures PayloadsKept(old(mem.words[..]), mem.words[..], old(blocks), 0)
    {
      hide Tiled, Shaped, Separate, Chained, Below, Isolated, IsolatedExcept, Tagged, PayloadsKept, SameLive,
        Extended, ExtendedAt, ImplicitSpec.NextFit, FrontPlaced;
      ghost var h, m := Abs(), mem.words[..];
      if size == 0 {
        KeptSame(m, blocks, 0);
        return 0;
      }
      var newSize;
      if size <= DSIZE {
        newSize := 2 * DSIZE;
      } else {
        newSize := DSIZE * ((size + DSIZE + (DSIZE - 1)) / DSIZE);
      }
      ghost var n := newSize / 8;
      assert n == BlockUnits(size);
      NextFitMeaning(h, n);
      bp := NextFit(newSize);
      if bp != 0 {
        Place(bp, newSize);
        return;
      }
      var extendSize := if newSize > CHUNKSIZE then newSize else CHUNKSIZE;
      bp := ExtendHeap(extendSize / WSIZE);
      GrownFits(h, extendSize / 8, n);
      if bp == 0 {
        return 0;
      }
      ghost var r := mem.words[..];
      Place(bp, newSize);
      KeptTwice(m, r, mem.words[..], h.blocks, Extended(h, extendSize / 8).blocks, 0);
    }

    method MmFree(ptr: int)
      requires Valid() && Live(Abs(), ptr)
      modifies this, mem, mem.words
      ensures Valid() && Abs() == Free(old(Abs()), ptr)
      ensures PayloadsKept(old(mem.words[..]), mem.words[..], old(blocks), ptr)
    {
      hide Tiled, Shaped, Separate, Chained, Below, Isolated, IsolatedExcept, Tagged, PayloadsKept, SameLive, Free,
        Settled;
      ghost var m, b := mem.words[..], blocks;
      FreeStep(m, b, prevBp, mem.brk, ptr);
      var size := GetSize(mem.words[Hdrp(ptr)]);
      TagBlock(mem, ptr, size, false);
      blocks := Tag(b, ptr, false);
      ghost var r := mem.words[..];
      var _ := Coalesce(ptr);
      KeptTwice(m, r, mem.words[..], b, Tag(b, ptr, false), ptr);
    }

    method MmRealloc(ptr: int, size: int) returns (newPtr: int)
      requires Valid() && (ptr == 0 || Live(Abs(), ptr)) && 0 <= size <= 0xFFFF_FFF0
      modifies this, mem, mem.words
      ensures Valid() && (Abs(), newPtr) == Realloc(old(Abs()), ptr, size, mem.words.Length)
      ensures ptr == 0 ==> (Abs(), newPtr) == Malloc(old(Abs()), size, mem.words.Length)
      ensures ptr != 0 && size == 0 ==> newPtr == 0 && Abs() == Free(old(Abs()), ptr)
      ensures PayloadsKept(old(mem.words[..]), mem.words[..], old(blocks), ptr)
      ensures ptr != 0 && newPtr != 0 ==>
        SameBytes(old(mem.words[..]), 4 * ptr, mem.words[..], 4 * newPtr,
                  if size < 8 * old(blocks)[ptr].units - 8 then size else 8 * old(blocks)[ptr].units - 8)
    {
      hide Tiled, Shaped, Separate, Chained, Below, Isolated, Tagged, PayloadsKept, Malloc, Free, SameBytes;
      if ptr == 0 {
        newPtr := MmMalloc(size);
        assert PayloadsKept(old(mem.words[..]), mem.words[..], old(blocks), ptr);
        return;
      }
      if size == 0 {
        MmFree(ptr);
        return 0;
      }
      ghost var h, m := Abs(), mem.words[..];
      InBounds(m, h.blocks, h.end, ptr);
      newPtr := MmMalloc(size);
      MallocEffect(h, size, mem.words.Length);
      if newPtr == 0 {
        KeptButOne(m, mem.words[..], h.blocks, ptr);
        return 0;
      }
      ghost var g, m1 := Abs(), mem.words[..];
      MoveStep(m1, g, ptr, newPtr, size);
      InBounds(m1, g.blocks, g.end, newPtr);
      var copySize := GetSize(mem.words[Hdrp(ptr)]);
      if size < copySize {
        copySize := size;
      }
      mem.CopyBytes(4 * newPtr, 4 * ptr, copySize);
      ghost var m2 := mem.words[..];
      WithinPayload(m1, m2, g.blocks, g.end, newPtr, copySize);
      MmFree(ptr);
      ghost var kept := if size < 8 * h.blocks[ptr].units - 8 then size else 8 * h.blocks[ptr].units - 8;
      Moved(m, m1, m2, mem.words[..], h.blocks, g.blocks, ptr, newPtr, copySize, kept);
    }
  }

  // What mm_realloc needs for its copy.
  lemma MoveStep(m: seq<Word>, g: Heap, p: int, q: int, size: int)
    requires Represents(m, g.blocks, g.end) && LiveAt(g.blocks, p) && LiveAt(g.blocks, q) && p != q
    requires 0 < size && size + DSIZE <= DSIZE * g.blocks[q].units
    ensures 2 <= p && 2 <= q && GetSize(m[p - 1]) == 8 * g.blocks[p].units
    ensures var n := if size < 8 * g.blocks[p].units then size else 8 * g.blocks[p].units;
      && 0 <= n <= 8 * g.blocks[q].units - 8
      && 0 <= 4 * q && 4 * q + n <= 4 * |m| && 0 <= 4 * p && 4 * p + n <= 4 * |m|
      && (4 * q + n <= 4 * p || 4 * p + n <= 4 * q)
  {
    Forward(m, g.blocks, g.end, p);
    var n := if size < 8 * g.blocks[p].units then size else 8 * g.blocks[p].units;
    RoomToCopy(m, g.blocks, g.end, p, q, n);
  }

  lemma FreeStep(m: seq<Word>, b: Blocks, rover: int, end: int, p: int)
    requires Represents(m, b, end) && Isolated(b) && rover in b && |m| <= MAX_WORDS && LiveAt(b, p) && p != PROLOGUE
    ensures 2 <= p && GetSize(m[p - 1]) == 8 * b[p].units && p + 2 * b[p].units <= |m| && 1 <= b[p].units
    ensures var c, w := Tag(b, p, false), WriteTags(m, p, Block(b[p].units, false));
      && Represents(w, c, end) && IsolatedExcept(c, p) && PayloadsKept(m, w, b, p)
      && SameLive(b, c, p) && 0 !in b
      && Tiled(c, end) && Good(Heap(b, rover, end))
      && Free(Heap(b, rover, end), p) == Settled(c, rover, end, p)
  {
    var c := Tag(b, p, false);
    FreedIsolated(b, end, p);
    Forward(m, b, end, p);
    Rewritten(m, b, c, end, p);
    PayloadsUnderTags(m, b, c, p, p);
  }

  lemma PrologueFirst(b: Blocks, end: int)
    requires Tiled(b, end)
    ensures PROLOGUE in b && forall x :: x in b ==> PROLOGUE <= x
  {
  }

  // The body of `place`, in terms of the header it reads.
  method TagFront(mem: Memory, bp: int, ghost u: int, newSize: int)
    requires mem.words.Length <= MAX_WORDS && newSize % 8 == 0 && 1 <= newSize / 8 <= u
    requires 1 <= bp && bp + 2 * u <= mem.words.Length && Reads(mem.words[bp - 1], Block(u, false))
    modifies mem.words
    ensures mem.words[..] == FrontImage(old(mem.words[..]), bp, u, newSize / 8)
  {
    var oldSize := GetSize(mem.words[Hdrp(bp)]);
    var diffSize := oldSize - newSize;
    if diffSize < 2 * DSIZE {
      TagBlock(mem, bp, oldSize, true);
    } else {
      TagTwo(mem, bp, newSize, true, diffSize, false);
    }
  }

  lemma PlaceStep(m: seq<Word>, b: Blocks, rover: int, end: int, p: int, n: int)
    requires Represents(m, b, end) && Isolated(b) && rover in b && |m| <= MAX_WORDS && n >= MIN_UNITS && Fits(b, p, n)
    ensures 1 <= p && p + 2 * b[p].units <= |m| && Reads(m[p - 1], b[p])
    ensures var r := FrontImage(m, p, b[p].units, n);
      && Represents(r, FrontPlaced(b, p, n), end) && PayloadsKept(m, r, b, 0)
      && Isolated(FrontPlaced(b, p, n)) && rover in FrontPlaced(b, p, n)
  {
    FrontTagged(m, b, end, p, n);
    FrontPlacedGood(b, end, p, n);
    ReadTag(m[p - 1], b[p]);
  }

  // What extend_heap hands to `coalesce`.
  lemma ExtendStep(m: seq<Word>, b: Blocks, rover: int, end: int, n: int)
    requires Represents(m, b, end) && Isolated(b) && rover in b && |m| <= MAX_WORDS && MIN_UNITS <= n
    ensures 4 <= end && 0 !in b && Good(Heap(b, rover, end))
    ensures var c := b[end := Block(n, false)];
      && Tiled(c, end + 2 * n) && Shaped(c) && IsolatedExcept(c, end) && end != PROLOGUE && SameLive(b, c, 0)
      && HasPrev(c, end)
      && (end + 2 * n <= |m| ==>
            Represents(AppendImage(m, end, n), c, end + 2 * n) && PayloadsKept(m, AppendImage(m, end, n), b, 0))
  {
    hide Chained, Below, Isolated, IsolatedExcept, Settled, CoalescedAt, Tagged, PayloadsKept, WriteTags;
    AtEpilogue(m, b, end);
    AppendedIsolated(b, end, n);
    AppendTiled(b, end, n, false);
    WalkReaches(b[end := Block(n, false)], end + 2 * n, PROLOGUE, end);
    if end + 2 * n <= |m| {
      AppendTagged(m, b, end, n);
    }
  }

  // The merge as MergeFree performs it, and the rover after the repair that follows.
  lemma CoalesceStep(m: seq<Word>, b: Blocks, end: int, rover: int, p: int)
    requires Represents(m, b, end) && |m| <= MAX_WORDS
    requires p in b && p != PROLOGUE && !b[p].alloc && IsolatedExcept(b, p) && rover in b
    ensures Shaped(b) && HasPrev(b, p) && Around(m, p, b[p].units, b[Prev(b, p)], Behind(b, Next(b, p)))
    ensures var at, c := CoalescedAt(b, p), Coalesced(b, p);
      var k := Block(SpanUnits(b[p].units, b[Prev(b, p)], Behind(b, Next(b, p))), false);
      var w := WriteTags(m, at, k);
      && at == SpanStart(p, b[Prev(b, p)]) && NextBlkp(w, at) == at + 2 * k.units
      && Represents(w, c, end) && Isolated(c) && PayloadsKept(m, w, b, 0)
      && Settled(b, rover, end, p) == Heap(c, if at < rover < at + 2 * k.units then at else rover, end)
      && Settled(b, rover, end, p).rover in c
      && (b[Prev(b, p)].alloc && Behind(b, Next(b, p)).alloc ==> !(at < rover < at + 2 * k.units))
  {
    SpanTagged(m, b, end, p);
    RoverStays(b, end, rover, p);
    var at, c := CoalescedAt(b, p), Coalesced(b, p);
    Forward(WriteTags(m, at, c[at]), c, end, at);
  }
}
