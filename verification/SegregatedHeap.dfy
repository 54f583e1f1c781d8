// The allocator of malloc/mm_segregated.c: boundary tags, immediate coalescing
// and sixteen size-ordered free lists.
module SegregatedHeap {
  import opened Words
  import opened MemLib
  import opened Tiling
  import opened BoundaryTags
  import opened SizeClasses
  import opened FreeLists
  import opened SegregatedSpec

  class Allocator {
    const mem: Memory
    const freeLists: array<Word>
    var heapListp: int
    ghost var blocks: Blocks
    ghost var lists: seq<seq<int>>
    ghost var listed: Sizes

    constructor (mem: Memory)
      requires mem.words.Length <= MAX_WORDS
      ensures this.mem == mem && fresh(freeLists) && Separated()
    {
      this.mem := mem;
      freeLists := new Word[LIST_MAX](_ => 0);
      heapListp, blocks, lists, listed := 0, map[], [], map[];
    }

    ghost predicate Separated() {
      freeLists.Length == LIST_MAX && freeLists != mem.words && mem.words.Length <= MAX_WORDS
    }

    // The lists are in order and hold exactly the blocks of `listed`.
    ghost predicate Indexed()
      reads this, mem.words, freeLists
    {
      Separated() && Index(mem.words[..], freeLists[..], lists, listed)
    }

    // The words represent the tiling, no two free blocks are neighbours, and the
    // lists hold exactly the free blocks.
    ghost predicate Tidy()
      reads this, mem, mem.words, freeLists
    {
      && Indexed() && mem.Valid()
      && Represents(mem.words[..], blocks, mem.brk)
      && Isolated(blocks) && listed == FreeSizes(blocks)
    }

    ghost predicate Valid()
      reads this, mem, mem.words, freeLists
    {
      Tidy() && heapListp == PROLOGUE
    }

    // The class of a size; the loop opens both insert_node and delete_node.
    static method SizeClass(size: int) returns (pos: int)
      requires 0 <= size
      ensures pos == ClassOf(size)
    {
      var s := size;
      pos := 0;
      while pos < LIST_MAX - 1 && s > 1
        invariant 0 <= s && 0 <= pos < LIST_MAX && pos + Log(s) == Log(size)
      {
        s := s / 2;
        pos := pos + 1;
      }
    }

    // Walks the list of class pos past all blocks smaller than `size`.
    method Locate(pos: int, size: int) returns (pred: int, succ: int, ghost k: int)
      requires Indexed() && size % 8 == 0 && 0 <= size && 0 <= pos < LIST_MAX
      ensures 0 <= k <= |lists[pos]| && pred == At(lists[pos], k - 1) && succ == At(lists[pos], k)
      ensures forall i {:trigger lists[pos][i]} :: 0 <= i < k ==>
        lists[pos][i] in listed && listed[lists[pos][i]] < size / 8
      ensures forall i {:trigger lists[pos][i]} :: k <= i < |lists[pos]| ==>
        lists[pos][i] in listed && size / 8 <= listed[lists[pos][i]]
      ensures (pred == 0 <==> k == 0) && (succ == 0 <==> k == |lists[pos]|)
    {
      hide Nodes, Spaced, Linked, Sorted, Members;
      ghost var m, L := mem.words[..], lists[pos];
      k := 0;
      pred := 0;
      succ := freeLists[pos];
      ListFacts(m, freeLists[..], lists, listed, pos);
      while succ != 0 && GetSize(mem.words[Hdrp(succ)]) < size
        invariant 0 <= k <= |L| && pred == At(L, k - 1) && succ == At(L, k) && (pred == 0 <==> k == 0)
        invariant forall i {:trigger L[i]} :: 0 <= i < k ==> L[i] in listed && listed[L[i]] < size / 8
        decreases |L| - k
      {
        NodeFacts(m, freeLists[..], lists, listed, pos, k);
        pred := succ;
        succ := mem.words[succ + 1];
        k := k + 1;
      }
      if succ != 0 {
        NodeFacts(m, freeLists[..], lists, listed, pos, k);
      }
    }

    method InsertNode(bp: int, size: int)
      requires Indexed() && bp !in listed && size % 8 == 0 && 0 <= size
      requires Nodes(mem.words[..], listed[bp := size / 8]) && Spaced(listed[bp := size / 8])
      modifies mem.words, freeLists, this`lists, this`listed
      ensures Indexed() && listed == old(listed)[bp := size / 8]
      ensures exists k :: LinkedIn(old(lists), lists, old(listed), ClassOf(size), k, bp, size / 8)
      ensures SameButLinks(old(mem.words[..]), mem.words[..], listed)
    {
      hide Nodes, Spaced, Index, SameButLinks, Room, Inserted, ClassOf, LinkedIn;
      ghost var m, heads := mem.words[..], freeLists[..];
      var pos := SizeClass(size);
      var pred, succ, k := Locate(pos, size);
      InsertStep(m, heads, lists, listed, k, bp, size / 8);
      ghost var L := lists[pos];
      if pred == 0 && succ == 0 {
        mem.Put(bp, 0);
        mem.Put(bp + 1, 0);
        freeLists[pos] := bp;
      } else if pred == 0 {
        mem.Put(bp, 0);
        mem.Put(bp + 1, succ);
        mem.Put(succ, bp);
        freeLists[pos] := bp;
      } else if succ == 0 {
        mem.Put(bp, pred);
        mem.Put(bp + 1, 0);
        mem.Put(pred + 1, bp);
      } else {
        mem.Put(bp, pred);
        mem.Put(bp + 1, succ);
        mem.Put(pred + 1, bp);
        mem.Put(succ, bp);
      }
      assert mem.words[..] == InsertImage(m, L, k, bp);
      assert freeLists[..] == heads[pos := if k == 0 then bp else heads[pos]];
      lists := lists[pos := Inserted(L, k, bp)];
      listed := listed[bp := size / 8];
    }

    method DeleteNode(bp: int)
      requires Indexed() && bp in listed
      modifies mem.words, freeLists, this`lists, this`listed
      ensures Indexed() && listed == old(listed) - {bp}
      ensures exists c, k :: TakenOut(old(lists), lists, c, k, bp)
      ensures SameButLinks(old(mem.words[..]), mem.words[..], old(listed))
    {
      hide Nodes, Spaced, Index, SameButLinks, Room, Removed, ClassOf, TakenOut;
      ghost var m, heads := mem.words[..], freeLists[..];
      ghost var c, k := Position(m, heads, lists, listed, bp);
      DeleteStep(m, heads, lists, listed, c, k);
      ghost var L := lists[c];
      var pos := SizeClass(GetSize(mem.words[Hdrp(bp)]));
      if mem.words[bp] == 0 {
        freeLists[pos] := mem.words[bp + 1];
        if mem.words[bp + 1] != 0 {
          mem.Put(mem.words[bp + 1], 0);
        }
      } else if mem.words[bp + 1] == 0 {
        mem.Put(mem.words[bp] + 1, 0);
      } else {
        mem.Put(mem.words[bp] + 1, mem.words[bp + 1]);
        mem.Put(mem.words[bp + 1], mem.words[bp]);
      }
      assert mem.words[..] == DeleteImage(m, L, k);
      assert freeLists[..] == heads[c := if k == 0 then At(L, 1) else heads[c]];
      lists := lists[c := Removed(L, k)];
      listed := listed - {bp};
    }

    // Takes the free neighbours of the free block at p off their lists and merges
    // them with it, in terms of the tags it reads and writes.
    method MergeFree(p: int, ghost units: int, ghost before: Block, ghost behind: Block)
      returns (bp: int, size: int, ghost mid: seq<Word>)
      requires Indexed() && Around(mem.words[..], p, units, before, behind) && TagsClear(listed, p, units, before)
      requires (!before.alloc ==> p - 2 * before.units in listed) && (!behind.alloc ==> p + 2 * units in listed)
      modifies mem.words, freeLists, this`lists, this`listed
      ensures bp == SpanStart(p, before) && size == 8 * SpanUnits(units, before, behind)
      ensures SameButLinks(old(mem.words[..]), mid, old(listed))
      ensures Index(mid, freeLists[..], lists, listed)
      ensures listed == old(listed) - ((if before.alloc then {} else {p - 2 * before.units})
                                       + (if behind.alloc then {} else {p + 2 * units}))
      ensures mem.words[..] == WriteTags(mid, bp, Block(SpanUnits(units, before, behind), false))
    {
      hide Index, SameButLinks, TagsClear, WriteTags;
      ghost var m, n := mem.words[..], SpanUnits(units, before, behind);
      ghost var all := listed;
      bp := p;
      var prevAlloc := GetAlloc(mem.words[Hdrp(PrevBlkp(mem.words[..], bp))]);
      var nextAlloc := GetAlloc(mem.words[Hdrp(NextBlkp(mem.words[..], bp))]);
      assert prevAlloc == before.alloc && nextAlloc == behind.alloc;
      size := GetSize(mem.words[Hdrp(bp)]);
      if prevAlloc && nextAlloc {
        mid := m;
        SameLinks(m, listed);
        SameTags(m, p, Block(n, false));
      } else if prevAlloc && !nextAlloc {
        size := size + GetSize(mem.words[Hdrp(NextBlkp(mem.words[..], bp))]);
        DeleteNode(NextBlkp(mem.words[..], bp));
        mid := mem.words[..];
        AroundKept(m, mid, all, p, units, before, behind);
        assert size / 8 == n;
        TagBlock(mem, bp, size, false);
      } else if !prevAlloc && nextAlloc {
        size := size + GetSize(mem.words[Hdrp(PrevBlkp(mem.words[..], bp))]);
        DeleteNode(PrevBlkp(mem.words[..], bp));
        mid := mem.words[..];
        AroundKept(m, mid, all, p, units, before, behind);
        assert size / 8 == n;
        TagFromPrev(mem, bp, size, before.units, units);
        bp := PrevBlkp(mem.words[..], bp);
      } else {
        size := size + GetSize(mem.words[Hdrp(PrevBlkp(mem.words[..], bp))])
                + GetSize(mem.words[Hdrp(NextBlkp(mem.words[..], bp))]);
        bp, mid := MergeBoth(bp, size, units, before, behind);
      }
    }

    // The last branch of `coalesce`.
    method MergeBoth(p: int, size: int, ghost units: int, ghost before: Block, ghost behind: Block)
      returns (bp: int, ghost mid: seq<Word>)
      requires Indexed() && Around(mem.words[..], p, units, before, behind) && TagsClear(listed, p, units, before)
      requires !before.alloc && p - 2 * before.units in listed && !behind.alloc && p + 2 * units in listed
      requires size == 8 * (before.units + units + behind.units)
      modifies mem.words, freeLists, this`lists, this`listed
      ensures bp == p - 2 * before.units
      ensures SameButLinks(old(mem.words[..]), mid, old(listed))
      ensures Index(mid, freeLists[..], lists, listed)
      ensures listed == old(listed) - {p - 2 * before.units, p + 2 * units}
      ensures 0 <= size < 0xFFFF_FFF0 && mem.words[..] == WriteTags(mid, bp, Block(size / 8, false))
    {
      hide Index, SameButLinks, TagsClear;
      ghost var m, all := mem.words[..], listed;
      bp := p;
      DeleteNode(PrevBlkp(mem.words[..], bp));
      ghost var m1 := mem.words[..];
      AroundKept(m, m1, all, p, units, before, behind);
      DeleteNode(NextBlkp(mem.words[..], bp));
      mid := mem.words[..];
      SameLinksTwice(m, m1, mid, all, all - {p - 2 * before.units});
      AroundKept(m, mid, all, p, units, before, behind);
      TagAcross(mem, bp, size, before.units, units, behind.units);
      bp := PrevBlkp(mem.words[..], bp);
    }

    method Coalesce(p: int) returns (bp: int)
      requires Indexed() && mem.Valid() && Pending(mem.words[..], blocks, mem.brk, listed, p)
      modifies mem.words, freeLists, this`blocks, this`lists, this`listed
      ensures Tidy()
      ensures Shaped(old(blocks)) && HasPrev(old(blocks), p)
      ensures blocks == Coalesced(old(blocks), p) && bp == CoalescedAt(old(blocks), p)
      ensures PayloadsKept(old(mem.words[..]), mem.words[..], old(blocks), 0)
    {
      hide Index, Pending, Represents, Isolated, SameButLinks, PayloadsKept, Coalesced, CoalescedAt, TagsClear,
        Around, Nodes, Spaced, SameLive, FreeSizes, Shaped, WriteTags;
      ghost var m, b, end, all := mem.words[..], blocks, mem.brk, listed;
      PendingFacts(m, b, end, all, p);
      ghost var mid;
      var size;
      bp, size, mid := MergeFree(p, b[p].units, b[Prev(b, p)], Behind(b, Next(b, p)));
      SpanIndexed(m, mid, freeLists[..], lists, b, end, all, p);
      blocks := Coalesced(b, p);
      ghost var r := mem.words[..];
      FreeNodes(r, blocks, end);
      InsertNode(bp, size);
      LinkedLast(m, r, mem.words[..], b, blocks, end, 0);
    }

    method ExtendHeap(words: int) returns (bp: int)
      requires Tidy() && 2 * MIN_UNITS <= words < 0x3FFF_FFFF
      modifies mem, mem.words, freeLists, this`blocks, this`lists, this`listed
      ensures Tidy()
      ensures var n := (words + 1) / 2;
        if mem.words.Length < old(mem.brk) + 2 * n then bp == 0 && blocks == old(blocks) && mem.brk == old(mem.brk)
        else bp == GrownAt(old(blocks), old(mem.brk), n) && blocks == Grown(old(blocks), old(mem.brk), n)
             && mem.brk == old(mem.brk) + 2 * n
      ensures PayloadsKept(old(mem.words[..]), mem.words[..], old(blocks), 0)
    {
      hide Index, Pending, Represents, Isolated, PayloadsKept, Coalesced, CoalescedAt, Nodes, Spaced, SameLive;
      ghost var m, b, end, n := mem.words[..], blocks, mem.brk, (words + 1) / 2;
      GrowStep(m, freeLists[..], lists, b, end, n);
      bp := AppendFree(mem, words);
      if bp == -1 {
        KeptSame(m, b, 0);
        return 0;
      }
      blocks := b[end := Block(n, false)];
      bp := Coalesce(bp);
      KeptTwice(m, AppendImage(m, end, n), mem.words[..], b, b[end := Block(n, false)], 0);
    }

    // A best fit of the whole heap; but requests of 2^16 bytes and more find nothing.
    method FindFit(newSize: int) returns (bp: int)
      requires Tidy() && newSize % 8 == 0 && 16 <= newSize
      ensures bp == 0 <==> newSize >= 0x1_0000 || forall x :: !Fits(blocks, x, newSize / 8)
      ensures bp != 0 ==>
        && Fits(blocks, bp, newSize / 8)
        && forall x :: Fits(blocks, x, newSize / 8) ==> blocks[bp].units <= blocks[x].units
      // The one in front of its list, if several are equally small.
      ensures bp != 0 ==> exists c, k :: FirstOf(lists, listed, c, k, bp, newSize / 8)
    {
      hide Index, Represents, Isolated, Log;
      ghost var m, heads, n := mem.words[..], freeLists[..], newSize / 8;
      LogBelowLast(newSize);
      Halving(newSize);
      var searchSize := newSize;
      var pos := 0;
      bp := 0;
      while pos < LIST_MAX
        invariant 0 <= pos <= LIST_MAX && 0 <= searchSize && bp == 0
        invariant pos <= Log(newSize) ==> pos + Log(searchSize) == Log(newSize)
        invariant searchSize <= 1 <==> Log(newSize) <= pos
        invariant Exhausted(lists, listed, Log(newSize), pos, n)
      {
        ListFacts(m, heads, lists, listed, pos);
        if searchSize <= 1 && freeLists[pos] != 0 {
          var _, target, k := Locate(pos, newSize);
          if target != 0 {
            FoundBest(m, heads, lists, blocks, n, pos, k);
            assert FirstOf(lists, listed, pos, k, target, n);
            return target;
          }
        }
        Halving(searchSize);
        Halving(searchSize / 2);
        searchSize := searchSize / 2;
        pos := pos + 1;
      }
      if newSize < 0x1_0000 {
        FoundNone(m, heads, lists, blocks, n);
      }
    }

    // Tags the front and the back part of the block at bp, which has just left the
    // lists (m is the memory before that), and lists the one that stays free.
    method Carve(bp: int, size: int, front: bool, rest: int, ghost m: seq<Word>)
      requires Indexed() && mem.Valid() && Represents(m, blocks, mem.brk) && Isolated(blocks) && |m| == mem.words.Length
      requires SameButLinks(m, mem.words[..], FreeSizes(blocks)) && listed == FreeSizes(blocks) - {bp}
      requires bp in blocks && !blocks[bp].alloc
      requires size % 8 == 0 && rest % 8 == 0 && 16 <= size && 16 <= rest && size + rest == 8 * blocks[bp].units
      modifies mem.words, freeLists, this`blocks, this`lists, this`listed
      ensures Tidy() && 1 <= bp <= mem.words.Length && NextBlkp(mem.words[..], bp) == bp + 2 * (size / 8)
      ensures bp in old(blocks) && blocks == Split(old(blocks), bp, size / 8, front, !front)
      ensures PayloadsKept(m, mem.words[..], old(blocks), 0)
    {
      hide Index, Isolated, PayloadsKept, SameButLinks, Nodes, Spaced, SameLive, Shaped, Separate, Chained, Below,
        Tagged, Represents, FreeSizes, Split, WriteTags, Tiled;
      ghost var b, end, n := blocks, mem.brk, size / 8;
      assert rest / 8 == b[bp].units - n;
      SplitIndexed(m, mem.words[..], freeLists[..], lists, b, end, bp, n, front);
      TagTwo(mem, bp, size, front, rest, !front);
      ghost var r := mem.words[..];
      blocks := Split(b, bp, n, front, !front);
      if front {
        InsertNode(NextBlkp(mem.words[..], bp), rest);
      } else {
        InsertNode(bp, size);
      }
      SplitDone(m, r, mem.words[..], b, end, bp, n, front);
    }

    method Place(bp: int, newSize: int) returns (at: int)
      requires Tidy() && newSize % 8 == 0 && 16 <= newSize && Fits(blocks, bp, newSize / 8)
      modifies mem.words, freeLists, this`blocks, this`lists, this`listed
      ensures Tidy()
      ensures blocks == Placed(old(blocks), bp, newSize / 8) && at == PlacedAt(old(blocks), bp, newSize / 8)
      ensures bp in old(blocks) && Carved(old(blocks), blocks, bp, old(blocks)[bp].units, newSize / 8, at)
      ensures PayloadsKept(old(mem.words[..]), mem.words[..], old(blocks), 0)
    {
      hide Index, Isolated, PayloadsKept, SameButLinks, SameLive, Shaped, Separate, Chained, Below, Tagged, Split,
        Carved;
      ghost var m, b, end, n := mem.words[..], blocks, mem.brk, newSize / 8;
      FreeFacts(m, b, end, bp, n);
      PlacedExact(b, b - {bp}, bp, b[bp].units, n);
      CarvedFrom(b, Placed(b, bp, n), bp, b[bp].units, n, PlacedAt(b, bp, n));
      var oldSize := GetSize(mem.words[Hdrp(bp)]);
      var diffSize := oldSize - newSize;
      DeleteNode(bp);
      at := bp;
      if diffSize < 2 * DSIZE {
        TagIndexed(m, mem.words[..], freeLists[..], lists, b, end, bp);
        TagBlock(mem, bp, oldSize, true);
        blocks := Tag(b, bp, true);
      } else if newSize >= BACK_SIZE {
        Carve(bp, diffSize, false, newSize, m);
        at := NextBlkp(mem.words[..], bp);
      } else {
        Carve(bp, newSize, true, diffSize, m);
      }
    }

    method ClearLists()
      requires Separated()
      modifies freeLists, this`lists
      ensures |lists| == LIST_MAX && forall c :: 0 <= c < LIST_MAX ==> freeLists[c] == 0 && lists[c] == []
    {
      lists := seq(LIST_MAX, _ => []);
      for i := 0 to LIST_MAX
        invariant |lists| == LIST_MAX && forall c :: 0 <= c < LIST_MAX ==> lists[c] == []
        invariant forall c :: 0 <= c < i ==> freeLists[c] == 0
      {
        freeLists[i] := 0;
      }
    }

    // 0, or -1 when the first chunk does not fit.
    method MmInit() returns (r: int)
      requires Separated() && mem.Valid() && mem.brk == 0
      modifies this, mem, mem.words, freeLists
      ensures mem.Valid() && r == (if 4 + 2 * CHUNK_UNITS <= mem.words.Length then 0 else -1)
      ensures r == 0 ==>
        && Valid() && mem.brk == 4 + 2 * CHUNK_UNITS && 4 * mem.brk == 4112
        && blocks == map[PROLOGUE := Block(1, true), 4 := Block(CHUNK_UNITS, false)]
    {
      hide Index, Represents, Isolated, PayloadsKept, Grown, GrownAt, FreeSizes;
      ghost var m := mem.words[..];
      heapListp := mem.Sbrk(4 * WSIZE);
      if heapListp == -1 {
        return -1;
      }
      mem.Put(heapListp, 0);
      mem.Put(heapListp + 1, Pack(DSIZE, true));
      mem.Put(heapListp + 2, Pack(DSIZE, true));
      mem.Put(heapListp + 3, Pack(0, true));
      heapListp := heapListp + 2;
      ClearLists();
      blocks := map[PROLOGUE := Block(1, true)];
      listed := map[];
      EmptyIndexed(m, freeLists[..], lists);
      FirstChunk();
      var bp := ExtendHeap(CHUNKSIZE / WSIZE);
      return if bp == 0 then -1 else 0;
    }

    // The address of the payload, or 0.
    method MmMalloc(size: int) returns (bp: int)
      requires Valid() && 0 <= size <= 0xFFFF_FFF0
      modifies mem, mem.words, freeLists, this`blocks, this`lists, this`listed
      ensures Valid()
      ensures Tiled(old(blocks), old(mem.brk)) && Isolated(old(blocks))
      ensures Handed(old(blocks), old(mem.brk), size, mem.words.Length, blocks, mem.brk, bp)
      ensures PayloadsKept(old(mem.words[..]), mem.words[..], old(blocks), 0)
    {
      hide Index, Represents, Isolated, PayloadsKept, SameLive, Shaped, Separate, Chained, Below, Tagged, Placed,
        PlacedAt, Grown, GrownAt, BestFit, FreeSizes;
      ghost var m, b, end := mem.words[..], blocks, mem.brk;
      InTiling(m, b, end);
      if size == 0 {
        KeptSame(m, b, 0);
        return 0;
      }
      var newSize;
      if size <= DSIZE {
        newSize := 2 * DSIZE;
      } else {
        newSize := (size + DSIZE + 7) / 8 * 8;
      }
      ghost var n := newSize / 8;
      assert n == BlockUnits(size);
      bp := FindFit(newSize);
      if bp != 0 {
        BestOf(b, bp, n);
        bp := Place(bp, newSize);
        return;
      }
      var extendSize := if newSize > CHUNKSIZE then newSize else CHUNKSIZE;
      bp := ExtendHeap(extendSize / WSIZE);
      GrownFits(b, end, extendSize / 8, n);
      if bp == 0 {
        return 0;
      }
      ghost var r, g := mem.words[..], blocks;
      bp := Place(bp, newSize);
      KeptTwice(m, r, mem.words[..], b, g, 0);
    }

    method MmFree(ptr: int)
      requires Valid() && LiveAt(blocks, ptr) && ptr != PROLOGUE
      modifies mem, mem.words, freeLists, this`blocks, this`lists, this`listed
      ensures Valid() && mem.brk == old(mem.brk)
      ensures Tiled(old(blocks), mem.brk) && Isolated(old(blocks))
      ensures blocks == Freed(old(blocks), mem.brk, ptr)
      ensures PayloadsKept(old(mem.words[..]), mem.words[..], old(blocks), ptr)
    {
      hide Index, Represents, Isolated, PayloadsKept, SameLive, Shaped, Separate, Chained, Below, Tagged, Freed,
        Coalesced, FreeSizes, Pending;
      ghost var m, b := mem.words[..], blocks;
      SegregatedSpec.FreeStep(m, freeLists[..], lists, b, mem.brk, ptr);
      var size := GetSize(mem.words[Hdrp(ptr)]);
      TagBlock(mem, ptr, size, false);
      blocks := Tag(b, ptr, false);
      ghost var r := mem.words[..];
      var _ := Coalesce(ptr);
      KeptTwice(m, r, mem.words[..], b, Tag(b, ptr, false), ptr);
    }

    // The block behind ptr leaves the lists and ptr claims `size` bytes.
    method TakeNext(ptr: int, size: int) returns (ghost mid: seq<Word>)
      requires Indexed() && 1 <= ptr <= mem.words.Length && size % 8 == 0 && 8 <= size
      requires NextBlkp(mem.words[..], ptr) in listed && ptr + size / 4 <= mem.words.Length
      modifies mem.words, freeLists, this`lists, this`listed
      ensures SameButLinks(old(mem.words[..]), mid, old(listed)) && Index(mid, freeLists[..], lists, listed)
      ensures listed == old(listed) - {NextBlkp(old(mem.words[..]), ptr)}
      ensures |mid| == mem.words.Length && TagOf(Block(size / 8, true)) < 0x1_0000_0000
      ensures mem.words[..] == WriteTags(mid, ptr, Block(size / 8, true))
    {
      hide Index, SameButLinks;
      DeleteNode(NextBlkp(mem.words[..], ptr));
      mid := mem.words[..];
      TagBlock(mem, ptr, size, true);
    }

    // Grows the heap when the block behind ptr is too small; 0 when that fails.
    method MakeRoom(ghost ptr: int, newSize: int, available: int) returns (total: int)
      requires Tidy() && LiveAt(blocks, ptr) && newSize % 8 == 0 && 16 <= newSize <= 0xFFFF_FFF8
      requires available == 8 * (blocks[ptr].units + Behind(blocks, Next(blocks, ptr)).units) && 0 < available
      modifies mem, mem.words, freeLists, this`blocks, this`lists, this`listed
      ensures Tidy() && Tiled(old(blocks), old(mem.brk)) && Isolated(old(blocks)) && ptr in old(blocks)
      ensures var b, end, k := old(blocks), old(mem.brk), Shortfall(old(blocks), ptr, newSize / 8);
        if k > 0 && mem.words.Length < end + 2 * k then total == 0 && blocks == b && mem.brk == end
        else total == available + 8 * k && blocks == Enlarged(b, end, k) && mem.brk == end + 2 * k
      ensures PayloadsKept(old(mem.words[..]), mem.words[..], old(blocks), 0)
    {
      hide Index, Represents, Isolated, PayloadsKept, SameLive, Shaped, Separate, Chained, Below, Tagged, Grown,
        GrownAt, FreeSizes;
      InTiling(mem.words[..], blocks, mem.brk);
      total := available;
      if available < newSize {
        var extra := if newSize - available > CHUNKSIZE then newSize - available else CHUNKSIZE;
        GrownFits(blocks, mem.brk, extra / 8, MIN_UNITS);
        var bp := ExtendHeap(extra / WSIZE);
        if bp == 0 {
          return 0;
        }
        total := total + extra;
      } else {
        KeptSame(mem.words[..], blocks, 0);
      }
    }

    // The branch of mm_realloc that keeps the block where it is and takes in the
    // block behind it.
    method GrowInPlace(ptr: int, newSize: int, available: int) returns (newPtr: int)
      requires Valid() && LiveAt(blocks, ptr) && ptr != PROLOGUE && newSize % 8 == 0 && 16 <= newSize <= 0xFFFF_FFF8
      requires !LiveAt(blocks, Next(blocks, ptr)) && 8 * blocks[ptr].units < newSize
      requires available == 8 * (blocks[ptr].units + Behind(blocks, Next(blocks, ptr)).units)
      modifies mem, mem.words, freeLists, this`blocks, this`lists, this`listed
      ensures Tiled(old(blocks), old(mem.brk)) && Isolated(old(blocks)) && ptr in old(blocks)
      ensures mem.Valid()
      ensures var b, end, n := old(blocks), old(mem.brk), newSize / 8;
        var k := Shortfall(b, ptr, n);
        if k > 0 && mem.words.Length < end + 2 * k then
          newPtr == 0 && Valid() && blocks == b && mem.brk == end && PayloadsKept(old(mem.words[..]), mem.words[..], b, 0)
        else
          && newPtr == ptr && mem.brk == end + 2 * k
          && (PlanOf(b, ptr, n) == Swallow ==> !Intact(mem.words[..], b, ptr, ptr))
          && (PlanOf(b, ptr, n) != Swallow ==>
                && Valid()
                && ptr in Enlarged(b, end, k) && Next(Enlarged(b, end, k), ptr) in Enlarged(b, end, k)
                && blocks == Merge(Enlarged(b, end, k), ptr)
                && PayloadsKept(old(mem.words[..]), mem.words[..], b, 0))
    {
      hide Index, Represents, Isolated, PayloadsKept, SameLive, Shaped, Separate, Chained, Below, Tagged, Enlarged,
        FreeSizes, SameButLinks, Intact, WriteTags;
      ghost var m, b, end, n := mem.words[..], blocks, mem.brk, newSize / 8;
      ghost var k := Shortfall(b, ptr, n);
      ReallocReads(m, b, end, ptr);
      var total := MakeRoom(ptr, newSize, available);
      if total == 0 {
        return 0;
      }
      ghost var r, g := mem.words[..], blocks;
      EnlargedFacts(r, b, end, ptr, k);
      newPtr := ptr;
      ghost var mid := TakeNext(ptr, total);
      if PlanOf(b, ptr, n) == Swallow {
        NotIntact(mid, b, ptr, Block(total / 8, true), Next(b, Next(b, ptr)));
      } else {
        AbsorbStep(r, mid, freeLists[..], lists, g, mem.brk, ptr);
        blocks := Merge(g, ptr);
        KeptTwice(m, r, mem.words[..], b, g, 0);
      }
    }

    // The branch of mm_realloc that moves the block: all oldSize bytes, header and
    // footer counted in, are copied.  mm_malloc's result is not tested, so that a
    // failed request makes memcpy write through the null pointer: `crashed`.
    method MoveBlock(ptr: int, size: int, oldSize: int) returns (newPtr: int, crashed: bool, ghost c: Blocks)
      requires Valid() && LiveAt(blocks, ptr) && ptr != PROLOGUE && 0 < size <= 0xFFFF_FFF0
      requires oldSize == 8 * blocks[ptr].units && blocks[ptr].units < BlockUnits(size)
      modifies mem, mem.words, freeLists, this`blocks, this`lists, this`listed
      ensures Valid() && Tiled(old(blocks), old(mem.brk)) && Isolated(old(blocks)) && ptr in old(blocks)
      ensures Handed(old(blocks), old(mem.brk), size, mem.words.Length, c, mem.brk, newPtr)
      ensures crashed == (newPtr == 0)
      ensures crashed ==>
        && blocks == old(blocks) && mem.brk == old(mem.brk)
        && PayloadsKept(old(mem.words[..]), mem.words[..], old(blocks), 0)
      ensures !crashed ==>
        && Tiled(c, mem.brk) && Isolated(c) && LiveAt(c, ptr) && blocks == Freed(c, mem.brk, ptr)
        && SameBytes(old(mem.words[..]), 4 * ptr, mem.words[..], 4 * newPtr, oldSize - 8)
      ensures PayloadsKept(old(mem.words[..]), mem.words[..], old(blocks), ptr)
    {
      hide Index, Represents, Isolated, PayloadsKept, Shaped, Separate, Chained, Below, Tagged, Freed, FreeSizes,
        SameBytes, Handed, SameLive;
      ghost var m, b := mem.words[..], blocks;
      ReallocReads(m, b, mem.brk, ptr);
      newPtr := MmMalloc(size);
      HandedEffect(b, old(mem.brk), size, mem.words.Length, blocks, mem.brk, newPtr);
      c, crashed := blocks, newPtr == 0;
      if crashed {
        KeptButOne(m, mem.words[..], b, ptr);
        return;
      }
      ghost var m1 := mem.words[..];
      CopyFacts(m1, b, c, mem.brk, ptr, newPtr, size);
      mem.CopyBytes(4 * newPtr, 4 * ptr, oldSize);
      ghost var m2 := mem.words[..];
      CopyDone(m1, m2, freeLists[..], lists, c, mem.brk, newPtr, oldSize);
      MmFree(ptr);
      Moved(m, m1, m2, mem.words[..], b, c, ptr, newPtr, oldSize, oldSize - 8);
    }

    // For ptr != 0 and size > 0, see PlanOf for the five courses this can take.
    method MmRealloc(ptr: int, size: int) returns (newPtr: int, crashed: bool)
      requires Valid() && (ptr == 0 || (LiveAt(blocks, ptr) && ptr != PROLOGUE)) && 0 <= size <= 0xFFFF_FFF0
      modifies mem, mem.words, freeLists, this`blocks, this`lists, this`listed
      ensures mem.Valid() && Tiled(old(blocks), old(mem.brk)) && Isolated(old(blocks))
      ensures ptr == 0 ==>
        && Valid() && !crashed && PayloadsKept(old(mem.words[..]), mem.words[..], old(blocks), 0)
        && Handed(old(blocks), old(mem.brk), size, mem.words.Length, blocks, mem.brk, newPtr)
      ensures ptr != 0 && size == 0 ==>
        && Valid() && !crashed && newPtr == 0 && PayloadsKept(old(mem.words[..]), mem.words[..], old(blocks), ptr)
        && blocks == Freed(old(blocks), old(mem.brk), ptr)
      ensures ptr != 0 && size > 0 ==>
        Resized(old(blocks), old(mem.brk), ptr, size, mem.words.Length, blocks, mem.brk, newPtr, crashed)
      ensures ptr != 0 && size > 0 ==>
        (crashed <==> Crashes(old(blocks), old(mem.brk), ptr, BlockUnits(size), mem.words.Length))
      // The heap outlives the call, with the request and all other live blocks in
      // place, unless a block was swallowed; both conditions can be told before the call.
      ensures ptr != 0 && size > 0 ==>
        (Intact(mem.words[..], old(blocks), ptr, if newPtr == 0 then ptr else newPtr)
         <==> !Swallows(old(blocks), old(mem.brk), ptr, BlockUnits(size), mem.words.Length))
      ensures ptr != 0 && size > 0 && !Swallows(old(blocks), old(mem.brk), ptr, BlockUnits(size), mem.words.Length) ==>
        && Valid() && PayloadsKept(old(mem.words[..]), mem.words[..], old(blocks), if newPtr == 0 then 0 else ptr)
        && (newPtr != 0 ==>
              SameBytes(old(mem.words[..]), 4 * ptr, mem.words[..], 4 * newPtr, 8 * old(blocks)[ptr].units - 8))
      ensures ptr != 0 && size > 0 && PlanOf(old(blocks), ptr, BlockUnits(size)) == Keep ==>
        mem.words[..] == old(mem.words[..])
    {
      hide Index, Represents, Isolated, PayloadsKept, Shaped, Separate, Chained, Below, Tagged, Freed, FreeSizes,
        SameBytes, Handed, SameLive, Intact, Grown;
      ghost var m, b, end := mem.words[..], blocks, mem.brk;
      InTiling(m, b, end);
      crashed := false;
      if ptr == 0 {
        newPtr := MmMalloc(size);
        return;
      }
      if size == 0 {
        MmFree(ptr);
        newPtr := 0;
        return;
      }
      ReallocReads(m, b, end, ptr);
      newPtr := ptr;
      var oldSize := GetSize(mem.words[Hdrp(ptr)]);
      var nextAlloc := GetAlloc(mem.words[Hdrp(NextBlkp(mem.words[..], ptr))]);
      var nextSize := GetSize(mem.words[Hdrp(NextBlkp(mem.words[..], ptr))]);
      var availableSize := oldSize + nextSize;
      var newSize;
      if size <= DSIZE {
        newSize := 2 * DSIZE;
      } else {
        newSize := (size + DSIZE + 7) / 8 * 8;
      }
      ghost var n := newSize / 8;
      assert n == BlockUnits(size);
      if oldSize >= newSize {
        KeptSame(m, b, 0);
        StillIntact(m, b, end, ptr);
        StaysPut(m, mem.words[..], b, end, ptr);
      } else if !nextAlloc || nextSize == 0 {
        newPtr := GrowInPlace(ptr, newSize, availableSize);
        if newPtr == 0 {
          StillIntact(mem.words[..], b, end, ptr);
        } else if PlanOf(b, ptr, n) != Swallow {
          MergedIntact(mem.words[..], b, end, ptr, Shortfall(b, ptr, n));
          StaysPut(m, mem.words[..], b, end, ptr);
        }
      } else {
        ghost var c;
        newPtr, crashed, c := MoveBlock(ptr, size, oldSize);
        HandedEffect(b, end, size, mem.words.Length, c, mem.brk, newPtr);
        if crashed {
          StillIntact(mem.words[..], b, end, ptr);
        } else {
          MovedIntact(mem.words[..], b, c, mem.brk, ptr, newPtr);
        }
      }
      CrashCondition(b, end, ptr, size, mem.words.Length, blocks, mem.brk, newPtr, crashed);
    }
  }

  // A block that has not moved.
  lemma StaysPut(m: seq<Word>, r: seq<Word>, b: Blocks, end: int, p: int)
    requires Represents(m, b, end) && LiveAt(b, p) && PayloadsKept(m, r, b, 0)
    ensures PayloadsKept(m, r, b, p) && SameBytes(m, 4 * p, r, 4 * p, 8 * b[p].units - 8)
  {
    InBounds(m, b, end, p);
    KeptButOne(m, r, b, p);
    KeptBytes(m, r, b, 0, p, 8 * b[p].units - 8);
  }

  // One halving of the search size.
  lemma Halving(s: int)
    requires 0 <= s
    ensures s <= 1 ==> Log(s) == 0 && s / 2 <= 1
    ensures s > 1 ==> Log(s) == 1 + Log(s / 2) && Log(s) >= 1
  {
  }

  lemma InsertStep(m: seq<Word>, heads: seq<int>, lists: seq<seq<int>>, listed: Sizes, k: int, p: int, u: int)
    requires Index(m, heads, lists, listed) && p !in listed && |m| < 0x1_0000_0000
    requires Nodes(m, listed[p := u]) && Spaced(listed[p := u])
    requires var L := lists[ClassOf(8 * u)];
      && 0 <= k <= |L|
      && (forall i {:trigger L[i]} :: 0 <= i < k ==> L[i] in listed && listed[L[i]] < u)
      && (forall i {:trigger L[i]} :: k <= i < |L| ==> L[i] in listed && u <= listed[L[i]])
    ensures |lists| == |heads| == LIST_MAX
    ensures var c := ClassOf(8 * u);
      && 4 <= p < |m| - 1 && Room(m, lists[c], p)
      && (k > 0 ==> 4 <= lists[c][k - 1] < |m| - 1) && (k < |lists[c]| ==> 4 <= lists[c][k] < |m| - 1)
      && var r, L' := InsertImage(m, lists[c], k, p), Inserted(lists[c], k, p);
      && Index(r, heads[c := if k == 0 then p else heads[c]], lists[c := L'], listed[p := u])
      && SameButLinks(m, r, listed[p := u])
      && LinkedIn(lists, lists[c := L'], listed, c, k, p, u)
  {
    IndexInserted(m, heads, lists, listed, k, p, u);
  }

  // Where a listed block is found.
  lemma Position(m: seq<Word>, heads: seq<int>, lists: seq<seq<int>>, listed: Sizes, p: int) returns (c: int, k: int)
    requires Index(m, heads, lists, listed) && p in listed
    ensures |lists| == LIST_MAX && 0 <= c < LIST_MAX && 0 <= k < |lists[c]| && lists[c][k] == p
    ensures 4 <= p < |m| - 1 && c == ClassOf(GetSize(m[p - 1])) && 0 <= GetSize(m[p - 1])
  {
    c := ClassOf(8 * listed[p]);
    k :| 0 <= k < |lists[c]| && lists[c][k] == p;
  }

  lemma DeleteStep(m: seq<Word>, heads: seq<int>, lists: seq<seq<int>>, listed: Sizes, c: int, k: int)
    requires Index(m, heads, lists, listed) && |m| < 0x1_0000_0000
    requires 0 <= c < LIST_MAX && 0 <= k < |lists[c]|
    ensures |lists| == |heads| == LIST_MAX
    ensures var L, p := lists[c], lists[c][k];
      && 4 <= p < |m| - 1 && m[p] == At(L, k - 1) && m[p + 1] == At(L, k + 1)
      && (k > 0 ==> 4 <= L[k - 1] < |m| - 1 && Apart(L[k - 1], p) && L[k - 1] != p)
      && (k + 1 < |L| ==> 4 <= L[k + 1] < |m| - 1 && Apart(L[k + 1], p) && L[k + 1] != p)
      && var r, L' := DeleteImage(m, L, k), Removed(L, k);
      && Index(r, heads[c := if k == 0 then At(L, 1) else heads[c]], lists[c := L'], listed - {p})
      && SameButLinks(m, r, listed)
      && TakenOut(lists, lists[c := L'], c, k, p)
  {
    IndexRemoved(m, heads, lists, listed, c, k);
    NodeFacts(m, heads, lists, listed, c, k);
  }

  lemma SameLinks(m: seq<Word>, listed: Sizes)
    ensures SameButLinks(m, m, listed)
  {
  }

  lemma SameLinksTwice(m: seq<Word>, r: seq<Word>, w: seq<Word>, all: Sizes, fewer: Sizes)
    requires SameButLinks(m, r, all) && SameButLinks(r, w, fewer) && forall x :: x in fewer ==> x in all
    ensures SameButLinks(m, w, all)
  {
  }

  lemma ListFacts(m: seq<Word>, heads: seq<int>, lists: seq<seq<int>>, listed: Sizes, c: int)
    requires Index(m, heads, lists, listed) && 0 <= c < LIST_MAX
    ensures |lists| == LIST_MAX
    ensures var L := lists[c];
      && heads[c] == At(L, 0)
      && forall i {:trigger L[i]} :: 0 <= i < |L| ==> L[i] in listed && 4 <= L[i] < |m| - 1
  {
    assert ListOf(m, lists[c], listed, c);
  }

  // What the index says about the k-th node of class c.
  lemma NodeFacts(m: seq<Word>, heads: seq<int>, lists: seq<seq<int>>, listed: Sizes, c: int, k: int)
    requires Index(m, heads, lists, listed) && 0 <= c < LIST_MAX && 0 <= k < |lists[c]|
    ensures var L := lists[c];
      && L[k] in listed && 4 <= L[k] < |m| - 1
      && GetSize(m[L[k] - 1]) == 8 * listed[L[k]] && ClassOf(8 * listed[L[k]]) == c
      && m[L[k]] == At(L, k - 1) && m[L[k] + 1] == At(L, k + 1)
      && forall i {:trigger L[i]} :: k <= i < |L| ==> L[i] in listed && listed[L[k]] <= listed[L[i]]
  {
    assert ListOf(m, lists[c], listed, c);
    assert NodeLinked(m, lists[c], k);
  }
}
