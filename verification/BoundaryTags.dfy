// How a tiling is written in memory: every block starts with a header word and
// ends with an equal footer word (malloc/mm.h:16-25), and the epilogue is a
// lone header of size zero just below the brk.
module BoundaryTags {
  import opened Words
  import opened MemLib
  import opened Tiling

  function TagOf(k: Block): int {
    8 * k.units + if k.alloc then 1 else 0
  }

  // ---- The navigation macros, on addresses counted in words -----------------

  function Hdrp(bp: int): int {
    bp - 1
  }

  function Ftrp(m: seq<Word>, bp: int): int
    requires 1 <= bp <= |m|
  {
    bp + GetSize(m[Hdrp(bp)]) / 4 - 2
  }

  function NextBlkp(m: seq<Word>, bp: int): int
    requires 1 <= bp <= |m|
  {
    bp + GetSize(m[bp - 1]) / 4
  }

  function PrevBlkp(m: seq<Word>, bp: int): int
    requires 2 <= bp < |m| + 2
  {
    bp - GetSize(m[bp - 2]) / 4
  }

  // ---- Representation -------------------------------------------------------

  ghost predicate Tagged(m: seq<Word>, b: Blocks) {
    forall p :: p in b ==>
      && 1 <= p && 1 <= b[p].units && p + 2 * b[p].units <= |m|
      && m[p - 1] == TagOf(b[p]) && m[p + 2 * b[p].units - 2] == TagOf(b[p])
  }

  ghost predicate Represents(m: seq<Word>, b: Blocks, end: int) {
    && Tiled(b, end)
    && end <= |m|
    && Tagged(m, b)
    && m[end - 1] == Pack(0, true)
  }

  predicate Reads(w: Word, k: Block) {
    GetSize(w) == 8 * k.units && GetAlloc(w) == k.alloc
  }

  lemma ReadTag(w: Word, k: Block)
    requires w == TagOf(k)
    ensures Reads(w, k)
  {
    UnitsOfTag(k.units, if k.alloc then 1 else 0);
    BitOfTag(k.units, if k.alloc then 1 else 0);
  }

  // The macros read the tiling: NEXT_BLKP, FTRP and PREV_BLKP.
  lemma Forward(m: seq<Word>, b: Blocks, end: int, p: int)
    requires Represents(m, b, end) && p in b
    ensures 2 <= p && p + 2 * b[p].units <= end
    ensures GetSize(m[p - 1]) == 8 * b[p].units && GetAlloc(m[p - 1]) == b[p].alloc
    ensures NextBlkp(m, p) == Next(b, p) && Ftrp(m, p) == p + 2 * b[p].units - 2
    ensures m[Ftrp(m, p)] == m[p - 1]
    ensures Next(b, p) in b || Next(b, p) == end
  {
    ReadTag(m[p - 1], b[p]);
  }

  lemma Backward(m: seq<Word>, b: Blocks, end: int, p: int)
    requires Represents(m, b, end) && p != PROLOGUE && (p in b || p == end)
    ensures HasPrev(b, p) && 4 <= p <= end
    ensures PrevBlkp(m, p) == Prev(b, p)
  {
    assert Next(b, PROLOGUE) == 4;
    WalkReaches(b, end, PROLOGUE, p);
    ReadTag(m[p - 2], b[Prev(b, p)]);
  }

  // The header at the epilogue reads as a live block of size zero.
  lemma AtEpilogue(m: seq<Word>, b: Blocks, end: int)
    requires Represents(m, b, end)
    ensures 4 <= end && end !in b && GetSize(m[end - 1]) == 0 && GetAlloc(m[end - 1])
  {
    assert Next(b, PROLOGUE) == 4;
  }

  // PREV_BLKP inverts NEXT_BLKP.
  lemma PrevInvertsNext(m: seq<Word>, b: Blocks, end: int, p: int)
    requires Represents(m, b, end) && p in b
    ensures 2 <= NextBlkp(m, p) <= |m| && PrevBlkp(m, NextBlkp(m, p)) == p
  {
    Forward(m, b, end, p);
    ReadTag(m[p + 2 * b[p].units - 2], b[p]);
  }

  // ---- The walk along NEXT_BLKP ----------------------------------------------

  // The addresses visited from bp until a header of size zero.
  function Walk(m: seq<Word>, bp: int): seq<int>
    decreases |m| - bp
  {
    if 1 <= bp <= |m| && GetSize(m[bp - 1]) >= 4 then [bp] + Walk(m, NextBlkp(m, bp)) else []
  }

  lemma {:induction false} WalkVisits(m: seq<Word>, b: Blocks, end: int, p: int)
    requires Represents(m, b, end) && (p in b || p == end)
    ensures forall x :: x in Walk(m, p) <==> x in b && p <= x
    decreases end - p
  {
    if p == end {
      AtEpilogue(m, b, end);
      assert forall x :: x in b ==> x < end;
    } else {
      Forward(m, b, end, p);
      WalkVisits(m, b, end, Next(b, p));
      assert forall x :: x in b && p < x ==> Next(b, p) <= x;
    }
  }

  lemma {:induction false} WalkAscends(m: seq<Word>, p: int)
    ensures forall x :: x in Walk(m, p) ==> p <= x
    ensures forall i, j :: 0 <= i < j < |Walk(m, p)| ==> Walk(m, p)[i] < Walk(m, p)[j]
    decreases |m| - p
  {
    if 1 <= p <= |m| && GetSize(m[p - 1]) >= 4 {
      var rest := Walk(m, NextBlkp(m, p));
      WalkAscends(m, NextBlkp(m, p));
      assert forall i :: 0 <= i < |rest| ==> rest[i] in rest;
    }
  }

  // A memory image has at most one tiling: NEXT_BLKP finds every block of it.
  lemma TilingIsDetermined(m: seq<Word>, b: Blocks, end: int, c: Blocks, end': int)
    requires Represents(m, b, end) && Represents(m, c, end')
    ensures b == c && end == end'
  {
    WalkVisits(m, b, end, PROLOGUE);
    WalkVisits(m, c, end', PROLOGUE);
    forall x ensures x in b <==> x in c {
      assert x in b <==> x in Walk(m, PROLOGUE);
    }
    forall x | x in b ensures b[x] == c[x] {
      ReadTag(m[x - 1], b[x]);
      ReadTag(m[x - 1], c[x]);
    }
    WalkReaches(b, end, PROLOGUE, end);
    WalkReaches(c, end', PROLOGUE, end');
    assert Next(c, Prev(b, end)) == end && Next(b, Prev(c, end')) == end';
    AtEpilogue(m, b, end);
    AtEpilogue(m, c, end');
  }

  // ---- Writing tags -----------------------------------------------------------

  // The payload words of every live block of b but `except` are the same in m and r.
  ghost predicate PayloadsKept(m: seq<Word>, r: seq<Word>, b: Blocks, except: int) {
    && |r| == |m|
    && forall p, w :: p in b && b[p].alloc && p != except && p <= w < p + 2 * b[p].units - 2 && 0 <= w < |m| ==>
         r[w] == m[w]
  }

  // m with the tags of a block k written at p.
  function WriteTags(m: seq<Word>, p: int, k: Block): seq<Word>
    requires 1 <= p && 1 <= k.units && p + 2 * k.units <= |m| && TagOf(k) < 0x1_0000_0000
  {
    m[p - 1 := TagOf(k)][p + 2 * k.units - 2 := TagOf(k)]
  }

  lemma SameTags(m: seq<Word>, p: int, k: Block)
    requires 1 <= p && 1 <= k.units && p + 2 * k.units <= |m| && TagOf(k) < 0x1_0000_0000
    requires m[p - 1] == m[p + 2 * k.units - 2] == TagOf(k)
    ensures WriteTags(m, p, k) == m
  {
  }

  // c differs from b only at p; writing the tags of c[p] makes m represent c there.
  lemma TagsWritten(m: seq<Word>, b: Blocks, c: Blocks, p: int)
    requires Tagged(m, b) && Separate(c)
    requires p in c && 1 <= p && 1 <= c[p].units && p + 2 * c[p].units <= |m| && TagOf(c[p]) < 0x1_0000_0000
    requires forall x :: x in c && x != p ==> x in b && c[x] == b[x]
    ensures Tagged(WriteTags(m, p, c[p]), c)
  {
  }

  lemma PayloadsUnderTags(m: seq<Word>, b: Blocks, c: Blocks, p: int, except: int)
    requires p in c && 1 <= p && 1 <= c[p].units && p + 2 * c[p].units <= |m| && TagOf(c[p]) < 0x1_0000_0000
    requires Separate(c) && SameLive(b, c, except) && (p in b && b[p].alloc ==> p == except)
    ensures PayloadsKept(m, WriteTags(m, p, c[p]), b, except)
  {
  }

  // One pair of tags turns a representation of b into one of c.
  lemma Rewritten(m: seq<Word>, b: Blocks, c: Blocks, end: int, p: int)
    requires Represents(m, b, end) && Tiled(c, end)
    requires p in c && p != PROLOGUE && TagOf(c[p]) < 0x1_0000_0000
    requires forall x :: x in c && x != p ==> x in b && c[x] == b[x]
    ensures 1 <= p && 1 <= c[p].units && p + 2 * c[p].units <= |m|
    ensures Represents(WriteTags(m, p, c[p]), c, end)
  {
    TagsWritten(m, b, c, p);
  }

  // Header and footer of the block at bp; the footer is found through the header
  // just written.
  method TagBlock(mem: Memory, bp: int, size: int, alloc: bool)
    requires mem.words.Length <= MAX_WORDS
    requires size % 8 == 0 && 8 <= size && 1 <= bp && bp + size / 4 <= mem.words.Length
    modifies mem.words
    ensures TagOf(Block(size / 8, alloc)) < 0x1_0000_0000
    ensures mem.words[..] == WriteTags(old(mem.words[..]), bp, Block(size / 8, alloc))
  {
    mem.Put(Hdrp(bp), Pack(size, alloc));
    mem.Put(Ftrp(mem.words[..], bp), Pack(size, alloc));
  }

  // Tags for a block at bp and for the block behind it, found through the header just written.
  method TagTwo(mem: Memory, bp: int, size1: int, alloc1: bool, size2: int, alloc2: bool)
    requires mem.words.Length <= MAX_WORDS && size1 % 8 == 0 && 8 <= size1 && size2 % 8 == 0 && 8 <= size2
    requires 1 <= bp && bp + size1 / 4 + size2 / 4 <= mem.words.Length
    modifies mem.words
    ensures mem.words[..] == WriteTags(WriteTags(old(mem.words[..]), bp, Block(size1 / 8, alloc1)),
                                       bp + 2 * (size1 / 8), Block(size2 / 8, alloc2))
  {
    TagBlock(mem, bp, size1, alloc1);
    ReadTag(mem.words[bp - 1], Block(size1 / 8, alloc1));
    TagBlock(mem, NextBlkp(mem.words[..], bp), size2, alloc2);
  }

  // The free block before bp takes in the one at bp: its header is rewritten, and the
  // new footer is found through the header of bp, which still counts.
  method TagFromPrev(mem: Memory, bp: int, size: int, ghost before: int, ghost units: int)
    requires mem.words.Length <= MAX_WORDS && size == 8 * (before + units)
    requires 1 <= before && 1 <= units && 1 <= bp - 2 * before && bp + 2 * units <= mem.words.Length
    requires PrevBlkp(mem.words[..], bp) == bp - 2 * before && NextBlkp(mem.words[..], bp) == bp + 2 * units
    modifies mem.words
    ensures TagOf(Block(size / 8, false)) < 0x1_0000_0000
    ensures mem.words[..] == WriteTags(old(mem.words[..]), bp - 2 * before, Block(size / 8, false))
    ensures PrevBlkp(mem.words[..], bp) == bp - 2 * before
  {
    mem.Put(Hdrp(PrevBlkp(mem.words[..], bp)), Pack(size, false));
    mem.Put(Ftrp(mem.words[..], bp), Pack(size, false));
  }

  // The free block before bp takes in the ones at bp and behind it; the new footer is
  // found through the header of the latter.
  method TagAcross(mem: Memory, bp: int, size: int, ghost before: int, ghost units: int, ghost behind: int)
    requires mem.words.Length <= MAX_WORDS && size == 8 * (before + units + behind)
    requires 1 <= before && 1 <= units && 1 <= behind
    requires 1 <= bp - 2 * before && bp + 2 * units + 2 * behind <= mem.words.Length
    requires PrevBlkp(mem.words[..], bp) == bp - 2 * before && NextBlkp(mem.words[..], bp) == bp + 2 * units
    requires NextBlkp(mem.words[..], bp + 2 * units) == bp + 2 * units + 2 * behind
    modifies mem.words
    ensures TagOf(Block(size / 8, false)) < 0x1_0000_0000
    ensures mem.words[..] == WriteTags(old(mem.words[..]), bp - 2 * before, Block(size / 8, false))
    ensures PrevBlkp(mem.words[..], bp) == bp - 2 * before
  {
    mem.Put(Hdrp(PrevBlkp(mem.words[..], bp)), Pack(size, false));
    mem.Put(Ftrp(mem.words[..], NextBlkp(mem.words[..], bp)), Pack(size, false));
  }

  lemma KeptTwice(m: seq<Word>, r: seq<Word>, w: seq<Word>, b: Blocks, c: Blocks, except: int)
    requires PayloadsKept(m, r, b, except) && PayloadsKept(r, w, c, 0) && SameLive(b, c, except) && 0 !in b
    ensures PayloadsKept(m, w, b, except)
  {
    forall p, x | p in b && b[p].alloc && p != except && p <= x < p + 2 * b[p].units - 2 && 0 <= x < |m|
      ensures w[x] == m[x]
    {
      assert LiveAt(b, p);
      assert r[x] == m[x] && p in c && c[p] == b[p];
    }
  }

  lemma KeptSame(m: seq<Word>, b: Blocks, except: int)
    ensures PayloadsKept(m, m, b, except)
  {
  }

  lemma KeptButOne(m: seq<Word>, r: seq<Word>, b: Blocks, except: int)
    requires PayloadsKept(m, r, b, 0) && 0 !in b
    ensures PayloadsKept(m, r, b, except)
  {
  }

  lemma InBounds(m: seq<Word>, b: Blocks, end: int, p: int)
    requires Represents(m, b, end) && p in b
    ensures 0 !in b && 2 <= p && 1 <= b[p].units && p + 2 * b[p].units <= end <= |m|
    ensures p == PROLOGUE ==> b[p].alloc
  {
  }

  // What the header at the start of a block, or at the epilogue, tells.
  lemma ReadHeader(m: seq<Word>, b: Blocks, end: int, p: int)
    requires Represents(m, b, end) && (p in b || p == end)
    ensures 2 <= p <= end && (GetSize(m[p - 1]) > 0 <==> p in b)
    ensures p in b ==>
      && Reads(m[p - 1], b[p]) && NextBlkp(m, p) == Next(b, p)
      && p < Next(b, p) <= end && (Next(b, p) in b || Next(b, p) == end)
    ensures forall x :: x in b && p in b && p < x ==> Next(b, p) <= x
  {
    if p in b {
      Forward(m, b, end, p);
    } else {
      AtEpilogue(m, b, end);
    }
  }

  // ---- Placing ------------------------------------------------------------------

  // The front n of the u units at p are handed out; a remainder too small to
  // stand alone goes with them.
  function FrontImage(m: seq<Word>, p: int, u: int, n: int): seq<Word>
    requires 1 <= p && 1 <= n <= u && p + 2 * u <= |m| <= MAX_WORDS
  {
    if u - n < MIN_UNITS then WriteTags(m, p, Block(u, true))
    else WriteTags(WriteTags(m, p, Block(n, true)), p + 2 * n, Block(u - n, false))
  }

  function FrontPlaced(b: Blocks, p: int, n: int): Blocks
    requires p in b
  {
    if b[p].units - n < MIN_UNITS then Tag(b, p, true) else Split(b, p, n, true, false)
  }

  lemma SplitTagged(m: seq<Word>, b: Blocks, end: int, p: int, n: int, front: bool, back: bool)
    requires Represents(m, b, end) && |m| <= MAX_WORDS && p in b && p != PROLOGUE && !b[p].alloc
    requires MIN_UNITS <= n <= b[p].units - MIN_UNITS
    ensures 1 <= p && p + 2 * b[p].units <= |m|
    ensures var r := WriteTags(WriteTags(m, p, Block(n, front)), p + 2 * n, Block(b[p].units - n, back));
      Represents(r, Split(b, p, n, front, back), end)
  {
    hide Shaped, Separate, Chained, Below, Tagged;
    InBounds(m, b, end, p);
    SplitTiled(b, end, p, n, front, back);
    SplitFront(b, p, n, front);
    var b1 := b[p := Block(n, front)];
    TagsWritten(m, b, b1, p);
    TagsWritten(WriteTags(m, p, Block(n, front)), b1, Split(b, p, n, front, back), p + 2 * n);
    EpilogueKept(m, b, end, p, n, front, back);
  }

  lemma SplitFront(b: Blocks, p: int, n: int, front: bool)
    requires Separate(b) && p in b && 0 < n <= b[p].units
    ensures Separate(b[p := Block(n, front)])
  {
  }

  lemma EpilogueKept(m: seq<Word>, b: Blocks, end: int, p: int, n: int, front: bool, back: bool)
    requires Represents(m, b, end) && |m| <= MAX_WORDS && p in b && 1 <= n < b[p].units
    ensures 1 <= p && p + 2 * b[p].units <= |m|
    ensures WriteTags(WriteTags(m, p, Block(n, front)), p + 2 * n, Block(b[p].units - n, back))[end - 1] == Pack(0, true)
  {
    InBounds(m, b, end, p);
  }

  // Tags written inside a free block touch no live payload.
  lemma InsideFree(m: seq<Word>, b: Blocks, p: int, at: int, k: Block)
    requires Separate(b) && p in b && !b[p].alloc && TagOf(k) < 0x1_0000_0000
    requires 1 <= p <= at && 1 <= k.units && at + 2 * k.units <= p + 2 * b[p].units <= |m|
    ensures PayloadsKept(m, WriteTags(m, at, k), b, 0)
  {
  }

  lemma SplitKeeps(m: seq<Word>, b: Blocks, end: int, p: int, n: int, front: bool, back: bool)
    requires Represents(m, b, end) && |m| <= MAX_WORDS && p in b && p != PROLOGUE && !b[p].alloc
    requires MIN_UNITS <= n <= b[p].units - MIN_UNITS
    ensures 1 <= p && p + 2 * b[p].units <= |m|
    ensures PayloadsKept(m, WriteTags(WriteTags(m, p, Block(n, front)), p + 2 * n, Block(b[p].units - n, back)), b, 0)
  {
    var r := WriteTags(m, p, Block(n, front));
    InsideFree(m, b, p, p, Block(n, front));
    InsideFree(r, b, p, p + 2 * n, Block(b[p].units - n, back));
  }

  lemma FrontTagged(m: seq<Word>, b: Blocks, end: int, p: int, n: int)
    requires Represents(m, b, end) && |m| <= MAX_WORDS && p in b && !b[p].alloc && MIN_UNITS <= n <= b[p].units
    ensures 1 <= p && p + 2 * b[p].units <= |m|
    ensures var r := FrontImage(m, p, b[p].units, n);
      Represents(r, FrontPlaced(b, p, n), end) && PayloadsKept(m, r, b, 0)
  {
    hide Shaped, Separate, Chained, Below, Tagged, PayloadsKept, WriteTags;
    InBounds(m, b, end, p);
    if b[p].units - n < MIN_UNITS {
      TagTiled(b, end, p, true);
      Rewritten(m, b, Tag(b, p, true), end, p);
      InsideFree(m, b, p, p, Block(b[p].units, true));
    } else {
      SplitTagged(m, b, end, p, n, true, false);
      SplitKeeps(m, b, end, p, n, true, false);
    }
  }

  // ---- Payloads, byte by byte -----------------------------------------------------

  // The n bytes at byte offset to in r are the n bytes at from in m.
  ghost predicate SameBytes(m: seq<Word>, from: int, r: seq<Word>, to: int, n: int) {
    && 0 <= from && from + n <= 4 * |m| && 0 <= to && to + n <= 4 * |r|
    && forall x {:trigger ByteAt(r, x)} :: to <= x < to + n ==> ByteAt(r, x) == ByteAt(m, x - to + from)
  }

  // A payload kept word by word is kept byte by byte.
  lemma KeptBytes(m: seq<Word>, r: seq<Word>, b: Blocks, except: int, p: int, n: int)
    requires PayloadsKept(m, r, b, except) && LiveAt(b, p) && p != except && 0 <= n <= 8 * b[p].units - 8
    requires 0 <= p && p + 2 * b[p].units <= |m|
    ensures SameBytes(m, 4 * p, r, 4 * p, n)
  {
    forall x | 4 * p <= x < 4 * p + n ensures ByteAt(r, x) == ByteAt(m, x) {
      assert p <= x / 4 < p + 2 * b[p].units - 2;
    }
  }

  // Writing n bytes into the payload of the live block at p leaves tags and other payloads alone.
  lemma WithinPayload(m: seq<Word>, r: seq<Word>, b: Blocks, end: int, p: int, n: int)
    requires Represents(m, b, end) && LiveAt(b, p) && 0 <= n <= 8 * b[p].units - 8
    requires SameWordsOutside(m, r, 4 * p, 4 * p + n)
    ensures Represents(r, b, end) && PayloadsKept(m, r, b, p)
  {
    assert p + 2 * b[p].units <= end;
    forall w | 0 <= w < |m| && (w < p || p + 2 * b[p].units - 2 <= w) ensures r[w] == m[w] {
    }
  }

  // A block of b is moved from p to q: m before, m1 with q live as well (tiling c),
  // m2 after copying n bytes, m3 after freeing p.
  lemma Moved(m: seq<Word>, m1: seq<Word>, m2: seq<Word>, m3: seq<Word>, b: Blocks, c: Blocks,
              p: int, q: int, n: int, k: int)
    requires SameLive(b, c, q) && LiveAt(b, p) && LiveAt(c, q) && !LiveAt(b, q)
    requires 2 <= p && p + 2 * b[p].units <= |m| && 2 <= q && q + 2 * c[q].units <= |m| && 0 !in b
    requires PayloadsKept(m, m1, b, 0) && PayloadsKept(m1, m2, c, q) && PayloadsKept(m2, m3, c, p)
    requires 0 <= k <= n && k <= 8 * b[p].units - 8 && n <= 8 * c[q].units - 8 && 4 * p + n <= 4 * |m|
    requires Copied(m1, m2, 4 * q, 4 * p, n)
    ensures PayloadsKept(m, m3, b, p) && SameBytes(m, 4 * p, m3, 4 * q, k)
  {
    forall x, w | x in b && b[x].alloc && x != p && x <= w < x + 2 * b[x].units - 2 && 0 <= w < |m|
      ensures m3[w] == m[w]
    {
      assert LiveAt(b, x) && m1[w] == m[w];
      assert x in c && m2[w] == m1[w];
    }
    KeptBytes(m, m1, b, 0, p, k);
    KeptBytes(m2, m3, c, p, q, k);
    forall x | 4 * q <= x < 4 * q + k ensures ByteAt(m3, x) == ByteAt(m, x - 4 * q + 4 * p) {
      assert ByteAt(m3, x) == ByteAt(m2, x);
      assert ByteAt(m2, x) == ByteAt(m1, x - 4 * q + 4 * p);
      assert ByteAt(m1, x - 4 * q + 4 * p) == ByteAt(m, x - 4 * q + 4 * p);
    }
  }

  // The payload at r can take a copy of up to the whole block at p.
  lemma RoomToCopy(m: seq<Word>, b: Blocks, end: int, p: int, r: int, n: int)
    requires Represents(m, b, end) && p in b && r in b && p != r
    requires 0 <= n <= 8 * b[p].units && n <= 8 * b[r].units - 8
    ensures 0 <= 4 * r && 4 * r + n <= 4 * |m| && 0 <= 4 * p && 4 * p + n <= 4 * |m|
    ensures 4 * r + n <= 4 * p || 4 * p + n <= 4 * r
  {
  }

  // A free block of n units at the old brk, and the epilogue moved up behind it.
  function AppendImage(m: seq<Word>, end: int, n: int): seq<Word>
    requires 1 <= end && 1 <= n && end + 2 * n <= |m| && 8 * n < 0x1_0000_0000
  {
    WriteTags(m, end, Block(n, false))[end + 2 * n - 1 := Pack(0, true)]
  }

  // A size of 2^31 bytes and more turns negative in the parameter of mem_sbrk.
  lemma SizeAsInt(n: int)
    requires 0 <= n < 0x2000_0000
    ensures ToInt(8 * n) == (if n < 0x1000_0000 then 8 * n else 8 * (n - 0x2000_0000)) && ToInt(8 * n) % 4 == 0
  {
    var k := if n < 0x1000_0000 then 2 * n else 2 * (n - 0x2000_0000);
    assert ToInt(8 * n) == 4 * k;
    TimesFour(k);
  }

  lemma TimesFour(k: int)
    ensures 4 * k % 4 == 0
  {
  }

  // The part of extend_heap before coalescing: sbrk, then the tags of the new
  // space and the new epilogue, found through the header just written.
  method AppendFree(mem: Memory, words: int) returns (bp: int)
    requires mem.Valid() && 4 <= words < 0x3FFF_FFFF && 4 <= mem.brk
    modifies mem, mem.words
    ensures mem.Valid()
    ensures var n := (words + 1) / 2;
      if mem.words.Length < old(mem.brk) + 2 * n then
        bp == -1 && mem.brk == old(mem.brk) && mem.words[..] == old(mem.words[..])
      else
        && bp == old(mem.brk) && mem.brk == old(mem.brk) + 2 * n
        && mem.words[..] == AppendImage(old(mem.words[..]), bp, n)
  {
    var size := if words % 2 != 0 then (words + 1) * WSIZE else words * WSIZE;
    ghost var n := (words + 1) / 2;
    assert size == 8 * n;
    SizeAsInt(n);
    bp := mem.Sbrk(ToInt(size));
    if bp != -1 {
      TagBlock(mem, bp, size, false);
      ReadTag(mem.words[bp - 1], Block(n, false));
      mem.Put(Hdrp(NextBlkp(mem.words[..], bp)), Pack(0, true));
    }
  }

  lemma AppendTagged(m: seq<Word>, b: Blocks, end: int, n: int)
    requires Represents(m, b, end) && |m| <= MAX_WORDS && MIN_UNITS <= n && end + 2 * n <= |m|
    ensures Represents(AppendImage(m, end, n), b[end := Block(n, false)], end + 2 * n)
    ensures PayloadsKept(m, AppendImage(m, end, n), b, 0)
  {
    AppendTiled(b, end, n, false);
    AtEpilogue(m, b, end);
  }

  // ---- Coalescing, word by word -------------------------------------------------

  // The tags around the free block of `units` units at p: `before` and `behind`
  // are its neighbours, the epilogue counting as a live block of no size.
  ghost predicate Around(m: seq<Word>, p: int, units: int, before: Block, behind: Block) {
    && 1 <= before.units && 2 <= p - 2 * before.units
    && 1 <= units
    && 0 <= behind.units && p + 2 * units + 2 * behind.units <= |m|
    && (!behind.alloc ==> 1 <= behind.units)
    && Reads(m[p - 2 * before.units - 1], before) && Reads(m[p - 2], before)
    && m[p - 1] == m[p + 2 * units - 2] == TagOf(Block(units, false)) && Reads(m[p - 1], Block(units, false))
    && Reads(m[p + 2 * units - 1], behind)
  }

  ghost function Behind(b: Blocks, r: int): Block {
    if r in b then b[r] else Block(0, true)
  }

  lemma AroundFree(m: seq<Word>, b: Blocks, end: int, p: int)
    requires Represents(m, b, end) && p in b && p != PROLOGUE && !b[p].alloc
    ensures HasPrev(b, p) && Around(m, p, b[p].units, b[Prev(b, p)], Behind(b, Next(b, p)))
  {
    Backward(m, b, end, p);
    var q, r := Prev(b, p), Next(b, p);
    ReadTag(m[q - 1], b[q]);
    ReadTag(m[p - 2], b[q]);
    ReadTag(m[p - 1], b[p]);
    if r in b {
      ReadTag(m[r - 1], b[r]);
    } else {
      AtEpilogue(m, b, end);
      assert r == end;
    }
  }

  // The first word and the length of the free block that coalescing leaves.
  function SpanStart(p: int, before: Block): int {
    if before.alloc then p else p - 2 * before.units
  }

  function SpanUnits(units: int, before: Block, behind: Block): int {
    (if before.alloc then 0 else before.units) + units + (if behind.alloc then 0 else behind.units)
  }

  lemma SpanIsCoalesced(b: Blocks, end: int, p: int)
    requires Tiled(b, end) && p in b && p != PROLOGUE && !b[p].alloc && IsolatedExcept(b, p) && HasPrev(b, p)
    ensures var before, behind := b[Prev(b, p)], Behind(b, Next(b, p));
      var at := SpanStart(p, before);
      && at == CoalescedAt(b, p) && at in Coalesced(b, p)
      && Coalesced(b, p)[at] == Block(SpanUnits(b[p].units, before, behind), false)
      && forall x :: x in Coalesced(b, p) && x != at ==> x in b && Coalesced(b, p)[x] == b[x]
  {
    assert Next(b, Prev(b, p)) == p;
  }

  // New space of k units joins the last block of the heap if that is free.
  lemma AppendedSpan(b: Blocks, end: int, k: int, last: int)
    requires Tiled(b, end) && Isolated(b) && k >= MIN_UNITS && last in b && Next(b, last) == end
    ensures var c := b[end := Block(k, false)];
      && Shaped(c) && end in c && HasPrev(c, end)
      && var at := if b[last].alloc then end else last;
      && CoalescedAt(c, end) == at
      && Coalesced(c, end) == (b - {at})[at := Block(if b[last].alloc then k else b[last].units + k, false)]
  {
    AppendTiled(b, end, k, false);
    var c := b[end := Block(k, false)];
    assert Next(c, last) == end && Next(c, end) == end + 2 * k;
    PrevIsUnique(c, end, last);
    assert Next(c, end) !in c;
  }

  // Everything `coalesce` relies on and brings about.
  lemma SpanTagged(m: seq<Word>, b: Blocks, end: int, p: int)
    requires Represents(m, b, end) && |m| <= MAX_WORDS
    requires p in b && p != PROLOGUE && !b[p].alloc && IsolatedExcept(b, p)
    ensures HasPrev(b, p) && Around(m, p, b[p].units, b[Prev(b, p)], Behind(b, Next(b, p)))
    ensures var at := CoalescedAt(b, p);
      var k := Block(SpanUnits(b[p].units, b[Prev(b, p)], Behind(b, Next(b, p))), false);
      && at == SpanStart(p, b[Prev(b, p)]) && at in Coalesced(b, p) && Coalesced(b, p)[at] == k
      && 1 <= at && 1 <= k.units && at + 2 * k.units <= |m| && TagOf(k) < 0x1_0000_0000
      && Represents(WriteTags(m, at, k), Coalesced(b, p), end) && Isolated(Coalesced(b, p))
      && PayloadsKept(m, WriteTags(m, at, k), b, 0)
  {
    AroundFree(m, b, end, p);
    SpanIsCoalesced(b, end, p);
    CoalescedIsolated(b, end, p);
    CoalescedKeeps(b, end, p);
    var at, c := CoalescedAt(b, p), Coalesced(b, p);
    assert at + 2 * c[at].units <= end;
    Rewritten(m, b, c, end, at);
    PayloadsUnderTags(m, b, c, at, 0);
  }
}
