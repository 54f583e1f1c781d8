// The block structure of a heap, seen apart from the words that encode it.
//
// Addresses are counted in 4-byte words from the start of the heap, so that the
// header of the block at p is word p-1; block sizes, headers and footers
// included, are counted in units of 8 bytes, the alignment.  A tiling is a map
// from payload addresses to blocks; the prologue is the block at PROLOGUE, and
// `end` is the address just above the epilogue header, which is also the brk.
module Tiling {
  import opened Words

  const PROLOGUE := 2
  const MIN_UNITS := 2
  const CHUNK_UNITS := CHUNKSIZE / DSIZE

  datatype Block = Block(units: int, alloc: bool)

  type Blocks = map<int, Block>

  // The address of the block behind the one at p (NEXT_BLKP).
  function Next(b: Blocks, p: int): int
    requires p in b
  {
    p + 2 * b[p].units
  }

  ghost predicate Shaped(b: Blocks) {
    forall p :: p in b ==>
      if p == PROLOGUE then b[p] == Block(1, true)
      else p >= 4 && p % 2 == 0 && b[p].units >= MIN_UNITS
  }

  ghost predicate Separate(b: Blocks) {
    forall p, q :: p in b && q in b && p < q ==> p + 2 * b[p].units <= q
  }

  ghost predicate Chained(b: Blocks, end: int) {
    forall p {:trigger Next(b, p)} :: p in b ==> Next(b, p) == end || Next(b, p) in b
  }

  ghost predicate Below(b: Blocks, end: int) {
    forall p :: p in b ==> p + 2 * b[p].units <= end
  }

  // The blocks fill the heap from the prologue to the epilogue, without gap or overlap.
  ghost predicate Tiled(b: Blocks, end: int) {
    && PROLOGUE in b
    && end % 2 == 0
    && Shaped(b) && Separate(b) && Below(b, end) && Chained(b, end)
  }

  // No two neighbouring blocks are both free.
  ghost predicate Isolated(b: Blocks) {
    forall p {:trigger Next(b, p)} :: p in b && Next(b, p) in b ==> b[p].alloc || b[Next(b, p)].alloc
  }

  // The same, except that the block at p may have free neighbours.
  ghost predicate IsolatedExcept(b: Blocks, p: int) {
    forall x {:trigger Next(b, x)} :: x in b && Next(b, x) in b && x != p && Next(b, x) != p ==>
      b[x].alloc || b[Next(b, x)].alloc
  }

  predicate LiveAt(b: Blocks, p: int) {
    p in b && b[p].alloc
  }

  // b and c have the same live blocks, `except` left aside.
  ghost predicate SameLive(b: Blocks, c: Blocks, except: int) {
    forall p :: p != except && (LiveAt(b, p) || LiveAt(c, p)) ==> p in b && p in c && b[p] == c[p]
  }

  // The live block at p of b has become one at q of c; all other live blocks are the same.
  ghost predicate Replaced(b: Blocks, c: Blocks, p: int, q: int) {
    && LiveAt(c, q) && (q != p ==> !LiveAt(b, q) && !LiveAt(c, p))
    && forall x :: x != p && x != q && (LiveAt(b, x) || LiveAt(c, x)) ==> x in b && x in c && b[x] == c[x]
  }

  // ---- Neighbours ---------------------------------------------------------

  ghost predicate HasPrev(b: Blocks, p: int) {
    exists q :: q in b && Next(b, q) == p
  }

  ghost function Prev(b: Blocks, p: int): (q: int)
    requires HasPrev(b, p)
    ensures q in b && Next(b, q) == p
  {
    var q :| q in b && Next(b, q) == p;
    q
  }

  // Every block but the prologue has a block before it: the walk from an
  // earlier block cannot jump over p.
  lemma {:induction false} WalkReaches(b: Blocks, end: int, from: int, p: int)
    requires Tiled(b, end) && from in b && from < p && (p in b || p == end)
    ensures HasPrev(b, p)
    decreases p - from
  {
    var n := Next(b, from);
    if n != p {
      WalkReaches(b, end, n, p);
    }
  }

  lemma PrevIsUnique(b: Blocks, p: int, q: int)
    requires Separate(b) && q in b && Next(b, q) == p && b[q].units > 0
    requires forall x :: x in b ==> b[x].units > 0
    ensures HasPrev(b, p) && Prev(b, p) == q
  {
  }

  // ---- Requests ---------------------------------------------------------------

  // The size, in units of 8 bytes, of the block that serves a request of `size` bytes.
  function BlockUnits(size: int): (n: int)
    requires 0 < size
    ensures if size <= 8 then n == 2 else size + 8 <= 8 * n < size + 16
  {
    if size <= DSIZE then MIN_UNITS else (size + DSIZE + DSIZE - 1) / DSIZE
  }

  predicate Fits(b: Blocks, p: int, n: int) {
    p in b && !b[p].alloc && b[p].units >= n
  }

  // ---- Operations on tilings ------------------------------------------------

  function Tag(b: Blocks, p: int, alloc: bool): Blocks
    requires p in b
  {
    b[p := Block(b[p].units, alloc)]
  }

  // The block at p takes in the block behind it.
  function Merge(b: Blocks, p: int): Blocks
    requires p in b && Next(b, p) in b
  {
    (b - {Next(b, p)})[p := Block(b[p].units + b[Next(b, p)].units, b[p].alloc)]
  }

  function Split(b: Blocks, p: int, n: int, front: bool, back: bool): Blocks
    requires p in b
  {
    b[p := Block(n, front)][p + 2 * n := Block(b[p].units - n, back)]
  }

  lemma TagTiled(b: Blocks, end: int, p: int, alloc: bool)
    requires Tiled(b, end) && p in b && p != PROLOGUE
    ensures Tiled(Tag(b, p, alloc), end)
  {
    var c := Tag(b, p, alloc);
    forall x | x in c ensures Next(c, x) == end || Next(c, x) in c {
      assert Next(c, x) == Next(b, x);
    }
  }

  lemma MergeTiled(b: Blocks, end: int, p: int)
    requires Tiled(b, end) && p in b && p != PROLOGUE && Next(b, p) in b
    ensures Tiled(Merge(b, p), end)
  {
    var c := Merge(b, p);
    var q := Next(b, p);
    forall x | x in c ensures Next(c, x) == end || Next(c, x) in c {
      if x == p {
        assert Next(c, p) == Next(b, q);
      } else {
        assert Next(c, x) == Next(b, x);
      }
    }
  }

  lemma SplitTiled(b: Blocks, end: int, p: int, n: int, front: bool, back: bool)
    requires Tiled(b, end) && p in b && p != PROLOGUE
    requires MIN_UNITS <= n <= b[p].units - MIN_UNITS
    ensures Tiled(Split(b, p, n, front, back), end)
  {
    hide Separate, Chained;
    SplitSeparate(b, p, n, front, back);
    SplitChained(b, end, p, n, front, back);
  }

  lemma SplitChained(b: Blocks, end: int, p: int, n: int, front: bool, back: bool)
    requires Chained(b, end) && p in b && p + 2 * n !in b && n > 0
    ensures Chained(Split(b, p, n, front, back), end)
  {
    var c := Split(b, p, n, front, back);
    forall x | x in c ensures Next(c, x) == end || Next(c, x) in c {
      if x == p + 2 * n {
        assert Next(c, x) == Next(b, p);
      } else if x != p {
        assert Next(c, x) == Next(b, x);
      }
    }
  }

  lemma SplitSeparate(b: Blocks, p: int, n: int, front: bool, back: bool)
    requires Shaped(b) && Separate(b) && p in b
    requires MIN_UNITS <= n <= b[p].units - MIN_UNITS
    ensures p + 2 * n !in b
    ensures Separate(Split(b, p, n, front, back))
  {
    assert forall x :: x in b && x < p ==> x + 2 * b[x].units <= p;
    assert forall x :: x in b && p < x ==> p + 2 * b[p].units <= x;
  }

  lemma AppendTiled(b: Blocks, end: int, n: int, alloc: bool)
    requires Tiled(b, end) && n >= MIN_UNITS
    ensures end !in b
    ensures Tiled(b[end := Block(n, alloc)], end + 2 * n)
  {
    assert Next(b, PROLOGUE) == 4;
    var c := b[end := Block(n, alloc)];
    forall x | x in c ensures Next(c, x) == end + 2 * n || Next(c, x) in c {
      if x != end {
        assert Next(c, x) == Next(b, x);
      }
    }
  }

  lemma AppendedIsolated(b: Blocks, end: int, n: int)
    requires Tiled(b, end) && Isolated(b) && n >= MIN_UNITS
    ensures end != PROLOGUE && Tiled(b[end := Block(n, false)], end + 2 * n)
    ensures IsolatedExcept(b[end := Block(n, false)], end)
  {
    AppendTiled(b, end, n, false);
    var c := b[end := Block(n, false)];
    assert Next(b, PROLOGUE) == 4;
    forall x | x in c && Next(c, x) in c && x != end && Next(c, x) != end
      ensures c[x].alloc || c[Next(c, x)].alloc
    {
      assert Next(c, x) == Next(b, x);
    }
  }

  // ---- Coalescing -----------------------------------------------------------

  function Absorb(b: Blocks, p: int): Blocks
    requires p in b
  {
    if Next(b, p) in b && !b[Next(b, p)].alloc then Merge(b, p) else b
  }

  // Where the free block made out of the block at p starts.
  ghost function CoalescedAt(b: Blocks, p: int): int
    requires p in b && HasPrev(b, p)
  {
    if b[Prev(b, p)].alloc then p else Prev(b, p)
  }

  // The tiling once the free block at p has taken in its free neighbours.
  ghost function Coalesced(b: Blocks, p: int): Blocks
    requires Shaped(b) && p in b && HasPrev(b, p)
  {
    if b[Prev(b, p)].alloc then Absorb(b, p) else Merge(Absorb(b, p), Prev(b, p))
  }

  lemma AbsorbIsolated(b: Blocks, end: int, p: int)
    requires Tiled(b, end) && p in b && p != PROLOGUE && !b[p].alloc && IsolatedExcept(b, p)
    ensures Tiled(Absorb(b, p), end) && p in Absorb(b, p) && !Absorb(b, p)[p].alloc
    ensures IsolatedExcept(Absorb(b, p), p)
    ensures Next(Absorb(b, p), p) in Absorb(b, p) ==> Absorb(b, p)[Next(Absorb(b, p), p)].alloc
  {
    var q := Next(b, p);
    if q in b && !b[q].alloc {
      MergeTiled(b, end, p);
      var c := Merge(b, p);
      assert Next(c, p) == Next(b, q);
      forall x | x in c && Next(c, x) in c && x != p && Next(c, x) != p
        ensures c[x].alloc || c[Next(c, x)].alloc
      {
        assert Next(c, x) == Next(b, x);
      }
    }
  }

  lemma CoalescedIsolated(b: Blocks, end: int, p: int)
    requires Tiled(b, end) && p in b && p != PROLOGUE && !b[p].alloc && IsolatedExcept(b, p)
    ensures HasPrev(b, p)
    ensures var c, at := Coalesced(b, p), CoalescedAt(b, p);
      Tiled(c, end) && Isolated(c) && at != PROLOGUE && at in c && !c[at].alloc
  {
    WalkReaches(b, end, PROLOGUE, p);
    AbsorbIsolated(b, end, p);
    var q, c := Prev(b, p), Absorb(b, p);
    assert Next(c, q) == p;
    if b[q].alloc {
      LiveBefore(c, end, p, q);
    } else {
      MergeTiled(c, end, q);
      FreeAround(b, c, end, p, q);
    }
  }

  // p is the only block with doubtful neighbours, and the one before it is live.
  lemma LiveBefore(c: Blocks, end: int, p: int, q: int)
    requires Tiled(c, end) && p in c && IsolatedExcept(c, p)
    requires q in c && Next(c, q) == p && c[q].alloc
    requires Next(c, p) in c ==> c[Next(c, p)].alloc
    ensures Isolated(c)
  {
    forall x | x in c && Next(c, x) in c ensures c[x].alloc || c[Next(c, x)].alloc {
      if Next(c, x) == p {
        PrevIsUnique(c, p, q);
        PrevIsUnique(c, p, x);
      }
    }
  }

  lemma FreeAround(b: Blocks, c: Blocks, end: int, p: int, q: int)
    requires Tiled(b, end) && p in b && IsolatedExcept(b, p)
    requires q in b && Next(b, q) == p && !b[q].alloc && q != PROLOGUE
    requires Tiled(c, end) && p in c && IsolatedExcept(c, p) && c == Absorb(b, p)
    requires q in c && Next(c, q) == p
    requires Next(c, p) in c ==> c[Next(c, p)].alloc
    ensures Isolated(Merge(c, q))
  {
    var d := Merge(c, q);
    assert Next(d, q) == Next(c, p);
    forall x | x in d && Next(d, x) in d ensures d[x].alloc || d[Next(d, x)].alloc {
      if x != q {
        assert Next(d, x) == Next(c, x);
        if Next(c, x) == q {
          assert Next(b, x) == q;
        }
      }
    }
  }

  lemma CoalescedKeeps(b: Blocks, end: int, p: int)
    requires Tiled(b, end) && p in b && p != PROLOGUE && !b[p].alloc && HasPrev(b, p)
    ensures SameLive(b, Coalesced(b, p), 0)
  {
    hide Separate, Below, Chained;
  }

  // A live block, tagged free, is ready to be coalesced.
  lemma FreedIsolated(b: Blocks, end: int, p: int)
    requires Tiled(b, end) && Isolated(b) && LiveAt(b, p) && p != PROLOGUE
    ensures Tiled(Tag(b, p, false), end) && IsolatedExcept(Tag(b, p, false), p) && SameLive(b, Tag(b, p, false), p)
  {
    TagTiled(b, end, p, false);
    var c := Tag(b, p, false);
    forall x | x in c && Next(c, x) in c && x != p && Next(c, x) != p
      ensures c[x].alloc || c[Next(c, x)].alloc
    {
      assert Next(c, x) == Next(b, x);
    }
  }

  // ---- Whole-heap consequences ----------------------------------------------

  // Once nothing but the prologue is live, the heap is one free block.
  lemma AllFree(b: Blocks, end: int)
    requires Tiled(b, end) && Isolated(b) && end > 4
    requires forall p :: p in b && p != PROLOGUE ==> !b[p].alloc
    ensures b == map[PROLOGUE := Block(1, true), 4 := Block((end - 4) / 2, false)]
  {
    assert Next(b, PROLOGUE) == 4;
    assert 4 in b && !b[4].alloc && Next(b, 4) == end;
    forall x | x in b ensures x == PROLOGUE || x == 4 {
      assert x > 4 ==> Next(b, 4) <= x;
    }
  }

  // ---- Conservation -----------------------------------------------------------

  ghost function Total(b: Blocks): int
    decreases |b|
  {
    if exists p :: p in b then
      var p :| p in b;
      b[p].units + Total(b - {p})
    else 0
  }

  // The choice made by Total does not matter.
  lemma {:induction false} TotalPick(b: Blocks, p: int)
    requires p in b
    ensures Total(b) == b[p].units + Total(b - {p})
    decreases |b|
  {
    var q :| q in b && Total(b) == b[q].units + Total(b - {q});
    if q != p {
      TotalPick(b - {q}, p);
      TotalPick(b - {p}, q);
      assert b - {q} - {p} == b - {p} - {q};
    }
  }

  // Without its last block a tiling is a tiling up to that block.
  lemma DropLast(b: Blocks, end: int)
    requires Tiled(b, end)
    ensures HasPrev(b, end)
    ensures var p := Prev(b, end);
      if p == PROLOGUE then end == 4 && b.Keys == {PROLOGUE} else Tiled(b - {p}, p)
  {
    WalkReaches(b, end, PROLOGUE, end);
    var p := Prev(b, end);
    var c := b - {p};
    if p == PROLOGUE {
      forall x | x in b ensures x == PROLOGUE {
        assert x + 2 * b[x].units <= end;
      }
    } else {
      forall x | x in c ensures Next(c, x) == p || Next(c, x) in c {
        assert Next(c, x) == Next(b, x);
      }
    }
  }

  // The blocks, prologue included, fill the heap above its padding and prologue header.
  lemma {:induction false} Conservation(b: Blocks, end: int)
    requires Tiled(b, end)
    ensures 2 * Total(b) == end - PROLOGUE
    decreases |b|
  {
    DropLast(b, end);
    var p := Prev(b, end);
    TotalPick(b, p);
    var c := b - {p};
    if p == PROLOGUE {
      assert c == map[];
    } else {
      Conservation(c, p);
    }
  }

  // ---- The heap forgets its history --------------------------------------------

  // The last block of c starts a block of b as well: it is live, or the one before it is.
  lemma LastShared(b: Blocks, c: Blocks, end: int, q: int)
    requires Tiled(b, end) && Tiled(c, end) && Isolated(c) && SameLive(b, c, 0)
    requires q in c && Next(c, q) == end
    ensures q in b
  {
    if q != PROLOGUE {
      WalkReaches(c, end, PROLOGUE, q);
      var x := Prev(c, q);
      assert LiveAt(c, q) || (LiveAt(c, x) && Next(b, x) == q);
    }
  }

  lemma LiveBothWays(b: Blocks, c: Blocks)
    requires SameLive(b, c, 0)
    ensures SameLive(c, b, 0)
  {
  }

  lemma LastDropped(b: Blocks, c: Blocks, end: int, p: int, q: int)
    requires Tiled(b, end) && Tiled(c, end) && SameLive(b, c, 0)
    requires p in b && Next(b, p) == end && p in c && q in c && Next(c, q) == end && q in b
    ensures p == q && b[p] == c[p] && SameLive(b - {p}, c - {p}, 0)
  {
    assert b[p].units > 0 && c[p].units > 0 && c[q].units > 0;
    assert LiveAt(b, p) || LiveAt(c, p) || b[p] == c[p];
  }

  lemma DroppedIsolated(b: Blocks, p: int)
    requires Isolated(b)
    ensures Isolated(b - {p})
  {
    var c := b - {p};
    forall x | x in c && Next(c, x) in c ensures c[x].alloc || c[Next(c, x)].alloc {
      assert Next(c, x) == Next(b, x);
    }
  }

  // With its free blocks merged, a heap depends only on its live blocks and its brk.
  lemma {:induction false} LiveDetermine(b: Blocks, c: Blocks, end: int)
    requires Tiled(b, end) && Isolated(b) && Tiled(c, end) && Isolated(c) && SameLive(b, c, 0)
    ensures b == c
    decreases |b|
  {
    hide Shaped, Separate, Chained, Below, Isolated, SameLive;
    DropLast(b, end);
    DropLast(c, end);
    var p, q := Prev(b, end), Prev(c, end);
    LiveBothWays(b, c);
    LastShared(b, c, end, q);
    LastShared(c, b, end, p);
    LastDropped(b, c, end, p, q);
    if p != PROLOGUE {
      DroppedIsolated(b, p);
      DroppedIsolated(c, p);
      LiveDetermine(b - {p}, c - {p}, p);
    }
    assert b == (b - {p})[p := b[p]] && c == (c - {p})[p := c[p]];
  }

  // A block that comes and goes leaves no trace.
  lemma ComesAndGoes(b: Blocks, c: Blocks, d: Blocks, end: int, p: int)
    requires Tiled(b, end) && Isolated(b) && Tiled(d, end) && Isolated(d)
    requires SameLive(b, c, p) && !LiveAt(b, p) && SameLive(c, d, p) && !LiveAt(d, p)
    ensures b == d
  {
    forall x | LiveAt(b, x) || LiveAt(d, x) ensures x in b && x in d && b[x] == d[x] {
      assert LiveAt(c, x);
    }
    LiveDetermine(b, d, end);
  }
}
