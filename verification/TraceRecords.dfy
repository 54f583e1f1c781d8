// The records that malloc/malloc-package/mdriver.c keeps while it runs a trace: the
// list of payload ranges and the arrays of pointers and sizes.
module TraceRecords {
  import opened Words
  import opened MemLib
  import opened Tiling
  import opened BoundaryTags
  import opened TraceLedger

  class Records {
    const mem: Memory
    const ptrs: array<Word>
    const sizes: array<Word>
    var ranges: seq<Range>
    ghost var books: Ledger

    constructor (mem: Memory, numIds: int)
      requires 0 <= numIds && mem.words.Length <= MAX_WORDS
      ensures this.mem == mem && fresh(ptrs) && fresh(sizes)
      ensures ptrs.Length == sizes.Length == numIds && Separated()
    {
      this.mem := mem;
      ptrs := new Word[numIds](_ => 0);
      sizes := new Word[numIds](_ => 0);
      ranges, books := [], Ledger(map[], map[]);
    }

    ghost predicate Separated() {
      && ptrs != sizes && ptrs != mem.words && sizes != mem.words && ptrs.Length == sizes.Length
      && mem.words.Length <= MAX_WORDS
    }

    // The range list, the arrays and the bytes in the payloads agree with the ledger.
    ghost predicate InOrder()
      reads this, mem.words, ptrs, sizes
    {
      && Separated()
      && Listed(ranges, books.held) && Recorded(books, ptrs[..], sizes[..]) && Filled(mem.words[..], books.held)
    }

    // Adds the range of a payload; false, and no change, if it fails a test.
    method AddRange(lo: int, size: int) returns (ok: bool)
      requires 0 < size
      modifies this`ranges
      ensures ok <==>
        && lo % 8 == 0
        && 0 <= lo <= 4 * mem.brk - 1 && 0 <= lo + size - 1 <= 4 * mem.brk - 1
        && forall r :: r in old(ranges) ==> !Hits(r, lo, lo + size - 1)
      ensures ranges == if ok then [Range(lo, lo + size - 1)] + old(ranges) else old(ranges)
    {
      var hi := lo + size - 1;
      if lo % 8 != 0 {
        return false;
      }
      if lo < 0 || lo > 4 * mem.brk - 1 || hi < 0 || hi > 4 * mem.brk - 1 {
        return false;
      }
      for i := 0 to |ranges|
        invariant forall j :: 0 <= j < i ==> !Hits(ranges[j], lo, hi)
      {
        var p := ranges[i];
        if (lo >= p.lo && lo <= p.hi) || (hi >= p.lo && hi <= p.hi) {
          assert p in ranges && Hits(p, lo, hi);
          return false;
        }
      }
      ranges := [Range(lo, hi)] + ranges;
      return true;
    }

    // Drops the first range that starts at lo.
    method RemoveRange(lo: int)
      modifies this`ranges
      ensures ranges == Without(old(ranges), lo)
    {
      var i := 0;
      while i < |ranges|
        invariant 0 <= i <= |ranges| && ranges == old(ranges)
        invariant Without(ranges, lo) == ranges[..i] + Without(ranges[i..], lo)
      {
        if ranges[i].lo == lo {
          ranges := ranges[..i] + ranges[i + 1..];
          return;
        }
        assert Without(ranges[i..], lo) == [ranges[i]] + Without(ranges[i + 1..], lo);
        i := i + 1;
      }
    }

    method ClearRanges()
      modifies this`ranges
      ensures ranges == []
    {
      while ranges != []
        decreases |ranges|
      {
        ranges := ranges[1..];
      }
    }

    // Before the first operation of a trace.
    method Clear()
      requires Separated()
      modifies this`ranges, this`books
      ensures books == Ledger(map[], map[]) && InOrder()
    {
      ClearRanges();
      books := Ledger(map[], map[]);
    }

    // Whether the n bytes from byte offset `at` all read as v.
    method CheckBytes(at: int, n: int, v: int, signedChar: bool) returns (same: bool)
      requires 0 <= at && 0 <= n && at + n <= 4 * mem.words.Length
      ensures same <==> forall a :: at <= a < at + n ==> CharValue(ByteAt(mem.words[..], a), signedChar) == v
    {
      for j := 0 to n
        invariant forall a :: at <= a < at + j ==> CharValue(ByteAt(mem.words[..], a), signedChar) == v
      {
        var b := GetByte(mem.words[(at + j) / 4], (at + j) % 4);
        assert b == ByteAt(mem.words[..], at + j);
        if CharValue(b, signedChar) != v {
          return false;
        }
      }
      return true;
    }

    // Fills the payload at p with the low byte of id and notes where id is.  The
    // live block at p is one of tiling b.
    method Remember(id: int, p: int, size: int, ghost b: Blocks)
      requires Separated() && Represents(mem.words[..], b, mem.brk) && 0 <= id < ptrs.Length
      requires Recorded(books, ptrs[..], sizes[..]) && Filled(mem.words[..], books.held)
      requires Elsewhere(b, books.held, p) && LiveAt(b, p) && Roomy(b[p], size) && size <= INT_MAX
      modifies this`books, mem.words, ptrs, sizes
      ensures books == Entered(old(books), id, p, size) && Represents(mem.words[..], b, mem.brk)
      ensures Recorded(books, ptrs[..], sizes[..]) && Filled(mem.words[..], books.held)
      ensures SameWordsOutside(old(mem.words[..]), mem.words[..], 4 * p, 4 * p + size)
    {
      hide Represents, Filled, Recorded, Elsewhere;
      ghost var m, k := mem.words[..], Lease(size, id % 256);
      InBounds(m, b, mem.brk, p);
      NotHeld(b, books.held, p);
      mem.FillBytes(4 * p, id % 256, size);
      LeaseFilled(m, mem.words[..], b, mem.brk, books.held, p, k);
      RecordedEntered(books, ptrs[..], sizes[..], id, p, size);
      ptrs[id] := p;
      sizes[id] := size;
      books := Entered(books, id, p, size);
    }

    // After mm_malloc has returned p for request id; all blocks held are elsewhere.
    method Admit(id: int, p: int, size: int, ghost b: Blocks) returns (ok: bool)
      requires InOrder() && Represents(mem.words[..], b, mem.brk) && 0 <= id < ptrs.Length
      requires Elsewhere(b, books.held, p) && LiveAt(b, p) && Roomy(b[p], size) && size <= INT_MAX
      modifies this, mem.words, ptrs, sizes
      ensures ok && InOrder() && books == Entered(old(books), id, p, size) && Represents(mem.words[..], b, mem.brk)
      ensures SameWordsOutside(old(mem.words[..]), mem.words[..], 4 * p, 4 * p + size)
    {
      hide Represents, Filled, Listed, Recorded, Elsewhere, Tiled;
      PassesTests(mem.words[..], b, mem.brk, ranges, books.held, p, size);
      ok := AddRange(4 * p, size);
      assert ok;
      RangeAdded(old(ranges), books.held, p, Lease(size, id % 256));
      Remember(id, p, size, b);
    }

    // After mm_realloc has returned q for request id, which was at p: its old bytes
    // are at q, and all other blocks held are elsewhere and keep their bytes.
    method Readmit(id: int, p: int, q: int, size: int, signedChar: bool, ghost b: Blocks) returns (ok: bool)
      requires Separated() && Represents(mem.words[..], b, mem.brk) && 0 <= id < ptrs.Length
      requires Listed(ranges, books.held) && Recorded(books, ptrs[..], sizes[..]) && Named(books)
      requires id in books.at && p == books.at[id] && p in books.held && 0 < books.held[p].size
      requires Elsewhere(b, books.held - {p}, q) && Filled(mem.words[..], books.held - {p})
      requires LiveAt(b, q) && Roomy(b[q], size) && size <= INT_MAX
      requires forall a :: 4 * q <= a < 4 * q + Smaller(size, books.held[p].size) && 0 <= a < 4 * mem.words.Length ==>
        ByteAt(mem.words[..], a) == id % 256
      modifies this, mem.words, ptrs, sizes
      ensures if Misread(Op.Realloc(id, size), signedChar) then !ok
        else
          && ok && InOrder() && books == Amended(old(books), id, q, size) && Represents(mem.words[..], b, mem.brk)
          && SameWordsOutside(old(mem.words[..]), mem.words[..], 4 * q, 4 * q + size)
    {
      hide Represents, Filled, Listed, Recorded, Elsewhere, Tiled, ByteAt, Named;
      ghost var m, held := mem.words[..], books.held - {p};
      RangeRemoved(ranges, books.held, p);
      SizeKept(books, ptrs[..], sizes[..], id);
      RecordedStruck(books, ptrs[..], sizes[..], id);
      PassesTests(m, b, mem.brk, Without(ranges, 4 * p), held, q, size);
      RemoveRange(4 * p);
      ok := AddRange(4 * q, size);
      assert ok;
      RangeAdded(Without(old(ranges), 4 * p), held, q, Lease(size, id % 256));
      var oldsize: int := sizes[id];
      if size < oldsize {
        oldsize := size;
      }
      assert oldsize == Smaller(size, books.held[p].size);
      assert ByteAt(m, 4 * q) == id % 256;
      ok := CheckBytes(4 * q, oldsize, id % 256, signedChar);
      if !ok {
        return;
      }
      books := Struck(books, id);
      Remember(id, q, size, b);
    }

    // Before request id is freed.
    method Dismiss(id: int, p: int)
      requires Separated() && Listed(ranges, books.held) && Recorded(books, ptrs[..], sizes[..]) && Named(books)
      requires id in books.at && p == books.at[id]
      modifies this`ranges, this`books
      ensures books == Struck(old(books), id)
      ensures Listed(ranges, books.held) && Recorded(books, ptrs[..], sizes[..])
    {
      hide Filled, Listed, Recorded, Named;
      RangeRemoved(ranges, books.held, p);
      RecordedStruck(books, ptrs[..], sizes[..], id);
      RemoveRange(4 * p);
      books := Struck(books, id);
    }
  }

  function Smaller(x: int, y: int): int {
    if x < y then x else y
  }

  lemma NotHeld(b: Blocks, held: Leases, p: int)
    requires Elsewhere(b, held, p)
    ensures p !in held
  {
  }

  lemma SizeKept(l: Ledger, ptrs: seq<Word>, sizes: seq<Word>, id: int)
    requires Recorded(l, ptrs, sizes) && id in l.at
    ensures 0 <= id < |ptrs| && id < |sizes| && ptrs[id] == l.at[id]
    ensures l.at[id] in l.held && sizes[id] == l.held[l.at[id]].size
  {
  }

  // What add_range tests, and the bounds of the payload.
  lemma PassesTests(m: seq<Word>, b: Blocks, end: int, rs: seq<Range>, held: Leases, p: int, size: int)
    requires Represents(m, b, end) && Elsewhere(b, held, p) && Listed(rs, held) && LiveAt(b, p) && Roomy(b[p], size)
    ensures 4 * p % 8 == 0 && 0 <= p && 4 * p + size <= 4 * end <= 4 * |m| && p !in held
    ensures forall r :: r in rs ==> !Hits(r, 4 * p, 4 * p + size - 1)
  {
    RangePasses(b, end, rs, held, p, size);
  }
}
