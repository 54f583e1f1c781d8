// What the trace driver of malloc/malloc-package/mdriver.c keeps track of,
// whatever allocator it checks.
module TraceLedger {
  import opened Words
  import opened MemLib
  import opened Tiling
  import opened BoundaryTags

  datatype Op = Alloc(id: int, size: int) | Realloc(id: int, size: int) | Free(id: int)

  // The largest value of the int fields of a trace operation.
  const INT_MAX := 0x7FFF_FFFF

  // ---- Well-formed traces -----------------------------------------------------

  // Sizes are positive, ids are in range, only live ids are freed or reallocated.
  predicate Admissible(op: Op, ids: set<int>, numIds: int) {
    match op
    case Alloc(id, size) => 0 <= id < numIds && 0 < size <= INT_MAX
    case Realloc(id, size) => id in ids && 0 < size <= INT_MAX
    case Free(id) => id in ids
  }

  function IdsAfter(op: Op, ids: set<int>): set<int> {
    match op
    case Alloc(id, _) => ids + {id}
    case Realloc(_, _) => ids
    case Free(id) => ids - {id}
  }

  predicate WellFormed(ops: seq<Op>, ids: set<int>, numIds: int) {
    ops == [] || (Admissible(ops[0], ids, numIds) && WellFormed(ops[1..], IdsAfter(ops[0], ids), numIds))
  }

  // ---- The ledger -------------------------------------------------------------

  // The bytes asked for and the byte they are filled with.
  datatype Lease = Lease(size: int, fill: int)

  type Leases = map<int, Lease>

  // held: every block handed out and not freed, by address; at: where the block of
  // each live id is.  A live id that is allocated again leaves its old block held,
  // without a name.
  datatype Ledger = Ledger(held: Leases, at: map<int, int>)

  function Entered(l: Ledger, id: int, p: int, size: int): Ledger {
    Ledger(l.held[p := Lease(size, id % 256)], l.at[id := p])
  }

  function Struck(l: Ledger, id: int): Ledger
    requires id in l.at
  {
    Ledger(l.held - {l.at[id]}, l.at - {id})
  }

  function Amended(l: Ledger, id: int, q: int, size: int): Ledger
    requires id in l.at
  {
    Entered(Struck(l, id), id, q, size)
  }

  predicate Roomy(k: Block, size: int) {
    0 < size && size + DSIZE <= DSIZE * k.units
  }

  // The live blocks of b are exactly the blocks held, each large enough.
  ghost predicate Housed(b: Blocks, held: Leases) {
    && (forall p :: p in held <==> LiveAt(b, p) && p != PROLOGUE)
    && (forall p :: p in held ==> Roomy(b[p], held[p].size))
  }

  // Every live id has a block of its own, filled with the low byte of the id.
  ghost predicate Named(l: Ledger) {
    && (forall id :: id in l.at ==> l.at[id] in l.held && l.held[l.at[id]].fill == id % 256)
    && (forall i, j :: i in l.at && j in l.at && l.at[i] == l.at[j] ==> i == j)
  }

  ghost predicate Balanced(b: Blocks, l: Ledger) {
    Housed(b, l.held) && Named(l)
  }

  lemma EnteredBalanced(b: Blocks, c: Blocks, l: Ledger, id: int, p: int, size: int)
    requires Balanced(b, l) && SameLive(b, c, p) && !LiveAt(b, p)
    requires LiveAt(c, p) && p != PROLOGUE && Roomy(c[p], size)
    ensures Balanced(c, Entered(l, id, p, size))
  {
    assert p !in l.held;
    forall x | x in l.held ensures LiveAt(c, x) && c[x] == b[x] {
      assert LiveAt(b, x);
    }
  }

  lemma StruckBalanced(b: Blocks, c: Blocks, l: Ledger, id: int)
    requires Balanced(b, l) && id in l.at && SameLive(b, c, l.at[id]) && !LiveAt(c, l.at[id])
    ensures Balanced(c, Struck(l, id))
  {
    forall x | x in l.held && x != l.at[id] ensures LiveAt(c, x) && c[x] == b[x] {
      assert LiveAt(b, x);
    }
  }

  // The block at p has become one at q, which may be the same place.
  lemma AmendedBalanced(b: Blocks, c: Blocks, l: Ledger, id: int, q: int, size: int)
    requires Balanced(b, l) && id in l.at && Replaced(b, c, l.at[id], q) && q != PROLOGUE && Roomy(c[q], size)
    ensures Balanced(c, Amended(l, id, q, size))
  {
    var p := l.at[id];
    assert q != p ==> q !in l.held;
    forall x | x in l.held && x != p ensures LiveAt(c, x) && c[x] == b[x] {
      assert LiveAt(b, x);
    }
  }

  // ---- Payload ranges -----------------------------------------------------------

  // The first and the last byte of a payload.
  datatype Range = Range(lo: int, hi: int)

  function RangeOf(p: int, size: int): Range {
    Range(4 * p, 4 * p + size - 1)
  }

  // The only overlap add_range looks for: an end of [lo, hi] inside r.
  predicate Hits(r: Range, lo: int, hi: int) {
    (r.lo <= lo <= r.hi) || (r.lo <= hi <= r.hi)
  }

  predicate Overlap(r: Range, q: Range) {
    r.lo <= q.hi && q.lo <= r.hi
  }

  predicate Covers(r: Range, a: int) {
    r.lo <= a <= r.hi
  }

  // The overlap that add_range misses is a new range around a listed one.
  lemma HitsMeaning(r: Range, lo: int, hi: int)
    requires r.lo <= r.hi && lo <= hi
    ensures (exists a :: Covers(r, a) && Covers(Range(lo, hi), a)) <==> Hits(r, lo, hi) || (lo < r.lo && r.hi < hi)
    ensures Hits(r, lo, hi) ==> !(lo < r.lo && r.hi < hi)
    ensures Overlap(r, Range(lo, hi)) <==> exists a :: Covers(r, a) && Covers(Range(lo, hi), a)
  {
    if r.lo <= hi && lo <= r.hi {
      var a := if r.lo < lo then lo else r.lo;
      assert Covers(r, a) && Covers(Range(lo, hi), a);
    }
  }

  // The list holds the ranges of the blocks held, each once.
  ghost predicate Listed(rs: seq<Range>, held: Leases) {
    && (forall r :: r in rs ==> r.lo % 4 == 0 && r.lo / 4 in held && r == RangeOf(r.lo / 4, held[r.lo / 4].size))
    && (forall p :: p in held ==> RangeOf(p, held[p].size) in rs)
    && (forall i, j :: 0 <= i < j < |rs| ==> rs[i].lo != rs[j].lo)
  }

  // The list without the first range that starts at lo.
  function Without(rs: seq<Range>, lo: int): seq<Range> {
    if rs == [] then []
    else if rs[0].lo == lo then rs[1..]
    else [rs[0]] + Without(rs[1..], lo)
  }

  lemma {:induction false} WithoutMeaning(rs: seq<Range>, lo: int)
    requires forall i, j :: 0 <= i < j < |rs| ==> rs[i].lo != rs[j].lo
    ensures forall r :: r in Without(rs, lo) <==> r in rs && r.lo != lo
    ensures forall i, j :: 0 <= i < j < |Without(rs, lo)| ==> Without(rs, lo)[i].lo != Without(rs, lo)[j].lo
  {
    if rs != [] {
      assert rs == [rs[0]] + rs[1..];
      if rs[0].lo != lo {
        WithoutMeaning(rs[1..], lo);
        var rest := Without(rs[1..], lo);
        assert forall i :: 0 <= i < |rest| ==> rest[i] in rest;
      }
    }
  }

  // One range goes, the first that starts at lo, and the others keep their order.
  lemma {:induction false} WithoutFirst(rs: seq<Range>, lo: int) returns (k: int)
    ensures 0 <= k <= |rs| && forall i :: 0 <= i < k ==> rs[i].lo != lo
    ensures if k == |rs| then Without(rs, lo) == rs else rs[k].lo == lo && Without(rs, lo) == rs[..k] + rs[k + 1..]
  {
    k := 0;
    if rs != [] && rs[0].lo != lo {
      k := WithoutFirst(rs[1..], lo);
      k := k + 1;
      assert rs == [rs[0]] + rs[1..];
    }
  }

  // The blocks held are live blocks of b, none of them at p.
  ghost predicate Elsewhere(b: Blocks, held: Leases, p: int) {
    forall x :: x in held ==> LiveAt(b, x) && x != p && Roomy(b[x], held[x].size)
  }

  // The other blocks once p has been handed out, or replaced by q.
  lemma StayElsewhere(b: Blocks, c: Blocks, held: Leases, p: int, q: int)
    requires Housed(b, held) && Replaced(b, c, p, q)
    ensures Elsewhere(c, held - {p}, q) && (p in held ==> Elsewhere(b, held - {p}, p))
  {
    forall x | x in held - {p} ensures LiveAt(c, x) && x != q && c[x] == b[x] {
      assert LiveAt(b, x);
    }
  }

  lemma AllElsewhere(b: Blocks, c: Blocks, held: Leases, q: int)
    requires Housed(b, held) && SameLive(b, c, q) && !LiveAt(b, q) && 0 !in b
    ensures Elsewhere(c, held, q) && Elsewhere(b, held, 0)
  {
  }

  // A payload in a block of its own passes every test of add_range.
  lemma RangePasses(b: Blocks, end: int, rs: seq<Range>, held: Leases, p: int, size: int)
    requires Tiled(b, end) && Elsewhere(b, held, p) && Listed(rs, held)
    requires LiveAt(b, p) && Roomy(b[p], size)
    ensures 4 * p % 8 == 0 && 0 <= 4 * p && 4 * p + size <= 4 * end
    ensures forall r :: r in rs ==> !Hits(r, 4 * p, 4 * p + size - 1) && !Overlap(r, RangeOf(p, size))
  {
    assert p + 2 * b[p].units <= end;
    forall r | r in rs ensures !Hits(r, 4 * p, 4 * p + size - 1) && !Overlap(r, RangeOf(p, size)) {
      var x := r.lo / 4;
      assert if x < p then x + 2 * b[x].units <= p else p + 2 * b[p].units <= x;
    }
  }

  // The driver only tests end points, but no two listed ranges overlap.
  lemma RangesDisjoint(b: Blocks, held: Leases, rs: seq<Range>, i: int, j: int)
    requires Separate(b) && Housed(b, held) && Listed(rs, held) && 0 <= i < j < |rs|
    ensures !Overlap(rs[i], rs[j])
  {
    assert rs[i] in rs && rs[j] in rs;
    var p, q := rs[i].lo / 4, rs[j].lo / 4;
    assert if p < q then p + 2 * b[p].units <= q else q + 2 * b[q].units <= p;
  }

  lemma RangeAdded(rs: seq<Range>, held: Leases, p: int, k: Lease)
    requires Listed(rs, held) && p !in held
    ensures Listed([RangeOf(p, k.size)] + rs, held[p := k])
  {
    assert forall i :: 0 <= i < |rs| ==> rs[i] in rs;
  }

  lemma RangeRemoved(rs: seq<Range>, held: Leases, p: int)
    requires Listed(rs, held)
    ensures Listed(Without(rs, 4 * p), held - {p})
  {
    WithoutMeaning(rs, 4 * p);
  }

  // ---- Payload contents ---------------------------------------------------------

  // The payload of every block held is filled with its byte.
  ghost predicate Filled(m: seq<Word>, held: Leases) {
    forall p, a {:trigger held[p], ByteAt(m, a)} ::
      p in held && 4 * p <= a < 4 * p + held[p].size && 0 <= a < 4 * |m| ==> ByteAt(m, a) == held[p].fill
  }

  lemma FilledKept(m: seq<Word>, r: seq<Word>, b: Blocks, end: int, except: int, held: Leases)
    requires Filled(m, held) && PayloadsKept(m, r, b, except) && Elsewhere(b, held, except)
    requires Tiled(b, end) && end <= |m|
    ensures Filled(r, held)
  {
    forall p, a {:trigger held[p], ByteAt(r, a)}
      | p in held && 4 * p <= a < 4 * p + held[p].size && 0 <= a < 4 * |r|
      ensures ByteAt(r, a) == held[p].fill
    {
      assert p + 2 * b[p].units <= end;
      KeptBytes(m, r, b, except, p, held[p].size);
    }
  }

  // r: m with the payload of the live block at p filled; all other blocks are elsewhere.
  lemma LeaseFilled(m: seq<Word>, r: seq<Word>, b: Blocks, end: int, held: Leases, p: int, k: Lease)
    requires Represents(m, b, end) && Elsewhere(b, held, p) && Filled(m, held)
    requires LiveAt(b, p) && Roomy(b[p], k.size) && SameWordsOutside(m, r, 4 * p, 4 * p + k.size)
    requires forall a :: 4 * p <= a < 4 * p + k.size && 0 <= a < 4 * |r| ==> ByteAt(r, a) == k.fill
    ensures Represents(r, b, end) && Filled(r, held[p := k])
  {
    WithinPayload(m, r, b, end, p, k.size);
    FilledKept(m, r, b, end, p, held);
  }

  lemma NothingFilled(m: seq<Word>, l: Ledger)
    requires l.held == map[]
    ensures Filled(m, l.held)
  {
  }

  lemma LessFilled(m: seq<Word>, held: Leases, p: int)
    requires Filled(m, held)
    ensures Filled(m, held - {p})
  {
    forall x, a {:trigger (held - {p})[x], ByteAt(m, a)}
      | x in held - {p} && 4 * x <= a < 4 * x + (held - {p})[x].size && 0 <= a < 4 * |m|
      ensures ByteAt(m, a) == (held - {p})[x].fill
    {
      assert held[x] == (held - {p})[x];
    }
  }

  // The other blocks held, once p has been replaced by q.
  lemma ReallocKept(b: Blocks, c: Blocks, end: int, m: seq<Word>, m1: seq<Word>, held: Leases, p: int, q: int)
    requires Housed(b, held) && Replaced(b, c, p, q) && Filled(m, held) && PayloadsKept(m, m1, b, p) && p in held
    requires Tiled(b, end) && end <= |m|
    ensures Elsewhere(c, held - {p}, q) && Filled(m1, held - {p}) && LiveAt(c, q)
  {
    hide PayloadsKept, Tiled, Housed;
    StayElsewhere(b, c, held, p, q);
    LessFilled(m, held, p);
    FilledKept(m, m1, b, end, p, held - {p});
  }

  // Bytes that were moved with the payload at p.
  lemma MovedFill(m: seq<Word>, r: seq<Word>, held: Leases, p: int, q: int, n: int, k: int)
    requires Filled(m, held) && p in held && SameBytes(m, 4 * p, r, 4 * q, n) && k <= n && k <= held[p].size
    ensures forall a :: 4 * q <= a < 4 * q + k && 0 <= a < 4 * |r| ==> ByteAt(r, a) == held[p].fill
  {
    forall a | 4 * q <= a < 4 * q + k && 0 <= a < 4 * |r| ensures ByteAt(r, a) == held[p].fill {
      assert ByteAt(r, a) == ByteAt(m, a - 4 * q + 4 * p);
      assert held[p].size >= k;
    }
  }

  // ---- The arrays of the driver ---------------------------------------------------

  // The trace arrays hold the pointer and the size of every live id.
  ghost predicate Recorded(l: Ledger, ptrs: seq<Word>, sizes: seq<Word>) {
    forall id :: id in l.at ==>
      && 0 <= id < |ptrs| && id < |sizes| && ptrs[id] == l.at[id]
      && l.at[id] in l.held && sizes[id] == l.held[l.at[id]].size
  }

  lemma RecordedEntered(l: Ledger, ptrs: seq<Word>, sizes: seq<Word>, id: int, p: Word, size: Word)
    requires Recorded(l, ptrs, sizes) && 0 <= id < |ptrs| && id < |sizes| && p !in l.held
    ensures Recorded(Entered(l, id, p, size), ptrs[id := p], sizes[id := size])
  {
  }

  lemma RecordedStruck(l: Ledger, ptrs: seq<Word>, sizes: seq<Word>, id: int)
    requires Recorded(l, ptrs, sizes) && Named(l) && id in l.at
    ensures Recorded(Struck(l, id), ptrs, sizes)
  {
  }

  // A byte read through a char pointer, on a platform whose char is signed or not.
  function CharValue(b: int, signedChar: bool): int {
    if signedChar && b >= 128 then b - 256 else b
  }

  // A char holds the byte modulo 256, in the range of its type.
  lemma CharValueMeaning(b: int)
    requires 0 <= b < 256
    ensures -128 <= CharValue(b, true) < 128 && CharValue(b, true) % 256 == b
    ensures CharValue(b, false) == b
  {
  }

  // The check of a byte that holds the low byte of an id fails exactly when it is misread.
  lemma MisreadMeaning(id: int, size: int, signedChar: bool)
    ensures Misread(Op.Realloc(id, size), signedChar) <==> CharValue(id % 256, signedChar) != id % 256
    ensures !Misread(Op.Alloc(id, size), signedChar) && !Misread(Op.Free(id), signedChar)
  {
  }

  // A realloc whose check of the copied bytes fails although they are right: the
  // byte read back as a negative number never equals the low byte of the id.
  predicate Misread(op: Op, signedChar: bool) {
    op.Realloc? && signedChar && op.id % 256 >= 128
  }

  // ---- Demand and live bytes --------------------------------------------------------

  // The units one operation can make the heap grow by.
  function Demand(op: Op): int {
    match op
    case Alloc(_, size) => if 0 < size && BlockUnits(size) > CHUNK_UNITS then BlockUnits(size) else CHUNK_UNITS
    case Realloc(_, size) => if 0 < size && BlockUnits(size) > CHUNK_UNITS then BlockUnits(size) else CHUNK_UNITS
    case Free(_) => 0
  }

  function TotalDemand(ops: seq<Op>): (n: int)
    ensures 0 <= n
  {
    if ops == [] then 0 else Demand(ops[0]) + TotalDemand(ops[1..])
  }

  // The bytes asked for in all blocks held.
  ghost function LiveBytes(held: Leases): int
    decreases |held|
  {
    if exists p :: p in held then
      var p :| p in held;
      held[p].size + LiveBytes(held - {p})
    else 0
  }

  // The choice made by LiveBytes does not matter.
  lemma {:induction false} LiveBytesPick(held: Leases, p: int)
    requires p in held
    ensures LiveBytes(held) == held[p].size + LiveBytes(held - {p})
    decreases |held|
  {
    var x :| x in held && LiveBytes(held) == held[x].size + LiveBytes(held - {x});
    if x != p {
      LiveBytesPick(held - {x}, p);
      LiveBytesPick(held - {p}, x);
      assert held - {x} - {p} == held - {p} - {x};
    }
  }

  lemma LiveBytesAdd(held: Leases, p: int, k: Lease)
    requires p !in held
    ensures LiveBytes(held[p := k]) == LiveBytes(held) + k.size
  {
    LiveBytesPick(held[p := k], p);
    assert held[p := k] - {p} == held;
  }

  lemma {:induction false} LiveBytesNonNegative(held: Leases)
    requires forall p :: p in held ==> 0 < held[p].size
    ensures 0 <= LiveBytes(held)
    decreases |held|
  {
    if exists p :: p in held {
      var p :| p in held;
      LiveBytesPick(held, p);
      LiveBytesNonNegative(held - {p});
    }
  }

  // The bytes asked for, with 8 bytes of overhead each, fit in the regular blocks.
  lemma {:induction false} LiveBytesFit(b: Blocks, end: int, held: Leases)
    requires Tiled(b, end) && forall p :: p in held ==> p in b && p != PROLOGUE && Roomy(b[p], held[p].size)
    ensures LiveBytes(held) + DSIZE * |held| <= 4 * (end - 4)
    decreases |b|
  {
    DropLast(b, end);
    var p := Prev(b, end);
    if p == PROLOGUE {
      assert forall x :: x !in held;
    } else if p in held {
      LiveBytesPick(held, p);
      LiveBytesFit(b - {p}, p, held - {p});
    } else {
      LiveBytesFit(b - {p}, p, held);
    }
  }

  function Larger(x: int, y: int): int {
    if x > y then x else y
  }
}
