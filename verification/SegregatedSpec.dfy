// What the segregated allocator does to a tiling, and how the index of free
// blocks lives in the same words as the tags.
module SegregatedSpec {
  import opened Words
  import opened MemLib
  import opened Tiling
  import opened BoundaryTags
  import opened SizeClasses
  import opened FreeLists

  // The free blocks and their sizes: what the lists should hold.
  ghost function FreeSizes(b: Blocks): Sizes {
    map p | p in b && !b[p].alloc :: b[p].units
  }

  // ---- Tags and links do not meet ---------------------------------------------

  // Links live inside free blocks, away from tags...
  lemma LinksSpareTags(m: seq<Word>, r: seq<Word>, b: Blocks, end: int, listed: Sizes)
    requires Represents(m, b, end) && SameButLinks(m, r, listed)
    requires forall x :: x in listed ==> x in b && !b[x].alloc
    ensures |r| == |m| && Represents(r, b, end) && PayloadsKept(m, r, b, 0)
  {
    hide Shaped, Separate, Chained, Below, Tagged, PayloadsKept, SameButLinks;
    LinksSparePayloads(m, r, b, listed);
    LinksSpareBoth(m, r, b, listed);
    AtEpilogue(m, b, end);
    LinksSpareLast(m, r, b, end, listed);
  }

  lemma LinksSpareBoth(m: seq<Word>, r: seq<Word>, b: Blocks, listed: Sizes)
    requires Shaped(b) && Separate(b) && Tagged(m, b) && SameButLinks(m, r, listed)
    requires forall x :: x in listed ==> x in b && !b[x].alloc
    ensures Tagged(r, b)
  {
    hide Shaped, Separate, SameButLinks;
    forall p | p in b
      ensures 1 <= p && 1 <= b[p].units && p + 2 * b[p].units <= |r|
      ensures r[p - 1] == TagOf(b[p]) && r[p + 2 * b[p].units - 2] == TagOf(b[p])
    {
      TagSpared(m, r, b, listed, p, p - 1);
      TagSpared(m, r, b, listed, p, p + 2 * b[p].units - 2);
    }
  }

  lemma TagSpared(m: seq<Word>, r: seq<Word>, b: Blocks, listed: Sizes, p: int, w: int)
    requires Shaped(b) && Separate(b) && p in b && (w == p - 1 || w == p + 2 * b[p].units - 2) && 0 <= w < |m|
    requires SameButLinks(m, r, listed) && forall x :: x in listed ==> x in b && !b[x].alloc
    ensures |r| == |m| && r[w] == m[w]
  {
    LinkFree(b, listed, p, w);
  }

  lemma LinksSpareLast(m: seq<Word>, r: seq<Word>, b: Blocks, end: int, listed: Sizes)
    requires Tiled(b, end) && 4 <= end <= |m| && SameButLinks(m, r, listed)
    requires forall x :: x in listed ==> x in b && !b[x].alloc
    ensures |r| == |m| && r[end - 1] == m[end - 1]
  {
    assert forall x :: x in listed ==> b[x].units >= 2 && x + 2 * b[x].units <= end;
  }

  // ... and away from live payloads.
  lemma LinksSparePayloads(m: seq<Word>, r: seq<Word>, b: Blocks, listed: Sizes)
    requires Shaped(b) && Separate(b) && SameButLinks(m, r, listed)
    requires forall x :: x in listed ==> x in b && !b[x].alloc
    ensures PayloadsKept(m, r, b, 0)
  {
    forall p, w | p in b && b[p].alloc && p != 0 && p <= w < p + 2 * b[p].units - 2 && 0 <= w < |m|
      ensures r[w] == m[w]
    {
      assert w !in listed && w - 1 !in listed;
    }
  }

  // Word w of the block at p is a tag, so it is not a link word.
  lemma LinkFree(b: Blocks, listed: Sizes, p: int, w: int)
    requires Shaped(b) && Separate(b) && p in b && (w == p - 1 || w == p + 2 * b[p].units - 2)
    requires forall x :: x in listed ==> x in b && !b[x].alloc
    ensures w !in listed && w - 1 !in listed
  {
    assert b[p].units >= 2 || b[p].alloc;
  }

  // Tags of a block that overlaps no listed block spare the index.
  lemma TagsSpareLinks(m: seq<Word>, heads: seq<int>, lists: seq<seq<int>>, listed: Sizes, at: int, k: Block)
    requires Index(m, heads, lists, listed) && TagOf(k) < 0x1_0000_0000
    requires 1 <= at && 1 <= k.units && at + 2 * k.units <= |m|
    requires forall x :: x in listed ==> x + 4 <= at || at + 2 * k.units <= x
    ensures Index(WriteTags(m, at, k), heads, lists, listed)
  {
    IndexFrame(m, WriteTags(m, at, k), heads, lists, listed);
  }

  lemma FreeNodes(m: seq<Word>, b: Blocks, end: int)
    requires Represents(m, b, end)
    ensures Nodes(m, FreeSizes(b)) && Spaced(FreeSizes(b))
  {
    forall p | p in b && !b[p].alloc ensures GetSize(m[p - 1]) == 8 * b[p].units {
      ReadTag(m[p - 1], b[p]);
    }
  }

  // ---- Coalescing -----------------------------------------------------------------

  // The tag words that `coalesce` looks at are not link words.
  ghost predicate TagsClear(listed: Sizes, p: int, units: int, before: Block) {
    && p - 2 * before.units - 1 !in listed && p - 2 * before.units - 2 !in listed
    && p - 1 !in listed && p - 2 !in listed && p - 3 !in listed
    && p + 2 * units - 1 !in listed && p + 2 * units - 2 !in listed && p + 2 * units - 3 !in listed
  }

  lemma AroundKept(m: seq<Word>, r: seq<Word>, listed: Sizes, p: int, units: int, before: Block, behind: Block)
    requires Around(m, p, units, before, behind) && TagsClear(listed, p, units, before)
    requires SameButLinks(m, r, listed)
    ensures Around(r, p, units, before, behind)
  {
  }

  lemma TagsClearOf(b: Blocks, end: int, p: int, listed: Sizes)
    requires Tiled(b, end) && p in b && p != PROLOGUE && !b[p].alloc && HasPrev(b, p)
    requires forall x :: x in listed ==> x in b && !b[x].alloc && x != p
    ensures TagsClear(listed, p, b[p].units, b[Prev(b, p)])
  {
    var q, r := Prev(b, p), Next(b, p);
    LinkFree(b, listed, q, q - 1);
    LinkFree(b, listed, q, p - 2);
    LinkFree(b, listed, p, p - 1);
    LinkFree(b, listed, p, r - 2);
    if r in b {
      LinkFree(b, listed, r, r - 1);
    } else {
      assert r == end;
    }
  }

  // What `coalesce` starts from: p is free but unlisted, everything else is in order.
  ghost predicate Pending(m: seq<Word>, b: Blocks, end: int, listed: Sizes, p: int) {
    && Represents(m, b, end) && |m| <= MAX_WORDS
    && p in b && p != PROLOGUE && !b[p].alloc && IsolatedExcept(b, p)
    && listed == FreeSizes(b) - {p}
  }

  // The neighbours that leave the lists.
  ghost function Taken(b: Blocks, p: int): set<int>
    requires p in b && HasPrev(b, p)
  {
    (if b[Prev(b, p)].alloc then {} else {Prev(b, p)})
    + (if Behind(b, Next(b, p)).alloc then {} else {Next(b, p)})
  }

  lemma PendingFacts(m: seq<Word>, b: Blocks, end: int, listed: Sizes, p: int)
    requires Pending(m, b, end, listed, p)
    ensures Shaped(b) && HasPrev(b, p)
    ensures p in b && SameLive(b, Coalesced(b, p), 0) && 0 !in b
    ensures var before, behind := b[Prev(b, p)], Behind(b, Next(b, p));
      && Around(m, p, b[p].units, before, behind) && TagsClear(listed, p, b[p].units, before)
      && Prev(b, p) == p - 2 * before.units && Next(b, p) == p + 2 * b[p].units
      && (!before.alloc ==> Prev(b, p) in listed) && (!behind.alloc ==> Next(b, p) in listed)
  {
    AroundFree(m, b, end, p);
    TagsClearOf(b, end, p, listed);
    CoalescedKeeps(b, end, p);
    assert Next(b, Prev(b, p)) == p;
  }

  // mid: the memory once the neighbours have left the lists.
  lemma SpanIndexed(m: seq<Word>, mid: seq<Word>, heads: seq<int>, lists: seq<seq<int>>,
                    b: Blocks, end: int, listed: Sizes, p: int)
    requires Pending(m, b, end, listed, p) && SameButLinks(m, mid, listed)
    requires HasPrev(b, p) && Index(mid, heads, lists, listed - Taken(b, p))
    ensures var at, c := CoalescedAt(b, p), Coalesced(b, p);
      var k := Block(SpanUnits(b[p].units, b[Prev(b, p)], Behind(b, Next(b, p))), false);
      && at == SpanStart(p, b[Prev(b, p)]) && at in c && c[at] == k
      && 1 <= at && 1 <= k.units && at + 2 * k.units <= |m| && TagOf(k) < 0x1_0000_0000
      && var r := WriteTags(mid, at, k);
      && Represents(r, c, end) && Isolated(c) && PayloadsKept(m, r, b, 0)
      && Index(r, heads, lists, listed - Taken(b, p))
      && at !in listed - Taken(b, p) && (listed - Taken(b, p))[at := k.units] == FreeSizes(c)
  {
    LinksSpareTags(m, mid, b, end, listed);
    SpanTagged(mid, b, end, p);
    var at, c := CoalescedAt(b, p), Coalesced(b, p);
    KeptTwice(m, mid, WriteTags(mid, at, c[at]), b, b, 0);
    SpanListed(b, end, listed, p);
    TagsSpareLinks(mid, heads, lists, listed - Taken(b, p), at, c[at]);
  }

  lemma SpanListed(b: Blocks, end: int, listed: Sizes, p: int)
    requires Tiled(b, end) && p in b && p != PROLOGUE && !b[p].alloc && IsolatedExcept(b, p)
    requires HasPrev(b, p) && listed == FreeSizes(b) - {p}
    ensures var at, c := CoalescedAt(b, p), Coalesced(b, p);
      && at in c && at !in listed - Taken(b, p)
      && (listed - Taken(b, p))[at := c[at].units] == FreeSizes(c)
      && forall x :: x in listed - Taken(b, p) ==> x + 4 <= at || at + 2 * c[at].units <= x
  {
    hide Shaped, Separate, Chained, Below, Isolated, IsolatedExcept, Coalesced, CoalescedAt, Taken;
    CoalescedIsolated(b, end, p);
    SpanIsCoalesced(b, end, p);
    SpanKeys(b, end, p);
    var at, c := CoalescedAt(b, p), Coalesced(b, p);
    var rest := listed - Taken(b, p);
    forall x | x in rest ensures x + 4 <= at || at + 2 * c[at].units <= x {
      BlocksApart(c, end, at, x);
    }
    forall x ensures x in rest <==> x in c && !c[x].alloc && x != at {
    }
  }

  lemma BlocksApart(c: Blocks, end: int, at: int, x: int)
    requires Tiled(c, end) && at in c && x in c && x != at && !c[x].alloc
    ensures x + 4 <= at || at + 2 * c[at].units <= x
  {
    assert c[x].units >= 2;
  }

  // The blocks that neither merge nor are taken.
  lemma SpanKeys(b: Blocks, end: int, p: int)
    requires Tiled(b, end) && p in b && p != PROLOGUE && !b[p].alloc && IsolatedExcept(b, p) && HasPrev(b, p)
    ensures var at, c := CoalescedAt(b, p), Coalesced(b, p);
      forall x :: x in b && x != p && x !in Taken(b, p) <==> x in c && x != at
  {
    assert Next(b, Prev(b, p)) == p;
  }

  // The links of a free block of c are written last; `at` is live in c only.
  lemma LinkedLast(m: seq<Word>, r: seq<Word>, w: seq<Word>, b: Blocks, c: Blocks, end: int, at: int)
    requires PayloadsKept(m, r, b, 0) && Represents(r, c, end) && SameButLinks(r, w, FreeSizes(c))
    requires SameLive(b, c, at) && !LiveAt(b, at)
    ensures Represents(w, c, end) && PayloadsKept(m, w, b, 0)
  {
    LinksSpareTags(r, w, c, end, FreeSizes(c));
    forall p, x | p in b && b[p].alloc && p != 0 && p <= x < p + 2 * b[p].units - 2 && 0 <= x < |m|
      ensures w[x] == m[x]
    {
      assert LiveAt(b, p) && LiveAt(c, p) && r[x] == m[x];
    }
  }

  // ---- Growing ----------------------------------------------------------------------

  // The tiling, and the free space in it, after the heap has grown by n units.
  ghost function Grown(b: Blocks, end: int, n: int): (c: Blocks)
    requires Tiled(b, end) && Isolated(b) && n >= MIN_UNITS
    ensures Tiled(c, end + 2 * n) && Isolated(c) && SameLive(b, c, 0)
  {
    GrowsTidy(b, end, n);
    Coalesced(b[end := Block(n, false)], end)
  }

  ghost function GrownAt(b: Blocks, end: int, n: int): (at: int)
    requires Tiled(b, end) && Isolated(b) && n >= MIN_UNITS
    ensures at in Grown(b, end, n) && !Grown(b, end, n)[at].alloc && Grown(b, end, n)[at].units >= n
  {
    GrowsTidy(b, end, n);
    CoalescedAt(b[end := Block(n, false)], end)
  }

  lemma GrowsTidy(b: Blocks, end: int, n: int)
    requires Tiled(b, end) && Isolated(b) && n >= MIN_UNITS
    ensures var c := b[end := Block(n, false)];
      && Tiled(c, end + 2 * n) && end != PROLOGUE && IsolatedExcept(c, end) && HasPrev(c, end) && SameLive(b, c, 0)
      && Tiled(Coalesced(c, end), end + 2 * n) && Isolated(Coalesced(c, end))
      && SameLive(b, Coalesced(c, end), 0)
      && var at, d := CoalescedAt(c, end), Coalesced(c, end);
      && at in d && !d[at].alloc && d[at].units >= n
  {
    hide Separate, Chained, Below, Isolated, IsolatedExcept, Coalesced, CoalescedAt;
    AppendTiled(b, end, n, false);
    AppendedIsolated(b, end, n);
    var c := b[end := Block(n, false)];
    CoalescedIsolated(c, end + 2 * n, end);
    CoalescedKeeps(c, end + 2 * n, end);
    SpanIsCoalesced(c, end + 2 * n, end);
  }

  lemma GrowStep(m: seq<Word>, heads: seq<int>, lists: seq<seq<int>>, b: Blocks, end: int, n: int)
    requires Represents(m, b, end) && Isolated(b) && |m| <= MAX_WORDS && n >= MIN_UNITS
    requires Index(m, heads, lists, FreeSizes(b))
    ensures 4 <= end && 0 !in b && Tiled(b, end)
    ensures end + 2 * n <= |m| ==>
      var c, r := b[end := Block(n, false)], AppendImage(m, end, n);
      && Index(r, heads, lists, FreeSizes(b)) && Pending(r, c, end + 2 * n, FreeSizes(b), end)
      && PayloadsKept(m, r, b, 0) && SameLive(b, c, 0)
  {
    hide Index, Shaped, Separate, Chained, Below, Isolated, IsolatedExcept, PayloadsKept, SameLive, Coalesced,
      CoalescedAt, Tagged, WriteTags;
    AtEpilogue(m, b, end);
    InTiling(m, b, end);
    GrowsTidy(b, end, n);
    if end + 2 * n <= |m| {
      AppendTagged(m, b, end, n);
      GrowLinks(m, heads, lists, b, end, n);
      assert FreeSizes(b) == FreeSizes(b[end := Block(n, false)]) - {end};
    }
  }

  lemma GrowLinks(m: seq<Word>, heads: seq<int>, lists: seq<seq<int>>, b: Blocks, end: int, n: int)
    requires Shaped(b) && Below(b, end) && 4 <= end && |m| <= MAX_WORDS && n >= MIN_UNITS && end + 2 * n <= |m|
    requires Index(m, heads, lists, FreeSizes(b))
    ensures Index(AppendImage(m, end, n), heads, lists, FreeSizes(b))
  {
    hide Index;
    assert forall x :: x in FreeSizes(b) ==> x + 4 <= end;
    IndexFrame(m, AppendImage(m, end, n), heads, lists, FreeSizes(b));
  }

  // ---- Fitting ----------------------------------------------------------------------

  // A smallest free block of the whole heap among those of at least n units.
  ghost predicate BestFit(b: Blocks, p: int, n: int) {
    Fits(b, p, n) && forall x :: Fits(b, x, n) ==> b[p].units <= b[x].units
  }

  // No block of classes lo up to hi has n units.
  ghost predicate Exhausted(lists: seq<seq<int>>, listed: Sizes, lo: int, hi: int, n: int) {
    forall c, i {:trigger lists[c][i]} :: lo <= c < hi && 0 <= c < |lists| && 0 <= i < |lists[c]| ==>
      lists[c][i] in listed && listed[lists[c][i]] < n
  }

  // A block of n units is in the class of that size or above.
  lemma FitsAbove(m: seq<Word>, heads: seq<int>, lists: seq<seq<int>>, b: Blocks, x: int, n: int, c: int, hi: int)
    requires Index(m, heads, lists, FreeSizes(b)) && Fits(b, x, n)
    requires Exhausted(lists, FreeSizes(b), Log(8 * n), hi, n) && c == ClassOf(8 * b[x].units) && Log(8 * n) < LIST_MAX
    ensures hi <= c && x in lists[c]
  {
    LogMonotone(8 * n, 8 * b[x].units);
    assert FreeSizes(b)[x] == b[x].units;
    var i :| 0 <= i < |lists[c]| && lists[c][i] == x;
  }

  lemma FoundBest(m: seq<Word>, heads: seq<int>, lists: seq<seq<int>>, b: Blocks, n: int, c: int, k: int)
    requires Index(m, heads, lists, FreeSizes(b)) && 0 <= c < LIST_MAX && 0 <= k < |lists[c]| && Log(8 * n) < LIST_MAX
    requires Exhausted(lists, FreeSizes(b), Log(8 * n), c, n)
    requires forall i {:trigger lists[c][i]} :: 0 <= i < k ==>
      lists[c][i] in FreeSizes(b) && FreeSizes(b)[lists[c][i]] < n
    requires forall i {:trigger lists[c][i]} :: k <= i < |lists[c]| ==>
      lists[c][i] in FreeSizes(b) && n <= FreeSizes(b)[lists[c][i]]
    ensures Fits(b, lists[c][k], n) && forall x :: Fits(b, x, n) ==> b[lists[c][k]].units <= b[x].units
  {
    hide Index, Log, Exhausted;
    SixteenLists(m, heads, lists, FreeSizes(b));
    assert FreeSizes(b)[lists[c][k]] == b[lists[c][k]].units;
    forall x | Fits(b, x, n) ensures b[lists[c][k]].units <= b[x].units {
      FoundSmaller(m, heads, lists, b, n, c, k, x);
    }
  }

  lemma SixteenLists(m: seq<Word>, heads: seq<int>, lists: seq<seq<int>>, listed: Sizes)
    requires Index(m, heads, lists, listed)
    ensures |lists| == LIST_MAX
  {
  }

  lemma FoundSmaller(m: seq<Word>, heads: seq<int>, lists: seq<seq<int>>, b: Blocks, n: int, c: int, k: int, x: int)
    requires Index(m, heads, lists, FreeSizes(b)) && 0 <= c < LIST_MAX && 0 <= k < |lists[c]| && Log(8 * n) < LIST_MAX
    requires Exhausted(lists, FreeSizes(b), Log(8 * n), c, n)
    requires forall i {:trigger lists[c][i]} :: 0 <= i < k ==>
      lists[c][i] in FreeSizes(b) && FreeSizes(b)[lists[c][i]] < n
    requires forall i {:trigger lists[c][i]} :: k <= i < |lists[c]| ==>
      lists[c][i] in FreeSizes(b) && n <= FreeSizes(b)[lists[c][i]]
    requires Fits(b, x, n) && lists[c][k] in b
    ensures b[lists[c][k]].units <= b[x].units
  {
    hide Log, ClassOf, Nodes, Spaced, Linked, Exhausted;
    var p, d := lists[c][k], ClassOf(8 * b[x].units);
    assert ListOf(m, lists[c], FreeSizes(b), c);
    FitsAbove(m, heads, lists, b, x, n, d, c);
    if c < d {
      ClassesOrdered(8 * b[p].units, 8 * b[x].units);
    } else {
      var j :| 0 <= j < |lists[c]| && lists[c][j] == x;
      assert FreeSizes(b)[x] == b[x].units;
    }
  }

  lemma FoundNone(m: seq<Word>, heads: seq<int>, lists: seq<seq<int>>, b: Blocks, n: int)
    requires Index(m, heads, lists, FreeSizes(b)) && Log(8 * n) < LIST_MAX
    requires Exhausted(lists, FreeSizes(b), Log(8 * n), LIST_MAX, n)
    ensures forall x :: !Fits(b, x, n)
  {
    forall x ensures !Fits(b, x, n) {
      if Fits(b, x, n) {
        FitsAbove(m, heads, lists, b, x, n, ClassOf(8 * b[x].units), LIST_MAX);
      }
    }
  }

  // ---- Placing ----------------------------------------------------------------------

  const BACK_SIZE := 96

  // A block of n units out of the free block at p: the whole of it when the rest
  // is too small, the back of it for large requests, the front for small ones.
  function Placed(b: Blocks, p: int, n: int): Blocks
    requires p in b
  {
    if b[p].units - n < MIN_UNITS then Tag(b, p, true)
    else if DSIZE * n >= BACK_SIZE then Split(b, p, b[p].units - n, false, true)
    else Split(b, p, n, true, false)
  }

  function PlacedAt(b: Blocks, p: int, n: int): int
    requires p in b
  {
    if b[p].units - n >= MIN_UNITS && DSIZE * n >= BACK_SIZE then p + 2 * (b[p].units - n) else p
  }

  lemma TagIsolated(b: Blocks, end: int, p: int)
    requires Tiled(b, end) && Isolated(b) && p in b && !b[p].alloc
    ensures Tiled(Tag(b, p, true), end) && Isolated(Tag(b, p, true))
  {
    TagTiled(b, end, p, true);
    var c := Tag(b, p, true);
    forall x | x in c && Next(c, x) in c ensures c[x].alloc || c[Next(c, x)].alloc {
      assert Next(c, x) == Next(b, x);
    }
  }

  lemma SplitIsolated(b: Blocks, end: int, p: int, n: int, front: bool)
    requires Tiled(b, end) && Isolated(b) && p in b && !b[p].alloc && MIN_UNITS <= n <= b[p].units - MIN_UNITS
    ensures Tiled(Split(b, p, n, front, !front), end) && Isolated(Split(b, p, n, front, !front))
  {
    SplitTiled(b, end, p, n, front, !front);
    var c := Split(b, p, n, front, !front);
    hide Shaped, Separate, Chained, Below;
    assert Next(c, p) == p + 2 * n && Next(c, p + 2 * n) == Next(b, p);
    forall x | x in c && Next(c, x) in c ensures c[x].alloc || c[Next(c, x)].alloc {
      if x != p && x != p + 2 * n {
        SplitOthers(b, end, p, n, front, x);
      }
    }
  }

  lemma SplitOthers(b: Blocks, end: int, p: int, n: int, front: bool, x: int)
    requires Tiled(b, end) && Isolated(b) && p in b && !b[p].alloc && MIN_UNITS <= n <= b[p].units - MIN_UNITS
    requires x in b && x != p && x != p + 2 * n
    ensures var c := Split(b, p, n, front, !front);
      Next(c, x) in c ==> c[x].alloc || c[Next(c, x)].alloc
  {
    var c := Split(b, p, n, front, !front);
    assert Next(c, x) == Next(b, x);
  }

  lemma SplitListed(b: Blocks, end: int, p: int, n: int, front: bool)
    requires Tiled(b, end) && p in b && !b[p].alloc && MIN_UNITS <= n <= b[p].units - MIN_UNITS
    ensures var listed := FreeSizes(b) - {p};
      var rest := if front then p + 2 * n else p;
      && rest !in listed
      && listed[rest := if front then b[p].units - n else n] == FreeSizes(Split(b, p, n, front, !front))
  {
    SplitSeparate(b, p, n, front, !front);
    SplitSizes(b, p, n, front);
  }

  lemma SplitSizes(b: Blocks, p: int, n: int, front: bool)
    requires p in b && !b[p].alloc && p + 2 * n !in b && n != 0
    ensures var rest := if front then p + 2 * n else p;
      (FreeSizes(b) - {p})[rest := if front then b[p].units - n else n] == FreeSizes(Split(b, p, n, front, !front))
  {
    var c, at := Split(b, p, n, front, !front), p + 2 * n;
    assert c[p] == Block(n, front) && c[at] == Block(b[p].units - n, !front);
    assert forall x :: x != p && x != at ==> (x in c <==> x in b) && (x in b ==> c[x] == b[x]);
  }

  lemma WithoutNode(b: Blocks, p: int)
    requires Separate(b) && Shaped(b) && p in b && !b[p].alloc
    ensures forall x :: x in FreeSizes(b) - {p} ==> x + 4 <= p || p + 2 * b[p].units <= x
  {
  }

  // m1: the memory once p has left the lists; the two parts are then tagged.
  lemma SplitTags(m: seq<Word>, m1: seq<Word>, b: Blocks, end: int, p: int, n: int, front: bool)
    requires Represents(m, b, end) && Isolated(b) && |m| <= MAX_WORDS && SameButLinks(m, m1, FreeSizes(b))
    requires p in b && !b[p].alloc && MIN_UNITS <= n <= b[p].units - MIN_UNITS
    ensures 1 <= p && p + 2 * b[p].units <= |m| == |m1| && Reads(m1[p - 1], b[p]) && Shaped(b) && Separate(b)
    ensures var c := Split(b, p, n, front, !front);
      var r := WriteTags(WriteTags(m1, p, Block(n, front)), p + 2 * n, Block(b[p].units - n, !front));
      && Represents(r, c, end) && Isolated(c) && PayloadsKept(m, r, b, 0)
      && Nodes(r, FreeSizes(c)) && Spaced(FreeSizes(c))
  {
    LinksSpareTags(m, m1, b, end, FreeSizes(b));
    ReadTag(m1[p - 1], b[p]);
    SplitTagged(m1, b, end, p, n, front, !front);
    SplitKeeps(m1, b, end, p, n, front, !front);
    SplitIsolated(b, end, p, n, front);
    var r := WriteTags(WriteTags(m1, p, Block(n, front)), p + 2 * n, Block(b[p].units - n, !front));
    KeptTwice(m, m1, r, b, b, 0);
    FreeNodes(r, Split(b, p, n, front, !front), end);
  }

  lemma SplitLinks(m1: seq<Word>, heads: seq<int>, lists: seq<seq<int>>, b: Blocks, p: int, n: int, front: bool)
    requires Shaped(b) && Separate(b) && |m1| <= MAX_WORDS
    requires p in b && !b[p].alloc && MIN_UNITS <= n <= b[p].units - MIN_UNITS && 1 <= p && p + 2 * b[p].units <= |m1|
    requires Index(m1, heads, lists, FreeSizes(b) - {p})
    ensures var r := WriteTags(WriteTags(m1, p, Block(n, front)), p + 2 * n, Block(b[p].units - n, !front));
      Index(r, heads, lists, FreeSizes(b) - {p})
  {
    hide Index;
    var k1, k2 := Block(n, front), Block(b[p].units - n, !front);
    var r1 := WriteTags(m1, p, k1);
    WithoutNode(b, p);
    TagsSpareLinks(m1, heads, lists, FreeSizes(b) - {p}, p, k1);
    TagsSpareLinks(r1, heads, lists, FreeSizes(b) - {p}, p + 2 * n, k2);
  }

  lemma SplitIndexed(m: seq<Word>, m1: seq<Word>, heads: seq<int>, lists: seq<seq<int>>,
                     b: Blocks, end: int, p: int, n: int, front: bool)
    requires Represents(m, b, end) && Isolated(b) && |m| <= MAX_WORDS && SameButLinks(m, m1, FreeSizes(b))
    requires p in b && !b[p].alloc && MIN_UNITS <= n <= b[p].units - MIN_UNITS
    requires Index(m1, heads, lists, FreeSizes(b) - {p})
    ensures 1 <= p && p + 2 * b[p].units <= |m| && Reads(m1[p - 1], b[p]) && Tiled(b, end)
    ensures var c, listed := Split(b, p, n, front, !front), FreeSizes(b) - {p};
      var rest := if front then p + 2 * n else p;
      var r := WriteTags(WriteTags(m1, p, Block(n, front)), p + 2 * n, Block(b[p].units - n, !front));
      && Represents(r, c, end) && Isolated(c) && PayloadsKept(m, r, b, 0)
      && Index(r, heads, lists, listed)
      && rest !in listed && listed[rest := if front then b[p].units - n else n] == FreeSizes(c)
      && Nodes(r, FreeSizes(c)) && Spaced(FreeSizes(c))
      && NextBlkp(r, p) == p + 2 * n
  {
    hide Index, Shaped, Separate, Chained, Below, Isolated, Tagged, PayloadsKept, SameButLinks, Nodes, Spaced,
      FreeSizes;
    SplitTags(m, m1, b, end, p, n, front);
    SplitLinks(m1, heads, lists, b, p, n, front);
    SplitListed(b, end, p, n, front);
    var r := WriteTags(WriteTags(m1, p, Block(n, front)), p + 2 * n, Block(b[p].units - n, !front));
    Forward(r, Split(b, p, n, front, !front), end, p);
  }

  // The two parts with the free one listed: what the callers of a split see.
  lemma SplitDone(m: seq<Word>, r: seq<Word>, w: seq<Word>, b: Blocks, end: int, p: int, n: int, front: bool)
    requires Tiled(b, end) && p in b && !b[p].alloc && MIN_UNITS <= n <= b[p].units - MIN_UNITS
    requires var c := Split(b, p, n, front, !front);
      PayloadsKept(m, r, b, 0) && Represents(r, c, end) && SameButLinks(r, w, FreeSizes(c))
    ensures var c := Split(b, p, n, front, !front);
      Represents(w, c, end) && PayloadsKept(m, w, b, 0) && NextBlkp(w, p) == p + 2 * n
  {
    hide Shaped, Separate, Chained, Below, Tagged, PayloadsKept, SameButLinks, FreeSizes, SameLive;
    var c, at := Split(b, p, n, front, !front), if front then p else p + 2 * n;
    SplitLive(b, end, p, n, front);
    LinkedLast(m, r, w, b, c, end, at);
    Forward(w, c, end, p);
  }

  lemma SplitLive(b: Blocks, end: int, p: int, n: int, front: bool)
    requires Tiled(b, end) && p in b && !b[p].alloc && MIN_UNITS <= n <= b[p].units - MIN_UNITS
    ensures var at := if front then p else p + 2 * n;
      !LiveAt(b, at) && SameLive(b, Split(b, p, n, front, !front), at)
  {
    assert forall x :: x in b && p < x ==> p + 2 * b[p].units <= x;
  }

  lemma TagIndexed(m: seq<Word>, m1: seq<Word>, heads: seq<int>, lists: seq<seq<int>>,
                   b: Blocks, end: int, p: int)
    requires Represents(m, b, end) && Isolated(b) && |m| <= MAX_WORDS && SameButLinks(m, m1, FreeSizes(b))
    requires p in b && !b[p].alloc && Index(m1, heads, lists, FreeSizes(b) - {p})
    ensures 1 <= p && 1 <= b[p].units && p + 2 * b[p].units <= |m| && Reads(m1[p - 1], b[p])
    ensures var c, r := Tag(b, p, true), WriteTags(m1, p, Block(b[p].units, true));
      && Represents(r, c, end) && Isolated(c) && PayloadsKept(m, r, b, 0)
      && Index(r, heads, lists, FreeSizes(b) - {p}) && FreeSizes(b) - {p} == FreeSizes(c)
  {
    hide Index;
    TagTags(m, m1, b, end, p);
    WithoutNode(b, p);
    TagsSpareLinks(m1, heads, lists, FreeSizes(b) - {p}, p, Block(b[p].units, true));
  }

  lemma SameLiveSelf(b: Blocks)
    ensures SameLive(b, b, 0)
  {
  }

  lemma TagListed(b: Blocks, p: int)
    requires p in b
    ensures FreeSizes(b) - {p} == FreeSizes(Tag(b, p, true))
  {
  }

  lemma TagTags(m: seq<Word>, m1: seq<Word>, b: Blocks, end: int, p: int)
    requires Represents(m, b, end) && Isolated(b) && |m| <= MAX_WORDS && SameButLinks(m, m1, FreeSizes(b))
    requires p in b && !b[p].alloc
    ensures 1 <= p && 1 <= b[p].units && p + 2 * b[p].units <= |m| && Reads(m1[p - 1], b[p])
    ensures var c, r := Tag(b, p, true), WriteTags(m1, p, Block(b[p].units, true));
      Represents(r, c, end) && Isolated(c) && PayloadsKept(m, r, b, 0) && FreeSizes(b) - {p} == FreeSizes(c)
  {
    hide Shaped, Separate, Chained, Below, Isolated, PayloadsKept, SameButLinks, Tagged, WriteTags, SameLive;
    LinksSpareTags(m, m1, b, end, FreeSizes(b));
    TagIsolated(b, end, p);
    WholeTagged(m1, b, end, p);
    InBounds(m1, b, end, p);
    SameLiveSelf(b);
    KeptTwice(m, m1, WriteTags(m1, p, Block(b[p].units, true)), b, b, 0);
    TagListed(b, p);
  }

  lemma WholeTagged(m: seq<Word>, b: Blocks, end: int, p: int)
    requires Represents(m, b, end) && |m| <= MAX_WORDS && p in b && !b[p].alloc && Tiled(Tag(b, p, true), end)
    ensures 1 <= p && 1 <= b[p].units && p + 2 * b[p].units <= |m| && Reads(m[p - 1], b[p])
    ensures var r := WriteTags(m, p, Block(b[p].units, true));
      Represents(r, Tag(b, p, true), end) && PayloadsKept(m, r, b, 0)
  {
    ReadTag(m[p - 1], b[p]);
    Rewritten(m, b, Tag(b, p, true), end, p);
    InsideFree(m, b, p, p, Block(b[p].units, true));
  }

  lemma PlacedTidy(b: Blocks, end: int, p: int, n: int)
    requires Tiled(b, end) && Isolated(b) && Fits(b, p, n) && n >= MIN_UNITS
    ensures Tiled(Placed(b, p, n), end) && Isolated(Placed(b, p, n))
    ensures var c, at := Placed(b, p, n), PlacedAt(b, p, n);
      && LiveAt(c, at) && at != PROLOGUE && n <= c[at].units <= n + 1 && !LiveAt(b, at) && SameLive(b, c, at)
  {
    hide Shaped, Separate, Chained, Below, Isolated, SameLive;
    if b[p].units - n < MIN_UNITS {
      TagIsolated(b, end, p);
    } else if DSIZE * n >= BACK_SIZE {
      SplitIsolated(b, end, p, b[p].units - n, false);
    } else {
      SplitIsolated(b, end, p, n, true);
    }
    PlacedLive(b, end, p, n);
  }

  lemma PlacedLive(b: Blocks, end: int, p: int, n: int)
    requires Tiled(b, end) && Fits(b, p, n) && n >= MIN_UNITS
    ensures var c, at := Placed(b, p, n), PlacedAt(b, p, n);
      && LiveAt(c, at) && at != PROLOGUE && n <= c[at].units <= n + 1 && !LiveAt(b, at) && SameLive(b, c, at)
  {
    assert forall x :: x in b && p < x ==> p + 2 * b[p].units <= x;
  }

  // ---- Requests -----------------------------------------------------------------------

  // The effect of mm_malloc: the tiling goes from b to c, the brk from end to
  // end', and `at` is returned.
  ghost predicate Handed(b: Blocks, end: int, size: int, capacity: int, c: Blocks, end': int, at: int)
    requires Tiled(b, end) && Isolated(b) && 0 <= size
  {
    if size == 0 then at == 0 && c == b && end' == end
    else
      var n := BlockUnits(size);
      var k := if n > CHUNK_UNITS then n else CHUNK_UNITS;
      if 8 * n < 0x1_0000 && exists x :: Fits(b, x, n) then
        end' == end && exists p :: BestFit(b, p, n) && c == Placed(b, p, n) && at == PlacedAt(b, p, n)
      else if end + 2 * k > capacity then at == 0 && c == b && end' == end
      else
        && end' == end + 2 * k
        && var g, p := Grown(b, end, k), GrownAt(b, end, k);
           c == Placed(g, p, n) && at == PlacedAt(g, p, n)
  }

  lemma HandedEffect(b: Blocks, end: int, size: int, capacity: int, c: Blocks, end': int, at: int)
    requires Tiled(b, end) && Isolated(b) && 0 <= size && Handed(b, end, size, capacity, c, end', at)
    ensures Tiled(c, end') && Isolated(c) && SameLive(b, c, at)
    ensures at == 0 ==> c == b && end' == end
    ensures at != 0 ==>
      0 < size && LiveAt(c, at) && at != PROLOGUE && !LiveAt(b, at) && size + DSIZE <= DSIZE * c[at].units
  {
    hide Shaped, Separate, Chained, Below, Isolated, Placed, PlacedAt, Grown, GrownAt;
    if size > 0 {
      var n := BlockUnits(size);
      var k := if n > CHUNK_UNITS then n else CHUNK_UNITS;
      if 8 * n < 0x1_0000 && exists x :: Fits(b, x, n) {
        var p :| BestFit(b, p, n) && c == Placed(b, p, n) && at == PlacedAt(b, p, n);
        PlacedTidy(b, end, p, n);
        PlacedPositive(b, end, p, n);
      } else if end + 2 * k <= capacity {
        var g, p := Grown(b, end, k), GrownAt(b, end, k);
        GrownFits(b, end, k, n);
        PlacedTidy(g, end', p, n);
        PlacedPositive(g, end', p, n);
        LiveTwice(b, g, c, end, end', at);
      }
    }
  }

  lemma LiveTwice(b: Blocks, g: Blocks, c: Blocks, end: int, end': int, at: int)
    requires Tiled(b, end) && Tiled(g, end') && SameLive(b, g, 0) && SameLive(g, c, at) && !LiveAt(g, at)
    ensures SameLive(b, c, at) && !LiveAt(b, at)
  {
    assert 0 !in b && 0 !in g;
    forall x | x != at && (LiveAt(b, x) || LiveAt(c, x)) ensures x in b && x in c && b[x] == c[x] {
      assert LiveAt(b, x) <==> LiveAt(g, x);
    }
  }

  // When mm_malloc fails, how much the heap grows, and what it returns.
  lemma HandedOutcome(b: Blocks, end: int, size: int, capacity: int, c: Blocks, end': int, at: int)
    requires Tiled(b, end) && Isolated(b) && 0 < size && Handed(b, end, size, capacity, c, end', at)
    ensures var n := BlockUnits(size);
      var k := if n > CHUNK_UNITS then n else CHUNK_UNITS;
      var found := 8 * n < 0x1_0000 && exists x :: Fits(b, x, n);
      && (at == 0 <==> !found && end + 2 * k > capacity)
      && end' == (if at == 0 || found then end else end + 2 * k)
      && (at != 0 ==> 4 * at % 8 == 0 && at in c && size <= 8 * c[at].units - 8)
  {
    hide Separate, Chained, Below, Isolated, SameLive, Placed, PlacedAt, Grown, GrownAt;
    HandedEffect(b, end, size, capacity, c, end', at);
    var n := BlockUnits(size);
    var k := if n > CHUNK_UNITS then n else CHUNK_UNITS;
    if 8 * n < 0x1_0000 && exists x :: Fits(b, x, n) {
      var p :| BestFit(b, p, n) && c == Placed(b, p, n) && at == PlacedAt(b, p, n);
      PlacedPositive(b, end, p, n);
    } else if end + 2 * k <= capacity {
      GrownFits(b, end, k, n);
      PlacedPositive(Grown(b, end, k), end', GrownAt(b, end, k), n);
    }
  }

  // The free block of u units at p after n of them are handed out at `at`: all of it
  // when fewer than two units would be left, the back from 96 bytes on, else the front.
  ghost predicate Carved(b: Blocks, c: Blocks, p: int, u: int, n: int, at: int) {
    var rest := b - {p};
    if u - n < 2 then
      at == p && c == rest[p := Block(u, true)]
    else if 8 * n >= 96 then
      at == p + 2 * (u - n) && c == rest[p := Block(u - n, false)][at := Block(n, true)]
    else
      at == p && c == rest[p := Block(n, true)][p + 2 * n := Block(u - n, false)]
  }

  // Which end of the free block is handed out, and how much of it.
  lemma PlacedExact(b: Blocks, rest: Blocks, p: int, u: int, n: int)
    requires p in b && b[p].units == u && p !in rest && b == rest[p := b[p]]
    ensures Carved(rest, Placed(b, p, n), p, u, n, PlacedAt(b, p, n))
  {
    assert rest - {p} == rest;
  }

  // Where a successful mm_malloc takes its block and how it splits it; `last` is the
  // last block of the heap.
  lemma HandedPlace(b: Blocks, end: int, size: int, capacity: int, c: Blocks, end': int, at: int, last: int)
    returns (p: int, u: int)
    requires Tiled(b, end) && Isolated(b) && 0 < size && Handed(b, end, size, capacity, c, end', at) && at != 0
    requires last in b && Next(b, last) == end
    ensures var n := BlockUnits(size);
      var k := if n > 512 then n else 512;
      && Carved(b, c, p, u, n, at) && u >= n
      && if 8 * n < 0x1_0000 && exists x :: Fits(b, x, n) then
           && Fits(b, p, n) && (forall x :: Fits(b, x, n) ==> b[p].units <= b[x].units)
           && u == b[p].units && end' == end
         else
           && p == (if b[last].alloc then end else last) && u == (if b[last].alloc then k else b[last].units + k)
           && end' == end + 2 * k
  {
    hide Tiled, Isolated, Placed, PlacedAt, Grown, GrownAt, Carved;
    var n := BlockUnits(size);
    var k := if n > 512 then n else 512;
    if 8 * n < 0x1_0000 && exists x :: Fits(b, x, n) {
      p :| BestFit(b, p, n) && c == Placed(b, p, n) && at == PlacedAt(b, p, n);
      u := b[p].units;
      PlacedExact(b, b - {p}, p, u, n);
      CarvedFrom(b, c, p, u, n, at);
    } else {
      GrownExact(b, end, k, last);
      p, u := if b[last].alloc then end else last, if b[last].alloc then k else b[last].units + k;
      LastPositive(b, end, last);
      PlacedExact(Grown(b, end, k), b - {p}, p, u, n);
      CarvedFrom(b, c, p, u, n, at);
    }
  }

  lemma CarvedFrom(b: Blocks, c: Blocks, p: int, u: int, n: int, at: int)
    requires Carved(b - {p}, c, p, u, n, at)
    ensures Carved(b, c, p, u, n, at)
  {
    assert b - {p} - {p} == b - {p};
  }

  lemma LastPositive(b: Blocks, end: int, last: int)
    requires Tiled(b, end) && last in b
    ensures 0 < b[last].units
  {
  }

  // Growing the heap changes its last block, if that is free.
  lemma GrownExact(b: Blocks, end: int, k: int, last: int)
    requires Tiled(b, end) && Isolated(b) && k >= MIN_UNITS && last in b && Next(b, last) == end
    ensures var at := if b[last].alloc then end else last;
      && GrownAt(b, end, k) == at
      && Grown(b, end, k) == (b - {at})[at := Block(if b[last].alloc then k else b[last].units + k, false)]
  {
    AppendedSpan(b, end, k, last);
  }

  lemma PlacedPositive(b: Blocks, end: int, p: int, n: int)
    requires Tiled(b, end) && Fits(b, p, n) && n >= MIN_UNITS
    ensures PlacedAt(b, p, n) >= 4
  {
  }

  // The effect of mm_free.
  ghost function Freed(b: Blocks, end: int, p: int): (c: Blocks)
    requires Tiled(b, end) && Isolated(b) && LiveAt(b, p) && p != PROLOGUE
    ensures Tiled(c, end) && Isolated(c) && SameLive(b, c, p) && !LiveAt(c, p)
  {
    FreedTidy(b, end, p);
    Coalesced(Tag(b, p, false), p)
  }

  lemma FreedTidy(b: Blocks, end: int, p: int)
    requires Tiled(b, end) && Isolated(b) && LiveAt(b, p) && p != PROLOGUE
    ensures var f := Tag(b, p, false);
      && Tiled(f, end) && IsolatedExcept(f, p) && HasPrev(f, p) && SameLive(b, f, p)
      && Tiled(Coalesced(f, p), end) && Isolated(Coalesced(f, p))
      && SameLive(b, Coalesced(f, p), p) && !LiveAt(Coalesced(f, p), p)
  {
    FreedIsolated(b, end, p);
    var f := Tag(b, p, false);
    CoalescedIsolated(f, end, p);
    CoalescedKeeps(f, end, p);
    assert 0 !in b;
  }

  lemma FreeFacts(m: seq<Word>, b: Blocks, end: int, p: int, n: int)
    requires Represents(m, b, end) && Isolated(b) && Fits(b, p, n) && n >= MIN_UNITS
    ensures 2 <= p && GetSize(m[p - 1]) == 8 * b[p].units && p + 2 * b[p].units <= |m| && p in FreeSizes(b)
    ensures var c, at := Placed(b, p, n), PlacedAt(b, p, n);
      SameLive(b, c, at) && !LiveAt(b, at)
  {
    Forward(m, b, end, p);
    PlacedLive(b, end, p, n);
  }

  lemma InTiling(m: seq<Word>, b: Blocks, end: int)
    requires Represents(m, b, end)
    ensures Tiled(b, end) && 0 !in b
  {
  }

  lemma InTiles(b: Blocks, end: int, p: int)
    requires Tiled(b, end) && p in b
    ensures 2 <= p && 0 < b[p].units && Next(b, p) <= end && (Next(b, p) in b || Next(b, p) == end) && end !in b
    ensures Next(b, p) in b ==> b[Next(b, p)].units > 0
  {
    assert Next(b, PROLOGUE) == 4;
  }

  lemma BestOf(b: Blocks, p: int, n: int)
    requires Fits(b, p, n) && forall x :: Fits(b, x, n) ==> b[p].units <= b[x].units
    ensures BestFit(b, p, n)
  {
  }

  lemma GrownFits(b: Blocks, end: int, k: int, n: int)
    requires Tiled(b, end) && Isolated(b) && k >= MIN_UNITS && k >= n
    ensures Fits(Grown(b, end, k), GrownAt(b, end, k), n) && GrownAt(b, end, k) != 0
    ensures SameLive(b, Grown(b, end, k), 0)
  {
  }

  // What mm_free hands to `coalesce`.
  lemma FreeStep(m: seq<Word>, heads: seq<int>, lists: seq<seq<int>>, b: Blocks, end: int, p: int)
    requires Represents(m, b, end) && Isolated(b) && |m| <= MAX_WORDS && LiveAt(b, p) && p != PROLOGUE
    requires Index(m, heads, lists, FreeSizes(b))
    ensures 2 <= p && 1 <= b[p].units && p + 2 * b[p].units <= |m| && GetSize(m[p - 1]) == 8 * b[p].units
    ensures Tiled(b, end) && 0 !in b
    ensures var f, r := Tag(b, p, false), WriteTags(m, p, Block(b[p].units, false));
      && Pending(r, f, end, FreeSizes(b), p) && PayloadsKept(m, r, b, p) && SameLive(b, f, p)
      && Index(r, heads, lists, FreeSizes(b))
      && Shaped(f) && HasPrev(f, p) && Freed(b, end, p) == Coalesced(f, p)
  {
    hide Index, Shaped, Separate, Chained, Below, Isolated, IsolatedExcept, PayloadsKept, SameLive, Coalesced, Tagged,
      WriteTags;
    FreedTidy(b, end, p);
    var f := Tag(b, p, false);
    UntagTags(m, b, end, p);
    assert FreeSizes(b) == FreeSizes(f) - {p};
    TagsSpareLinks(m, heads, lists, FreeSizes(b), p, f[p]);
  }

  lemma UntagTags(m: seq<Word>, b: Blocks, end: int, p: int)
    requires Represents(m, b, end) && |m| <= MAX_WORDS && LiveAt(b, p) && p != PROLOGUE
    requires Tiled(Tag(b, p, false), end) && SameLive(b, Tag(b, p, false), p)
    ensures 2 <= p && 1 <= b[p].units && p + 2 * b[p].units <= |m| && GetSize(m[p - 1]) == 8 * b[p].units
    ensures var r := WriteTags(m, p, Block(b[p].units, false));
      Represents(r, Tag(b, p, false), end) && PayloadsKept(m, r, b, p)
    ensures forall x :: x in FreeSizes(b) ==> x + 4 <= p || p + 2 * b[p].units <= x
    ensures 0 !in b
  {
    Forward(m, b, end, p);
    Rewritten(m, b, Tag(b, p, false), end, p);
    PayloadsUnderTags(m, b, Tag(b, p, false), p, p);
  }

  // The heap mm_init leaves, before its first chunk.
  lemma EmptyIndexed(m: seq<Word>, heads: seq<int>, lists: seq<seq<int>>)
    requires |m| >= 4 && |heads| == |lists| == LIST_MAX
    requires forall c :: 0 <= c < LIST_MAX ==> heads[c] == 0 && lists[c] == []
    ensures var b := map[PROLOGUE := Block(1, true)];
      && Represents(m[0 := 0][1 := Pack(DSIZE, true)][2 := Pack(DSIZE, true)][3 := Pack(0, true)], b, 4) && Isolated(b)
      && FreeSizes(b) == map[]
      && Index(m[0 := 0][1 := Pack(DSIZE, true)][2 := Pack(DSIZE, true)][3 := Pack(0, true)], heads, lists, FreeSizes(b))
  {
    var b := map[PROLOGUE := Block(1, true)];
    assert Next(b, PROLOGUE) == 4;
    assert FreeSizes(b) == map[];
  }

  // The first chunk stays a block of its own.
  lemma FirstChunk()
    ensures var b := map[PROLOGUE := Block(1, true)];
      && Tiled(b, 4) && Isolated(b)
      && Grown(b, 4, CHUNK_UNITS) == map[PROLOGUE := Block(1, true), 4 := Block(CHUNK_UNITS, false)]
      && GrownAt(b, 4, CHUNK_UNITS) == 4
  {
    var b := map[PROLOGUE := Block(1, true)];
    assert Next(b, PROLOGUE) == 4;
    GrowsTidy(b, 4, CHUNK_UNITS);
    var c := b[4 := Block(CHUNK_UNITS, false)];
    assert Next(c, PROLOGUE) == 4 && Next(c, 4) == 4 + 2 * CHUNK_UNITS;
    PrevIsUnique(c, 4, PROLOGUE);
    assert Coalesced(c, 4) == c;
  }

  // ---- Growing a block in place -----------------------------------------------------

  // What mm_realloc decides for the live block at p when n units are wanted.
  datatype Plan = Keep | Absorb | GrowAndAbsorb | Swallow | Move

  ghost function PlanOf(b: Blocks, p: int, n: int): Plan
    requires p in b
  {
    var q := Next(b, p);
    if b[p].units >= n then Keep
    else if LiveAt(b, q) then Move
    else if b[p].units + Behind(b, q).units >= n then Absorb
    else if q in b && Next(b, q) in b then Swallow
    else GrowAndAbsorb
  }

  // The units by which the heap grows first.
  ghost function Shortfall(b: Blocks, p: int, n: int): int
    requires p in b
  {
    var lack := n - b[p].units - Behind(b, Next(b, p)).units;
    if lack <= 0 then 0 else if lack > CHUNK_UNITS then lack else CHUNK_UNITS
  }

  // The call grows the block at p over a live one: there is room to grow the heap,
  // but not beside the block.
  ghost predicate Swallows(b: Blocks, end: int, p: int, n: int, capacity: int)
    requires p in b
  {
    PlanOf(b, p, n) == Swallow && end + 2 * Shortfall(b, p, n) <= capacity
  }

  // mm_malloc fails: nothing that find_fit looks at fits, and the heap cannot grow.
  ghost predicate Refused(b: Blocks, end: int, n: int, capacity: int) {
    && (8 * n >= 0x1_0000 || forall x :: !Fits(b, x, n))
    && end + 2 * (if n > CHUNK_UNITS then n else CHUNK_UNITS) > capacity
  }

  // The call copies to the null pointer: the block has to move, and mm_malloc fails.
  ghost predicate Crashes(b: Blocks, end: int, p: int, n: int, capacity: int)
    requires p in b
  {
    PlanOf(b, p, n) == Move && Refused(b, end, n, capacity)
  }

  // The tiling in which the block behind p is taken.
  ghost function Enlarged(b: Blocks, end: int, k: int): Blocks
    requires Tiled(b, end) && Isolated(b) && (k == 0 || k >= MIN_UNITS)
  {
    if k == 0 then b else Grown(b, end, k)
  }

  // When the block behind p is last, or there is none, the new space joins it there.
  lemma GrownBehind(b: Blocks, end: int, p: int, k: int)
    requires Tiled(b, end) && Isolated(b) && k >= MIN_UNITS && LiveAt(b, p) && p != PROLOGUE && !LiveAt(b, Next(b, p))
    requires var q := Next(b, p); q in b ==> Next(b, q) == end
    ensures var g, q := Grown(b, end, k), Next(b, p);
      && p in g && g[p] == b[p] && Next(g, p) == q && q in g && q != PROLOGUE
      && g[q] == Block(Behind(b, q).units + k, false)
  {
    hide Shaped, Separate, Chained, Below, Isolated, IsolatedExcept, Merge;
    LastBehind(b, end, p, k);
    GrowsTidy(b, end, k);
    SpanIsCoalesced(b[end := Block(k, false)], end + 2 * k, end);
  }

  lemma LastBehind(b: Blocks, end: int, p: int, k: int)
    requires Tiled(b, end) && k >= MIN_UNITS && LiveAt(b, p) && p != PROLOGUE && !LiveAt(b, Next(b, p))
    requires var q := Next(b, p); q in b ==> Next(b, q) == end
    ensures var c, q := b[end := Block(k, false)], Next(b, p);
      && HasPrev(c, end) && Prev(c, end) == (if q in b then q else p) && (q !in b ==> q == end)
      && Next(c, end) == end + 2 * k && end + 2 * k !in c && q != PROLOGUE && p != end && end !in b && p != q
      && p >= 4
  {
    AppendTiled(b, end, k, false);
    var c, q := b[end := Block(k, false)], Next(b, p);
    var x := if q in b then q else p;
    assert Next(c, x) == end;
    PrevIsUnique(c, end, x);
    assert c[end].units == k;
  }

  // When a live block follows the free block behind p, the new space lies beyond it.
  lemma GrownBeyond(b: Blocks, end: int, p: int, k: int)
    requires Tiled(b, end) && Isolated(b) && k >= MIN_UNITS && LiveAt(b, p) && p != PROLOGUE
    requires var q := Next(b, p); q in b && !b[q].alloc && Next(b, q) in b
    ensures var g, q := Grown(b, end, k), Next(b, p);
      && p in g && g[p] == b[p] && q in g && g[q] == b[q] && q != PROLOGUE
      && LiveAt(b, Next(b, q)) && p < Next(b, q) < p + 2 * (b[p].units + b[q].units + k)
  {
    hide Shaped, Separate, Chained, Below, Isolated, IsolatedExcept, SameLive;
    BeyondFirst(b, end, p, k);
    GrowsTidy(b, end, k);
  }

  lemma BeyondFirst(b: Blocks, end: int, p: int, k: int)
    requires Tiled(b, end) && Isolated(b) && k >= MIN_UNITS && LiveAt(b, p) && p != PROLOGUE
    requires var q := Next(b, p); q in b && !b[q].alloc && Next(b, q) in b
    ensures var c, q := b[end := Block(k, false)], Next(b, p);
      && LiveAt(b, Next(b, q)) && q != PROLOGUE && q != end && p != end
      && p < Next(b, q) < p + 2 * (b[p].units + b[q].units + k)
      && HasPrev(c, end) && Next(c, Prev(c, end)) == end && Prev(c, end) != q && (Prev(c, end) == p ==> c[p].alloc)
      && Next(c, end) !in c
  {
    var q := Next(b, p);
    AppendTiled(b, end, k, false);
    var c := b[end := Block(k, false)];
    WalkReaches(c, end + 2 * k, PROLOGUE, end);
    assert b[q].alloc || b[Next(b, q)].alloc;
    assert Next(c, Prev(c, end)) == end && Next(c, q) == Next(b, q) && Next(c, end) == end + 2 * k;
  }

  lemma AbsorbedIsolated(b: Blocks, end: int, p: int)
    requires Tiled(b, end) && Isolated(b) && LiveAt(b, p) && p != PROLOGUE
    requires Next(b, p) in b && !b[Next(b, p)].alloc
    ensures Tiled(Merge(b, p), end) && Isolated(Merge(b, p))
    ensures FreeSizes(Merge(b, p)) == FreeSizes(b) - {Next(b, p)}
    ensures SameLive(b, Merge(b, p), p)
  {
    hide Shaped, Separate, Chained, Below;
    MergeTiled(b, end, p);
    InTiles(b, end, p);
    AbsorbedSame(b, p);
    var c, q := Merge(b, p), Next(b, p);
    assert Next(c, p) == Next(b, q);
    forall x | x in c && Next(c, x) in c ensures c[x].alloc || c[Next(c, x)].alloc {
      if x != p {
        assert Next(c, x) == Next(b, x);
      }
    }
  }

  lemma AbsorbedSame(b: Blocks, p: int)
    requires LiveAt(b, p) && Next(b, p) in b && !b[Next(b, p)].alloc
    ensures FreeSizes(Merge(b, p)) == FreeSizes(b) - {Next(b, p)}
    ensures SameLive(b, Merge(b, p), p)
  {
  }

  // mid: the memory once the block behind p has left the lists; p then takes it in.
  lemma AbsorbStep(m: seq<Word>, mid: seq<Word>, heads: seq<int>, lists: seq<seq<int>>, b: Blocks, end: int, p: int)
    requires Represents(m, b, end) && Isolated(b) && |m| <= MAX_WORDS && SameButLinks(m, mid, FreeSizes(b))
    requires LiveAt(b, p) && p != PROLOGUE && Next(b, p) in b && !b[Next(b, p)].alloc
    requires Index(mid, heads, lists, FreeSizes(b) - {Next(b, p)})
    ensures var k, c := Block(b[p].units + b[Next(b, p)].units, true), Merge(b, p);
      && 1 <= p && 1 <= k.units && p + 2 * k.units <= |m| && TagOf(k) < 0x1_0000_0000
      && var r := WriteTags(mid, p, k);
      && Represents(r, c, end) && Isolated(c) && PayloadsKept(m, r, b, 0)
      && Index(r, heads, lists, FreeSizes(c)) && FreeSizes(c) == FreeSizes(b) - {Next(b, p)}
  {
    hide Index, SameButLinks;
    LinksSpareTags(m, mid, b, end, FreeSizes(b));
    AbsorbedIsolated(b, end, p);
    AbsorbTags(mid, b, end, p);
    InBounds(m, b, end, p);
    var k := Block(b[p].units + b[Next(b, p)].units, true);
    KeptTwice(m, mid, WriteTags(mid, p, k), b, b, 0);
    TagsSpareLinks(mid, heads, lists, FreeSizes(b) - {Next(b, p)}, p, k);
  }

  lemma AbsorbTags(m: seq<Word>, b: Blocks, end: int, p: int)
    requires Represents(m, b, end) && |m| <= MAX_WORDS
    requires LiveAt(b, p) && p != PROLOGUE && Next(b, p) in b && !b[Next(b, p)].alloc && Tiled(Merge(b, p), end)
    ensures var k, c := Block(b[p].units + b[Next(b, p)].units, true), Merge(b, p);
      && 1 <= p && 1 <= k.units && p + 2 * k.units <= |m| && TagOf(k) < 0x1_0000_0000
      && Represents(WriteTags(m, p, k), c, end) && PayloadsKept(m, WriteTags(m, p, k), b, 0)
      && forall x :: x in FreeSizes(b) - {Next(b, p)} ==> x + 4 <= p || p + 2 * k.units <= x
  {
    hide Shaped, Separate, Chained, Below, Tagged, PayloadsKept, WriteTags;
    InBounds(m, b, end, p);
    InBounds(m, b, end, Next(b, p));
    Rewritten(m, b, Merge(b, p), end, p);
    AbsorbKeeps(m, b, p);
  }

  lemma AbsorbKeeps(m: seq<Word>, b: Blocks, p: int)
    requires Shaped(b) && Separate(b) && LiveAt(b, p) && p >= 2 && Next(b, p) in b && !b[Next(b, p)].alloc
    requires Next(b, p) + 2 * b[Next(b, p)].units <= |m| <= MAX_WORDS
    ensures var k := Block(b[p].units + b[Next(b, p)].units, true);
      && TagOf(k) < 0x1_0000_0000 && 1 <= k.units && PayloadsKept(m, WriteTags(m, p, k), b, 0)
      && forall x :: x in FreeSizes(b) - {Next(b, p)} ==> x + 4 <= p || p + 2 * k.units <= x
  {
    var q, k := Next(b, p), Block(b[p].units + b[Next(b, p)].units, true);
    var r := WriteTags(m, p, k);
    forall x, w | x in b && b[x].alloc && x != 0 && x <= w < x + 2 * b[x].units - 2 && 0 <= w < |m|
      ensures r[w] == m[w]
    {
      assert if x < p then x + 2 * b[x].units <= p else x == p || q + 2 * b[q].units <= x;
    }
  }

  // What mm_realloc reads at the start.
  lemma ReallocReads(m: seq<Word>, b: Blocks, end: int, p: int)
    requires Represents(m, b, end) && LiveAt(b, p) && p != PROLOGUE
    ensures Tiled(b, end) && 0 !in b && 2 <= p && 1 <= b[p].units && p + 2 * b[p].units <= |m|
    ensures var q := Next(b, p);
      && GetSize(m[p - 1]) == 8 * b[p].units && NextBlkp(m, p) == q && 1 <= q <= |m|
      && GetAlloc(m[q - 1]) == Behind(b, q).alloc && GetSize(m[q - 1]) == 8 * Behind(b, q).units
      && (LiveAt(b, q) <==> Behind(b, q).alloc && Behind(b, q).units != 0)
      && 0 <= Behind(b, q).units && (q in b ==> 1 <= b[q].units)
  {
    Forward(m, b, end, p);
    var q := Next(b, p);
    if q in b {
      ReadTag(m[q - 1], b[q]);
    } else {
      AtEpilogue(m, b, end);
    }
  }

  // The state in which the block behind p is taken: after growing, if need be.
  lemma EnlargedFacts(m: seq<Word>, b: Blocks, end: int, p: int, k: int)
    requires Tiled(b, end) && Isolated(b) && LiveAt(b, p) && p != PROLOGUE && !LiveAt(b, Next(b, p))
    requires (k == 0 && Next(b, p) in b) || k >= MIN_UNITS
    requires Represents(m, Enlarged(b, end, k), end + 2 * k)
    ensures var g, q := Enlarged(b, end, k), Next(b, p);
      && Isolated(g) && LiveAt(g, p) && g[p] == b[p] && q in g && !g[q].alloc && q in FreeSizes(g)
      && NextBlkp(m, p) == q && 2 <= p <= |m| && SameLive(b, g, 0)
      && p + 2 * (b[p].units + Behind(b, q).units + k) <= |m|
      && (if k > 0 && q in b && Next(b, q) in b then
            LiveAt(b, Next(b, q)) && p < Next(b, q) < p + 2 * (b[p].units + Behind(b, q).units + k)
          else g[q].units == Behind(b, q).units + k)
  {
    hide Separate, Chained, Below, Isolated, Shaped, Tagged, Grown, SameLive;
    var q := Next(b, p);
    InTiles(b, end, p);
    SameLiveSelf(b);
    if q in b {
      InTiles(b, end, q);
    }
    if k > 0 {
      if q in b && Next(b, q) in b {
        GrownBeyond(b, end, p, k);
      } else {
        GrownBehind(b, end, p, k);
      }
    }
    Forward(m, Enlarged(b, end, k), end + 2 * k, p);
  }

  // ---- The heap after mm_realloc has grown a block ------------------------------------

  // Some tiling of the words holds a block at q, where the request at p is now, and
  // every other live block of b.
  ghost predicate Intact(m: seq<Word>, b: Blocks, p: int, q: int) {
    exists c, e {:trigger Represents(m, c, e)} ::
      Represents(m, c, e) && LiveAt(c, q) && forall x :: LiveAt(b, x) && x != p ==> LiveAt(c, x)
  }

  // A block that claims the space of a live block leaves no such tiling.
  lemma NotIntact(mid: seq<Word>, b: Blocks, p: int, k: Block, r: int)
    requires 1 <= p && 1 <= k.units && p + 2 * k.units <= |mid| && TagOf(k) < 0x1_0000_0000
    requires LiveAt(b, r) && p < r < p + 2 * k.units
    ensures !Intact(WriteTags(mid, p, k), b, p, p)
  {
    var m := WriteTags(mid, p, k);
    forall c, e | Represents(m, c, e) && p in c ensures r !in c {
      ReadTag(m[p - 1], c[p]);
      ReadTag(m[p - 1], k);
    }
  }

  lemma StillIntact(m: seq<Word>, b: Blocks, end: int, p: int)
    requires Represents(m, b, end) && LiveAt(b, p)
    ensures Intact(m, b, p, p)
  {
  }

  // ---- Moving a block -------------------------------------------------------------------

  // The whole old block fits in the new payload, because the new block is larger
  // and both sizes are multiples of 8; and the two do not overlap.
  lemma CopyFacts(m: seq<Word>, b: Blocks, c: Blocks, end: int, p: int, q: int, size: int)
    requires Represents(m, c, end) && SameLive(b, c, q) && LiveAt(b, p) && !LiveAt(b, q) && LiveAt(c, q)
    requires 0 < size && size + DSIZE <= DSIZE * c[q].units && b[p].units < BlockUnits(size)
    ensures LiveAt(c, p) && c[p] == b[p] && 2 <= q && q + 2 * c[q].units <= |m|
    ensures var n := 8 * b[p].units;
      && n <= 8 * c[q].units - 8
      && 0 <= 4 * q && 4 * q + n <= 4 * |m| && 0 <= 4 * p && 4 * p + n <= 4 * |m|
      && (4 * q + n <= 4 * p || 4 * p + n <= 4 * q)
  {
    InBounds(m, c, end, q);
    RoomToCopy(m, c, end, p, q, 8 * b[p].units);
  }

  // A copy into the payload of the live block at q spares tags, links and other payloads.
  lemma CopyDone(m: seq<Word>, r: seq<Word>, heads: seq<int>, lists: seq<seq<int>>, c: Blocks, end: int, q: int, n: int)
    requires Represents(m, c, end) && LiveAt(c, q) && 0 <= n <= 8 * c[q].units - 8
    requires SameWordsOutside(m, r, 4 * q, 4 * q + n) && Index(m, heads, lists, FreeSizes(c))
    ensures Represents(r, c, end) && PayloadsKept(m, r, c, q) && Index(r, heads, lists, FreeSizes(c))
  {
    hide Index;
    WithinPayload(m, r, c, end, q, n);
    forall x | x in FreeSizes(c) ensures r[x - 1] == m[x - 1] && r[x] == m[x] && r[x + 1] == m[x + 1] {
      assert x + 2 * c[x].units <= q || q + 2 * c[q].units <= x;
      InBounds(m, c, end, x);
    }
    IndexFrame(m, r, heads, lists, FreeSizes(c));
  }

  lemma MergedIntact(m: seq<Word>, b: Blocks, end: int, p: int, k: int)
    requires Tiled(b, end) && Isolated(b) && LiveAt(b, p) && p != PROLOGUE && (k == 0 || k >= MIN_UNITS)
    requires !LiveAt(b, Next(b, p))
    requires var g := Enlarged(b, end, k);
      p in g && Next(g, p) in g && Represents(m, Merge(g, p), end + 2 * k)
    ensures Intact(m, b, p, p)
  {
    hide Shaped, Separate, Chained, Below, Isolated;
    var g := Enlarged(b, end, k);
    forall x | LiveAt(b, x) ensures LiveAt(Merge(g, p), x) {
      InTiles(b, end, x);
      assert x in g && g[x] == b[x] && p in g && g[p] == b[p];
    }
  }

  // c: the tiling with the new block at q and still the old one at p.
  lemma MovedIntact(m: seq<Word>, b: Blocks, c: Blocks, end: int, p: int, q: int)
    requires Tiled(c, end) && Isolated(c) && LiveAt(c, p) && p != PROLOGUE && Represents(m, Freed(c, end, p), end)
    requires SameLive(b, c, q) && LiveAt(c, q) && !LiveAt(b, q) && LiveAt(b, p)
    ensures Intact(m, b, p, q)
  {
    hide Represents, Tiled, Isolated;
    var d := Freed(c, end, p);
    assert SameLive(c, d, p);
    forall x | (LiveAt(b, x) && x != p) || x == q ensures LiveAt(d, x) {
      assert LiveAt(c, x);
    }
  }

  // The effect of mm_realloc on the tiling, for the live block at p and a positive
  // size: b, end before the call and c, end' after it, `at` returned.
  ghost predicate Resized(b: Blocks, end: int, p: int, size: int, capacity: int,
                          c: Blocks, end': int, at: int, crashed: bool)
    requires Tiled(b, end) && Isolated(b) && LiveAt(b, p) && size > 0
  {
    var n, k := BlockUnits(size), Shortfall(b, p, BlockUnits(size));
    var plan := PlanOf(b, p, n);
    if plan == Keep then
      at == p && !crashed && c == b && end' == end
    else if plan == Move then
      exists d ::
        && Handed(b, end, size, capacity, d, end', at)
        && crashed == (at == 0)
        && if crashed then c == b && end' == end
           else Tiled(d, end') && Isolated(d) && LiveAt(d, p) && p != PROLOGUE && c == Freed(d, end', p)
    else
      && !crashed
      && if k > 0 && capacity < end + 2 * k then
           at == 0 && c == b && end' == end
         else
           && at == p && end' == end + 2 * k
           && (plan != Swallow ==>
                 && p in Enlarged(b, end, k) && Next(Enlarged(b, end, k), p) in Enlarged(b, end, k)
                 && c == Merge(Enlarged(b, end, k), p))
  }

  // mm_realloc crashes exactly when a condition on the heap before the call holds.
  lemma CrashCondition(b: Blocks, end: int, p: int, size: int, capacity: int,
                       c: Blocks, end': int, at: int, crashed: bool)
    requires Tiled(b, end) && Isolated(b) && LiveAt(b, p) && size > 0
    requires Resized(b, end, p, size, capacity, c, end', at, crashed)
    ensures crashed <==> Crashes(b, end, p, BlockUnits(size), capacity)
  {
    hide Tiled, Isolated, Handed, Freed;
    if PlanOf(b, p, BlockUnits(size)) == Move {
      var d :| Handed(b, end, size, capacity, d, end', at) && crashed == (at == 0);
      HandedOutcome(b, end, size, capacity, d, end', at);
    }
  }

  // Otherwise it returns null exactly when the block behind p has to be taken and the
  // heap cannot grow as much as that needs.
  ghost predicate Starved(b: Blocks, end: int, p: int, n: int, capacity: int)
    requires p in b
  {
    PlanOf(b, p, n) in {GrowAndAbsorb, Swallow} && end + 2 * Shortfall(b, p, n) > capacity
  }

  // A call that does neither, nor swallows a block, puts a large enough block in the
  // place of the old one.
  lemma ResizedEffect(b: Blocks, end: int, p: int, size: int, capacity: int,
                      c: Blocks, end': int, at: int, crashed: bool)
    requires Tiled(b, end) && Isolated(b) && LiveAt(b, p) && p != PROLOGUE && size > 0
    requires Resized(b, end, p, size, capacity, c, end', at, crashed)
    requires !Swallows(b, end, p, BlockUnits(size), capacity) && !crashed
    ensures at == 0 <==> Starved(b, end, p, BlockUnits(size), capacity)
    ensures if at == 0 then c == b && end' == end
      else
        && Tiled(c, end') && Isolated(c) && at != PROLOGUE
        && Replaced(b, c, p, at) && size + DSIZE <= DSIZE * c[at].units
  {
    hide Shaped, Separate, Chained, Below, Isolated, Handed, Freed, Enlarged;
    var n, k := BlockUnits(size), Shortfall(b, p, BlockUnits(size));
    var plan := PlanOf(b, p, n);
    InTiles(b, end, p);
    if plan == Move {
      var d :| Handed(b, end, size, capacity, d, end', at) && Tiled(d, end') && Isolated(d) && LiveAt(d, p)
               && c == Freed(d, end', p);
      HandedEffect(b, end, size, capacity, d, end', at);
      MovedReplaced(b, d, c, end', p, at);
    } else if plan != Keep && !(k > 0 && capacity < end + 2 * k) {
      EnlargedReplaced(b, end, p, n);
    }
  }

  lemma MovedReplaced(b: Blocks, d: Blocks, c: Blocks, end: int, p: int, q: int)
    requires SameLive(b, d, q) && LiveAt(d, q) && !LiveAt(b, q) && LiveAt(b, p)
    requires Tiled(d, end) && Isolated(d) && LiveAt(d, p) && p != PROLOGUE && c == Freed(d, end, p)
    ensures Replaced(b, c, p, q) && c[q] == d[q]
  {
    hide Tiled, Isolated;
    assert SameLive(d, c, p) && !LiveAt(c, p);
    forall x | x != p && x != q ensures LiveAt(b, x) <==> LiveAt(c, x) {
      assert LiveAt(b, x) <==> LiveAt(d, x);
    }
  }

  // What the block at p grows to.
  lemma EnlargedReplaced(b: Blocks, end: int, p: int, n: int)
    requires Tiled(b, end) && Isolated(b) && LiveAt(b, p) && p != PROLOGUE
    requires PlanOf(b, p, n) in {Absorb, GrowAndAbsorb}
    ensures var k := Shortfall(b, p, n);
      var g := Enlarged(b, end, k);
      && (PlanOf(b, p, n) == GrowAndAbsorb <==> k > 0)
      && p in g && Next(g, p) in g && Tiled(Merge(g, p), end + 2 * k) && Isolated(Merge(g, p))
      && Replaced(b, Merge(g, p), p, p) && Merge(g, p)[p].units >= n
  {
    hide Shaped, Separate, Chained, Below, Isolated;
    var k := Shortfall(b, p, n);
    InTiles(b, end, p);
    if Next(b, p) in b {
      InTiles(b, end, Next(b, p));
    }
    if k > 0 {
      GrownBehind(b, end, p, k);
    }
    var g := Enlarged(b, end, k);
    assert SameLive(b, g, 0);
    AbsorbedIsolated(g, end + 2 * k, p);
    var c := Merge(g, p);
    InTiles(g, end + 2 * k, p);
    forall x | x != p && (LiveAt(b, x) || LiveAt(c, x)) ensures x in b && x in c && b[x] == c[x] {
      assert LiveAt(b, x) || LiveAt(g, x);
      InTiles(if LiveAt(b, x) then b else g, if LiveAt(b, x) then end else end + 2 * k, x);
    }
  }

  // The five courses of mm_realloc for a block of u units at p, told by the heap alone;
  // `avail` adds the free block behind it, if there is one.
  lemma ReallocCourses(b: Blocks, end: int, p: int, size: int, capacity: int,
                       c: Blocks, end': int, at: int, crashed: bool)
    requires Tiled(b, end) && Isolated(b) && LiveAt(b, p) && p != PROLOGUE && size > 0
    requires Resized(b, end, p, size, capacity, c, end', at, crashed)
    ensures var n, u, q := BlockUnits(size), b[p].units, p + 2 * b[p].units;
      var avail := if q in b && !b[q].alloc then u + b[q].units else u;
      var k, m := if n - avail > 512 then n - avail else 512, if n > 512 then n else 512;
      if u >= n then
        at == p && !crashed && c == b && end' == end
      else if q in b && b[q].alloc then
        var found := 8 * n < 0x1_0000 && exists x :: Fits(b, x, n);
        && (crashed <==> at == 0) && (at == 0 <==> !found && end + 2 * m > capacity)
        && end' == (if at == 0 || found then end else end + 2 * m)
        && (at == 0 ==> c == b)
        && (at != 0 ==> at != p && !LiveAt(b, at) && LiveAt(c, at) && !LiveAt(c, p))
      else if avail >= n then
        at == p && !crashed && end' == end && c == (b - {q})[p := Block(avail, true)]
      else
        && !crashed && (at == 0 <==> end + 2 * k > capacity)
        && if at == 0 then c == b && end' == end
           else
             && at == p && end' == end + 2 * k
             && (q !in b || q + 2 * b[q].units !in b ==> c == (b - {q})[p := Block(avail + k, true)])
  {
    hide Shaped, Separate, Chained, Below, Isolated, Handed, Freed, Grown, Crashes, Swallows, Starved, Refused;
    var n, q := BlockUnits(size), Next(b, p);
    InTiles(b, end, p);
    if PlanOf(b, p, n) == Move {
      var d :| Handed(b, end, size, capacity, d, end', at) && crashed == (at == 0)
               && (crashed || (Tiled(d, end') && Isolated(d) && LiveAt(d, p) && c == Freed(d, end', p)));
      HandedEffect(b, end, size, capacity, d, end', at);
      HandedOutcome(b, end, size, capacity, d, end', at);
      if at != 0 {
        MovedReplaced(b, d, c, end', p, at);
      }
    } else if PlanOf(b, p, n) == GrowAndAbsorb {
      TakenExact(b, end, p, Shortfall(b, p, n));
    }
  }

  // When mm_realloc does harm, told by the heap alone.
  lemma HarmMeaning(b: Blocks, end: int, p: int, n: int, capacity: int)
    requires Tiled(b, end) && LiveAt(b, p)
    ensures var u, q := b[p].units, p + 2 * b[p].units;
      && (Swallows(b, end, p, n, capacity) <==>
            && q in b && !b[q].alloc && q + 2 * b[q].units in b && u + b[q].units < n
            && end + 2 * (if n - u - b[q].units > 512 then n - u - b[q].units else 512) <= capacity)
      && (Crashes(b, end, p, n, capacity) <==>
            && u < n && q in b && b[q].alloc && !(8 * n < 0x1_0000 && exists x :: Fits(b, x, n))
            && end + 2 * (if n > 512 then n else 512) > capacity)
  {
    InTiles(b, end, p);
  }

  // The block at p with the last free block of the heap, or none, behind it, after the
  // heap has grown by k units.
  lemma TakenExact(b: Blocks, end: int, p: int, k: int)
    requires Tiled(b, end) && Isolated(b) && LiveAt(b, p) && p != PROLOGUE && !LiveAt(b, Next(b, p)) && k >= MIN_UNITS
    requires Next(b, p) in b ==> Next(b, Next(b, p)) !in b
    ensures var q, g := Next(b, p), Grown(b, end, k);
      && p in g && Next(g, p) in g
      && Merge(g, p) == (b - {q})[p := Block(b[p].units + (if q in b then b[q].units else 0) + k, true)]
  {
    hide Shaped, Separate, Chained, Below, Isolated;
    InTiles(b, end, p);
    var q := Next(b, p);
    if q in b {
      InTiles(b, end, q);
      GrownExact(b, end, k, q);
    } else {
      GrownExact(b, end, k, p);
    }
  }

  // ---- Round trips and runs -----------------------------------------------------------

  // mm_free undoes an mm_malloc that did not grow the heap: same tiling, hence the
  // same blocks on the lists.
  lemma FreeUndoesMalloc(b: Blocks, end: int, size: int, capacity: int, c: Blocks, at: int)
    requires Tiled(b, end) && Isolated(b) && 0 <= size && Handed(b, end, size, capacity, c, end, at) && at != 0
    ensures Tiled(c, end) && Isolated(c) && LiveAt(c, at) && at != PROLOGUE && Freed(c, end, at) == b
    ensures FreeSizes(Freed(c, end, at)) == FreeSizes(b)
  {
    hide Tiled, Isolated, SameLive, Handed, Freed;
    HandedEffect(b, end, size, capacity, c, end, at);
    ComesAndGoes(b, c, Freed(c, end, at), end, at);
  }

  // A tiling and its brk.
  datatype Config = Config(blocks: Blocks, end: int)

  ghost predicate Orderly(s: Config) {
    Tiled(s.blocks, s.end) && Isolated(s.blocks)
  }

  // One call of mm_malloc, mm_free or, unless it swallows a block or crashes, mm_realloc.
  ghost predicate Call(s: Config, t: Config, capacity: int)
    requires Orderly(s)
  {
    || (exists size, at :: 0 <= size && Handed(s.blocks, s.end, size, capacity, t.blocks, t.end, at))
    || (exists p :: LiveAt(s.blocks, p) && p != PROLOGUE && t == Config(Freed(s.blocks, s.end, p), s.end))
    || (exists p, k :: Grows(s, t, p, k))
    || (exists p, u :: Moves(s, t, capacity, p, u))
  }

  // mm_realloc takes in the block behind p, after the heap has grown by k units.
  ghost predicate Grows(s: Config, t: Config, p: int, k: int)
    requires Orderly(s)
  {
    && LiveAt(s.blocks, p) && p != PROLOGUE && (k == 0 || k >= MIN_UNITS)
    && var g := Enlarged(s.blocks, s.end, k);
    && p in g && Next(g, p) in g && !g[Next(g, p)].alloc
    && t == Config(Merge(g, p), s.end + 2 * k)
  }

  // mm_realloc allocates a new block (tiling u) and frees the old one at p.
  ghost predicate Moves(s: Config, t: Config, capacity: int, p: int, u: Config)
    requires Orderly(s)
  {
    && LiveAt(s.blocks, p) && p != PROLOGUE && Orderly(u) && LiveAt(u.blocks, p)
    && (exists size, at :: 0 <= size && Handed(s.blocks, s.end, size, capacity, u.blocks, u.end, at))
    && t == Config(Freed(u.blocks, u.end, p), u.end)
  }

  lemma CallOrderly(s: Config, t: Config, capacity: int)
    requires Orderly(s) && Call(s, t, capacity)
    ensures Orderly(t)
  {
    hide Tiled, Isolated, Enlarged;
    if size, at :| 0 <= size && Handed(s.blocks, s.end, size, capacity, t.blocks, t.end, at) {
      HandedEffect(s.blocks, s.end, size, capacity, t.blocks, t.end, at);
    } else if p, k :| Grows(s, t, p, k) {
      GrowsOrderly(s, t, p, k);
    }
  }

  lemma GrowsOrderly(s: Config, t: Config, p: int, k: int)
    requires Orderly(s) && Grows(s, t, p, k)
    ensures Orderly(t)
  {
    hide Shaped, Separate, Chained, Below, Isolated;
    var g := Enlarged(s.blocks, s.end, k);
    InTiles(s.blocks, s.end, p);
    assert LiveAt(g, p);
    AbsorbedIsolated(g, s.end + 2 * k, p);
  }

  ghost predicate IsRun(run: seq<Config>, capacity: int) {
    && run != [] && run[0] == Config(map[PROLOGUE := Block(1, true), 4 := Block(CHUNK_UNITS, false)], 4 + 2 * CHUNK_UNITS)
    && forall i :: 0 <= i < |run| - 1 ==> Orderly(run[i]) ==> Call(run[i], run[i + 1], capacity)
  }

  // Every state of every run is a tiling without free neighbours.
  lemma {:induction false} RunOrderly(run: seq<Config>, capacity: int, i: int)
    requires IsRun(run, capacity) && 0 <= i < |run|
    ensures Orderly(run[i])
    decreases i
  {
    if i == 0 {
      FirstChunk();
      GrowsTidy(map[PROLOGUE := Block(1, true)], 4, CHUNK_UNITS);
    } else {
      RunOrderly(run, capacity, i - 1);
      assert Call(run[i - 1], run[i - 1 + 1], capacity);
      CallOrderly(run[i - 1], run[i], capacity);
    }
  }

  // Whatever a run has done, once everything is freed one free block is left.
  lemma RunAllFreed(run: seq<Config>, capacity: int, i: int)
    requires IsRun(run, capacity) && 0 <= i < |run| && run[i].end > 4
    requires forall p :: LiveAt(run[i].blocks, p) ==> p == PROLOGUE
    ensures run[i].blocks == map[PROLOGUE := Block(1, true), 4 := Block((run[i].end - 4) / 2, false)]
  {
    RunOrderly(run, capacity, i);
    forall p | p in run[i].blocks && p != PROLOGUE ensures !run[i].blocks[p].alloc {
      assert !LiveAt(run[i].blocks, p);
    }
    AllFree(run[i].blocks, run[i].end);
  }

  // Runs that end with the same brk and the same live blocks end with the same heap.
  lemma RunForgets(run: seq<Config>, capacity: int, i: int, run': seq<Config>, capacity': int, j: int)
    requires IsRun(run, capacity) && 0 <= i < |run| && IsRun(run', capacity') && 0 <= j < |run'|
    requires run[i].end == run'[j].end && SameLive(run[i].blocks, run'[j].blocks, 0)
    ensures run[i] == run'[j]
  {
    RunOrderly(run, capacity, i);
    RunOrderly(run', capacity', j);
    LiveDetermine(run[i].blocks, run'[j].blocks, run[i].end);
  }

  // Whatever mm_realloc does to a live block, short of swallowing another or crashing,
  // is a call.
  lemma ReallocIsCall(b: Blocks, end: int, p: int, size: int, capacity: int,
                      c: Blocks, end': int, at: int, crashed: bool)
    requires Tiled(b, end) && Isolated(b) && LiveAt(b, p) && p != PROLOGUE && size > 0
    requires Resized(b, end, p, size, capacity, c, end', at, crashed)
    requires !Swallows(b, end, p, BlockUnits(size), capacity) && !Crashes(b, end, p, BlockUnits(size), capacity)
    ensures Call(Config(b, end), Config(c, end'), capacity)
  {
    hide Shaped, Separate, Below, Isolated, Crashes;
    CrashCondition(b, end, p, size, capacity, c, end', at, crashed);
    var s, t := Config(b, end), Config(c, end');
    var n, k := BlockUnits(size), Shortfall(b, p, BlockUnits(size));
    var plan := PlanOf(b, p, n);
    if c == b && end' == end {
      assert Handed(b, end, 0, capacity, c, end', 0);
    } else if plan == Move {
      var d :| Handed(b, end, size, capacity, d, end', at) && Tiled(d, end') && Isolated(d) && LiveAt(d, p)
               && c == Freed(d, end', p);
      assert Moves(s, t, capacity, p, Config(d, end'));
    } else {
      if k > 0 {
        GrownBehind(b, end, p, k);
      }
      assert Grows(s, t, p, k);
    }
  }

  // ---- A swallowed block ------------------------------------------------------------------

  // With a single fitting block, a small request is served from it.
  lemma HandedOnly(b: Blocks, end: int, size: int, capacity: int, c: Blocks, end': int, at: int, p: int)
    requires Tiled(b, end) && Isolated(b) && 0 < size <= DSIZE && Handed(b, end, size, capacity, c, end', at)
    requires Fits(b, p, MIN_UNITS) && forall x :: Fits(b, x, MIN_UNITS) ==> x == p
    ensures end' == end && c == Placed(b, p, MIN_UNITS) && at == PlacedAt(b, p, MIN_UNITS)
  {
    assert BlockUnits(size) == MIN_UNITS;
  }

  // Three blocks of 16 bytes at the front of the first chunk, the second free again.
  lemma SecondFreed(b: Blocks, end: int)
    requires Tiled(b, end) && Isolated(b)
    requires b == map[PROLOGUE := Block(1, true), 4 := Block(2, true), 8 := Block(2, true), 12 := Block(2, true),
                      16 := Block(CHUNK_UNITS - 6, false)]
    ensures Freed(b, end, 8) == map[PROLOGUE := Block(1, true), 4 := Block(2, true), 8 := Block(2, false),
                                    12 := Block(2, true), 16 := Block(CHUNK_UNITS - 6, false)]
    ensures PlanOf(Freed(b, end, 8), 4, BlockUnits(100)) == Swallow
    ensures Shortfall(Freed(b, end, 8), 4, BlockUnits(100)) == CHUNK_UNITS
  {
    FreedTidy(b, end, 8);
    var f := Tag(b, 8, false);
    assert Next(f, 4) == 8 && Next(f, 8) == 12 && Next(f, 12) == 16;
    PrevIsUnique(f, 8, 4);
    assert Coalesced(f, 8) == f;
    assert BlockUnits(100) == 14;
  }
}
