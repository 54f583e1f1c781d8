// The index of free blocks kept by malloc/mm_segregated.c: one doubly linked
// list per size class, threaded through the first two payload words of the
// blocks.  `listed` maps the address of every listed block to its size in units
// of 8 bytes; a list is seen as the sequence of its addresses.
module FreeLists {
  import opened Words
  import opened SizeClasses

  type Sizes = map<int, int>

  // The i-th address of L, or the null pointer beyond either end.
  function At(L: seq<int>, i: int): int {
    if 0 <= i < |L| then L[i] else 0
  }

  // Every listed block leaves room for two links, and its header gives its size.
  ghost predicate Nodes(m: seq<Word>, listed: Sizes) {
    forall p :: p in listed ==> 4 <= p && p + 2 <= |m| && 2 <= listed[p] && GetSize(m[p - 1]) == 8 * listed[p]
  }

  // Listed blocks are at least 16 bytes apart.
  ghost predicate Spaced(listed: Sizes) {
    forall p, q :: p in listed && q in listed && p < q ==> p + 4 <= q
  }

  // PRED and SUCC of the i-th node of L.
  ghost predicate NodeLinked(m: seq<Word>, L: seq<int>, i: int)
    requires 0 <= i < |L|
  {
    0 <= L[i] < |m| - 1 && m[L[i]] == At(L, i - 1) && m[L[i] + 1] == At(L, i + 1)
  }

  ghost predicate Linked(m: seq<Word>, L: seq<int>) {
    forall i :: 0 <= i < |L| ==> NodeLinked(m, L, i)
  }

  ghost predicate Members(L: seq<int>, listed: Sizes, c: int) {
    forall i {:trigger L[i]} :: 0 <= i < |L| ==> L[i] in listed && ClassOf(8 * listed[L[i]]) == c
  }

  // Each block once, smallest first.
  ghost predicate Sorted(L: seq<int>, listed: Sizes)
    requires forall i :: 0 <= i < |L| ==> L[i] in listed
  {
    forall i, j :: 0 <= i < j < |L| ==> L[i] != L[j] && listed[L[i]] <= listed[L[j]]
  }

  ghost predicate ListOf(m: seq<Word>, L: seq<int>, listed: Sizes, c: int) {
    Linked(m, L) && Members(L, listed, c) && Sorted(L, listed)
  }

  ghost predicate Index(m: seq<Word>, heads: seq<int>, lists: seq<seq<int>>, listed: Sizes) {
    && |heads| == |lists| == LIST_MAX
    && Nodes(m, listed) && Spaced(listed)
    && (forall c :: 0 <= c < LIST_MAX ==> heads[c] == At(lists[c], 0) && ListOf(m, lists[c], listed, c))
    && (forall p :: p in listed ==> p in lists[ClassOf(8 * listed[p])])
  }

  // m and r differ only in link words of listed blocks.
  ghost predicate SameButLinks(m: seq<Word>, r: seq<Word>, listed: Sizes) {
    && |r| == |m|
    && forall w {:trigger r[w]} {:trigger m[w]} :: 0 <= w < |m| && w !in listed && w - 1 !in listed ==> r[w] == m[w]
  }

  // ---- Inserting ----------------------------------------------------------------

  function Inserted(L: seq<int>, k: int, p: int): seq<int>
    requires 0 <= k <= |L|
  {
    L[..k] + [p] + L[k..]
  }

  // The links of p are set, and those of its new neighbours, if any, turned to it.
  function InsertImage(m: seq<Word>, L: seq<int>, k: int, p: int): (r: seq<Word>)
    requires 0 <= k <= |L| && 0 <= p < |m| - 1
    requires |m| < 0x1_0000_0000
    requires k > 0 ==> 0 <= L[k - 1] < |m| - 1
    requires k < |L| ==> 0 <= L[k] < |m| - 1
    requires 0 <= At(L, k - 1) <= |m| && 0 <= At(L, k) <= |m|
    ensures |r| == |m|
  {
    var m1 := m[p := At(L, k - 1)][p + 1 := At(L, k)];
    var m2 := if k > 0 then m1[L[k - 1] + 1 := p] else m1;
    if k < |L| then m2[L[k] := p] else m2
  }

  // x and y are the same block or lie at least 16 bytes apart.
  predicate Apart(x: int, y: int) {
    x == y || x + 4 <= y || y + 4 <= x
  }

  // p and the nodes of L are distinct blocks of the heap.
  ghost predicate Room(m: seq<Word>, L: seq<int>, p: int) {
    && 4 <= p < |m| - 1 && |m| < 0x1_0000_0000 && p !in L
    && (forall i :: 0 <= i < |L| ==> 4 <= L[i] < |m| - 1 && Apart(L[i], p))
    && forall i, j :: 0 <= i < j < |L| ==> L[i] != L[j] && Apart(L[i], L[j])
  }

  // What InsertImage leaves in the link words of the node at position i of L.
  lemma InsertOld(m: seq<Word>, L: seq<int>, k: int, p: int, i: int)
    requires 0 <= k <= |L| && Room(m, L, p) && 0 <= i < |L| && NodeLinked(m, L, i)
    ensures var r := InsertImage(m, L, k, p);
      && r[L[i]] == (if i == k then p else At(L, i - 1))
      && r[L[i] + 1] == (if i == k - 1 then p else At(L, i + 1))
  {
  }

  lemma InsertNew(m: seq<Word>, L: seq<int>, k: int, p: int)
    requires 0 <= k <= |L| && Room(m, L, p)
    ensures var r := InsertImage(m, L, k, p);
      r[p] == At(L, k - 1) && r[p + 1] == At(L, k)
  {
  }

  lemma InsertLinks(m: seq<Word>, L: seq<int>, k: int, p: int)
    requires 0 <= k <= |L| && Room(m, L, p) && Linked(m, L)
    ensures Linked(InsertImage(m, L, k, p), Inserted(L, k, p))
  {
    hide InsertImage;
    var r, L' := InsertImage(m, L, k, p), Inserted(L, k, p);
    forall i | 0 <= i < |L'| ensures NodeLinked(r, L', i) {
      if i == k {
        InsertNew(m, L, k, p);
      } else {
        InsertOld(m, L, k, p, if i < k then i else i - 1);
      }
    }
  }

  // The block p of u units has come into list c, behind all smaller blocks and in
  // front of all others.
  ghost predicate LinkedIn(lists: seq<seq<int>>, after: seq<seq<int>>, listed: Sizes, c: int, k: int, p: int, u: int) {
    && 0 <= c < |lists| && 0 <= k <= |lists[c]|
    && after == lists[c := lists[c][..k] + [p] + lists[c][k..]]
    && (forall i :: 0 <= i < k ==> lists[c][i] in listed && listed[lists[c][i]] < u)
    && (forall i :: k <= i < |lists[c]| ==> lists[c][i] in listed && u <= listed[lists[c][i]])
  }

  // The k-th block p of list c has left it.
  ghost predicate TakenOut(lists: seq<seq<int>>, after: seq<seq<int>>, c: int, k: int, p: int) {
    && 0 <= c < |lists| && 0 <= k < |lists[c]| && lists[c][k] == p
    && after == lists[c := lists[c][..k] + lists[c][k + 1..]]
  }

  // p is the first block of at least n units of list c.
  ghost predicate FirstOf(lists: seq<seq<int>>, listed: Sizes, c: int, k: int, p: int, n: int) {
    && 0 <= c < |lists| && 0 <= k < |lists[c]| && lists[c][k] == p
    && forall i :: 0 <= i < k ==> lists[c][i] in listed && listed[lists[c][i]] < n
  }

  // ---- Deleting -----------------------------------------------------------------

  function Removed(L: seq<int>, k: int): seq<int>
    requires 0 <= k < |L|
  {
    L[..k] + L[k + 1..]
  }

  // The neighbours of the k-th node of L, if any, are linked to each other.
  function DeleteImage(m: seq<Word>, L: seq<int>, k: int): (r: seq<Word>)
    requires 0 <= k < |L| && |m| < 0x1_0000_0000
    requires k > 0 ==> 0 <= L[k - 1] < |m| - 1
    requires k + 1 < |L| ==> 0 <= L[k + 1] < |m| - 1
    ensures |r| == |m|
  {
    var m1 := if k > 0 then m[L[k - 1] + 1 := At(L, k + 1)] else m;
    if k + 1 < |L| then m1[L[k + 1] := At(L, k - 1)] else m1
  }

  lemma DeleteOld(m: seq<Word>, L: seq<int>, k: int, i: int)
    requires 0 <= k < |L| && Room(m, Removed(L, k), L[k]) && 0 <= i < |L| && i != k && NodeLinked(m, L, i)
    ensures k > 0 ==> L[k - 1] == Removed(L, k)[k - 1]
    ensures k + 1 < |L| ==> L[k + 1] == Removed(L, k)[k]
    ensures var r := DeleteImage(m, L, k);
      && r[L[i]] == (if i == k + 1 then At(L, k - 1) else At(L, i - 1))
      && r[L[i] + 1] == (if i == k - 1 then At(L, k + 1) else At(L, i + 1))
  {
    assert k > 0 ==> L[k - 1] == Removed(L, k)[k - 1];
    assert k + 1 < |L| ==> L[k + 1] == Removed(L, k)[k];
    assert L[i] == Removed(L, k)[if i < k then i else i - 1];
  }

  lemma DeleteLinks(m: seq<Word>, L: seq<int>, k: int)
    requires 0 <= k < |L| && Room(m, Removed(L, k), L[k]) && Linked(m, L)
    ensures k > 0 ==> L[k - 1] == Removed(L, k)[k - 1]
    ensures k + 1 < |L| ==> L[k + 1] == Removed(L, k)[k]
    ensures Linked(DeleteImage(m, L, k), Removed(L, k))
  {
    hide DeleteImage;
    var L' := Removed(L, k);
    assert k > 0 ==> L[k - 1] == L'[k - 1];
    assert k + 1 < |L| ==> L[k + 1] == L'[k];
    var r := DeleteImage(m, L, k);
    forall i | 0 <= i < |L'| ensures NodeLinked(r, L', i) {
      DeleteOld(m, L, k, if i < k then i else i + 1);
    }
  }

  // ---- The index as a whole -------------------------------------------------------

  // Lists whose link words are untouched stay linked.
  lemma LinkedFrame(m: seq<Word>, r: seq<Word>, L: seq<int>)
    requires Linked(m, L) && |r| == |m|
    requires forall i :: 0 <= i < |L| ==> 0 <= L[i] < |m| - 1 && r[L[i]] == m[L[i]] && r[L[i] + 1] == m[L[i] + 1]
    ensures Linked(r, L)
  {
    forall i | 0 <= i < |L| ensures NodeLinked(r, L, i) {
      assert NodeLinked(m, L, i);
    }
  }

  // Writes that miss every listed header and link word leave the index alone.
  lemma IndexFrame(m: seq<Word>, r: seq<Word>, heads: seq<int>, lists: seq<seq<int>>, listed: Sizes)
    requires Index(m, heads, lists, listed) && |r| == |m|
    requires forall p :: p in listed ==> r[p - 1] == m[p - 1] && r[p] == m[p] && r[p + 1] == m[p + 1]
    ensures Index(r, heads, lists, listed)
  {
    forall c | 0 <= c < LIST_MAX ensures Linked(r, lists[c]) {
      assert Members(lists[c], listed, c);
      LinkedFrame(m, r, lists[c]);
    }
  }

  // The nodes of one list, and a further block p, keep their distance.
  lemma ListRoom(m: seq<Word>, L: seq<int>, listed: Sizes, c: int, all: Sizes, p: int)
    requires Members(L, listed, c) && Sorted(L, listed) && Nodes(m, all) && Spaced(all)
    requires p in all && p !in L && (forall x :: x in listed ==> x in all) && |m| < 0x1_0000_0000
    ensures Room(m, L, p)
  {
    assert forall i :: 0 <= i < |L| ==> L[i] in L;
  }

  lemma InsertTouches(m: seq<Word>, L: seq<int>, k: int, p: int)
    requires 0 <= k <= |L| && Room(m, L, p)
    ensures var r := InsertImage(m, L, k, p);
      forall w :: 0 <= w < |m| && w !in L && w - 1 !in L && w != p && w - 1 != p ==> r[w] == m[w]
  {
  }

  lemma DeleteTouches(m: seq<Word>, L: seq<int>, k: int)
    requires 0 <= k < |L| && Room(m, Removed(L, k), L[k])
    ensures k > 0 ==> L[k - 1] == Removed(L, k)[k - 1]
    ensures k + 1 < |L| ==> L[k + 1] == Removed(L, k)[k]
    ensures var r := DeleteImage(m, L, k);
      forall w :: 0 <= w < |m| && w !in L && w - 1 !in L ==> r[w] == m[w]
  {
    assert k > 0 ==> L[k - 1] == Removed(L, k)[k - 1];
    assert k + 1 < |L| ==> L[k + 1] == Removed(L, k)[k];
  }

  lemma InsertedList(L: seq<int>, listed: Sizes, c: int, k: int, p: int, u: int)
    requires Members(L, listed, c) && Sorted(L, listed) && p !in listed && p !in L && ClassOf(8 * u) == c && 0 <= k <= |L|
    requires forall i :: 0 <= i < k ==> listed[L[i]] <= u
    requires forall i :: k <= i < |L| ==> u <= listed[L[i]]
    ensures Members(Inserted(L, k, p), listed[p := u], c) && Sorted(Inserted(L, k, p), listed[p := u])
    ensures forall x :: x in Inserted(L, k, p) <==> x in L || x == p
  {
    hide ClassOf, Sorted;
    InsertedMembers(L, listed, c, k, p, u);
    InsertedSorted(L, listed, k, p, u);
    assert L == L[..k] + L[k..];
  }

  lemma InsertedSorted(L: seq<int>, listed: Sizes, k: int, p: int, u: int)
    requires (forall i :: 0 <= i < |L| ==> L[i] in listed) && Sorted(L, listed) && p !in listed && 0 <= k <= |L|
    requires forall i :: 0 <= i < k ==> listed[L[i]] <= u
    requires forall i :: k <= i < |L| ==> u <= listed[L[i]]
    ensures forall i :: 0 <= i < |L| + 1 ==> Inserted(L, k, p)[i] in listed[p := u]
    ensures Sorted(Inserted(L, k, p), listed[p := u])
  {
    var L', all := Inserted(L, k, p), listed[p := u];
    forall i, j | 0 <= i < j < |L'| ensures L'[i] != L'[j] && all[L'[i]] <= all[L'[j]] {
      var x, y := if i <= k then i else i - 1, if j <= k then j else j - 1;
      assert i != k ==> L'[i] == L[x];
      assert j != k ==> L'[j] == L[y];
    }
  }

  lemma InsertedMembers(L: seq<int>, listed: Sizes, c: int, k: int, p: int, u: int)
    requires Members(L, listed, c) && p !in listed && ClassOf(8 * u) == c && 0 <= k <= |L|
    ensures Members(Inserted(L, k, p), listed[p := u], c)
  {
    hide ClassOf;
  }

  lemma RemovedList(L: seq<int>, listed: Sizes, c: int, k: int)
    requires Members(L, listed, c) && Sorted(L, listed) && 0 <= k < |L|
    ensures Members(Removed(L, k), listed - {L[k]}, c) && Sorted(Removed(L, k), listed - {L[k]})
    ensures forall x :: x in Removed(L, k) <==> x in L && x != L[k]
  {
    var L' := Removed(L, k);
    assert forall i :: 0 <= i < |L'| ==> L'[i] == if i < k then L[i] else L[i + 1];
    assert L == L[..k] + [L[k]] + L[k + 1..];
  }

  // r differs from m only in link words of the blocks in L and of p.
  ghost predicate TouchesOnly(m: seq<Word>, r: seq<Word>, L: seq<int>, p: int) {
    && |r| == |m|
    && forall w :: 0 <= w < |m| && w !in L && w - 1 !in L && w != p && w - 1 != p ==> r[w] == m[w]
  }

  // Work on one list, with p coming or going, leaves headers and all other lists as they were.
  lemma OtherLists(m: seq<Word>, r: seq<Word>, all: Sizes, L: seq<int>, p: int, K: seq<int>)
    requires Nodes(m, all) && Spaced(all) && p in all && TouchesOnly(m, r, L, p)
    requires forall x :: x in L || x in K ==> x in all
    requires p !in K && (forall x :: x in L ==> x !in K) && Linked(m, K)
    ensures Nodes(r, all) && Linked(r, K) && SameButLinks(m, r, all)
  {
    forall x | x in all ensures x - 1 !in L && x - 2 !in L && x - 1 != p && x - 2 != p {
    }
    forall i | 0 <= i < |K| ensures 0 <= K[i] < |m| - 1 && r[K[i]] == m[K[i]] && r[K[i] + 1] == m[K[i] + 1] {
      assert K[i] in K;
      assert K[i] + 1 !in L && K[i] - 1 !in L;
    }
    LinkedFrame(m, r, K);
  }

  lemma ClassesDisjoint(L: seq<int>, K: seq<int>, listed: Sizes, c: int, d: int)
    requires Members(L, listed, c) && Members(K, listed, d) && c != d
    ensures forall x :: x in L ==> x !in K && x in listed
    ensures forall x :: x in K ==> x in listed
  {
  }

  // A new list for class c, all other lists still in order, make an index again.
  lemma Assemble(r: seq<Word>, heads: seq<int>, lists: seq<seq<int>>, all: Sizes, c: int, L': seq<int>)
    requires |heads| == |lists| == LIST_MAX && 0 <= c < LIST_MAX
    requires Nodes(r, all) && Spaced(all) && ListOf(r, L', all, c)
    requires forall d :: 0 <= d < LIST_MAX && d != c ==> heads[d] == At(lists[d], 0) && ListOf(r, lists[d], all, d)
    requires forall x :: x in all ==>
      if ClassOf(8 * all[x]) == c then x in L' else x in lists[ClassOf(8 * all[x])]
    ensures Index(r, heads[c := At(L', 0)], lists[c := L'], all)
  {
  }

  lemma FewerNodes(m: seq<Word>, all: Sizes, p: int)
    requires Nodes(m, all) && Spaced(all)
    ensures Nodes(m, all - {p}) && Spaced(all - {p})
  {
  }

  // The lists of the other classes when p joins `listed`...
  lemma OthersWith(m: seq<Word>, r: seq<Word>, listed: Sizes, L: seq<int>, c: int, p: int, u: int, K: seq<int>, d: int)
    requires Nodes(m, listed[p := u]) && Spaced(listed[p := u]) && p !in listed && TouchesOnly(m, r, L, p)
    requires Members(L, listed, c) && ListOf(m, K, listed, d) && c != d
    ensures ListOf(r, K, listed[p := u], d)
  {
    ClassesDisjoint(L, K, listed, c, d);
    OtherLists(m, r, listed[p := u], L, p, K);
  }

  // ... and when it leaves.
  lemma OthersWithout(m: seq<Word>, r: seq<Word>, listed: Sizes, L: seq<int>, c: int, p: int, K: seq<int>, d: int)
    requires Nodes(m, listed) && Spaced(listed) && p in L && TouchesOnly(m, r, L, p)
    requires Members(L, listed, c) && ListOf(m, K, listed, d) && c != d
    ensures ListOf(r, K, listed - {p}, d)
  {
    ClassesDisjoint(L, K, listed, c, d);
    OtherLists(m, r, listed, L, p, K);
  }

  // insert_node: p, of u units, goes to position k of its class.
  lemma IndexInserted(m: seq<Word>, heads: seq<int>, lists: seq<seq<int>>, listed: Sizes, k: int, p: int, u: int)
    requires Index(m, heads, lists, listed) && p !in listed && |m| < 0x1_0000_0000
    requires Nodes(m, listed[p := u]) && Spaced(listed[p := u])
    requires var L := lists[ClassOf(8 * u)];
      && 0 <= k <= |L|
      && (forall i {:trigger L[i]} :: 0 <= i < k ==> L[i] in listed && listed[L[i]] <= u)
      && (forall i {:trigger L[i]} :: k <= i < |L| ==> L[i] in listed && u <= listed[L[i]])
    ensures var c := ClassOf(8 * u);
      && Room(m, lists[c], p)
      && var r, L' := InsertImage(m, lists[c], k, p), Inserted(lists[c], k, p);
      && Index(r, heads[c := At(L', 0)], lists[c := L'], listed[p := u])
      && SameButLinks(m, r, listed[p := u])
  {
    hide InsertImage, Inserted, Nodes, Spaced, Linked, Sorted, Room;
    var c, all := ClassOf(8 * u), listed[p := u];
    var L := lists[c];
    assert ListOf(m, L, listed, c);
    assert p !in L;
    ListRoom(m, L, listed, c, all, p);
    var r, L' := InsertImage(m, L, k, p), Inserted(L, k, p);
    InsertTouches(m, L, k, p);
    assert TouchesOnly(m, r, L, p);
    InsertLinks(m, L, k, p);
    InsertedList(L, listed, c, k, p, u);
    forall d | 0 <= d < LIST_MAX && d != c ensures ListOf(r, lists[d], all, d) {
      assert ListOf(m, lists[d], listed, d);
      OthersWith(m, r, listed, L, c, p, u, lists[d], d);
    }
    OtherLists(m, r, all, L, p, []);
    Assemble(r, heads, lists, all, c, L');
  }

  // delete_node: the node at position k of class c leaves.
  lemma IndexRemoved(m: seq<Word>, heads: seq<int>, lists: seq<seq<int>>, listed: Sizes, c: int, k: int)
    requires Index(m, heads, lists, listed) && |m| < 0x1_0000_0000
    requires 0 <= c < LIST_MAX && 0 <= k < |lists[c]|
    ensures var L, p := lists[c], lists[c][k];
      && p in listed && Room(m, Removed(L, k), p)
      && (k > 0 ==> L[k - 1] == Removed(L, k)[k - 1]) && (k + 1 < |L| ==> L[k + 1] == Removed(L, k)[k])
      && var r, L' := DeleteImage(m, L, k), Removed(L, k);
      && Index(r, heads[c := At(L', 0)], lists[c := L'], listed - {p})
      && SameButLinks(m, r, listed)
  {
    hide DeleteImage, Nodes, Spaced, Linked, Sorted, Room;
    var L, p := lists[c], lists[c][k];
    assert ListOf(m, L, listed, c);
    RemovedList(L, listed, c, k);
    ListRoom(m, Removed(L, k), listed - {p}, c, listed, p);
    var r, L' := DeleteImage(m, L, k), Removed(L, k);
    DeleteTouches(m, L, k);
    assert TouchesOnly(m, r, L, p);
    DeleteLinks(m, L, k);
    forall d | 0 <= d < LIST_MAX && d != c ensures ListOf(r, lists[d], listed - {p}, d) {
      assert ListOf(m, lists[d], listed, d);
      OthersWithout(m, r, listed, L, c, p, lists[d], d);
    }
    OtherLists(m, r, listed, L, p, []);
    FewerNodes(r, listed, p);
    Assemble(r, heads, lists, listed - {p}, c, L');
  }

  // ---- What the index says ----------------------------------------------------------

  ghost predicate ListedAt(lists: seq<seq<int>>, c: int, k: int, p: int) {
    0 <= c < |lists| && 0 <= k < |lists[c]| && lists[c][k] == p
  }

  // Exactly the blocks of `listed` are on the lists, each in one place only.
  lemma ListedOnce(m: seq<Word>, heads: seq<int>, lists: seq<seq<int>>, listed: Sizes, p: int)
    requires Index(m, heads, lists, listed)
    ensures p in listed <==> exists c, k :: ListedAt(lists, c, k, p)
    ensures forall c, k, d, l :: ListedAt(lists, c, k, p) && ListedAt(lists, d, l, p) ==> c == d && k == l
  {
    forall c, k | ListedAt(lists, c, k, p) ensures p in listed && c == ClassOf(8 * listed[p]) {
      assert ListOf(m, lists[c], listed, c);
    }
    if p in listed {
      var c := ClassOf(8 * listed[p]);
      var k :| 0 <= k < |lists[c]| && lists[c][k] == p;
      assert ListedAt(lists, c, k, p);
    }
    forall c, k, d, l | ListedAt(lists, c, k, p) && ListedAt(lists, d, l, p) ensures k == l {
      assert ListOf(m, lists[c], listed, c);
    }
  }

  // The block at place k of list c: its class, its links, which are mutually
  // inverse and null at the ends, and its size between those of its neighbours.
  lemma NodeMeaning(m: seq<Word>, heads: seq<int>, lists: seq<seq<int>>, listed: Sizes, c: int, k: int)
    requires Index(m, heads, lists, listed) && 0 <= c < LIST_MAX && 0 <= k < |lists[c]|
    ensures |heads| == |lists| == LIST_MAX
    ensures var L, p := lists[c], lists[c][k];
      && p in listed && 0 < p < |m| - 1
      && (if c < LIST_MAX - 1 then Pow2(c) <= 8 * listed[p] < Pow2(c + 1) else 0x8000 <= 8 * listed[p])
      && (if k == 0 then heads[c] == p && m[p] == 0
          else m[p] == L[k - 1] && 0 < L[k - 1] < |m| - 1 && m[L[k - 1] + 1] == p
               && L[k - 1] in listed && listed[L[k - 1]] <= listed[p])
      && (if k == |L| - 1 then m[p + 1] == 0
          else m[p + 1] == L[k + 1] && 0 < L[k + 1] < |m| - 1 && m[L[k + 1]] == p
               && L[k + 1] in listed && listed[p] <= listed[L[k + 1]])
  {
    var L, p := lists[c], lists[c][k];
    hide Index, ClassOf, Pow2;
    NodeAt(m, heads, lists, listed, c, k);
    if k > 0 {
      NodeAt(m, heads, lists, listed, c, k - 1);
    }
    if k < |L| - 1 {
      NodeAt(m, heads, lists, listed, c, k + 1);
    }
    ClassIsFloorLog2(8 * listed[p]);
  }

  lemma NodeAt(m: seq<Word>, heads: seq<int>, lists: seq<seq<int>>, listed: Sizes, c: int, k: int)
    requires Index(m, heads, lists, listed) && 0 <= c < LIST_MAX && 0 <= k < |lists[c]|
    ensures |heads| == |lists| == LIST_MAX
    ensures var L := lists[c];
      && heads[c] == L[0] && 4 <= L[k] < |m| - 1 && m[L[k]] == At(L, k - 1) && m[L[k] + 1] == At(L, k + 1)
      && L[k] in listed && ClassOf(8 * listed[L[k]]) == c && 2 <= listed[L[k]]
      && (k > 0 ==> L[k - 1] in listed && listed[L[k - 1]] <= listed[L[k]])
  {
    assert ListOf(m, lists[c], listed, c);
    assert NodeLinked(m, lists[c], k);
  }
}
