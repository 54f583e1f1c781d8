// The simulated memory of malloc/malloc-package/memlib.c: a fixed array whose
// lower part, up to brk, is the heap.  Addresses and brk count words from the
// start of the heap; byte offsets are used where single bytes are moved.
module MemLib {
  import opened Words

  const MAX_WORDS := 0x1FFF_FFFF

  // The value an unsigned 32-bit size takes as the int parameter of mem_sbrk.
  function ToInt(size: Word): int {
    if size < 0x8000_0000 then size else size - 0x1_0000_0000
  }

  function StoreByte(m: seq<Word>, a: int, b: int): (r: seq<Word>)
    requires 0 <= a < 4 * |m| && 0 <= b < 256
    ensures |r| == |m|
  {
    m[a / 4 := SetByte(m[a / 4], a % 4, b)]
  }

  lemma StoreByteEffect(m: seq<Word>, a: int, b: int, x: int)
    requires 0 <= a < 4 * |m| && 0 <= b < 256 && 0 <= x < 4 * |m|
    ensures ByteAt(StoreByte(m, a, b), x) == if x == a then b else ByteAt(m, x)
  {
    if x / 4 == a / 4 && x != a {
      assert x % 4 != a % 4;
    }
  }

  // The words that hold only bytes outside [lo, hi) are the same in m and r.
  ghost predicate SameWordsOutside(m: seq<Word>, r: seq<Word>, lo: int, hi: int) {
    && |r| == |m|
    && forall w :: 0 <= w < |m| && (4 * w + 4 <= lo || hi <= 4 * w) ==> r[w] == m[w]
  }

  // r is m with the n bytes at src copied to dst.
  ghost predicate Copied(m: seq<Word>, r: seq<Word>, dst: int, src: int, n: int)
    requires 0 <= n && 0 <= src && src + n <= 4 * |m| && 0 <= dst && dst + n <= 4 * |m|
  {
    && SameWordsOutside(m, r, dst, dst + n)
    && forall a {:trigger ByteAt(r, a)} :: 0 <= a < 4 * |m| ==>
         ByteAt(r, a) == if dst <= a < dst + n then ByteAt(m, a - dst + src) else ByteAt(m, a)
  }

  lemma CopyStep(m: seq<Word>, r: seq<Word>, dst: int, src: int, i: int)
    requires 0 <= i && 0 <= src && src + i < 4 * |m| && 0 <= dst && dst + i < 4 * |m|
    requires Copied(m, r, dst, src, i)
    ensures Copied(m, StoreByte(r, dst + i, ByteAt(m, src + i)), dst, src, i + 1)
  {
    hide ByteAt;
    var r' := StoreByte(r, dst + i, ByteAt(m, src + i));
    forall a | 0 <= a < 4 * |m|
      ensures ByteAt(r', a) == if dst <= a < dst + i + 1 then ByteAt(m, a - dst + src) else ByteAt(m, a)
    {
      StoreByteEffect(r, dst + i, ByteAt(m, src + i), a);
    }
  }

  class Memory {
    const words: array<Word>
    var brk: int

    ghost predicate Valid()
      reads this
    {
      0 <= brk <= words.Length <= MAX_WORDS
    }

    constructor (capacity: int)
      requires 0 <= capacity <= MAX_WORDS
      ensures Valid() && fresh(words) && words.Length == capacity && brk == 0
    {
      words := new Word[capacity](_ => 0);
      brk := 0;
    }

    method ResetBrk()
      modifies this
      ensures brk == 0
    {
      brk := 0;
    }

    // Moves brk up by incr bytes and returns the old brk, or -1 when that does not fit.
    method Sbrk(incr: int) returns (p: int)
      requires Valid() && incr % 4 == 0
      modifies this
      ensures Valid()
      ensures if 0 <= incr && 4 * old(brk) + incr <= 4 * words.Length
              then p == old(brk) && brk == old(brk) + incr / 4
              else p == -1 && brk == old(brk)
    {
      if incr < 0 || 4 * brk + incr > 4 * words.Length {
        return -1;
      }
      p := brk;
      brk := brk + incr / 4;
    }

    // The heap size in bytes.
    function HeapSize(): int
      reads this
    {
      4 * brk
    }

    method Put(p: int, v: Word)
      requires 0 <= p < words.Length
      modifies words
      ensures words[..] == old(words[..])[p := v]
    {
      words[p] := v;
    }

    // memset, on byte offsets.
    method FillBytes(dst: int, v: int, n: int)
      requires 0 <= v < 256 && 0 <= dst && 0 <= n && dst + n <= 4 * words.Length
      modifies words
      ensures SameWordsOutside(old(words[..]), words[..], dst, dst + n)
      ensures forall a :: 0 <= a < 4 * words.Length ==>
        ByteAt(words[..], a) == if dst <= a < dst + n then v else ByteAt(old(words[..]), a)
    {
      ghost var m := words[..];
      for i := 0 to n
        invariant SameWordsOutside(m, words[..], dst, dst + n)
        invariant forall a :: 0 <= a < 4 * words.Length ==>
          ByteAt(words[..], a) == if dst <= a < dst + i then v else ByteAt(m, a)
      {
        ghost var m' := words[..];
        words[(dst + i) / 4] := SetByte(words[(dst + i) / 4], (dst + i) % 4, v);
        assert words[..] == StoreByte(m', dst + i, v);
        forall a | 0 <= a < 4 * words.Length
          ensures ByteAt(words[..], a) == if dst <= a < dst + i + 1 then v else ByteAt(m, a)
        {
          StoreByteEffect(m', dst + i, v, a);
        }
      }
    }

    // memcpy, on byte offsets; the two areas must not overlap.
    method CopyBytes(dst: int, src: int, n: int)
      requires 0 <= n && 0 <= dst && dst + n <= 4 * words.Length && 0 <= src && src + n <= 4 * words.Length
      requires dst + n <= src || src + n <= dst
      modifies words
      ensures Copied(old(words[..]), words[..], dst, src, n)
    {
      ghost var m := words[..];
      for i := 0 to n
        invariant Copied(m, words[..], dst, src, i)
      {
        ghost var r := words[..];
        var v := GetByte(words[(src + i) / 4], (src + i) % 4);
        assert v == ByteAt(r, src + i) == ByteAt(m, src + i);
        words[(dst + i) / 4] := SetByte(words[(dst + i) / 4], (dst + i) % 4, v);
        assert words[..] == StoreByte(r, dst + i, v);
        CopyStep(m, r, dst, src, i);
      }
    }
  }
}
