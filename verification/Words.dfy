// The word layout of malloc/mm.h.  A word is a 32-bit unsigned integer; a tag
// word packs a block size, a multiple of 8, with an allocation bit.
module Words {

  const WSIZE := 4
  const DSIZE := 8
  const CHUNKSIZE := 4096

  type Word = x: int | 0 <= x < 0x1_0000_0000

  lemma UnitsOfTag(u: int, a: int)
    requires 0 <= a < 2
    ensures (8 * u + a) / 8 == u
  {
  }

  lemma BitOfTag(u: int, a: int)
    requires 0 <= a < 2
    ensures (8 * u + a) % 2 == a
  {
  }

  // The low three bits of a size are zero, so or-ing the bit in is adding it.
  function Pack(size: int, alloc: bool): (w: Word)
    requires 0 <= size < 0xFFFF_FFFF && size % 8 == 0
    ensures GetSize(w) == size && GetAlloc(w) == alloc
  {
    var a := if alloc then 1 else 0;
    UnitsOfTag(size / 8, a);
    BitOfTag(size / 8, a);
    size + a
  }

  function GetSize(w: Word): int {
    w / 8 * 8
  }

  function GetAlloc(w: Word): bool {
    w % 2 == 1
  }

  // ---- Bytes, least significant first ---------------------------------------

  function Scale(k: int): int
    requires 0 <= k < 4
  {
    if k == 0 then 1 else if k == 1 then 0x100 else if k == 2 then 0x1_0000 else 0x100_0000
  }

  function GetByte(w: Word, k: int): (b: int)
    requires 0 <= k < 4
    ensures 0 <= b < 256
  {
    w / Scale(k) % 256
  }

  function Join(b0: int, b1: int, b2: int, b3: int): (w: Word)
    requires 0 <= b0 < 256 && 0 <= b1 < 256 && 0 <= b2 < 256 && 0 <= b3 < 256
    ensures GetByte(w, 0) == b0 && GetByte(w, 1) == b1 && GetByte(w, 2) == b2 && GetByte(w, 3) == b3
  {
    JoinLow(b0, b1, b2, b3);
    JoinHigh(b0, b1, b2, b3);
    b0 + 0x100 * b1 + 0x1_0000 * b2 + 0x100_0000 * b3
  }

  lemma JoinLow(b0: int, b1: int, b2: int, b3: int)
    requires 0 <= b0 < 256 && 0 <= b1 < 256 && 0 <= b2 < 256 && 0 <= b3 < 256
    ensures var w := b0 + 0x100 * b1 + 0x1_0000 * b2 + 0x100_0000 * b3;
      w % 256 == b0 && w / 0x100 % 256 == b1
  {
    var w := b0 + 0x100 * b1 + 0x1_0000 * b2 + 0x100_0000 * b3;
    assert w / 0x100 == b1 + 0x100 * b2 + 0x1_0000 * b3;
  }

  lemma JoinHigh(b0: int, b1: int, b2: int, b3: int)
    requires 0 <= b0 < 256 && 0 <= b1 < 256 && 0 <= b2 < 256 && 0 <= b3 < 256
    ensures var w := b0 + 0x100 * b1 + 0x1_0000 * b2 + 0x100_0000 * b3;
      w / 0x1_0000 % 256 == b2 && w / 0x100_0000 % 256 == b3
  {
    var w := b0 + 0x100 * b1 + 0x1_0000 * b2 + 0x100_0000 * b3;
    assert w / 0x1_0000 == b2 + 0x100 * b3;
    assert w / 0x100_0000 == b3;
  }

  // The word w with its k-th byte replaced by b.
  function SetByte(w: Word, k: int, b: int): (r: Word)
    requires 0 <= k < 4 && 0 <= b < 256
    ensures forall j :: 0 <= j < 4 ==> GetByte(r, j) == if j == k then b else GetByte(w, j)
  {
    Join(if k == 0 then b else GetByte(w, 0), if k == 1 then b else GetByte(w, 1),
         if k == 2 then b else GetByte(w, 2), if k == 3 then b else GetByte(w, 3))
  }

  // The byte at byte offset a of a memory of words.
  function ByteAt(m: seq<Word>, a: int): (b: int)
    requires 0 <= a < 4 * |m|
    ensures 0 <= b < 256
  {
    GetByte(m[a / 4], a % 4)
  }
}
