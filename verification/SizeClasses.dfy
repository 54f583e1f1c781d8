// The size classes of malloc/mm_segregated.c: class c holds the sizes in
// [2^c, 2^(c+1)), and the last class everything above.
module SizeClasses {

  const LIST_MAX := 16

  // How often the loops of insert_node and delete_node would halve `size`.
  function Log(size: int): (n: int)
    ensures 0 <= n
  {
    if size <= 1 then 0 else 1 + Log(size / 2)
  }

  function ClassOf(size: int): (c: int)
    ensures 0 <= c < LIST_MAX
  {
    if Log(size) < LIST_MAX - 1 then Log(size) else LIST_MAX - 1
  }

  function Pow2(n: int): int
    requires 0 <= n
  {
    if n == 0 then 1 else 2 * Pow2(n - 1)
  }

  lemma {:induction false} LogIsFloorLog2(size: int)
    requires 1 <= size
    ensures Pow2(Log(size)) <= size < Pow2(Log(size) + 1)
  {
    if size > 1 {
      LogIsFloorLog2(size / 2);
    }
  }

  lemma {:induction false} LogMonotone(x: int, y: int)
    requires x <= y
    ensures Log(x) <= Log(y)
  {
    if 1 < x {
      LogMonotone(x / 2, y / 2);
    }
  }

  lemma LogBelowLast(size: int)
    ensures Log(size) < LIST_MAX <==> size < 0x1_0000
  {
    LogAtPower();
    if size < 0x1_0000 {
      LogMonotone(size, 0xFFFF);
    } else {
      LogMonotone(0x1_0000, size);
    }
  }

  lemma LogAtPower()
    ensures Log(0xFFFF) == 15 && Log(0x1_0000) == 16
  {
    assert Log(0xF) == 3 && Log(0x10) == 4;
    assert Log(0xFF) == 7 && Log(0x100) == 8;
    assert Log(0xFFF) == 11 && Log(0x1000) == 12;
  }

  lemma LogBelowCut()
    ensures Log(0x7FFF) == 14
  {
    assert Log(0x7F) == 6 && Log(0x7FF) == 10;
  }

  // A smaller class holds only smaller sizes.
  lemma ClassesOrdered(x: int, y: int)
    requires ClassOf(x) < ClassOf(y)
    ensures x < y
  {
    if y <= x {
      LogMonotone(y, x);
    }
  }

  // The class of a size is the floor of its binary logarithm, cut off at the last class.
  lemma ClassIsFloorLog2(size: int)
    requires 1 <= size
    ensures var c := ClassOf(size);
      if c < LIST_MAX - 1 then Pow2(c) <= size < Pow2(c + 1) else 0x8000 <= size
  {
    LogIsFloorLog2(size);
    LogBelowCut();
    if size < 0x8000 {
      LogMonotone(size, 0x7FFF);
    }
  }
}
