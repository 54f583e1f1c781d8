// The sparse copy of cp/cp_holes.c: runs of zero bytes are skipped with lseek
// instead of being written.
module SparseCopy {

  const BUF_SIZE := 1024

  type Byte = x: int | 0 <= x < 256

  function Zeros(n: int): (z: seq<Byte>)
    requires 0 <= n
    ensures |z| == n && forall i :: 0 <= i < n ==> z[i] == 0
  {
    seq(n, _ => 0)
  }

  // s without its trailing zero bytes.
  function Trimmed(s: seq<Byte>): seq<Byte> {
    if s != [] && s[|s| - 1] == 0 then Trimmed(s[..|s| - 1]) else s
  }

  predicate Tight(s: seq<Byte>) {
    s == [] || s[|s| - 1] != 0
  }

  class OutputFile {
    var data: seq<Byte>
    var offset: int

    ghost predicate Valid()
      reads this
    {
      |data| <= offset
    }

    // What a reader of length `offset` would see: the gap behind the data reads as
    // zero bytes (lseek(), System Interfaces volume of POSIX.1-2017).
    ghost function Extent(): seq<Byte>
      requires Valid()
      reads this
    {
      data + Zeros(offset - |data|)
    }

    constructor ()
      ensures Valid() && data == [] && offset == 0
    {
      data, offset := [], 0;
    }

    // Writing behind the end fills the gap with zero bytes.
    method Write(bytes: seq<Byte>)
      requires Valid()
      modifies this
      ensures Valid() && data == old(Extent()) + bytes && offset == old(offset) + |bytes|
      ensures Extent() == old(Extent()) + bytes
    {
      data := data + Zeros(offset - |data|) + bytes;
      offset := offset + |bytes|;
    }

    method SeekForward(n: int)
      requires Valid() && 0 <= n
      modifies this
      ensures Valid() && data == old(data) && offset == old(offset) + n
      ensures Extent() == old(Extent()) + Zeros(n)
    {
      offset := offset + n;
      assert Zeros(offset - |data|) == Zeros(old(offset) - |data|) + Zeros(n);
    }
  }

  lemma {:induction false} TrimmedZeros(s: seq<Byte>, n: int)
    requires 0 <= n
    ensures Trimmed(s + Zeros(n)) == Trimmed(s)
    decreases n
  {
    if n > 0 {
      assert (s + Zeros(n))[..|s| + n - 1] == s + Zeros(n - 1);
      TrimmedZeros(s, n - 1);
    } else {
      assert s + Zeros(n) == s;
    }
  }

  // The copy equals its input exactly when that does not end in a zero byte.
  lemma {:induction false} TrimmedIsWhole(s: seq<Byte>)
    ensures |Trimmed(s)| <= |s|
    ensures Trimmed(s) == s <==> Tight(s)
    ensures s == Trimmed(s) + Zeros(|s| - |Trimmed(s)|)
  {
    if s != [] && s[|s| - 1] == 0 {
      TrimmedIsWhole(s[..|s| - 1]);
      assert s == s[..|s| - 1] + [0];
    }
  }

  // The copy of a one and a zero is a one.
  lemma LastZeroLost()
    ensures Trimmed([1, 0]) == [1]
  {
    assert Trimmed([1, 0]) == Trimmed([1, 0][..1]);
    assert [1, 0][..1] == [1 as Byte];
  }

  // A run of written bytes and a run of zero bytes.
  lemma TwoRuns(buf: seq<Byte>, i: int, j: int, k: int)
    requires 0 <= i <= j <= k <= |buf| && forall x :: j <= x < k ==> buf[x] == 0
    ensures buf[..k] == buf[..i] + buf[i..j] + Zeros(k - j)
  {
  }

  // One buffer: runs of non-zero bytes are written, runs of zero bytes skipped.
  method CopyBuffer(out: OutputFile, buf: seq<Byte>)
    requires out.Valid() && Tight(out.data)
    modifies out
    ensures out.Valid() && Tight(out.data)
    ensures out.Extent() == old(out.Extent()) + buf
  {
    hide Zeros;
    var i, cursor, nonzeroBytes, zeroBytes := 0, 0, 0, 0;
    while i < |buf|
      invariant 0 <= i == cursor <= |buf| && nonzeroBytes == zeroBytes == 0
      invariant out.Valid() && Tight(out.data)
      invariant out.Extent() == old(out.Extent()) + buf[..i]
      decreases |buf| - i
    {
      while i < |buf| && buf[i] != 0
        invariant cursor <= i <= |buf| && nonzeroBytes == i - cursor
        invariant nonzeroBytes > 0 ==> buf[i - 1] != 0
      {
        nonzeroBytes := nonzeroBytes + 1;
        i := i + 1;
      }
      if nonzeroBytes > 0 {
        out.Write(buf[cursor..cursor + nonzeroBytes]);
        assert out.data[|out.data| - 1] == buf[i - 1];
      }
      ghost var middle := i;
      while i < |buf| && buf[i] == 0
        invariant middle <= i <= |buf| && zeroBytes == i - middle
        invariant forall j :: middle <= j < i ==> buf[j] == 0
      {
        zeroBytes := zeroBytes + 1;
        i := i + 1;
      }
      if zeroBytes > 0 {
        out.SeekForward(zeroBytes);
      }
      TwoRuns(buf, cursor, middle, i);
      cursor := i;
      nonzeroBytes, zeroBytes := 0, 0;
    }
    assert buf[..|buf|] == buf;
  }

  // The whole copy, whatever portions the reads return.
  method Copy(input: seq<Byte>) returns (out: OutputFile)
    ensures fresh(out) && out.Valid() && out.offset == |input| && out.Extent() == input
    ensures out.data == Trimmed(input)
  {
    out := new OutputFile();
    var pos := 0;
    while pos < |input|
      invariant 0 <= pos <= |input| && fresh(out) && out.Valid() && Tight(out.data)
      invariant out.Extent() == input[..pos]
    {
      var numRead :| 0 < numRead <= BUF_SIZE && numRead <= |input| - pos;
      CopyBuffer(out, input[pos..pos + numRead]);
      assert input[..pos + numRead] == input[..pos] + input[pos..pos + numRead];
      pos := pos + numRead;
    }
    assert input[..pos] == input;
    TrimmedZeros(out.data, out.offset - |out.data|);
  }
}
