// The growing line buffer of stdio/my_getline.c.
module GetLine {

  const MALLOCSIZE := 120
  const NEWLINE: char := '\n'
  const NUL: char := '\0'

  // Position of the first line break of s at or behind i, or |s|.
  function LineEnd(s: seq<char>, i: int): (e: int)
    requires 0 <= i <= |s|
    ensures i <= e <= |s| && (e < |s| ==> s[e] == NEWLINE)
    ensures forall j :: i <= j < e ==> s[j] != NEWLINE
    decreases |s| - i
  {
    if i == |s| || s[i] == NEWLINE then i else LineEnd(s, i + 1)
  }

  // The complete lines of s from i on, line breaks included; what follows the
  // last line break is not a line.
  function Lines(s: seq<char>, i: int): seq<seq<char>>
    requires 0 <= i <= |s|
    decreases |s| - i
  {
    var e := LineEnd(s, i);
    if e == |s| then [] else [s[i..e + 1]] + Lines(s, e + 1)
  }

  // n doubled until it exceeds count.
  function Doubled(n: int, count: int): (m: int)
    requires 0 < n
    ensures n <= m && count < m && (m == n || m <= 2 * count)
    decreases count - n
  {
    if count < n then n else Doubled(2 * n, count)
  }

  function Pow2(e: nat): nat {
    if e == 0 then 1 else 2 * Pow2(e - 1)
  }

  // How often n is doubled: as often as needed and no more.
  lemma {:induction false} DoubledPower(n: int, count: int) returns (e: nat)
    requires 0 < n
    ensures Doubled(n, count) == n * Pow2(e) && count < n * Pow2(e)
    ensures e > 0 ==> n * Pow2(e - 1) <= count
    decreases count - n
  {
    e := 0;
    if n <= count {
      e := DoubledPower(2 * n, count);
      if e > 0 {
        PowerTwice(n, e - 1);
      }
      PowerTwice(n, e);
      e := e + 1;
    }
  }

  lemma PowerTwice(n: int, e: nat)
    ensures 2 * n * Pow2(e) == n * Pow2(e + 1)
  {
    var p := Pow2(e);
    assert 2 * n * p == n * (2 * p);
  }

  // Doubling again for a second line is doubling for the longer of the two.
  lemma {:induction false} DoubledTwice(n: int, x: int, y: int)
    requires 0 < n
    ensures Doubled(Doubled(n, x), y) == Doubled(n, if x < y then y else x)
    decreases x - n
  {
    if x >= n {
      DoubledTwice(2 * n, x, y);
    }
  }

  class Stream {
    const data: seq<char>
    var pos: int

    ghost predicate Valid()
      reads this
    {
      0 <= pos <= |data|
    }

    constructor (data: seq<char>)
      ensures Valid() && this.data == data && pos == 0
    {
      this.data := data;
      pos := 0;
    }

    method Getc() returns (eof: bool, c: char)
      requires Valid()
      modifies this
      ensures Valid()
      ensures if old(pos) == |data| then eof && pos == old(pos) else !eof && c == data[old(pos)] && pos == old(pos) + 1
    {
      if pos == |data| {
        return true, NUL;
      }
      eof, c := false, data[pos];
      pos := pos + 1;
    }
  }

  // The caller's *lineptr and *n.
  class LineBuffer {
    var line: array?<char>
    var n: int

    ghost predicate Valid()
      reads this
    {
      line != null ==> 1 <= n == line.Length
    }

    constructor ()
      ensures Valid() && line == null && n == 0
    {
      line, n := null, 0;
    }

    // realloc to size m, which keeps the old contents in front.
    method Resize(m: int)
      requires Valid() && line != null && n <= m
      modifies this
      ensures Valid() && line != null && fresh(line) && n == m
      ensures line[..old(n)] == old(line[..])
    {
      var old_line := line;
      line := new char[m](i requires 0 <= i reads old_line => if i < old_line.Length then old_line[i] else NUL);
      n := m;
    }

    // Stores the count-th character, after doubling a buffer that would have no
    // room left for the terminator.
    method Append(count: int, c: char)
      requires Valid() && line != null && 1 <= count <= n
      modifies this, line
      ensures Valid() && line != null && (line == old(line) || fresh(line)) && count < n
      ensures n == old(n) || (n == 2 * old(n) && old(n) <= count)
      ensures line[..count] == old(line[..count - 1]) + [c]
    {
      var curPos := count - 1;
      if count > n - 1 {
        Resize(n * 2);
        assert line[..curPos] == line[..old(n)][..curPos];
      }
      line[curPos] := c;
    }

    // The reading loop: stops behind the next line break, or at the end of the stream.
    method ReadChars(stream: Stream) returns (count: int)
      requires Valid() && line != null && stream.Valid()
      modifies this, line, stream
      ensures Valid() && stream.Valid() && line != null && (line == old(line) || fresh(line))
      ensures var s, i := stream.data, old(stream.pos);
        var e := LineEnd(s, i);
        if e == |s| then count == -1 && stream.pos == |s|
        else
          && count == e + 1 - i && stream.pos == e + 1 && count < n
          && line[..count] == s[i..e + 1] && n == Doubled(old(n), count)
    {
      hide LineEnd, ReadSoFar;
      ghost var s, i, n0 := stream.data, stream.pos, n;
      count := 0;
      ReadStarts(s, i, line[..0]);
      while true
        invariant Valid() && stream.Valid() && line != null && (line == old(line) || fresh(line))
        invariant 0 <= count < n && stream.pos == i + count
        invariant ReadSoFar(s, i, count, line[..count]) && n == Doubled(n0, count)
        decreases |s| - stream.pos
      {
        ReadStep(s, i, count, line[..count]);
        DoubledTwice(n0, count, count + 1);
        var eof, c := stream.Getc();
        if eof {
          return -1;
        }
        count := count + 1;
        Append(count, c);
        if c == NEWLINE {
          return;
        }
      }
    }

    // Reads up to and including the next line break.  The buffer doubles, as often
    // as needed and no more, to hold the line and its terminator.
    method ReadLine(stream: Stream) returns (count: int)
      requires Valid() && stream.Valid()
      modifies this, line, stream
      ensures Valid() && stream.Valid() && line != null && (line == old(line) || fresh(line))
      ensures var s, i := stream.data, old(stream.pos);
        var e := LineEnd(s, i);
        if e == |s| then count == -1 && stream.pos == |s|
        else
          && count == e + 1 - i && stream.pos == e + 1 && count < n
          && line[..count] == s[i..e + 1] && line[count] == NUL
          && n == Doubled(if old(line) == null then MALLOCSIZE else old(n), count)
    {
      hide LineEnd, Doubled;
      if line == null {
        n := MALLOCSIZE;
        line := new char[n](_ => NUL);
      }
      count := ReadChars(stream);
      if count >= 0 {
        ghost var got := line[..count];
        line[count] := NUL;
        assert line[..count] == got;
      }
    }
  }

  // The first `count` characters from position i on, none of them a line break.
  ghost predicate ReadSoFar(s: seq<char>, i: int, count: int, got: seq<char>) {
    && 0 <= i && 0 <= count && i + count <= |s|
    && LineEnd(s, i) == LineEnd(s, i + count) && got == s[i..i + count]
  }

  lemma ReadStarts(s: seq<char>, i: int, got: seq<char>)
    requires 0 <= i <= |s| && got == []
    ensures ReadSoFar(s, i, 0, got)
  {
  }

  // What the next character, if any, does.
  lemma ReadStep(s: seq<char>, i: int, count: int, got: seq<char>)
    requires ReadSoFar(s, i, count, got)
    ensures i + count == |s| ==> LineEnd(s, i) == |s|
    ensures i + count < |s| ==>
      var c := s[i + count];
      && got + [c] == s[i..i + count + 1]
      && if c == NEWLINE then LineEnd(s, i) == i + count else ReadSoFar(s, i, count + 1, got + [c])
  {
    LineEndStep(s, i + count);
  }

  lemma LineEndStep(s: seq<char>, i: int)
    requires 0 <= i <= |s|
    ensures LineEnd(s, i) == if i == |s| || s[i] == NEWLINE then i else LineEnd(s, i + 1)
  {
  }

  // The length of the longest of the first k lines.
  function Longest(lines: seq<seq<char>>, k: int): (l: int)
    requires 0 <= k <= |lines|
    ensures 0 <= l && forall i :: 0 <= i < k ==> |lines[i]| <= l
    ensures k > 0 ==> exists i :: 0 <= i < k && |lines[i]| == l
  {
    if k == 0 then 0
    else
      var l := Longest(lines, k - 1);
      if l < |lines[k - 1]| then |lines[k - 1]| else l
  }

  // What has been printed when the stream is at pos and the buffer has size n, 0
  // before the first line.
  ghost predicate Printed(data: seq<char>, lengths: seq<int>, sizes: seq<int>, pos: int, n: int) {
    var lines := Lines(data, 0);
    && 0 <= pos <= |data| && |lengths| == |sizes| <= |lines| && lines[|lengths|..] == Lines(data, pos)
    && n == (if lengths == [] then 0 else sizes[|sizes| - 1])
    && (forall k :: 0 <= k < |lengths| ==> lengths[k] == |lines[k]|)
    && (forall k :: 0 <= k < |sizes| ==> sizes[k] == Doubled(MALLOCSIZE, Longest(lines, k + 1)))
  }

  lemma PrintStarts(data: seq<char>)
    ensures Printed(data, [], [], 0, 0)
  {
  }

  // The next line, if there is one.
  lemma PrintStep(data: seq<char>, lengths: seq<int>, sizes: seq<int>, pos: int, n: int)
    requires Printed(data, lengths, sizes, pos, n)
    ensures var e := LineEnd(data, pos);
      if e == |data| then |lengths| == |Lines(data, 0)|
      else
        var size := e + 1 - pos;
        var m := Doubled(if n <= 0 then MALLOCSIZE else n, size);
        Printed(data, lengths + [size], sizes + [m], e + 1, m)
  {
    hide Doubled, LineEnd;
    var lines, e := Lines(data, 0), LineEnd(data, pos);
    if e < |data| {
      var rest, size := Lines(data, pos), e + 1 - pos;
      assert lines[|lengths|] == rest[0] && |rest[0]| == size;
      assert lines[|lengths| + 1..] == rest[1..];
      DoubledTwice(MALLOCSIZE, Longest(lines, |lengths|), size);
    }
  }

  lemma AllPrinted(data: seq<char>, lengths: seq<int>, sizes: seq<int>, pos: int, n: int)
    requires Printed(data, lengths, sizes, pos, n) && |lengths| == |Lines(data, 0)|
    ensures |sizes| == |lengths|
    ensures forall k :: 0 <= k < |lengths| ==> lengths[k] == |Lines(data, 0)[k]|
    ensures forall k :: 0 <= k < |sizes| ==> sizes[k] == Doubled(MALLOCSIZE, Longest(Lines(data, 0), k + 1))
  {
  }

  // The loop of main: the lengths of the lines and the buffer sizes, as they are
  // printed.  The buffer is as large as the longest line so far has made it.
  method LineLengths(data: seq<char>) returns (lengths: seq<int>, sizes: seq<int>)
    ensures |lengths| == |sizes| == |Lines(data, 0)|
    ensures forall k :: 0 <= k < |lengths| ==> lengths[k] == |Lines(data, 0)[k]|
    ensures forall k :: 0 <= k < |sizes| ==> sizes[k] == Doubled(MALLOCSIZE, Longest(Lines(data, 0), k + 1))
  {
    hide Doubled, Lines, LineEnd, Longest, Printed;
    var stream := new Stream(data);
    var buffer := new LineBuffer();
    lengths, sizes := [], [];
    var size := 0;
    PrintStarts(data);
    while true
      invariant fresh(buffer) && fresh(stream) && buffer.Valid() && stream.Valid() && stream.data == data
      invariant buffer.line != null ==> fresh(buffer.line)
      invariant buffer.line == null <==> buffer.n == 0
      invariant Printed(data, lengths, sizes, stream.pos, buffer.n)
      decreases |data| - stream.pos
    {
      PrintStep(data, lengths, sizes, stream.pos, buffer.n);
      size := buffer.ReadLine(stream);
      if size < 0 {
        break;
      }
      lengths, sizes := lengths + [size], sizes + [buffer.n];
    }
    ghost var pos, n :| Printed(data, lengths, sizes, pos, n);
    AllPrinted(data, lengths, sizes, pos, n);
  }

  // A file of one short line, and one whose line just fails to fit.
  method OneLine() returns (lengths: seq<int>, sizes: seq<int>)
    ensures lengths == [2] && sizes == [120]
  {
    lengths, sizes := LineLengths("a\n");
    assert LineEnd("a\n", 0) == 1;
    assert Lines("a\n", 2) == [] && "a\n"[0..2] == "a\n";
    assert Lines("a\n", 0) == ["a\n"] + Lines("a\n", 2);
  }

  lemma NoRoomForTheTerminator()
    ensures Doubled(120, 119) == 120 && Doubled(120, 120) == 240 && Doubled(120, 500) == 960
  {
  }
}
