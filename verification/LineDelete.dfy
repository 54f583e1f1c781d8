// The line deletion of sysio/mylined.c: one file, read through one descriptor and
// overwritten through another.
module LineDelete {

  const BUFSIZE := 1024
  const NEWLINE: char := '\n'

  class File {
    var data: seq<char>

    constructor (data: seq<char>)
      ensures this.data == data
    {
      this.data := data;
    }
  }

  class Descriptor {
    const file: File
    var offset: int

    constructor (file: File)
      ensures this.file == file && offset == 0
    {
      this.file := file;
      offset := 0;
    }

    // At least one byte and at most max, or none at the end of the file.
    method Read(max: int) returns (buf: seq<char>)
      requires 0 < max && 0 <= offset
      modifies this
      ensures |buf| <= max && offset == old(offset) + |buf|
      ensures if old(offset) < |file.data| then 0 < |buf| && offset <= |file.data| && buf == file.data[old(offset)..offset]
              else buf == []
    {
      if offset >= |file.data| {
        return [];
      }
      var n :| 0 < n <= max && n <= |file.data| - offset;
      buf := file.data[offset..offset + n];
      offset := offset + n;
    }

    method Write(buf: seq<char>)
      requires 0 <= offset && offset + |buf| <= |file.data|
      modifies this, file
      ensures offset == old(offset) + |buf|
      ensures file.data == old(file.data)[..old(offset)] + buf + old(file.data)[offset..]
    {
      file.data := file.data[..offset] + buf + file.data[offset + |buf|..];
      offset := offset + |buf|;
    }

    method Seek(to: int)
      modifies this
      ensures offset == to
    {
      offset := to;
    }

    method Truncate(length: int)
      requires 0 <= length <= |file.data|
      modifies file
      ensures file.data == old(file.data)[..length]
    {
      file.data := file.data[..length];
    }
  }

  // The number of line breaks in f.
  function Breaks(f: seq<char>): (n: int)
    ensures 0 <= n <= |f|
  {
    if f == [] then 0 else Breaks(f[..|f| - 1]) + if f[|f| - 1] == NEWLINE then 1 else 0
  }

  lemma BreaksStep(f: seq<char>, t: int)
    requires 0 <= t < |f|
    ensures Breaks(f[..t + 1]) == Breaks(f[..t]) + if f[t] == NEWLINE then 1 else 0
  {
    assert f[..t + 1][..t] == f[..t];
  }

  // The k-th line break of f is at t.
  ghost predicate IsBreak(f: seq<char>, k: int, t: int) {
    0 <= t < |f| && f[t] == NEWLINE && Breaks(f[..t]) == k - 1
  }

  // Line k of f is f[from..q], followed by its line break at q.
  ghost predicate IsLine(f: seq<char>, k: int, from: int, q: int) {
    IsBreak(f, k, q) && if k == 1 then from == 0 else IsBreak(f, k - 1, from - 1)
  }

  // Where the scan takes the break before the line to be: a zero counts as not
  // found yet, so a break at 0, or the start of line 1, slips to position 1.
  function PrevBreak(lo: int, t: int): int {
    if lo >= 1 then lo else if t >= 2 then 1 else 0
  }

  // The scan after t characters without meeting the end of line `lineno`; lo is
  // the break before that line, once it is known.
  ghost predicate Scanned(f: seq<char>, lineno: int, t: int, linebrks: int, prevbrk: int, lo: int) {
    && 0 <= t <= |f| && linebrks == Breaks(f[..t])
    && (if lineno == 0 then t > 0 ==> linebrks > 0 else linebrks < lineno)
    && (if lineno >= 1 && linebrks == lineno - 1 then
          && 0 <= lo <= t && prevbrk == PrevBreak(lo, t)
          && if lineno == 1 then lo == 0 else IsBreak(f, lineno - 1, lo) && lo < t
        else prevbrk == 0)
  }

  lemma ScanStarts(f: seq<char>, lineno: int)
    requires 0 <= lineno
    ensures Scanned(f, lineno, 0, 0, 0, 0)
  {
    assert f[..0] == [];
  }

  lemma ScanEnds(f: seq<char>, lineno: int, linebrks: int, prevbrk: int, lo: int)
    requires Scanned(f, lineno, |f|, linebrks, prevbrk, lo)
    ensures linebrks < lineno ==> Breaks(f) < lineno
    ensures lineno <= linebrks ==> lineno == 0 && prevbrk == 0
  {
    assert f[..|f|] == f;
  }

  // The next character: the counters as the loop body updates them.
  lemma ScanStep(f: seq<char>, lineno: int, t: int, linebrks: int, prevbrk: int, lo: int)
    requires Scanned(f, lineno, t, linebrks, prevbrk, lo) && 0 <= lineno && t < |f|
    ensures var n := linebrks + if f[t] == NEWLINE then 1 else 0;
      var lo' := if f[t] == NEWLINE && n == lineno - 1 then t else lo;
      var prev' := if lineno >= 1 && n == lineno - 1 && prevbrk == 0 then t else prevbrk;
      if n == lineno then
        if lineno == 0 then t == 0 && prev' == 0
        else
          && IsLine(f, lineno, if lineno == 1 then 0 else lo + 1, t) && (lineno == 1 ==> lo == 0)
          && 0 <= lo <= t && prev' == PrevBreak(lo, t) && lo' == lo
      else Scanned(f, lineno, t + 1, n, prev', lo')
  {
    BreaksStep(f, t);
  }

  // The scan of mylined: the breaks before and at the end of line `lineno`.
  method Locate(fd: Descriptor, lineno: int) returns (linebrks: int, prevbrk: int, curbrk: int, ghost lo: int)
    requires 0 <= lineno && fd.offset == 0
    modifies fd
    ensures linebrks < lineno ==> Breaks(fd.file.data) < lineno
    ensures lineno <= linebrks ==>
      if lineno == 0 then prevbrk == 0 && curbrk == 0
      else
        && IsLine(fd.file.data, lineno, if lineno == 1 then 0 else lo + 1, curbrk) && (lineno == 1 ==> lo == 0)
        && 0 <= lo <= curbrk && prevbrk == PrevBreak(lo, curbrk)
  {
    hide Scanned, IsLine, PrevBreak, Breaks;
    ghost var f := fd.file.data;
    linebrks, prevbrk, curbrk, lo := 0, 0, 0, 0;
    var pos := 0;
    ScanStarts(f, lineno);
    while true
      invariant 0 <= pos <= |f| && fd.offset == pos && curbrk == 0 && Scanned(f, lineno, pos, linebrks, prevbrk, lo)
      decreases |f| - pos
    {
      var buf := fd.Read(BUFSIZE);
      if |buf| == 0 {
        ScanEnds(f, lineno, linebrks, prevbrk, lo);
        break;
      }
      var i := 0;
      while i < |buf|
        invariant 0 <= i <= |buf| && fd.offset == pos + |buf| && curbrk == 0
        invariant Scanned(f, lineno, pos + i, linebrks, prevbrk, lo)
      {
        ScanStep(f, lineno, pos + i, linebrks, prevbrk, lo);
        assert buf[i] == f[pos + i];
        if buf[i] == NEWLINE {
          linebrks := linebrks + 1;
          lo := if linebrks == lineno - 1 then pos + i else lo;
        }
        // lineno - 1 is unsigned: for line 0 it is a number no count reaches.
        if lineno >= 1 && linebrks == lineno - 1 && prevbrk == 0 {
          prevbrk := pos + i;
        }
        if linebrks == lineno && curbrk == 0 {
          curbrk := pos + i;
          return;
        }
        i := i + 1;
      }
      pos := pos + |buf|;
    }
  }

  // f without the characters between positions w and r.
  function Cut(f: seq<char>, w: int, r: int): seq<char>
    requires 0 <= w <= r <= |f|
  {
    f[..w] + f[r..]
  }

  // d is f with f[from..r] moved down to `to`; nothing from r on is overwritten yet.
  ghost predicate Shifted(f: seq<char>, d: seq<char>, from: int, to: int, r: int) {
    && 0 <= to <= from <= r <= |f| == |d|
    && d[..r - from + to] == f[..to] + f[from..r] && d[r..] == f[r..]
  }

  lemma ShiftStarts(f: seq<char>, from: int, to: int)
    requires 0 <= to <= from
    ensures from <= |f| ==> Shifted(f, f, from, to, from)
  {
  }

  lemma ShiftEnds(f: seq<char>, d: seq<char>, from: int, to: int, r: int)
    requires 0 <= to <= from && |d| == |f| <= r && (from > |f| ==> d == f && (from == to))
    requires from <= |f| ==> r == |f| && Shifted(f, d, from, to, r)
    ensures 0 <= |d| - (from - to) && d[..|d| - (from - to)] == if from <= |f| then Cut(f, to, from) else f
  {
  }

  lemma ShiftStep(f: seq<char>, d: seq<char>, from: int, to: int, r: int, r': int)
    requires r <= r' <= |d|
    requires from <= |f| ==> Shifted(f, d, from, to, r)
    ensures from <= |f| ==>
      Shifted(f, d[..r - from + to] + d[r..r'] + d[r' - from + to..], from, to, r')
  {
    if from <= |f| {
      var w, w' := r - from + to, r' - from + to;
      var d' := d[..w] + d[r..r'] + d[w'..];
      assert d[r..r'] == d[r..][..r' - r] == f[r..r'];
      assert d'[..w'] == d[..w] + d[r..r'];
      assert f[from..r'] == f[from..r] + f[r..r'];
      assert d'[r'..] == d[r'..] == d[r..][r' - r..];
    }
  }

  // The copy of mylined: everything from `from` on moves down to `to`, chunk by
  // chunk, the writer never overtaking the reader; then the file is cut.
  method ShiftDown(fd1: Descriptor, fd2: Descriptor, from: int, to: int)
    requires fd1 != fd2 && fd1.file == fd2.file && 0 <= to <= from
    requires from <= |fd1.file.data| || from == to
    modifies fd1, fd2, fd1.file
    ensures var f := old(fd1.file.data);
      fd1.file.data == if from <= |f| then Cut(f, to, from) else f
  {
    hide Shifted, Cut;
    ghost var f := fd1.file.data;
    ShiftStarts(f, from, to);
    fd1.Seek(from);
    fd2.Seek(to);
    var file := fd1.file;
    while true
      invariant |file.data| == |f| && 0 <= from <= fd1.offset && fd1.offset - from == fd2.offset - to
      invariant if from <= |f| then fd1.offset <= |f| else fd1.offset == from && file.data == f
      invariant from <= |f| ==> Shifted(f, file.data, from, to, fd1.offset)
      decreases |f| - fd1.offset
    {
      ghost var d, r := file.data, fd1.offset;
      var buf := fd1.Read(BUFSIZE);
      if |buf| == 0 {
        ShiftEnds(f, d, from, to, r);
        break;
      }
      ShiftStep(f, d, from, to, r, fd1.offset);
      fd2.Write(buf);
    }
    fd2.Truncate(|file.data| - (from - to));
  }

  lemma {:induction false} BreaksGrow(f: seq<char>, t: int, u: int)
    requires 0 <= t <= u <= |f|
    ensures Breaks(f[..t]) <= Breaks(f[..u])
    decreases u - t
  {
    if t < u {
      BreaksStep(f, t);
      BreaksGrow(f, t + 1, u);
    }
  }

  lemma BreakIsUnique(f: seq<char>, k: int, t: int, u: int)
    requires IsBreak(f, k, t) && IsBreak(f, k, u)
    ensures t == u
  {
    var x, y := if t < u then t else u, if t < u then u else t;
    BreaksStep(f, x);
    if x < y {
      BreaksGrow(f, x + 1, y);
    }
  }

  // There is only one k-th line, so that what is left of f depends on f and k alone.
  lemma LineIsUnique(f: seq<char>, k: int, from: int, q: int, from': int, q': int)
    requires IsLine(f, k, from, q) && IsLine(f, k, from', q')
    ensures from == from' && q == q'
  {
    BreakIsUnique(f, k, q, q');
    if k != 1 {
      BreakIsUnique(f, k - 1, from - 1, from' - 1);
    }
  }

  // What mylined leaves of f when line k is f[from..q].
  function Remains(f: seq<char>, k: int, from: int, q: int): seq<char>
    requires 0 <= from <= q < |f|
  {
    Cut(f, PrevBreak(if k == 1 then 0 else from - 1, q) + 1, q + 1)
  }

  // mylined deletes exactly line k unless k is 1, or the file starts with an empty
  // line and line 2 is not empty.
  lemma DeletesExactly(f: seq<char>, k: int, from: int, q: int)
    requires 1 <= k && IsLine(f, k, from, q)
    ensures 0 <= from <= q < |f|
    ensures Remains(f, k, from, q) == Cut(f, from, q + 1) <==> k >= 2 && (from >= 2 || q == 1)
  {
    LineOrdered(f, k, from, q);
    assert |Cut(f, from, q + 1)| == from + |f| - q - 1;
    assert |Remains(f, k, from, q)| == PrevBreak(if k == 1 then 0 else from - 1, q) + |f| - q;
  }

  // Line 1 of two short lines: its first character stays.  Line 2 behind an empty
  // line: the same.
  lemma FirstCharacterStays()
    ensures IsLine("a\nb\n", 1, 0, 1) && Remains("a\nb\n", 1, 0, 1) == "ab\n"
    ensures IsLine("\nab\n", 2, 1, 3) && Remains("\nab\n", 2, 1, 3) == "\na"
  {
    var f, g := "a\nb\n", "\nab\n";
    assert f[..1] == "a" && f[..1][..0] == "";
    assert g[..0] == "" && g[..1] == "\n" && g[..2] == "\na" && g[..3] == "\nab";
    BreaksStep(g, 0);
    BreaksStep(g, 1);
    BreaksStep(g, 2);
  }

  lemma LineOrdered(f: seq<char>, k: int, from: int, q: int)
    requires 1 <= k && IsLine(f, k, from, q)
    ensures 0 <= from <= q < |f|
  {
    if k > 1 && q < from {
      BreaksStep(f, q);
      if q < from - 1 {
        BreaksGrow(f, q + 1, from - 1);
      }
    }
  }

  method DeleteLine(file: File, lineno: int) returns (found: bool, ghost from: int, ghost q: int)
    requires 0 <= lineno
    modifies file
    ensures found || Breaks(old(file.data)) < lineno
    ensures !found || lineno == 0 ==> file.data == old(file.data)
    ensures found && lineno >= 1 ==>
      && IsLine(old(file.data), lineno, from, q) && 0 <= from <= q < |old(file.data)|
      && file.data == Remains(old(file.data), lineno, from, q)
  {
    var fd1 := new Descriptor(file);
    var fd2 := new Descriptor(file);
    var linebrks, prevbrk, curbrk;
    ghost var lo;
    linebrks, prevbrk, curbrk, lo := Locate(fd1, lineno);
    from, q := if lineno == 1 then 0 else lo + 1, curbrk;
    if linebrks < lineno {
      return false, from, q;
    }
    if lineno >= 1 {
      LineOrdered(file.data, lineno, from, q);
    }
    ShiftDown(fd1, fd2, curbrk + 1, prevbrk + 1);
    found := true;
    assert lineno == 0 && |old(file.data)| >= 1 ==> Cut(old(file.data), 1, 1) == old(file.data);
  }
}
