// The K-best sampler of malloc/malloc-package/fcyc.c, over real numbers.
module Sampler {

  // x goes behind the last element of v that is not larger.
  function Insert(v: seq<real>, x: real): (r: seq<real>)
    ensures |r| == |v| + 1
  {
    if v != [] && v[|v| - 1] > x then Insert(v[..|v| - 1], x) + [v[|v| - 1]] else v + [x]
  }

  // All samples in ascending order.
  function Sort(s: seq<real>): (r: seq<real>)
    ensures |r| == |s|
  {
    if s == [] then [] else Insert(Sort(s[..|s| - 1]), s[|s| - 1])
  }

  ghost predicate Ascending(v: seq<real>) {
    forall i, j :: 0 <= i < j < |v| ==> v[i] <= v[j]
  }

  lemma {:induction false} InsertMeaning(v: seq<real>, x: real)
    requires Ascending(v)
    ensures Ascending(Insert(v, x)) && multiset(Insert(v, x)) == multiset(v) + multiset{x}
  {
    if v != [] && v[|v| - 1] > x {
      var w, z := v[..|v| - 1], v[|v| - 1];
      InsertMeaning(w, x);
      assert v == w + [z];
      AscendingAppend(Insert(w, x), w, x, z);
    }
  }

  lemma AscendingAppend(r: seq<real>, w: seq<real>, x: real, z: real)
    requires Ascending(r) && Ascending(w + [z]) && x <= z && multiset(r) == multiset(w) + multiset{x}
    ensures Ascending(r + [z])
  {
    forall i | 0 <= i < |r| ensures r[i] <= z {
      assert r[i] in multiset(r);
      if r[i] != x {
        assert r[i] in multiset(w);
        var j :| 0 <= j < |w| && w[j] == r[i];
        assert (w + [z])[j] <= (w + [z])[|w|];
      }
    }
  }

  // Sort really sorts.
  lemma {:induction false} SortMeaning(s: seq<real>)
    ensures Ascending(Sort(s)) && multiset(Sort(s)) == multiset(s)
  {
    if s != [] {
      SortMeaning(s[..|s| - 1]);
      InsertMeaning(Sort(s[..|s| - 1]), s[|s| - 1]);
      assert s == s[..|s| - 1] + [s[|s| - 1]];
    }
  }

  function Min(x: int, y: int): int {
    if x < y then x else y
  }

  // Only the k smallest of the old elements matter to the k smallest of the new ones.
  lemma InsertTake(v: seq<real>, x: real, k: int)
    requires Ascending(v) && 1 <= k <= |v|
    ensures Insert(v, x)[..k] == if x < v[k - 1] then Insert(v[..k - 1], x) else v[..k]
    decreases |v|
  {
    var w := v[..|v| - 1];
    if v[|v| - 1] > x {
      if k < |v| {
        InsertTake(w, x, k);
        assert w[..k - 1] == v[..k - 1] && w[..k] == v[..k];
        assert Insert(v, x)[..k] == Insert(w, x)[..k];
      } else {
        assert Insert(v, x)[..k] == Insert(w, x);
      }
    } else {
      assert Insert(v, x)[..k] == v[..k];
    }
  }

  lemma SinkStep(v: seq<real>, x: real, pos: int)
    requires 0 < pos <= |v| && v[pos - 1] > x && Insert(v, x) == Insert(v[..pos], x) + v[pos..]
    ensures Insert(v, x) == Insert(v[..pos - 1], x) + v[pos - 1..]
  {
    assert v[..pos][..pos - 1] == v[..pos - 1];
    assert [v[pos - 1]] + v[pos..] == v[pos - 1..];
  }

  lemma SinkEnd(v: seq<real>, x: real, pos: int)
    requires 0 <= pos <= |v| && (pos > 0 ==> v[pos - 1] <= x) && Insert(v, x) == Insert(v[..pos], x) + v[pos..]
    ensures Insert(v, x) == v[..pos] + [x] + v[pos..]
  {
  }

  lemma SortAppend(s: seq<real>, x: real)
    ensures Sort(s + [x]) == Insert(Sort(s), x)
  {
    assert (s + [x])[..|s|] == s;
  }

  class Sampler {
    const kbest: int
    const maxsamples: int
    const epsilon: real
    var values: array<real>
    var samplecount: int
    ghost var samples: seq<real>

    // The k smallest samples, sorted, are in front.
    ghost predicate Valid()
      reads this, values
    {
      && 1 <= kbest == values.Length && samplecount == |samples|
      && values[..Min(samplecount, kbest)] == Sort(samples)[..Min(samplecount, kbest)]
    }

    constructor (kbest: int, maxsamples: int, epsilon: real)
      requires 1 <= kbest
      ensures this.kbest == kbest && this.maxsamples == maxsamples && this.epsilon == epsilon
      ensures Valid() && samples == [] && fresh(values)
    {
      this.kbest, this.maxsamples, this.epsilon := kbest, maxsamples, epsilon;
      values := new real[kbest](_ => 0.0);
      samplecount := 0;
      samples := [];
    }

    method InitSampler()
      requires 1 <= kbest
      modifies this
      ensures Valid() && samples == [] && fresh(values)
    {
      values := new real[kbest](_ => 0.0);
      samplecount := 0;
      samples := [];
    }

    // Moves the value at pos down to its place among the sorted values before it.
    method Sink(start: int)
      requires 0 <= start < values.Length
      modifies values
      ensures values[..start + 1] == Insert(old(values[..start]), old(values[start]))
      ensures values[start + 1..] == old(values[start + 1..])
    {
      ghost var v, x := values[..start], values[start];
      var pos := start;
      assert v[..start] == v;
      while pos > 0 && values[pos - 1] > values[pos]
        invariant 0 <= pos <= start && values[pos] == x
        invariant Insert(v, x) == Insert(v[..pos], x) + v[pos..]
        invariant forall j :: 0 <= j < pos ==> values[j] == v[j]
        invariant forall j :: pos < j <= start ==> values[j] == v[j - 1]
        invariant forall j :: start < j < values.Length ==> values[j] == old(values[j])
      {
        SinkStep(v, x, pos);
        var temp := values[pos - 1];
        values[pos - 1] := values[pos];
        values[pos] := temp;
        pos := pos - 1;
      }
      SinkEnd(v, x, pos);
      assert values[..start + 1] == v[..pos] + [x] + v[pos..];
    }

    method AddSample(val: real)
      requires Valid()
      modifies this`samplecount, this`samples, values
      ensures Valid() && samples == old(samples) + [val]
    {
      hide Insert, Sort;
      ghost var s, n := Sort(samples), samplecount;
      SortAppend(samples, val);
      SortMeaning(samples);
      if samplecount < kbest {
        values[samplecount] := val;
        assert values[..n] == s;
        Sink(samplecount);
        assert values[..n + 1] == Insert(s, val) == Insert(s, val)[..n + 1];
      } else {
        InsertTake(s, val, kbest);
        ghost var m := values[..];
        assert m[..kbest] == s[..kbest] && m[kbest - 1] == s[..kbest][kbest - 1];
        if val < values[kbest - 1] {
          values[kbest - 1] := val;
          assert values[..kbest - 1] == m[..kbest][..kbest - 1] == s[..kbest - 1];
          Sink(kbest - 1);
        }
      }
      samplecount := samplecount + 1;
      samples := samples + [val];
    }

    // The kbest smallest samples lie within epsilon of each other.
    method HasConverged() returns (r: bool)
      requires Valid()
      ensures r <==> Converged(samples, kbest, epsilon)
    {
      if samplecount >= kbest {
        assert values[0] == values[..kbest][0] && values[kbest - 1] == values[..kbest][kbest - 1];
        return (1.0 + epsilon) * values[0] >= values[kbest - 1];
      }
      return false;
    }

    // fcyc: `cycles` gives the time of each run of the measured function.  Stops
    // after the first n samples that converge, or reach maxsamples, and returns
    // the smallest of them.
    method Fcyc(cycles: int -> real) returns (result: real, n: int)
      requires 1 <= kbest
      modifies this
      ensures 1 <= n && (n <= maxsamples || n == 1)
      ensures var s := Taken(cycles, n);
        && result in s && (forall x :: x in s ==> result <= x)
        && (Converged(s, kbest, epsilon) || maxsamples <= n)
      ensures forall i :: 1 <= i < n ==> !Converged(Taken(cycles, i), kbest, epsilon)
    {
      hide Sort, Converged, Taken;
      InitSampler();
      AddSample(cycles(0));
      n := 1;
      TakenStep(cycles, 0);
      var done := HasConverged();
      while !done && samplecount < maxsamples
        invariant Valid() && fresh(values) && 1 <= n == samplecount && (n <= maxsamples || n == 1)
        invariant samples == Taken(cycles, n) && done == Converged(samples, kbest, epsilon)
        invariant forall i :: 1 <= i < n ==> !Converged(Taken(cycles, i), kbest, epsilon)
        decreases maxsamples - samplecount
      {
        AddSample(cycles(n));
        TakenStep(cycles, n);
        n := n + 1;
        done := HasConverged();
      }
      result := values[0];
      SmallestFirst(samples);
      assert values[0] == values[..Min(n, kbest)][0];
    }
  }

  function Taken(cycles: int -> real, n: int): seq<real>
    requires 0 <= n
  {
    seq(n, i => cycles(i))
  }

  lemma TakenStep(cycles: int -> real, n: int)
    requires 0 <= n
    ensures Taken(cycles, n + 1) == Taken(cycles, n) + [cycles(n)] && (n == 0 ==> Taken(cycles, 1) == [cycles(0)])
  {
  }

  ghost predicate Converged(s: seq<real>, k: int, epsilon: real)
    requires 1 <= k
  {
    |s| >= k && (1.0 + epsilon) * Sort(s)[0] >= Sort(s)[k - 1]
  }

  lemma LastLargest(v: seq<real>, w: seq<real>)
    requires v != [] && w != [] && Ascending(w) && multiset(v) == multiset(w)
    ensures v[|v| - 1] <= w[|w| - 1]
  {
    assert v[|v| - 1] in multiset(w);
  }

  lemma WithoutLast(v: seq<real>)
    requires v != []
    ensures v == v[..|v| - 1] + [v[|v| - 1]]
    ensures multiset(v[..|v| - 1]) == multiset(v) - multiset{v[|v| - 1]}
    ensures Ascending(v) ==> Ascending(v[..|v| - 1])
  {
    assert v == v[..|v| - 1] + [v[|v| - 1]];
  }

  lemma {:induction false} AscendingUnique(v: seq<real>, w: seq<real>)
    requires Ascending(v) && Ascending(w) && multiset(v) == multiset(w)
    ensures v == w
    decreases |v|
  {
    hide Ascending;
    assert |v| == |multiset(v)| == |multiset(w)| == |w|;
    if v != [] {
      LastLargest(v, w);
      LastLargest(w, v);
      WithoutLast(v);
      WithoutLast(w);
      AscendingUnique(v[..|v| - 1], w[..|w| - 1]);
    }
  }

  // The samples s, in ascending order v, have converged when the k-th smallest is
  // within a factor of 1 + epsilon of the smallest.
  lemma ConvergedMeaning(s: seq<real>, v: seq<real>, k: int, epsilon: real)
    requires 1 <= k && Ascending(v) && multiset(v) == multiset(s)
    ensures Converged(s, k, epsilon) <==> k <= |v| && v[k - 1] <= (1.0 + epsilon) * v[0]
  {
    hide Sort, Ascending;
    SortMeaning(s);
    AscendingUnique(v, Sort(s));
    assert |v| == |multiset(v)| == |multiset(s)| == |s|;
  }

  // With the default parameters, samples of 100, 100 and 101 end the measurement, and
  // so do 102, 100, 100 and 101, but no fewer of these.
  method StopsAtThree() returns (result: real, n: int)
    ensures result == 100.0 && n == 3
  {
    hide Sort, Converged;
    var sampler := new Sampler(3, 20, 0.01);
    var cycles := (i: int) => if i == 2 then 101.0 else 100.0;
    result, n := sampler.Fcyc(cycles);
    NearConverged();
    assert Taken(cycles, 3) == [100.0, 100.0, 101.0];
    if n < 3 {
      TooFew(Taken(cycles, n), 0.01);
    }
    assert n == 3 && 100.0 in Taken(cycles, 3);
  }

  method StopsAtFour() returns (result: real, n: int)
    ensures result == 100.0 && n == 4
  {
    hide Sort, Converged;
    var sampler := new Sampler(3, 20, 0.01);
    var cycles := (i: int) => if i == 0 then 102.0 else if i == 3 then 101.0 else 100.0;
    result, n := sampler.Fcyc(cycles);
    NearConverged();
    assert Taken(cycles, 3) == [102.0, 100.0, 100.0] && Taken(cycles, 4) == [102.0, 100.0, 100.0, 101.0];
    if n < 3 {
      TooFew(Taken(cycles, n), 0.01);
    }
    assert n == 4 && [102.0, 100.0, 100.0, 101.0][1] in Taken(cycles, 4);
  }

  lemma TooFew(s: seq<real>, epsilon: real)
    requires |s| < 3
    ensures !Converged(s, 3, epsilon)
  {
  }

  lemma NearConverged()
    ensures Converged([100.0, 100.0, 101.0], 3, 0.01)
    ensures !Converged([102.0, 100.0, 100.0], 3, 0.01)
    ensures Converged([102.0, 100.0, 100.0, 101.0], 3, 0.01)
  {
    hide Sort, Converged, Ascending;
    var x, y, z := [100.0, 100.0, 101.0], [100.0, 100.0, 102.0], [100.0, 100.0, 101.0, 102.0];
    FewAscending(x);
    FewAscending(y);
    FewAscending(z);
    ConvergedMeaning(x, x, 3, 0.01);
    assert multiset(y) == multiset([102.0, 100.0, 100.0]);
    ConvergedMeaning([102.0, 100.0, 100.0], y, 3, 0.01);
    assert multiset(z) == multiset([102.0, 100.0, 100.0, 101.0]);
    ConvergedMeaning([102.0, 100.0, 100.0, 101.0], z, 3, 0.01);
  }

  lemma FewAscending(v: seq<real>)
    requires 3 <= |v| <= 4 && v[0] <= v[1] <= v[2] && (|v| == 4 ==> v[2] <= v[3])
    ensures Ascending(v)
  {
  }

  lemma SmallestFirst(s: seq<real>)
    requires s != []
    ensures Sort(s)[0] in s && forall x :: x in s ==> Sort(s)[0] <= x
  {
    SortMeaning(s);
    assert Sort(s)[0] in multiset(Sort(s));
    forall x | x in s ensures Sort(s)[0] <= x {
      assert x in multiset(s);
      assert x in Sort(s);
    }
  }

  // What Valid says about the array: its front is as a multiset part of the
  // samples, and every sample left out is at least as large as all of it.
  lemma KBest(s: seq<real>, k: int)
    requires 0 <= k <= |s|
    ensures var front, rest := Sort(s)[..k], Sort(s)[k..];
      && multiset(front) + multiset(rest) == multiset(s) && Ascending(front)
      && forall x, y :: x in front && y in rest ==> x <= y
  {
    hide Sort;
    SortMeaning(s);
    var v := Sort(s);
    assert v == v[..k] + v[k..];
    forall x, y | x in v[..k] && y in v[k..] ensures x <= y {
      var i :| 0 <= i < k && v[..k][i] == x;
      var j :| 0 <= j < |v| - k && v[k..][j] == y;
      assert v[i] <= v[k + j];
    }
  }
}
