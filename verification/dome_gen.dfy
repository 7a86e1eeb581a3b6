/** The bookkeeping of junk/dome-gen.js: the edge list of a polyhedron's
    faces, the per-hexagon area list, the sorted strut lengths, their
    histogram, and the greedy count of stock pieces the struts are cut from.
    The polyhedron (`conway-hart`), its bounds and all vector arithmetic are
    inputs: lengths and areas arrive as numbers, and the rounding into
    histogram buckets is a parameter. */
module DomeGen {

  // ---------------------------------------------------------------------------
  // Edges (lines 17-20)
  // ---------------------------------------------------------------------------

  /** A face: the indices of its vertices in order. */
  type Face = seq<nat>

  type Edge = (nat, nat)

  /** The edges one face pushes: each vertex to the next, the last back to
      the first. Consecutive edges meet, so they close a cycle. */
  function FaceEdges(c: Face): (es: seq<Edge>)
    ensures |es| == |c|
    ensures forall i :: 0 <= i < |c| ==> es[i].0 == c[i]
    ensures forall i :: 0 <= i < |c| ==> es[i].1 == c[(i + 1) % |c|]
    ensures forall i :: 0 <= i < |c| ==> es[i].1 == es[(i + 1) % |c|].0
  {
    var es := seq(|c|, i requires 0 <= i < |c| => (c[i], c[(i + 1) % |c|]));
    assert forall i :: 0 <= i < |c| ==> es[i] == (c[i], c[(i + 1) % |c|]);
    es
  }

  /** The total number of vertices over `cells`. */
  function SizeSum(cells: seq<Face>): nat {
    if |cells| == 0 then 0 else SizeSum(cells[..|cells| - 1]) + |cells[|cells| - 1]|
  }

  /** Where the edges of face `n` start in the edge list. */
  function EdgeSlot(cells: seq<Face>, n: nat, i: int): int
    requires n <= |cells|
  {
    SizeSum(cells[..n]) + i
  }

  /** The edge list of lines 14-20: the faces' edges, face after face. */
  function Edges(cells: seq<Face>): (es: seq<Edge>)
    ensures |es| == SizeSum(cells)
  {
    if |cells| == 0 then [] else Edges(cells[..|cells| - 1]) + FaceEdges(cells[|cells| - 1])
  }

  /** Edge `i` of face `n` sits in the edge list at `EdgeSlot(cells, n, i)`:
      after the edges of every earlier face. */
  lemma {:induction false} EdgesAt(cells: seq<Face>)
    ensures forall n, i :: 0 <= n < |cells| && 0 <= i < |cells[n]| ==>
              EdgeSlot(cells, n, i) < |Edges(cells)| && Edges(cells)[EdgeSlot(cells, n, i)] == FaceEdges(cells[n])[i]
  {
    if |cells| > 0 {
      var m := |cells| - 1;
      var prefix := cells[..m];
      var prev := Edges(prefix);
      var last := FaceEdges(cells[m]);
      var es := Edges(cells);
      assert es == prev + last;
      EdgesAt(prefix);
      forall n, i | 0 <= n < |cells| && 0 <= i < |cells[n]|
        ensures EdgeSlot(cells, n, i) < |es| && es[EdgeSlot(cells, n, i)] == FaceEdges(cells[n])[i]
      {
        if n < m {
          assert cells[..n] == prefix[..n];
          assert prefix[n] == cells[n];
          assert EdgeSlot(cells, n, i) == EdgeSlot(prefix, n, i);
          SizeSumPrefix(prefix, n);
          assert es[EdgeSlot(cells, n, i)] == prev[EdgeSlot(prefix, n, i)];
        } else {
          assert cells[..n] == prefix;
          assert es[EdgeSlot(cells, n, i)] == last[i];
        }
      }
    }
  }

  /** A face's edges sit inside the edges of the faces up to and including
      it. */
  lemma {:induction false} SizeSumPrefix(cells: seq<Face>, n: nat)
    requires n < |cells|
    ensures SizeSum(cells[..n]) + |cells[n]| <= SizeSum(cells)
    decreases |cells|
  {
    var m := |cells| - 1;
    if n < m {
      assert cells[..m][..n] == cells[..n];
      assert cells[..m][n] == cells[n];
      SizeSumPrefix(cells[..m], n);
    } else {
      assert cells[..m] == cells[..n];
    }
  }

  // ---------------------------------------------------------------------------
  // Areas (lines 22-32)
  // ---------------------------------------------------------------------------

  /** The positions of the hexagonal faces, in face order. */
  function HexPositions(cells: seq<Face>): (ps: seq<nat>)
    ensures forall k :: 0 <= k < |ps| ==> ps[k] < |cells| && |cells[ps[k]]| == 6
    ensures forall k, l :: 0 <= k < l < |ps| ==> ps[k] < ps[l]
    ensures forall n :: 0 <= n < |cells| && |cells[n]| == 6 ==> n in ps
  {
    if |cells| == 0 then []
    else
      var m := |cells| - 1;
      var prev := HexPositions(cells[..m]);
      assert forall n :: 0 <= n < m ==> cells[..m][n] == cells[n];
      if |cells[m]| == 6 then prev + [m] else prev
  }

  /** `areas`: one entry per hexagonal face, in face order. The area of a
      face (half the length of its summed cross products) is a parameter. */
  function Areas(cells: seq<Face>, area: Face -> real): (r: seq<real>)
    ensures |r| == |HexPositions(cells)|
    ensures forall k :: 0 <= k < |r| ==> r[k] == area(cells[HexPositions(cells)[k]])
  {
    if |cells| == 0 then []
    else
      var m := |cells| - 1;
      var prev := Areas(cells[..m], area);
      assert forall n :: 0 <= n < m ==> cells[..m][n] == cells[n];
      if |cells[m]| == 6 then prev + [area(cells[m])] else prev
  }

  // ---------------------------------------------------------------------------
  // Sorting (lines 35-39)
  // ---------------------------------------------------------------------------

  predicate Ascending(s: seq<real>) {
    forall i, j :: 0 <= i < j < |s| ==> s[i] <= s[j]
  }

  /** `x` put into the ascending list `s` in front of the first larger
      element. */
  function InsertAsc(x: real, s: seq<real>): (r: seq<real>)
    requires Ascending(s)
    ensures Ascending(r)
    ensures multiset(r) == multiset(s) + multiset{x}
  {
    if |s| == 0 then [x]
    else if x <= s[0] then [x] + s
    else
      var tail := s[1..];
      assert Ascending(tail);
      var rest := InsertAsc(x, tail);
      assert s == [s[0]] + tail;
      BoundedBy(s[0], rest, tail, x);
      [s[0]] + rest
  }

  /** A lower bound of `s` and of `x` bounds every element of `r`, which
      holds the same values. */
  lemma BoundedBy(lo: real, r: seq<real>, s: seq<real>, x: real)
    requires multiset(r) == multiset(s) + multiset{x}
    requires lo <= x && forall k :: 0 <= k < |s| ==> lo <= s[k]
    ensures forall k :: 0 <= k < |r| ==> lo <= r[k]
  {
    forall k | 0 <= k < |r|
      ensures lo <= r[k]
    {
      assert r[k] in multiset(r);
      if r[k] != x {
        assert r[k] in multiset(s);
        var i :| 0 <= i < |s| && s[i] == r[k];
      }
    }
  }

  /** `lengths.sort((a, b) => a - b)`: the same lengths in ascending
      order. */
  function SortAsc(s: seq<real>): (r: seq<real>)
    ensures Ascending(r)
    ensures multiset(r) == multiset(s)
  {
    if |s| == 0 then []
    else
      assert s == s[..|s| - 1] + [s[|s| - 1]];
      InsertAsc(s[|s| - 1], SortAsc(s[..|s| - 1]))
  }

  // ---------------------------------------------------------------------------
  // Histograms (lines 41-61)
  // ---------------------------------------------------------------------------

  /** `histogram[x] = (histogram[x] | 0) + 1` for each bucket value `x`, in
      order. */
  function Histogram(xs: seq<real>): (h: map<real, nat>)
    ensures h.Keys == set x | x in xs
    ensures forall x :: x in h ==> h[x] == multiset(xs)[x]
  {
    if |xs| == 0 then map[]
    else
      var m := |xs| - 1;
      var h := Histogram(xs[..m]);
      var x := xs[m];
      assert xs == xs[..m] + [x];
      var prior := if x in h then h[x] else 0;
      assert prior == multiset(xs[..m])[x];
      h[x := prior + 1]
  }

  /** The sum of a histogram's counts. */
  ghost function CountSum(h: map<real, nat>): nat
    decreases |h.Keys|
  {
    if h.Keys == {} then 0
    else
      HasKey(h.Keys);
      var k :| k in h.Keys;
      h[k] + CountSum(h - {k})
  }

  lemma HasKey(s: set<real>)
    requires s != {}
    ensures exists x :: x in s
  {
    if forall x :: x !in s {
      assert false;
    }
  }

  /** `CountSum` does not depend on which key it takes first. */
  lemma {:induction false} CountSumRemove(h: map<real, nat>, k: real)
    requires k in h
    ensures CountSum(h) == h[k] + CountSum(h - {k})
    decreases |h.Keys|
  {
    assert h.Keys != {};
    var k' :| k' in h.Keys && CountSum(h) == h[k'] + CountSum(h - {k'});
    if k' != k {
      var h1 := h - {k'};
      var h2 := h - {k};
      assert h1.Keys == h.Keys - {k'} && k in h1;
      assert h2.Keys == h.Keys - {k} && k' in h2;
      assert |h1.Keys| < |h.Keys| && |h2.Keys| < |h.Keys|;
      CountSumRemove(h1, k);
      CountSumRemove(h2, k');
      assert h1[k] == h[k] && h2[k'] == h[k'];
      assert h1 - {k} == h2 - {k'} by {
        assert (h1 - {k}).Keys == h.Keys - {k, k'} == (h2 - {k'}).Keys;
      }
    }
  }

  /** The counts of a histogram add up to the number of values counted. */
  lemma {:induction false} HistogramTotal(xs: seq<real>)
    ensures CountSum(Histogram(xs)) == |xs|
  {
    if |xs| > 0 {
      var m := |xs| - 1;
      var x := xs[m];
      var h := Histogram(xs[..m]);
      HistogramTotal(xs[..m]);
      assert Histogram(xs) == h[x := (if x in h then h[x] else 0) + 1];
      HistogramStep(h, x);
    }
  }

  /** Counting one more value adds one to the sum of counts. */
  lemma HistogramStep(h: map<real, nat>, x: real)
    ensures CountSum(h[x := (if x in h then h[x] else 0) + 1]) == CountSum(h) + 1
  {
    var h' := h[x := (if x in h then h[x] else 0) + 1];
    CountSumRemove(h', x);
    assert h' - {x} == h - {x};
    if x in h {
      CountSumRemove(h, x);
    } else {
      assert h - {x} == h;
    }
  }

  /** The bucket values of lines 44-48: each length rounded by `bucket`
      (`Math.round(scale * l * 100) / 100`). */
  function Buckets(lengths: seq<real>, bucket: real -> real): (xs: seq<real>)
    ensures |xs| == |lengths|
    ensures forall i :: 0 <= i < |lengths| ==> xs[i] == bucket(lengths[i])
  {
    seq(|lengths|, i requires 0 <= i < |lengths| => bucket(lengths[i]))
  }

  /** Lines 59-61: every count divided by two, since each edge is listed
      once by each of its two faces. */
  function Halve(h: map<real, nat>): (r: map<real, real>)
    ensures r.Keys == h.Keys
    ensures forall x :: x in h ==> 2.0 * r[x] == h[x] as real
  {
    map x | x in h :: h[x] as real / 2.0
  }

  /** Lines 35-61: the length histogram as the script leaves it: sorted
      lengths, bucketed, counted, each count halved. */
  function LengthHistogram(lengths: seq<real>, bucket: real -> real): map<real, real> {
    Halve(Histogram(Buckets(SortAsc(lengths), bucket)))
  }

  lemma BucketsAppend(a: seq<real>, b: seq<real>, bucket: real -> real)
    ensures Buckets(a + b, bucket) == Buckets(a, bucket) + Buckets(b, bucket)
  {
  }

  /** Bucketing two arrangements of the same lengths gives the same bucket
      values, up to order. */
  lemma {:induction false} BucketsPermuted(a: seq<real>, b: seq<real>, bucket: real -> real)
    requires multiset(a) == multiset(b)
    ensures multiset(Buckets(a, bucket)) == multiset(Buckets(b, bucket))
    decreases |a|
  {
    if |a| > 0 {
      var n := |a| - 1;
      var pre, post := Locate(a, b);
      BucketsPermuted(a[..n], pre + post, bucket);
      assert a == a[..n] + [a[n]] + [];
      assert a[..n] + [] == a[..n];
      BucketsWith(a[..n], [], a[n], bucket);
      BucketsWith(pre, post, a[n], bucket);
    }
  }

  /** Where the last of `a` sits in a rearrangement `b` of it: what is left
      on either side is a rearrangement of the rest of `a`. */
  lemma Locate(a: seq<real>, b: seq<real>) returns (pre: seq<real>, post: seq<real>)
    requires |a| > 0 && multiset(a) == multiset(b)
    ensures b == pre + [a[|a| - 1]] + post
    ensures multiset(a[..|a| - 1]) == multiset(pre + post)
  {
    var n := |a| - 1;
    var x := a[n];
    assert a == a[..n] + [x];
    assert x in multiset(b);
    var i :| 0 <= i < |b| && b[i] == x;
    pre, post := b[..i], b[i + 1..];
    assert b == pre + [x] + post;
    assert multiset(a[..n]) == multiset(a) - multiset{x};
    assert multiset(pre + post) == multiset(b) - multiset{x};
  }

  /** One more length adds its bucket value once, wherever it stands. */
  lemma BucketsWith(pre: seq<real>, post: seq<real>, x: real, bucket: real -> real)
    ensures multiset(Buckets(pre + [x] + post, bucket)) == multiset(Buckets(pre + post, bucket)) + multiset{bucket(x)}
  {
    assert Buckets([x], bucket) == [bucket(x)];
    BucketsAppend(pre + [x], post, bucket);
    BucketsAppend(pre, [x], bucket);
    BucketsAppend(pre, post, bucket);
  }

  /** A histogram depends only on the multiset of values counted. */
  lemma HistogramOfMultiset(xs: seq<real>, ys: seq<real>)
    requires multiset(xs) == multiset(ys)
    ensures Histogram(xs) == Histogram(ys)
  {
    var hx, hy := Histogram(xs), Histogram(ys);
    assert forall x :: x in xs <==> x in multiset(xs);
    assert forall y :: y in ys <==> y in multiset(ys);
    assert hx.Keys == hy.Keys;
  }

  /** The sort of lines 37-39 does not change the histogram: counting the
      sorted lengths' buckets gives the same counts as counting the lengths
      in edge order. */
  lemma SortedHistogram(lengths: seq<real>, bucket: real -> real)
    ensures Histogram(Buckets(SortAsc(lengths), bucket)) == Histogram(Buckets(lengths, bucket))
  {
    BucketsPermuted(SortAsc(lengths), lengths, bucket);
    HistogramOfMultiset(Buckets(SortAsc(lengths), bucket), Buckets(lengths, bucket));
  }

  /** The length histogram has a key for each bucket value of an edge, and
      twice its entry is the number of edges in that bucket. */
  lemma LengthHistogramCounts(lengths: seq<real>, bucket: real -> real)
    ensures LengthHistogram(lengths, bucket).Keys == set i | 0 <= i < |lengths| :: bucket(lengths[i])
    ensures forall x :: x in LengthHistogram(lengths, bucket) ==>
              2.0 * LengthHistogram(lengths, bucket)[x] == multiset(Buckets(lengths, bucket))[x] as real
  {
    SortedHistogram(lengths, bucket);
    var xs := Buckets(lengths, bucket);
    assert (set x | x in xs) == set i | 0 <= i < |lengths| :: bucket(lengths[i]) by {
      forall x | x in xs
        ensures exists i :: 0 <= i < |lengths| && x == bucket(lengths[i])
      {
        var i :| 0 <= i < |xs| && xs[i] == x;
      }
    }
  }

  /** The halved counts as whole numbers. */
  function HalfCounts(h: map<real, nat>): map<real, nat> {
    map x | x in h :: h[x] / 2
  }

  /** When every count is even (each edge listed once by each of its two
      faces), the halved counts of lines 59-61 are whole numbers and add up
      to half the counts' total. */
  lemma HalveWhole(h: map<real, nat>)
    requires forall x :: x in h ==> h[x] % 2 == 0
    ensures forall x :: x in h ==> Halve(h)[x] == (h[x] / 2) as real
    ensures 2 * CountSum(HalfCounts(h)) == CountSum(h)
  {
    HalfCountsSum(h);
  }

  lemma {:induction false} HalfCountsSum(h: map<real, nat>)
    requires forall x :: x in h ==> h[x] % 2 == 0
    ensures 2 * CountSum(HalfCounts(h)) == CountSum(h)
    decreases |h.Keys|
  {
    var half := HalfCounts(h);
    if h.Keys != {} {
      HasKey(h.Keys);
      var k :| k in h.Keys;
      var rest := h - {k};
      assert rest.Keys == h.Keys - {k};
      HalfCountsSum(rest);
      CountSumRemove(h, k);
      assert k in half && 2 * half[k] == h[k];
      CountSumRemove(half, k);
      assert half - {k} == HalfCounts(rest);
    } else {
      assert half.Keys == {};
    }
  }

  /** With every bucket count even, the halved histogram counts each strut
      once: its whole counts add up to half the number of edges. */
  lemma LengthHistogramTotal(lengths: seq<real>, bucket: real -> real)
    requires forall x :: x in Histogram(Buckets(lengths, bucket)) ==> Histogram(Buckets(lengths, bucket))[x] % 2 == 0
    ensures 2 * CountSum(HalfCounts(Histogram(Buckets(SortAsc(lengths), bucket)))) == |lengths|
  {
    SortedHistogram(lengths, bucket);
    HalveWhole(Histogram(Buckets(lengths, bucket)));
    HistogramTotal(Buckets(lengths, bucket));
  }

  // ---------------------------------------------------------------------------
  // Greedy piece count (lines 76-86)
  // ---------------------------------------------------------------------------

  /** The stock length the struts are cut from. */
  const Stock: real := 10.0

  /** The lengths the cutting loop visits: indices `0, 2, 4, ...`, each
      multiplied by `scale`. */
  function Visited(lengths: seq<real>, scale: real): (v: seq<real>)
    ensures |v| == (|lengths| + 1) / 2
    ensures forall k :: 0 <= k < |v| ==> v[k] == lengths[2 * k] * scale
  {
    seq((|lengths| + 1) / 2, k requires 0 <= k < (|lengths| + 1) / 2 => lengths[2 * k] * scale)
  }

  function Sum(s: seq<real>): real {
    if |s| == 0 then 0.0 else Sum(s[..|s| - 1]) + s[|s| - 1]
  }

  /** Next-fit over the struts `v`, in order: the number of pieces and what
      is left of the current one. A strut longer than what is left starts a
      new piece. */
  function NextFit(v: seq<real>): (nat, real) {
    if |v| == 0 then (1, Stock)
    else
      var prev := NextFit(v[..|v| - 1]);
      var l := v[|v| - 1];
      if prev.1 < l then (prev.0 + 1, Stock - l) else (prev.0, prev.1 - l)
  }

  /** One more strut: a new piece when the current one is too short. */
  lemma NextFitStep(v: seq<real>, k: nat)
    requires k < |v|
    ensures var prev := NextFit(v[..k]);
            NextFit(v[..k + 1]) == if prev.1 < v[k] then (prev.0 + 1, Stock - v[k]) else (prev.0, prev.1 - v[k])
  {
    assert v[..k + 1][..k] == v[..k];
  }

  predicate Fits(v: seq<real>) {
    forall k :: 0 <= k < |v| ==> 0.0 <= v[k] <= Stock
  }

  /** Next-fit counts at least one piece and at most one more per strut.
      When every strut fits the stock, the pieces hold all the struts and
      any two consecutive pieces hold more than the stock between them. */
  lemma {:induction false} NextFitBounds(v: seq<real>)
    ensures 1 <= NextFit(v).0 <= 1 + |v|
    ensures Fits(v) ==> 0.0 <= NextFit(v).1 <= Stock
    ensures Fits(v) ==> Sum(v) + NextFit(v).1 <= Stock * NextFit(v).0 as real
    ensures Fits(v) ==> Stock * (NextFit(v).0 - 1) as real + (Stock - NextFit(v).1) <= 2.0 * Sum(v)
  {
    if |v| > 0 {
      var n := |v| - 1;
      NextFitBounds(v[..n]);
      assert Fits(v) ==> Fits(v[..n]);
    }
  }

  /** Lines 76-86: next-fit cutting of the visited lengths from stock of
      length 10; the loop over every other index computes exactly `NextFit`
      of `Visited`. A new piece is started exactly when the current one has
      less left than the strut needs. At least one piece is counted and at
      most one more per visited strut. When every strut fits the stock, the
      pieces hold all the struts (`total <= 10 * pieces`) and any two
      consecutive pieces hold more than 10 between them, so the count is
      below `1 + total / 5`: within a factor two of the fewest possible. */
  method CountPieces(lengths: seq<real>, scale: real) returns (numPieces: nat, remainingLength: real)
    ensures 1 <= numPieces <= 1 + |Visited(lengths, scale)|
    ensures Fits(Visited(lengths, scale)) ==> 0.0 <= remainingLength <= Stock
    ensures Fits(Visited(lengths, scale)) ==> Sum(Visited(lengths, scale)) + remainingLength <= Stock * numPieces as real
    ensures Fits(Visited(lengths, scale)) ==> Stock * (numPieces - 1) as real <= 2.0 * Sum(Visited(lengths, scale))
    ensures (numPieces, remainingLength) == NextFit(Visited(lengths, scale))
  {
    ghost var v := Visited(lengths, scale);
    numPieces := 1;
    remainingLength := Stock;
    var i := 0;
    ghost var k := 0;
    while i < |lengths|
      invariant k <= |v| && i == 2 * k
      invariant (k < |v| ==> i < |lengths|) && (k == |v| ==> i >= |lengths|)
      invariant (numPieces, remainingLength) == NextFit(v[..k])
    {
      EveryOther(|lengths|, k);
      var l := lengths[i] * scale;
      assert l == v[k];
      NextFitStep(v, k);
      if remainingLength < l {
        remainingLength := Stock - l;
        numPieces := numPieces + 1;
      } else {
        remainingLength := remainingLength - l;
      }
      i := i + 2;
      k := k + 1;
    }
    assert v[..k] == v;
    NextFitBounds(v);
  }

  /** Stepping by two from 0 below `n` visits `(n + 1) / 2` indices. */
  lemma EveryOther(n: nat, k: nat)
    ensures 2 * k < n <==> k < (n + 1) / 2
    ensures 2 * k < n ==> (2 * (k + 1) < n <==> k + 1 < (n + 1) / 2)
  {
  }
}
