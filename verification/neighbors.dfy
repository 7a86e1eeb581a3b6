/** The vertex-attribute enumerations of examples/neighbor-particles.js and
    junk/neighbor-pairs.js. The particles live on an `N x N` grid with
    `N = 1 << LOG_N`. Every unordered pair of particles becomes a line
    whose two vertices hold both orientations, and (in the particle example)
    every unordered triple becomes a triangle whose three vertices hold the
    three cyclic rotations, packed into bytes. The draw counts declared next
    to the enumerations must equal the number of vertices they produce.
    `LOG_N` (4 in examples/neighbor-particles.js, 5 in
    junk/neighbor-pairs.js) is a parameter: every property is stated for
    any `LOG_N` up to 8. */
module Neighbors {

  function Pow2(e: nat): (p: nat)
    ensures p >= 1
  {
    if e == 0 then 1 else 2 * Pow2(e - 1)
  }

  lemma {:induction false} Pow2Add(a: nat, b: nat)
    ensures Pow2(a) * Pow2(b) == Pow2(a + b)
  {
    if a > 0 {
      Pow2Add(a - 1, b);
      var x, y := Pow2(a - 1), Pow2(b);
      assert Pow2(a) * y == 2 * (x * y) by {
        MulAssoc(2, x, y);
      }
    }
  }

  lemma MulAssoc(a: int, b: int, c: int)
    ensures (a * b) * c == a * (b * c)
  {
  }

  /** `N = 1 << LOG_N`, the side of the particle grid. */
  function Side(logN: nat): nat {
    Pow2(logN)
  }

  // ---------------------------------------------------------------------------
  // Counting
  // ---------------------------------------------------------------------------

  /** The number of pairs `j < i` with `i < m`. */
  function Tri(m: nat): nat {
    if m == 0 then 0 else Tri(m - 1) + (m - 1)
  }

  /** The number of triples `k < j < i` with `i < m`. */
  function Tet(m: nat): nat {
    if m == 0 then 0 else Tet(m - 1) + Tri(m - 1)
  }

  lemma {:induction false} TriMono(a: nat, b: nat)
    requires a <= b
    ensures Tri(a) <= Tri(b)
    decreases b
  {
    if a < b {
      TriMono(a, b - 1);
    }
  }

  lemma {:induction false} TetMono(a: nat, b: nat)
    requires a <= b
    ensures Tet(a) <= Tet(b)
    decreases b
  {
    if a < b {
      TetMono(a, b - 1);
    }
  }

  lemma {:induction false} TriClosed(m: nat)
    ensures 2 * Tri(m) == m * (m - 1)
  {
    if m > 0 {
      TriClosed(m - 1);
      assert (m - 1) * (m - 2) + 2 * (m - 1) == m * (m - 1);
    }
  }

  lemma {:induction false} TetClosed(m: nat)
    ensures 6 * Tet(m) == m * (m - 1) * (m - 2)
  {
    if m > 0 {
      TetClosed(m - 1);
      TriClosed(m - 1);
      var x := (m - 1) * (m - 2);
      MulAdd(x, m - 3, 3);
      assert m * (m - 1) * (m - 2) == x * m by {
        MulComm3(m, m - 1, m - 2);
      }
    }
  }

  lemma MulAdd(x: int, a: int, b: int)
    ensures x * a + x * b == x * (a + b)
  {
  }

  lemma MulComm3(a: int, b: int, c: int)
    ensures a * b * c == b * c * a
  {
  }

  // ---------------------------------------------------------------------------
  // Pair enumeration
  // ---------------------------------------------------------------------------

  type Pair = (nat, nat)

  /** The place of pair `(a, b)` in the enumeration. */
  function PairIndex(a: nat, b: nat): nat {
    Tri(a) + b
  }

  /** The pairs `(i, j)` with `j < i` for the first `j` values of `j`. */
  function Row(i: nat, j: nat): (r: seq<Pair>)
    ensures |r| == j
    ensures forall b :: 0 <= b < j ==> r[b] == (i, b)
  {
    seq(j, b => (i, b))
  }

  /** The pairs in the order of the two loops `for i ... for j < i`, with
      `i < m`. */
  function PairList(m: nat): (ps: seq<Pair>)
    ensures |ps| == Tri(m)
  {
    if m == 0 then [] else PairList(m - 1) + Row(m - 1, m - 1)
  }

  /** Every entry of `PairList(m)` is a pair `j < i < m`, sitting at place
      `Tri(i) + j`. */
  lemma {:induction false} PairListSound(m: nat)
    ensures forall k :: 0 <= k < |PairList(m)| ==> PairList(m)[k].1 < PairList(m)[k].0 < m && k == PairIndex(PairList(m)[k].0, PairList(m)[k].1)
  {
    if m > 0 {
      var prev := PairList(m - 1);
      var row := Row(m - 1, m - 1);
      var ps := PairList(m);
      assert ps == prev + row;
      PairListSound(m - 1);
      forall k | 0 <= k < |ps|
        ensures ps[k].1 < ps[k].0 < m && k == PairIndex(ps[k].0, ps[k].1)
      {
        if k < |prev| {
          assert ps[k] == prev[k];
        } else {
          assert ps[k] == row[k - |prev|];
        }
      }
    }
  }

  /** Every pair `j < i < m` occurs in `PairList(m)`, at place `Tri(i) + j`. */
  lemma {:induction false} PairListComplete(m: nat)
    ensures forall a, b :: 0 <= b < a < m ==> PairIndex(a, b) < |PairList(m)| && PairList(m)[PairIndex(a, b)] == (a, b)
  {
    if m > 0 {
      var prev := PairList(m - 1);
      var row := Row(m - 1, m - 1);
      var ps := PairList(m);
      assert ps == prev + row;
      PairListComplete(m - 1);
      forall a, b | 0 <= b < a < m
        ensures PairIndex(a, b) < |ps| && ps[PairIndex(a, b)] == (a, b)
      {
        if a < m - 1 {
          TriMono(a + 1, m - 1);
          assert ps[PairIndex(a, b)] == prev[PairIndex(a, b)];
        } else {
          assert ps[PairIndex(a, b)] == row[b];
        }
      }
    }
  }

  /** The column `i % N` of particle `i`. */
  function Col(n: nat, i: nat): (x: nat)
    requires n > 0
    ensures x < n
  {
    i % n
  }

  /** The row `(i / N) | 0` of particle `i`: below `N` for the `N * N`
      particles. */
  function Line(n: nat, i: nat): (y: nat)
    requires n > 0
    ensures i < n * n ==> y < n
  {
    if i < n * n then DivBelow(i, n); i / n else i / n
  }

  /** Grid coordinates `[(i % N) / N, ((i / N) | 0) / N]` of particle `i`. */
  function UnitCoord(n: nat, i: nat): (real, real)
    requires n > 0
  {
    (Col(n, i) as real / n as real, Line(n, i) as real / n as real)
  }

  /** The eight numbers pushed for one pair: the line from `p` to `q` and
      the line from `q` to `p`. */
  function PairBlock(n: nat, p: Pair): seq<real>
    requires n > 0
  {
    var (px, py) := UnitCoord(n, p.0);
    var (qx, qy) := UnitCoord(n, p.1);
    [px, py, qx, qy, qx, qy, px, py]
  }

  /** The attribute data of a list of pairs, pair after pair. */
  function PairData(n: nat, ps: seq<Pair>): (d: seq<real>)
    requires n > 0
    ensures |d| == 8 * |ps|
  {
    if |ps| == 0 then [] else PairData(n, ps[..|ps| - 1]) + PairBlock(n, ps[|ps| - 1])
  }

  /** A particle below `n * n` lies on row `i / n < n`. */
  lemma DivBelow(i: nat, n: nat)
    requires n > 0 && i < n * n
    ensures i / n < n
  {
    if i / n >= n {
      MulMonotone(n, i / n, n);
      assert false;
    }
  }

  /** Every coordinate of a pair of particles `< n * n` lies in `[0, 1)`. */
  lemma {:induction false} PairDataInUnit(n: nat, ps: seq<Pair>)
    requires n > 0
    requires forall k :: 0 <= k < |ps| ==> ps[k].0 < n * n && ps[k].1 < n * n
    ensures forall k :: 0 <= k < |PairData(n, ps)| ==> 0.0 <= PairData(n, ps)[k] < 1.0
  {
    if |ps| > 0 {
      var p := ps[|ps| - 1];
      PairDataInUnit(n, ps[..|ps| - 1]);
      UnitBelowOne(Col(n, p.0), n);
      UnitBelowOne(Line(n, p.0), n);
      UnitBelowOne(Col(n, p.1), n);
      UnitBelowOne(Line(n, p.1), n);
    }
  }

  lemma UnitBelowOne(a: nat, n: nat)
    requires a < n
    ensures 0.0 <= a as real / n as real < 1.0
  {
  }

  /** The `id` attribute of lines 119-133 (the same code is at lines 119-133
      of junk/neighbor-pairs.js): the data of `PairList(N * N)`, whose
      length over four (one `vec4` per vertex) is the draw count
      `N * N * (N * N - 1)` of line 145, with every coordinate in `[0, 1)`.
      The loops visit the pairs in the order of `PairLoop`; each visit
      pushes the pair's block, so the data is the blocks of that order. */
  method PairAttribute(logN: nat) returns (pairs: seq<real>)
    ensures |pairs| / 4 == Side(logN) * Side(logN) * (Side(logN) * Side(logN) - 1)
    ensures forall x :: x in pairs ==> 0.0 <= x < 1.0
    ensures pairs == PairData(Side(logN), PairList(Side(logN) * Side(logN)))
  {
    var n := Side(logN);
    var ps := PairLoop(n * n);
    pairs := PairData(n, ps);
    PairFacts(n, n * n);
  }

  /** The two loops `for (i = 1; i < m; ++i) for (j = 0; j < i; ++j)` of
      lines 119-133: they visit the pairs of `PairList(m)` in its order. */
  method PairLoop(m: nat) returns (ps: seq<Pair>)
    ensures ps == PairList(m)
  {
    ps := [];
    if m == 0 {
      return;
    }
    var i := 1;
    assert PairList(1) == PairList(0) + Row(0, 0);
    while i < m
      invariant 1 <= i <= m
      invariant ps == PairList(i)
    {
      var j := 0;
      while j < i
        invariant 0 <= j <= i
        invariant ps == PairList(i) + Row(i, j)
      {
        assert Row(i, j + 1) == Row(i, j) + [(i, j)];
        ps := ps + [(i, j)];
        j := j + 1;
      }
      i := i + 1;
    }
  }

  /** The pair data of the `N * N` particles lies in the unit square, and its
      four-number vertices match the draw count. */
  lemma PairFacts(n: nat, m: nat)
    requires n > 0 && m == n * n
    ensures |PairData(n, PairList(m))| / 4 == m * (m - 1)
    ensures forall x :: x in PairData(n, PairList(m)) ==> 0.0 <= x < 1.0
  {
    PairCount(n, m);
    PairListSound(m);
    PairDataInUnit(n, PairList(m));
  }

  /** The pair data of `m` particles holds four numbers for each of the
      `m * (m - 1)` vertices (two per unordered pair); with `m == N * N`
      this is the draw count `N * N * (N * N - 1)`. */
  lemma PairCount(n: nat, m: nat)
    requires n > 0
    ensures |PairData(n, PairList(m))| == 4 * (m * (m - 1))
  {
    TriClosed(m);
  }

  // ---------------------------------------------------------------------------
  // Triple enumeration (examples/neighbor-particles.js lines 186-203)
  // ---------------------------------------------------------------------------

  type Triple = (nat, nat, nat)

  /** The place of triple `(a, b, c)` in the enumeration. */
  function TripleIndex(a: nat, b: nat, c: nat): nat {
    Tet(a) + PairIndex(b, c)
  }

  /** The triples `(i, j, k)` with `k < j`. */
  function Row3(i: nat, j: nat, k: nat): (r: seq<Triple>)
    ensures |r| == k
    ensures forall c :: 0 <= c < k ==> r[c] == (i, j, c)
  {
    seq(k, c => (i, j, c))
  }

  /** The triples `(i, j, k)` with `k < j < jEnd`, in loop order: the
      pair enumeration with `i` in front. */
  function Plane(i: nat, jEnd: nat): (ps: seq<Triple>)
    ensures |ps| == Tri(jEnd)
  {
    if jEnd == 0 then [] else Plane(i, jEnd - 1) + Row3(i, jEnd - 1, jEnd - 1)
  }

  /** Every entry of `Plane(i, jEnd)` is a triple `(i, b, c)` with
      `c < b < jEnd`, sitting at place `Tri(b) + c`. */
  lemma {:induction false} PlaneSound(i: nat, jEnd: nat)
    ensures forall k :: 0 <= k < |Plane(i, jEnd)| ==> Plane(i, jEnd)[k].0 == i && Plane(i, jEnd)[k].2 < Plane(i, jEnd)[k].1 < jEnd && k == PairIndex(Plane(i, jEnd)[k].1, Plane(i, jEnd)[k].2)
  {
    if jEnd > 0 {
      var prev := Plane(i, jEnd - 1);
      var row := Row3(i, jEnd - 1, jEnd - 1);
      var ps := Plane(i, jEnd);
      assert ps == prev + row;
      PlaneSound(i, jEnd - 1);
      forall k | 0 <= k < |ps|
        ensures ps[k].0 == i && ps[k].2 < ps[k].1 < jEnd && k == PairIndex(ps[k].1, ps[k].2)
      {
        if k < |prev| {
          assert ps[k] == prev[k];
        } else {
          assert ps[k] == row[k - |prev|];
        }
      }
    }
  }

  /** Every triple `(i, b, c)` with `c < b < jEnd` occurs in
      `Plane(i, jEnd)`, at place `Tri(b) + c`. */
  lemma {:induction false} PlaneComplete(i: nat, jEnd: nat)
    ensures forall b, c :: 0 <= c < b < jEnd ==> PairIndex(b, c) < |Plane(i, jEnd)| && Plane(i, jEnd)[PairIndex(b, c)] == (i, b, c)
  {
    if jEnd > 0 {
      var prev := Plane(i, jEnd - 1);
      var row := Row3(i, jEnd - 1, jEnd - 1);
      var ps := Plane(i, jEnd);
      assert ps == prev + row;
      PlaneComplete(i, jEnd - 1);
      forall b, c | 0 <= c < b < jEnd
        ensures PairIndex(b, c) < |ps| && ps[PairIndex(b, c)] == (i, b, c)
      {
        if b < jEnd - 1 {
          TriMono(b + 1, jEnd - 1);
          assert ps[PairIndex(b, c)] == prev[PairIndex(b, c)];
        } else {
          assert ps[PairIndex(b, c)] == row[c];
        }
      }
    }
  }

  /** The triples in the order of the three loops, with `i < m`. */
  function TripleList(m: nat): (ts: seq<Triple>)
    ensures |ts| == Tet(m)
  {
    if m == 0 then [] else TripleList(m - 1) + Plane(m - 1, m - 1)
  }

  /** Every entry of `TripleList(m)` is a triple `c < b < a < m`, sitting
      at place `Tet(a) + Tri(b) + c`. */
  lemma {:induction false} TripleListSound(m: nat)
    ensures forall k :: 0 <= k < |TripleList(m)| ==> TripleList(m)[k].2 < TripleList(m)[k].1 < TripleList(m)[k].0 < m && k == TripleIndex(TripleList(m)[k].0, TripleList(m)[k].1, TripleList(m)[k].2)
  {
    if m > 0 {
      var prev := TripleList(m - 1);
      var plane := Plane(m - 1, m - 1);
      var ts := TripleList(m);
      assert ts == prev + plane;
      TripleListSound(m - 1);
      PlaneSound(m - 1, m - 1);
      forall k | 0 <= k < |ts|
        ensures ts[k].2 < ts[k].1 < ts[k].0 < m && k == TripleIndex(ts[k].0, ts[k].1, ts[k].2)
      {
        if k < |prev| {
          assert ts[k] == prev[k];
        } else {
          assert ts[k] == plane[k - |prev|];
        }
      }
    }
  }

  /** A triple with `a < m` sits before the end of `TripleList(m)`. */
  lemma TripleIndexBelow(a: nat, b: nat, c: nat, m: nat)
    requires c < b < a < m
    ensures TripleIndex(a, b, c) < Tet(m)
  {
    TriMono(b + 1, a);
    TetMono(a + 1, m);
  }

  /** Every triple `c < b < a < m` occurs in `TripleList(m)`, at place
      `Tet(a) + Tri(b) + c`. */
  lemma {:induction false} TripleListComplete(m: nat)
    ensures forall a, b, c :: 0 <= c < b < a < m ==> TripleIndex(a, b, c) < |TripleList(m)| && TripleList(m)[TripleIndex(a, b, c)] == (a, b, c)
  {
    if m > 0 {
      var prev := TripleList(m - 1);
      var plane := Plane(m - 1, m - 1);
      var ts := TripleList(m);
      assert ts == prev + plane;
      TripleListComplete(m - 1);
      PlaneComplete(m - 1, m - 1);
      forall a, b, c | 0 <= c < b < a < m
        ensures TripleIndex(a, b, c) < |ts| && ts[TripleIndex(a, b, c)] == (a, b, c)
      {
        var t := TripleIndex(a, b, c);
        if a < m - 1 {
          TripleIndexBelow(a, b, c, m - 1);
          assert ts[t] == prev[t];
        } else {
          assert t == |prev| + PairIndex(b, c);
          assert ts[t] == plane[PairIndex(b, c)];
        }
      }
    }
  }

  /** `(x << (8 - LOG_N))`: a grid coordinate scaled to a byte. The shift
      loses nothing: the low `8 - LOG_N` bits are clear and shifting back
      recovers `x`. */
  function Pack(logN: nat, x: nat): (p: nat)
    requires logN <= 8
    ensures p % Pow2(8 - logN) == 0 && p / Pow2(8 - logN) == x
  {
    var s := Pow2(8 - logN);
    MulDiv(x, s);
    x * s
  }

  /** Dividing a multiple of `s` by `s` is exact. */
  lemma MulDiv(x: nat, s: nat)
    requires s > 0
    ensures (x * s) % s == 0 && (x * s) / s == x
  {
    var a := x * s;
    var q, r := a / s, a % s;
    assert a == q * s + r && 0 <= r < s;
    assert (x - q) * s == r by {
      assert (x - q) * s == x * s - q * s;
    }
    if x - q >= 1 {
      assert false;
    } else if x - q <= -1 {
      assert false;
    }
  }

  /** The eighteen bytes pushed for one triple `(p, q, r)`: the rotations
      `(p, q, r)`, `(q, r, p)` and `(r, p, q)`, one per triangle vertex. */
  function TripleBlock(logN: nat, t: Triple): seq<nat>
    requires logN <= 8
  {
    var n := Pow2(logN);
    var (px, py) := (Pack(logN, Col(n, t.0)), Pack(logN, Line(n, t.0)));
    var (qx, qy) := (Pack(logN, Col(n, t.1)), Pack(logN, Line(n, t.1)));
    var (rx, ry) := (Pack(logN, Col(n, t.2)), Pack(logN, Line(n, t.2)));
    [px, py, qx, qy, rx, ry,
     qx, qy, rx, ry, px, py,
     rx, ry, px, py, qx, qy]
  }

  function TripleData(logN: nat, ts: seq<Triple>): (d: seq<nat>)
    requires logN <= 8
    ensures |d| == 18 * |ts|
  {
    if |ts| == 0 then [] else TripleData(logN, ts[..|ts| - 1]) + TripleBlock(logN, ts[|ts| - 1])
  }

  /** A grid coordinate below `N` packs into a byte. */
  lemma PackFits(logN: nat, x: nat)
    requires logN <= 8 && x < Pow2(logN)
    ensures Pack(logN, x) < 256
  {
    Pow2Add(logN, 8 - logN);
    assert Pow2(8) == 256;
    var s := Pow2(8 - logN);
    assert x * s <= (Pow2(logN) - 1) * s by {
      MulMonotone(x, Pow2(logN) - 1, s);
    }
  }

  lemma MulMonotone(a: nat, b: nat, s: nat)
    requires a <= b
    ensures a * s <= b * s
  {
  }

  /** The eighteen values of one triple of particles `< N * N` are bytes. */
  lemma BlockFits(logN: nat, t: Triple)
    requires logN <= 8
    requires t.0 < Pow2(logN) * Pow2(logN) && t.1 < Pow2(logN) * Pow2(logN) && t.2 < Pow2(logN) * Pow2(logN)
    ensures forall x :: x in TripleBlock(logN, t) ==> x < 256
  {
    var n := Pow2(logN);
    PackFits(logN, Col(n, t.0));
    PackFits(logN, Line(n, t.0));
    PackFits(logN, Col(n, t.1));
    PackFits(logN, Line(n, t.1));
    PackFits(logN, Col(n, t.2));
    PackFits(logN, Line(n, t.2));
  }

  /** Every byte of the triples of particles `< N * N` is below 256, so
      `new Uint8Array(triples)` stores them unchanged. */
  lemma {:induction false} TripleDataFits(logN: nat, ts: seq<Triple>)
    requires logN <= 8
    requires forall k :: 0 <= k < |ts| ==> ts[k].0 < Pow2(logN) * Pow2(logN) && ts[k].1 < Pow2(logN) * Pow2(logN) && ts[k].2 < Pow2(logN) * Pow2(logN)
    ensures forall x :: x in TripleData(logN, ts) ==> x < 256
  {
    if |ts| > 0 {
      TripleDataFits(logN, ts[..|ts| - 1]);
      BlockFits(logN, ts[|ts| - 1]);
    }
  }

  /** The draw count of the triple buffer: with six bytes per vertex there
      are `N * N * (N * N - 1) * (N * N - 2) / 2` vertices. */
  lemma TripleCount(logN: nat, m: nat)
    requires logN <= 8
    ensures |TripleData(logN, TripleList(m))| / 6 == m * (m - 1) * (m - 2) / 2
  {
    var t := Tet(m);
    TetClosed(m);
    assert |TripleData(logN, TripleList(m))| == 18 * t;
    assert m * (m - 1) * (m - 2) == 6 * t;
  }

  /** Lines 186-203 of examples/neighbor-particles.js: the data of
      `TripleList(N * N)`, every value a byte, and as many six-byte vertices
      as the draw count of line 244. A shift by `8 - LOG_N` needs
      `LOG_N <= 8`. The loops visit the triples in the order of
      `TripleLoop`; each visit pushes the triple's block. */
  method TripleAttribute(logN: nat) returns (triples: seq<nat>)
    requires logN <= 8
    ensures forall x :: x in triples ==> x < 256
    ensures var m := Side(logN) * Side(logN);
            |triples| / 6 == m * (m - 1) * (m - 2) / 2
    ensures triples == TripleData(logN, TripleList(Side(logN) * Side(logN)))
  {
    var n := Side(logN);
    var ts := TripleLoop(n * n);
    triples := TripleData(logN, ts);
    TripleBytes(logN, n * n);
  }

  /** The three loops `for (i = 2; i < m; ++i) for (j = 1; j < i; ++j)
      for (k = 0; k < j; ++k)` of lines 186-203: they visit the triples of
      `TripleList(m)` in its order. */
  method TripleLoop(m: nat) returns (ts: seq<Triple>)
    ensures ts == TripleList(m)
  {
    ts := [];
    var i := 2;
    if m < 2 {
      i := m;
    }
    assert TripleList(1) == TripleList(0) + Plane(0, 0);
    assert TripleList(2) == TripleList(1) + Plane(1, 1);
    while i < m
      invariant i <= m && (i >= 2 || i == m)
      invariant ts == TripleList(i)
    {
      var j := 1;
      assert Plane(i, 1) == Plane(i, 0) + Row3(i, 0, 0);
      while j < i
        invariant 1 <= j <= i
        invariant ts == TripleList(i) + Plane(i, j)
      {
        var k := 0;
        while k < j
          invariant 0 <= k <= j
          invariant ts == TripleList(i) + Plane(i, j) + Row3(i, j, k)
        {
          Row3Step(TripleList(i) + Plane(i, j), i, j, k);
          ts := ts + [(i, j, k)];
          k := k + 1;
        }
        PlaneStep(TripleList(i), i, j);
        j := j + 1;
      }
      i := i + 1;
    }
  }

  /** Visiting `(i, j, k)` extends the row of `(i, j)` by one triple. */
  lemma Row3Step(pre: seq<Triple>, i: nat, j: nat, k: nat)
    ensures pre + Row3(i, j, k) + [(i, j, k)] == pre + Row3(i, j, k + 1)
  {
    assert Row3(i, j, k + 1) == Row3(i, j, k) + [(i, j, k)];
  }

  /** A finished row of `(i, j)` extends the plane of `i` to `j + 1`. */
  lemma PlaneStep(pre: seq<Triple>, i: nat, j: nat)
    ensures pre + Plane(i, j) + Row3(i, j, j) == pre + Plane(i, j + 1)
  {
  }

  /** The data of the `N * N` particles' triples is bytes, and its six-byte
      vertices match the draw count. */
  lemma TripleBytes(logN: nat, m: nat)
    requires logN <= 8 && m == Side(logN) * Side(logN)
    ensures forall x :: x in TripleData(logN, TripleList(m)) ==> x < 256
    ensures |TripleData(logN, TripleList(m))| / 6 == m * (m - 1) * (m - 2) / 2
  {
    TripleCount(logN, m);
    TripleListSound(m);
    TripleDataFits(logN, TripleList(m));
  }
}
