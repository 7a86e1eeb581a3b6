/** Vertex welding and fan triangulation of data/stl2json.js: facet corners
    whose coordinates agree after `Math.floor(x * 10000)` share one vertex,
    and each facet is cut into a fan that skips triangles with a repeated
    vertex. Reading the STL file and printing the JSON are not modelled. */
module StlWeld {
  import opened Mesh

  /** The grid key `v.map((x) => Math.floor(x * 10000)).join(':')`; the joined
      string is represented by the integer triple it spells. */
  type Key = (int, int, int)

  function KeyOf(v: Vec3): Key {
    ((v.x * 10000.0).Floor, (v.y * 10000.0).Floor, (v.z * 10000.0).Floor)
  }

  /** The key names the grid cell `[k / 10000, (k + 1) / 10000)` holding
      each coordinate, so points that weld together differ by less than
      `0.0001` on every axis. */
  lemma WeldTolerance(a: Vec3, b: Vec3)
    requires KeyOf(a) == KeyOf(b)
    ensures -0.0001 < a.x - b.x < 0.0001
    ensures -0.0001 < a.y - b.y < 0.0001
    ensures -0.0001 < a.z - b.z < 0.0001
  {
    FloorCell(a.x * 10000.0);
    FloorCell(b.x * 10000.0);
    FloorCell(a.y * 10000.0);
    FloorCell(b.y * 10000.0);
    FloorCell(a.z * 10000.0);
    FloorCell(b.z * 10000.0);
  }

  lemma FloorCell(r: real)
    ensures r.Floor as real <= r < r.Floor as real + 1.0
  {
  }

  /** The welding state: the vertex list `verts` and the `grid` from keys to
      vertex indices. */
  datatype Weld = Weld(verts: seq<Vec3>, grid: map<Key, nat>)

  /** `grid` is a bijection between the keys of `verts` and their indices. */
  ghost predicate Valid(w: Weld) {
    && (forall k :: k in w.grid ==> w.grid[k] < |w.verts| && KeyOf(w.verts[w.grid[k]]) == k)
    && (forall i :: 0 <= i < |w.verts| ==> KeyOf(w.verts[i]) in w.grid && w.grid[KeyOf(w.verts[i])] == i)
  }

  /** `w'` only appends vertices and grid entries to `w`. */
  ghost predicate Extends(w: Weld, w': Weld) {
    && |w.verts| <= |w'.verts|
    && w'.verts[..|w.verts|] == w.verts
    && (forall k :: k in w.grid ==> k in w'.grid && w'.grid[k] == w.grid[k])
  }

  /** data/stl2json.js `pushVertex`: the index of the vertex welded with `v`,
      appending `v` when its key is new. */
  function PushVertex(w: Weld, v: Vec3): (r: (Weld, nat))
    ensures Extends(w, r.0)
    ensures KeyOf(v) in r.0.grid && r.0.grid[KeyOf(v)] == r.1
    ensures KeyOf(v) in w.grid ==> r.0 == w
    ensures KeyOf(v) !in w.grid ==> r.1 == |w.verts| && r.0.verts == w.verts + [v]
    ensures r.0.grid.Keys == w.grid.Keys + {KeyOf(v)}
    ensures Valid(w) ==> Valid(r.0) && r.1 < |r.0.verts| && KeyOf(r.0.verts[r.1]) == KeyOf(v)
  {
    var id := KeyOf(v);
    if id in w.grid then (w, w.grid[id])
    else
      var idx := |w.verts|;
      (Weld(w.verts + [v], w.grid[id := idx]), idx)
  }

  /** Pushing a vertex that welds with one already pushed returns the same
      index and changes nothing. */
  lemma PushVertexIdempotent(w: Weld, v: Vec3, v': Vec3)
    requires KeyOf(v) == KeyOf(v')
    ensures PushVertex(PushVertex(w, v).0, v') == (PushVertex(w, v).0, PushVertex(w, v).1)
  {
  }

  /** The keys of the vertices in `s`. */
  function KeySet(s: seq<Vec3>): set<Key> {
    set i | 0 <= i < |s| :: KeyOf(s[i])
  }

  lemma KeySetAppend(s: seq<Vec3>, x: Vec3)
    ensures KeySet(s + [x]) == KeySet(s) + {KeyOf(x)}
  {
    assert forall i :: 0 <= i < |s| ==> (s + [x])[i] == s[i];
    assert (s + [x])[|s|] == x;
  }

  /** The vertex list that pushing the vertices of `s` one by one builds:
      each vertex whose key has not been seen before, in order. */
  function Dedup(s: seq<Vec3>): seq<Vec3> {
    if |s| == 0 then []
    else
      var d := Dedup(s[..|s| - 1]);
      if KeyOf(s[|s| - 1]) in KeySet(d) then d else d + [s[|s| - 1]]
  }

  /** `s[j]` is the first vertex of `s` with its key. */
  predicate FirstWithKey(s: seq<Vec3>, j: int) {
    0 <= j < |s| && forall j' :: 0 <= j' < j ==> KeyOf(s[j']) != KeyOf(s[j])
  }

  /** Deduplicating keeps every key. */
  lemma {:induction false} DedupKeys(s: seq<Vec3>)
    ensures KeySet(Dedup(s)) == KeySet(s)
  {
    if |s| > 0 {
      var p, x := s[..|s| - 1], s[|s| - 1];
      DedupKeys(p);
      assert s == p + [x];
      KeySetAppend(p, x);
      KeySetAppend(Dedup(p), x);
    }
  }

  /** `Dedup(s)` holds exactly the first vertex of `s` with each key, each
      once. */
  lemma {:induction false} DedupFirst(s: seq<Vec3>)
    ensures forall i :: 0 <= i < |Dedup(s)| ==> exists j :: FirstWithKey(s, j) && Dedup(s)[i] == s[j]
    ensures forall j :: FirstWithKey(s, j) ==> s[j] in Dedup(s)
    ensures forall i, i' :: 0 <= i < i' < |Dedup(s)| ==> KeyOf(Dedup(s)[i]) != KeyOf(Dedup(s)[i'])
  {
    if |s| > 0 {
      var p, x := s[..|s| - 1], s[|s| - 1];
      var d := Dedup(p);
      DedupFirst(p);
      DedupKeys(p);
      assert forall j :: 0 <= j < |p| ==> s[j] == p[j];
      assert forall j :: 0 <= j < |p| && FirstWithKey(p, j) ==> FirstWithKey(s, j);
      forall j | FirstWithKey(s, j)
        ensures s[j] in Dedup(s)
      {
        if j < |p| {
          assert FirstWithKey(p, j);
        } else if KeyOf(x) in KeySet(d) {
          assert false;
        }
      }
      forall i | 0 <= i < |Dedup(s)|
        ensures exists j :: FirstWithKey(s, j) && Dedup(s)[i] == s[j]
      {
        if i < |d| {
          var j :| FirstWithKey(p, j) && d[i] == p[j];
          assert FirstWithKey(s, j) && Dedup(s)[i] == s[j];
        } else {
          assert KeyOf(x) !in KeySet(d) && Dedup(s)[i] == x;
          assert FirstWithKey(s, |p|) by {
            forall j' | 0 <= j' < |p|
              ensures KeyOf(s[j']) != KeyOf(x)
            {
              assert KeyOf(p[j']) in KeySet(p);
            }
          }
        }
      }
      if KeyOf(x) !in KeySet(d) {
        assert Dedup(s) == d + [x];
        assert FirstWithKey(s, |p|) by {
          forall j' | 0 <= j' < |p|
            ensures KeyOf(s[j']) != KeyOf(x)
          {
            assert KeyOf(p[j']) in KeySet(p);
          }
        }
        forall i, i' | 0 <= i < i' < |Dedup(s)|
          ensures KeyOf(Dedup(s)[i]) != KeyOf(Dedup(s)[i'])
        {
          if i' == |d| {
            assert KeyOf(d[i]) in KeySet(d);
          }
        }
      }
    } else {
      assert Dedup(s) == [];
    }
  }

  lemma DedupSnoc(s: seq<Vec3>, x: Vec3)
    ensures Dedup(s + [x]) == if KeyOf(x) in KeySet(Dedup(s)) then Dedup(s) else Dedup(s) + [x]
  {
    assert (s + [x])[..|s|] == s;
  }

  /** Pushing one more vertex extends the deduplicated list by it. */
  lemma PushDedup(w: Weld, pushed: seq<Vec3>, v: Vec3)
    requires Valid(w) && w.verts == Dedup(pushed)
    ensures Valid(PushVertex(w, v).0)
    ensures PushVertex(w, v).0.verts == Dedup(pushed + [v])
  {
    DedupSnoc(pushed, v);
    assert KeyOf(v) in w.grid ==> KeyOf(w.verts[w.grid[KeyOf(v)]]) in KeySet(w.verts);
  }

  /** The keys of a fan triangle's corners. */
  type KeyTri = (Key, Key, Key)

  predicate Distinct(t: KeyTri) {
    t.0 != t.1 && t.1 != t.2 && t.2 != t.0
  }

  /** The key triple of fan triangle `(f[0], f[i-1], f[i])` if its keys are
      pairwise distinct, else nothing. */
  function FanHead(f: seq<Vec3>, i: nat): seq<KeyTri>
    requires 1 <= i < |f|
  {
    var t := (KeyOf(f[0]), KeyOf(f[i - 1]), KeyOf(f[i]));
    if Distinct(t) then [t] else []
  }

  /** The key triples of the fan triangles `(f[0], f[i-1], f[i])` for `i` from
      `i` on, keeping those whose three keys are pairwise distinct. */
  function DistinctFan(f: seq<Vec3>, i: nat): seq<KeyTri>
    requires i >= 1
    decreases |f| - i
  {
    if i >= |f| then [] else FanHead(f, i) + DistinctFan(f, i + 1)
  }

  lemma {:induction false} DistinctFanLength(f: seq<Vec3>, i: nat)
    requires i >= 1
    ensures |DistinctFan(f, i)| <= if i >= |f| then 0 else |f| - i
    decreases |f| - i
  {
    if i < |f| {
      DistinctFanLength(f, i + 1);
    }
  }

  predicate CellInRange(c: Cell, n: nat) {
    c.i0 < n && c.i1 < n && c.i2 < n
  }

  predicate CellDistinct(c: Cell) {
    c.i0 != c.i1 && c.i1 != c.i2 && c.i2 != c.i0
  }

  ghost predicate AllInRange(cells: seq<Cell>, n: nat) {
    forall j :: 0 <= j < |cells| ==> CellInRange(cells[j], n)
  }

  /** The keys of the vertices a cell names. */
  function CellKeys(verts: seq<Vec3>, cells: seq<Cell>): (ks: seq<KeyTri>)
    requires AllInRange(cells, |verts|)
    ensures |ks| == |cells|
  {
    if |cells| == 0 then []
    else
      var c := cells[0];
      assert CellInRange(cells[0], |verts|);
      [(KeyOf(verts[c.i0]), KeyOf(verts[c.i1]), KeyOf(verts[c.i2]))] + CellKeys(verts, cells[1..])
  }

  lemma {:induction false} CellKeysExtend(verts: seq<Vec3>, verts': seq<Vec3>, cells: seq<Cell>)
    requires AllInRange(cells, |verts|)
    requires |verts| <= |verts'| && verts'[..|verts|] == verts
    ensures AllInRange(cells, |verts'|)
    ensures CellKeys(verts', cells) == CellKeys(verts, cells)
  {
    if |cells| > 0 {
      var c := cells[0];
      assert CellInRange(cells[0], |verts|);
      assert verts'[c.i0] == verts[c.i0] && verts'[c.i1] == verts[c.i1] && verts'[c.i2] == verts[c.i2];
      CellKeysExtend(verts, verts', cells[1..]);
    }
  }

  lemma {:induction false} CellKeysAppend(verts: seq<Vec3>, a: seq<Cell>, b: seq<Cell>)
    requires AllInRange(a, |verts|) && AllInRange(b, |verts|)
    ensures AllInRange(a + b, |verts|)
    ensures CellKeys(verts, a + b) == CellKeys(verts, a) + CellKeys(verts, b)
  {
    assert forall j :: 0 <= j < |a + b| ==> (a + b)[j] == if j < |a| then a[j] else b[j - |a|];
    if |a| > 0 {
      assert (a + b)[1..] == a[1..] + b;
      CellKeysAppend(verts, a[1..], b);
    } else {
      assert a + b == b;
    }
  }

  /** The welded cells every emitted cell obeys: its indices are in range
      and pairwise distinct. */
  ghost predicate GoodCells(verts: seq<Vec3>, cells: seq<Cell>) {
    && AllInRange(cells, |verts|)
    && forall j :: 0 <= j < |cells| ==> CellDistinct(cells[j])
  }

  /** One iteration of the loop of data/stl2json.js lines 27-33: push the
      corners `f[0]`, `f[i-1]`, `f[i]`, then emit their cell unless two
      indices coincide. */
  function FanStep(w: Weld, f: seq<Vec3>, i: nat): (r: (Weld, seq<Cell>))
    requires 2 <= i < |f|
    requires Valid(w)
    ensures Valid(r.0) && Extends(w, r.0)
    ensures GoodCells(r.0.verts, r.1)
    ensures CellKeys(r.0.verts, r.1) == FanHead(f, i)
    ensures KeyOf(f[0]) in r.0.grid && KeyOf(f[i - 1]) in r.0.grid && KeyOf(f[i]) in r.0.grid
  {
    var r0 := PushVertex(w, f[0]);
    var w0, v0 := r0.0, r0.1;
    var r1 := PushVertex(w0, f[i - 1]);
    var w1, v1 := r1.0, r1.1;
    var r2 := PushVertex(w1, f[i]);
    var w2, v2 := r2.0, r2.1;
    ExtendsTransitive(w, w0, w1);
    ExtendsTransitive(w, w1, w2);
    ExtendsTransitive(w0, w1, w2);
    var t := (KeyOf(f[0]), KeyOf(f[i - 1]), KeyOf(f[i]));
    assert w2.verts[v0] == w0.verts[v0] by {
      assert w2.verts[..|w0.verts|] == w0.verts;
    }
    assert w2.verts[v1] == w1.verts[v1] by {
      assert w2.verts[..|w1.verts|] == w1.verts;
    }
    assert KeyOf(w2.verts[v0]) == t.0 && KeyOf(w2.verts[v1]) == t.1 && KeyOf(w2.verts[v2]) == t.2;
    var here := if v0 == v1 || v1 == v2 || v2 == v0 then [] else [Cell(v0, v1, v2)];
    SameIndexIffSameKey(w2, v0, v1);
    SameIndexIffSameKey(w2, v1, v2);
    SameIndexIffSameKey(w2, v2, v0);
    (w2, here)
  }

  /** In a valid state two vertex indices coincide exactly when their keys do. */
  lemma SameIndexIffSameKey(w: Weld, a: nat, b: nat)
    requires Valid(w) && a < |w.verts| && b < |w.verts|
    ensures a == b <==> KeyOf(w.verts[a]) == KeyOf(w.verts[b])
  {
  }

  lemma ExtendsKeepsKey(w: Weld, w': Weld, k: Key)
    requires Extends(w, w') && k in w.grid
    ensures k in w'.grid
  {
  }

  lemma ExtendsTransitive(a: Weld, b: Weld, c: Weld)
    requires Extends(a, b) && Extends(b, c)
    ensures Extends(a, c)
  {
    assert c.verts[..|a.verts|] == c.verts[..|b.verts|][..|a.verts|];
  }

  /** The loop of data/stl2json.js lines 27-33 from fan index `i` on. */
  function FanFrom(w: Weld, f: seq<Vec3>, i: nat): (r: (Weld, seq<Cell>))
    requires i >= 2
    requires Valid(w)
    ensures Valid(r.0) && Extends(w, r.0)
    ensures GoodCells(r.0.verts, r.1)
    ensures CellKeys(r.0.verts, r.1) == DistinctFan(f, i)
    ensures i < |f| ==> KeyOf(f[0]) in r.0.grid && forall k :: i - 1 <= k < |f| ==> KeyOf(f[k]) in r.0.grid
    decreases |f| - i
  {
    if i >= |f| then (w, [])
    else
      var (w2, here) := FanStep(w, f, i);
      var (w3, rest) := FanFrom(w2, f, i + 1);
      FanFromJoin(w, f, i, w2, here, w3, rest);
      (w3, here + rest)
  }

  lemma FanFromJoin(w: Weld, f: seq<Vec3>, i: nat, w2: Weld, here: seq<Cell>, w3: Weld, rest: seq<Cell>)
    requires 2 <= i < |f|
    requires Extends(w, w2) && GoodCells(w2.verts, here)
    requires CellKeys(w2.verts, here) == FanHead(f, i)
    requires KeyOf(f[0]) in w2.grid && KeyOf(f[i - 1]) in w2.grid && KeyOf(f[i]) in w2.grid
    requires Valid(w3) && Extends(w2, w3)
    requires GoodCells(w3.verts, rest)
    requires CellKeys(w3.verts, rest) == DistinctFan(f, i + 1)
    requires i + 1 < |f| ==> forall k :: i <= k < |f| ==> KeyOf(f[k]) in w3.grid
    ensures Extends(w, w3)
    ensures GoodCells(w3.verts, here + rest)
    ensures CellKeys(w3.verts, here + rest) == DistinctFan(f, i)
    ensures KeyOf(f[0]) in w3.grid && forall k :: i - 1 <= k < |f| ==> KeyOf(f[k]) in w3.grid
  {
    ExtendsTransitive(w, w2, w3);
    CellKeysExtend(w2.verts, w3.verts, here);
    CellKeysAppend(w3.verts, here, rest);
    ExtendsKeepsKey(w2, w3, KeyOf(f[0]));
    ExtendsKeepsKey(w2, w3, KeyOf(f[i - 1]));
    ExtendsKeepsKey(w2, w3, KeyOf(f[i]));
    forall k | i - 1 <= k < |f|
      ensures KeyOf(f[k]) in w3.grid
    {
      if k > i {
        assert i + 1 < |f|;
      }
    }
  }

  /** The corners the fan loop pushes from fan index `i` on, in order:
      `f[0]`, `f[i-1]` and `f[i]` for each step. */
  function FanCorners(f: seq<Vec3>, i: nat): seq<Vec3>
    requires i >= 1
    decreases |f| - i
  {
    if i >= |f| then [] else [f[0], f[i - 1], f[i]] + FanCorners(f, i + 1)
  }

  /** Every corner the fan loop pushes is a corner of the facet, and a
      facet of fewer than three corners pushes none. */
  lemma {:induction false} FanCornersIn(f: seq<Vec3>, i: nat)
    requires i >= 1
    ensures |FanCorners(f, i)| == if i >= |f| then 0 else 3 * (|f| - i)
    ensures forall m :: 0 <= m < |FanCorners(f, i)| ==> exists k :: 0 <= k < |f| && FanCorners(f, i)[m] == f[k]
    decreases |f| - i
  {
    if i < |f| {
      FanCornersIn(f, i + 1);
      var head, rest := [f[0], f[i - 1], f[i]], FanCorners(f, i + 1);
      forall m | 0 <= m < |head + rest|
        ensures exists k :: 0 <= k < |f| && (head + rest)[m] == f[k]
      {
        if m == 0 {
          assert (head + rest)[m] == f[0];
        } else if m == 1 {
          assert (head + rest)[m] == f[i - 1];
        } else if m == 2 {
          assert (head + rest)[m] == f[i];
        } else {
          assert (head + rest)[m] == rest[m - 3];
        }
      }
    }
  }

  lemma FanStepPushes(w: Weld, f: seq<Vec3>, i: nat)
    requires 2 <= i < |f| && Valid(w)
    ensures FanStep(w, f, i).0 == PushVertex(PushVertex(PushVertex(w, f[0]).0, f[i - 1]).0, f[i]).0
  {
  }

  /** Three pushes append the first-seen of the three vertices. */
  lemma Push3Verts(w: Weld, pushed: seq<Vec3>, a: Vec3, b: Vec3, c: Vec3)
    requires Valid(w) && w.verts == Dedup(pushed)
    ensures PushVertex(PushVertex(PushVertex(w, a).0, b).0, c).0.verts == Dedup(pushed + [a, b, c])
  {
    var w0 := PushVertex(w, a).0;
    var w1 := PushVertex(w0, b).0;
    PushDedup(w, pushed, a);
    PushDedup(w0, pushed + [a], b);
    PushDedup(w1, pushed + [a] + [b], c);
    Snoc3(pushed, a, b, c);
  }

  lemma Snoc3<T>(s: seq<T>, a: T, b: T, c: T)
    ensures s + [a] + [b] + [c] == s + [a, b, c]
  {
  }

  /** One fan step appends the first-seen of its three corners to `verts`. */
  lemma FanStepVerts(w: Weld, f: seq<Vec3>, i: nat, pushed: seq<Vec3>)
    requires 2 <= i < |f| && Valid(w) && w.verts == Dedup(pushed)
    ensures FanStep(w, f, i).0.verts == Dedup(pushed + [f[0], f[i - 1], f[i]])
  {
    FanStepPushes(w, f, i);
    Push3Verts(w, pushed, f[0], f[i - 1], f[i]);
  }

  lemma FanFromUnfold(w: Weld, f: seq<Vec3>, i: nat)
    requires 2 <= i < |f| && Valid(w)
    ensures Valid(FanStep(w, f, i).0)
    ensures FanFrom(w, f, i).0 == FanFrom(FanStep(w, f, i).0, f, i + 1).0
  {
  }

  /** The fan loop over one facet appends the first-seen of the corners it
      pushes, in push order. */
  lemma {:induction false} FanFromVerts(w: Weld, f: seq<Vec3>, i: nat, pushed: seq<Vec3>)
    requires i >= 2 && Valid(w) && w.verts == Dedup(pushed)
    ensures FanFrom(w, f, i).0.verts == Dedup(pushed + FanCorners(f, i))
    decreases |f| - i
  {
    if i >= |f| {
      assert pushed + [] == pushed;
    } else {
      var w2 := FanStep(w, f, i).0;
      var mid := pushed + [f[0], f[i - 1], f[i]];
      FanFromUnfold(w, f, i);
      FanStepVerts(w, f, i, pushed);
      FanFromVerts(w2, f, i + 1, mid);
      FanCornersUnfold(f, i, pushed);
    }
  }

  lemma FanCornersUnfold(f: seq<Vec3>, i: nat, pushed: seq<Vec3>)
    requires 1 <= i < |f|
    ensures pushed + [f[0], f[i - 1], f[i]] + FanCorners(f, i + 1) == pushed + FanCorners(f, i)
  {
  }

  /** Every corner pushed while welding `facets`, facet after facet. */
  function PushOrder(facets: seq<seq<Vec3>>): seq<Vec3> {
    if |facets| == 0 then [] else PushOrder(facets[..|facets| - 1]) + FanCorners(facets[|facets| - 1], 2)
  }

  /** `v` is a corner of a facet with at least three corners. */
  ghost predicate IsCorner(facets: seq<seq<Vec3>>, v: Vec3) {
    exists n, k :: 0 <= n < |facets| && |facets[n]| >= 3 && 0 <= k < |facets[n]| && v == facets[n][k]
  }

  lemma {:induction false} PushOrderCorners(facets: seq<seq<Vec3>>)
    ensures forall m :: 0 <= m < |PushOrder(facets)| ==> IsCorner(facets, PushOrder(facets)[m])
  {
    if |facets| > 0 {
      var prefix, f := facets[..|facets| - 1], facets[|facets| - 1];
      PushOrderCorners(prefix);
      FanCornersIn(f, 2);
      var a, b := PushOrder(prefix), FanCorners(f, 2);
      forall m | 0 <= m < |a + b|
        ensures IsCorner(facets, (a + b)[m])
      {
        if m < |a| {
          assert (a + b)[m] == a[m];
          var n, k :| 0 <= n < |prefix| && |prefix[n]| >= 3 && 0 <= k < |prefix[n]| && a[m] == prefix[n][k];
          assert facets[n] == prefix[n];
        } else {
          assert (a + b)[m] == b[m - |a|];
          var k :| 0 <= k < |f| && b[m - |a|] == f[k];
          assert facets[|facets| - 1] == f;
        }
      }
    }
  }

  /** All fan key triples of a list of facets, facet after facet. */
  function AllDistinctFans(facets: seq<seq<Vec3>>): seq<KeyTri> {
    if |facets| == 0 then [] else AllDistinctFans(facets[..|facets| - 1]) + DistinctFan(facets[|facets| - 1], 2)
  }

  /** The number of fan triangles `facets` can yield: `n - 2` per facet of
      `n >= 3` corners. */
  function FanBound(facets: seq<seq<Vec3>>): nat {
    if |facets| == 0 then 0
    else FanBound(facets[..|facets| - 1]) + (if |facets[|facets| - 1]| >= 2 then |facets[|facets| - 1]| - 2 else 0)
  }

  /** What welding `facets` into `w` and `cells` guarantees: a valid grid,
      cells whose indices are in range and pairwise distinct, cell keys that
      are exactly the distinct-key fan triangles, at most `n - 2` cells per
      facet of `n` corners, and every corner of a facet of three or more
      corners, even of a skipped triangle, in the grid. */
  ghost predicate Welded(facets: seq<seq<Vec3>>, w: Weld, cells: seq<Cell>) {
    && Valid(w)
    && GoodCells(w.verts, cells)
    && CellKeys(w.verts, cells) == AllDistinctFans(facets)
    && |cells| <= FanBound(facets)
    && forall n, k :: 0 <= n < |facets| && 0 <= k < |facets[n]| && |facets[n]| >= 3 ==> KeyOf(facets[n][k]) in w.grid
  }

  /** Appending one facet's fan to a welded prefix keeps every property of
      `WeldFacets`. */
  lemma WeldFacetStep(facets: seq<seq<Vec3>>, w: Weld, cells: seq<Cell>, w': Weld, more: seq<Cell>)
    requires |facets| > 0
    requires Welded(facets[..|facets| - 1], w, cells)
    requires (w', more) == FanFrom(w, facets[|facets| - 1], 2)
    ensures Welded(facets, w', cells + more)
  {
    var prefix, f := facets[..|facets| - 1], facets[|facets| - 1];
    SplitLast(facets);
    assert Valid(w') && Extends(w, w') && GoodCells(w'.verts, more);
    assert CellKeys(w'.verts, more) == DistinctFan(f, 2);
    WeldCellsStep(w.verts, w'.verts, cells, more);
    assert |cells + more| <= FanBound(facets) by {
      DistinctFanLength(f, 2);
    }
    WeldCornersStep(facets, prefix, f, w, w');
  }

  /** The cells welded before keep their keys as vertices are appended, and
      the new facet's cells follow them. */
  lemma WeldCellsStep(verts: seq<Vec3>, verts': seq<Vec3>, cells: seq<Cell>, more: seq<Cell>)
    requires GoodCells(verts, cells) && GoodCells(verts', more)
    requires |verts| <= |verts'| && verts'[..|verts|] == verts
    ensures GoodCells(verts', cells + more)
    ensures CellKeys(verts', cells + more) == CellKeys(verts, cells) + CellKeys(verts', more)
  {
    CellKeysExtend(verts, verts', cells);
    CellKeysAppend(verts', cells, more);
    assert forall j :: 0 <= j < |cells + more| ==> (cells + more)[j] == if j < |cells| then cells[j] else more[j - |cells|];
  }

  lemma SplitLast<T>(s: seq<T>)
    requires |s| > 0
    ensures s == s[..|s| - 1] + [s[|s| - 1]]
  {
  }

  /** The corners of the facets welded before stay in the grid, and the new
      facet's corners join it. */
  lemma WeldCornersStep(facets: seq<seq<Vec3>>, prefix: seq<seq<Vec3>>, f: seq<Vec3>, w: Weld, w': Weld)
    requires facets == prefix + [f]
    requires forall n, k :: 0 <= n < |prefix| && 0 <= k < |prefix[n]| && |prefix[n]| >= 3 ==> KeyOf(prefix[n][k]) in w.grid
    requires Extends(w, w')
    requires |f| >= 3 ==> KeyOf(f[0]) in w'.grid && forall k :: 1 <= k < |f| ==> KeyOf(f[k]) in w'.grid
    ensures forall n, k :: 0 <= n < |facets| && 0 <= k < |facets[n]| && |facets[n]| >= 3 ==> KeyOf(facets[n][k]) in w'.grid
  {
    forall n, k | 0 <= n < |facets| && 0 <= k < |facets[n]| && |facets[n]| >= 3
      ensures KeyOf(facets[n][k]) in w'.grid
    {
      if n < |prefix| {
        assert facets[n] == prefix[n];
        ExtendsKeepsKey(w, w', KeyOf(prefix[n][k]));
      } else {
        assert facets[n] == f;
        if k > 0 {
          assert 1 <= k < |f|;
        }
      }
    }
  }

  /** data/stl2json.js lines 26-35: weld and triangulate every facet in order,
      starting from an empty grid. The cells name welded vertices whose keys
      are exactly the distinct-key fan triangles, their indices are in range
      and pairwise distinct, and every facet corner, even of a skipped
      triangle, is in the grid. The vertex list is the first corner pushed
      with each key, in push order. */
  function WeldFacets(facets: seq<seq<Vec3>>): (r: (Weld, seq<Cell>))
    ensures Welded(facets, r.0, r.1)
    ensures r.0.verts == Dedup(PushOrder(facets))
  {
    if |facets| == 0 then (Weld([], map[]), [])
    else
      var prefix := facets[..|facets| - 1];
      var f := facets[|facets| - 1];
      var done := WeldFacets(prefix);
      var next := FanFrom(done.0, f, 2);
      WeldFacetStep(facets, done.0, done.1, next.0, next.1);
      FanFromVerts(done.0, f, 2, PushOrder(prefix));
      (next.0, done.1 + next.1)
  }

  /** The vertex list welding `facets` builds: every vertex is a corner of
      a facet of three or more corners, namely the first corner pushed with
      its key; every key pushed is kept, and none twice. */
  lemma PushedVerts(facets: seq<seq<Vec3>>)
    ensures forall i :: 0 <= i < |Dedup(PushOrder(facets))| ==> IsCorner(facets, Dedup(PushOrder(facets))[i])
    ensures forall i :: 0 <= i < |Dedup(PushOrder(facets))| ==>
              exists j :: FirstWithKey(PushOrder(facets), j) && Dedup(PushOrder(facets))[i] == PushOrder(facets)[j]
    ensures forall j :: FirstWithKey(PushOrder(facets), j) ==> PushOrder(facets)[j] in Dedup(PushOrder(facets))
    ensures KeySet(Dedup(PushOrder(facets))) == KeySet(PushOrder(facets))
  {
    var s := PushOrder(facets);
    var v := Dedup(s);
    DedupFirst(s);
    DedupKeys(s);
    PushOrderCorners(facets);
    forall i | 0 <= i < |v|
      ensures IsCorner(facets, v[i])
    {
      var j :| FirstWithKey(s, j) && v[i] == s[j];
    }
  }

  /** The `positions` of the output are the vertices `PushedVerts`
      describes. */
  lemma WeldedVerts(facets: seq<seq<Vec3>>)
    ensures forall i :: 0 <= i < |WeldFacets(facets).0.verts| ==> IsCorner(facets, WeldFacets(facets).0.verts[i])
    ensures forall j :: FirstWithKey(PushOrder(facets), j) ==> PushOrder(facets)[j] in WeldFacets(facets).0.verts
  {
    var v := WeldFacets(facets).0.verts;
    assert v == Dedup(PushOrder(facets));
    PushedVerts(facets);
  }
}
