/** Geometry shared by the mip-mesh builder (mipmesh.js): points, triangles,
    index cells, axis-aligned bounds and the voxel degeneracy test. Numbers
    are exact reals; JavaScript's floating-point rounding is not modelled. */
module Mesh {
  import opened Opt

  /** A coordinate axis (`0` = x, `1` = y, `2` = z). */
  type Axis = i: int | 0 <= i < 3

  /** A corner of a triangle. */
  type Corner = i: int | 0 <= i < 3

  datatype Vec3 = Vec3(x: real, y: real, z: real) {
    function At(axis: Axis): real {
      if axis == 0 then x else if axis == 1 then y else z
    }
  }

  /** A de-indexed triangle: three explicit points. */
  datatype Tri = Tri(p0: Vec3, p1: Vec3, p2: Vec3) {
    function V(k: Corner): Vec3 {
      if k == 0 then p0 else if k == 1 then p1 else p2
    }
  }

  /** An index triple into a position list. */
  datatype Cell = Cell(i0: nat, i1: nat, i2: nat) {
    function Index(k: Corner): nat {
      if k == 0 then i0 else if k == 1 then i1 else i2
    }

    predicate InRange(n: nat) {
      i0 < n && i1 < n && i2 < n
    }
  }

  datatype Error = InvalidMesh(cell: nat) | OutOfFuel

  datatype Result<+T> = Ok(value: T) | Fail(error: Error)

  // ---------------------------------------------------------------------------
  // flattenCells
  // ---------------------------------------------------------------------------

  function Resolve(c: Cell, positions: seq<Vec3>): (t: Tri)
    requires c.InRange(|positions|)
    ensures forall k: Corner :: t.V(k) == positions[c.Index(k)]
  {
    Tri(positions[c.i0], positions[c.i1], positions[c.i2])
  }

  /** De-indexes a mesh (mipmesh.js `flattenCells`): triangle `i` holds the
      positions its cell names. An index past the position list is reported
      as `InvalidMesh` with the first offending cell. */
  function FlattenCells(cells: seq<Cell>, positions: seq<Vec3>): (r: Result<seq<Tri>>)
    ensures r.Ok? <==> forall i :: 0 <= i < |cells| ==> cells[i].InRange(|positions|)
    ensures r.Ok? ==> |r.value| == |cells|
    ensures r.Ok? ==> forall i, k: Corner :: 0 <= i < |cells| ==> r.value[i].V(k) == positions[cells[i].Index(k)]
    ensures r.Fail? ==> r.error.InvalidMesh? && r.error.cell < |cells|
    ensures r.Fail? ==> !cells[r.error.cell].InRange(|positions|)
    ensures r.Fail? ==> forall i :: 0 <= i < r.error.cell ==> cells[i].InRange(|positions|)
  {
    if |cells| == 0 then Ok([])
    else if !cells[0].InRange(|positions|) then Fail(InvalidMesh(0))
    else
      var rest := FlattenCells(cells[1..], positions);
      if rest.Fail? then
        assert forall i :: 1 <= i < |cells| ==> cells[i] == cells[1..][i - 1];
        Fail(InvalidMesh(rest.error.cell + 1))
      else
        assert forall i :: 1 <= i < |cells| ==> cells[i] == cells[1..][i - 1];
        Ok([Resolve(cells[0], positions)] + rest.value)
  }

  // ---------------------------------------------------------------------------
  // getBounds
  // ---------------------------------------------------------------------------

  /** Axis-aligned bounds. `Empty` is the source's starting value
      `[[Infinity, Infinity, Infinity], [-Infinity, -Infinity, -Infinity]]`:
      since coordinates are finite, the first point replaces all six
      sentinels at once, so the bounds are either all infinite or all finite. */
  datatype Bounds = Empty | Box(lo: Vec3, hi: Vec3)

  function RMin(a: real, b: real): real { if b < a then b else a }

  function RMax(a: real, b: real): real { if b > a then b else a }

  function VMin(a: Vec3, b: Vec3): (m: Vec3)
    ensures forall axis: Axis :: m.At(axis) == RMin(a.At(axis), b.At(axis))
  {
    Vec3(RMin(a.x, b.x), RMin(a.y, b.y), RMin(a.z, b.z))
  }

  function VMax(a: Vec3, b: Vec3): (m: Vec3)
    ensures forall axis: Axis :: m.At(axis) == RMax(a.At(axis), b.At(axis))
  {
    Vec3(RMax(a.x, b.x), RMax(a.y, b.y), RMax(a.z, b.z))
  }

  predicate ContainsPoint(b: Bounds, p: Vec3) {
    b.Box? && forall axis: Axis :: b.lo.At(axis) <= p.At(axis) <= b.hi.At(axis)
  }

  predicate ContainsTri(b: Bounds, t: Tri) {
    ContainsPoint(b, t.p0) && ContainsPoint(b, t.p1) && ContainsPoint(b, t.p2)
  }

  /** One `Math.min`/`Math.max` update per axis with point `p`. */
  function AddPoint(b: Bounds, p: Vec3): (r: Bounds)
    ensures r.Box? && ContainsPoint(r, p)
    ensures forall q :: ContainsPoint(b, q) ==> ContainsPoint(r, q)
    ensures forall axis: Axis :: r.lo.At(axis) == (if b.Empty? then p.At(axis) else RMin(b.lo.At(axis), p.At(axis)))
    ensures forall axis: Axis :: r.hi.At(axis) == (if b.Empty? then p.At(axis) else RMax(b.hi.At(axis), p.At(axis)))
  {
    match b
    case Empty => Box(p, p)
    case Box(lo, hi) => Box(VMin(lo, p), VMax(hi, p))
  }

  function AddTri(b: Bounds, t: Tri): Bounds {
    AddPoint(AddPoint(AddPoint(b, t.p0), t.p1), t.p2)
  }

  /** Some corner of some triangle in `tris[start..end)` has coordinate `v`
      on `axis`. */
  ghost predicate Attained(tris: seq<Tri>, start: int, end: int, axis: Axis, v: real)
    requires 0 <= start && end <= |tris|
  {
    exists j, k: Corner :: start <= j < end && tris[j].V(k).At(axis) == v
  }

  /** `b` is the tightest box around `tris[start..end)`: every bound is
      reached by some corner. */
  ghost predicate Tight(b: Bounds, tris: seq<Tri>, start: int, end: int)
    requires 0 <= start && end <= |tris|
  {
    b.Box? ==>
      forall axis: Axis :: Attained(tris, start, end, axis, b.lo.At(axis)) && Attained(tris, start, end, axis, b.hi.At(axis))
  }

  lemma AddTriContains(b: Bounds, tris: seq<Tri>, start: int, end: int)
    requires 0 <= start < end <= |tris|
    requires forall j :: start <= j < end - 1 ==> ContainsTri(b, tris[j])
    ensures forall j :: start <= j < end ==> ContainsTri(AddTri(b, tris[end - 1]), tris[j])
  {
  }

  lemma AddTriTight(b: Bounds, tris: seq<Tri>, start: int, end: int)
    requires 0 <= start < end <= |tris|
    requires Tight(b, tris, start, end - 1)
    requires b.Empty? <==> end - 1 <= start
    ensures Tight(AddTri(b, tris[end - 1]), tris, start, end)
  {
    var t := tris[end - 1];
    var r := AddTri(b, t);
    forall axis: Axis
      ensures Attained(tris, start, end, axis, r.lo.At(axis)) && Attained(tris, start, end, axis, r.hi.At(axis))
    {
      assert t.V(0) == t.p0 && t.V(1) == t.p1 && t.V(2) == t.p2;
      if b.Box? {
        var j0, k0: Corner :| start <= j0 < end - 1 && tris[j0].V(k0).At(axis) == b.lo.At(axis);
        var j1, k1: Corner :| start <= j1 < end - 1 && tris[j1].V(k1).At(axis) == b.hi.At(axis);
        assert tris[j0].V(k0).At(axis) == b.lo.At(axis);
        assert tris[j1].V(k1).At(axis) == b.hi.At(axis);
      }
    }
  }

  /** The bounds of `triangles[start..end)` (mipmesh.js `getBounds`). */
  function GetBounds(tris: seq<Tri>, start: nat, end: int): (r: Bounds)
    requires end <= |tris|
    ensures r.Empty? <==> end <= start
    ensures forall j :: start <= j < end ==> ContainsTri(r, tris[j])
    ensures Tight(r, tris, start, end)
    decreases end - start
  {
    if end <= start then Empty
    else
      var b := GetBounds(tris, start, end - 1);
      AddTriTight(b, tris, start, end);
      AddTriContains(b, tris, start, end);
      AddTri(b, tris[end - 1])
  }

  /** Two boxes that both contain and are both tight around the same
      non-empty range are the same box. */
  lemma BoundsUnique(b1: Bounds, b2: Bounds, tris: seq<Tri>, start: nat, end: int)
    requires start < end <= |tris|
    requires b1.Box? && b2.Box?
    requires forall j :: start <= j < end ==> ContainsTri(b1, tris[j]) && ContainsTri(b2, tris[j])
    requires Tight(b1, tris, start, end) && Tight(b2, tris, start, end)
    ensures b1 == b2
  {
    forall axis: Axis
      ensures b1.lo.At(axis) == b2.lo.At(axis) && b1.hi.At(axis) == b2.hi.At(axis)
    {
      var j1, k1: Corner :| start <= j1 < end && tris[j1].V(k1).At(axis) == b1.lo.At(axis);
      var j2, k2: Corner :| start <= j2 < end && tris[j2].V(k2).At(axis) == b2.lo.At(axis);
      var j3, k3: Corner :| start <= j3 < end && tris[j3].V(k3).At(axis) == b1.hi.At(axis);
      var j4, k4: Corner :| start <= j4 < end && tris[j4].V(k4).At(axis) == b2.hi.At(axis);
      ContainsCorner(b2, tris[j1], k1);
      ContainsCorner(b1, tris[j2], k2);
      ContainsCorner(b2, tris[j3], k3);
      ContainsCorner(b1, tris[j4], k4);
    }
    SameVec(b1.lo, b2.lo);
    SameVec(b1.hi, b2.hi);
  }

  lemma ContainsCorner(b: Bounds, t: Tri, k: Corner)
    requires ContainsTri(b, t)
    ensures ContainsPoint(b, t.V(k))
  {
  }

  lemma SameVec(a: Vec3, b: Vec3)
    requires forall axis: Axis :: a.At(axis) == b.At(axis)
    ensures a == b
  {
    assert a.At(0) == b.At(0) && a.At(1) == b.At(1) && a.At(2) == b.At(2);
  }

  /** A box tight around a range stays tight when the range is rearranged. */
  lemma TightPermuted(b: Bounds, t1: seq<Tri>, t2: seq<Tri>, start: nat, end: int)
    requires start <= end <= |t1| && end <= |t2|
    requires multiset(t1[start..end]) == multiset(t2[start..end])
    requires Tight(b, t1, start, end)
    ensures Tight(b, t2, start, end)
  {
    if b.Box? {
      forall axis: Axis, v: real | Attained(t1, start, end, axis, v)
        ensures Attained(t2, start, end, axis, v)
      {
        var j, k: Corner :| start <= j < end && t1[j].V(k).At(axis) == v;
        assert t1[j] == t1[start..end][j - start];
        assert t1[j] in multiset(t2[start..end]);
        var j' :| start <= j' < end && t2[j'] == t1[j] by {
          assert t1[j] in t2[start..end];
        }
        assert t2[j'].V(k).At(axis) == v;
      }
    }
  }

  /** The bounds of a range depend only on which triangles it holds, not on
      their order: rearranging the range, as `partition` does, keeps them. */
  lemma GetBoundsPermuted(t1: seq<Tri>, t2: seq<Tri>, start: nat, end: int)
    requires start <= end <= |t1| && end <= |t2|
    requires multiset(t1[start..end]) == multiset(t2[start..end])
    ensures GetBounds(t1, start, end) == GetBounds(t2, start, end)
  {
    var b1, b2 := GetBounds(t1, start, end), GetBounds(t2, start, end);
    if start < end {
      TightPermuted(b1, t1, t2, start, end);
      forall j | start <= j < end
        ensures ContainsTri(b1, t2[j])
      {
        assert t2[j] == t2[start..end][j - start];
        assert t2[j] in multiset(t1[start..end]);
        var j' :| start <= j' < end && t1[j'] == t2[j] by {
          assert t2[j] in t1[start..end];
        }
      }
      BoundsUnique(b1, b2, t2, start, end);
    }
  }

  /** The source's calls `getBounds(triangles)` (mipmesh.js:104 and :149)
      pass no range: `start` and `end` are `undefined`, `undefined <
      undefined` is false, and the loop never runs. */
  function GetBoundsCall(tris: seq<Tri>, range: Option<(nat, nat)>): Bounds
    requires range.Some? ==> range.value.1 <= |tris|
  {
    match range
    case None => Empty
    case Some((start, end)) => GetBounds(tris, start, end)
  }

  /** As written, the unranged call yields empty bounds, which contain no
      triangle at all; the ranged call over the whole array contains every
      triangle. */
  lemma UnrangedBoundsContainNothing(tris: seq<Tri>)
    requires |tris| > 0
    ensures GetBoundsCall(tris, None) == Empty
    ensures forall j :: 0 <= j < |tris| ==> !ContainsTri(GetBoundsCall(tris, None), tris[j])
    ensures forall j :: 0 <= j < |tris| ==> ContainsTri(GetBoundsCall(tris, Some((0, |tris|))), tris[j])
    ensures GetBoundsCall(tris, None) != GetBoundsCall(tris, Some((0, |tris|)))
  {
  }

  // ---------------------------------------------------------------------------
  // isDegenerate
  // ---------------------------------------------------------------------------

  /** Which program is modelled: the code as written, or with its evident
      defects corrected. */
  datatype Build = AsWritten | Intended

  /** `[Math.floor(p[0] / scale), Math.floor(p[1] / scale), Math.floor(p[2] / scale)]`. */
  function Voxel(p: Vec3, scale: real): (int, int, int)
    requires scale != 0.0
  {
    ((p.x / scale).Floor, (p.y / scale).Floor, (p.z / scale).Floor)
  }

  predicate SameVoxel(p: Vec3, q: Vec3, scale: real)
    requires scale != 0.0
  {
    Voxel(p, scale) == Voxel(q, scale)
  }

  /** The corner that the inner loop of `isDegenerate` compares corner `i`
      with on its `j`-th iteration: as written it reads `triangle[i]`
      (mipmesh.js:54), the evident intent is `triangle[j]`. */
  function Partner(build: Build, i: Corner, j: Corner): Corner {
    if build == AsWritten then i else j
  }

  /** mipmesh.js `isDegenerate`: for `i` in 1..2 and `j < i`, does corner `i`
      fall in the same voxel as its partner? */
  predicate IsDegenerate(build: Build, t: Tri, scale: real)
    requires scale != 0.0
  {
    exists i: Corner, j: Corner | j < i :: SameVoxel(t.V(i), t.V(Partner(build, i, j)), scale)
  }

  /** As written, every triangle is degenerate at every scale: the first
      comparison is of corner 1 with itself. */
  lemma AsWrittenAlwaysDegenerate(t: Tri, scale: real)
    requires scale != 0.0
    ensures IsDegenerate(AsWritten, t, scale)
  {
    assert SameVoxel(t.V(1), t.V(Partner(AsWritten, 1, 0)), scale);
  }

  /** Corrected, a triangle is degenerate exactly when two distinct corners
      share a voxel. */
  lemma IntendedDegenerateIff(t: Tri, scale: real)
    requires scale != 0.0
    ensures IsDegenerate(Intended, t, scale) <==>
      exists i: Corner, j: Corner | i != j :: SameVoxel(t.V(i), t.V(j), scale)
    ensures IsDegenerate(Intended, t, scale) <==>
      SameVoxel(t.p0, t.p1, scale) || SameVoxel(t.p0, t.p2, scale) || SameVoxel(t.p1, t.p2, scale)
  {
    assert t.V(0) == t.p0 && t.V(1) == t.p1 && t.V(2) == t.p2;
    assert Partner(Intended, 1, 0) == 0 && Partner(Intended, 2, 0) == 0 && Partner(Intended, 2, 1) == 1;
    if SameVoxel(t.p0, t.p1, scale) {
      assert SameVoxel(t.V(1), t.V(Partner(Intended, 1, 0)), scale);
    }
    if SameVoxel(t.p0, t.p2, scale) {
      assert SameVoxel(t.V(2), t.V(Partner(Intended, 2, 0)), scale);
    }
    if SameVoxel(t.p1, t.p2, scale) {
      assert SameVoxel(t.V(2), t.V(Partner(Intended, 2, 1)), scale);
    }
  }

  /** `t` is degenerate whatever the scale. */
  ghost predicate DegenerateAtAllScales(build: Build, t: Tri) {
    forall scale: real {:trigger IsDegenerate(build, t, scale)} :: scale != 0.0 ==> IsDegenerate(build, t, scale)
  }

  /** Even corrected, a triangle with two coincident corners shares a voxel
      at every scale, so no pass of the LOD split can ever fix it. */
  lemma CoincidentAlwaysDegenerate(t: Tri)
    requires t.p0 == t.p1 || t.p0 == t.p2 || t.p1 == t.p2
    ensures DegenerateAtAllScales(Intended, t)
  {
    forall scale: real | scale != 0.0
      ensures IsDegenerate(Intended, t, scale)
    {
      IntendedDegenerateIff(t, scale);
    }
  }

  /** The scale of LOD pass `i`: the initial scale halved `i` times
      (`scale *= 0.5` at mipmesh.js:76 and :165). */
  function LevelScale(initScale: real, i: nat): (s: real)
    ensures initScale != 0.0 ==> s != 0.0
    ensures initScale > 0.0 ==> s > 0.0
  {
    if i == 0 then initScale else 0.5 * LevelScale(initScale, i - 1)
  }

  // ---------------------------------------------------------------------------
  // unrollTriangles
  // ---------------------------------------------------------------------------

  /** Position of coordinate `axis` of corner `k` of triangle `i` in a
      vertex buffer. */
  function Slot(i: int, k: Corner, axis: Axis): int {
    9 * i + 3 * k + axis
  }

  /** The nine coordinates of one triangle, in push order. */
  function TriData(t: Tri): (d: seq<real>)
    ensures |d| == 9
    ensures forall k: Corner, axis: Axis :: d[Slot(0, k, axis)] == t.V(k).At(axis)
  {
    [t.p0.x, t.p0.y, t.p0.z, t.p1.x, t.p1.y, t.p1.z, t.p2.x, t.p2.y, t.p2.z]
  }

  /** The vertex buffer `unrollTriangles` evidently means to return (`data`):
      three coordinates per corner, three corners per triangle. */
  function Unroll(tris: seq<Tri>): (d: seq<real>)
    ensures |d| == 9 * |tris|
    ensures forall i, k: Corner, axis: Axis :: 0 <= i < |tris| ==> d[Slot(i, k, axis)] == tris[i].V(k).At(axis)
  {
    if |tris| == 0 then []
    else
      var prev := Unroll(tris[..|tris| - 1]);
      var last := TriData(tris[|tris| - 1]);
      var d := prev + last;
      assert forall i, k: Corner, axis: Axis :: 0 <= i < |tris| - 1 ==> d[Slot(i, k, axis)] == prev[Slot(i, k, axis)];
      assert forall k: Corner, axis: Axis :: d[Slot(|tris| - 1, k, axis)] == last[Slot(0, k, axis)];
      d
  }

  /** Reads one triangle back from nine consecutive coordinates. */
  function TriAt(d: seq<real>, i: nat): Tri
    requires 9 * i + 9 <= |d|
  {
    var b := 9 * i;
    Tri(Vec3(d[b], d[b + 1], d[b + 2]), Vec3(d[b + 3], d[b + 4], d[b + 5]), Vec3(d[b + 6], d[b + 7], d[b + 8]))
  }

  /** Regroups a vertex buffer into triangles: the inverse of `Unroll`. */
  function Regroup(d: seq<real>): (tris: seq<Tri>)
    requires |d| % 9 == 0
    ensures |tris| == |d| / 9
  {
    seq(|d| / 9, i requires 0 <= i < |d| / 9 => TriAt(d, i))
  }

  lemma {:induction false} RegroupUnroll(tris: seq<Tri>)
    ensures |Unroll(tris)| % 9 == 0
    ensures Regroup(Unroll(tris)) == tris
  {
    var d := Unroll(tris);
    assert |d| / 9 == |tris|;
    forall i | 0 <= i < |tris|
      ensures TriAt(d, i) == tris[i]
    {
      var t := tris[i];
      assert d[Slot(i, 0, 0)] == t.V(0).At(0);
      assert d[Slot(i, 0, 1)] == t.V(0).At(1);
      assert d[Slot(i, 0, 2)] == t.V(0).At(2);
      assert d[Slot(i, 1, 0)] == t.V(1).At(0);
      assert d[Slot(i, 1, 1)] == t.V(1).At(1);
      assert d[Slot(i, 1, 2)] == t.V(1).At(2);
      assert d[Slot(i, 2, 0)] == t.V(2).At(0);
      assert d[Slot(i, 2, 1)] == t.V(2).At(1);
      assert d[Slot(i, 2, 2)] == t.V(2).At(2);
    }
  }

  /** A Float32Array element: JavaScript converts a non-numeric value to NaN. */
  datatype F32 = NaN | Num(v: real)

  /** What `unrollTriangles` returns as written (mipmesh.js:143):
      `new Float32Array(triangles)` converts each triangle (an array of three
      arrays) to a number, which is NaN; the coordinates pushed into `data`
      are discarded. */
  function UnrollAsWritten(tris: seq<Tri>): seq<F32> {
    seq(|tris|, i => NaN)
  }

  /** As written, the buffer has one NaN per triangle instead of nine
      coordinates, so no coordinate survives. */
  lemma UnrollAsWrittenLosesCoordinates(tris: seq<Tri>)
    requires |tris| > 0
    ensures |UnrollAsWritten(tris)| == |tris| < |Unroll(tris)|
    ensures forall i :: 0 <= i < |tris| ==> !UnrollAsWritten(tris)[i].Num?
  {
  }
}
