/** The LOD and visibility builder of mipmesh.js: `splitLOD` carves the
    triangle array into contiguous levels, `splitVis` builds a bounding-volume
    tree per level by in-place partitioning, `generateMipMesh` wires them up.
    Loops that may run forever are given a `fuel` bound. */
module MipMesh {
  import opened Opt
  import opened Mesh
  import opened Partitions

  // ---------------------------------------------------------------------------
  // splitLOD
  // ---------------------------------------------------------------------------

  /** One pass of `splitLOD` (mipmesh.js:71-75): the triangles of the
      remaining suffix that are not degenerate at `scale` move to its front
      and are fixed into the level `[offset, next)`. */
  method LodPass(build: Build, tris: seq<Tri>, offset: nat, scale: real) returns (tris': seq<Tri>, next: nat)
    requires offset <= |tris|
    requires scale != 0.0
    ensures PermutesRange(tris, tris', offset, |tris|)
    ensures offset <= next <= |tris|
    ensures forall j :: offset <= j < next ==> !IsDegenerate(build, tris'[j], scale)
    ensures forall j :: next <= j < |tris| ==> IsDegenerate(build, tris'[j], scale)
    ensures (forall j :: offset <= j < |tris| ==> IsDegenerate(build, tris[j], scale)) ==> next == offset
    ensures build == AsWritten ==> next == offset
  {
    tris', next := Partition(tris, offset, |tris|, t => !IsDegenerate(build, t, scale));
    if build == AsWritten {
      forall j | offset <= j < |tris|
        ensures IsDegenerate(build, tris[j], scale)
      {
        AsWrittenAlwaysDegenerate(tris[j], scale);
      }
    }
  }

  datatype LodSplit = LodSplit(tris: seq<Tri>, offsets: seq<nat>) | LodOutOfFuel

  /** `offsets` starts at 0, ends at `n` and never decreases. */
  ghost predicate Tiling(offsets: seq<nat>, n: nat) {
    && |offsets| >= 2
    && offsets[0] == 0
    && offsets[|offsets| - 1] == n
    && forall p :: 0 <= p < |offsets| - 1 ==> offsets[p] <= offsets[p + 1]
  }

  /** Level `p` of a tiling holds no triangle degenerate at pass `p`'s scale. */
  ghost predicate LevelsResolved(build: Build, tris: seq<Tri>, offsets: seq<nat>, count: nat, initScale: real)
    requires initScale != 0.0
    requires count < |offsets|
    requires forall p :: 0 <= p < |offsets| ==> offsets[p] <= |tris|
  {
    forall p, j :: 0 <= p < count && offsets[p] <= j < offsets[p + 1] ==>
      !IsDegenerate(build, tris[j], LevelScale(initScale, p))
  }

  /** Pass `p` fixed every triangle of its suffix that is not degenerate at
      its scale: for each of the first `passes` passes, everything from the
      end of its level on is degenerate at that pass's scale. */
  ghost predicate PassesComplete(build: Build, tris: seq<Tri>, offsets: seq<nat>, passes: nat, initScale: real)
    requires initScale != 0.0
    requires passes < |offsets|
  {
    forall p, j :: 0 <= p < passes && offsets[p + 1] <= j < |tris| ==>
      IsDegenerate(build, tris[j], LevelScale(initScale, p))
  }

  /** What `splitLOD` produces: a tiling of a permutation of the input whose
      pass levels hold only triangles that are not degenerate at their scale,
      where each pass took every such triangle of its suffix (so all that
      follows a level was degenerate at its pass), whose last level holds at
      most `minCount` triangles, and where every pass started with more than
      `minCount` triangles left. */
  ghost predicate LodLayout(build: Build, input: seq<Tri>, tris: seq<Tri>, offsets: seq<nat>, initScale: real, minCount: int)
    requires initScale != 0.0
  {
    && |tris| == |input|
    && multiset(tris) == multiset(input)
    && Tiling(offsets, |tris|)
    && (forall p :: 0 <= p < |offsets| ==> offsets[p] <= |tris|)
    && LevelsResolved(build, tris, offsets, |offsets| - 2, initScale)
    && |tris| - offsets[|offsets| - 2] <= minCount
    && (forall p :: 0 <= p < |offsets| - 2 ==> |tris| - offsets[p] > minCount)
    && PassesComplete(build, tris, offsets, |offsets| - 2, initScale)
  }

  /** The state of `splitLOD` after some passes: `cur` is a permutation of
      the input, `offsets` the level boundaries fixed so far, each fixed level
      free of triangles degenerate at its pass's scale, each pass begun with
      more than `minCount` triangles left, and everything after each fixed
      level degenerate at that level's scale. */
  ghost predicate LodProgress(build: Build, input: seq<Tri>, cur: seq<Tri>, offsets: seq<nat>, initScale: real, minCount: int)
    requires initScale != 0.0
  {
    && |cur| == |input|
    && multiset(cur) == multiset(input)
    && |offsets| >= 1
    && offsets[0] == 0
    && (forall p :: 0 <= p < |offsets| ==> offsets[p] <= offsets[|offsets| - 1] <= |cur|)
    && (forall p :: 0 <= p < |offsets| - 1 ==> offsets[p] <= offsets[p + 1])
    && (forall p :: 0 <= p < |offsets| - 1 ==> |cur| - offsets[p] > minCount)
    && LevelsResolved(build, cur, offsets, |offsets| - 1, initScale)
    && PassesComplete(build, cur, offsets, |offsets| - 1, initScale)
  }

  lemma LodProgressStep(build: Build, input: seq<Tri>, cur: seq<Tri>, cur': seq<Tri>, offsets: seq<nat>, next: nat, initScale: real, minCount: int)
    requires initScale != 0.0
    requires LodProgress(build, input, cur, offsets, initScale, minCount)
    requires |cur| - offsets[|offsets| - 1] > minCount
    requires PermutesRange(cur, cur', offsets[|offsets| - 1], |cur|)
    requires offsets[|offsets| - 1] <= next <= |cur|
    requires forall j :: offsets[|offsets| - 1] <= j < next ==> !IsDegenerate(build, cur'[j], LevelScale(initScale, |offsets| - 1))
    requires forall j :: next <= j < |cur| ==> IsDegenerate(build, cur'[j], LevelScale(initScale, |offsets| - 1))
    ensures LodProgress(build, input, cur', offsets + [next], initScale, minCount)
  {
    var offset := offsets[|offsets| - 1];
    PermutesRangeWhole(cur, cur', offset, |cur|);
    ResolvedStep(build, cur, cur', offsets, next, initScale);
    CompleteStep(build, cur, cur', offsets, next, initScale);
  }

  /** Fixing one more level keeps the fixed levels free of degenerate
      triangles: the earlier levels do not move. */
  lemma ResolvedStep(build: Build, cur: seq<Tri>, cur': seq<Tri>, offsets: seq<nat>, next: nat, initScale: real)
    requires initScale != 0.0
    requires |offsets| >= 1 && |cur'| == |cur|
    requires forall p :: 0 <= p < |offsets| ==> offsets[p] <= offsets[|offsets| - 1] <= |cur|
    requires cur'[..offsets[|offsets| - 1]] == cur[..offsets[|offsets| - 1]]
    requires offsets[|offsets| - 1] <= next <= |cur|
    requires LevelsResolved(build, cur, offsets, |offsets| - 1, initScale)
    requires forall j :: offsets[|offsets| - 1] <= j < next ==> !IsDegenerate(build, cur'[j], LevelScale(initScale, |offsets| - 1))
    ensures LevelsResolved(build, cur', offsets + [next], |offsets|, initScale)
  {
    var offset := offsets[|offsets| - 1];
    var o' := offsets + [next];
    forall p, j | 0 <= p < |offsets| && o'[p] <= j < o'[p + 1]
      ensures !IsDegenerate(build, cur'[j], LevelScale(initScale, p))
    {
      if p < |offsets| - 1 {
        assert o'[p] == offsets[p] && o'[p + 1] == offsets[p + 1];
        assert offsets[p + 1] <= offset;
        assert cur'[j] == cur'[..offset][j] && cur[j] == cur[..offset][j];
      }
    }
  }

  /** Fixing one more level keeps every pass complete: the new pass left
      only degenerate triangles after its level, and rearranging the
      suffix keeps what earlier passes left degenerate. */
  lemma CompleteStep(build: Build, cur: seq<Tri>, cur': seq<Tri>, offsets: seq<nat>, next: nat, initScale: real)
    requires initScale != 0.0
    requires |offsets| >= 1
    requires forall p :: 0 <= p < |offsets| ==> offsets[p] <= offsets[|offsets| - 1] <= |cur|
    requires PermutesRange(cur, cur', offsets[|offsets| - 1], |cur|)
    requires offsets[|offsets| - 1] <= next <= |cur|
    requires PassesComplete(build, cur, offsets, |offsets| - 1, initScale)
    requires forall j :: next <= j < |cur| ==> IsDegenerate(build, cur'[j], LevelScale(initScale, |offsets| - 1))
    ensures PassesComplete(build, cur', offsets + [next], |offsets|, initScale)
  {
    var offset := offsets[|offsets| - 1];
    var o' := offsets + [next];
    forall p | 0 <= p < |offsets|
      ensures forall j :: o'[p + 1] <= j < |cur'| ==> IsDegenerate(build, cur'[j], LevelScale(initScale, p))
    {
      if p < |offsets| - 1 {
        assert o'[p + 1] == offsets[p + 1] <= offset;
        var degenerate := t => IsDegenerate(build, t, LevelScale(initScale, p));
        assert AllIn(cur, offset, |cur|, degenerate);
        AllInPermuted(cur, cur', offset, |cur|, offset, |cur|, degenerate);
        assert forall j :: offset <= j < |cur'| ==> degenerate(cur'[j]);
      }
    }
  }

  lemma StuckPermuted(build: Build, a: seq<Tri>, b: seq<Tri>)
    requires PermutesRange(a, b, 0, |a|) && Stuck(build, a)
    ensures Stuck(build, b)
  {
    AllInPermuted(a, b, 0, |a|, 0, |b|, t => DegenerateAtAllScales(build, t));
  }

  lemma LodProgressDone(build: Build, input: seq<Tri>, cur: seq<Tri>, offsets: seq<nat>, initScale: real, minCount: int)
    requires initScale != 0.0
    requires LodProgress(build, input, cur, offsets, initScale, minCount)
    requires |cur| - offsets[|offsets| - 1] <= minCount
    ensures LodLayout(build, input, cur, offsets + [|cur|], initScale, minCount)
  {
    var o' := offsets + [|cur|];
    assert forall p :: 0 <= p < |offsets| ==> o'[p] == offsets[p];
    assert LevelsResolved(build, cur, o', |o'| - 2, initScale);
    assert PassesComplete(build, cur, o', |o'| - 2, initScale);
  }

  /** Every triangle of `tris` is degenerate at every scale. */
  ghost predicate Stuck(build: Build, tris: seq<Tri>) {
    forall j :: 0 <= j < |tris| ==> DegenerateAtAllScales(build, tris[j])
  }

  /** mipmesh.js `splitLOD` with at most `fuel` passes. A pass cannot
      advance the offset when every triangle is degenerate at every scale,
      so then the loop never ends once more than `minCount` triangles are
      present. As written that is every mesh; corrected, it is any mesh whose
      triangles each have two coincident corners. */
  method SplitLOD(build: Build, tris: seq<Tri>, initScale: real, minCount: int, fuel: nat) returns (r: LodSplit)
    requires initScale != 0.0
    ensures r.LodSplit? ==> LodLayout(build, tris, r.tris, r.offsets, initScale, minCount)
    ensures |tris| <= minCount ==> r == LodSplit(tris, [0, |tris|])
    ensures Stuck(build, tris) && |tris| > minCount ==> r.LodOutOfFuel?
    ensures build == AsWritten && |tris| > minCount ==> r.LodOutOfFuel?
  {
    var cur := tris;
    var offsets: seq<nat> := [0];
    var offset: nat := 0;
    var scale := initScale;
    while |cur| - offset > minCount
      invariant LodProgress(build, tris, cur, offsets, initScale, minCount)
      invariant offset == offsets[|offsets| - 1]
      invariant scale == LevelScale(initScale, |offsets| - 1)
      invariant |offsets| - 1 <= fuel
      invariant build == AsWritten ==> offset == 0
      invariant Stuck(build, tris) ==> offset == 0 && Stuck(build, cur)
      invariant |offsets| == 1 ==> cur == tris
      decreases fuel - (|offsets| - 1)
    {
      if |offsets| - 1 == fuel {
        return LodOutOfFuel;
      }
      var next;
      var prev := cur;
      if Stuck(build, cur) {
        forall j | offset <= j < |cur|
          ensures IsDegenerate(build, cur[j], scale)
        {
          assert DegenerateAtAllScales(build, cur[j]);
        }
      }
      cur, next := LodPass(build, cur, offset, scale);
      if Stuck(build, prev) && offset == 0 {
        StuckPermuted(build, prev, cur);
      }
      LodProgressStep(build, tris, prev, cur, offsets, next, initScale, minCount);
      offsets := offsets + [next];
      offset := next;
      scale := 0.5 * scale;
    }
    LodProgressDone(build, tris, cur, offsets, initScale, minCount);
    offsets := offsets + [|cur|];
    r := LodSplit(cur, offsets);
  }

  // ---------------------------------------------------------------------------
  // splitVis
  // ---------------------------------------------------------------------------

  /** A node of the visibility tree (mipmesh.js `VisNode`): its bounds, its
      triangle range `[start, end)`, and two children unless it is a leaf. */
  datatype VisNode =
    | Leaf(bounds: Bounds, start: nat, end: nat)
    | Inner(bounds: Bounds, start: nat, end: nat, c0: VisNode, c1: VisNode)

  /** `hi[axis] - lo[axis]`. */
  function Extent(lo: Vec3, hi: Vec3, axis: Axis): real {
    hi.At(axis) - lo.At(axis)
  }

  /** The longest-axis loop of `splitVis` (mipmesh.js:110-118): the first
      axis of strictly maximal extent. */
  function LongestAxis(lo: Vec3, hi: Vec3): (axis: Axis)
    ensures forall a: Axis :: Extent(lo, hi, a) <= Extent(lo, hi, axis)
    ensures forall a: Axis :: a < axis ==> Extent(lo, hi, a) < Extent(lo, hi, axis)
  {
    var a01: Axis := if Extent(lo, hi, 1) > Extent(lo, hi, 0) then 1 else 0;
    if Extent(lo, hi, 2) > Extent(lo, hi, a01) then 2 else a01
  }

  /** The split plane of a node. With `Empty` bounds every extent is
      `-Infinity - Infinity`, no extent beats the initial `-Infinity`, the
      axis stays `-1` and the midpoint is NaN: that is `NoCut`. */
  datatype Cut = NoCut | Cut(axis: Axis, x: real)

  function ChooseCut(b: Bounds): (c: Cut)
    ensures b.Empty? <==> c.NoCut?
    ensures b.Box? ==> c.axis == LongestAxis(b.lo, b.hi)
    ensures b.Box? ==> c.x == 0.5 * (b.lo.At(c.axis) + b.hi.At(c.axis))
    ensures b.Box? && b.lo.At(c.axis) <= b.hi.At(c.axis) ==> b.lo.At(c.axis) <= c.x <= b.hi.At(c.axis)
  {
    match b
    case Empty => NoCut
    case Box(lo, hi) =>
      var axis := LongestAxis(lo, hi);
      Cut(axis, 0.5 * (lo.At(axis) + hi.At(axis)))
  }

  /** The partition predicate `tri[0][axis] < x`; against `NoCut` it compares
      `undefined < NaN`, which is false. */
  predicate OnLeft(c: Cut, t: Tri) {
    c.Cut? && t.p0.At(c.axis) < c.x
  }

  /** The bounds `splitVis` computes for its range: as written it calls
      `getBounds(triangles)` with no range (mipmesh.js:104). */
  function VisBounds(build: Build, tris: seq<Tri>, start: nat, end: nat): (b: Bounds)
    requires end <= |tris|
  {
    if build == AsWritten then GetBoundsCall(tris, None) else GetBoundsCall(tris, Some((start, end)))
  }

  /** `t1` and `t2` agree on `[lo, hi)`. */
  ghost predicate AgreeOn(t1: seq<Tri>, t2: seq<Tri>, lo: int, hi: int) {
    0 <= lo <= hi <= |t1| && hi <= |t2| && forall j :: lo <= j < hi ==> t1[j] == t2[j]
  }

  /** A visibility tree over `tris`: every node's bounds are the bounds of
      its own range (so they contain its triangles and are tight around
      them), a node is a leaf exactly when it holds at most `minCount`
      triangles, an inner node's children tile its range at the partition
      point, and the left triangles lie before the cut through the middle of
      the node's longest axis while the right ones do not. */
  ghost predicate ValidTree(n: VisNode, tris: seq<Tri>, minCount: int)
    decreases n
  {
    && n.start <= n.end <= |tris|
    && n.bounds == GetBounds(tris, n.start, n.end)
    && (n.Leaf? <==> n.end - n.start <= minCount)
    && (n.Inner? ==>
          && n.c0.start == n.start && n.c0.end == n.c1.start && n.c1.end == n.end
          && ValidTree(n.c0, tris, minCount)
          && ValidTree(n.c1, tris, minCount)
          && AllIn(tris, n.start, n.c0.end, t => OnLeft(ChooseCut(n.bounds), t))
          && NoneIn(tris, n.c1.start, n.end, t => OnLeft(ChooseCut(n.bounds), t)))
  }

  /** A tree only depends on the triangles inside its own range. */
  lemma {:induction false} ValidTreeFrame(n: VisNode, t1: seq<Tri>, t2: seq<Tri>, minCount: int)
    requires ValidTree(n, t1, minCount)
    requires AgreeOn(t1, t2, n.start, n.end)
    ensures ValidTree(n, t2, minCount)
    decreases n
  {
    AgreeOnSlice(t1, t2, n.start, n.end);
    GetBoundsPermuted(t1, t2, n.start, n.end);
    if n.Inner? {
      ValidTreeFrame(n.c0, t1, t2, minCount);
      ValidTreeFrame(n.c1, t1, t2, minCount);
    }
  }

  lemma PermutesRangeAgree(a: seq<Tri>, b: seq<Tri>, lo: int, hi: int, lo': int, hi': int)
    requires PermutesRange(a, b, lo, hi)
    requires 0 <= lo' <= hi' <= lo || hi <= lo' <= hi' <= |a|
    ensures AgreeOn(a, b, lo', hi')
  {
    if hi' <= lo {
      assert forall j :: lo' <= j < hi' ==> a[j] == a[..lo][j] && b[j] == b[..lo][j];
    } else {
      assert forall j :: lo' <= j < hi' ==> a[j] == a[hi..][j - hi] && b[j] == b[hi..][j - hi];
    }
  }

  lemma AgreeOnSlice(a: seq<Tri>, b: seq<Tri>, lo: int, hi: int)
    requires AgreeOn(a, b, lo, hi)
    ensures a[lo..hi] == b[lo..hi]
  {
  }

  /** mipmesh.js `splitVis` on `tris[start..end)` with recursion depth at
      most `fuel`. As written, the empty bounds give no cut, the partition
      leaves every triangle on the right, and the second recursive call
      repeats its parent's range, so any range longer than `minCount` never
      finishes. */
  method SplitVis(build: Build, tris: seq<Tri>, start: nat, end: nat, minCount: int, fuel: nat)
    returns (tris': seq<Tri>, node: Option<VisNode>)
    requires start <= end <= |tris|
    ensures PermutesRange(tris, tris', start, end)
    ensures node.Some? ==> node.value.start == start && node.value.end == end
    ensures node.Some? ==> node.value.bounds == VisBounds(build, tris, start, end)
    ensures node.Some? ==> (node.value.Leaf? <==> end - start <= minCount)
    ensures end - start <= minCount ==> tris' == tris && node == Some(Leaf(VisBounds(build, tris, start, end), start, end))
    ensures build == Intended && node.Some? ==> ValidTree(node.value, tris', minCount)
    ensures build == AsWritten && end - start > minCount ==> node.None?
    decreases fuel, 0
  {
    var bounds := VisBounds(build, tris, start, end);
    if end - start <= minCount {
      tris', node := tris, Some(Leaf(bounds, start, end));
      return;
    }
    if fuel == 0 {
      tris', node := tris, None;
      PermutesRangeRefl(tris, start, end);
      return;
    }
    tris', node := SplitInner(build, tris, start, end, bounds, minCount, fuel - 1);
  }

  /** The inner-node case of `splitVis` (mipmesh.js:105-131): partition the
      range at the cut through the middle of the bounds' longest axis and
      build both halves, each with recursion depth at most `fuel`. */
  method SplitInner(build: Build, tris: seq<Tri>, start: nat, end: nat, bounds: Bounds, minCount: int, fuel: nat)
    returns (tris': seq<Tri>, node: Option<VisNode>)
    requires start <= end <= |tris| && end - start > minCount
    requires bounds == VisBounds(build, tris, start, end)
    ensures PermutesRange(tris, tris', start, end)
    ensures node.Some? ==> node.value.Inner? && node.value.start == start && node.value.end == end && node.value.bounds == bounds
    ensures build == Intended && node.Some? ==> ValidTree(node.value, tris', minCount)
    ensures build == AsWritten ==> node.None?
    decreases fuel, 1
  {
    var cut := ChooseCut(bounds);
    var t1, mid := Partition(tris, start, end, t => OnLeft(cut, t));
    if build == AsWritten {
      // no cut: every triangle goes right and the right child repeats the range
      assert NoneIn(tris, start, end, t => OnLeft(cut, t));
      assert mid == start;
    }
    var t2, n0 := SplitVis(build, t1, start, mid, minCount, fuel);
    PermutesRangeCompose(tris, t1, t2, start, end, start, mid);
    if n0.None? {
      tris', node := t2, None;
      return;
    }
    var t3, n1 := SplitVis(build, t2, mid, end, minCount, fuel);
    PermutesRangeCompose(tris, t2, t3, start, end, mid, end);
    tris' := t3;
    if n1.None? {
      node := None;
      return;
    }
    var n := Inner(bounds, start, end, n0.value, n1.value);
    node := Some(n);
    if build == Intended {
      InnerValid(tris, t1, t2, t3, start, mid, end, bounds, n0.value, n1.value, minCount);
    }
  }

  /** The node `splitVis` returns for `[start, end)` is a valid tree when its
      children are: the partition put the left triangles in front and the
      children's builds only rearranged their own halves. */
  lemma {:induction false} InnerValid(tris: seq<Tri>, t1: seq<Tri>, t2: seq<Tri>, t3: seq<Tri>, start: nat, mid: nat, end: nat,
                   bounds: Bounds, n0: VisNode, n1: VisNode, minCount: int)
    requires start <= mid <= end <= |tris| && end - start > minCount
    requires bounds == GetBounds(tris, start, end)
    requires PermutesRange(tris, t1, start, end)
    requires forall j :: start <= j < mid ==> OnLeft(ChooseCut(bounds), t1[j])
    requires forall j :: mid <= j < end ==> !OnLeft(ChooseCut(bounds), t1[j])
    requires PermutesRange(t1, t2, start, mid) && PermutesRange(t2, t3, mid, end)
    requires n0.start == start && n0.end == mid && ValidTree(n0, t2, minCount)
    requires n1.start == mid && n1.end == end && ValidTree(n1, t3, minCount)
    ensures ValidTree(Inner(bounds, start, end, n0, n1), t3, minCount)
  {
    var cut := ChooseCut(bounds);
    InnerLeft(t1, t2, t3, start, mid, end, cut, n0, minCount);
    InnerRight(t1, t2, t3, start, mid, end, cut);
    InnerBounds(tris, t1, t2, t3, start, mid, end);
  }

  /** The left child is untouched by the right child's build, and its
      triangles are still the left ones of the partition. */
  lemma InnerLeft(t1: seq<Tri>, t2: seq<Tri>, t3: seq<Tri>, start: nat, mid: nat, end: nat,
                  cut: Cut, n0: VisNode, minCount: int)
    requires start <= mid <= end <= |t1|
    requires forall j :: start <= j < mid ==> OnLeft(cut, t1[j])
    requires PermutesRange(t1, t2, start, mid) && PermutesRange(t2, t3, mid, end)
    requires n0.start == start && n0.end == mid && ValidTree(n0, t2, minCount)
    ensures ValidTree(n0, t3, minCount) && AllIn(t3, start, mid, t => OnLeft(cut, t))
  {
    var left := t => OnLeft(cut, t);
    assert AllIn(t1, start, mid, left);
    PermutesRangeAgree(t2, t3, mid, end, start, mid);
    ValidTreeFrame(n0, t2, t3, minCount);
    AgreeOnSlice(t2, t3, start, mid);
    AllInPermuted(t1, t3, start, mid, start, mid, left);
  }

  /** The right range held the same triangles after the left child's build,
      so none of them is a left one. */
  lemma InnerRight(t1: seq<Tri>, t2: seq<Tri>, t3: seq<Tri>, start: nat, mid: nat, end: nat, cut: Cut)
    requires start <= mid <= end <= |t1|
    requires forall j :: mid <= j < end ==> !OnLeft(cut, t1[j])
    requires PermutesRange(t1, t2, start, mid) && PermutesRange(t2, t3, mid, end)
    ensures NoneIn(t3, mid, end, t => OnLeft(cut, t))
  {
    var left := t => OnLeft(cut, t);
    assert NoneIn(t1, mid, end, left);
    PermutesRangeAgree(t1, t2, start, mid, mid, end);
    AgreeOnSlice(t1, t2, mid, end);
    NoneInPermuted(t1, t3, mid, end, mid, end, left);
  }

  /** The node's range holds the same triangles after the partition and both
      children's builds, so it has the same bounds. */
  lemma InnerBounds(tris: seq<Tri>, t1: seq<Tri>, t2: seq<Tri>, t3: seq<Tri>, start: nat, mid: nat, end: nat)
    requires start <= mid <= end <= |tris|
    requires PermutesRange(tris, t1, start, end)
    requires PermutesRange(t1, t2, start, mid) && PermutesRange(t2, t3, mid, end)
    ensures |t3| == |tris| && GetBounds(t3, start, end) == GetBounds(tris, start, end)
  {
    PermutesRangeCompose(tris, t1, t2, start, end, start, mid);
    PermutesRangeCompose(tris, t2, t3, start, end, mid, end);
    GetBoundsPermuted(tris, t3, start, end);
  }

  // ---------------------------------------------------------------------------
  // generateMipMesh
  // ---------------------------------------------------------------------------

  /** One level of detail (mipmesh.js `LodLevel`). */
  datatype LodLevel = LodLevel(scale: real, start: nat, end: nat, vis: VisNode)

  /** The builder's output (mipmesh.js `MipMesh`). */
  datatype MipMesh = MipMesh(bounds: Bounds, data: seq<real>, levels: seq<LodLevel>)

  /** `minCount_ || 1024`: a zero (falsy) count selects the default, so the
      threshold in use is never zero. */
  function MinCountOrDefault(minCount_: int): (m: int)
    ensures m != 0
    ensures minCount_ != 0 ==> m == minCount_
    ensures minCount_ == 0 ==> m == 1024
  {
    if minCount_ == 0 then 1024 else minCount_
  }

  /** The levels tile `[0, n)` in order, level `i` at pass `i`'s scale. */
  ghost predicate LevelsTile(levels: seq<LodLevel>, n: nat, initScale: real) {
    && |levels| >= 1
    && levels[0].start == 0
    && levels[|levels| - 1].end == n
    && (forall i :: 0 <= i < |levels| ==> levels[i].start <= levels[i].end <= n)
    && (forall i :: 0 <= i < |levels| - 1 ==> levels[i].end == levels[i + 1].start)
    && (forall i :: 0 <= i < |levels| ==> levels[i].scale == LevelScale(initScale, i))
  }

  /** What `generateMipMesh` promises about its output for the de-indexed
      triangles `flat`: the overall bounds, a vertex buffer that regroups to a
      permutation of `flat`, levels that tile it, a valid visibility tree per
      level over the buffer's order, non-final levels free of triangles
      degenerate at their scale, and everything after a non-final level
      degenerate at that level's scale. */
  ghost predicate MipMeshBuilt(flat: seq<Tri>, m: MipMesh, initScale: real, minCount: int)
    requires initScale != 0.0
  {
    && m.bounds == GetBounds(flat, 0, |flat|)
    && |m.data| == 9 * |flat|
    && |m.data| % 9 == 0
    && var tris := Regroup(m.data);
    && multiset(tris) == multiset(flat)
    && LevelsTile(m.levels, |flat|, initScale)
    && (forall i :: 0 <= i < |m.levels| ==>
          && m.levels[i].vis.start == m.levels[i].start
          && m.levels[i].vis.end == m.levels[i].end
          && ValidTree(m.levels[i].vis, tris, minCount))
    && LevelsSeparated(tris, m.levels, initScale)
  }

  /** Every non-final level `i` holds only triangles that are not degenerate
      at pass `i`'s scale, and everything after it is degenerate at that
      scale. */
  ghost predicate LevelsSeparated(tris: seq<Tri>, levels: seq<LodLevel>, initScale: real)
    requires initScale != 0.0
  {
    && (forall i, j :: 0 <= i < |levels| - 1 && levels[i].start <= j < levels[i].end && j < |tris| ==>
          !IsDegenerate(Intended, tris[j], LevelScale(initScale, i)))
    && (forall i, j :: 0 <= i < |levels| - 1 && levels[i].end <= j < |tris| ==>
          IsDegenerate(Intended, tris[j], LevelScale(initScale, i)))
  }

  /** The first `count` levels are built over `tris` from `offsets`. */
  ghost predicate LevelsBuilt(tris: seq<Tri>, offsets: seq<nat>, levels: seq<LodLevel>, initScale: real, minCount: int) {
    && |levels| < |offsets|
    && forall l {:trigger levels[l]} :: 0 <= l < |levels| ==>
         && levels[l] == LodLevel(LevelScale(initScale, l), offsets[l], offsets[l + 1], levels[l].vis)
         && levels[l].vis.start == offsets[l] && levels[l].vis.end == offsets[l + 1]
         && ValidTree(levels[l].vis, tris, minCount)
  }

  lemma LevelsBuiltStep(input: seq<Tri>, prev: seq<Tri>, tris: seq<Tri>, offsets: seq<nat>, levels: seq<LodLevel>, vis: VisNode, initScale: real, minCount: int)
    requires initScale != 0.0
    requires LodLayout(Intended, input, prev, offsets, initScale, minCount)
    requires LevelsBuilt(prev, offsets, levels, initScale, minCount)
    requires |levels| < |offsets| - 1
    requires PermutesRange(prev, tris, offsets[|levels|], offsets[|levels| + 1])
    requires vis.start == offsets[|levels|] && vis.end == offsets[|levels| + 1]
    requires ValidTree(vis, tris, minCount)
    ensures LodLayout(Intended, input, tris, offsets, initScale, minCount)
    ensures LevelsBuilt(tris, offsets, levels + [LodLevel(LevelScale(initScale, |levels|), vis.start, vis.end, vis)], initScale, minCount)
  {
    var i := |levels|;
    var levels' := levels + [LodLevel(LevelScale(initScale, i), vis.start, vis.end, vis)];
    forall l | 0 <= l < |levels'|
      ensures levels'[l] == LodLevel(LevelScale(initScale, l), offsets[l], offsets[l + 1], levels'[l].vis)
      ensures levels'[l].vis.start == offsets[l] && levels'[l].vis.end == offsets[l + 1]
      ensures ValidTree(levels'[l].vis, tris, minCount)
    {
      if l < i {
        assert levels'[l] == levels[l];
        OffsetsMonotone(offsets, l + 1, i);
        PermutesRangeAgree(prev, tris, offsets[i], offsets[i + 1], offsets[l], offsets[l + 1]);
        ValidTreeFrame(levels[l].vis, prev, tris, minCount);
      }
    }
    LodLayoutPermuted(input, prev, tris, offsets, initScale, minCount, i);
  }

  lemma MipMeshFinish(flat: seq<Tri>, tris: seq<Tri>, offsets: seq<nat>, levels: seq<LodLevel>, initScale: real, minCount: int)
    requires initScale != 0.0
    requires LodLayout(Intended, flat, tris, offsets, initScale, minCount)
    requires LevelsBuilt(tris, offsets, levels, initScale, minCount)
    requires |levels| == |offsets| - 1
    ensures MipMeshBuilt(flat, MipMesh(GetBounds(flat, 0, |flat|), Unroll(tris), levels), initScale, minCount)
  {
    RegroupUnroll(tris);
    var m := MipMesh(GetBounds(flat, 0, |flat|), Unroll(tris), levels);
    assert |tris| == |flat|;
    assert |m.data| == 9 * |flat| && |m.data| % 9 == 0;
    assert Regroup(m.data) == tris;
    LevelsTileFromOffsets(tris, offsets, levels, initScale, minCount);
    LevelsResolvedAsLevels(tris, offsets, levels, initScale, minCount);
    PassesCompleteAsLevels(tris, offsets, levels, initScale, minCount);
  }

  lemma LevelsTileFromOffsets(tris: seq<Tri>, offsets: seq<nat>, levels: seq<LodLevel>, initScale: real, minCount: int)
    requires Tiling(offsets, |tris|)
    requires LevelsBuilt(tris, offsets, levels, initScale, minCount)
    requires |levels| == |offsets| - 1
    ensures LevelsTile(levels, |tris|, initScale)
    ensures forall i :: 0 <= i < |levels| ==>
      && levels[i].vis.start == levels[i].start
      && levels[i].vis.end == levels[i].end
      && ValidTree(levels[i].vis, tris, minCount)
  {
    forall i | 0 <= i < |levels|
      ensures levels[i].start <= levels[i].end <= |tris|
    {
      assert levels[i].start == offsets[i] && levels[i].end == offsets[i + 1];
    }
  }

  lemma LevelsResolvedAsLevels(tris: seq<Tri>, offsets: seq<nat>, levels: seq<LodLevel>, initScale: real, minCount: int)
    requires initScale != 0.0
    requires |levels| == |offsets| - 1 >= 1
    requires forall p :: 0 <= p < |offsets| ==> offsets[p] <= |tris|
    requires LevelsResolved(Intended, tris, offsets, |offsets| - 2, initScale)
    requires LevelsBuilt(tris, offsets, levels, initScale, minCount)
    ensures forall i, j :: 0 <= i < |levels| - 1 && levels[i].start <= j < levels[i].end && j < |tris| ==>
      !IsDegenerate(Intended, tris[j], LevelScale(initScale, i))
  {
    forall i, j | 0 <= i < |levels| - 1 && levels[i].start <= j < levels[i].end && j < |tris|
      ensures !IsDegenerate(Intended, tris[j], LevelScale(initScale, i))
    {
      assert levels[i].start == offsets[i] && levels[i].end == offsets[i + 1];
    }
  }

  lemma PassesCompleteAsLevels(tris: seq<Tri>, offsets: seq<nat>, levels: seq<LodLevel>, initScale: real, minCount: int)
    requires initScale != 0.0
    requires |levels| == |offsets| - 1 >= 1
    requires PassesComplete(Intended, tris, offsets, |offsets| - 2, initScale)
    requires LevelsBuilt(tris, offsets, levels, initScale, minCount)
    ensures forall i, j :: 0 <= i < |levels| - 1 && levels[i].end <= j < |tris| ==>
      IsDegenerate(Intended, tris[j], LevelScale(initScale, i))
  {
    forall i, j | 0 <= i < |levels| - 1 && levels[i].end <= j < |tris|
      ensures IsDegenerate(Intended, tris[j], LevelScale(initScale, i))
    {
      assert levels[i].end == offsets[i + 1];
    }
  }

  /** mipmesh.js `generateMipMesh` with the evident defects corrected, for a
      given nonzero initial scale and at most `fuel` LOD passes and tree
      depth. A cell index past the positions is `InvalidMesh`; a mesh of at
      most `minCount` triangles gives a single level whose tree is a leaf. */
  method GenerateMipMesh(cells: seq<Cell>, positions: seq<Vec3>, minCount_: int, initScale: real, fuel: nat)
    returns (r: Result<MipMesh>)
    requires initScale != 0.0
    ensures FlattenCells(cells, positions).Fail? ==> r == Fail(FlattenCells(cells, positions).error)
    ensures FlattenCells(cells, positions).Ok? ==> r.Ok? || r == Fail(OutOfFuel)
    ensures r.Ok? ==> FlattenCells(cells, positions).Ok?
    ensures r.Ok? ==> MipMeshBuilt(FlattenCells(cells, positions).value, r.value, initScale, MinCountOrDefault(minCount_))
    ensures r.Ok? && |cells| <= MinCountOrDefault(minCount_) ==>
      |r.value.levels| == 1 && r.value.levels[0].vis.Leaf?
    ensures FlattenCells(cells, positions).Ok? && |cells| <= MinCountOrDefault(minCount_) ==> r.Ok?
  {
    var minCount := MinCountOrDefault(minCount_);
    var flattened := FlattenCells(cells, positions);
    if flattened.Fail? {
      return Fail(flattened.error);
    }
    var flat := flattened.value;
    var bounds := GetBounds(flat, 0, |flat|);
    var split := SplitLOD(Intended, flat, initScale, minCount, fuel);
    if split.LodOutOfFuel? {
      return Fail(OutOfFuel);
    }
    var offsets := split.offsets;
    var ok, tris, levels := BuildLevels(flat, split.tris, offsets, initScale, minCount, fuel);
    if !ok {
      return Fail(OutOfFuel);
    }
    MipMeshFinish(flat, tris, offsets, levels, initScale, minCount);
    r := Ok(MipMesh(bounds, Unroll(tris), levels));
  }

  /** The loop of lines 160-166: one visibility tree per level of the split,
      each level's triangles reordered by its tree. */
  method BuildLevels(flat: seq<Tri>, split: seq<Tri>, offsets: seq<nat>, initScale: real, minCount: int, fuel: nat)
    returns (ok: bool, tris: seq<Tri>, levels: seq<LodLevel>)
    requires initScale != 0.0
    requires LodLayout(Intended, flat, split, offsets, initScale, minCount)
    ensures ok ==> LodLayout(Intended, flat, tris, offsets, initScale, minCount)
    ensures ok ==> LevelsBuilt(tris, offsets, levels, initScale, minCount) && |levels| == |offsets| - 1
    ensures (forall p :: 0 <= p < |offsets| - 1 ==> offsets[p + 1] - offsets[p] <= minCount) ==> ok
  {
    tris, levels := split, [];
    var scale := initScale;
    while |levels| < |offsets| - 1
      invariant scale == LevelScale(initScale, |levels|)
      invariant LodLayout(Intended, flat, tris, offsets, initScale, minCount)
      invariant LevelsBuilt(tris, offsets, levels, initScale, minCount)
      decreases |offsets| - |levels|
    {
      var vis;
      tris, vis := BuildLevel(flat, tris, offsets, levels, initScale, minCount, fuel);
      if vis.None? {
        return false, tris, levels;
      }
      levels := levels + [LodLevel(scale, offsets[|levels|], offsets[|levels| + 1], vis.value)];
      scale := 0.5 * scale;
    }
    ok := true;
  }

  /** One iteration of the level loop: the visibility tree of the next
      level, which exists whenever that level holds at most `minCount`
      triangles. */
  method BuildLevel(flat: seq<Tri>, tris: seq<Tri>, offsets: seq<nat>, levels: seq<LodLevel>, initScale: real, minCount: int, fuel: nat)
    returns (tris': seq<Tri>, vis: Option<VisNode>)
    requires initScale != 0.0
    requires LodLayout(Intended, flat, tris, offsets, initScale, minCount)
    requires LevelsBuilt(tris, offsets, levels, initScale, minCount)
    requires |levels| < |offsets| - 1
    ensures offsets[|levels| + 1] - offsets[|levels|] <= minCount ==> vis.Some?
    ensures vis.Some? ==> vis.value.start == offsets[|levels|] && vis.value.end == offsets[|levels| + 1]
    ensures vis.Some? ==> LodLayout(Intended, flat, tris', offsets, initScale, minCount)
    ensures vis.Some? ==> LevelsBuilt(tris', offsets, levels + [LodLevel(LevelScale(initScale, |levels|), offsets[|levels|], offsets[|levels| + 1], vis.value)], initScale, minCount)
  {
    var start, end := offsets[|levels|], offsets[|levels| + 1];
    tris', vis := SplitVis(Intended, tris, start, end, minCount, fuel);
    if vis.Some? {
      LevelsBuiltStep(flat, tris, tris', offsets, levels, vis.value, initScale, minCount);
    }
  }

  lemma {:induction false} OffsetsMonotone(offsets: seq<nat>, p: nat, q: nat)
    requires forall k :: 0 <= k < |offsets| - 1 ==> offsets[k] <= offsets[k + 1]
    requires p <= q < |offsets|
    ensures offsets[p] <= offsets[q]
    decreases q - p
  {
    if p < q {
      OffsetsMonotone(offsets, p + 1, q);
    }
  }

  /** Rearranging level `l` of a split keeps it a valid split of the input. */
  lemma LodLayoutPermuted(input: seq<Tri>, a: seq<Tri>, b: seq<Tri>, offsets: seq<nat>, initScale: real, minCount: int, l: nat)
    requires initScale != 0.0
    requires LodLayout(Intended, input, a, offsets, initScale, minCount)
    requires l < |offsets| - 1
    requires PermutesRange(a, b, offsets[l], offsets[l + 1])
    ensures LodLayout(Intended, input, b, offsets, initScale, minCount)
  {
    PermutesRangeWhole(a, b, offsets[l], offsets[l + 1]);
    LevelsResolvedPermuted(a, b, offsets, initScale, l);
    PassesCompletePermuted(a, b, offsets, initScale, l);
  }

  /** Rearranging one level keeps every level free of triangles degenerate
      at its scale. */
  lemma LevelsResolvedPermuted(a: seq<Tri>, b: seq<Tri>, offsets: seq<nat>, initScale: real, l: nat)
    requires initScale != 0.0
    requires Tiling(offsets, |a|) && l < |offsets| - 1
    requires forall p :: 0 <= p < |offsets| ==> offsets[p] <= |a|
    requires LevelsResolved(Intended, a, offsets, |offsets| - 2, initScale)
    requires PermutesRange(a, b, offsets[l], offsets[l + 1])
    ensures LevelsResolved(Intended, b, offsets, |offsets| - 2, initScale)
  {
    var lo, hi := offsets[l], offsets[l + 1];
    forall p, j | 0 <= p < |offsets| - 2 && offsets[p] <= j < offsets[p + 1]
      ensures !IsDegenerate(Intended, b[j], LevelScale(initScale, p))
    {
      if p == l {
        NoneInPermuted(a, b, lo, hi, lo, hi, t => IsDegenerate(Intended, t, LevelScale(initScale, p)));
      } else if p < l {
        OffsetsMonotone(offsets, p + 1, l);
        PermutesRangeAgree(a, b, lo, hi, offsets[p], offsets[p + 1]);
      } else {
        OffsetsMonotone(offsets, l + 1, p);
        PermutesRangeAgree(a, b, lo, hi, offsets[p], offsets[p + 1]);
      }
    }
  }

  /** Rearranging one level keeps everything after each pass's level
      degenerate at that pass's scale: the level lies either wholly before
      or wholly inside each such suffix. */
  lemma PassesCompletePermuted(a: seq<Tri>, b: seq<Tri>, offsets: seq<nat>, initScale: real, l: nat)
    requires initScale != 0.0
    requires Tiling(offsets, |a|) && l < |offsets| - 1
    requires forall p :: 0 <= p < |offsets| ==> offsets[p] <= |a|
    requires PassesComplete(Intended, a, offsets, |offsets| - 2, initScale)
    requires PermutesRange(a, b, offsets[l], offsets[l + 1])
    ensures PassesComplete(Intended, b, offsets, |offsets| - 2, initScale)
  {
    var lo, hi := offsets[l], offsets[l + 1];
    forall p | 0 <= p < |offsets| - 2
      ensures forall j :: offsets[p + 1] <= j < |b| ==> IsDegenerate(Intended, b[j], LevelScale(initScale, p))
    {
      var from := offsets[p + 1];
      var degenerate := t => IsDegenerate(Intended, t, LevelScale(initScale, p));
      assert AllIn(a, from, |a|, degenerate);
      if l <= p {
        OffsetsMonotone(offsets, l + 1, p + 1);
        PermutesRangeAgree(a, b, lo, hi, from, |a|);
      } else {
        OffsetsMonotone(offsets, p + 1, l);
        PermutesRangeAgree(a, b, lo, hi, from, lo);
        PermutesRangeAgree(a, b, lo, hi, hi, |a|);
        AllInPermuted(a, b, lo, hi, lo, hi, degenerate);
      }
    }
  }
}
