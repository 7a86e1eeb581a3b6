# cyberarts-junkdrawer, modelled in Dafny

This project models the index-and-buffer bookkeeping at the core of a small
collection of WebGL experiments. The JavaScript works on flat arrays, in-place
partitions and hand-unrolled loops, and the model states what each of these
computes. Exact reals and unbounded integers stand in for JavaScript numbers.

- **mipmesh.js** (module `MipMesh`, with `Mesh` and `Partitions`). It builds a
  level-of-detail mesh in four steps:
  - `flattenCells` de-indexes the cells into triangles;
  - `splitLOD` uses the in-place `partition` to carve the triangle array into
    levels of triangles that are not degenerate at a halving voxel scale;
  - `splitVis` builds a bounding-volume tree per level by splitting at the
    midpoint of the longest axis;
  - `unrollTriangles` flattens the triangles into a vertex buffer.
- **data/stl2json.js** (module `StlWeld`). It welds STL facet corners whose
  coordinates agree after `Math.floor(x * 10000)`. It then cuts each facet
  into a triangle fan and drops triangles that have a repeated vertex.
- **regl-text.js** (module `ReglText`).
  - `stringGeometry` turns a vectorized string into a memoised vertex buffer
    with its bounds.
  - `drawText` lays out a string one glyph at a time with a moving cursor.
- **regl-analyser.js** (module `Analyser`). It models four parts of the
  analyser:
  - the top-k cepstrum peak table of `estimatePitch`;
  - the ring-buffer pointers;
  - the beat cutoff index;
  - the zero-fill of the trailing pitches.
- **junk/dome-gen.js** (module `DomeGen`). It computes, for a geodesic dome:
  - the edge list of its faces and the areas of its hexagonal faces;
  - the sorted strut lengths and their histogram, halved;
  - a greedy count of the stock pieces the struts are cut from.
- **examples/neighbor-particles.js** and **junk/neighbor-pairs.js** (module
  `Neighbors`). These enumerate every pair and every triple of particles
  into vertex attributes. The draw counts must match the data.

Two source defects matter for the model. As written, `isDegenerate` calls
every triangle degenerate, and `getBounds` is called without a range. As a
result, in exact arithmetic `splitLOD` and `splitVis` never finish on a mesh
larger than `minCount`. The model is therefore parametrised by a `Build`:
- `AsWritten` follows the code;
- `Intended` corrects the defects.

The properties are proved for `Intended`, and the failure is proved for
`AsWritten` (see Findings). The whole pipeline, `MipMesh.GenerateMipMesh`, is
modelled for `Intended`.

## Model

| member | source | states |
|---|---|---|
| Partitions.Partition | mipmesh.js:33-45 | Only the range `[start, end)` is rearranged. Afterwards the elements meeting the predicate fill `[start, ptr)` and the others fill `[ptr, end)`. If none meet it `ptr == start`; if all do, `ptr == end`. |
| Partitions.PermutesRangeCompose | mipmesh.js:120-123 | Rearranging a sub-range of a rearranged range is still a rearrangement of the outer range, which is why nested partitions only shuffle their own node's triangles |
| Mesh.FlattenCells | mipmesh.js:25-31 | It succeeds exactly when every cell names existing positions. On success, triangle `i`, corner `k` is the position cell `i` names at `k`. On failure it reports the first offending cell. |
| Mesh.AddPoint | mipmesh.js:93-96 | A point update makes the bounds contain that point and everything they contained before, and each bound is the min or max of the old bound and the coordinate |
| Mesh.GetBounds | mipmesh.js:83-101 | The bounds of `triangles[start..end)` are empty exactly when the range is. Otherwise they contain every corner in the range, and every bound is reached by some corner (tight). |
| Mesh.GetBoundsPermuted | mipmesh.js:83-101 | The bounds of a range depend only on the multiset of its triangles, so rearranging the range keeps them |
| Mesh.UnrangedBoundsContainNothing | mipmesh.js:104 | Calling `getBounds(triangles)` without a range yields the infinite starting bounds. These contain none of the triangles that the ranged call over the whole array contains. |
| Mesh.AsWrittenAlwaysDegenerate | mipmesh.js:47-64 | As written, every triangle is degenerate at every scale |
| Mesh.IntendedDegenerateIff | mipmesh.js:47-64 | Corrected, a triangle is degenerate exactly when two distinct corners share a voxel |
| Mesh.CoincidentAlwaysDegenerate | mipmesh.js:47-64 | Corrected, a triangle with two equal corners is degenerate at every scale, so no pass can ever fix it into a level |
| Mesh.LevelScale | mipmesh.js:76 | The scale of pass `i` is non-zero (positive) whenever the initial scale is |
| Mesh.TriData | mipmesh.js:138-141 | One triangle pushes its nine coordinates corner by corner, axis by axis |
| Mesh.Unroll | mipmesh.js:134-142 | The intended vertex buffer has nine numbers per triangle. Coordinate `axis` of corner `k` of triangle `i` sits at `9i + 3k + axis`. |
| Mesh.RegroupUnroll | mipmesh.js:134-142 | The intended buffer is lossless: regrouping it by nines gives back the triangles |
| Mesh.UnrollAsWrittenLosesCoordinates | mipmesh.js:143 | As written, the returned buffer has one NaN per triangle, so it is shorter than the intended buffer and holds no coordinate at all |
| MipMesh.LodPass | mipmesh.js:71-75 | One pass rearranges only the unfixed suffix. It moves the triangles not degenerate at the pass's scale to its front and returns where they end. As written, no triangle ever moves to the front. |
| MipMesh.LodProgressStep | mipmesh.js:70-78 | A pass begun with more than `minCount` triangles left keeps the fixed levels. It appends a level whose triangles are all non-degenerate at the pass's scale, and leaves a remainder that is all degenerate. |
| MipMesh.SplitLOD | mipmesh.js:66-81 | The offsets tile a permutation of the input and start at 0. Each pass began with more than `minCount` left; its level holds only triangles not degenerate at that pass's scale, and everything after its level is degenerate at that scale. The last level is at most `minCount` triangles. A mesh of at most `minCount` is one level. When every triangle is degenerate at every scale and there are more than `minCount`, it never finishes, and as written that is every larger mesh. |
| MipMesh.LongestAxis | mipmesh.js:109-118 | The chosen axis has the greatest extent, and it comes before every other axis with that extent (ties go to the first axis) |
| MipMesh.ChooseCut | mipmesh.js:110-119 | Empty bounds give no cut. Otherwise the cut is on the longest axis at the midpoint of the bounds, so it lies between the low and the high bound. |
| MipMesh.ValidTreeFrame | mipmesh.js:120-123 | A tree only depends on the triangles of its own range, so rearranging other ranges keeps it valid |
| MipMesh.InnerValid | mipmesh.js:119-131 | Partitioning at the cut and then building a valid tree on each half gives a valid inner node for the whole range |
| MipMesh.SplitVis | mipmesh.js:103-132 | Only `[start, end)` is rearranged. The node covers that range and its bounds are the range's bounds. It is a leaf exactly when the range holds at most `minCount` triangles, and a small range returns a leaf untouched. Corrected, the result is a valid tree: every node's bounds are the tight bounds of its own range, children split the parent's range at the partition point, and left triangles have their first corner before the cut. As written, a larger range never finishes. |
| MipMesh.BuildLevel | mipmesh.js:160-166 | Building one level's tree succeeds when the level holds at most `minCount` triangles. The tree spans exactly that level, the split stays valid, and the levels built so far grow by that level at its pass's scale. |
| MipMesh.LevelsBuiltStep | mipmesh.js:160-166 | Building the tree of the next level keeps the split valid and the earlier levels' trees valid. It adds a level whose scale is halved once more. |
| MipMesh.BuildLevels | mipmesh.js:160-166 | There is one level per pair of consecutive offsets, with that pass's scale and a valid tree over exactly its range, and the triangles still form a valid split |
| MipMesh.LodLayoutPermuted | mipmesh.js:163 | Rearranging one level's triangles keeps a valid LOD split of the input |
| MipMesh.GenerateMipMesh | mipmesh.js:146-171 | A bad cell is reported exactly as flattening reports it, and a well-formed mesh of at most `minCount` triangles always succeeds, with one level whose tree is a leaf. On success: the bounds are those of all the triangles; the buffer unrolls a permutation of them; the levels tile it in order with halving scales and valid trees; every level but the last is non-degenerate at its scale; and everything after a level is degenerate at that level's scale. |
| MipMesh.MipMeshFinish | mipmesh.js:168-170 | The finished levels, the whole-mesh bounds and the unrolled buffer together meet the builder's output promise |
| MipMesh.MinCountOrDefault | mipmesh.js:147 | A falsy `minCount_` (0) selects 1024 and any other value is kept, so the count used is never 0 |
| StlWeld.PushVertex | data/stl2json.js:13-23 | A known key returns its index and changes nothing. A new key appends the vertex and returns its index. Welding only adds entries and keeps the grid a bijection between keys and indices. |
| StlWeld.WeldTolerance | data/stl2json.js:14 | Two points with the same key differ by less than `0.0001` on every axis, so welding only merges points on a common 1/10000 grid cell |
| StlWeld.PushVertexIdempotent | data/stl2json.js:16-18 | Pushing a vertex that welds with the one just pushed returns the same index and leaves the state unchanged |
| StlWeld.DedupFirst | data/stl2json.js:13-23 | The vertex list that pushing a sequence builds holds exactly the first vertex of the sequence with each key, and no key twice |
| StlWeld.PushDedup | data/stl2json.js:13-23 | From a welded state whose vertex list is that of the vertices pushed so far, one more push gives the vertex list of the longer sequence |
| StlWeld.SameIndexIffSameKey | data/stl2json.js:30 | In a welded state two corner indices coincide exactly when their keys coincide, so the skip test is a test on keys |
| StlWeld.DistinctFanLength | data/stl2json.js:26 | A facet of `n` corners yields at most `n - 2` fan triangles |
| StlWeld.FanStep | data/stl2json.js:27-33 | One fan step pushes its three corners. It emits a cell exactly when their three keys are pairwise distinct, and that cell's indices are in range and distinct. |
| StlWeld.FanFrom | data/stl2json.js:26-34 | The fan loop over one facet emits exactly the fan triangles with distinct keys, in order, and registers every corner |
| StlWeld.FanFromVerts | data/stl2json.js:26-34 | The fan loop over one facet pushes `f[0]`, `f[i-1]`, `f[i]` for each `i`, and the vertex list grows by the first-seen of these corners |
| StlWeld.WeldFacets | data/stl2json.js:9-39 | Over all facets the grid stays a bijection and every cell is in range with distinct indices. The cells' keys are exactly the distinct-key fan triangles, facet by facet, and there are at most `n - 2` per facet. Every corner of a facet of three or more corners is welded. The output `positions` are exactly the first corner pushed with each key, in push order, and nothing else. |
| StlWeld.WeldedVerts | data/stl2json.js:20-21 | Every output position is a corner of some facet of three or more corners, and the first corner pushed with each key is among the positions |
| StlWeld.PushedVerts | data/stl2json.js:25-39 | The positions are the first corner pushed with each key, every pushed key has one, and they carry exactly the pushed keys |
| ReglText.EmitCells | regl-text.js:21-34 | The data has six numbers per cell. Corner `j` of cell `i` contributes its x at `6i + 2j` and its negated y just after. |
| ReglText.BuildGeometry | regl-text.js:13-39 | The data has six numbers per cell and `count` is half its length, so every emitted point is drawn. The bounds are the least and greatest emitted x and negated y, each reached by some point, and infinite when there are no cells. |
| ReglText.Extremes | regl-text.js:19-20 | The running min and max over the first `n` points are bounds of every point's coordinate. Each is attained by some point, and they stay infinite when there are no points. |
| ReglText.GeometryCorners | regl-text.js:23-31 | Corner `j` of cell `i` of the glyph lands in the data as `x, -y` at `6i + 2j` |
| ReglText.StringGeometry | regl-text.js:6-42 | Only a cache miss vectorizes. A hit returns the cached object and leaves the cache alone. Either way the result ends up cached under its font and string, and no other entry changes. |
| ReglText.StringGeometryCoherent | regl-text.js:6-42 | From a cache holding only faithful entries, the result is the geometry the string vectorizes to, and the cache stays faithful |
| ReglText.StringGeometryMemoised | regl-text.js:7-12 | A second request for the same string and font returns the identical geometry without vectorizing, and changes nothing |
| ReglText.FontFallback | regl-text.js:47 | The font is `sans-serif` exactly when the name is missing, empty, or `sans-serif` itself. Two different non-empty names stay different. |
| ReglText.GlyphPositions | regl-text.js:49-58 | The glyph characters are exactly the positions that are not space, tab or newline, in string order |
| ReglText.Move | regl-text.js:51-65 | A newline returns x to 0 and lowers y by one. Any other character keeps y, and a space or a tab never moves x backwards. |
| ReglText.CursorAfter | regl-text.js:49-65 | The cursor never rises above the first line, and it is still on the first line exactly when the string has no newline |
| ReglText.CursorAppend | regl-text.js:49-65 | Laying out one more character moves the cursor reached so far by exactly that character's step |
| ReglText.CursorLine | regl-text.js:55-57 | After laying out a prefix, the cursor's y is minus the number of newlines in it |
| ReglText.LineRestart | regl-text.js:55-65 | After a newline, the x reached depends only on the current line's characters, and y drops by one |
| ReglText.MoveKeepsLine | regl-text.js:51-54 | Anything but a newline moves the cursor only along its line |
| ReglText.DrawText | regl-text.js:44-69 | There is one entry per glyph character, in string order. Each entry carries that glyph's geometry and the cursor as it stood before the glyph. The cache stays faithful. |
| Analyser.FirstBelow | regl-analyser.js:167-168 | The insertion slot is the first slot strictly lighter than the peak: every earlier slot is at least as heavy |
| Analyser.InsertPeak | regl-analyser.js:167-177 | A peak goes into the first strictly lighter slot. Later slots shift down one place, the last is dropped, and a peak lighter than or equal to every slot changes nothing. The table stays non-increasing. |
| Analyser.InsertKeeps | regl-analyser.js:167-177 | A later insertion never loses a peak: a peak that was held or was no heavier than the last slot stays accounted for |
| Analyser.PeakTable | regl-analyser.js:156-179 | The table has `pitchCount` slots in non-increasing weight, each vacant or a strict local maximum of the scanned range carrying its cepstrum value, and no index is held twice. Equal weights are held in scan order. Every such maximum is held or outranked by every slot, that is, each slot is heavier or as heavy and found earlier. This is the top-k promise with the earlier peak winning a tie. |
| Analyser.NextPtr | regl-analyser.js:118 | The advanced pointer stays inside the buffer and wraps from the last slot to 0 |
| Analyser.AdvanceIsMod | regl-analyser.js:192 | After `n` advances from `p`, the pointer sits at `(p + n) % size` |
| Analyser.CutoffInRange | regl-analyser.js:95 | For a threshold in `[0, 1]` the cutoff indexes the median array |
| Analyser.CutoffIndex | regl-analyser.js:95 | The cutoff is the greatest integer not above `(beatBufferSize - 1) * beatThreshold` |
| Analyser.InsertDistinct | regl-analyser.js:167-177 | Inserting a new candidate index into a table of distinct lower indices keeps the held indices distinct |
| Analyser.InsertKeepsFirst | regl-analyser.js:167-177 | A peak that was held, or outranked by every slot, stays held or outranked by every slot after an insertion. A peak pushed off the end has lost to heavier peaks or to equally heavy earlier ones. |
| Analyser.InsertFirstNew | regl-analyser.js:167-177 | After its insertion step the new candidate is held, or every slot outranks it: heavier, or as heavy and found earlier |
| Analyser.InsertTies | regl-analyser.js:167-177 | Because the test is strict, an insertion keeps equal weights in scan order |
| Analyser.FirstFalsy | regl-analyser.js:200 | This is the first pitch index that is 0 or past the end: all before it are non-zero |
| Analyser.FillPitches | regl-analyser.js:199-207 | Slots before the first falsy pitch index get `sampleRate / pitchIndex[j]`, and that slot and all later ones get 0 |
| DomeGen.FaceEdges | junk/dome-gen.js:18-20 | A face pushes one edge per vertex, to the next vertex cyclically, so consecutive edges meet and close a cycle |
| DomeGen.EdgesAt | junk/dome-gen.js:17-20 | Edge `i` of face `n` sits in the edge list after the edges of every earlier face |
| DomeGen.HexPositions | junk/dome-gen.js:22 | The hexagonal faces are listed exactly once each, in face order |
| DomeGen.Areas | junk/dome-gen.js:22-32 | There is one area per hexagonal face, in face order |
| DomeGen.SortAsc | junk/dome-gen.js:37-39 | The sorted lengths ascend and are a permutation of the lengths |
| DomeGen.Histogram | junk/dome-gen.js:44-48 | The keys are exactly the bucket values that occur, and each count is that value's multiplicity |
| DomeGen.HistogramTotal | junk/dome-gen.js:44-48 | The counts add up to the number of lengths |
| DomeGen.SortedHistogram | junk/dome-gen.js:35-48 | Sorting the lengths first does not change the histogram |
| DomeGen.LengthHistogramCounts | junk/dome-gen.js:35-61 | The printed histogram's keys are exactly the bucket values of the lengths, and twice each entry is how many lengths fall in that bucket |
| DomeGen.HalveWhole | junk/dome-gen.js:59-61 | When every count is even, halving gives whole counts that add up to half the total |
| DomeGen.LengthHistogramTotal | junk/dome-gen.js:44-61 | When every edge is listed twice (even counts), the halved counts add up to half the number of lengths |
| DomeGen.CountPieces | junk/dome-gen.js:76-86 | The loop over every second scaled strut computes exactly the next-fit packing `NextFit` of those struts, so the rows of `DomeGen.NextFitBounds` hold for its result |
| DomeGen.NextFitBounds | junk/dome-gen.js:76-86 | Next-fit uses at least one piece and at most one more per strut. When every strut fits the stock, three things hold: the leftover is within the stock; the pieces hold all the struts; and any two consecutive pieces together carry more than one stock length, so `10 * (count - 1) + (10 - leftover) <= 2 * total` and the count is at most `1 + total / 5`. |
| Neighbors.PairListSound | examples/neighbor-particles.js:121-124 | Every enumerated pair is `j < i < N*N`, and it sits at place `i(i-1)/2 + j` |
| Neighbors.PairListComplete | examples/neighbor-particles.js:121-124 | Every pair `j < i < N*N` is enumerated, at place `i(i-1)/2 + j` |
| Neighbors.PairLoop | examples/neighbor-particles.js:121-131 | The two nested loops visit exactly the enumeration |
| Neighbors.PairDataInUnit | junk/neighbor-pairs.js:122-129 | Every coordinate pushed for particles on the grid lies in `[0, 1)` |
| Neighbors.PairAttribute | examples/neighbor-particles.js:119-133 | The `id` attribute is the pairs' blocks in loop order, its coordinates lie in `[0, 1)`, and its four-number vertices number exactly the draw count |
| Neighbors.PairCount | examples/neighbor-particles.js:119-145 | The pair data of `m` particles is four numbers for each of `m*(m-1)` vertices, so with `m = N*N` it matches the draw count `N*N*(N*N-1)` |
| Neighbors.PairFacts | junk/neighbor-pairs.js:119-145 | The pair data of the `N*N` particles lies in the unit square and matches the draw count |
| Neighbors.TriClosed | examples/neighbor-particles.js:145 | The number of pairs below `m` is `m(m-1)/2` |
| Neighbors.TetClosed | examples/neighbor-particles.js:244 | The number of triples below `m` is `m(m-1)(m-2)/6` |
| Neighbors.TripleListSound | examples/neighbor-particles.js:188-194 | Every enumerated triple is `k < j < i < N*N`, at its place in the loop order |
| Neighbors.TripleListComplete | examples/neighbor-particles.js:188-194 | Every triple `k < j < i < N*N` is enumerated, at its place in the loop order |
| Neighbors.TripleLoop | examples/neighbor-particles.js:188-203 | The three nested loops visit exactly the enumeration |
| Neighbors.PackFits | examples/neighbor-particles.js:189-190 | A grid coordinate shifted by `8 - LOG_N` fits in a byte |
| Neighbors.Pack | examples/neighbor-particles.js:189-196 | Shifting a grid coordinate left by `8 - LOG_N` loses nothing: the result is a multiple of `2^(8 - LOG_N)`, and dividing by that gives the coordinate back |
| Neighbors.TripleDataFits | examples/neighbor-particles.js:189-204 | Every value pushed for the triples is below 256, so the `Uint8Array` conversion loses nothing |
| Neighbors.TripleCount | examples/neighbor-particles.js:244 | The triple buffer holds `N*N*(N*N-1)*(N*N-2)/2` six-byte vertices, which is the draw count |
| Neighbors.TripleAttribute | examples/neighbor-particles.js:186-244 | The triple attribute is the triples' blocks in loop order. All of it is bytes, and its six-byte vertices number exactly the draw count. |

## Left out

- Floating point is modelled as exact reals and unbounded integers. `Float32Array` rounding in `stringGeometry` and `unrollTriangles` is not modelled, nor are the rounding of `Math.round`, of `x * 10000` and of the `vec3` arithmetic.
- Mesh.FlattenCells: for a cell index past the position list, the source yields a triangle with `undefined` corners. The model reports the first such cell as `InvalidMesh` instead.
- MipMesh.GenerateMipMesh: requires `initScale != 0`. The default scale that a falsy `initScale` selects (the cube-root formula of mipmesh.js:151-155) is not modelled. Computed from the unranged bounds of line 149, that default is `-Infinity`. Every point then falls into the same voxel, every triangle is degenerate at every pass, and even the corrected `splitLOD` never finishes on a mesh larger than `minCount`.
- MipMesh.GenerateMipMesh: uses the ranged `getBounds` over the whole mesh (the corrected line 149), and it is stated only for the corrected build. The code as written is covered piece by piece under Findings.
- MipMesh.SplitLOD: carries a `fuel` bound on the number of passes. Running out of fuel is a separate result, and the corrected loop is only proved correct when it finishes within the fuel. Even corrected, a mesh of more than `minCount` triangles that each have two equal corners never finishes (`Mesh.CoincidentAlwaysDegenerate` with the `Stuck` case of `MipMesh.SplitLOD`). The scale is an exact positive real that never reaches 0. In IEEE doubles, halving underflows it to 0 after about 1075 passes, and a zero coordinate then gives a NaN voxel (0 / 0). The model does not cover what happens after that underflow.
- MipMesh.SplitVis: carries a `fuel` bound on the recursion depth. Even corrected, a range whose first corners all lie at or past the cut makes no progress, so termination is not promised.
- The voxel floor `Math.floor(p / scale)` is the exact floor of a real quotient.
- mesh-ao.js and the other experiments (microphone, mouse, webcam, minecraft, moai and the rest) are outside the modelled core.
- I/O is not modelled: reading the STL file, printing JSON and console output, the DOM text node, and regl's buffers and draw calls. A buffer is represented by the data it is filled with.
- ReglText.BuildGeometry: `vectorize-text` is a parameter (`Vectorizer`) that returns a triangulated glyph whose cells name existing positions.
- ReglText.StringGeometry: font names that are properties of `Object.prototype` (`constructor`, `toString`) would be found by `in` without being cached. The model treats every font name as absent until cached.
- ReglText.DrawText: requires a cache that holds only faithful entries. The source's private cache starts empty, so that always holds.
- ReglText.DrawText: `str.split('')` splits the string into UTF-16 code units, while the model's string is a sequence of Unicode scalar values. A character outside the Basic Multilingual Plane is one glyph in the model, but the source lays out its two surrogate halves as two separate glyphs.
- Analyser: the FFT, the cepstrum computation, the audio input, the beat volume sums and the pitch histogram weights (floating-point accumulations) are not modelled. The cepstrum and the sorted `pitchIndex` list are inputs.
- Analyser.NextPtr: requires a buffer size above 0. In JavaScript `% 0` gives NaN.
- Analyser.CutoffIndex: the trailing `| 0` is the identity for results within the 32-bit range. Wrap-around for larger products is not modelled.
- DomeGen: the polyhedron (`conway-hart`), its bounds, the edge lengths, the face areas (cross-product sums) and the rounding into buckets are parameters or inputs. The area histogram (lines 53-57) is the same counting as `Histogram` with another bucket function. The running `total` and `areatotal` sums are floating-point accumulations.
- DomeGen.CountPieces: the bounds that relate pieces to the total length are stated only when every visited strut is between 0 and the stock length. For a longer strut the leftover goes negative.
- Neighbors: `(i / N) | 0` is modelled as integer division, which agrees with it for the non-negative indices used. `LOG_N` (4 in examples/neighbor-particles.js and 5 in junk/neighbor-pairs.js) and `N = 2^LOG_N` are parameters. The particle simulation, shaders and camera are not modelled.
- Neighbors.TripleAttribute: requires `LOG_N <= 8`. For a larger `LOG_N` the shift count `8 - LOG_N` is negative, and JavaScript would take it modulo 32.
- Neighbors.PairAttribute: pushes block by block over the enumeration instead of with two nested loops. `Neighbors.PairLoop` and `Neighbors.TripleLoop` show that the nested loops visit exactly the enumerations.

## Findings

| source | as written | input that shows it | evidently intended | confidence | as-written member | corrected member |
|---|---|---|---|---|---|---|
| mipmesh.js:54 | `q = triangle[i]` compares corner `i` with itself | any triangle, e.g. corners (0,0,0), (5,0,0), (0,5,0) at scale 1 | `q = triangle[j]`: compare two distinct corners | not executed | Mesh.AsWrittenAlwaysDegenerate | Mesh.IntendedDegenerateIff |
| mipmesh.js:71-77 | since every triangle is degenerate, `partition` keeps nothing and `offset` stays 0, so in exact arithmetic `splitLOD` loops forever. In IEEE doubles the scale underflows to 0 after about 1075 passes. A mesh whose second and third corners have a zero coordinate then gets NaN voxels, which count as not degenerate, so `splitLOD` returns; `splitVis` then recurses on the same range until the stack overflows. | any mesh with more than `minCount` triangles | each pass fixes the non-degenerate triangles into a level and advances `offset` | not executed | MipMesh.LodPass | MipMesh.SplitLOD |
| mipmesh.js:104 | `getBounds(triangles)` passes no range (line 149 has the same call), so the loop never runs and the bounds stay infinite | any non-empty triangle array | `getBounds(triangles, start, end)` | not executed | Mesh.UnrangedBoundsContainNothing | Mesh.GetBounds |
| mipmesh.js:119-123 | with infinite bounds the axis stays -1 and the cut is NaN, so every triangle goes right. `splitVis(triangles, mid, end)` then repeats its parent's range forever. | any range longer than `minCount` | split at the midpoint of the range's own longest axis | not executed | MipMesh.SplitVis | MipMesh.InnerValid |
| mipmesh.js:143 | `new Float32Array(triangles)` converts the triangle array itself, one NaN per triangle, and discards `data` | any non-empty triangle array | `new Float32Array(data)` | not executed | Mesh.UnrollAsWrittenLosesCoordinates | Mesh.RegroupUnroll |
