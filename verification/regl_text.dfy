/** Text layout of regl-text.js: `stringGeometry` flattens a vectorized
    glyph into a vertex buffer (with bounds) and memoises it per font and
    string; `drawText` walks a string with a cursor, emitting one entry per
    glyph. The vectorizer (`vectorize-text`) is a parameter, and the GPU
    buffer is represented by the data it is filled with. */
module ReglText {
  import opened ExtReal
  import opened Opt
  import opened Mesh

  /** A 2-D point as `vectorize-text` returns it: `[x, y]`. */
  type Point2 = (real, real)

  /** Which coordinate of a pair (`0` = x, `1` = y). */
  type Comp = k: int | 0 <= k < 2

  /** A triangulated glyph: index cells into a position list. */
  datatype GlyphMesh = GlyphMesh(cells: seq<Cell>, positions: seq<Point2>)

  predicate WellFormed(g: GlyphMesh) {
    forall i :: 0 <= i < |g.cells| ==> g.cells[i].InRange(|g.positions|)
  }

  /** What `vectorizeText` returns: every cell names existing positions. */
  type Glyph = g: GlyphMesh | WellFormed(g) witness GlyphMesh([], [])

  /** `vectorizeText(str, {font, ...})`, as a parameter: string, then font. */
  type Vectorizer = (string, string) -> Glyph

  /** The object `stringGeometry` caches: the vertex data (standing for the
      buffer made from it), `count` and `bounds = [lo, hi]`. */
  datatype Geometry = Geometry(data: seq<real>, count: nat, lo: (ExtReal, ExtReal), hi: (ExtReal, ExtReal))

  // ---------------------------------------------------------------------------
  // Flattening and bounds
  // ---------------------------------------------------------------------------

  /** Position in the data of coordinate `k` of corner `j` of cell `i`. */
  function Coord(i: int, j: Corner, k: Comp): int {
    6 * i + 2 * j + k
  }

  /** Position in the data of coordinate `k` of the `m`-th emitted point. */
  function PairAt(m: int, k: Comp): int {
    2 * m + k
  }

  /** The six numbers one cell contributes: `x, -y` for each corner. */
  function CellData(c: Cell, positions: seq<Point2>): (d: seq<real>)
    requires c.InRange(|positions|)
    ensures |d| == 6
    ensures forall j: Corner :: d[Coord(0, j, 0)] == positions[c.Index(j)].0 && d[Coord(0, j, 1)] == -positions[c.Index(j)].1
  {
    var p0, p1, p2 := positions[c.i0], positions[c.i1], positions[c.i2];
    [p0.0, -p0.1, p1.0, -p1.1, p2.0, -p2.1]
  }

  /** The data loop of regl-text.js lines 21-34: six numbers per cell, each
      corner's x followed by its negated y. */
  function EmitCells(cells: seq<Cell>, positions: seq<Point2>): (d: seq<real>)
    requires forall i :: 0 <= i < |cells| ==> cells[i].InRange(|positions|)
    ensures |d| == 6 * |cells|
    ensures forall i, j: Corner :: 0 <= i < |cells| && cells[i].InRange(|positions|) ==>
              d[Coord(i, j, 0)] == positions[cells[i].Index(j)].0 && d[Coord(i, j, 1)] == -positions[cells[i].Index(j)].1
  {
    if |cells| == 0 then []
    else
      var n := |cells| - 1;
      var prev := EmitCells(cells[..n], positions);
      var last := CellData(cells[n], positions);
      var d := prev + last;
      assert forall i, j: Corner, k: Comp :: 0 <= i < n ==> d[Coord(i, j, k)] == prev[Coord(i, j, k)];
      assert forall j: Corner, k: Comp :: d[Coord(n, j, k)] == last[Coord(0, j, k)];
      d
  }

  /** `lo` and `hi` are the least and greatest coordinate `k` over the
      first `n` points of `d` (point `m` occupies positions `2m` and
      `2m + 1`), or `Infinity` and `-Infinity` when there is none. */
  ghost predicate IsExtremes(d: seq<real>, k: Comp, n: nat, lo: ExtReal, hi: ExtReal) {
    && 2 * n <= |d|
    && (forall m :: 0 <= m < n ==> lo.Le(Fin(d[PairAt(m, k)])) && Fin(d[PairAt(m, k)]).Le(hi))
    && (n == 0 ==> lo == PosInf && hi == NegInf)
    && (n > 0 ==> (exists m :: 0 <= m < n && lo == Fin(d[PairAt(m, k)])))
    && (n > 0 ==> (exists m :: 0 <= m < n && hi == Fin(d[PairAt(m, k)])))
  }

  /** The running `Math.min`/`Math.max` of regl-text.js lines 19-20, 29-30,
      over the first `n` points. */
  function Extremes(d: seq<real>, k: Comp, n: nat): (e: (ExtReal, ExtReal))
    requires 2 * n <= |d|
    ensures IsExtremes(d, k, n, e.0, e.1)
  {
    if n == 0 then (PosInf, NegInf)
    else
      var prev := Extremes(d, k, n - 1);
      var x := d[PairAt(n - 1, k)];
      var e := (prev.0.MinWith(x), prev.1.MaxWith(x));
      assert forall m :: 0 <= m < n - 1 ==> e.0.Le(Fin(d[PairAt(m, k)])) && Fin(d[PairAt(m, k)]).Le(e.1) by {
        forall m | 0 <= m < n - 1
          ensures e.0.Le(Fin(d[PairAt(m, k)])) && Fin(d[PairAt(m, k)]).Le(e.1)
        {
          LeTransitive(e.0, prev.0, Fin(d[PairAt(m, k)]));
          LeTransitive(Fin(d[PairAt(m, k)]), prev.1, e.1);
        }
      }
      e
  }

  /** regl-text.js lines 13-39 after vectorizing: the cached geometry of one
      glyph. Six numbers per cell, `count` is half their number, so every
      point of the data is drawn, and the bounds are the extremes of those
      points. */
  function BuildGeometry(g: Glyph): (r: Geometry)
    ensures |r.data| == 6 * |g.cells|
    ensures 2 * r.count == |r.data|
    ensures IsExtremes(r.data, 0, r.count, r.lo.0, r.hi.0) && IsExtremes(r.data, 1, r.count, r.lo.1, r.hi.1)
  {
    var d := EmitCells(g.cells, g.positions);
    var count := 3 * |g.cells|;
    var ex := Extremes(d, 0, count);
    var ey := Extremes(d, 1, count);
    Geometry(d, count, (ex.0, ey.0), (ex.1, ey.1))
  }

  /** Corner `j` of cell `i` of a glyph lands at coordinates `6i + 2j` and
      `6i + 2j + 1` of its geometry, with the y axis flipped. */
  lemma GeometryCorners(g: Glyph, i: nat, j: Corner)
    requires i < |g.cells|
    ensures BuildGeometry(g).data[Coord(i, j, 0)] == g.positions[g.cells[i].Index(j)].0
    ensures BuildGeometry(g).data[Coord(i, j, 1)] == -g.positions[g.cells[i].Index(j)].1
  {
    assert g.cells[i].InRange(|g.positions|);
  }

  /** The upper x bound of a geometry is never `Infinity`. */
  lemma HiBelowInfinity(g: Glyph)
    ensures !BuildGeometry(g).hi.0.PosInf?
  {
    var r := BuildGeometry(g);
    if r.count > 0 {
      var m :| 0 <= m < r.count && r.hi.0 == Fin(r.data[PairAt(m, 0)]);
    }
  }

  // ---------------------------------------------------------------------------
  // The geometry cache
  // ---------------------------------------------------------------------------

  /** `geometryCache`: font, then string, to geometry. */
  type Cache = map<string, map<string, Geometry>>

  /** Every cached geometry is the one its font and string vectorize to. */
  ghost predicate Coherent(cache: Cache, vec: Vectorizer) {
    forall f, s :: f in cache && s in cache[f] ==> cache[f][s] == BuildGeometry(vec(s, f))
  }

  /** regl-text.js `stringGeometry`: the geometry of `str` in `font`, the
      updated cache, and whether the vectorizer was called. */
  function StringGeometry(cache: Cache, vec: Vectorizer, str: string, font: string): (r: (Geometry, Cache, bool))
    ensures font in r.1 && str in r.1[font] && r.1[font][str] == r.0
    ensures r.2 <==> !(font in cache && str in cache[font])
    ensures !r.2 ==> r.0 == cache[font][str] && r.1 == cache
    ensures r.2 ==> r.0 == BuildGeometry(vec(str, font))
    ensures r.1.Keys == cache.Keys + {font}
    ensures forall f, s :: f in cache && s in cache[f] ==> f in r.1 && s in r.1[f] && r.1[f][s] == cache[f][s]
    ensures forall f :: f in cache && f != font ==> r.1[f] == cache[f]
  {
    var inner := if font in cache then cache[font] else map[];
    if str in inner then (inner[str], cache, false)
    else
      var g := BuildGeometry(vec(str, font));
      (g, cache[font := inner[str := g]], true)
  }

  /** Memoisation is invisible: from a coherent cache, `stringGeometry`
      returns what vectorizing afresh would give and keeps the cache
      coherent. */
  lemma StringGeometryCoherent(cache: Cache, vec: Vectorizer, str: string, font: string)
    requires Coherent(cache, vec)
    ensures var r := StringGeometry(cache, vec, str, font);
            Coherent(r.1, vec) && r.0 == BuildGeometry(vec(str, font))
  {
    var r := StringGeometry(cache, vec, str, font);
    forall f, s | f in r.1 && s in r.1[f]
      ensures r.1[f][s] == BuildGeometry(vec(s, f))
    {
      if f != font || s != str {
        assert f in cache && s in cache[f] && r.1[f][s] == cache[f][s];
      }
    }
  }

  /** Asking twice for the same string and font returns the identical cached
      geometry without vectorizing again, and leaves the cache as it was. */
  lemma StringGeometryMemoised(cache: Cache, vec: Vectorizer, str: string, font: string)
    ensures var r := StringGeometry(cache, vec, str, font);
            StringGeometry(r.1, vec, str, font) == (r.0, r.1, false)
  {
  }

  // ---------------------------------------------------------------------------
  // drawText
  // ---------------------------------------------------------------------------

  /** `font_ || 'sans-serif'`: a missing or empty font name selects the
      default. */
  function DefaultFont(font: Option<string>): (f: string)
    ensures f != []
    ensures font.Some? && font.value != [] ==> f == font.value
    ensures font == None || font == Some([]) ==> f == "sans-serif"
  {
    if font.Some? && font.value != [] then font.value else "sans-serif"
  }

  /** Exactly three font arguments lay text out in `sans-serif`: none, the
      empty name, and `sans-serif` itself; distinct other names stay
      distinct. */
  lemma FontFallback(font: Option<string>, other: Option<string>)
    ensures DefaultFont(font) == "sans-serif" <==> font in {None, Some([]), Some("sans-serif")}
    ensures font.Some? && other.Some? && font.value != [] && other.value != [] && font != other ==> DefaultFont(font) != DefaultFont(other)
  {
  }

  /** Characters that move the cursor without drawing. */
  predicate IsGlyph(c: char) {
    c != ' ' && c != '\t' && c != '\n'
  }

  /** The positions of the glyph characters of `s`, in string order. */
  function GlyphPositions(s: string): (ps: seq<nat>)
    ensures forall k :: 0 <= k < |ps| ==> ps[k] < |s| && IsGlyph(s[ps[k]])
    ensures forall k, l :: 0 <= k < l < |ps| ==> ps[k] < ps[l]
    ensures forall i :: 0 <= i < |s| && IsGlyph(s[i]) ==> i in ps
  {
    if |s| == 0 then []
    else
      var n := |s| - 1;
      var prev := GlyphPositions(s[..n]);
      assert forall k :: 0 <= k < |prev| ==> s[prev[k]] == s[..n][prev[k]];
      assert forall i :: 0 <= i < n ==> s[i] == s[..n][i];
      if IsGlyph(s[n]) then prev + [n] else prev
  }

  /** The drawing cursor `offset = [x, y]`. `x` becomes `-Infinity` after a
      glyph with no triangles, whose upper x bound is `-Infinity`. */
  datatype Cursor = Cursor(x: ExtReal, y: real)

  /** How far a glyph moves the cursor: `bounds[1][0] + 0.025`. */
  function GlyphAdvance(vec: Vectorizer, font: string, c: char): (a: ExtReal)
    ensures !a.PosInf?
  {
    HiBelowInfinity(vec([c], font));
    BuildGeometry(vec([c], font)).hi.0.Plus(0.025)
  }

  /** One cursor move of regl-text.js lines 51-65. Only a newline changes
      the line, moving down one and back to `x = 0`; a space or tab never
      moves the cursor left; the cursor never reaches `x = Infinity`. */
  function Move(vec: Vectorizer, font: string, c: Cursor, tok: char): (c': Cursor)
    requires !c.x.PosInf?
    ensures !c'.x.PosInf?
    ensures tok == '\n' ==> c' == Cursor(Fin(0.0), c.y - 1.0)
    ensures tok != '\n' ==> c'.y == c.y
    ensures tok == ' ' || tok == '\t' ==> c.x.Le(c'.x)
  {
    if tok == ' ' then Cursor(c.x.Plus(0.2), c.y)
    else if tok == '\t' then Cursor(c.x.Plus(0.4), c.y)
    else if tok == '\n' then Cursor(Fin(0.0), c.y - 1.0)
    else Cursor(c.x.Add(GlyphAdvance(vec, font, tok)), c.y)
  }

  /** The cursor after laying out `s` from `[0, 0]`: never at
      `x = Infinity`, never above the first line, and still on it exactly
      when `s` holds no newline. */
  function CursorAfter(vec: Vectorizer, font: string, s: string): (c: Cursor)
    ensures !c.x.PosInf?
    ensures c.y <= 0.0
    ensures c.y == 0.0 <==> '\n' !in s
  {
    if |s| == 0 then Cursor(Fin(0.0), 0.0)
    else
      var n := |s| - 1;
      assert s == s[..n] + [s[n]];
      Move(vec, font, CursorAfter(vec, font, s[..n]), s[n])
  }

  function NewlineCount(s: string): nat {
    if |s| == 0 then 0 else NewlineCount(s[..|s| - 1]) + (if s[|s| - 1] == '\n' then 1 else 0)
  }

  /** The cursor's y is minus the number of newlines laid out so far. */
  lemma {:induction false} CursorLine(vec: Vectorizer, font: string, s: string)
    ensures CursorAfter(vec, font, s).y == -(NewlineCount(s) as real)
  {
    if |s| > 0 {
      CursorLine(vec, font, s[..|s| - 1]);
    }
  }

  /** After a newline the cursor starts the next line afresh: the x reached
      on a line depends only on that line's characters. */
  lemma {:induction false} LineRestart(vec: Vectorizer, font: string, a: string, b: string)
    requires '\n' !in b
    ensures CursorAfter(vec, font, a + ['\n'] + b) == Cursor(CursorAfter(vec, font, b).x, CursorAfter(vec, font, a).y - 1.0)
    ensures CursorAfter(vec, font, b).y == 0.0
  {
    var nl := a + ['\n'];
    if |b| == 0 {
      assert nl + b == nl;
      CursorAppend(vec, font, a, '\n');
    } else {
      var n := |b| - 1;
      var c, b' := b[n], b[..n];
      assert c in b;
      assert b == b' + [c];
      assert nl + b == (nl + b') + [c];
      LineRestart(vec, font, a, b');
      CursorAppend(vec, font, nl + b', c);
      CursorAppend(vec, font, b', c);
      var before := CursorAfter(vec, font, b');
      MoveKeepsLine(vec, font, before.x, CursorAfter(vec, font, a).y - 1.0, c);
      MoveKeepsLine(vec, font, before.x, 0.0, c);
    }
  }

  /** Laying out one more character is one more move. */
  lemma CursorAppend(vec: Vectorizer, font: string, s: string, c: char)
    ensures CursorAfter(vec, font, s + [c]) == Move(vec, font, CursorAfter(vec, font, s), c)
  {
    assert (s + [c])[..|s|] == s;
  }

  /** Anything but a newline moves the cursor along its line. */
  lemma MoveKeepsLine(vec: Vectorizer, font: string, x: ExtReal, y: real, c: char)
    requires c != '\n' && !x.PosInf?
    ensures Move(vec, font, Cursor(x, y), c) == Cursor(Move(vec, font, Cursor(x, 0.0), c).x, y)
  {
  }

  /** One element of `drawText`'s result: the glyph's buffer and count and a
      snapshot of the cursor. */
  datatype Entry = Entry(position: seq<real>, count: nat, offset: Cursor)

  /** The entry for the glyph at position `p` of `s`: its geometry, and the
      cursor reached by laying out everything before it. */
  function EntryAt(vec: Vectorizer, font: string, s: string, p: nat): Entry
    requires p < |s|
  {
    var g := BuildGeometry(vec([s[p]], font));
    Entry(g.data, g.count, CursorAfter(vec, font, s[..p]))
  }

  /** `entries` are the entries of the glyphs at positions `ps`, in order. */
  ghost predicate Laid(entries: seq<Entry>, vec: Vectorizer, font: string, s: string, ps: seq<nat>) {
    && |entries| == |ps|
    && forall k :: 0 <= k < |ps| ==> ps[k] < |s| && entries[k] == EntryAt(vec, font, s, ps[k])
  }

  lemma CursorStep(vec: Vectorizer, font: string, s: string, i: nat)
    requires i < |s|
    ensures CursorAfter(vec, font, s[..i + 1]) == Move(vec, font, CursorAfter(vec, font, s[..i]), s[i])
  {
    assert s[..i + 1][..i] == s[..i];
  }

  lemma GlyphPositionsStep(s: string, i: nat)
    requires i < |s|
    ensures GlyphPositions(s[..i + 1]) == GlyphPositions(s[..i]) + (if IsGlyph(s[i]) then [i] else [])
  {
    assert s[..i + 1][..i] == s[..i];
  }

  /** Laying out one more character adds its entry exactly when it is a
      glyph. */
  lemma LaidStep(entries: seq<Entry>, vec: Vectorizer, font: string, s: string, i: nat)
    requires i < |s| && Laid(entries, vec, font, s, GlyphPositions(s[..i]))
    ensures Laid(entries + (if IsGlyph(s[i]) then [EntryAt(vec, font, s, i)] else []), vec, font, s, GlyphPositions(s[..i + 1]))
  {
    GlyphPositionsStep(s, i);
  }

  /** `stringGeometry` seen from `drawText`: from a coherent cache, the
      freshly built geometry and a cache that stays coherent. */
  method CachedGeometry(cache: Cache, vec: Vectorizer, str: string, font: string) returns (g: Geometry, cache': Cache)
    requires Coherent(cache, vec)
    ensures Coherent(cache', vec) && g == BuildGeometry(vec(str, font))
  {
    var r := StringGeometry(cache, vec, str, font);
    StringGeometryCoherent(cache, vec, str, font);
    g, cache' := r.0, r.1;
  }

  /** regl-text.js `drawText`: one entry per glyph character, in string
      order, each carrying the cursor as it was before the glyph. */
  method DrawText(cache: Cache, vec: Vectorizer, str: string, font_: Option<string>) returns (entries: seq<Entry>, cache': Cache)
    requires Coherent(cache, vec)
    ensures Coherent(cache', vec)
    ensures Laid(entries, vec, DefaultFont(font_), str, GlyphPositions(str))
  {
    var font := DefaultFont(font_);
    var offset := Cursor(Fin(0.0), 0.0);
    entries := [];
    cache' := cache;
    for i := 0 to |str|
      invariant Coherent(cache', vec)
      invariant offset == CursorAfter(vec, font, str[..i])
      invariant Laid(entries, vec, font, str, GlyphPositions(str[..i]))
    {
      CursorStep(vec, font, str, i);
      LaidStep(entries, vec, font, str, i);
      var tok := str[i];
      if tok == ' ' {
        offset := offset.(x := offset.x.Plus(0.2));
      } else if tok == '\t' {
        offset := offset.(x := offset.x.Plus(0.4));
      } else if tok == '\n' {
        offset := Cursor(Fin(0.0), offset.y - 1.0);
      } else {
        var g;
        g, cache' := CachedGeometry(cache', vec, [tok], font);
        var e := Entry(g.data, g.count, offset);
        assert e == EntryAt(vec, font, str, i);
        entries := entries + [e];
        offset := offset.(x := offset.x.Add(g.hi.0.Plus(0.025)));
      }
    }
    assert str[..|str|] == str;
  }
}
