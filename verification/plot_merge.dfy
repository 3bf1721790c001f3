/**
 * The merge schedule of `print_asts_2d`, after the tiles are saved: every
 * row of tiles is merged into `row_{j}.pdf`, and the rows are then stacked by
 * a binary log reduction into the output file.
 *
 * PDF pages are modelled as lists of placements: which tile is drawn, and at
 * which offset `(dx, dy)` inside the page.  Translating a page adds to every
 * offset, merging a page appends its placements, and a missing file reads as
 * an empty page (the `os.path.exists` checks).  Widths and heights are
 * abstract positive integers.  The phases run one after the other; the tasks
 * of one phase write distinct files, so they are folded in list order.
 */
module PlotMerge {
  import opened Wrappers
  import opened Sparse
  import opened Arith
  import opened PlotTiles

  /** A file of the temporary directory, or the output file. */
  datatype Key =
    | TileFile(i: int, j: int)   // `{i}_{j}.pdf`
    | RowFile(j: int)            // `row_{j}.pdf`
    | LevelFile(k: int, j: int)  // `row_{k}_{j}.pdf`
    | Output                     // `ast_file_name`

  datatype Placement = Placement(tile: Tile, dx: int, dy: int)

  type Page = seq<Placement>

  type Files = map<Key, Page>

  /** `add_transformation(translate(dx, dy))` followed by a merge. */
  function Shift(p: Page, dx: int, dy: int): (r: Page)
    ensures |r| == |p|
    ensures forall x :: 0 <= x < |p| ==> r[x] == Placement(p[x].tile, p[x].dx + dx, p[x].dy + dy)
  {
    seq(|p|, x requires 0 <= x < |p| => Placement(p[x].tile, p[x].dx + dx, p[x].dy + dy))
  }

  /** A file that does not exist contributes nothing. */
  function Get(fs: Files, key: Key): Page {
    if key in fs then fs[key] else []
  }

  /** How often a tile is drawn on a page. */
  function Count(p: Page, t: Tile): nat
    decreases |p|
  {
    if |p| == 0 then 0 else (if p[0].tile == t then 1 else 0) + Count(p[1..], t)
  }

  lemma {:induction false} CountAppend(a: Page, b: Page, t: Tile)
    ensures Count(a + b, t) == Count(a, t) + Count(b, t)
    decreases |a|
  {
    if |a| == 0 {
      assert a + b == b;
    } else {
      CountAppend(a[1..], b, t);
      assert (a + b)[1..] == a[1..] + b;
    }
  }

  lemma {:induction false} CountShift(p: Page, dx: int, dy: int, t: Tile)
    ensures Count(Shift(p, dx, dy), t) == Count(p, t)
    decreases |p|
  {
    if |p| > 0 {
      CountShift(p[1..], dx, dy, t);
      assert Shift(p, dx, dy)[1..] == Shift(p[1..], dx, dy);
    }
  }

  lemma {:induction false} CountNone(p: Page, t: Tile)
    requires forall x :: 0 <= x < |p| ==> p[x].tile != t
    ensures Count(p, t) == 0
    decreases |p|
  {
    if |p| > 0 {
      CountNone(p[1..], t);
    }
  }

  /** The fixed parameters of one plot: the saved tiles, the strides and the
      size of one tile's page. */
  datatype Layout = Layout(saved: set<Tile>, si: int, sj: int, w: int, h: int)

  predicate ValidLayout(L: Layout, maxRow: int, maxCol: int) {
    L.si > 0 && L.sj > 0 && L.h > 0 && maxCol > 0 && maxCol % L.sj == 0
    && forall t :: t in L.saved ==> OnGrid(t, maxRow, maxCol, L.si, L.sj)
  }

  /** `InGrid` in arithmetic terms: each index a non-negative multiple of its
      stride below the extent. */
  predicate OnGrid(t: Tile, maxRow: int, maxCol: int, si: int, sj: int) {
    0 <= t.i < maxRow && 0 <= t.j < maxCol && si > 0 && sj > 0 && t.i % si == 0 && t.j % sj == 0
  }

  lemma OnGridIff(t: Tile, maxRow: int, maxCol: int, si: int, sj: int)
    requires si > 0 && sj > 0
    ensures InGrid(t, maxRow, maxCol, si, sj) <==> OnGrid(t, maxRow, maxCol, si, sj)
  {
    Multiples(maxRow, si, t.i);
    Multiples(maxCol, sj, t.j);
  }

  /** The row of tiles a tile belongs to. */
  function RowOf(L: Layout, t: Tile): int
    requires L.sj > 0
  {
    t.j / L.sj
  }

  /**
   * A placement of a page that holds the tile rows `lo .. hi-1` stacked
   * downward from height `top`: a saved tile of those rows, at its column's
   * x and at the height of its row.
   */
  ghost predicate Placed(L: Layout, q: Placement, lo: int, hi: int, top: int)
    requires L.si > 0 && L.sj > 0
  {
    q.tile in L.saved && lo <= RowOf(L, q.tile) < hi
    && q.dx == (q.tile.i / L.si) * L.w && q.dy == top - (RowOf(L, q.tile) - lo + 1) * L.h
  }

  /** A page that holds every saved tile of the rows `lo .. hi-1` exactly once, each placed. */
  ghost predicate Band(L: Layout, p: Page, lo: int, hi: int, top: int)
    requires L.si > 0 && L.sj > 0
  {
    (forall x :: 0 <= x < |p| ==> Placed(L, p[x], lo, hi, top))
    && (forall t :: t in L.saved && lo <= RowOf(L, t) < hi ==> Count(p, t) == 1)
  }

  lemma BandEmpty(L: Layout, lo: int, hi: int, top: int)
    requires L.si > 0 && L.sj > 0
    requires forall t :: t in L.saved ==> !(lo <= RowOf(L, t) < hi)
    ensures Band(L, [], lo, hi, top)
  {
  }

  lemma BandShift(L: Layout, p: Page, lo: int, hi: int, top: int, d: int)
    requires L.si > 0 && L.sj > 0
    requires Band(L, p, lo, hi, top)
    ensures Band(L, Shift(p, 0, d), lo, hi, top + d)
  {
    forall t | t in L.saved && lo <= RowOf(L, t) < hi
      ensures Count(Shift(p, 0, d), t) == 1
    {
      CountShift(p, 0, d, t);
    }
  }

  /** Stacking a band of the rows `lo .. mid-1` on top of a band of `mid .. hi-1`. */
  lemma BandJoin(L: Layout, a: Page, b: Page, lo: int, mid: int, hi: int, top: int)
    requires L.si > 0 && L.sj > 0
    requires lo <= mid <= hi
    requires Band(L, a, lo, mid, top) && Band(L, b, mid, hi, top - (mid - lo) * L.h)
    ensures Band(L, a + b, lo, hi, top)
  {
    var p := a + b;
    forall x | 0 <= x < |p| ensures Placed(L, p[x], lo, hi, top) {
      if x >= |a| {
        var r := RowOf(L, p[x].tile);
        assert p[x] == b[x - |a|];
        assert (mid - lo) * L.h + (r - mid + 1) * L.h == (r - lo + 1) * L.h;
      }
    }
    forall t | t in L.saved && lo <= RowOf(L, t) < hi
      ensures Count(p, t) == 1
    {
      CountAppend(a, b, t);
      if RowOf(L, t) < mid {
        CountNone(b, t);
      } else {
        CountNone(a, t);
      }
    }
  }

  // ---------------------------------------------------------------------------
  // Saved tiles and row merges
  // ---------------------------------------------------------------------------

  /** The files after the plotting phase: one page per saved tile, holding that tile. */
  function Plotted(saved: set<Tile>): (fs: Files)
    ensures forall key :: key in fs <==> key.TileFile? && Tile(key.i, key.j) in saved
    ensures forall t :: t in saved ==> fs[TileFile(t.i, t.j)] == [Placement(t, 0, 0)]
  {
    map t | t in saved :: TileFile(t.i, t.j) := [Placement(t, 0, 0)]
  }

  /** The loop of `_merge_matrix_block` from column index `cols[0]` on. */
  function RowFrom(fs: Files, cols: seq<int>, j: int, si: int, w: int): Page
    requires si > 0
    decreases |cols|
  {
    if |cols| == 0 then []
    else
      var key := TileFile(cols[0], j);
      (if key in fs then Shift(fs[key], (cols[0] / si) * w, 0) else []) + RowFrom(fs, cols[1..], j, si, w)
  }

  /** The tile file `(c, j)` as the row merge places it: moved right by `(c / stride_i) * width`. */
  function Slot(fs: Files, c: int, j: int, si: int, w: int): Page
    requires si > 0
  {
    Shift(Get(fs, TileFile(c, j)), (c / si) * w, 0)
  }

  /** The placement comes from the slot of one of the listed columns. */
  predicate FromSlots(fs: Files, cols: seq<int>, j: int, si: int, w: int, pl: Placement)
    requires si > 0
  {
    exists c :: c in cols && pl in Slot(fs, c, j, si, w)
  }

  /**
   * `_merge_matrix_block(j, ...)`: the page written to `row_{j}.pdf`. It holds
   * exactly the placements of the tile files `(i, j)` for `i` in
   * `range(0, max_row, stride_i)`, each moved right by `(i / stride_i) * width`.
   */
  function MergeRow(fs: Files, j: int, si: int, maxRow: int, w: int): (p: Page)
    requires si > 0
    ensures forall x :: 0 <= x < |p| ==> FromSlots(fs, RangeStep(0, maxRow, si), j, si, w, p[x])
    ensures forall c, pl :: c in RangeStep(0, maxRow, si) && pl in Slot(fs, c, j, si, w) ==> pl in p
  {
    RowFromSource(fs, RangeStep(0, maxRow, si), j, si, w);
    RowFrom(fs, RangeStep(0, maxRow, si), j, si, w)
  }

  /** Every placement of the merged row comes from a listed tile file, moved to
      its column, and every placement of a listed tile file arrives. */
  lemma {:induction false} RowFromSource(fs: Files, cols: seq<int>, j: int, si: int, w: int)
    requires si > 0
    ensures forall x :: 0 <= x < |RowFrom(fs, cols, j, si, w)| ==> FromSlots(fs, cols, j, si, w, RowFrom(fs, cols, j, si, w)[x])
    ensures forall c, pl :: c in cols && pl in Slot(fs, c, j, si, w) ==> pl in RowFrom(fs, cols, j, si, w)
    decreases |cols|
  {
    if |cols| > 0 {
      var head := Slot(fs, cols[0], j, si, w);
      var rest := RowFrom(fs, cols[1..], j, si, w);
      RowFromSource(fs, cols[1..], j, si, w);
      assert RowFrom(fs, cols, j, si, w) == head + rest by {
        if TileFile(cols[0], j) !in fs {
          assert head == [];
        }
      }
      forall x | 0 <= x < |head + rest|
        ensures FromSlots(fs, cols, j, si, w, (head + rest)[x])
      {
        if x < |head| {
          assert (head + rest)[x] == head[x];
          assert cols[0] in cols;
        } else {
          var y := x - |head|;
          assert (head + rest)[x] == rest[y];
          assert FromSlots(fs, cols[1..], j, si, w, rest[y]);
          var c :| c in cols[1..] && rest[y] in Slot(fs, c, j, si, w);
          assert c in cols;
        }
      }
      forall c, pl | c in cols && pl in Slot(fs, c, j, si, w)
        ensures pl in head + rest
      {
        if c != cols[0] {
          assert c in cols[1..];
        }
      }
    }
  }

  /** The row merge reads tile files only. */
  lemma {:induction false} RowFromFrame(fs: Files, fs': Files, cols: seq<int>, j: int, si: int, w: int)
    requires si > 0
    requires forall i :: (TileFile(i, j) in fs <==> TileFile(i, j) in fs')
    requires forall i :: TileFile(i, j) in fs ==> fs[TileFile(i, j)] == fs'[TileFile(i, j)]
    ensures RowFrom(fs, cols, j, si, w) == RowFrom(fs', cols, j, si, w)
    decreases |cols|
  {
    if |cols| > 0 {
      RowFromFrame(fs, fs', cols[1..], j, si, w);
    }
  }

  /**
   * Over distinct column indices, the merged row holds the saved tiles of row
   * `j` whose column is listed, once each, at x `(i / si) * w` and y 0.
   */
  lemma {:induction false} RowFromPlaces(L: Layout, cols: seq<int>, j: int)
    requires L.si > 0 && L.sj > 0
    requires forall a, b :: 0 <= a < b < |cols| ==> cols[a] < cols[b]
    ensures var p := RowFrom(Plotted(L.saved), cols, j, L.si, L.w);
      (forall x :: 0 <= x < |p| ==>
         (p[x].tile in L.saved && p[x].tile.j == j && p[x].tile.i in cols
          && p[x].dx == (p[x].tile.i / L.si) * L.w && p[x].dy == 0))
      && (forall t :: Count(p, t) == if t in L.saved && t.j == j && t.i in cols then 1 else 0)
    decreases |cols|
  {
    var fs := Plotted(L.saved);
    if |cols| > 0 {
      RowFromPlaces(L, cols[1..], j);
      var c := cols[0];
      var head: Page := if Tile(c, j) in L.saved then [Placement(Tile(c, j), (c / L.si) * L.w, 0)] else [];
      var rest := RowFrom(fs, cols[1..], j, L.si, L.w);
      RowHead(L, c, j);
      assert RowFrom(fs, cols, j, L.si, L.w) == head + rest;
      assert cols == [c] + cols[1..];
      forall x | 0 <= x < |head + rest|
        ensures (head + rest)[x].tile in L.saved && (head + rest)[x].tile.j == j && (head + rest)[x].tile.i in cols
      {
        if x >= |head| {
          assert (head + rest)[x] == rest[x - |head|];
        }
      }
      forall t ensures Count(head + rest, t) == if t in L.saved && t.j == j && t.i in cols then 1 else 0 {
        CountAppend(head, rest, t);
        if t.i == c {
          assert t.i !in cols[1..];
        }
      }
    }
  }

  /** The page of one column of a row: the saved tile there, moved to its x, or nothing. */
  lemma RowHead(L: Layout, c: int, j: int)
    requires L.si > 0
    ensures var fs := Plotted(L.saved);
      var key := TileFile(c, j);
      (if key in fs then Shift(fs[key], (c / L.si) * L.w, 0) else [])
      == (if Tile(c, j) in L.saved then [Placement(Tile(c, j), (c / L.si) * L.w, 0)] else [])
  {
  }

  lemma RowOfSame(L: Layout, t: Tile, j: int)
    requires L.sj > 0 && t.j % L.sj == 0 && j % L.sj == 0
    ensures RowOf(L, t) == j / L.sj <==> t.j == j
  {
    DivModUnique(t.j, L.sj, t.j / L.sj, 0);
    DivModUnique(j, L.sj, j / L.sj, 0);
  }

  lemma PlacedInRow(L: Layout, q: Placement, j: int)
    requires L.si > 0 && L.sj > 0 && j % L.sj == 0 && q.tile.j % L.sj == 0
    requires q.tile in L.saved && q.tile.j == j && q.dx == (q.tile.i / L.si) * L.w && q.dy == 0
    ensures Placed(L, q, j / L.sj, j / L.sj + 1, L.h)
  {
  }

  /** Every merged row is the band of its single tile row, at height `h`. */
  lemma RowBand(L: Layout, maxRow: int, maxCol: int, j: int)
    requires ValidLayout(L, maxRow, maxCol)
    requires 0 <= j && j % L.sj == 0
    ensures Band(L, MergeRow(Plotted(L.saved), j, L.si, maxRow, L.w), j / L.sj, j / L.sj + 1, L.h)
  {
    var cols := RangeStep(0, maxRow, L.si);
    var p := MergeRow(Plotted(L.saved), j, L.si, maxRow, L.w);
    RowFromPlaces(L, cols, j);
    forall x | 0 <= x < |p| ensures Placed(L, p[x], j / L.sj, j / L.sj + 1, L.h) {
      PlacedInRow(L, p[x], j);
    }
    forall t | t in L.saved && j / L.sj <= RowOf(L, t) < j / L.sj + 1
      ensures Count(p, t) == 1
    {
      RowOfSame(L, t, j);
      Multiples(maxRow, L.si, t.i);
    }
  }

  /** The row-merge phase: `_merge_matrix_block` for every `j` in turn. */
  function MergeRows(fs: Files, js: seq<int>, si: int, maxRow: int, w: int): Files
    requires si > 0
    decreases |js|
  {
    if |js| == 0 then fs
    else MergeRows(fs[RowFile(js[0]) := MergeRow(fs, js[0], si, maxRow, w)], js[1..], si, maxRow, w)
  }

  /** The row-merge phase writes `row_{j}` for every listed `j`, each from the
      tile files alone, and leaves every other file as it was. */
  lemma {:induction false} MergeRowsEffect(fs: Files, js: seq<int>, si: int, maxRow: int, w: int)
    requires si > 0
    ensures var r := MergeRows(fs, js, si, maxRow, w);
      (forall key :: key in r <==> key in fs || (key.RowFile? && key.j in js))
      && (forall j :: j in js ==> r[RowFile(j)] == MergeRow(fs, j, si, maxRow, w))
      && (forall key :: key in fs && !(key.RowFile? && key.j in js) ==> r[key] == fs[key])
    decreases |js|
  {
    if |js| > 0 {
      var fs' := fs[RowFile(js[0]) := MergeRow(fs, js[0], si, maxRow, w)];
      MergeRowsEffect(fs', js[1..], si, maxRow, w);
      forall j | j in js
        ensures MergeRow(fs', j, si, maxRow, w) == MergeRow(fs, j, si, maxRow, w)
      {
        RowFromFrame(fs', fs, RangeStep(0, maxRow, si), j, si, w);
      }
    }
  }

  // ---------------------------------------------------------------------------
  // Log reduction
  // ---------------------------------------------------------------------------

  function Pow2(k: nat): (p: nat)
    ensures p >= 1
  {
    if k == 0 then 1 else 2 * Pow2(k - 1)
  }

  /** `int(np.log2(m))` for a positive integer `m`, as an exact floor. */
  function FloorLog2(m: int): (r: nat)
    requires m >= 1
    ensures Pow2(r) <= m < Pow2(r + 1)
  {
    if m < 2 then 0 else 1 + FloorLog2(m / 2)
  }

  /** The distance between two inputs of level `k`: `(2 ** k) * stride_j`. */
  function Span(sj: int, k: nat): (s: int)
    requires sj > 0
    ensures s >= sj
  {
    Pow2(k) * sj
  }

  /** The file level `k` reads at offset `j`: `row_{j}` for level 0, otherwise
      the output `row_{k-1}_{j}` of the previous level. */
  function Input(k: nat, j: int): Key {
    if k == 0 then RowFile(j) else LevelFile(k - 1, j)
  }

  /** The page `_log_reduction(k, ..., j, ...)` builds: the top input raised by
      `height * 2^k` above the bottom input `j + 2^k * stride_j`. */
  function Merged(fs: Files, k: nat, j: int, sj: int, h: int): Page
    requires sj > 0
  {
    Shift(Get(fs, Input(k, j)), 0, h * Pow2(k)) + Get(fs, Input(k, j + Span(sj, k)))
  }

  /** `_log_reduction`: a middle level writes `row_{k}_{j}`; the last level
      moves its page to the top of the output page and writes the output. */
  function Reduce(fs: Files, k: nat, reductions: int, j: int, sj: int, h: int, th: int): (r: Files)
    requires sj > 0
    ensures k != reductions - 1 ==>
      && (forall key :: key in r <==> key in fs || key == LevelFile(k, j))
      && (forall key :: key in fs && key != LevelFile(k, j) ==> r[key] == fs[key])
      && Stacked(r[LevelFile(k, j)], Get(fs, Input(k, j)), Get(fs, Input(k, j + Span(sj, k))), h * Pow2(k), 0)
    ensures k == reductions - 1 ==>
      && (forall key :: key in r <==> key in fs || key == Output)
      && (forall key :: key in fs && key != Output ==> r[key] == fs[key])
      && Stacked(r[Output], Get(fs, Input(k, j)), Get(fs, Input(k, j + Span(sj, k))), h * Pow2(k), th - h * 2 * Pow2(k))
  {
    var page := Merged(fs, k, j, sj, h);
    MergedStacked(fs, k, j, sj, h);
    if k != reductions - 1 then fs[LevelFile(k, j) := page]
    else
      StackedShift(page, Get(fs, Input(k, j)), Get(fs, Input(k, j + Span(sj, k))), h * Pow2(k), th - h * 2 * Pow2(k));
      fs[Output := Shift(page, 0, th - h * 2 * Pow2(k))]
  }

  /** `out` is `top` raised by `gap` above `bottom`, both then raised by `lift`. */
  predicate Stacked(out: Page, top: Page, bottom: Page, gap: int, lift: int) {
    && |out| == |top| + |bottom|
    && (forall x :: 0 <= x < |top| ==> out[x] == Placement(top[x].tile, top[x].dx, top[x].dy + gap + lift))
    && (forall x :: 0 <= x < |bottom| ==> out[|top| + x] == Placement(bottom[x].tile, bottom[x].dx, bottom[x].dy + lift))
  }

  /** The merged page stacks its top input `height * 2^k` above its bottom input. */
  lemma MergedStacked(fs: Files, k: nat, j: int, sj: int, h: int)
    requires sj > 0
    ensures Stacked(Merged(fs, k, j, sj, h), Get(fs, Input(k, j)), Get(fs, Input(k, j + Span(sj, k))), h * Pow2(k), 0)
  {
    var top, bottom := Get(fs, Input(k, j)), Get(fs, Input(k, j + Span(sj, k)));
    var raised := Shift(top, 0, h * Pow2(k));
    forall x | 0 <= x < |bottom|
      ensures (raised + bottom)[|top| + x] == Placement(bottom[x].tile, bottom[x].dx, bottom[x].dy + 0)
    {
      assert (raised + bottom)[|raised| + x] == bottom[x];
    }
  }

  /** Raising a stacked page raises both halves. */
  lemma StackedShift(page: Page, top: Page, bottom: Page, gap: int, lift: int)
    requires Stacked(page, top, bottom, gap, 0)
    ensures Stacked(Shift(page, 0, lift), top, bottom, gap, lift)
  {
    var out := Shift(page, 0, lift);
    forall x | 0 <= x < |bottom|
      ensures out[|top| + x] == Placement(bottom[x].tile, bottom[x].dx, bottom[x].dy + lift)
    {
      assert page[|top| + x] == Placement(bottom[x].tile, bottom[x].dx, bottom[x].dy + 0);
    }
  }

  /** One level: `_log_reduction` for every listed `j` in turn. */
  function Level(fs: Files, k: nat, reductions: int, js: seq<int>, sj: int, h: int, th: int): Files
    requires sj > 0
    decreases |js|
  {
    if |js| == 0 then fs else Level(Reduce(fs, k, reductions, js[0], sj, h, th), k, reductions, js[1..], sj, h, th)
  }

  /** The offsets of level `k`: `range(0, max_col, stride_j * 2^(k+1))`. */
  function Tasks(k: nat, maxCol: int, sj: int): seq<int>
    requires sj > 0
  {
    RangeStep(0, maxCol, Span(sj, k + 1))
  }

  /** The levels `k .. reductions-1`, one after the other. */
  function Reductions(fs: Files, k: nat, reductions: nat, maxCol: int, sj: int, h: int, th: int): Files
    requires sj > 0
    decreases reductions - k
  {
    if k >= reductions then fs
    else Reductions(Level(fs, k, reductions, Tasks(k, maxCol, sj), sj, h, th), k + 1, reductions, maxCol, sj, h, th)
  }

  /** A middle level writes `row_{k}_{j}` for its offsets, each from the
      files of the previous level, and changes nothing else. */
  lemma {:induction false} LevelEffect(fs: Files, k: nat, reductions: int, js: seq<int>, sj: int, h: int, th: int)
    requires sj > 0 && k != reductions - 1
    ensures var r := Level(fs, k, reductions, js, sj, h, th);
      (forall key :: key in r <==> key in fs || (key.LevelFile? && key.k == k && key.j in js))
      && (forall j :: j in js ==> r[LevelFile(k, j)] == Merged(fs, k, j, sj, h))
      && (forall key :: key in fs && !(key.LevelFile? && key.k == k && key.j in js) ==> r[key] == fs[key])
    decreases |js|
  {
    if |js| > 0 {
      var fs' := Reduce(fs, k, reductions, js[0], sj, h, th);
      LevelEffect(fs', k, reductions, js[1..], sj, h, th);
      forall j | j in js ensures Merged(fs', k, j, sj, h) == Merged(fs, k, j, sj, h) {
        assert Get(fs', Input(k, j)) == Get(fs, Input(k, j));
        assert Get(fs', Input(k, j + Span(sj, k))) == Get(fs, Input(k, j + Span(sj, k)));
      }
    }
  }

  /** The inputs of level `k` exist exactly at the multiples of its span below `max_col`. */
  ghost predicate InputsExist(fs: Files, k: nat, maxCol: int, sj: int)
    requires sj > 0
  {
    forall j :: Input(k, j) in fs <==> 0 <= j < maxCol && j % Span(sj, k) == 0
  }

  /** Each input of level `k` holds the band of its `2^k` tile rows at full height. */
  ghost predicate InputsBanded(L: Layout, fs: Files, k: nat)
    requires L.si > 0 && L.sj > 0
  {
    forall j :: Input(k, j) in fs ==> Band(L, fs[Input(k, j)], j / L.sj, j / L.sj + Pow2(k), L.h * Pow2(k))
  }

  /** No file of level `k` or later exists yet. */
  ghost predicate NotYet(fs: Files, k: nat) {
    (forall key :: key in fs && key.LevelFile? ==> key.k < k) && Output !in fs
  }

  /** What a level finds before it runs. */
  ghost predicate LevelReady(L: Layout, fs: Files, k: nat, maxCol: int)
    requires L.si > 0 && L.sj > 0
  {
    InputsExist(fs, k, maxCol, L.sj) && InputsBanded(L, fs, k) && NotYet(fs, k)
  }

  /** A multiple of `2a` is a multiple of `a`. */
  lemma MultipleHalf(j: int, a: int)
    requires a > 0 && j % (a * 2) == 0
    ensures j % a == 0
  {
    var q := j / (a * 2);
    assert j == q * (a * 2) + j % (a * 2);
    assert j == (2 * q) * a;
    DivModUnique(j, a, 2 * q, 0);
  }

  lemma DivShift(j: int, c: int, sj: int)
    requires sj > 0
    ensures (j + c * sj) / sj == j / sj + c
  {
    var q := j / sj;
    assert j == q * sj + j % sj;
    assert j + c * sj == (q + c) * sj + j % sj;
    DivModUnique(j + c * sj, sj, q + c, j % sj);
  }

  /** Below a multiple of `sj`, a value lies in an earlier row. */
  lemma DivBelow(a: int, b: int, sj: int)
    requires sj > 0 && a < b && b % sj == 0
    ensures a / sj < b / sj
  {
    var qa := a / sj;
    var qb := b / sj;
    assert a == qa * sj + a % sj;
    assert b == qb * sj;
    MulMono(qb, qa, sj);
  }

  /** Every saved tile lies in a row below `maxCol / sj`. */
  lemma SavedRows(L: Layout, maxRow: int, maxCol: int, t: Tile)
    requires ValidLayout(L, maxRow, maxCol) && t in L.saved
    ensures 0 <= RowOf(L, t) < maxCol / L.sj
  {
    DivBelow(t.j, maxCol, L.sj);
    DivMod(t.j, L.sj);
  }

  /** Past the last row that holds tiles, a band is empty. */
  lemma BandPast(L: Layout, maxRow: int, maxCol: int, j2: int, n: int, top: int)
    requires ValidLayout(L, maxRow, maxCol)
    requires j2 >= maxCol && j2 % L.sj == 0
    ensures Band(L, [], j2 / L.sj, j2 / L.sj + n, top)
  {
    forall t | t in L.saved ensures !(j2 / L.sj <= RowOf(L, t) < j2 / L.sj + n) {
      SavedRows(L, maxRow, maxCol, t);
      if maxCol < j2 {
        DivBelow(maxCol, j2, L.sj);
      }
    }
    BandEmpty(L, j2 / L.sj, j2 / L.sj + n, top);
  }

  /** The offsets of level `k` are offsets of the inputs of level `k`. */
  lemma TaskInput(L: Layout, maxCol: int, k: nat, j: int)
    requires L.sj > 0 && j in Tasks(k, maxCol, L.sj)
    ensures 0 <= j < maxCol && j % Span(L.sj, k) == 0
  {
    var step := Span(L.sj, k);
    assert Span(L.sj, k + 1) == step * 2;
    Multiples(maxCol, step * 2, j);
    MultipleHalf(j, step);
  }

  /** The bottom input of a task is the next offset of the previous level. */
  lemma BottomInput(sj: int, k: nat, j: int)
    requires sj > 0 && j % Span(sj, k) == 0
    ensures (j + Span(sj, k)) % Span(sj, k) == 0
    ensures (j + Span(sj, k)) / sj == j / sj + Pow2(k)
    ensures (j + Span(sj, k)) % sj == 0
  {
    var step := Span(sj, k);
    DivModUnique(j, step, j / step, 0);
    DivModUnique(j + Span(sj, k), step, j / step + 1, 0);
    DivShift(j, Pow2(k), sj);
    assert j + Span(sj, k) == (j / step * Pow2(k) + Pow2(k)) * sj;
    DivModUnique(j + Span(sj, k), sj, j / step * Pow2(k) + Pow2(k), 0);
  }

  /** The top half of a task's page: its first input, raised by `2^k` tile heights. */
  lemma TopBand(L: Layout, maxRow: int, maxCol: int, fs: Files, k: nat, j: int)
    requires ValidLayout(L, maxRow, maxCol) && LevelReady(L, fs, k, maxCol)
    requires 0 <= j < maxCol && j % Span(L.sj, k) == 0
    ensures Band(L, Shift(Get(fs, Input(k, j)), 0, L.h * Pow2(k)), j / L.sj, j / L.sj + Pow2(k), L.h * Pow2(k + 1))
  {
    BandShift(L, Get(fs, Input(k, j)), j / L.sj, j / L.sj + Pow2(k), L.h * Pow2(k), L.h * Pow2(k));
    assert L.h * Pow2(k) + L.h * Pow2(k) == L.h * Pow2(k + 1);
  }

  /** The bottom half of a task's page: its second input, which is empty past the grid. */
  lemma BottomBand(L: Layout, maxRow: int, maxCol: int, fs: Files, k: nat, j: int)
    requires ValidLayout(L, maxRow, maxCol) && LevelReady(L, fs, k, maxCol)
    requires 0 <= j && j % Span(L.sj, k) == 0
    ensures Band(L, Get(fs, Input(k, j + Span(L.sj, k))), j / L.sj + Pow2(k), j / L.sj + 2 * Pow2(k), L.h * Pow2(k))
  {
    var j2 := j + Span(L.sj, k);
    BottomInput(L.sj, k, j);
    if j2 >= maxCol {
      BandPast(L, maxRow, maxCol, j2, Pow2(k), L.h * Pow2(k));
    }
  }

  /** Stacking the two halves of a task's page. */
  lemma JoinHalves(L: Layout, fs: Files, k: nat, j: int)
    requires L.si > 0 && L.sj > 0
    requires Band(L, Shift(Get(fs, Input(k, j)), 0, L.h * Pow2(k)), j / L.sj, j / L.sj + Pow2(k), L.h * Pow2(k + 1))
    requires Band(L, Get(fs, Input(k, j + Span(L.sj, k))), j / L.sj + Pow2(k), j / L.sj + 2 * Pow2(k), L.h * Pow2(k))
    ensures Band(L, Merged(fs, k, j, L.sj, L.h), j / L.sj, j / L.sj + Pow2(k + 1), L.h * Pow2(k + 1))
  {
    var lo, mid, hi := j / L.sj, j / L.sj + Pow2(k), j / L.sj + Pow2(k + 1);
    var a := Shift(Get(fs, Input(k, j)), 0, L.h * Pow2(k));
    var b := Get(fs, Input(k, j + Span(L.sj, k)));
    assert L.h * Pow2(k + 1) - (mid - lo) * L.h == L.h * Pow2(k);
    BandJoin(L, a, b, lo, mid, hi, L.h * Pow2(k + 1));
  }

  /** The page a task of level `k` builds is the band of its `2^(k+1)` rows. */
  lemma MergedBand(L: Layout, maxRow: int, maxCol: int, fs: Files, k: nat, j: int)
    requires ValidLayout(L, maxRow, maxCol) && LevelReady(L, fs, k, maxCol)
    requires j in Tasks(k, maxCol, L.sj)
    ensures Band(L, Merged(fs, k, j, L.sj, L.h), j / L.sj, j / L.sj + Pow2(k + 1), L.h * Pow2(k + 1))
  {
    TaskInput(L, maxCol, k, j);
    TopBand(L, maxRow, maxCol, fs, k, j);
    BottomBand(L, maxRow, maxCol, fs, k, j);
    JoinHalves(L, fs, k, j);
  }

  lemma NextExist(fs: Files, k: nat, reductions: int, maxCol: int, sj: int, h: int, th: int)
    requires sj > 0 && NotYet(fs, k) && k != reductions - 1
    ensures InputsExist(Level(fs, k, reductions, Tasks(k, maxCol, sj), sj, h, th), k + 1, maxCol, sj)
  {
    LevelEffect(fs, k, reductions, Tasks(k, maxCol, sj), sj, h, th);
    forall j ensures LevelFile(k, j) !in fs && (j in Tasks(k, maxCol, sj) <==> 0 <= j < maxCol && j % Span(sj, k + 1) == 0) {
      Multiples(maxCol, Span(sj, k + 1), j);
    }
  }

  lemma NextBanded(L: Layout, maxRow: int, maxCol: int, fs: Files, k: nat, reductions: int, th: int)
    requires ValidLayout(L, maxRow, maxCol) && LevelReady(L, fs, k, maxCol)
    requires k != reductions - 1
    ensures InputsBanded(L, Level(fs, k, reductions, Tasks(k, maxCol, L.sj), L.sj, L.h, th), k + 1)
  {
    var r := Level(fs, k, reductions, Tasks(k, maxCol, L.sj), L.sj, L.h, th);
    LevelEffect(fs, k, reductions, Tasks(k, maxCol, L.sj), L.sj, L.h, th);
    forall j | Input(k + 1, j) in r
      ensures Band(L, r[Input(k + 1, j)], j / L.sj, j / L.sj + Pow2(k + 1), L.h * Pow2(k + 1))
    {
      assert LevelFile(k, j) !in fs;
      MergedBand(L, maxRow, maxCol, fs, k, j);
    }
  }

  lemma NextNotYet(fs: Files, k: nat, reductions: int, maxCol: int, sj: int, h: int, th: int)
    requires sj > 0 && NotYet(fs, k) && k != reductions - 1
    ensures NotYet(Level(fs, k, reductions, Tasks(k, maxCol, sj), sj, h, th), k + 1)
  {
    LevelEffect(fs, k, reductions, Tasks(k, maxCol, sj), sj, h, th);
  }

  /** A middle level leaves exactly what the next level needs. */
  lemma LevelStep(L: Layout, maxRow: int, maxCol: int, fs: Files, k: nat, reductions: int, th: int)
    requires ValidLayout(L, maxRow, maxCol) && LevelReady(L, fs, k, maxCol)
    requires k != reductions - 1
    ensures LevelReady(L, Level(fs, k, reductions, Tasks(k, maxCol, L.sj), L.sj, L.h, th), k + 1, maxCol)
  {
    NextExist(fs, k, reductions, maxCol, L.sj, L.h, th);
    NextBanded(L, maxRow, maxCol, fs, k, reductions, th);
    NextNotYet(fs, k, reductions, maxCol, L.sj, L.h, th);
  }

  /** The tasks of a level whose stride reaches past the grid: only `j = 0`. */
  lemma SingleTask(maxCol: int, step: int)
    requires 0 < maxCol <= step
    ensures RangeStep(0, maxCol, step) == [0]
  {
    assert RangeStep(step, maxCol, step) == [];
  }

  /** The last task's page, moved up so that its top meets the top of the output page. */
  lemma OutputBand(L: Layout, page: Page, k: nat, th: int)
    requires L.si > 0 && L.sj > 0
    requires Band(L, page, 0, Pow2(k + 1), L.h * Pow2(k + 1))
    ensures Band(L, Shift(page, 0, th - L.h * 2 * Pow2(k)), 0, Pow2(k + 1), th)
  {
    var d := th - L.h * 2 * Pow2(k);
    assert L.h * Pow2(k + 1) + d == th;
    BandShift(L, page, 0, Pow2(k + 1), L.h * Pow2(k + 1), d);
  }

  /** The last level writes the output: the band of all its rows, moved to the top. */
  lemma LastLevel(L: Layout, maxRow: int, maxCol: int, fs: Files, k: nat, th: int)
    requires ValidLayout(L, maxRow, maxCol) && LevelReady(L, fs, k, maxCol)
    requires maxCol <= Span(L.sj, k + 1)
    ensures var r := Level(fs, k, k + 1, Tasks(k, maxCol, L.sj), L.sj, L.h, th);
      Output in r && Band(L, r[Output], 0, Pow2(k + 1), th)
  {
    SingleTask(maxCol, Span(L.sj, k + 1));
    var page := Merged(fs, k, 0, L.sj, L.h);
    assert Level(fs, k, k + 1, Tasks(k, maxCol, L.sj), L.sj, L.h, th)
      == fs[Output := Shift(page, 0, th - L.h * 2 * Pow2(k))];
    MergedBand(L, maxRow, maxCol, fs, k, 0);
    assert 0 / L.sj == 0;
    OutputBand(L, page, k, th);
  }

  /** The levels from `k` on end with the output file holding all rows below `2^reductions`. */
  lemma {:induction false} ReductionsBand(L: Layout, maxRow: int, maxCol: int, fs: Files, k: nat, reductions: nat, th: int)
    requires ValidLayout(L, maxRow, maxCol) && LevelReady(L, fs, k, maxCol)
    requires k < reductions && maxCol <= Span(L.sj, reductions)
    ensures var r := Reductions(fs, k, reductions, maxCol, L.sj, L.h, th);
      Output in r && Band(L, r[Output], 0, Pow2(reductions), th)
    decreases reductions - k
  {
    var next := Level(fs, k, reductions, Tasks(k, maxCol, L.sj), L.sj, L.h, th);
    if k == reductions - 1 {
      LastLevel(L, maxRow, maxCol, fs, k, th);
    } else {
      LevelStep(L, maxRow, maxCol, fs, k, reductions, th);
      ReductionsBand(L, maxRow, maxCol, next, k + 1, reductions, th);
    }
  }

  lemma RowsExist(L: Layout, maxRow: int, maxCol: int)
    requires ValidLayout(L, maxRow, maxCol)
    ensures InputsExist(MergeRows(Plotted(L.saved), RangeStep(0, maxCol, L.sj), L.si, maxRow, L.w), 0, maxCol, L.sj)
  {
    MergeRowsEffect(Plotted(L.saved), RangeStep(0, maxCol, L.sj), L.si, maxRow, L.w);
    assert Span(L.sj, 0) == L.sj;
    forall j ensures RowFile(j) !in Plotted(L.saved) && (j in RangeStep(0, maxCol, L.sj) <==> 0 <= j < maxCol && j % L.sj == 0) {
      Multiples(maxCol, L.sj, j);
    }
  }

  lemma RowsBanded(L: Layout, maxRow: int, maxCol: int)
    requires ValidLayout(L, maxRow, maxCol)
    ensures InputsBanded(L, MergeRows(Plotted(L.saved), RangeStep(0, maxCol, L.sj), L.si, maxRow, L.w), 0)
  {
    var js := RangeStep(0, maxCol, L.sj);
    var r := MergeRows(Plotted(L.saved), js, L.si, maxRow, L.w);
    MergeRowsEffect(Plotted(L.saved), js, L.si, maxRow, L.w);
    forall j | Input(0, j) in r
      ensures Band(L, r[Input(0, j)], j / L.sj, j / L.sj + Pow2(0), L.h * Pow2(0))
    {
      RowBandAt(L, maxRow, maxCol, j);
    }
  }

  lemma RowBandAt(L: Layout, maxRow: int, maxCol: int, j: int)
    requires ValidLayout(L, maxRow, maxCol) && j in RangeStep(0, maxCol, L.sj)
    ensures Band(L, MergeRow(Plotted(L.saved), j, L.si, maxRow, L.w), j / L.sj, j / L.sj + Pow2(0), L.h * Pow2(0))
  {
    Multiples(maxCol, L.sj, j);
    RowBand(L, maxRow, maxCol, j);
  }

  lemma RowsNotYet(L: Layout, maxRow: int, maxCol: int)
    requires ValidLayout(L, maxRow, maxCol)
    ensures NotYet(MergeRows(Plotted(L.saved), RangeStep(0, maxCol, L.sj), L.si, maxRow, L.w), 0)
  {
    MergeRowsEffect(Plotted(L.saved), RangeStep(0, maxCol, L.sj), L.si, maxRow, L.w);
  }

  /** After the row merges, level 0 finds every `row_{j}` of the grid. */
  lemma RowsReady(L: Layout, maxRow: int, maxCol: int)
    requires ValidLayout(L, maxRow, maxCol)
    ensures LevelReady(L, MergeRows(Plotted(L.saved), RangeStep(0, maxCol, L.sj), L.si, maxRow, L.w), 0, maxCol)
  {
    RowsExist(L, maxRow, maxCol);
    RowsBanded(L, maxRow, maxCol);
    RowsNotYet(L, maxRow, maxCol);
  }

  /** The number of levels, `int(np.log2(max_col / stride_j)) + 1`. */
  function Levels(maxCol: int, sj: int): (reductions: nat)
    requires sj > 0 && maxCol >= sj
    ensures reductions >= 1
  {
    DivMod(maxCol, sj);
    FloorLog2(maxCol / sj) + 1
  }

  /** `print_asts_2d` from the saved tiles on: the row merges, then the levels of the reduction. */
  function Schedule(L: Layout, maxRow: int, maxCol: int, th: int): (r: Files)
    requires L.si > 0 && L.sj > 0 && maxCol >= L.sj
    ensures ValidLayout(L, maxRow, maxCol) ==> Output in r && Drawn(L, r[Output], th)
  {
    var rows := MergeRows(Plotted(L.saved), RangeStep(0, maxCol, L.sj), L.si, maxRow, L.w);
    var reductions := Levels(maxCol, L.sj);
    var r := Reductions(rows, 0, reductions, maxCol, L.sj, L.h, th);
    if ValidLayout(L, maxRow, maxCol) then
      LevelsReach(maxCol, L.sj);
      RowsReady(L, maxRow, maxCol);
      ReductionsBand(L, maxRow, maxCol, rows, 0, reductions, th);
      BandDrawn(L, maxRow, maxCol, r[Output], reductions, th);
      r
    else r
  }

  /**
   * The output page of a plot: every saved tile drawn exactly once and
   * nothing else, tile `(i, j)` at x `(i / stride_i) * width` and at the height
   * of its row counted down from the top, `th - (j / stride_j + 1) * height`.
   */
  ghost predicate Drawn(L: Layout, out: Page, th: int)
    requires L.si > 0 && L.sj > 0
  {
    (forall t :: Count(out, t) == if t in L.saved then 1 else 0)
    && (forall x :: 0 <= x < |out| ==>
          out[x].dx == (out[x].tile.i / L.si) * L.w && out[x].dy == th - (out[x].tile.j / L.sj + 1) * L.h)
  }

  /** `2^reductions` rows of tiles reach past the grid. */
  lemma LevelsReach(maxCol: int, sj: int)
    requires sj > 0 && maxCol > 0 && maxCol % sj == 0
    ensures maxCol >= sj && maxCol <= Span(sj, Levels(maxCol, sj))
  {
    var m := maxCol / sj;
    DivModUnique(maxCol, sj, m, 0);
    MulMono(m, 0, sj);
    MulMono(1, m, sj);
    var reductions := FloorLog2(m) + 1;
    MulMono(m, Pow2(reductions), sj);
  }

  /** Every saved tile lies in one of the first `2^reductions` rows. */
  lemma SavedBelow(L: Layout, maxRow: int, maxCol: int, reductions: nat, t: Tile)
    requires ValidLayout(L, maxRow, maxCol) && t in L.saved
    requires maxCol <= Span(L.sj, reductions)
    ensures 0 <= RowOf(L, t) < Pow2(reductions)
  {
    SavedRows(L, maxRow, maxCol, t);
    DivMod(maxCol, L.sj);
    MulCancelLe(maxCol / L.sj, Pow2(reductions), L.sj);
  }

  /** A band of every row the grid has is the drawn output page. */
  lemma BandDrawn(L: Layout, maxRow: int, maxCol: int, out: Page, reductions: nat, th: int)
    requires ValidLayout(L, maxRow, maxCol) && maxCol <= Span(L.sj, reductions)
    requires Band(L, out, 0, Pow2(reductions), th)
    ensures Drawn(L, out, th)
  {
    forall t ensures Count(out, t) == if t in L.saved then 1 else 0 {
      if t in L.saved {
        SavedBelow(L, maxRow, maxCol, reductions, t);
      } else {
        CountNone(out, t);
      }
    }
  }

  /**
   * The merge schedule draws every saved tile exactly once on the output
   * page, and nothing else: tile `(i, j)` at x `(i / stride_i) * width` and at
   * the height of its row counted down from the top, `target_height - (j / stride_j + 1) * height`.
   */
  lemma ScheduleOutput(L: Layout, maxRow: int, maxCol: int, th: int)
    requires ValidLayout(L, maxRow, maxCol)
    ensures maxCol >= L.sj
    ensures Drawn(L, Get(Schedule(L, maxRow, maxCol, th), Output), th)
  {
    LevelsReach(maxCol, L.sj);
  }

  /** Task `j` of level `k` reads the file of the previous level at offset `j'`. */
  predicate Reads(sj: int, k: nat, j: int, j': int)
    requires sj > 0
  {
    j' == j || j' == j + Span(sj, k)
  }

  /** Distinct multiples of `s` are at least `s` apart. */
  lemma MultiplesApart(a: int, b: int, s: int)
    requires s > 0 && a % s == 0 && b % s == 0
    ensures a < b ==> b - a >= s
  {
    var qa, qb := a / s, b / s;
    assert a == qa * s;
    assert b == qb * s;
    MulMono(qb, qa, s);
    assert (qb - qa) * s == b - a;
    MulMono(1, qb - qa, s);
  }

  /** Two tasks of one level are at least a full span `2^(k+1) * stride_j` apart. */
  lemma TasksApart(maxCol: int, sj: int, k: nat, j1: int, j2: int)
    requires sj > 0 && j1 in Tasks(k, maxCol, sj) && j2 in Tasks(k, maxCol, sj)
    ensures j1 < j2 ==> j2 - j1 >= 2 * Span(sj, k)
  {
    var s := Span(sj, k + 1);
    assert s == 2 * Span(sj, k);
    Multiples(maxCol, s, j1);
    Multiples(maxCol, s, j2);
    MultiplesApart(j1, j2, s);
  }

  /** The task that reads the input at `j'`: its own offset when `j' / span`
      is even, one span below otherwise. */
  lemma ReaderExists(maxCol: int, sj: int, k: nat, j': int) returns (j: int)
    requires sj > 0 && 0 <= j' < maxCol && j' % Span(sj, k) == 0
    ensures j in Tasks(k, maxCol, sj) && Reads(sj, k, j, j')
  {
    var s := Span(sj, k);
    assert Span(sj, k + 1) == 2 * s;
    DivMod(j', s);
    var q := j' / s;
    EvenOdd(q, s);
    MulMono(1, q, s);
    j := if q % 2 == 0 then j' else j' - s;
    DivModUnique(j, 2 * s, q / 2, 0);
    Multiples(maxCol, 2 * s, j);
  }

  /** Rounding a multiple `q * s` down to a multiple of `2 * s`. */
  lemma EvenOdd(q: int, s: int)
    requires s > 0
    ensures (if q % 2 == 0 then q * s else q * s - s) == (q / 2) * (2 * s)
  {
    var half := q / 2;
    assert q == 2 * half + q % 2;
    assert (2 * half) * s == half * (2 * s);
    if q % 2 == 1 {
      assert q * s == (2 * half) * s + s;
    }
  }

  /**
   * Every input of level `k` (an output of level `k - 1`, or a row file for
   * `k = 0`) is read by exactly one task of level `k`: as the top input of
   * the task at its own offset, or as the bottom input of the task one span
   * `2^k * stride_j` below it.
   */
  lemma ConsumedOnce(maxCol: int, sj: int, k: nat, j': int)
    requires sj > 0 && 0 <= j' < maxCol && j' % Span(sj, k) == 0
    ensures exists j :: j in Tasks(k, maxCol, sj) && Reads(sj, k, j, j')
    ensures forall j1, j2 ::
      (j1 in Tasks(k, maxCol, sj) && j2 in Tasks(k, maxCol, sj) && Reads(sj, k, j1, j') && Reads(sj, k, j2, j'))
      ==> j1 == j2
  {
    var j := ReaderExists(maxCol, sj, k, j');
    forall j1, j2 | j1 in Tasks(k, maxCol, sj) && j2 in Tasks(k, maxCol, sj)
      && Reads(sj, k, j1, j') && Reads(sj, k, j2, j')
      ensures j1 == j2
    {
      TasksApart(maxCol, sj, k, j1, j2);
      TasksApart(maxCol, sj, k, j2, j1);
    }
  }

  /** The last level has the single task `j = 0`, which writes the output file. */
  lemma LastLevelSingle(maxCol: int, sj: int)
    requires sj > 0 && maxCol > 0 && maxCol % sj == 0
    ensures Tasks(Levels(maxCol, sj) - 1, maxCol, sj) == [0]
  {
    LevelsReach(maxCol, sj);
    SingleTask(maxCol, Span(sj, Levels(maxCol, sj)));
  }

  // ---------------------------------------------------------------------------
  // The whole plot
  // ---------------------------------------------------------------------------

  /** The grid has at least one tile. */
  predicate NonEmptyGrid(g: Grid) {
    g.maxRow > 0 && g.maxCol > 0
  }

  /** The saved tiles and the page size of one plot; both strides are 25. */
  function LayoutOf(asts: seq<Piece>, g: Grid, w: int, h: int): Layout {
    Layout(SavedTiles(asts, g.maxRow, g.maxCol, Stride, Stride), Stride, Stride, w, h)
  }

  /** `int(height * (max_col_idx + 1) / stride_j)`. */
  function TargetHeight(g: Grid, h: int): int {
    TruncDiv(h * (g.maxColIdx + 1), Stride)
  }

  lemma LayoutValid(asts: seq<Piece>, g: Grid, w: int, h: int)
    requires h > 0 && NonEmptyGrid(g) && g.maxCol % Stride == 0
    ensures ValidLayout(LayoutOf(asts, g, w, h), g.maxRow, g.maxCol)
  {
    forall t | t in LayoutOf(asts, g, w, h).saved ensures OnGrid(t, g.maxRow, g.maxCol, Stride, Stride) {
      OnGridIff(t, g.maxRow, g.maxCol, Stride, Stride);
    }
  }

  /**
   * `print_asts_2d` as written, on the last-point extent: the output page, or
   * None where the source fails, on an empty list (`max` of an empty list)
   * and on an empty grid (`0_0.pdf` is then never written).
   */
  function PrintAsts(asts: seq<Piece>, w: int, h: int): (r: Option<Page>)
    requires h > 0
    ensures r.None? <==> ExtentAsWritten(asts).None? || !NonEmptyGrid(ExtentAsWritten(asts).value)
  {
    match ExtentAsWritten(asts)
    case None => None
    case Some(g) =>
      if !NonEmptyGrid(g) then None
      else
        Some(OutputOn(asts, g, w, h))
  }

  /** `print_asts_2d` with the extent taken over every sample point. */
  function PrintAstsFixed(asts: seq<Piece>, w: int, h: int): (r: Option<Page>)
    requires h > 0
    ensures r.None? <==> Extent(asts).None? || !NonEmptyGrid(Extent(asts).value)
  {
    match Extent(asts)
    case None => None
    case Some(g) =>
      if !NonEmptyGrid(g) then None
      else
        Some(OutputOn(asts, g, w, h))
  }

  /** The output page of a plot on a non-empty grid. */
  function OutputOn(asts: seq<Piece>, g: Grid, w: int, h: int): Page
    requires NonEmptyGrid(g) && g.maxCol % Stride == 0
  {
    LevelsReach(g.maxCol, Stride);
    Get(Schedule(LayoutOf(asts, g, w, h), g.maxRow, g.maxCol, TargetHeight(g, h)), Output)
  }

  lemma OutputOnPlaces(asts: seq<Piece>, g: Grid, w: int, h: int)
    requires h > 0 && NonEmptyGrid(g) && g.maxCol % Stride == 0
    ensures var out := OutputOn(asts, g, w, h);
      Drawn(LayoutOf(asts, g, w, h), out, TargetHeight(g, h))
  {
    var L := LayoutOf(asts, g, w, h);
    var th := TargetHeight(g, h);
    LayoutValid(asts, g, w, h);
    ScheduleOutput(L, g.maxRow, g.maxCol, th);
    assert OutputOn(asts, g, w, h) == Get(Schedule(L, g.maxRow, g.maxCol, th), Output);
  }

  /**
   * The output page draws every saved tile of the last-point grid exactly once
   * and nothing else, tile `(i, j)` at x `(i / 25) * width` and
   * `y = target_height - (j / 25 + 1) * height`.
   */
  lemma PrintAstsPlaces(asts: seq<Piece>, w: int, h: int)
    requires h > 0 && PrintAsts(asts, w, h).Some?
    ensures var g := ExtentAsWritten(asts).value;
      var out := PrintAsts(asts, w, h).value;
      Drawn(LayoutOf(asts, g, w, h), out, TargetHeight(g, h))
  {
    var g := ExtentAsWritten(asts).value;
    assert PrintAsts(asts, w, h).value == OutputOn(asts, g, w, h);
    OutputOnPlaces(asts, g, w, h);
  }

  /** The same layout for the corrected plot, on the full extent. */
  lemma PrintAstsFixedPlaces(asts: seq<Piece>, w: int, h: int)
    requires h > 0 && PrintAstsFixed(asts, w, h).Some?
    ensures var g := Extent(asts).value;
      var out := PrintAstsFixed(asts, w, h).value;
      Drawn(LayoutOf(asts, g, w, h), out, TargetHeight(g, h))
  {
    var g := Extent(asts).value;
    assert PrintAstsFixed(asts, w, h).value == OutputOn(asts, g, w, h);
    OutputOnPlaces(asts, g, w, h);
  }

  /**
   * With the corrected extent every sample point of every AST in the first
   * quadrant is drawn: the tile that holds it appears exactly once on the page.
   */
  lemma PrintAstsCovers(asts: seq<Piece>, w: int, h: int, q: int, k: int)
    requires h > 0 && PrintAstsFixed(asts, w, h).Some?
    requires 0 <= q < |asts| && 0 <= k < asts[q].pat.n
    requires CellAt(asts[q], k).col >= 0 && CellAt(asts[q], k).row >= 0
    ensures var t := TileOf(CellAt(asts[q], k).col, CellAt(asts[q], k).row);
      Count(PrintAstsFixed(asts, w, h).value, t) == 1 && Hits(t.i, t.j, Stride, Stride, asts[q], k)
  {
    GridCovers(asts, q, k);
    PrintAstsFixedPlaces(asts, w, h);
  }

  /** A drawn page holds a tile once when it is saved and never otherwise. */
  lemma DrawnCount(L: Layout, out: Page, th: int, t: Tile)
    requires L.si > 0 && L.sj > 0 && Drawn(L, out, th)
    ensures Count(out, t) == if t in L.saved then 1 else 0
  {
  }

  /** As written, the page for `[(0, 25, 2, 1, -1)]` never draws tile `(25, 0)`. */
  lemma PrintAstsMissesTile(w: int, h: int)
    requires h > 0
    ensures PrintAsts([Backward(Stride)], w, h).Some?
    ensures Count(PrintAsts([Backward(Stride)], w, h).value, Tile(Stride, 0)) == 0
  {
    var asts := [Backward(Stride)];
    var g := Grid(Stride - 1, 1, Stride, Stride);
    assert ExtentAsWritten(asts) == Some(g) by { ExtentBackward(Stride); }
    assert Tile(Stride, 0) !in SavedTiles(asts, g.maxRow, g.maxCol, Stride, Stride) by {
      OutsideOneTile(Stride);
    }
    assert PrintAsts(asts, w, h) == Some(OutputOn(asts, g, w, h));
    OutputOnPlaces(asts, g, w, h);
    DrawnCount(LayoutOf(asts, g, w, h), OutputOn(asts, g, w, h), TargetHeight(g, h), Tile(Stride, 0));
  }

  /** Corrected, the page for `[(0, 25, 2, 1, -1)]` draws tile `(25, 0)` once. */
  lemma PrintAstsFixedHasTile(w: int, h: int)
    requires h > 0
    ensures PrintAstsFixed([Backward(Stride)], w, h).Some?
    ensures Count(PrintAstsFixed([Backward(Stride)], w, h).value, Tile(Stride, 0)) == 1
  {
    var asts := [Backward(Stride)];
    var g := Grid(Stride, 1, 2 * Stride, Stride);
    assert Extent(asts) == Some(g) by { ExtentBackwardFixed(Stride); }
    assert Tile(Stride, 0) in SavedTiles(asts, g.maxRow, g.maxCol, Stride, Stride) by {
      InsideTwoTiles(Stride);
    }
    assert PrintAstsFixed(asts, w, h) == Some(OutputOn(asts, g, w, h));
    OutputOnPlaces(asts, g, w, h);
    DrawnCount(LayoutOf(asts, g, w, h), OutputOn(asts, g, w, h), TargetHeight(g, h), Tile(Stride, 0));
  }

  /**
   * On `[(0, 25, 2, 1, -1)]` the first point `(25, 0)` lies in tile
   * `(25, 0)`, which the page as written never draws and the corrected page
   * draws once.
   */
  lemma PrintAstsDropsFirstPoint(w: int, h: int)
    requires h > 0
    ensures Hits(Stride, 0, Stride, Stride, Backward(Stride), 0)
    ensures PrintAsts([Backward(Stride)], w, h).Some?
    ensures Count(PrintAsts([Backward(Stride)], w, h).value, Tile(Stride, 0)) == 0
    ensures PrintAstsFixed([Backward(Stride)], w, h).Some?
    ensures Count(PrintAstsFixed([Backward(Stride)], w, h).value, Tile(Stride, 0)) == 1
  {
    FirstPointDropped(Stride);
    PrintAstsMissesTile(w, h);
    PrintAstsFixedHasTile(w, h);
  }
}
