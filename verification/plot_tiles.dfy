/**
 * The integer skeleton of the plotter's first phase: which 25x25 tiles of the
 * plane exist, and which of them are drawn and saved.
 *
 * An AST `(row, col, (n, ii, jj))` is drawn through its sample points
 * `x = col + k*jj`, `y = row + k*ii` for `k` in `0..n`.  A tile is named by
 * its top-left corner `(i, j)`: `i` runs along x and `j` along y.  The Python
 * names `max_row`/`max_col` are kept although `max_row` bounds x (it is built
 * from columns) and `max_col` bounds y.
 */
module PlotTiles {
  import opened Wrappers
  import opened Sparse
  import opened Arith

  /** `stride_i` and `stride_j` of `print_asts_2d`. */
  const Stride := 25

  datatype Tile = Tile(i: int, j: int)

  /** Python's `range(start, stop, step)` for a positive step. */
  function RangeStep(start: int, stop: int, step: int): (r: seq<int>)
    requires step > 0
    ensures forall k :: 0 <= k < |r| ==> start <= r[k] < stop
    ensures forall a, b :: 0 <= a < b < |r| ==> r[a] < r[b]
    decreases stop - start
  {
    if start >= stop then [] else [start] + RangeStep(start + step, stop, step)
  }

  /** The range holds exactly the values from `start` below `stop` that are
      reached in whole steps. */
  lemma {:induction false} RangeStepMembers(start: int, stop: int, step: int, x: int)
    requires step > 0
    ensures x in RangeStep(start, stop, step) <==> start <= x < stop && (x - start) % step == 0
    decreases stop - start
  {
    if start < stop {
      RangeStepMembers(start + step, stop, step, x);
      assert (x - (start + step)) % step == (x - start) % step by {
        ModShift(x - start, step);
      }
      if start < x < start + step {
        assert (x - start) % step == x - start;
      }
    }
  }

  /** The range is the multiples of `step` from 0 below `stop`. */
  lemma Multiples(stop: int, step: int, x: int)
    requires step > 0
    ensures x in RangeStep(0, stop, step) <==> 0 <= x < stop && x % step == 0
  {
    RangeStepMembers(0, stop, step, x);
  }

  lemma RangeOne(s: int)
    requires s > 0
    ensures RangeStep(0, s, s) == [0]
  {
    assert RangeStep(s, s, s) == [];
  }

  lemma RangeTwo(s: int)
    requires s > 0
    ensures RangeStep(0, 2 * s, s) == [0, s]
  {
    assert RangeStep(2 * s, 2 * s, s) == [];
  }

  /** Sample point `k` of an AST lies in the tile with corner `(i, j)`. */
  predicate Hits(i: int, j: int, si: int, sj: int, ast: Piece, k: int) {
    var c := CellAt(ast, k);
    j <= c.row < j + sj && i <= c.col < i + si
  }

  function InBlockFrom(i: int, j: int, si: int, sj: int, ast: Piece, k: nat): (b: bool)
    ensures b <==> exists m :: k <= m < ast.pat.n && Hits(i, j, si, sj, ast, m)
    decreases ast.pat.n - k
  {
    if k >= ast.pat.n then false
    else Hits(i, j, si, sj, ast, k) || InBlockFrom(i, j, si, sj, ast, k + 1)
  }

  /** `_is_in_matrix_block`: some sample point of the AST lies in the tile.
      Only the points are tested, not the segments drawn between them. */
  function InBlock(i: int, j: int, si: int, sj: int, ast: Piece): (b: bool)
    ensures b <==> exists k :: 0 <= k < ast.pat.n && Hits(i, j, si, sj, ast, k)
  {
    InBlockFrom(i, j, si, sj, ast, 0)
  }

  /** `points_in_canvas`: how many of the ASTs reach the tile. */
  function PointsInCanvas(i: int, j: int, si: int, sj: int, asts: seq<Piece>): (c: nat)
    ensures c <= |asts|
    ensures c > 0 <==> exists q :: 0 <= q < |asts| && InBlock(i, j, si, sj, asts[q])
    decreases |asts|
  {
    if |asts| == 0 then 0
    else
      var rest := PointsInCanvas(i, j, si, sj, asts[1..]);
      assert forall q :: 1 <= q < |asts| ==> asts[q] == asts[1..][q - 1];
      rest + (if InBlock(i, j, si, sj, asts[0]) then 1 else 0)
  }

  /** `_plot_matrix_block` writes `{i}_{j}.pdf` unless the tile is empty and not the origin. */
  function PlotBlock(i: int, j: int, si: int, sj: int, asts: seq<Piece>): (saved: bool)
    ensures saved <==> (i == 0 && j == 0) || exists q :: 0 <= q < |asts| && InBlock(i, j, si, sj, asts[q])
  {
    !(PointsInCanvas(i, j, si, sj, asts) == 0 && !(i == 0 && j == 0))
  }

  /** The tiles of the grid `range(0, max_row, si) x range(0, max_col, sj)`. */
  predicate InGrid(t: Tile, maxRow: int, maxCol: int, si: int, sj: int)
    requires si > 0 && sj > 0
  {
    t.i in RangeStep(0, maxRow, si) && t.j in RangeStep(0, maxCol, sj)
  }

  /** The tile files that exist after the plotting phase. */
  function SavedTiles(asts: seq<Piece>, maxRow: int, maxCol: int, si: int, sj: int): (s: set<Tile>)
    requires si > 0 && sj > 0
    ensures forall t :: t in s <==> InGrid(t, maxRow, maxCol, si, sj) && PlotBlock(t.i, t.j, si, sj, asts)
  {
    set i, j | i in RangeStep(0, maxRow, si) && j in RangeStep(0, maxCol, sj) && PlotBlock(i, j, si, sj, asts)
      :: Tile(i, j)
  }

  /** The origin tile is always saved, so that its page size can be read. */
  lemma OriginSaved(asts: seq<Piece>, maxRow: int, maxCol: int, si: int, sj: int)
    requires si > 0 && sj > 0 && maxRow > 0 && maxCol > 0
    ensures Tile(0, 0) in SavedTiles(asts, maxRow, maxCol, si, sj)
  {
    Multiples(maxRow, si, 0);
    Multiples(maxCol, sj, 0);
  }

  /** Python's `int(a / b)` for a positive divisor: the quotient truncated toward zero. */
  function TruncDiv(a: int, b: int): (q: int)
    requires b > 0
    ensures a >= 0 ==> q * b <= a < q * b + b
    ensures a < 0 ==> a <= q * b < a + b
  {
    if a >= 0 then
      DivMod(a, b);
      a / b
    else
      DivMod(-a, b);
      assert -((-a) / b) * b == -(((-a) / b) * b);
      -((-a) / b)
  }

  /**
   * `stride * int((idx + stride) / stride)`: a multiple of the stride above
   * `idx`; when `idx + stride` is not negative it is the least such multiple.
   */
  function Quantise(idx: int, stride: int): (r: int)
    requires stride > 0
    ensures r % stride == 0 && r > idx
    ensures idx + stride >= 0 ==> r <= idx + stride
  {
    var q := TruncDiv(idx + stride, stride);
    assert stride * q == q * stride;
    DivModUnique(q * stride, stride, q, 0);
    stride * q
  }

  /** `ast[1] + (ast[2] - 1) * ast[4]`: the x of the AST's last sample point. */
  function LastX(a: Piece): int {
    a.col + (a.pat.n - 1) * a.pat.j
  }

  /** `ast[0] + (ast[2] - 1) * ast[3]`: the y of the AST's last sample point. */
  function LastY(a: Piece): int {
    a.row + (a.pat.n - 1) * a.pat.i
  }

  /** Python's `max` of a non-empty list of values `f(asts[q])`. */
  function MaxOf(asts: seq<Piece>, f: Piece -> int): (m: int)
    requires |asts| > 0
    ensures forall q :: 0 <= q < |asts| ==> f(asts[q]) <= m
    ensures exists q :: 0 <= q < |asts| && f(asts[q]) == m
    decreases |asts|
  {
    if |asts| == 1 then f(asts[0])
    else
      var rest := MaxOf(asts[1..], f);
      assert forall q :: 1 <= q < |asts| ==> asts[q] == asts[1..][q - 1];
      if f(asts[0]) >= rest then f(asts[0]) else rest
  }

  datatype Grid = Grid(maxRowIdx: int, maxColIdx: int, maxRow: int, maxCol: int)

  /**
   * The extents of `print_asts_2d` as written: the largest last-point x and
   * y, each quantised up to the stride.  `max([])` raises, so an empty list
   * has no grid.
   */
  function ExtentAsWritten(asts: seq<Piece>): (g: Option<Grid>)
    ensures g.None? <==> |asts| == 0
    ensures g.Some? ==> forall q :: 0 <= q < |asts| ==>
      LastX(asts[q]) <= g.value.maxRowIdx < g.value.maxRow && LastY(asts[q]) <= g.value.maxColIdx < g.value.maxCol
    ensures g.Some? ==> g.value.maxRow % Stride == 0 && g.value.maxCol % Stride == 0
  {
    if |asts| == 0 then None
    else
      var x := MaxOf(asts, LastX);
      var y := MaxOf(asts, LastY);
      Some(Grid(x, y, Quantise(x, Stride), Quantise(y, Stride)))
  }

  /** The farthest x an AST reaches: its first or its last sample point. */
  function FarX(a: Piece): int {
    if a.col >= LastX(a) then a.col else LastX(a)
  }

  function FarY(a: Piece): int {
    if a.row >= LastY(a) then a.row else LastY(a)
  }

  /** The extents taken over every sample point, not only the last one. */
  function Extent(asts: seq<Piece>): (g: Option<Grid>)
    ensures g.None? <==> |asts| == 0
    ensures g.Some? ==> forall q, k :: 0 <= q < |asts| && 0 <= k < asts[q].pat.n ==>
      CellAt(asts[q], k).col < g.value.maxRow && CellAt(asts[q], k).row < g.value.maxCol
    ensures g.Some? ==> g.value.maxRow % Stride == 0 && g.value.maxCol % Stride == 0
  {
    if |asts| == 0 then None
    else
      var x := MaxOf(asts, FarX);
      var y := MaxOf(asts, FarY);
      forall q, k | 0 <= q < |asts| && 0 <= k < asts[q].pat.n
        ensures CellAt(asts[q], k).col <= x && CellAt(asts[q], k).row <= y
      {
        Between(asts[q].col, asts[q].pat.j, k, asts[q].pat.n - 1);
        Between(asts[q].row, asts[q].pat.i, k, asts[q].pat.n - 1);
      }
      Some(Grid(x, y, Quantise(x, Stride), Quantise(y, Stride)))
  }

  /** A point of a progression lies between its first and its last point. */
  lemma Between(c: int, s: int, k: int, last: int)
    requires 0 <= k <= last
    ensures c + k * s <= (if c >= c + last * s then c else c + last * s)
  {
    if s >= 0 {
      assert k * s <= last * s;
    } else {
      assert k * s <= 0;
    }
  }

  /** The corner of the tile that holds a point of the first quadrant. */
  function TileOf(x: int, y: int): (t: Tile)
    requires x >= 0 && y >= 0
    ensures t.i <= x < t.i + Stride && t.j <= y < t.j + Stride
    ensures t.i >= 0 && t.j >= 0 && t.i % Stride == 0 && t.j % Stride == 0
  {
    Tile(Stride * (x / Stride), Stride * (y / Stride))
  }

  /**
   * With the corrected extent, every sample point in the first quadrant lies
   * in a tile of the grid, and that tile is saved.
   */
  lemma GridCovers(asts: seq<Piece>, q: int, k: int)
    requires 0 <= q < |asts| && 0 <= k < asts[q].pat.n
    requires CellAt(asts[q], k).col >= 0 && CellAt(asts[q], k).row >= 0
    ensures var g := Extent(asts).value;
      var t := TileOf(CellAt(asts[q], k).col, CellAt(asts[q], k).row);
      t in SavedTiles(asts, g.maxRow, g.maxCol, Stride, Stride) && Hits(t.i, t.j, Stride, Stride, asts[q], k)
  {
    var g := Extent(asts).value;
    var t := TileOf(CellAt(asts[q], k).col, CellAt(asts[q], k).row);
    Multiples(g.maxRow, Stride, t.i);
    Multiples(g.maxCol, Stride, t.j);
    assert Hits(t.i, t.j, Stride, Stride, asts[q], k);
    assert InBlock(t.i, t.j, Stride, Stride, asts[q]);
  }

  /** A piece along the anti-diagonal whose first point `(0, s)` sits just
      right of a tile border; with `s` the stride it is `(0, 25, (2, 1, -1))`. */
  function Backward(s: int): Piece {
    Piece(0, s, Pattern(2, 1, -1))
  }

  lemma ExtentBackward(s: int)
    requires s == Stride
    ensures ExtentAsWritten([Backward(s)]) == Some(Grid(s - 1, 1, s, s))
  {
    assert LastX(Backward(s)) == s - 1 && LastY(Backward(s)) == 1;
    assert Quantise(s - 1, Stride) == s;
    assert Quantise(1, Stride) == s;
  }

  lemma ExtentBackwardFixed(s: int)
    requires s == Stride
    ensures Extent([Backward(s)]) == Some(Grid(s, 1, 2 * s, s))
  {
    assert FarX(Backward(s)) == s && FarY(Backward(s)) == 1;
    assert Quantise(s, Stride) == 2 * s;
    assert Quantise(1, Stride) == s;
  }

  lemma OutsideOneTile(s: int)
    requires s > 0
    ensures Hits(s, 0, s, s, Backward(s), 0) && !InGrid(Tile(s, 0), s, s, s, s)
    ensures forall t :: InGrid(t, s, s, s, s) ==> !Hits(t.i, t.j, s, s, Backward(s), 0)
  {
    RangeOne(s);
    assert CellAt(Backward(s), 0) == Cell(0, s);
    forall t | InGrid(t, s, s, s, s) ensures !Hits(t.i, t.j, s, s, Backward(s), 0) {
      assert t.i in [0];
    }
  }

  lemma InsideTwoTiles(s: int)
    requires s > 0
    ensures Tile(s, 0) in SavedTiles([Backward(s)], 2 * s, s, s, s)
  {
    RangeOne(s);
    RangeTwo(s);
    assert Hits(s, 0, s, s, Backward(s), 0);
    assert InBlock(s, 0, s, s, [Backward(s)][0]);
    assert PlotBlock(s, 0, s, s, [Backward(s)]);
    assert s in [0, s] && 0 in [0];
    assert InGrid(Tile(s, 0), 2 * s, s, s, s);
  }

  /**
   * As written, the extent of `[(0, 25, 2, 1, -1)]` is taken from the last
   * point `(1, 24)`, so the grid is the single tile `(0, 0)` and the first
   * point `(0, 25)` lies in no tile of it: that point is never drawn.
   */
  lemma FirstPointDropped(s: int)
    requires s == Stride
    ensures ExtentAsWritten([Backward(s)]) == Some(Grid(s - 1, 1, s, s))
    ensures Hits(s, 0, s, s, Backward(s), 0) && !InGrid(Tile(s, 0), s, s, s, s)
    ensures forall t :: InGrid(t, s, s, s, s) ==> !Hits(t.i, t.j, s, s, Backward(s), 0)
  {
    ExtentBackward(s);
    OutsideOneTile(s);
  }

  /** The corrected extent of the same list reaches the tile of that point, and saves it. */
  lemma FirstPointKept(s: int)
    requires s == Stride
    ensures Extent([Backward(s)]) == Some(Grid(s, 1, 2 * s, s))
    ensures Tile(s, 0) in SavedTiles([Backward(s)], 2 * s, s, s, s)
  {
    ExtentBackwardFixed(s);
    InsideTwoTiles(s);
  }
}
