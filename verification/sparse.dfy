/**
 * The vocabulary shared by the sparse-matrix searches: cells, patterns,
 * pieces, the cells a piece covers, and how often a list of pieces covers
 * one cell.
 *
 * A pattern `(n, i, j)` is an arithmetic progression of `n` cells with step
 * `(i, j)`; a piece `(row, col, pattern)` anchors a pattern at a cell.
 * Rust's `i32`/`usize` fields are modelled as unbounded integers.
 */
module Sparse {

  datatype Cell = Cell(row: int, col: int)

  datatype Pattern = Pattern(n: int, i: int, j: int)

  datatype Piece = Piece(row: int, col: int, pat: Pattern)

  /** The pattern of a leftover nonzero, `(1, 0, 0)`. */
  const Single := Pattern(1, 0, 0)

  /** The `k`-th cell of a piece, `(row + k*i, col + k*j)`. */
  function CellAt(p: Piece, k: int): Cell {
    Cell(p.row + k * p.pat.i, p.col + k * p.pat.j)
  }

  /** Number of cells a pattern visits: the Rust ranges `0..n` are empty for `n <= 0`. */
  function Len(p: Pattern): nat {
    if p.n > 0 then p.n else 0
  }

  /** The cells of a piece, in the order `k = 0 .. n-1`. */
  function Cells(p: Piece): (cs: seq<Cell>)
    ensures |cs| == Len(p.pat)
    ensures forall k :: 0 <= k < |cs| ==> cs[k] == CellAt(p, k)
  {
    seq(Len(p.pat), k => CellAt(p, k))
  }

  /** A "taken"/"found" flag per nonzero, as the `CsMat<bool>` of the searches holds it. */
  type Taken = map<Cell, bool>

  /** A nonzero whose flag is still clear. */
  predicate Free(t: Taken, c: Cell) {
    c in t && !t[c]
  }

  /** The loop `for ii in k..n { *pos_val = true }` that marks a piece's cells taken. */
  function MarkFrom(t: Taken, pc: Piece, k: nat): (t': Taken)
    requires k <= Len(pc.pat)
    requires forall d :: d in Cells(pc)[k..] ==> d in t
    decreases Len(pc.pat) - k
    ensures t'.Keys == t.Keys
    ensures forall d :: d in t' ==> t'[d] == (t[d] || d in Cells(pc)[k..])
  {
    if k == Len(pc.pat) then t
    else
      assert Cells(pc)[k..] == [CellAt(pc, k)] + Cells(pc)[k + 1..];
      MarkFrom(t[CellAt(pc, k) := true], pc, k + 1)
  }

  /** Marks every cell of a piece. */
  function MarkPiece(t: Taken, pc: Piece): (t': Taken)
    requires forall d :: d in Cells(pc) ==> d in t
    ensures t'.Keys == t.Keys
    ensures forall d :: d in t' ==> t'[d] == (t[d] || d in Cells(pc))
  {
    assert Cells(pc)[0..] == Cells(pc);
    MarkFrom(t, pc, 0)
  }

  /** A pattern whose cells are pairwise distinct: at most one cell, or a nonzero step. */
  predicate NonDegenerate(p: Pattern) {
    p.n <= 1 || p.i != 0 || p.j != 0
  }

  predicate Distinct<T(==)>(s: seq<T>) {
    forall a, b | 0 <= a < b < |s| :: s[a] != s[b]
  }

  lemma {:induction false} MulCancel(a: int, b: int, s: int)
    requires s != 0
    requires a * s == b * s
    ensures a == b
  {
    assert (a - b) * s == a * s - b * s;
  }

  /** A non-degenerate piece never visits a cell twice. */
  lemma CellsDistinct(p: Piece)
    requires NonDegenerate(p.pat)
    ensures Distinct(Cells(p))
  {
    var cs := Cells(p);
    forall a, b | 0 <= a < b < |cs|
      ensures cs[a] != cs[b]
    {
      if cs[a] == cs[b] {
        if p.pat.i != 0 {
          MulCancel(a, b, p.pat.i);
        } else {
          MulCancel(a, b, p.pat.j);
        }
      }
    }
  }

  /** How many pieces of `ps` cover cell `c`. */
  function CoverCount(ps: seq<Piece>, c: Cell): nat {
    if |ps| == 0 then 0
    else CoverCount(ps[..|ps| - 1], c) + (if c in Cells(ps[|ps| - 1]) then 1 else 0)
  }

  lemma {:induction false} CoverCountAppend(a: seq<Piece>, b: seq<Piece>, c: Cell)
    ensures CoverCount(a + b, c) == CoverCount(a, c) + CoverCount(b, c)
    decreases |b|
  {
    if |b| == 0 {
      assert a + b == a;
    } else {
      assert (a + b)[..|a + b| - 1] == a + b[..|b| - 1];
      CoverCountAppend(a, b[..|b| - 1], c);
    }
  }

  /** A cell that some piece of the list covers has a positive cover count. */
  lemma {:induction false} CoverCountPositive(ps: seq<Piece>, c: Cell, a: int)
    requires 0 <= a < |ps| && c in Cells(ps[a])
    ensures CoverCount(ps, c) >= 1
    decreases |ps|
  {
    if a < |ps| - 1 {
      CoverCountPositive(ps[..|ps| - 1], c, a);
    }
  }

  /** A cell covered at most once lies in at most one piece of the list. */
  lemma {:induction false} CoverOnceDisjoint(ps: seq<Piece>, c: Cell, a: int, b: int)
    requires CoverCount(ps, c) <= 1
    requires 0 <= a < b < |ps|
    ensures !(c in Cells(ps[a]) && c in Cells(ps[b]))
    decreases |ps|
  {
    var pre := ps[..|ps| - 1];
    if b < |ps| - 1 {
      CoverOnceDisjoint(pre, c, a, b);
    } else if c in Cells(ps[a]) && c in Cells(ps[b]) {
      CoverCountPositive(pre, c, a);
    }
  }

  /** All cells of all pieces, piece after piece. */
  function AllCells(ps: seq<Piece>): seq<Cell> {
    if |ps| == 0 then [] else AllCells(ps[..|ps| - 1]) + Cells(ps[|ps| - 1])
  }

  /** Sum of the pattern lengths `n` of a piece list. */
  function SumN(ps: seq<Piece>): int {
    if |ps| == 0 then 0 else SumN(ps[..|ps| - 1]) + ps[|ps| - 1].pat.n
  }

  lemma DistinctMultiplicity<T>(s: seq<T>, x: T)
    requires Distinct(s)
    ensures multiset(s)[x] == if x in s then 1 else 0
  {
    if |s| > 0 {
      var t := s[..|s| - 1];
      assert s == t + [s[|s| - 1]];
      assert Distinct(t);
      DistinctMultiplicity(t, x);
    }
  }

  /** A sequence in which nothing occurs twice is duplicate-free. */
  lemma MultiplicityDistinct<T>(s: seq<T>)
    requires forall x :: multiset(s)[x] <= 1
    ensures Distinct(s)
  {
    forall a, b | 0 <= a < b < |s|
      ensures s[a] != s[b]
    {
      assert s == s[..a] + [s[a]] + s[a + 1..b] + [s[b]] + s[b + 1..];
      assert multiset(s)[s[a]] >= multiset([s[a]])[s[a]] + multiset([s[b]])[s[a]];
    }
  }

  /** With pieces that never visit a cell twice, the multiplicity of a cell in
      `AllCells` is its cover count. */
  lemma {:induction false} AllCellsCount(ps: seq<Piece>, c: Cell)
    requires forall q :: 0 <= q < |ps| ==> Distinct(Cells(ps[q]))
    ensures multiset(AllCells(ps))[c] == CoverCount(ps, c)
    decreases |ps|
  {
    if |ps| > 0 {
      AllCellsCount(ps[..|ps| - 1], c);
      DistinctMultiplicity(Cells(ps[|ps| - 1]), c);
    }
  }

  lemma {:induction false} AllCellsLength(ps: seq<Piece>)
    requires forall q :: 0 <= q < |ps| ==> ps[q].pat.n >= 0
    ensures |AllCells(ps)| == SumN(ps)
    decreases |ps|
  {
    if |ps| > 0 {
      AllCellsLength(ps[..|ps| - 1]);
    }
  }

  /**
   * A piece list that covers every cell of a duplicate-free list `nz` exactly
   * once and nothing else, made of pieces with `n >= 0` that never visit a
   * cell twice, has total length `|nz|`.
   */
  lemma PartitionSum(ps: seq<Piece>, nz: seq<Cell>)
    requires Distinct(nz)
    requires forall q :: 0 <= q < |ps| ==> ps[q].pat.n >= 0 && Distinct(Cells(ps[q]))
    requires forall c :: CoverCount(ps, c) == (if c in nz then 1 else 0)
    ensures multiset(AllCells(ps)) == multiset(nz)
    ensures SumN(ps) == |nz|
  {
    forall c
      ensures multiset(AllCells(ps))[c] == multiset(nz)[c]
    {
      AllCellsCount(ps, c);
      DistinctMultiplicity(nz, c);
    }
    assert multiset(AllCells(ps)) == multiset(nz);
    AllCellsLength(ps);
    assert |multiset(AllCells(ps))| == |AllCells(ps)|;
  }
}
