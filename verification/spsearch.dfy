/**
 * The live sparse-matrix pattern search of `src/spsearch.rs`.
 *
 * The matrix is its set of nonzero cells, listed in the order in which the
 * CSR storage iterates them, with one `taken` flag per nonzero (the
 * `CsMat<bool>` of the source). A search covers the nonzeros with disjoint
 * pieces drawn from a pattern list, either cell by cell (CellFirst) or pattern
 * by pattern (PatternFirst), and turns every nonzero left over into a
 * singleton piece `(row, col, (1, 0, 0))`.
 */
module SpSearch {
  import opened Wrappers
  import opened Sparse

  /** Dimensions and nonzero cells of a matrix, in CSR iteration order. */
  datatype Matrix = Matrix(rows: nat, cols: nat, nz: seq<Cell>)

  predicate InBox(m: Matrix, c: Cell) {
    0 <= c.row < m.rows && 0 <= c.col < m.cols
  }

  /** What the CSR storage guarantees: each nonzero once, inside the matrix. */
  ghost predicate ValidMatrix(m: Matrix) {
    Distinct(m.nz) && forall a :: 0 <= a < |m.nz| ==> InBox(m, m.nz[a])
  }

  ghost predicate Covers(m: Matrix, t: Taken) {
    forall a :: 0 <= a < |m.nz| ==> m.nz[a] in t
  }

  /** The two search-priority bits of `SpSearchPatternsFlags`. */
  datatype Flags = Flags(patternFirst: bool, cellFirst: bool)

  datatype SearchError =
    | BadPriorityFlags
    | ShortPattern(index: nat, pattern: Pattern)

  /** `SpSearchMatrix`: the matrix, its flags, the loaded patterns and the pieces found so far. */
  datatype SearchMatrix = SearchMatrix(m: Matrix, taken: Taken, patterns: seq<Pattern>, found: seq<Piece>)

  /** The part of the state a search pass updates. */
  datatype Scan = Scan(taken: Taken, found: seq<Piece>)

  /** `from_file`: every nonzero untaken, no patterns, no pieces. */
  function FromMatrix(m: Matrix): (s: SearchMatrix)
    ensures forall c :: c in s.taken <==> c in m.nz
    ensures forall c :: c in s.taken ==> !s.taken[c]
    ensures s.found == []
  {
    SearchMatrix(m, map c | c in m.nz :: false, [], [])
  }

  /* ---------------------------------------------------------------- */
  /* Loading patterns                                                   */
  /* ---------------------------------------------------------------- */

  /** Index of the first pattern at or after `q` with `n < 2`. */
  function FirstShort(pats: seq<Pattern>, q: nat): (r: Option<nat>)
    requires q <= |pats|
    decreases |pats| - q
    ensures r.None? <==> forall q' :: q <= q' < |pats| ==> pats[q'].n >= 2
    ensures r.Some? ==> q <= r.value < |pats| && pats[r.value].n < 2
                        && forall q' :: q <= q' < r.value ==> pats[q'].n >= 2
  {
    if q == |pats| then None
    else if pats[q].n < 2 then Some(q)
    else FirstShort(pats, q + 1)
  }

  /** The `.filter(|(i,_,_)| *i > 1)` step: patterns of length at least 2. */
  function LongOnly(pats: seq<Pattern>): (r: seq<Pattern>)
    ensures forall q :: 0 <= q < |r| ==> r[q].n > 1
    ensures (forall q :: 0 <= q < |pats| ==> pats[q].n > 1) ==> r == pats
  {
    if |pats| == 0 then []
    else (if pats[0].n > 1 then [pats[0]] else []) + LongOnly(pats[1..])
  }

  /**
   * `load_patterns` without the file reading: the parsed pattern list is
   * rejected at its first pattern with `n < 2` (the source panics there);
   * otherwise it is stored unchanged.
   */
  function LoadPatterns(s: SearchMatrix, pats: seq<Pattern>): (r: Result<SearchMatrix, SearchError>)
    ensures r.Success? <==> forall q :: 0 <= q < |pats| ==> pats[q].n >= 2
    ensures r.Success? ==> r.value == s.(patterns := pats)
    ensures r.Failure? ==> r.error.ShortPattern? && r.error.index < |pats|
                           && pats[r.error.index] == r.error.pattern && r.error.pattern.n < 2
                           && forall q :: 0 <= q < r.error.index ==> pats[q].n >= 2
  {
    match FirstShort(pats, 0)
    case Some(q) => Failure(ShortPattern(q, pats[q]))
    case None => Success(s.(patterns := LongOnly(pats)))
  }

  /* ---------------------------------------------------------------- */
  /* check_pattern                                                      */
  /* ---------------------------------------------------------------- */

  /** The loop `for ii in k..n` of `check_pattern`: every remaining cell is a free nonzero. */
  function FreeFrom(t: Taken, pc: Piece, k: int): (ok: bool)
    decreases pc.pat.n - k
    ensures ok <==> forall k' :: k <= k' < pc.pat.n ==> Free(t, CellAt(pc, k'))
  {
    if k >= pc.pat.n then true
    else Free(t, CellAt(pc, k)) && FreeFrom(t, pc, k + 1)
  }

  /** The last cell `(x + (n-1)*i, y + (n-1)*j)` of a pattern anchored at `c`. */
  function LastCell(c: Cell, p: Pattern): Cell {
    CellAt(Piece(c.row, c.col, p), p.n - 1)
  }

  /**
   * `check_pattern`: can pattern `p` be placed with its first cell at the
   * nonzero `c`? The answer echoes the inputs as a piece.
   */
  function CheckPattern(t: Taken, m: Matrix, c: Cell, p: Pattern): (r: Option<Piece>)
    requires c in t
    ensures t[c] ==> r.None?
    ensures !InBox(m, LastCell(c, p)) ==> r.None?
    ensures r.Some? <==> !t[c] && InBox(m, LastCell(c, p))
                         && forall k :: 1 <= k < p.n ==> Free(t, CellAt(Piece(c.row, c.col, p), k))
    ensures r.Some? ==> r.value == Piece(c.row, c.col, p)
  {
    if t[c] then None
    else
      var last := LastCell(c, p);
      if last.row < 0 || last.row >= m.rows || last.col < 0 || last.col >= m.cols then None
      else if FreeFrom(t, Piece(c.row, c.col, p), 1) then Some(Piece(c.row, c.col, p))
      else None
  }

  /** A piece accepted by `check_pattern` lies on free nonzeros only. */
  lemma CheckPatternCellsFree(t: Taken, m: Matrix, c: Cell, p: Pattern)
    requires c in t
    requires CheckPattern(t, m, c, p).Some?
    ensures forall d :: d in Cells(CheckPattern(t, m, c, p).value) ==> Free(t, d)
  {
    var pc := Piece(c.row, c.col, p);
    forall d | d in Cells(pc)
      ensures Free(t, d)
    {
      var k :| 0 <= k < |Cells(pc)| && Cells(pc)[k] == d;
      if k == 0 {
        assert d == c;
      }
    }
  }

  /* ---------------------------------------------------------------- */
  /* Accepting a piece                                                  */
  /* ---------------------------------------------------------------- */

  /** Mark the cells of an accepted piece taken and append it to the found pieces. */
  function Accept(s: Scan, pc: Piece): Scan
    requires forall d :: d in Cells(pc) ==> d in s.taken
  {
    assert Cells(pc)[0..] == Cells(pc);
    Scan(MarkFrom(s.taken, pc, 0), s.found + [pc])
  }

  /** The bookkeeping invariant: a nonzero is covered by exactly one found piece
      when it is taken, by none when it is not, and nothing else is covered. */
  ghost predicate Accounted(s: Scan) {
    forall d :: CoverCount(s.found, d) == (if d in s.taken && s.taken[d] then 1 else 0)
  }

  /** Every found piece was produced from one of the patterns. */
  ghost predicate FromPatterns(found: seq<Piece>, pats: seq<Pattern>) {
    forall q :: 0 <= q < |found| ==> found[q].pat in pats
  }

  lemma AcceptAccounted(s: Scan, m: Matrix, c: Cell, p: Pattern)
    requires c in s.taken
    requires CheckPattern(s.taken, m, c, p).Some?
    requires Accounted(s)
    ensures Accounted(Accept(s, CheckPattern(s.taken, m, c, p).value))
  {
    var pc := CheckPattern(s.taken, m, c, p).value;
    CheckPatternCellsFree(s.taken, m, c, p);
    var s' := Accept(s, pc);
    assert Cells(pc)[0..] == Cells(pc);
    forall d
      ensures CoverCount(s'.found, d) == (if d in s'.taken && s'.taken[d] then 1 else 0)
    {
      assert s'.found[..|s'.found| - 1] == s.found;
    }
  }

  /* ---------------------------------------------------------------- */
  /* CellFirst                                                          */
  /* ---------------------------------------------------------------- */

  /**
   * The `'pattern_search` loop from pattern `q` on: the first pattern, in
   * list order, that `check_pattern` accepts at `c`.
   */
  function FirstFit(t: Taken, m: Matrix, c: Cell, pats: seq<Pattern>, q: nat): (r: Option<Piece>)
    requires c in t
    requires q <= |pats|
    decreases |pats| - q
    ensures r.None? <==> forall q' :: q <= q' < |pats| ==> CheckPattern(t, m, c, pats[q']).None?
    ensures r.Some? ==> exists q' :: q <= q' < |pats| && CheckPattern(t, m, c, pats[q']) == r
                          && forall q'' :: q <= q'' < q' ==> CheckPattern(t, m, c, pats[q'']).None?
  {
    if q == |pats| then None
    else
      match CheckPattern(t, m, c, pats[q])
      case Some(pc) => Some(pc)
      case None => FirstFit(t, m, c, pats, q + 1)
  }

  /** The CellFirst pass over the nonzeros from position `a` on. */
  function CellFirst(m: Matrix, pats: seq<Pattern>, s: Scan, a: nat): (r: Scan)
    requires a <= |m.nz|
    requires Covers(m, s.taken)
    decreases |m.nz| - a
    ensures r.taken.Keys == s.taken.Keys
    ensures |r.found| >= |s.found| && r.found[..|s.found|] == s.found
  {
    if a == |m.nz| then s
    else
      var s' :=
        match FirstFit(s.taken, m, m.nz[a], pats, 0)
        case None => s
        case Some(pc) => (CheckPatternCellsFree(s.taken, m, m.nz[a], pc.pat); Accept(s, pc));
      var r := CellFirst(m, pats, s', a + 1);
      assert r.found[..|s.found|] == (r.found[..|s'.found|])[..|s.found|];
      r
  }

  lemma {:induction false} CellFirstAccounted(m: Matrix, pats: seq<Pattern>, s: Scan, a: nat)
    requires a <= |m.nz|
    requires Covers(m, s.taken)
    requires Accounted(s) && FromPatterns(s.found, pats)
    ensures Accounted(CellFirst(m, pats, s, a)) && FromPatterns(CellFirst(m, pats, s, a).found, pats)
    decreases |m.nz| - a
  {
    if a < |m.nz| {
      var c := m.nz[a];
      match FirstFit(s.taken, m, c, pats, 0)
      case None =>
        CellFirstAccounted(m, pats, s, a + 1);
      case Some(pc) =>
        var q :| 0 <= q < |pats| && CheckPattern(s.taken, m, c, pats[q]) == Some(pc);
        AcceptAccounted(s, m, c, pats[q]);
        CheckPatternCellsFree(s.taken, m, c, pats[q]);
        var s' := Accept(s, pc);
        assert FromPatterns(s'.found, pats) by {
          assert s'.found == s.found + [pc];
        }
        CellFirstAccounted(m, pats, s', a + 1);
    }
  }

  /* ---------------------------------------------------------------- */
  /* PatternFirst                                                       */
  /* ---------------------------------------------------------------- */

  /** The nonzeros not taken yet, in iteration order (the filtered `nonzero_positions`). */
  function Untaken(nz: seq<Cell>, t: Taken): (r: seq<Cell>)
    requires forall a :: 0 <= a < |nz| ==> nz[a] in t
    ensures forall c :: c in r <==> c in nz && !t[c]
    ensures forall b :: 0 <= b < |r| ==> r[b] in t
  {
    if |nz| == 0 then []
    else (if !t[nz[0]] then [nz[0]] else []) + Untaken(nz[1..], t)
  }

  /** One pattern's pass over the snapshot `cells`, from position `a` on. */
  function PatternPass(m: Matrix, p: Pattern, s: Scan, cells: seq<Cell>, a: nat): (r: Scan)
    requires a <= |cells|
    requires forall b :: 0 <= b < |cells| ==> cells[b] in s.taken
    decreases |cells| - a
    ensures r.taken.Keys == s.taken.Keys
    ensures |r.found| >= |s.found| && r.found[..|s.found|] == s.found
    ensures forall q :: |s.found| <= q < |r.found| ==>
              (r.found[q].pat == p && Cell(r.found[q].row, r.found[q].col) in cells[a..])
  {
    if a == |cells| then s
    else
      TailWithin(cells, a);
      match CheckPattern(s.taken, m, cells[a], p)
      case None => PatternPass(m, p, s, cells, a + 1)
      case Some(pc) =>
        CheckPatternCellsFree(s.taken, m, cells[a], p);
        var r := PatternPass(m, p, Accept(s, pc), cells, a + 1);
        assert r.found[..|s.found|] == (r.found[..|s.found| + 1])[..|s.found|];
        assert r.found[|s.found|] == (r.found[..|s.found| + 1])[|s.found|];
        assert cells[a] == cells[a..][0];
        r
  }

  /** Every cell after position `a` is a cell from position `a` on. */
  lemma TailWithin(cells: seq<Cell>, a: nat)
    requires a < |cells|
    ensures forall c :: c in cells[a + 1..] ==> c in cells[a..]
  {
    assert cells[a + 1..] == cells[a..][1..];
  }

  /** The PatternFirst loop over the patterns from index `q` on. */
  function PatternFirst(m: Matrix, pats: seq<Pattern>, s: Scan, q: nat): (r: Scan)
    requires q <= |pats|
    requires Covers(m, s.taken)
    decreases |pats| - q
    ensures r.taken.Keys == s.taken.Keys
    ensures |r.found| >= |s.found| && r.found[..|s.found|] == s.found
  {
    if q == |pats| then s
    else
      var cells := Untaken(m.nz, s.taken);
      var s' := PatternPass(m, pats[q], s, cells, 0);
      var r := PatternFirst(m, pats, s', q + 1);
      assert r.found[..|s.found|] == (r.found[..|s'.found|])[..|s.found|];
      r
  }

  lemma {:induction false} PatternPassAccounted(m: Matrix, p: Pattern, s: Scan, cells: seq<Cell>, a: nat)
    requires a <= |cells|
    requires forall b :: 0 <= b < |cells| ==> cells[b] in s.taken
    requires Accounted(s)
    ensures Accounted(PatternPass(m, p, s, cells, a))
    decreases |cells| - a
  {
    if a < |cells| {
      match CheckPattern(s.taken, m, cells[a], p)
      case None =>
        PatternPassAccounted(m, p, s, cells, a + 1);
      case Some(pc) =>
        AcceptAccounted(s, m, cells[a], p);
        CheckPatternCellsFree(s.taken, m, cells[a], p);
        PatternPassAccounted(m, p, Accept(s, pc), cells, a + 1);
    }
  }

  lemma {:induction false} PatternFirstAccounted(m: Matrix, pats: seq<Pattern>, s: Scan, q: nat)
    requires q <= |pats|
    requires Covers(m, s.taken)
    requires Accounted(s) && FromPatterns(s.found, pats)
    ensures Accounted(PatternFirst(m, pats, s, q)) && FromPatterns(PatternFirst(m, pats, s, q).found, pats)
    decreases |pats| - q
  {
    if q < |pats| {
      var cells := Untaken(m.nz, s.taken);
      var s' := PatternPass(m, pats[q], s, cells, 0);
      PatternPassAccounted(m, pats[q], s, cells, 0);
      forall q' | 0 <= q' < |s'.found|
        ensures s'.found[q'].pat in pats
      {
        if q' < |s.found| {
          assert s'.found[q'] == s'.found[..|s.found|][q'];
        }
      }
      PatternFirstAccounted(m, pats, s', q + 1);
    }
  }

  /* ---------------------------------------------------------------- */
  /* Leftover nonzeros and the whole search                             */
  /* ---------------------------------------------------------------- */

  /** "Add last nonzeros": one singleton `(row, col, (1, 0, 0))` per untaken nonzero. */
  function Singletons(nz: seq<Cell>, t: Taken): (r: seq<Piece>)
    requires forall a :: 0 <= a < |nz| ==> nz[a] in t
    ensures forall q :: 0 <= q < |r| ==> r[q].pat == Single
  {
    if |nz| == 0 then []
    else
      var c := nz[|nz| - 1];
      Singletons(nz[..|nz| - 1], t) + (if !t[c] then [Piece(c.row, c.col, Single)] else [])
  }

  lemma {:induction false} SingletonsCover(nz: seq<Cell>, t: Taken, d: Cell)
    requires forall a :: 0 <= a < |nz| ==> nz[a] in t
    requires Distinct(nz)
    ensures CoverCount(Singletons(nz, t), d) == (if d in nz && !t[d] then 1 else 0)
    decreases |nz|
  {
    if |nz| > 0 {
      var c := nz[|nz| - 1];
      var pre := nz[..|nz| - 1];
      DistinctLast(nz);
      SingletonsCover(pre, t, d);
      var tail: seq<Piece> := if !t[c] then [Piece(c.row, c.col, Single)] else [];
      assert Singletons(nz, t) == Singletons(pre, t) + tail;
      CoverCountAppend(Singletons(pre, t), tail, d);
      SingleCover(c, d);
      assert CoverCount(tail, d) == (if !t[c] && d == c then 1 else 0);
    }
  }

  /** A distinct sequence is its distinct front and a last element that is not in the front. */
  lemma DistinctLast(nz: seq<Cell>)
    requires Distinct(nz) && |nz| > 0
    ensures var pre := nz[..|nz| - 1];
            && Distinct(pre) && nz[|nz| - 1] !in pre
            && forall d :: d in nz <==> d in pre || d == nz[|nz| - 1]
  {
    var pre := nz[..|nz| - 1];
    assert nz == pre + [nz[|nz| - 1]];
  }

  /** The singleton at `c` covers `c` once and nothing else. */
  lemma SingleCover(c: Cell, d: Cell)
    ensures CoverCount([Piece(c.row, c.col, Single)], d) == if d == c then 1 else 0
  {
    assert Cells(Piece(c.row, c.col, Single)) == [c];
    assert [Piece(c.row, c.col, Single)][..0] == [];
  }

  /** The pass selected by the flags: CellFirst when its bit is set, PatternFirst otherwise. */
  function Pass(m: Matrix, pats: seq<Pattern>, flags: Flags, s: Scan): (r: Scan)
    requires Covers(m, s.taken)
    ensures r.taken.Keys == s.taken.Keys
    ensures |r.found| >= |s.found| && r.found[..|s.found|] == s.found
  {
    if flags.cellFirst then CellFirst(m, pats, s, 0) else PatternFirst(m, pats, s, 0)
  }

  lemma PassAccounted(m: Matrix, pats: seq<Pattern>, flags: Flags, s: Scan)
    requires Covers(m, s.taken)
    requires Accounted(s) && FromPatterns(s.found, pats)
    ensures Accounted(Pass(m, pats, flags, s)) && FromPatterns(Pass(m, pats, flags, s).found, pats)
  {
    if flags.cellFirst {
      CellFirstAccounted(m, pats, s, 0);
    } else {
      PatternFirstAccounted(m, pats, s, 0);
    }
  }

  /**
   * `search_patterns`: panics unless exactly one priority flag is set;
   * otherwise runs the CellFirst or the PatternFirst pass and appends the
   * leftover singletons.
   */
  function SearchPatterns(s: SearchMatrix, flags: Flags): (r: Result<SearchMatrix, SearchError>)
    requires Covers(s.m, s.taken)
    ensures r.Failure? <==> flags.patternFirst == flags.cellFirst
    ensures r.Success? ==> r.value.m == s.m && r.value.patterns == s.patterns
                           && r.value.taken.Keys == s.taken.Keys
  {
    if flags.patternFirst == flags.cellFirst then Failure(BadPriorityFlags)
    else
      var sc := Pass(s.m, s.patterns, flags, Scan(s.taken, s.found));
      Success(s.(taken := sc.taken, found := sc.found + Singletons(s.m.nz, sc.taken)))
  }

  /** `get_piece_list`: the pieces found so far. */
  function GetPieceList(s: SearchMatrix): seq<Piece> {
    s.found
  }

  /**
   * After a search from a fresh matrix, every nonzero lies in exactly one
   * piece of the piece list and no other cell lies in any piece.
   */
  lemma SearchCoversOnce(m: Matrix, pats: seq<Pattern>, flags: Flags)
    requires ValidMatrix(m)
    requires flags.patternFirst != flags.cellFirst
    ensures SearchPatterns(FromMatrix(m).(patterns := pats), flags).Success?
    ensures forall d :: CoverCount(GetPieceList(SearchPatterns(FromMatrix(m).(patterns := pats), flags).value), d)
                        == (if d in m.nz then 1 else 0)
    ensures FromPatterns(GetPieceList(SearchPatterns(FromMatrix(m).(patterns := pats), flags).value), pats + [Single])
  {
    var s := FromMatrix(m).(patterns := pats);
    var sc0 := Scan(s.taken, []);
    FreshAccounted(m);
    var sc := Pass(m, pats, flags, sc0);
    PassAccounted(m, pats, flags, sc0);
    var found := sc.found + Singletons(m.nz, sc.taken);
    assert SearchPatterns(s, flags) == Success(s.(taken := sc.taken, found := found));
    FinishCover(m, pats, sc);
  }

  lemma FreshAccounted(m: Matrix)
    ensures Accounted(Scan(FromMatrix(m).taken, []))
    ensures FromPatterns([], [])
  {
  }

  /** Appending the singletons completes the cover. */
  lemma FinishCover(m: Matrix, pats: seq<Pattern>, sc: Scan)
    requires ValidMatrix(m)
    requires forall c :: c in sc.taken <==> c in m.nz
    requires Accounted(sc) && FromPatterns(sc.found, pats)
    ensures forall d :: CoverCount(sc.found + Singletons(m.nz, sc.taken), d) == (if d in m.nz then 1 else 0)
    ensures FromPatterns(sc.found + Singletons(m.nz, sc.taken), pats + [Single])
  {
    var found := sc.found + Singletons(m.nz, sc.taken);
    forall d
      ensures CoverCount(found, d) == (if d in m.nz then 1 else 0)
    {
      CoverCountAppend(sc.found, Singletons(m.nz, sc.taken), d);
      SingletonsCover(m.nz, sc.taken, d);
    }
    forall q | 0 <= q < |found|
      ensures found[q].pat in pats + [Single]
    {
      if q >= |sc.found| {
        assert found[q] == Singletons(m.nz, sc.taken)[q - |sc.found|];
      }
    }
  }

  /** The pieces of a fresh search never share a cell. */
  lemma SearchPiecesDisjoint(m: Matrix, pats: seq<Pattern>, flags: Flags, a: int, b: int, d: Cell)
    requires ValidMatrix(m)
    requires flags.patternFirst != flags.cellFirst
    requires SearchPatterns(FromMatrix(m).(patterns := pats), flags).Success?
    requires 0 <= a < b < |SearchPatterns(FromMatrix(m).(patterns := pats), flags).value.found|
    ensures var ps := SearchPatterns(FromMatrix(m).(patterns := pats), flags).value.found;
            !(d in Cells(ps[a]) && d in Cells(ps[b]))
  {
    SearchCoversOnce(m, pats, flags);
    CoverOnceDisjoint(SearchPatterns(FromMatrix(m).(patterns := pats), flags).value.found, d, a, b);
  }

  /**
   * With validated patterns whose step is not `(0, 0)`, the pattern lengths of
   * the piece list add up to the number of nonzeros, and the multiset of all
   * covered cells is the set of nonzeros.
   */
  lemma SearchLengthsSumToNnz(m: Matrix, pats: seq<Pattern>, flags: Flags)
    requires ValidMatrix(m)
    requires flags.patternFirst != flags.cellFirst
    requires LoadPatterns(FromMatrix(m), pats).Success?
    requires forall q :: 0 <= q < |pats| ==> NonDegenerate(pats[q])
    ensures var r := SearchPatterns(LoadPatterns(FromMatrix(m), pats).value, flags);
            r.Success? && SumN(r.value.found) == |m.nz|
            && multiset(AllCells(r.value.found)) == multiset(m.nz)
  {
    SearchCoversOnce(m, pats, flags);
    var ps := SearchPatterns(FromMatrix(m).(patterns := pats), flags).value.found;
    forall q | 0 <= q < |ps|
      ensures ps[q].pat.n >= 0 && Distinct(Cells(ps[q]))
    {
      assert ps[q].pat in pats + [Single];
      CellsDistinct(ps[q]);
    }
    PartitionSum(ps, m.nz);
  }
}
