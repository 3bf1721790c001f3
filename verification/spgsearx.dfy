/**
 * The older near-copy of the search, `src/spgsearx.rs`.
 *
 * Its `check_pattern` and `search_patterns` are line for line those of
 * `src/spsearch.rs`, so they are the functions of `SpSearch`; what differs is
 * `load_patterns`, which stores every parsed pattern without rejecting those
 * with `n < 2`. The cover property survives that, the length count does not.
 */
module SpGSearx {
  import opened Wrappers
  import opened Sparse
  import SpSearch

  /** `load_patterns` of this variant: every parsed pattern is kept. */
  function LoadPatterns(s: SpSearch.SearchMatrix, pats: seq<Pattern>): SpSearch.SearchMatrix {
    s.(patterns := pats)
  }

  /**
   * `search_patterns`: panics unless exactly one priority flag is set;
   * otherwise it only appends to the found pieces and keeps the set of
   * nonzeros.
   */
  function SearchPatterns(s: SpSearch.SearchMatrix, flags: SpSearch.Flags): (r: Result<SpSearch.SearchMatrix, SpSearch.SearchError>)
    requires SpSearch.Covers(s.m, s.taken)
    ensures r.Failure? <==> flags.patternFirst == flags.cellFirst
    ensures r.Success? ==> r.value.m == s.m && r.value.taken.Keys == s.taken.Keys
                           && |r.value.found| >= |s.found| && r.value.found[..|s.found|] == s.found
  {
    if flags.patternFirst == flags.cellFirst then Failure(SpSearch.BadPriorityFlags)
    else
      var sc := SpSearch.Pass(s.m, s.patterns, flags, SpSearch.Scan(s.taken, s.found));
      var r := s.(taken := sc.taken, found := sc.found + SpSearch.Singletons(s.m.nz, sc.taken));
      assert r.found[..|s.found|] == sc.found[..|s.found|];
      Success(r)
  }

  /** `get_piece_list`: a copy of the found pieces. */
  function GetPieceList(s: SpSearch.SearchMatrix): seq<Piece> {
    s.found
  }

  /**
   * Even without the `n < 2` check, a search from a fresh matrix covers every
   * nonzero by exactly one piece and covers nothing else.
   */
  lemma SearchCoversOnce(m: SpSearch.Matrix, pats: seq<Pattern>, flags: SpSearch.Flags)
    requires SpSearch.ValidMatrix(m)
    requires flags.patternFirst != flags.cellFirst
    ensures SearchPatterns(LoadPatterns(SpSearch.FromMatrix(m), pats), flags).Success?
    ensures forall d :: CoverCount(GetPieceList(SearchPatterns(LoadPatterns(SpSearch.FromMatrix(m), pats), flags).value), d)
                        == (if d in m.nz then 1 else 0)
  {
    SpSearch.SearchCoversOnce(m, pats, flags);
    assert SearchPatterns(LoadPatterns(SpSearch.FromMatrix(m), pats), flags)
        == SpSearch.SearchPatterns(SpSearch.FromMatrix(m).(patterns := pats), flags);
  }

  /**
   * A pattern with `n < 2` is accepted at every free cell whose "last cell"
   * `(x + (n-1)*i, y + (n-1)*j)` is inside the matrix, marks nothing, and
   * leaves its start cell to become a singleton as well: with the pattern
   * `(-1, 0, 0)` on a 1x1 matrix with one nonzero, the piece list is
   * `[(0,0,(-1,0,0)), (0,0,(1,0,0))]`, whose lengths sum to 0, not to 1.
   */
  lemma ShortPatternSkewsLengths(m: SpSearch.Matrix, p: Pattern)
    requires m == SpSearch.Matrix(1, 1, [Cell(0, 0)]) && p == Pattern(-1, 0, 0)
    ensures var r := SearchPatterns(LoadPatterns(SpSearch.FromMatrix(m), [p]), SpSearch.Flags(false, true));
            r.Success?
            && GetPieceList(r.value) == [Piece(0, 0, p), Piece(0, 0, Single)]
            && SumN(GetPieceList(r.value)) == 0 != |m.nz|
  {
    var t := LoadPatterns(SpSearch.FromMatrix(m), [p]).taken;
    var c := m.nz[0];
    FreshFree(m);
    var pc := Piece(0, 0, p);
    EmptyPatternFits(t, m, c, p);
    assert SpSearch.FirstFit(t, m, c, [p], 0) == Some(pc);
    CellFirstSingle(m, [p], SpSearch.Scan(t, []), pc);
    assert SpSearch.Singletons(m.nz, t) == [Piece(0, 0, Single)] by {
      assert m.nz[..0] == [];
    }
    SumTwo(pc, Piece(0, 0, Single));
  }

  lemma SumTwo(a: Piece, b: Piece)
    ensures SumN([a, b]) == a.pat.n + b.pat.n
  {
    assert [a, b][..1] == [a];
    assert [a][..0] == [];
    assert SumN([a]) == SumN([]) + a.pat.n;
    assert SumN([a, b]) == SumN([a]) + b.pat.n;
  }

  /** In a fresh search state every nonzero is free. */
  lemma FreshFree(m: SpSearch.Matrix)
    ensures forall a :: 0 <= a < |m.nz| ==> Free(SpSearch.FromMatrix(m).taken, m.nz[a])
  {
    forall a | 0 <= a < |m.nz| ensures Free(SpSearch.FromMatrix(m).taken, m.nz[a]) {
      assert m.nz[a] in m.nz;
    }
  }

  /** A pattern of no cells that stays in place fits at every free nonzero inside the matrix. */
  lemma EmptyPatternFits(t: Taken, m: SpSearch.Matrix, c: Cell, p: Pattern)
    requires Free(t, c) && SpSearch.InBox(m, c)
    requires p.n <= 0 && p.i == 0 && p.j == 0
    ensures SpSearch.CheckPattern(t, m, c, p) == Some(Piece(c.row, c.col, p))
  {
    assert SpSearch.LastCell(c, p) == c;
  }

  /** Accepting a piece of no cells records it and marks nothing. */
  lemma AcceptEmpty(s: SpSearch.Scan, pc: Piece)
    requires Len(pc.pat) == 0
    ensures SpSearch.Accept(s, pc) == SpSearch.Scan(s.taken, s.found + [pc])
  {
  }

  /** The cell-first pass over a single nonzero whose first fit has no cells. */
  lemma CellFirstSingle(m: SpSearch.Matrix, pats: seq<Pattern>, s: SpSearch.Scan, pc: Piece)
    requires |m.nz| == 1 && SpSearch.Covers(m, s.taken)
    requires SpSearch.FirstFit(s.taken, m, m.nz[0], pats, 0) == Some(pc) && Len(pc.pat) == 0
    ensures SpSearch.CellFirst(m, pats, s, 0) == SpSearch.Scan(s.taken, s.found + [pc])
  {
    AcceptEmpty(s, pc);
    var s1 := SpSearch.Scan(s.taken, s.found + [pc]);
    assert SpSearch.CellFirst(m, pats, s1, 1) == s1;
  }
}
