/**
 * `src/spfgen.rs`: turns the searched piece list ("ASTs") into one-dimensional
 * uwc triples, one per piece.
 */
module SpfGen {
  import opened Wrappers
  import opened Sparse
  import opened Utils

  datatype SpfGen = SpfGen(astList: seq<Piece>, uwcList: seq<Uwc>)

  /**
   * `ast_to_uwc`: the order-1 hyperrectangle encoding of the piece's pattern,
   * `U = [[-1], [1]]`, `w = [n-1, 0]`, `c = [i, j]`, which decodes at the
   * piece's origin to the piece itself.
   */
  function AstToUwc(ast: Piece): (e: Uwc)
    ensures IsHyperrectangleU(e.u, 1) && IsHyperrectangleW(e.w, [ast.pat]) && IsHyperrectangleC(e.c, [ast.pat])
    ensures OrigUwcToPiece1d(OriginUwc(ast.row, ast.col, e)) == ast
  {
    Uwc([[-1], [1]], [ast.pat.n - 1, 0], [ast.pat.i, ast.pat.j])
  }

  /** `SPFGen::from_piece_list`: keeps the piece list and encodes each piece in order. */
  function FromPieceList(astList: seq<Piece>): (g: SpfGen)
    ensures g.astList == astList && |g.uwcList| == |astList|
  {
    SpfGen(astList, seq(|astList|, k requires 0 <= k < |astList| => AstToUwc(astList[k])))
  }

  /** The encoding forgets where the piece is: only the pattern matters. */
  lemma AstToUwcIgnoresPosition(a: Piece, b: Piece)
    ensures AstToUwc(a) == AstToUwc(b) <==> a.pat == b.pat
  {
    if AstToUwc(a) == AstToUwc(b) {
      assert AstToUwc(a).w[0] == AstToUwc(b).w[0];
      assert AstToUwc(a).c[0] == AstToUwc(b).c[0];
      assert AstToUwc(a).c[1] == AstToUwc(b).c[1];
    }
  }

  /** Encoding a piece and decoding it again at the same origin gives the piece back. */
  lemma AstRoundTrip(ast: Piece)
    ensures |AstToUwc(ast).w| >= 1 && |AstToUwc(ast).c| >= 2
    ensures OrigUwcToPiece1d(OriginUwc(ast.row, ast.col, AstToUwc(ast))) == ast
  {
  }

  /** Every encoded entry of a generator decodes, at its piece's origin, to that piece. */
  lemma FromPieceListRoundTrip(astList: seq<Piece>, k: int)
    requires 0 <= k < |astList|
    ensures var g := FromPieceList(astList);
            |g.uwcList[k].w| >= 1 && |g.uwcList[k].c| >= 2
            && OrigUwcToPiece1d(OriginUwc(g.astList[k].row, g.astList[k].col, g.uwcList[k])) == astList[k]
  {
    AstRoundTrip(astList[k]);
  }

  /**
   * The hull of an encoded piece enumerates the offsets `0 .. n-1`, so mapping
   * each offset to its cell yields exactly the cells of the piece.
   */
  lemma AstHullIsPieceCells(ast: Piece)
    ensures var e := AstToUwc(ast);
            var hull := ConvexHull1d(e.w);
            && |hull| == Len(ast.pat)
            && (forall t :: 0 <= t < |hull| ==> hull[t] == [t])
            && seq(|hull|, t requires 0 <= t < |hull| => CellAt(ast, hull[t][0])) == Cells(ast)
  {
    var e := AstToUwc(ast);
    var hull := ConvexHull1d(e.w);
    var vals := Range(0, ast.pat.n - 1);
    assert hull == seq(|vals|, t requires 0 <= t < |vals| => [vals[t]]);
  }

  /** `convex_hull_hyperrectangle_nd` hands a 1D encoding to `convex_hull_1d`. */
  method AstHull(ast: Piece, dense: bool) returns (hull: seq<seq<int>>)
    ensures |hull| == Len(ast.pat)
    ensures forall t :: 0 <= t < |hull| ==> hull[t] == [t]
  {
    var e := AstToUwc(ast);
    var r := ConvexHullHyperrectangleNd(e.u, e.w, dense);
    hull := r.value;
    AstHullIsPieceCells(ast);
  }
}
