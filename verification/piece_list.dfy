/**
 * Writing the pieces out after the priority search: `get_piece_list` of
 * `spisearx` (on a copy of the exploration matrix) and `print_pieces` of
 * `spsearx` (on the matrix itself), the list each writes, and the matrix
 * `print_pieces` leaves.
 */
module PieceList {
  import opened Wrappers
  import opened Sparse
  import opened PrioSearch

  /**
   * The traversal of `get_piece_list` (`spisearx`, on a copy of the matrix)
   * and `print_pieces` (`spsearx`, on the matrix itself) from the nonzero
   * `nz[i]` on: an already written cell is skipped, a free one is written as
   * the single-cell piece `(1, 0, 0)`, and a held one is written as its
   * pattern, after which every cell of its piece is marked written. The piece
   * is anchored at the visited cell, as the code does, or, with `atSource`,
   * at the piece's source cell. `None` where the code panics: an `unwrap` on
   * a missing pattern, or `find_locations(..)[0]` on a zero.
   */
  function Dump(e: Expl, nc: int, pats: seq<Pattern>, nz: seq<Cell>, i: nat, atSource: bool): (r: Option<(seq<Piece>, Expl)>)
    requires InMatrix(nz, nc) && Within(e, nz) && i <= |nz|
    decreases |nz| - i
    ensures r.Some? ==> r.value.1.Keys == e.Keys
  {
    if i == |nz| then Some(([], e))
    else
      var c := nz[i];
      var d := e[c];
      if d.srcCol == AlreadyDumped || d.srcRow == AlreadyDumped then
        Dump(e, nc, pats, nz, i + 1, atSource)
      else if d.prio == NoPrioValue then
        match Dump(e, nc, pats, nz, i + 1, atSource)
        case None => None
        case Some(rest) => Some(([Piece(c.row, c.col, Single)] + rest.0, rest.1))
      else if d.prio < 0 || d.prio >= |pats| then None
      else
        var tr := TagTrace(nc, pats, d);
        if !Within(e, tr) then None
        else
          var pc := if atSource then Piece(d.srcRow, d.srcCol, pats[d.prio]) else Piece(c.row, c.col, pats[d.prio]);
          match Dump(Fill(e, tr, DumpedPrio), nc, pats, nz, i + 1, atSource)
          case None => None
          case Some(rest) => Some(([pc] + rest.0, rest.1))
  }

  /** `get_piece_list`: the pieces written out, each anchored at the first of its cells in storage order. */
  function GetPieceList(e: Expl, nc: int, pats: seq<Pattern>, nz: seq<Cell>): Option<seq<Piece>>
    requires InMatrix(nz, nc) && Within(e, nz)
  {
    match Dump(e, nc, pats, nz, 0, false)
    case None => None
    case Some(r) => Some(r.0)
  }

  /** `get_piece_list` with each piece anchored at its source cell. */
  function GetPieceListAtSource(e: Expl, nc: int, pats: seq<Pattern>, nz: seq<Cell>): Option<seq<Piece>>
    requires InMatrix(nz, nc) && Within(e, nz)
  {
    match Dump(e, nc, pats, nz, 0, true)
    case None => None
    case Some(r) => Some(r.0)
  }

  /** `print_pieces` of `spsearx`: the lines printed, and the matrix with every written piece marked. */
  function PrintPieces(e: Expl, nc: int, pats: seq<Pattern>, nz: seq<Cell>): Option<(seq<Piece>, Expl)>
    requires InMatrix(nz, nc) && Within(e, nz)
  {
    Dump(e, nc, pats, nz, 0, false)
  }

  // The reference: what the traversal writes, read off the matrix it starts from.

  /** Some cell among `nz[..i]` holds `p`. */
  ghost predicate SeenBefore(e: Expl, nz: seq<Cell>, i: int, p: Prio)
    requires Within(e, nz) && i <= |nz|
  {
    exists j :: 0 <= j < i && e[nz[j]] == p
  }

  /** The matrix once the traversal has passed `nz[..i]`: every piece met so far is marked written. */
  ghost function DumpedUpTo(e: Expl, nz: seq<Cell>, i: int): (r: Expl)
    requires Within(e, nz) && i <= |nz|
    ensures r.Keys == e.Keys
  {
    map a | a in e :: if e[a] != NoPrio && SeenBefore(e, nz, i, e[a]) then DumpedPrio else e[a]
  }

  /** What is written at `nz[i]`: a free cell alone, a held cell's piece the first time one of its cells is met. */
  ghost function WrittenAt(e: Expl, nc: int, pats: seq<Pattern>, nz: seq<Cell>, i: int, atSource: bool): seq<Piece>
    requires Consistent(e, nc, pats) && Within(e, nz) && 0 <= i < |nz|
  {
    var c := nz[i];
    var d := e[c];
    if d == NoPrio then [Piece(c.row, c.col, Single)]
    else if SeenBefore(e, nz, i, d) then []
    else
      assert Good(e, nc, pats, c);
      [if atSource then Piece(d.srcRow, d.srcCol, pats[d.prio]) else Piece(c.row, c.col, pats[d.prio])]
  }

  ghost function WrittenFrom(e: Expl, nc: int, pats: seq<Pattern>, nz: seq<Cell>, i: int, atSource: bool): seq<Piece>
    requires Consistent(e, nc, pats) && Within(e, nz) && 0 <= i <= |nz|
    decreases |nz| - i
  {
    if i == |nz| then [] else WrittenAt(e, nc, pats, nz, i, atSource) + WrittenFrom(e, nc, pats, nz, i + 1, atSource)
  }

  /** Passing `nz[i]` marks exactly the piece that holds it, if any. */
  lemma DumpedNext(e: Expl, nz: seq<Cell>, i: int)
    requires Within(e, nz) && 0 <= i < |nz|
    ensures var d := e[nz[i]];
            forall a :: a in e ==> DumpedUpTo(e, nz, i + 1)[a] == if e[a] != NoPrio && e[a] == d then DumpedPrio else DumpedUpTo(e, nz, i)[a]
  {
    forall a | a in e
      ensures SeenBefore(e, nz, i + 1, e[a]) == (SeenBefore(e, nz, i, e[a]) || e[nz[i]] == e[a])
    {
      if SeenBefore(e, nz, i + 1, e[a]) && !SeenBefore(e, nz, i, e[a]) {
        var j :| 0 <= j < i + 1 && e[nz[j]] == e[a];
      }
    }
  }

  /** The cells holding a piece's tag are exactly the cells of its trace. */
  lemma TagCells(e: Expl, nc: int, pats: seq<Pattern>, b: Cell)
    requires Consistent(e, nc, pats) && b in e && e[b] != NoPrio
    ensures nc > 0 && 0 <= e[b].prio < |pats| && e[b].srcRow >= 0 && e[b].srcCol >= 0
    ensures Within(e, TagTrace(nc, pats, e[b]))
    ensures forall a :: a in e ==> (e[a] == e[b] <==> a in TagTrace(nc, pats, e[b]))
  {
    assert Good(e, nc, pats, b);
    forall a | a in e && e[a] == e[b]
      ensures a in TagTrace(nc, pats, e[b])
    {
      assert Good(e, nc, pats, a);
    }
  }

  /** At the first cell of a piece the traversal meets, marking the piece gives the next matrix. */
  lemma DumpFirst(e: Expl, nc: int, pats: seq<Pattern>, nz: seq<Cell>, i: int)
    requires Consistent(e, nc, pats) && Within(e, nz) && 0 <= i < |nz|
    requires e[nz[i]] != NoPrio && !SeenBefore(e, nz, i, e[nz[i]])
    ensures var d := e[nz[i]];
            && DumpedUpTo(e, nz, i)[nz[i]] == d
            && nc > 0 && 0 <= d.prio < |pats| && d.srcRow >= 0 && d.srcCol >= 0
            && Within(DumpedUpTo(e, nz, i), TagTrace(nc, pats, d))
            && Fill(DumpedUpTo(e, nz, i), TagTrace(nc, pats, d), DumpedPrio) == DumpedUpTo(e, nz, i + 1)
  {
    var c := nz[i];
    var d := e[c];
    TagCells(e, nc, pats, c);
    var tr := TagTrace(nc, pats, d);
    var s := DumpedUpTo(e, nz, i);
    var s' := DumpedUpTo(e, nz, i + 1);
    DumpedNext(e, nz, i);
    FillTagged(e, s, s', tr, d);
  }

  /** Marking the trace of a tag changes exactly the cells that hold the tag. */
  lemma FillTagged(e: Expl, s: Expl, s': Expl, tr: seq<Cell>, d: Prio)
    requires s.Keys == e.Keys && s'.Keys == e.Keys && d != NoPrio && Within(e, tr)
    requires forall a :: a in e ==> (e[a] == d <==> a in tr)
    requires forall a :: a in e ==> s'[a] == if e[a] != NoPrio && e[a] == d then DumpedPrio else s[a]
    ensures Within(s, tr)
    ensures Fill(s, tr, DumpedPrio) == s'
  {
    var f := Fill(s, tr, DumpedPrio);
    forall a | a in e
      ensures f[a] == s'[a]
    {
    }
  }

  /** A free or already passed cell changes nothing in the matrix. */
  lemma DumpSame(e: Expl, nz: seq<Cell>, i: int)
    requires Within(e, nz) && 0 <= i < |nz|
    requires e[nz[i]] == NoPrio || SeenBefore(e, nz, i, e[nz[i]])
    ensures DumpedUpTo(e, nz, i + 1) == DumpedUpTo(e, nz, i)
    ensures DumpedUpTo(e, nz, i)[nz[i]] == if e[nz[i]] == NoPrio then NoPrio else DumpedPrio
  {
    var s := DumpedUpTo(e, nz, i);
    var s' := DumpedUpTo(e, nz, i + 1);
    DumpedNext(e, nz, i);
    forall a | a in e
      ensures s'[a] == s[a]
    {
    }
  }

  /** The result of a step, given the result of the traversal after it. */
  function Prepend(w: seq<Piece>, rest: Option<(seq<Piece>, Expl)>): Option<(seq<Piece>, Expl)> {
    match rest
    case None => None
    case Some(r) => Some((w + r.0, r.1))
  }

  lemma PrependNothing(rest: Option<(seq<Piece>, Expl)>)
    ensures Prepend([], rest) == rest
  {
    if rest.Some? {
      assert [] + rest.value.0 == rest.value.0;
    }
  }

  lemma DumpStepFree(e: Expl, nc: int, pats: seq<Pattern>, nz: seq<Cell>, i: nat, atSource: bool)
    requires Consistent(e, nc, pats) && InMatrix(nz, nc) && Within(e, nz) && i < |nz|
    requires e[nz[i]] == NoPrio
    ensures Dump(DumpedUpTo(e, nz, i), nc, pats, nz, i, atSource)
            == Prepend(WrittenAt(e, nc, pats, nz, i, atSource), Dump(DumpedUpTo(e, nz, i + 1), nc, pats, nz, i + 1, atSource))
  {
    var c := nz[i];
    var s := DumpedUpTo(e, nz, i);
    DumpSame(e, nz, i);
    assert s[c] == NoPrio;
    assert WrittenAt(e, nc, pats, nz, i, atSource) == [Piece(c.row, c.col, Single)];
  }

  lemma DumpStepSeen(e: Expl, nc: int, pats: seq<Pattern>, nz: seq<Cell>, i: nat, atSource: bool)
    requires Consistent(e, nc, pats) && InMatrix(nz, nc) && Within(e, nz) && i < |nz|
    requires e[nz[i]] != NoPrio && SeenBefore(e, nz, i, e[nz[i]])
    ensures Dump(DumpedUpTo(e, nz, i), nc, pats, nz, i, atSource)
            == Prepend(WrittenAt(e, nc, pats, nz, i, atSource), Dump(DumpedUpTo(e, nz, i + 1), nc, pats, nz, i + 1, atSource))
  {
    var c := nz[i];
    var s := DumpedUpTo(e, nz, i);
    DumpSame(e, nz, i);
    assert s[c] == DumpedPrio;
    assert WrittenAt(e, nc, pats, nz, i, atSource) == [];
    PrependNothing(Dump(s, nc, pats, nz, i + 1, atSource));
  }

  lemma DumpStepFirst(e: Expl, nc: int, pats: seq<Pattern>, nz: seq<Cell>, i: nat, atSource: bool)
    requires Consistent(e, nc, pats) && InMatrix(nz, nc) && Within(e, nz) && i < |nz|
    requires e[nz[i]] != NoPrio && !SeenBefore(e, nz, i, e[nz[i]])
    ensures Dump(DumpedUpTo(e, nz, i), nc, pats, nz, i, atSource)
            == Prepend(WrittenAt(e, nc, pats, nz, i, atSource), Dump(DumpedUpTo(e, nz, i + 1), nc, pats, nz, i + 1, atSource))
  {
    var c := nz[i];
    var d := e[c];
    DumpFirst(e, nc, pats, nz, i);
    var pc := if atSource then Piece(d.srcRow, d.srcCol, pats[d.prio]) else Piece(c.row, c.col, pats[d.prio]);
    assert WrittenAt(e, nc, pats, nz, i, atSource) == [pc];
  }

  /** One step of the traversal writes `WrittenAt` in front of the rest. */
  lemma DumpStep(e: Expl, nc: int, pats: seq<Pattern>, nz: seq<Cell>, i: nat, atSource: bool)
    requires Consistent(e, nc, pats) && InMatrix(nz, nc) && Within(e, nz) && i < |nz|
    ensures Dump(DumpedUpTo(e, nz, i), nc, pats, nz, i, atSource)
            == Prepend(WrittenAt(e, nc, pats, nz, i, atSource), Dump(DumpedUpTo(e, nz, i + 1), nc, pats, nz, i + 1, atSource))
  {
    var d := e[nz[i]];
    if d == NoPrio {
      DumpStepFree(e, nc, pats, nz, i, atSource);
    } else if SeenBefore(e, nz, i, d) {
      DumpStepSeen(e, nc, pats, nz, i, atSource);
    } else {
      DumpStepFirst(e, nc, pats, nz, i, atSource);
    }
  }

  /** From `nz[i]` on, the traversal writes the reference list and ends with every passed piece marked. */
  ghost predicate WritesFrom(e: Expl, nc: int, pats: seq<Pattern>, nz: seq<Cell>, i: nat, atSource: bool)
    requires Consistent(e, nc, pats) && InMatrix(nz, nc) && Within(e, nz) && i <= |nz|
  {
    Dump(DumpedUpTo(e, nz, i), nc, pats, nz, i, atSource)
    == Some((WrittenFrom(e, nc, pats, nz, i, atSource), DumpedUpTo(e, nz, |nz|)))
  }

  lemma DumpEnd(e: Expl, nc: int, pats: seq<Pattern>, nz: seq<Cell>, atSource: bool)
    requires Consistent(e, nc, pats) && InMatrix(nz, nc) && Within(e, nz)
    ensures WritesFrom(e, nc, pats, nz, |nz|, atSource)
  {
  }

  lemma DumpFromStep(e: Expl, nc: int, pats: seq<Pattern>, nz: seq<Cell>, i: nat, atSource: bool)
    requires Consistent(e, nc, pats) && InMatrix(nz, nc) && Within(e, nz) && i < |nz|
    requires WritesFrom(e, nc, pats, nz, i + 1, atSource)
    ensures WritesFrom(e, nc, pats, nz, i, atSource)
  {
    var w := WrittenAt(e, nc, pats, nz, i, atSource);
    DumpStep(e, nc, pats, nz, i, atSource);
    assert WrittenFrom(e, nc, pats, nz, i, atSource) == w + WrittenFrom(e, nc, pats, nz, i + 1, atSource);
  }

  /**
   * On a consistent matrix the traversal never panics, writes exactly the
   * reference list, and leaves every piece it passed marked written.
   */
  lemma DumpFrom(e: Expl, nc: int, pats: seq<Pattern>, nz: seq<Cell>, i: nat, atSource: bool)
    requires Consistent(e, nc, pats) && InMatrix(nz, nc) && Within(e, nz) && i <= |nz|
    decreases |nz| - i, 1
    ensures WritesFrom(e, nc, pats, nz, i, atSource)
  {
    if i < |nz| {
      DumpFromNext(e, nc, pats, nz, i, atSource);
    } else {
      DumpEnd(e, nc, pats, nz, atSource);
    }
  }

  lemma DumpFromNext(e: Expl, nc: int, pats: seq<Pattern>, nz: seq<Cell>, i: nat, atSource: bool)
    requires Consistent(e, nc, pats) && InMatrix(nz, nc) && Within(e, nz) && i < |nz|
    decreases |nz| - i, 0
    ensures WritesFrom(e, nc, pats, nz, i, atSource)
  {
    DumpFrom(e, nc, pats, nz, i + 1, atSource);
    DumpFromStep(e, nc, pats, nz, i, atSource);
  }

  /** Before the traversal nothing is marked. */
  lemma DumpedAtStart(e: Expl, nz: seq<Cell>)
    requires Within(e, nz)
    ensures DumpedUpTo(e, nz, 0) == e
  {
  }

  /**
   * On a matrix the search leaves, `get_piece_list` never panics and returns
   * exactly the reference list: each free nonzero as `(row, col, (1, 0, 0))`,
   * and each piece once, at the first of its cells in storage order.
   */
  lemma GetPieceListWrites(e: Expl, nc: int, pats: seq<Pattern>, nz: seq<Cell>)
    requires Consistent(e, nc, pats) && InMatrix(nz, nc) && Within(e, nz)
    ensures GetPieceList(e, nc, pats, nz) == Some(WrittenFrom(e, nc, pats, nz, 0, false))
    ensures GetPieceListAtSource(e, nc, pats, nz) == Some(WrittenFrom(e, nc, pats, nz, 0, true))
  {
    DumpedAtStart(e, nz);
    DumpFrom(e, nc, pats, nz, 0, false);
    DumpFrom(e, nc, pats, nz, 0, true);
  }

  /**
   * `print_pieces` of `spsearx` prints the same list, and afterwards every
   * held nonzero of the matrix is marked written while the free ones stay free.
   */
  lemma PrintPiecesMarks(e: Expl, nc: int, pats: seq<Pattern>, nz: seq<Cell>)
    requires Consistent(e, nc, pats) && InMatrix(nz, nc) && Within(e, nz) && e.Keys == set c | c in nz
    ensures PrintPieces(e, nc, pats, nz).Some?
    ensures var r := PrintPieces(e, nc, pats, nz).value;
            && r.0 == WrittenFrom(e, nc, pats, nz, 0, false)
            && r.1.Keys == e.Keys
            && forall a :: a in e ==> r.1[a] == if e[a] == NoPrio then NoPrio else DumpedPrio
  {
    DumpedAtStart(e, nz);
    DumpFrom(e, nc, pats, nz, 0, false);
    forall a | a in e && e[a] != NoPrio
      ensures SeenBefore(e, nz, |nz|, e[a])
    {
      var k :| 0 <= k < |nz| && nz[k] == a;
    }
  }

  /** The single-cell pieces of the free nonzeros among `nz[i..]`, in storage order. */
  function FreeSingles(e: Expl, nz: seq<Cell>, i: nat): seq<Piece>
    requires Within(e, nz) && i <= |nz|
    decreases |nz| - i
  {
    if i == |nz| then []
    else (if e[nz[i]] == NoPrio then [Piece(nz[i].row, nz[i].col, Single)] else []) + FreeSingles(e, nz, i + 1)
  }

  /** On a matrix holding only free and written cells the traversal prints the free ones alone and changes nothing. */
  lemma {:induction false} RedumpFrom(e: Expl, nc: int, pats: seq<Pattern>, nz: seq<Cell>, i: nat, atSource: bool)
    requires InMatrix(nz, nc) && Within(e, nz) && i <= |nz|
    requires forall a :: a in e ==> e[a] == NoPrio || e[a] == DumpedPrio
    decreases |nz| - i
    ensures Dump(e, nc, pats, nz, i, atSource) == Some((FreeSingles(e, nz, i), e))
  {
    if i < |nz| {
      RedumpFrom(e, nc, pats, nz, i + 1, atSource);
      if e[nz[i]] == DumpedPrio {
        assert [] + FreeSingles(e, nz, i + 1) == FreeSingles(e, nz, i + 1);
      }
    }
  }

  /**
   * Printing twice with `spsearx`: the second `print_pieces` finds every
   * piece already written and prints only the free nonzeros, one line each.
   */
  lemma PrintPiecesTwice(e: Expl, nc: int, pats: seq<Pattern>, nz: seq<Cell>)
    requires Consistent(e, nc, pats) && InMatrix(nz, nc) && Within(e, nz) && e.Keys == set c | c in nz
    ensures PrintPieces(e, nc, pats, nz).Some?
    ensures var first := PrintPieces(e, nc, pats, nz).value;
            PrintPieces(first.1, nc, pats, nz) == Some((FreeSingles(e, nz, 0), first.1))
  {
    PrintPiecesMarks(e, nc, pats, nz);
    var first := PrintPieces(e, nc, pats, nz).value;
    RedumpFrom(first.1, nc, pats, nz, 0, false);
    SinglesAgree(e, first.1, nz, 0);
  }

  lemma {:induction false} SinglesAgree(e: Expl, e': Expl, nz: seq<Cell>, i: nat)
    requires Within(e, nz) && Within(e', nz) && i <= |nz|
    requires forall a :: a in e ==> a in e' && (e'[a] == NoPrio <==> e[a] == NoPrio)
    decreases |nz| - i
    ensures FreeSingles(e', nz, i) == FreeSingles(e, nz, i)
  {
    if i < |nz| {
      SinglesAgree(e, e', nz, i + 1);
    }
  }

  // ---------------------------------------------------------------------
  // Where the written pieces lie
  // ---------------------------------------------------------------------

  /** How many pieces of `ps` visit cell `a`, every cell addressed the way the search addresses it. */
  function TraceCount(nc: int, ps: seq<Piece>, a: Cell): nat
    requires nc > 0
  {
    if |ps| == 0 then 0
    else (if a in Trace(nc, ps[0].row, ps[0].col, ps[0].pat) then 1 else 0) + TraceCount(nc, ps[1..], a)
  }

  lemma {:induction false} TraceCountAppend(nc: int, p: seq<Piece>, q: seq<Piece>, a: Cell)
    requires nc > 0
    ensures TraceCount(nc, p + q, a) == TraceCount(nc, p, a) + TraceCount(nc, q, a)
  {
    if |p| == 0 {
      assert p + q == q;
    } else {
      assert (p + q)[1..] == p[1..] + q;
      TraceCountAppend(nc, p[1..], q, a);
    }
  }

  /** How many of the pieces still to be written from `nz[i]` on should visit `a`. */
  ghost function Remaining(e: Expl, nz: seq<Cell>, i: int, a: Cell): nat
    requires Within(e, nz) && 0 <= i <= |nz|
  {
    if a !in e then 0
    else if e[a] == NoPrio then (if a in nz[i..] then 1 else 0)
    else if SeenBefore(e, nz, i, e[a]) then 0
    else 1
  }

  /** What the piece written at `nz[i]`, anchored at its source, contributes to the count of `a`. */
  lemma WrittenAtCount(e: Expl, nc: int, pats: seq<Pattern>, nz: seq<Cell>, i: int, a: Cell)
    requires Consistent(e, nc, pats) && InMatrix(nz, nc) && Within(e, nz) && 0 <= i < |nz| && nc > 0
    ensures TraceCount(nc, WrittenAt(e, nc, pats, nz, i, true), a)
            == if e[nz[i]] == NoPrio then (if a == nz[i] then 1 else 0)
               else if SeenBefore(e, nz, i, e[nz[i]]) then 0
               else if a in e && e[a] == e[nz[i]] then 1 else 0
  {
    var c := nz[i];
    var d := e[c];
    var w := WrittenAt(e, nc, pats, nz, i, true);
    if d == NoPrio {
      assert c in nz;
      AddressPlain(nc, c.row, c.col, Single, 0);
      assert Trace(nc, c.row, c.col, Single) == [c];
      assert w[1..] == [];
    } else if !SeenBefore(e, nz, i, d) {
      TagCells(e, nc, pats, c);
      assert w[1..] == [];
    }
  }

  /** `Remaining` drops by what `nz[i]` contributes. */
  lemma RemainingStep(e: Expl, nz: seq<Cell>, i: int, a: Cell)
    requires Within(e, nz) && Distinct(nz) && 0 <= i < |nz|
    ensures Remaining(e, nz, i, a)
            == (if e[nz[i]] == NoPrio then (if a == nz[i] then 1 else 0)
                else if SeenBefore(e, nz, i, e[nz[i]]) then 0
                else if a in e && e[a] == e[nz[i]] then 1 else 0)
               + Remaining(e, nz, i + 1, a)
  {
    DumpedNext(e, nz, i);
    assert nz[i..] == [nz[i]] + nz[i + 1..];
    if a in e && e[a] == NoPrio && a == nz[i] {
      forall k | i + 1 <= k < |nz|
        ensures nz[k] != a
      {
      }
    }
    if a in e && e[a] != NoPrio {
      SeenNext(e, nz, i, e[a]);
    }
  }

  lemma SeenNext(e: Expl, nz: seq<Cell>, i: int, p: Prio)
    requires Within(e, nz) && 0 <= i < |nz|
    ensures SeenBefore(e, nz, i + 1, p) == (SeenBefore(e, nz, i, p) || e[nz[i]] == p)
  {
    if SeenBefore(e, nz, i + 1, p) && !SeenBefore(e, nz, i, p) {
      var j :| 0 <= j < i + 1 && e[nz[j]] == p;
    }
  }

  /** Past the last nonzero nothing remains to be written. */
  lemma RemainingEnd(e: Expl, nz: seq<Cell>, a: Cell)
    requires Within(e, nz) && e.Keys == set c | c in nz
    ensures Remaining(e, nz, |nz|, a) == 0
  {
    if a in e && e[a] != NoPrio {
      var k :| 0 <= k < |nz| && nz[k] == a;
    }
  }

  lemma {:induction false} CoverFrom(e: Expl, nc: int, pats: seq<Pattern>, nz: seq<Cell>, i: nat, a: Cell)
    requires Consistent(e, nc, pats) && InMatrix(nz, nc) && Within(e, nz) && nc > 0
    requires Distinct(nz) && e.Keys == (set c | c in nz) && i <= |nz|
    decreases |nz| - i, 1
    ensures TraceCount(nc, WrittenFrom(e, nc, pats, nz, i, true), a) == Remaining(e, nz, i, a)
  {
    if i < |nz| {
      CoverFromNext(e, nc, pats, nz, i, a);
    } else {
      RemainingEnd(e, nz, a);
    }
  }

  lemma CoverFromNext(e: Expl, nc: int, pats: seq<Pattern>, nz: seq<Cell>, i: nat, a: Cell)
    requires Consistent(e, nc, pats) && InMatrix(nz, nc) && Within(e, nz) && nc > 0
    requires Distinct(nz) && e.Keys == (set c | c in nz) && i < |nz|
    decreases |nz| - i, 0
    ensures TraceCount(nc, WrittenFrom(e, nc, pats, nz, i, true), a) == Remaining(e, nz, i, a)
  {
    CoverFrom(e, nc, pats, nz, i + 1, a);
    TraceCountAppend(nc, WrittenAt(e, nc, pats, nz, i, true), WrittenFrom(e, nc, pats, nz, i + 1, true), a);
    WrittenAtCount(e, nc, pats, nz, i, a);
    RemainingStep(e, nz, i, a);
  }

  /**
   * Anchored at their source cells, the written pieces partition the
   * nonzeros: every nonzero lies on exactly one written piece, and no
   * written piece visits a cell that is not a nonzero.
   */
  lemma AtSourceCovers(e: Expl, nc: int, pats: seq<Pattern>, nz: seq<Cell>)
    requires Consistent(e, nc, pats) && InMatrix(nz, nc) && Within(e, nz) && nc > 0
    requires Distinct(nz) && e.Keys == (set c | c in nz)
    ensures GetPieceListAtSource(e, nc, pats, nz).Some?
    ensures forall a :: TraceCount(nc, GetPieceListAtSource(e, nc, pats, nz).value, a) == if a in e then 1 else 0
  {
    GetPieceListWrites(e, nc, pats, nz);
    forall a
      ensures TraceCount(nc, WrittenFrom(e, nc, pats, nz, 0, true), a) == if a in e then 1 else 0
    {
      CoverFrom(e, nc, pats, nz, 0, a);
      if a in e && e[a] == NoPrio {
        assert nz[0..] == nz;
      }
    }
  }

  // ---------------------------------------------------------------------
  // The visited cell is not always the source
  // ---------------------------------------------------------------------

  /** The pattern `(2, 0, -1)`: two cells, the second one column to the left. */
  const LeftPair := Pattern(2, 0, -1)

  /** The nonzeros `(0, 0)` and `(0, 1)` of a matrix with two columns, in storage order. */
  const PairCells := [Cell(0, 0), Cell(0, 1)]

  /** The matrix the search leaves on `PairCells`: both held by the piece anchored at `(0, 1)`. */
  const PairHeld: Expl := map[Cell(0, 0) := Prio(0, 0, 1), Cell(0, 1) := Prio(0, 0, 1)]

  /** From `(0, 0)` the second cell is column -1, which as `usize` carries to row `2^63 - 1`. */
  lemma PairTraces()
    ensures Trace(2, 0, 0, LeftPair) == [Cell(0, 0), Cell(0x7FFF_FFFF_FFFF_FFFF, 1)]
    ensures Trace(2, 0, 1, LeftPair) == [Cell(0, 1), Cell(0, 0)]
  {
    assert Address(2, 0, 0, LeftPair, 1) == Cell(0x7FFF_FFFF_FFFF_FFFF, 1);
  }

  /** At `(0, 0)` no pattern matches: its second cell is not a nonzero. */
  lemma PairSkipsFirst()
    ensures FirstMatch(Initial(PairCells), 2, [LeftPair], Cell(0, 0), 0, false, 0) == None
  {
    var e := Initial(PairCells);
    PairTraces();
    assert Cell(0x7FFF_FFFF_FFFF_FFFF, 1) !in e;
    assert !MatchFrom(e, Trace(2, 0, 0, LeftPair), 0, 0);
  }

  /** At `(0, 1)` the pattern matches: both its cells are free nonzeros. */
  lemma PairMatchesSecond()
    ensures Consistent(Initial(PairCells), 2, [LeftPair])
    ensures FirstMatch(Initial(PairCells), 2, [LeftPair], Cell(0, 1), 0, false, 0) == Some(0)
  {
    var e := Initial(PairCells);
    PairTraces();
    assert MatchFrom(e, Trace(2, 0, 1, LeftPair), 0, 0);
  }

  /** The match at `(0, 1)` releases nothing and tags both cells. */
  lemma PairClaimsSecond()
    ensures Consistent(Initial(PairCells), 2, [LeftPair])
    ensures MatchFrom(Initial(PairCells), Trace(2, 0, 1, LeftPair), 0, 0)
    ensures Claim(Initial(PairCells), 2, [LeftPair], Cell(0, 1), 0) == (PairHeld, false)
  {
    PairMatchesSecond();
    PairTraces();
    ClaimOnFree(Initial(PairCells), 2, [LeftPair], Cell(0, 1), 0);
    PairHeldIs(Claim(Initial(PairCells), 2, [LeftPair], Cell(0, 1), 0).0);
  }

  /** A claim on a matrix with no held cell tags the trace and releases nothing. */
  lemma ClaimOnFree(e: Expl, nc: int, pats: seq<Pattern>, c: Cell, q: int)
    requires Consistent(e, nc, pats) && nc > 0 && c.row >= 0 && c.col >= 0 && 0 <= q < |pats|
    requires MatchFrom(e, Trace(nc, c.row, c.col, pats[q]), q, 0)
    requires forall a :: a in e ==> e[a] == NoPrio
    ensures var r := Claim(e, nc, pats, c, q);
            && r.0.Keys == e.Keys && !r.1
            && forall a :: a in e ==> r.0[a] == if a in Trace(nc, c.row, c.col, pats[q]) then Prio(q, c.row, c.col) else NoPrio
  {
    ClaimEffect(e, nc, pats, c, q);
  }

  /** The matrix over the two nonzeros with both tagged by the piece at `(0, 1)` is `PairHeld`. */
  lemma PairHeldIs(m: Expl)
    requires m.Keys == (set c | c in PairCells)
    requires forall a :: a in m ==> m[a] == if a in [Cell(0, 1), Cell(0, 0)] then Prio(0, 0, 1) else NoPrio
    ensures m == PairHeld
  {
    assert Cell(0, 0) in m && Cell(0, 1) in m;
  }

  lemma PairSearch()
    ensures InMatrix(PairCells, 2)
    ensures Search(PairCells, 2, [LeftPair], false, false, 0) == Some(PairHeld)
  {
    var e := Initial(PairCells);
    PairSkipsFirst();
    PairMatchesSecond();
    PairClaimsSecond();
    assert Pass(PairHeld, 2, [LeftPair], PairCells, 2, false, false, 0, 0, false) == (PairHeld, 0, false);
  }

  /**
   * `get_piece_list` as written anchors the piece at the first of its cells
   * met in storage order, `(0, 0)`, while the piece starts at `(0, 1)`: the
   * written piece visits `(0, 0)` and a cell outside the matrix, so the
   * nonzero `(0, 1)` lies on no written piece. Anchored at the source the
   * piece covers both nonzeros.
   */
  lemma VisitedAnchorMisses()
    ensures Search(PairCells, 2, [LeftPair], false, false, 0) == Some(PairHeld)
    ensures GetPieceList(PairHeld, 2, [LeftPair], PairCells) == Some([Piece(0, 0, LeftPair)])
    ensures TraceCount(2, [Piece(0, 0, LeftPair)], Cell(0, 1)) == 0
    ensures GetPieceListAtSource(PairHeld, 2, [LeftPair], PairCells) == Some([Piece(0, 1, LeftPair)])
    ensures TraceCount(2, [Piece(0, 1, LeftPair)], Cell(0, 1)) == 1
  {
    PairSearch();
    PairTraces();
    PairDump(false);
    PairDump(true);
  }

  lemma PairDump(atSource: bool)
    ensures InMatrix(PairCells, 2) && Within(PairHeld, PairCells)
    ensures Dump(PairHeld, 2, [LeftPair], PairCells, 0, atSource)
            == Some(([if atSource then Piece(0, 1, LeftPair) else Piece(0, 0, LeftPair)], Fill(PairHeld, Trace(2, 0, 1, LeftPair), DumpedPrio)))
  {
    PairTraces();
    var t1 := Trace(2, 0, 1, LeftPair);
    assert TagTrace(2, [LeftPair], Prio(0, 0, 1)) == t1;
    assert Within(PairHeld, t1);
    var marked := Fill(PairHeld, t1, DumpedPrio);
    assert marked[Cell(0, 1)] == DumpedPrio;
    assert Dump(marked, 2, [LeftPair], PairCells, 2, atSource) == Some(([], marked));
    assert Dump(marked, 2, [LeftPair], PairCells, 1, atSource) == Some(([], marked));
    var pc := if atSource then Piece(0, 1, LeftPair) else Piece(0, 0, LeftPair);
    assert PairHeld[PairCells[0]] == Prio(0, 0, 1);
    assert Dump(PairHeld, 2, [LeftPair], PairCells, 0, atSource) == Some(([pc] + [], marked));
    assert [pc] + [] == [pc];
  }
}
