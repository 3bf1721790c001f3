/**
 * The priority-and-invalidation search of `spisearx` and `spsearx`.
 *
 * Every nonzero carries a `Prio`: the index of the pattern that claimed it
 * (lower index = higher priority) and the cell the claiming piece starts at,
 * or `NoPrio`. A pattern may claim a run of cells only when each of them has
 * a strictly larger priority value; claiming first releases, whole, every
 * piece that held one of those cells. Passes repeat while some pass released
 * a piece.
 *
 * Cell addresses are computed the way the Rust code does: the `i32`
 * coordinates are cast to `usize` (so a negative value becomes
 * `2^64 + value`), a column past the last one carries into the next row, and
 * the `usize` sum wraps modulo `2^64`.
 */
module PrioSearch {
  import opened Wrappers
  import opened Sparse
  import opened Arith

  /** `2^64`, the modulus of `usize` arithmetic. */
  const U: int := 0x1_0000_0000_0000_0000

  /** `usize::MAX`, the priority value of a cell no piece holds. */
  const NoPrioValue: int := U - 1

  /** The source marker of a cell already written out. */
  const AlreadyDumped: int := -5

  datatype Prio = Prio(prio: int, srcRow: int, srcCol: int)

  const NoPrio := Prio(NoPrioValue, -1, -1)

  const DumpedPrio := Prio(NoPrioValue, AlreadyDumped, AlreadyDumped)

  /** The exploration matrix: one `Prio` per nonzero. */
  type Expl = map<Cell, Prio>

  /** `(row + col / numcols, col % numcols)` on `usize` operands: a column past the last carries into the next row. */
  function Carry(nc: int, ur: int, uc: int): Cell
    requires nc > 0
  {
    Cell((ur + uc / nc) % U, uc % nc)
  }

  /**
   * The `k`-th cell a pattern anchored at `(row, col)` visits: both coordinates
   * cast to `usize`, then carried. Whatever the offsets, the address is a
   * `usize` row and a column inside the matrix.
   */
  function Address(nc: int, row: int, col: int, pat: Pattern, k: int): (a: Cell)
    requires nc > 0
    ensures 0 <= a.row < U && 0 <= a.col < nc
  {
    Carry(nc, (row + k * pat.i) % U, (col + k * pat.j) % U)
  }

  /**
   * Without wrap-around the carry keeps the row-major offset
   * `row * numcols + col` and lands in a column of the matrix.
   */
  lemma CarryOffset(nc: int, r: int, c: int)
    requires nc > 0 && 0 <= r && 0 <= c && r + c / nc < U
    ensures var a := Carry(nc, r, c);
            && 0 <= a.col < nc
            && a.row * nc + a.col == r * nc + c
  {
    DivMod(c, nc);
    var q := c / nc;
    assert (r + q) % U == r + q;
    assert (r + q) * nc == r * nc + q * nc;
  }

  /** A column already inside the matrix is not carried. */
  lemma CarryPlain(nc: int, r: int, c: int)
    requires nc > 0 && 0 <= r < U && 0 <= c < nc
    ensures Carry(nc, r, c) == Cell(r, c)
  {
    DivMod(c, nc);
  }

  /**
   * When neither coordinate wraps, the address keeps the row-major offset of
   * the unwrapped cell and its column is inside the matrix.
   */
  lemma AddressOffset(nc: int, row: int, col: int, pat: Pattern, k: int)
    requires nc > 0
    requires 0 <= row + k * pat.i && 0 <= col + k * pat.j < U
    requires (row + k * pat.i) + (col + k * pat.j) / nc < U
    ensures var a := Address(nc, row, col, pat, k);
            && 0 <= a.col < nc
            && a.row * nc + a.col == (row + k * pat.i) * nc + (col + k * pat.j)
  {
    var r := row + k * pat.i;
    var c := col + k * pat.j;
    DivMod(c, nc);
    assert r % U == r && c % U == c;
    CarryOffset(nc, r, c);
  }

  /** A cell inside the matrix is addressed as itself. */
  lemma AddressPlain(nc: int, row: int, col: int, pat: Pattern, k: int)
    requires nc > 0
    requires 0 <= row + k * pat.i < U && 0 <= col + k * pat.j < nc && col + k * pat.j < U
    ensures Address(nc, row, col, pat, k) == CellAt(Piece(row, col, pat), k)
  {
    var r := row + k * pat.i;
    var c := col + k * pat.j;
    assert r % U == r && c % U == c;
    CarryPlain(nc, r, c);
  }

  /** The cells the loop `for ii in 0..n` visits for a pattern anchored at `(row, col)`. */
  function Trace(nc: int, row: int, col: int, pat: Pattern): (tr: seq<Cell>)
    requires nc > 0
    ensures |tr| == Len(pat)
    ensures forall k :: 0 <= k < |tr| ==> tr[k] == Address(nc, row, col, pat, k)
  {
    seq(Len(pat), k requires 0 <= k < Len(pat) => Address(nc, row, col, pat, k))
  }

  /** The cells of the piece a `Prio` names. */
  function TagTrace(nc: int, pats: seq<Pattern>, p: Prio): seq<Cell>
    requires nc > 0 && 0 <= p.prio < |pats|
  {
    Trace(nc, p.srcRow, p.srcCol, pats[p.prio])
  }

  /** All `cells` are nonzeros. */
  predicate Within(e: Expl, cells: seq<Cell>) {
    forall c :: c in cells ==> c in e
  }

  /**
   * Cell `a` is held by a well-formed piece: a known pattern, a source cell
   * with non-negative coordinates, `a` is one of the piece's cells, and every
   * cell of the piece is a nonzero holding the same `Prio`.
   */
  ghost predicate Good(e: Expl, nc: int, pats: seq<Pattern>, a: Cell)
    requires a in e
  {
    var p := e[a];
    && nc > 0 && 0 <= p.prio < |pats| && p.srcRow >= 0 && p.srcCol >= 0
    && a in TagTrace(nc, pats, p)
    && forall c :: c in TagTrace(nc, pats, p) ==> c in e && e[c] == p
  }

  /**
   * What the search keeps: every nonzero is free or held by a well-formed
   * piece. A Rust `Vec` of patterns is always shorter than `usize::MAX`, so a
   * held cell's priority value is never the one of a free cell.
   */
  ghost predicate Consistent(e: Expl, nc: int, pats: seq<Pattern>) {
    && |pats| < NoPrioValue
    && forall a :: a in e ==> e[a] == NoPrio || Good(e, nc, pats, a)
  }

  /** In a consistent state a cell is free exactly when its priority value is `usize::MAX`. */
  lemma FreeValue(e: Expl, nc: int, pats: seq<Pattern>, a: Cell)
    requires Consistent(e, nc, pats) && a in e
    ensures e[a] == NoPrio <==> e[a].prio == NoPrioValue
  {
    if e[a] != NoPrio {
      assert Good(e, nc, pats, a);
    }
  }

  /** Sets every cell of `cells` to `v`. */
  function Fill(e: Expl, cells: seq<Cell>, v: Prio): (r: Expl)
    requires Within(e, cells)
    ensures r.Keys == e.Keys
    ensures forall a :: a in r ==> r[a] == if a in cells then v else e[a]
  {
    if |cells| == 0 then e
    else
      var r := Fill(e[cells[0] := v], cells[1..], v);
      assert forall a :: a in cells <==> a == cells[0] || a in cells[1..];
      r
  }

  /** Releasing a held piece frees exactly the cells holding its `Prio`, and keeps the state consistent. */
  lemma ResetClass(e: Expl, nc: int, pats: seq<Pattern>, b: Cell)
    requires Consistent(e, nc, pats) && b in e && e[b] != NoPrio
    ensures nc > 0 && 0 <= e[b].prio < |pats| && Within(e, TagTrace(nc, pats, e[b]))
    ensures var r := Fill(e, TagTrace(nc, pats, e[b]), NoPrio);
            && (forall a :: a in r ==> r[a] == if e[a] == e[b] then NoPrio else e[a])
            && Consistent(r, nc, pats)
  {
    var p := e[b];
    assert Good(e, nc, pats, b);
    var tr := TagTrace(nc, pats, p);
    var r := Fill(e, tr, NoPrio);
    forall a | a in r
      ensures r[a] == if e[a] == p then NoPrio else e[a]
    {
      if e[a] == p {
        assert Good(e, nc, pats, a);
      }
    }
    forall a | a in r && r[a] != NoPrio
      ensures Good(r, nc, pats, a)
    {
      assert Good(e, nc, pats, a);
    }
  }

  /** Some cell of `cells` holds `p`. */
  predicate Hit(e: Expl, cells: seq<Cell>, p: Prio) {
    exists c :: c in cells && c in e && e[c] == p
  }

  /** The check `for ii in k..n`: every remaining cell is a nonzero whose priority value exceeds `q`. */
  function MatchFrom(e: Expl, tr: seq<Cell>, q: int, k: nat): (b: bool)
    requires k <= |tr|
    decreases |tr| - k
    ensures b <==> forall kk :: k <= kk < |tr| ==> tr[kk] in e && e[tr[kk]].prio > q
  {
    if k == |tr| then true
    else tr[k] in e && e[tr[k]].prio > q && MatchFrom(e, tr, q, k + 1)
  }

  /**
   * The invalidation loop over the cells `tr[k..]` of a match: every piece
   * holding one of them is released whole, and the flag records that one was.
   */
  function Invalidate(e: Expl, nc: int, pats: seq<Pattern>, tr: seq<Cell>, k: nat, flag: bool): (r: (Expl, bool))
    requires Consistent(e, nc, pats) && Within(e, tr) && k <= |tr|
    decreases |tr| - k
    ensures r.0.Keys == e.Keys && Consistent(r.0, nc, pats)
  {
    if k == |tr| then (e, flag)
    else
      var d := e[tr[k]];
      if d.prio != NoPrioValue then
        ResetClass(e, nc, pats, tr[k]);
        Invalidate(Fill(e, TagTrace(nc, pats, d), NoPrio), nc, pats, tr, k + 1, true)
      else
        Invalidate(e, nc, pats, tr, k + 1, flag)
  }

  /** Splits off the first cell of `tr[k..]`. */
  lemma HitCons(e: Expl, tr: seq<Cell>, k: nat, p: Prio)
    requires k < |tr| && Within(e, tr)
    ensures Hit(e, tr[k..], p) == (e[tr[k]] == p || Hit(e, tr[k + 1..], p))
    ensures (exists c :: c in tr[k..] && e[c] != NoPrio) == (e[tr[k]] != NoPrio || exists c :: c in tr[k + 1..] && e[c] != NoPrio)
  {
    assert tr[k..] == [tr[k]] + tr[k + 1..];
  }

  /** Releasing one piece does not change which cells hold another. */
  lemma HitOther(e: Expl, e': Expl, cells: seq<Cell>, p: Prio)
    requires e'.Keys == e.Keys && p != NoPrio
    requires forall a :: a in e' ==> e'[a] == e[a] || e'[a] == NoPrio
    requires forall a :: a in e && e[a] == p ==> e'[a] == p
    ensures Hit(e', cells, p) == Hit(e, cells, p)
  {
    if Hit(e', cells, p) {
      var c :| c in cells && c in e' && e'[c] == p;
    }
    if Hit(e, cells, p) {
      var c :| c in cells && c in e && e[c] == p;
    }
  }

  /**
   * The invalidation frees exactly the cells whose piece held some cell of
   * `tr[k..]`, and raises the flag exactly when such a piece existed.
   */
  lemma {:induction false} InvalidateEffect(e: Expl, nc: int, pats: seq<Pattern>, tr: seq<Cell>, k: nat, flag: bool)
    requires Consistent(e, nc, pats) && Within(e, tr) && k <= |tr|
    decreases |tr| - k
    ensures var r := Invalidate(e, nc, pats, tr, k, flag);
            && (forall a :: a in e ==> r.0[a] == if Hit(e, tr[k..], e[a]) then NoPrio else e[a])
            && r.1 == (flag || exists c :: c in tr[k..] && e[c] != NoPrio)
  {
    if k < |tr| {
      var d := e[tr[k]];
      var r := Invalidate(e, nc, pats, tr, k, flag);
      FreeValue(e, nc, pats, tr[k]);
      HitCons(e, tr, k, NoPrio);
      if d.prio != NoPrioValue {
        ResetClass(e, nc, pats, tr[k]);
        var e' := Fill(e, TagTrace(nc, pats, d), NoPrio);
        InvalidateEffect(e', nc, pats, tr, k + 1, true);
        forall a | a in e
          ensures r.0[a] == if Hit(e, tr[k..], e[a]) then NoPrio else e[a]
        {
          HitCons(e, tr, k, e[a]);
          if e[a] != d && e[a] != NoPrio {
            HitOther(e, e', tr[k + 1..], e[a]);
          }
        }
      } else {
        InvalidateEffect(e, nc, pats, tr, k + 1, flag);
        forall a | a in e
          ensures r.0[a] == if Hit(e, tr[k..], e[a]) then NoPrio else e[a]
        {
          HitCons(e, tr, k, e[a]);
        }
      }
    }
  }

  /** Every cell of `tr` is a nonzero whose priority value exceeds `q`. */
  lemma MatchWithin(e: Expl, tr: seq<Cell>, q: int)
    requires MatchFrom(e, tr, q, 0)
    ensures Within(e, tr)
    ensures forall c :: c in tr ==> e[c].prio > q
  {
    forall c | c in tr
      ensures c in e && e[c].prio > q
    {
      var k :| 0 <= k < |tr| && tr[k] == c;
    }
  }

  // ---------------------------------------------------------------------
  // One claim
  // ---------------------------------------------------------------------

  /**
   * Pattern `q` may claim the cells anchored at `c`: the pattern-search
   * shortcut does not skip it, and every cell it visits is a nonzero with a
   * larger priority value than `q`.
   */
  predicate Eligible(e: Expl, nc: int, pats: seq<Pattern>, c: Cell, q: int, skipPS: bool, maxPrev: int)
    requires nc > 0 && 0 <= q < |pats|
  {
    !(skipPS && q < maxPrev) && MatchFrom(e, Trace(nc, c.row, c.col, pats[q]), q, 0)
  }

  /** The loop `'outer` over the patterns from index `q` on: the first pattern that may claim the cells at `c`. */
  function FirstMatch(e: Expl, nc: int, pats: seq<Pattern>, c: Cell, q: nat, skipPS: bool, maxPrev: int): (r: Option<nat>)
    requires nc > 0 && q <= |pats|
    decreases |pats| - q
    ensures r.Some? ==> q <= r.value < |pats| && Eligible(e, nc, pats, c, r.value, skipPS, maxPrev)
    ensures forall q' :: q <= q' < |pats| && (r.None? || q' < r.value) ==> !Eligible(e, nc, pats, c, q', skipPS, maxPrev)
  {
    if q == |pats| then None
    else if Eligible(e, nc, pats, c, q, skipPS, maxPrev) then Some(q)
    else FirstMatch(e, nc, pats, c, q + 1, skipPS, maxPrev)
  }

  /**
   * A match of pattern `q` at `c`: the pieces holding any of its cells are
   * released, then its cells are tagged `Prio(q, row, col)`. The flag says
   * whether a piece was released.
   */
  function Claim(e: Expl, nc: int, pats: seq<Pattern>, c: Cell, q: int): (r: (Expl, bool))
    requires Consistent(e, nc, pats) && nc > 0 && c.row >= 0 && c.col >= 0 && 0 <= q < |pats|
    requires MatchFrom(e, Trace(nc, c.row, c.col, pats[q]), q, 0)
    ensures r.0.Keys == e.Keys && Consistent(r.0, nc, pats)
  {
    var tr := Trace(nc, c.row, c.col, pats[q]);
    MatchWithin(e, tr, q);
    var inv := Invalidate(e, nc, pats, tr, 0, false);
    ClaimConsistent(e, nc, pats, c, q);
    (Fill(inv.0, tr, Prio(q, c.row, c.col)), inv.1)
  }

  lemma ClaimConsistent(e: Expl, nc: int, pats: seq<Pattern>, c: Cell, q: int)
    requires Consistent(e, nc, pats) && nc > 0 && c.row >= 0 && c.col >= 0 && 0 <= q < |pats|
    requires MatchFrom(e, Trace(nc, c.row, c.col, pats[q]), q, 0)
    ensures var tr := Trace(nc, c.row, c.col, pats[q]);
            && Within(e, tr)
            && var inv := Invalidate(e, nc, pats, tr, 0, false);
            && Within(inv.0, tr)
            && Consistent(Fill(inv.0, tr, Prio(q, c.row, c.col)), nc, pats)
  {
    var tr := Trace(nc, c.row, c.col, pats[q]);
    var tag := Prio(q, c.row, c.col);
    MatchWithin(e, tr, q);
    var inv := Invalidate(e, nc, pats, tr, 0, false);
    InvalidateEffect(e, nc, pats, tr, 0, false);
    assert tr[0..] == tr;
    forall a | a in tr
      ensures inv.0[a] == NoPrio
    {
      assert Hit(e, tr, e[a]);
    }
    var r := Fill(inv.0, tr, tag);
    assert TagTrace(nc, pats, tag) == tr;
    forall b | b in r && r[b] != NoPrio
      ensures Good(r, nc, pats, b)
    {
      if b !in tr {
        assert Good(inv.0, nc, pats, b);
      }
    }
  }

  /**
   * What a claim does to every nonzero: its own cells get the new tag, the
   * cells of a released piece become free, the rest keep their `Prio`; the
   * flag is raised exactly when one of its cells was held; and every claimed
   * cell ends with a smaller priority value than it had.
   */
  lemma ClaimEffect(e: Expl, nc: int, pats: seq<Pattern>, c: Cell, q: int)
    requires Consistent(e, nc, pats) && nc > 0 && c.row >= 0 && c.col >= 0 && 0 <= q < |pats|
    requires MatchFrom(e, Trace(nc, c.row, c.col, pats[q]), q, 0)
    ensures var tr := Trace(nc, c.row, c.col, pats[q]);
            var r := Claim(e, nc, pats, c, q);
            && (forall a :: a in e ==> r.0[a] == if a in tr then Prio(q, c.row, c.col) else if Hit(e, tr, e[a]) then NoPrio else e[a])
            && (r.1 <==> exists d :: d in tr && e[d] != NoPrio)
            && (forall a :: a in tr ==> r.0[a].prio < e[a].prio)
  {
    var tr := Trace(nc, c.row, c.col, pats[q]);
    MatchWithin(e, tr, q);
    InvalidateEffect(e, nc, pats, tr, 0, false);
    assert tr[0..] == tr;
  }

  /** A claim that releases nothing leaves every held cell as it was. */
  lemma ClaimQuiet(e: Expl, nc: int, pats: seq<Pattern>, c: Cell, q: int)
    requires Consistent(e, nc, pats) && nc > 0 && c.row >= 0 && c.col >= 0 && 0 <= q < |pats|
    requires MatchFrom(e, Trace(nc, c.row, c.col, pats[q]), q, 0)
    ensures var r := Claim(e, nc, pats, c, q);
            !r.1 ==> forall a :: a in e && e[a] != NoPrio ==> r.0[a] == e[a]
  {
    ClaimEffect(e, nc, pats, c, q);
  }

  // ---------------------------------------------------------------------
  // Passes and the search
  // ---------------------------------------------------------------------

  /** The nonzeros are cells of a `usize`-indexed matrix with `numcols` columns. */
  predicate InMatrix(nz: seq<Cell>, nc: int) {
    nc < U && forall c :: c in nz ==> 0 <= c.row < U && 0 <= c.col < nc
  }

  /**
   * One pass of `while flag_invalidate` from the nonzero `nz[i]` on, in
   * storage order. With `skipInv` a cell whose priority value is at most
   * `maxPrev` is not searched; `tmax` is the largest pattern index matched
   * so far and `flag` whether a piece was released.
   */
  function Pass(e: Expl, nc: int, pats: seq<Pattern>, nz: seq<Cell>, i: nat,
                skipInv: bool, skipPS: bool, maxPrev: int, tmax: int, flag: bool): (r: (Expl, int, bool))
    requires Consistent(e, nc, pats) && InMatrix(nz, nc) && Within(e, nz) && i <= |nz|
    decreases |nz| - i
    ensures r.0.Keys == e.Keys && Consistent(r.0, nc, pats)
    ensures tmax <= r.1 && (r.1 == tmax || r.1 < |pats|)
    ensures flag ==> r.2
  {
    if i == |nz| then (e, tmax, flag)
    else
      var c := nz[i];
      assert c in nz;
      if skipInv && e[c].prio <= maxPrev then
        Pass(e, nc, pats, nz, i + 1, skipInv, skipPS, maxPrev, tmax, flag)
      else
        match FirstMatch(e, nc, pats, c, 0, skipPS, maxPrev)
        case None =>
          Pass(e, nc, pats, nz, i + 1, skipInv, skipPS, maxPrev, tmax, flag)
        case Some(q) =>
          var s := Claim(e, nc, pats, c, q);
          Pass(s.0, nc, pats, nz, i + 1, skipInv, skipPS, maxPrev, if tmax < q then q else tmax, flag || s.1)
  }

  /** A pass that releases no piece only adds claims: every cell held before is held the same way after. */
  lemma {:induction false} PassKeepsHeld(e: Expl, nc: int, pats: seq<Pattern>, nz: seq<Cell>, i: nat,
                                         skipInv: bool, skipPS: bool, maxPrev: int, tmax: int, flag: bool)
    requires Consistent(e, nc, pats) && InMatrix(nz, nc) && Within(e, nz) && i <= |nz|
    decreases |nz| - i
    ensures var r := Pass(e, nc, pats, nz, i, skipInv, skipPS, maxPrev, tmax, flag);
            !r.2 ==> forall a :: a in e && e[a] != NoPrio ==> r.0[a] == e[a]
  {
    if i < |nz| {
      var c := nz[i];
      assert c in nz;
      if skipInv && e[c].prio <= maxPrev {
        PassKeepsHeld(e, nc, pats, nz, i + 1, skipInv, skipPS, maxPrev, tmax, flag);
      } else {
        match FirstMatch(e, nc, pats, c, 0, skipPS, maxPrev)
        case None =>
          PassKeepsHeld(e, nc, pats, nz, i + 1, skipInv, skipPS, maxPrev, tmax, flag);
        case Some(q) =>
          var s := Claim(e, nc, pats, c, q);
          var tmax' := if tmax < q then q else tmax;
          var r := Pass(s.0, nc, pats, nz, i + 1, skipInv, skipPS, maxPrev, tmax', flag || s.1);
          PassKeepsHeld(s.0, nc, pats, nz, i + 1, skipInv, skipPS, maxPrev, tmax', flag || s.1);
          if !r.2 {
            ClaimQuiet(e, nc, pats, c, q);
            HeldChain(e, s.0, r.0);
          }
      }
    }
  }

  /** Keeping every held cell is transitive. */
  lemma HeldChain(e: Expl, e': Expl, e'': Expl)
    requires e'.Keys == e.Keys && e''.Keys == e.Keys
    requires forall a :: a in e && e[a] != NoPrio ==> e'[a] == e[a]
    requires forall a :: a in e' && e'[a] != NoPrio ==> e''[a] == e'[a]
    ensures forall a :: a in e && e[a] != NoPrio ==> e''[a] == e[a]
  {
  }

  /**
   * `while flag_invalidate`: passes repeat while the last one released a
   * piece; `temp_max_prio_on_prev_it` carries over, so each pass starts with
   * `tmax == maxPrev`. `None` when `fuel` more passes would still be needed.
   */
  function Loop(e: Expl, nc: int, pats: seq<Pattern>, nz: seq<Cell>,
                skipInv: bool, skipPS: bool, maxPrev: int, fuel: nat): (r: Option<Expl>)
    requires Consistent(e, nc, pats) && InMatrix(nz, nc) && Within(e, nz)
    decreases fuel
    ensures r.Some? ==> r.value.Keys == e.Keys && Consistent(r.value, nc, pats)
  {
    var p := Pass(e, nc, pats, nz, 0, skipInv, skipPS, maxPrev, maxPrev, false);
    if !p.2 then Some(p.0)
    else if fuel == 0 then None
    else Loop(p.0, nc, pats, nz, skipInv, skipPS, p.1, fuel - 1)
  }

  /** The exploration matrix `from_file` builds: every nonzero free. */
  function Initial(nz: seq<Cell>): (e: Expl)
    ensures e.Keys == set c | c in nz
    ensures forall c :: c in e ==> e[c] == NoPrio
  {
    map c | c in nz :: NoPrio
  }

  /**
   * `search_patterns`: passes from the initial matrix with `max_prio = 0`
   * until one releases nothing. The result has one entry per nonzero, and
   * every held nonzero belongs to a whole piece whose cells all carry its tag.
   */
  function Search(nz: seq<Cell>, nc: int, pats: seq<Pattern>, skipInv: bool, skipPS: bool, fuel: nat): (r: Option<Expl>)
    requires |pats| < NoPrioValue && InMatrix(nz, nc)
    ensures r.Some? ==> r.value.Keys == (set c | c in nz) && Consistent(r.value, nc, pats)
  {
    Loop(Initial(nz), nc, pats, nz, skipInv, skipPS, 0, fuel)
  }

  /** With no patterns a pass claims nothing. */
  lemma {:induction false} PassNoPatterns(e: Expl, nc: int, nz: seq<Cell>, i: nat,
                                          skipInv: bool, skipPS: bool, maxPrev: int, tmax: int, flag: bool)
    requires Consistent(e, nc, []) && InMatrix(nz, nc) && Within(e, nz) && i <= |nz|
    decreases |nz| - i
    ensures Pass(e, nc, [], nz, i, skipInv, skipPS, maxPrev, tmax, flag) == (e, tmax, flag)
  {
    if i < |nz| {
      PassNoPatterns(e, nc, nz, i + 1, skipInv, skipPS, maxPrev, tmax, flag);
    }
  }

  /** With no patterns the search stops after one pass with every nonzero free. */
  lemma SearchNoPatterns(nz: seq<Cell>, nc: int, skipInv: bool, skipPS: bool, fuel: nat)
    requires InMatrix(nz, nc)
    ensures Search(nz, nc, [], skipInv, skipPS, fuel) == Some(Initial(nz))
  {
    PassNoPatterns(Initial(nz), nc, nz, 0, skipInv, skipPS, 0, 0, false);
  }
}
