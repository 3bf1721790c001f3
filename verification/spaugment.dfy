/**
 * `src/spaugment.rs`: grows one-dimensional pieces into higher-order
 * metapatterns by finding repeated strides between pieces of the same
 * pattern.
 *
 * The `LinkedHashMap`s are `LinkedMap` entry sequences; the exploration
 * `CsMat<bool>` of `compute_metapatterns` is a `Taken` map over the origins
 * together with the origins in CSR (row, then column) order, the order in
 * which the source iterates it.
 */
module SpAugment {
  import opened Wrappers
  import opened Sparse
  import opened LinkedMap
  import opened Utils
  import opened Sorting

  // ------------------------------------------------------------ strides

  function Abs(x: int): nat {
    if x < 0 then -x else x
  }

  /** `fn_tuple_sub(b, a)`: the step from origin `a` to origin `b`. */
  function Diff(b: Cell, a: Cell): Cell {
    Cell(b.row - a.row, b.col - a.col)
  }

  /** The stride filter: both `|dx|` and `|dy|` within `[minStride, maxStride]`. */
  predicate StrideInRange(s: Cell, minStride: nat, maxStride: nat) {
    minStride <= Abs(s.row) <= maxStride && minStride <= Abs(s.col) <= maxStride
  }

  /** The strides `o[b] - o[a]` for `a < b < hi` that pass the filter, in `b` order. */
  function PairStrides(o: seq<Cell>, a: nat, hi: nat, minStride: nat, maxStride: nat): (r: seq<Cell>)
    requires a < |o| && hi <= |o|
    ensures forall s :: s in r <==> exists b :: a < b < hi && s == Diff(o[b], o[a]) && StrideInRange(s, minStride, maxStride)
  {
    if hi <= a + 1 then []
    else
      var d := Diff(o[hi - 1], o[a]);
      PairStrides(o, a, hi - 1, minStride, maxStride) + (if StrideInRange(d, minStride, maxStride) then [d] else [])
  }

  /**
   * The retained strides of `compute_metapatterns`: for every pair `a < b` in
   * `tuple_combinations` order, `o[b] - o[a]`, kept when it passes the filter.
   */
  function Strides(o: seq<Cell>, minStride: nat, maxStride: nat): (r: seq<Cell>)
    ensures forall s :: s in r <==>
              exists a, b :: 0 <= a < b < |o| && s == Diff(o[b], o[a]) && StrideInRange(s, minStride, maxStride)
    ensures forall s :: multiset(r)[s] ==
              if StrideInRange(s, minStride, maxStride)
              then |set a, b | 0 <= a < b < |o| && Diff(o[b], o[a]) == s :: (a, b)|
              else 0
  {
    var nested := AllPairStrides(o, minStride, maxStride);
    var r := Flatten(nested);
    forall s
      ensures s in r <==>
                exists a, b :: 0 <= a < b < |o| && s == Diff(o[b], o[a]) && StrideInRange(s, minStride, maxStride)
    {
      StridesMember(o, minStride, maxStride, s);
    }
    forall s
      ensures multiset(r)[s] ==
                if StrideInRange(s, minStride, maxStride)
                then |set a, b | 0 <= a < b < |o| && Diff(o[b], o[a]) == s :: (a, b)|
                else 0
    {
      StridesCountBelow(o, minStride, maxStride, s, |o|);
      assert nested[..|o|] == nested;
      assert PairsBelow(o, s, |o|) == set a, b | 0 <= a < b < |o| && Diff(o[b], o[a]) == s :: (a, b);
    }
    r
  }

  /** The strides from each origin, one list per origin. */
  function AllPairStrides(o: seq<Cell>, minStride: nat, maxStride: nat): (r: seq<seq<Cell>>)
    ensures |r| == |o| && forall a :: 0 <= a < |o| ==> r[a] == PairStrides(o, a, |o|, minStride, maxStride)
  {
    seq(|o|, a requires 0 <= a < |o| => PairStrides(o, a, |o|, minStride, maxStride))
  }

  lemma StridesMember(o: seq<Cell>, minStride: nat, maxStride: nat, s: Cell)
    ensures s in Flatten(AllPairStrides(o, minStride, maxStride)) <==>
              exists a, b :: 0 <= a < b < |o| && s == Diff(o[b], o[a]) && StrideInRange(s, minStride, maxStride)
  {
    var nested := AllPairStrides(o, minStride, maxStride);
    FlattenMembers(nested, s);
    if s in Flatten(nested) {
      var a :| 0 <= a < |nested| && s in nested[a];
      assert s in PairStrides(o, a, |o|, minStride, maxStride);
    }
    if exists a, b :: 0 <= a < b < |o| && s == Diff(o[b], o[a]) && StrideInRange(s, minStride, maxStride) {
      var a, b :| 0 <= a < b < |o| && s == Diff(o[b], o[a]) && StrideInRange(s, minStride, maxStride);
      assert s in nested[a];
    }
  }

  /** The pairs `(a, b)` with `a < b` and first index below `top` whose step `o[b] - o[a]` is `s`. */
  ghost function PairsBelow(o: seq<Cell>, s: Cell, top: int): set<(int, int)> {
    set a, b | 0 <= a < top && a < b < |o| && Diff(o[b], o[a]) == s :: (a, b)
  }

  /** The pairs `(a, b)` with `a < b < hi` whose step `o[b] - o[a]` is `s`. */
  ghost function RowPairs(o: seq<Cell>, s: Cell, a: nat, hi: nat): set<(int, int)>
    requires a < |o| && hi <= |o|
  {
    set b | a < b < hi && Diff(o[b], o[a]) == s :: (a, b)
  }

  /** The strides from origin `a` hold `s` once per later origin at step `s`. */
  lemma {:induction false} PairStridesCount(o: seq<Cell>, a: nat, hi: nat, minStride: nat, maxStride: nat, s: Cell)
    requires a < |o| && hi <= |o|
    ensures multiset(PairStrides(o, a, hi, minStride, maxStride))[s] ==
              if StrideInRange(s, minStride, maxStride) then |RowPairs(o, s, a, hi)| else 0
    decreases hi
  {
    if hi <= a + 1 {
      assert RowPairs(o, s, a, hi) == {};
    } else {
      PairStridesCount(o, a, hi - 1, minStride, maxStride, s);
      var prev := RowPairs(o, s, a, hi - 1);
      if Diff(o[hi - 1], o[a]) == s {
        assert RowPairs(o, s, a, hi) == prev + {(a, hi - 1)};
        assert (a, hi - 1) !in prev;
      } else {
        assert RowPairs(o, s, a, hi) == prev;
      }
    }
  }

  /** The strides of the first `top` origins hold `s` once per pair at step `s`. */
  lemma {:induction false} StridesCountBelow(o: seq<Cell>, minStride: nat, maxStride: nat, s: Cell, top: nat)
    requires top <= |o|
    ensures multiset(Flatten(AllPairStrides(o, minStride, maxStride)[..top]))[s] ==
              if StrideInRange(s, minStride, maxStride) then |PairsBelow(o, s, top)| else 0
    decreases top
  {
    var nested := AllPairStrides(o, minStride, maxStride);
    if top == 0 {
      assert nested[..0] == [];
      assert PairsBelow(o, s, 0) == {};
    } else {
      StridesCountBelow(o, minStride, maxStride, s, top - 1);
      assert nested[..top][..top - 1] == nested[..top - 1];
      assert Flatten(nested[..top]) == Flatten(nested[..top - 1]) + nested[top - 1];
      PairStridesCount(o, top - 1, |o|, minStride, maxStride, s);
      var prev := PairsBelow(o, s, top - 1);
      var row := RowPairs(o, s, top - 1, |o|);
      assert PairsBelow(o, s, top) == prev + row;
      assert prev * row == {};
    }
  }

  // -------------------------------------------------------- occurrences

  /** One entry of the occurrence map: a stride and how often it was seen. */
  datatype Occ = Occ(stride: Cell, count: int)

  /** The distinct elements of `s`, in order of first appearance. */
  function FirstAppearances(s: seq<Cell>): (d: seq<Cell>)
    ensures Distinct(d)
    ensures forall x :: x in d <==> x in s
  {
    if |s| == 0 then []
    else
      var d := FirstAppearances(s[..|s| - 1]);
      assert forall x :: x in s <==> x in s[..|s| - 1] || x == s[|s| - 1];
      if s[|s| - 1] in d then d else d + [s[|s| - 1]]
  }

  /**
   * The sort key of the source, `Reverse((reps, -(dx*dx) - dy*dy))`, as an
   * ascending key: more repetitions first, then the shorter stride.
   */
  function OccKey(o: Occ): (int, int) {
    (-o.count, o.stride.row * o.stride.row + o.stride.col * o.stride.col)
  }

  /** The group map before sorting: each distinct stride with its count, in first-appearance order. */
  function Groups(strides: seq<Cell>): (g: seq<Occ>)
    ensures Distinct(g)
    ensures forall e :: e in g <==> e.stride in strides && e.count == multiset(strides)[e.stride]
  {
    var d := FirstAppearances(strides);
    var g := seq(|d|, t requires 0 <= t < |d| => Occ(d[t], multiset(strides)[d[t]]));
    forall e
      ensures e in g <==> e.stride in strides && e.count == multiset(strides)[e.stride]
    {
      if e.stride in strides && e.count == multiset(strides)[e.stride] {
        var t :| 0 <= t < |d| && d[t] == e.stride;
        assert g[t] == e;
      }
    }
    g
  }

  /** A permutation of a duplicate-free sequence is duplicate-free and has the same elements. */
  lemma PermutationKeepsDistinct(a: seq<Occ>, b: seq<Occ>)
    requires Distinct(a) && multiset(a) == multiset(b)
    ensures Distinct(b)
    ensures forall e :: e in a <==> e in b
  {
    forall x
      ensures multiset(b)[x] <= 1
    {
      DistinctMultiplicity(a, x);
    }
    MultiplicityDistinct(b);
    assert forall e :: e in a <==> e in multiset(a);
    assert forall e :: e in b <==> e in multiset(b);
  }

  /**
   * `into_group_map_by` followed by the sort. The group map is a `HashMap`,
   * whose iteration order decides between strides of equal key; the model
   * breaks such ties by first appearance.
   */
  function Occurrences(strides: seq<Cell>): (occ: seq<Occ>)
    ensures SortedBy(occ, OccKey)
    ensures forall e :: e in occ <==> e.stride in strides && e.count == multiset(strides)[e.stride]
    ensures forall a, b :: 0 <= a < b < |occ| ==> occ[a].stride != occ[b].stride
  {
    var g := Groups(strides);
    var occ := SortBy(g, OccKey);
    PermutationKeepsDistinct(g, occ);
    forall a, b | 0 <= a < b < |occ|
      ensures occ[a].stride != occ[b].stride
    {
      assert occ[a] in g && occ[b] in g;
    }
    occ
  }

  // ------------------------------------------------ check_metapattern_reps

  /** The loop `for ii in from..n`: the first `ii` whose cell is absent or marked, else `n`. */
  function RepsFrom(expl: Taken, pc: Piece, from: int): (r: int)
    decreases pc.pat.n - from
    ensures from < pc.pat.n ==> from <= r <= pc.pat.n
    ensures from >= pc.pat.n ==> r == pc.pat.n
    ensures forall k :: from <= k < r ==> Free(expl, CellAt(pc, k))
    ensures r < pc.pat.n ==> !Free(expl, CellAt(pc, r))
  {
    if from >= pc.pat.n then pc.pat.n
    else if !Free(expl, CellAt(pc, from)) then from
    else RepsFrom(expl, pc, from + 1)
  }

  /**
   * `check_metapattern_reps`: length 0 at a marked start; otherwise the
   * first step `ii` in `[1, max_n)` whose cell is absent or marked, or
   * `max_n`. The position and the stride are echoed.
   */
  function CheckMetapatternReps(expl: Taken, pos: Cell, pat: Pattern): (r: Piece)
    requires pos in expl
    ensures r.row == pos.row && r.col == pos.col && r.pat.i == pat.i && r.pat.j == pat.j
    ensures expl[pos] ==> r.pat.n == 0
    ensures !expl[pos] ==> (r.pat.n == pat.n || (1 <= r.pat.n < pat.n && !Free(expl, CellAt(r, r.pat.n))))
    ensures !expl[pos] ==> forall k :: 1 <= k < r.pat.n ==> Free(expl, CellAt(r, k))
  {
    if expl[pos] then Piece(pos.row, pos.col, Pattern(0, pat.i, pat.j))
    else
      var pc := Piece(pos.row, pos.col, pat);
      var r := Piece(pos.row, pos.col, Pattern(RepsFrom(expl, pc, 1), pat.i, pat.j));
      SameStride(pc, r);
      r
  }

  /** Two pieces with the same anchor and stride visit the same cells, whatever their lengths. */
  lemma SameStride(p: Piece, q: Piece)
    requires p.row == q.row && p.col == q.col && p.pat.i == q.pat.i && p.pat.j == q.pat.j
    ensures forall k :: CellAt(p, k) == CellAt(q, k)
  {
  }

  /** Every cell of a checked piece is a free origin, and its length never exceeds `max_n` when that is not negative. */
  lemma CheckedPieceFree(expl: Taken, pos: Cell, pat: Pattern)
    requires pos in expl
    ensures var r := CheckMetapatternReps(expl, pos, pat);
            (pat.n >= 0 ==> r.pat.n <= pat.n) && forall d :: d in Cells(r) ==> Free(expl, d)
  {
    var r := CheckMetapatternReps(expl, pos, pat);
    forall d | d in Cells(r)
      ensures Free(expl, d)
    {
      var k :| 0 <= k < |Cells(r)| && Cells(r)[k] == d;
      if k == 0 {
        assert d == pos;
      }
    }
  }

  // ------------------------------------------------- compute_metapatterns

  /** The origins in the order a CSR `CsMat` iterates them: row, then column, each once. */
  function CsrOrder(origins: seq<Cell>): (csr: seq<Cell>)
    ensures SortedBy(csr, (c: Cell) => (c.row, c.col))
    ensures Distinct(csr)
    ensures forall c :: c in csr <==> c in origins
  {
    var d := FirstAppearances(origins);
    var csr := SortBy(d, (c: Cell) => (c.row, c.col));
    assert forall c :: c in d <==> c in multiset(d);
    assert forall c :: c in csr <==> c in multiset(csr);
    forall x
      ensures multiset(csr)[x] <= 1
    {
      DistinctMultiplicity(d, x);
    }
    MultiplicityDistinct(csr);
    csr
  }

  /** The exploration matrix: every origin, none of them found yet. */
  function FreshExploration(origins: seq<Cell>): (expl: Taken)
    ensures forall c :: c in expl <==> c in origins
    ensures forall c :: c in expl ==> !expl[c]
  {
    map c | c in origins :: false
  }

  /** The pattern a window tries: `(count + 1, dx, dy)`. */
  function WindowPattern(o: Occ): Pattern {
    Pattern(o.count + 1, o.stride.row, o.stride.col)
  }

  /**
   * What a result of `check_metapattern_reps` is: anchored at an origin, with
   * the tried stride, no longer than the tried length, and on free origins only.
   */
  predicate Candidate(expl: Taken, csr: seq<Cell>, pat: Pattern, pc: Piece) {
    && Cell(pc.row, pc.col) in csr
    && pc.pat.i == pat.i && pc.pat.j == pat.j
    && (pat.n >= 0 ==> pc.pat.n <= pat.n)
    && forall d :: d in Cells(pc) ==> Free(expl, d)
  }

  /** `std::cmp::max_by_key(p1, p2, n)`: `p2` unless `p1` is strictly longer. */
  function LongerOf(p1: Piece, p2: Piece): Piece {
    if p2.pat.n < p1.pat.n then p1 else p2
  }

  /** `best_piece` before a search round: `(0, 0, (piece_cutoff - 1, 0, 0))`. */
  function NoPiece(cutoff: nat): Piece {
    Piece(0, 0, Pattern(cutoff - 1, 0, 0))
  }

  /**
   * The `'L3` loop: tries `pat` at every origin from index `idx` in CSR order,
   * keeps the longest result, and stops once it reaches `next_n + 1` or
   * cannot be beaten by the origins that remain. Every origin the loop
   * skips lies past a point where the result already met one of those bounds.
   */
  function ScanCells(expl: Taken, csr: seq<Cell>, idx: nat, pat: Pattern, nextN: int, originLen: int, best: Piece): (r: Piece)
    requires idx <= |csr|
    requires forall a :: 0 <= a < |csr| ==> csr[a] in expl
    decreases |csr| - idx
    ensures r.pat.n >= best.pat.n
    ensures r == best || Candidate(expl, csr, pat, r)
    ensures idx < |csr| ==> CheckMetapatternReps(expl, csr[idx], pat).pat.n <= r.pat.n
    ensures forall t :: idx <= t < |csr| ==>
              CheckMetapatternReps(expl, csr[t], pat).pat.n <= r.pat.n
              || r.pat.n >= nextN + 1 || r.pat.n >= originLen - t
  {
    if idx == |csr| then best
    else
      var pc := CheckMetapatternReps(expl, csr[idx], pat);
      CheckedPieceFree(expl, csr[idx], pat);
      var b := LongerOf(pc, best);
      if b.pat.n >= nextN + 1 || b.pat.n >= originLen - idx - 1 then b
      else ScanCells(expl, csr, idx + 1, pat, nextN, originLen, b)
  }

  /**
   * The `'L2` loop over `circular_tuple_windows` of the occurrences: window
   * `k` tries stride `k` with length `count + 1`, bounded by the count of
   * window `k + 1` (wrapping round). The first window whose best piece
   * reaches `piece_cutoff` ends the round.
   */
  function ScanWindows(occ: seq<Occ>, expl: Taken, csr: seq<Cell>, k: nat, originLen: int, cutoff: nat, best: Piece): (r: Option<Piece>)
    requires k <= |occ|
    requires forall a :: 0 <= a < |csr| ==> csr[a] in expl
    requires best.pat.n < cutoff
    decreases |occ| - k
    ensures r.Some? ==> r.value.pat.n >= cutoff
    ensures r.Some? ==> exists q :: 0 <= q < |occ| && Candidate(expl, csr, WindowPattern(occ[q]), r.value)
    ensures r.Some? ==> forall d :: d in Cells(r.value) ==> Free(expl, d)
  {
    if k == |occ| then None
    else
      var next := occ[(k + 1) % |occ|];
      var b := ScanCells(expl, csr, 0, WindowPattern(occ[k]), next.count, originLen, best);
      if b.pat.n >= cutoff then Some(b)
      else ScanWindows(occ, expl, csr, k + 1, originLen, cutoff, b)
  }

  /** The exploration state of `compute_metapatterns` between rounds. */
  datatype Explore = Explore(occ: seq<Occ>, expl: Taken, metas: LMap<int, MetaPattern>, pieces: LMap<Cell, int>)

  /**
   * The append routine: reuse the id of the back metapattern when it has
   * the same `(n, i, j)`, otherwise take the next id (`start_id` for the
   * first one); then record the metapattern and the piece's origin.
   */
  function Record(metas: LMap<int, MetaPattern>, pieces: LMap<Cell, int>, best: Piece, startId: int, lowId: int): (r: (LMap<int, MetaPattern>, LMap<Cell, int>))
  {
    var patId := PatId(metas, best, startId);
    (Insert(metas, patId, MetaPattern(best.pat, 0, Some(lowId))), Insert(pieces, Cell(best.row, best.col), patId))
  }

  /** The id the append routine gives a new piece. */
  function PatId(metas: LMap<int, MetaPattern>, best: Piece, startId: int): int {
    if |metas| == 0 then startId
    else if metas[|metas| - 1].val.pat == best.pat then metas[|metas| - 1].key
    else metas[|metas| - 1].key + 1
  }

  /** The occurrence fix-up: the count of stride `s` drops by `amount`. */
  function Decrement(occ: seq<Occ>, s: Cell, amount: int): (r: seq<Occ>)
    ensures |r| == |occ|
    ensures forall t :: 0 <= t < |occ| ==> r[t].stride == occ[t].stride
    ensures forall t :: 0 <= t < |occ| ==> r[t].count == if occ[t].stride == s then occ[t].count - amount else occ[t].count
  {
    seq(|occ|, t requires 0 <= t < |occ| => if occ[t].stride == s then Occ(s, occ[t].count - amount) else occ[t])
  }

  /** The origins not yet found. */
  function Unfound(expl: Taken): set<Cell> {
    set c | c in expl && !expl[c]
  }

  /** Marking the cells of a piece on free origins leaves strictly fewer unfound origins. */
  lemma MarkShrinks(expl: Taken, pc: Piece)
    requires pc.pat.n >= 1
    requires forall d :: d in Cells(pc) ==> Free(expl, d)
    ensures forall d :: d in Cells(pc) ==> d in expl
    ensures |Unfound(MarkPiece(expl, pc))| < |Unfound(expl)|
  {
    var expl' := MarkPiece(expl, pc);
    var start := Cells(pc)[0];
    assert Free(expl, start);
    assert start in Unfound(expl);
    assert expl'[start];
    assert Unfound(expl') <= Unfound(expl);
    assert start !in Unfound(expl');
    var gone := Unfound(expl) - Unfound(expl');
    assert Unfound(expl) == Unfound(expl') + gone;
    assert Unfound(expl') * gone == {};
    assert gone == (gone - {start}) + {start};
    assert |gone| >= 1;
  }

  /** The pieces recorded so far, each with the pattern its id stands for. */
  ghost function PiecesOf(metas: LMap<int, MetaPattern>, pieces: LMap<Cell, int>): seq<Piece>
    requires forall t :: 0 <= t < |pieces| ==> HasKey(metas, pieces[t].val)
  {
    seq(|pieces|, t requires 0 <= t < |pieces| =>
      Piece(pieces[t].key.row, pieces[t].key.col, Get(metas, pieces[t].val).value.pat))
  }

  /** Ids `startId, startId + 1, ...` in order. */
  predicate Consecutive(metas: LMap<int, MetaPattern>, startId: int) {
    forall t :: 0 <= t < |metas| ==> metas[t].key == startId + t
  }

  /**
   * What holds between rounds: ids are consecutive from `startId`; every
   * metapattern is `(p, 0, Some(lowId))` with `n >= cutoff` and a retained
   * stride; every recorded origin is found, and the recorded pieces cover
   * exactly the found origins, once each; the occurrence strides are
   * distinct retained strides with counts that stay non-negative.
   */
  ghost predicate ExploreInv(st: Explore, strides: seq<Cell>, cutoff: nat, startId: int, lowId: int) {
    && MetasInv(st.metas, strides, cutoff, startId, lowId)
    && PiecesInv(st.metas, st.pieces, st.expl)
    && OccInv(st.occ, strides)
  }

  predicate MetasInv(metas: LMap<int, MetaPattern>, strides: seq<Cell>, cutoff: nat, startId: int, lowId: int) {
    && ValidMap(metas) && Consecutive(metas, startId)
    && forall t :: 0 <= t < |metas| ==>
         var mp := metas[t].val;
         mp.order == 0 && mp.sub == Some(lowId) && mp.pat.n >= cutoff && Cell(mp.pat.i, mp.pat.j) in strides
  }

  ghost predicate PiecesInv(metas: LMap<int, MetaPattern>, pieces: LMap<Cell, int>, expl: Taken) {
    && ValidMap(pieces)
    && (forall t :: 0 <= t < |pieces| ==> HasKey(metas, pieces[t].val))
    && (forall t :: 0 <= t < |pieces| ==> pieces[t].key in expl && expl[pieces[t].key])
    && (forall d :: CoverCount(PiecesOf(metas, pieces), d) == if d in expl && expl[d] then 1 else 0)
  }

  predicate OccInv(occ: seq<Occ>, strides: seq<Cell>) {
    && (forall a, b :: 0 <= a < b < |occ| ==> occ[a].stride != occ[b].stride)
    && (forall t :: 0 <= t < |occ| ==> occ[t].stride in strides && occ[t].count >= 0)
  }

  /** A key of a consecutive map lies in its id range. */
  lemma ConsecutiveKeys(metas: LMap<int, MetaPattern>, startId: int, id: int)
    requires Consecutive(metas, startId)
    ensures HasKey(metas, id) <==> startId <= id < startId + |metas|
  {
    if startId <= id < startId + |metas| {
      assert metas[id - startId].key == id;
    }
  }

  /**
   * The append routine on the metapattern list: either the list is unchanged
   * (same pattern as the back entry) or it gains the next id at the back;
   * either way the new piece's id stands for its pattern and no other id
   * changes meaning.
   */
  lemma RecordMetas(metas: LMap<int, MetaPattern>, best: Piece, startId: int, lowId: int)
    requires ValidMap(metas) && Consecutive(metas, startId)
    requires forall t :: 0 <= t < |metas| ==> metas[t].val.order == 0 && metas[t].val.sub == Some(lowId)
    ensures var m' := Insert(metas, PatId(metas, best, startId), MetaPattern(best.pat, 0, Some(lowId)));
            && ValidMap(m') && Consecutive(m', startId) && |m'| > 0
            && (m' == metas || m' == metas + [Entry(startId + |metas|, MetaPattern(best.pat, 0, Some(lowId)))])
            && Get(m', PatId(metas, best, startId)) == Some(MetaPattern(best.pat, 0, Some(lowId)))
            && forall id :: HasKey(metas, id) ==> Get(m', id) == Get(metas, id)
  {
    var patId := PatId(metas, best, startId);
    var mp := MetaPattern(best.pat, 0, Some(lowId));
    var m' := Insert(metas, patId, mp);
    if |metas| > 0 && metas[|metas| - 1].val.pat == best.pat {
      RemoveBack(metas);
      assert metas[|metas| - 1] == Entry(patId, mp);
      assert m' == metas;
      GetEntry(metas, |metas| - 1);
    } else {
      ConsecutiveKeys(metas, startId, patId);
      InsertAbsent(metas, patId, mp);
      GetAppend(metas, patId, mp, patId);
      forall id | HasKey(metas, id)
        ensures Get(m', id) == Get(metas, id)
      {
        GetAppend(metas, patId, mp, id);
      }
    }
  }

  /** Recording a piece at an origin that is not yet recorded appends it to the piece list. */
  lemma RecordPieces(metas: LMap<int, MetaPattern>, pieces: LMap<Cell, int>, best: Piece, startId: int, lowId: int)
    requires ValidMap(metas) && Consecutive(metas, startId)
    requires forall t :: 0 <= t < |metas| ==> metas[t].val.order == 0 && metas[t].val.sub == Some(lowId)
    requires ValidMap(pieces) && !HasKey(pieces, Cell(best.row, best.col))
    requires forall t :: 0 <= t < |pieces| ==> HasKey(metas, pieces[t].val)
    ensures var r := Record(metas, pieces, best, startId, lowId);
            && ValidMap(r.1)
            && (forall t :: 0 <= t < |r.1| ==> HasKey(r.0, r.1[t].val))
            && PiecesOf(r.0, r.1) == PiecesOf(metas, pieces) + [best]
  {
    var r := Record(metas, pieces, best, startId, lowId);
    var patId := PatId(metas, best, startId);
    RecordMetas(metas, best, startId, lowId);
    InsertAbsent(pieces, Cell(best.row, best.col), patId);
    assert r.1 == pieces + [Entry(Cell(best.row, best.col), patId)];
    PiecesOfSnoc(metas, r.0, pieces, Cell(best.row, best.col), patId, best.pat);
  }

  /**
   * Appending an origin whose id names pattern `p` to the piece list, with a
   * metapattern table that keeps every id it had, appends `p` at that origin.
   */
  lemma PiecesOfSnoc(metas: LMap<int, MetaPattern>, metas': LMap<int, MetaPattern>, pieces: LMap<Cell, int>,
                     k: Cell, id: int, p: Pattern)
    requires forall t :: 0 <= t < |pieces| ==> HasKey(metas, pieces[t].val)
    requires forall x :: HasKey(metas, x) ==> Get(metas', x) == Get(metas, x)
    requires Get(metas', id).Some? && Get(metas', id).value.pat == p
    ensures forall t :: 0 <= t < |pieces + [Entry(k, id)]| ==> HasKey(metas', (pieces + [Entry(k, id)])[t].val)
    ensures PiecesOf(metas', pieces + [Entry(k, id)]) == PiecesOf(metas, pieces) + [Piece(k.row, k.col, p)]
  {
    var ps := pieces + [Entry(k, id)];
    forall t | 0 <= t < |ps|
      ensures HasKey(metas', ps[t].val)
    {
      if t < |pieces| {
        assert ps[t] == pieces[t];
        assert HasKey(metas, pieces[t].val);
      }
    }
    var before := PiecesOf(metas, pieces);
    var after := PiecesOf(metas', ps);
    forall t | 0 <= t < |after|
      ensures after[t] == (before + [Piece(k.row, k.col, p)])[t]
    {
      if t < |pieces| {
        assert ps[t] == pieces[t];
        assert HasKey(metas, pieces[t].val);
      }
    }
  }

  /** One round that found `best`: count fix-up, marking, and the append routine. */
  function Next(st: Explore, best: Piece, startId: int, lowId: int): Explore
    requires forall d :: d in Cells(best) ==> d in st.expl
  {
    var rec := Record(st.metas, st.pieces, best, startId, lowId);
    Explore(Decrement(st.occ, Cell(best.pat.i, best.pat.j), best.pat.n - 1), MarkPiece(st.expl, best), rec.0, rec.1)
  }

  /** The found origins after marking a piece of free origins are covered once more each. */
  lemma MarkCover(ps: seq<Piece>, expl: Taken, best: Piece)
    requires forall d :: d in Cells(best) ==> Free(expl, d)
    requires forall d :: CoverCount(ps, d) == if d in expl && expl[d] then 1 else 0
    ensures forall d :: d in Cells(best) ==> d in expl
    ensures forall d :: CoverCount(ps + [best], d) == if d in MarkPiece(expl, best) && MarkPiece(expl, best)[d] then 1 else 0
  {
    var expl' := MarkPiece(expl, best);
    forall d
      ensures CoverCount(ps + [best], d) == if d in expl' && expl'[d] then 1 else 0
    {
      CoverCountAppend(ps, [best], d);
      assert [best][..0] == [];
    }
  }

  /** A round that finds a piece keeps the exploration invariant. */
  lemma NextInv(st: Explore, csr: seq<Cell>, best: Piece, strides: seq<Cell>, cutoff: nat, startId: int, lowId: int)
    requires ExploreInv(st, strides, cutoff, startId, lowId)
    requires cutoff >= 1 && best.pat.n >= cutoff
    requires exists q :: 0 <= q < |st.occ| && Candidate(st.expl, csr, WindowPattern(st.occ[q]), best)
    ensures forall d :: d in Cells(best) ==> d in st.expl
    ensures ExploreInv(Next(st, best, startId, lowId), strides, cutoff, startId, lowId)
    ensures |Next(st, best, startId, lowId).metas| > 0
  {
    var q :| 0 <= q < |st.occ| && Candidate(st.expl, csr, WindowPattern(st.occ[q]), best);
    assert Cell(best.pat.i, best.pat.j) == st.occ[q].stride;
    NextMetas(st.metas, best, strides, cutoff, startId, lowId);
    NextPieces(st, best, cutoff, startId, lowId);
    NextOcc(st.occ, q, best, strides);
  }

  lemma NextMetas(metas: LMap<int, MetaPattern>, best: Piece, strides: seq<Cell>, cutoff: nat, startId: int, lowId: int)
    requires MetasInv(metas, strides, cutoff, startId, lowId)
    requires best.pat.n >= cutoff && Cell(best.pat.i, best.pat.j) in strides
    ensures var m' := Insert(metas, PatId(metas, best, startId), MetaPattern(best.pat, 0, Some(lowId)));
            MetasInv(m', strides, cutoff, startId, lowId) && |m'| > 0
  {
    RecordMetas(metas, best, startId, lowId);
    var m' := Insert(metas, PatId(metas, best, startId), MetaPattern(best.pat, 0, Some(lowId)));
    forall t | 0 <= t < |m'|
      ensures var mp := m'[t].val;
              mp.order == 0 && mp.sub == Some(lowId) && mp.pat.n >= cutoff && Cell(mp.pat.i, mp.pat.j) in strides
    {
      if t >= |metas| {
        assert m'[t].val == MetaPattern(best.pat, 0, Some(lowId));
      } else {
        assert m'[t] == metas[t];
      }
    }
  }

  lemma NextPieces(st: Explore, best: Piece, cutoff: nat, startId: int, lowId: int)
    requires ValidMap(st.metas) && Consecutive(st.metas, startId)
    requires forall t :: 0 <= t < |st.metas| ==> st.metas[t].val.order == 0 && st.metas[t].val.sub == Some(lowId)
    requires PiecesInv(st.metas, st.pieces, st.expl)
    requires best.pat.n >= 1
    requires forall d :: d in Cells(best) ==> Free(st.expl, d)
    ensures forall d :: d in Cells(best) ==> d in st.expl
    ensures var nx := Next(st, best, startId, lowId); PiecesInv(nx.metas, nx.pieces, nx.expl)
  {
    var start := Cell(best.row, best.col);
    assert start == Cells(best)[0];
    assert Free(st.expl, start);
    forall t | 0 <= t < |st.pieces|
      ensures st.pieces[t].key != start
    {
      assert st.expl[st.pieces[t].key];
    }
    RecordPieces(st.metas, st.pieces, best, startId, lowId);
    MarkCover(PiecesOf(st.metas, st.pieces), st.expl, best);
    InsertAbsent(st.pieces, start, PatId(st.metas, best, startId));
    MarkedOrigins(st.pieces, st.expl, best, PatId(st.metas, best, startId));
  }

  /** After marking a piece, the recorded origins and the piece's own origin are all found. */
  lemma MarkedOrigins(pieces: LMap<Cell, int>, expl: Taken, best: Piece, id: int)
    requires best.pat.n >= 1 && forall d :: d in Cells(best) ==> d in expl
    requires forall t :: 0 <= t < |pieces| ==> pieces[t].key in expl && expl[pieces[t].key]
    ensures var ps := pieces + [Entry(Cell(best.row, best.col), id)];
            var ex := MarkPiece(expl, best);
            forall t :: 0 <= t < |ps| ==> ps[t].key in ex && ex[ps[t].key]
  {
    var ps := pieces + [Entry(Cell(best.row, best.col), id)];
    assert Cell(best.row, best.col) == Cells(best)[0];
    forall t | 0 <= t < |ps|
      ensures ps[t].key in MarkPiece(expl, best) && MarkPiece(expl, best)[ps[t].key]
    {
      if t < |pieces| {
        assert ps[t] == pieces[t];
      }
    }
  }

  lemma NextOcc(occ: seq<Occ>, q: int, best: Piece, strides: seq<Cell>)
    requires OccInv(occ, strides)
    requires 0 <= q < |occ| && Cell(best.pat.i, best.pat.j) == occ[q].stride
    requires best.pat.n <= occ[q].count + 1
    ensures OccInv(Decrement(occ, Cell(best.pat.i, best.pat.j), best.pat.n - 1), strides)
  {
    var occ' := Decrement(occ, Cell(best.pat.i, best.pat.j), best.pat.n - 1);
    forall t | 0 <= t < |occ'|
      ensures occ'[t].stride in strides && occ'[t].count >= 0
    {
      if t != q {
        assert occ[t].stride != occ[q].stride;
      }
    }
  }

  /**
   * The `'L1` loop: search rounds until one finds nothing. Every found piece
   * marks at least its own origin, which was free, so the number of unfound
   * origins bounds the number of rounds.
   */
  function ExploreLoop(st: Explore, csr: seq<Cell>, originLen: int, cutoff: nat, startId: int, lowId: int): (r: Explore)
    requires cutoff >= 1
    requires forall a :: 0 <= a < |csr| ==> csr[a] in st.expl
    decreases |Unfound(st.expl)|
    ensures r.expl.Keys == st.expl.Keys
  {
    match ScanWindows(st.occ, st.expl, csr, 0, originLen, cutoff, NoPiece(cutoff))
    case None => st
    case Some(best) =>
      MarkShrinks(st.expl, best);
      ExploreLoop(Next(st, best, startId, lowId), csr, originLen, cutoff, startId, lowId)
  }

  /** The loop keeps the exploration invariant, and once a piece is found the metapattern list is never empty again. */
  lemma {:induction false} ExploreLoopInv(st: Explore, csr: seq<Cell>, originLen: int, cutoff: nat, startId: int, lowId: int, strides: seq<Cell>)
    requires cutoff >= 1
    requires forall a :: 0 <= a < |csr| ==> csr[a] in st.expl
    requires ExploreInv(st, strides, cutoff, startId, lowId)
    decreases |Unfound(st.expl)|
    ensures ExploreInv(ExploreLoop(st, csr, originLen, cutoff, startId, lowId), strides, cutoff, startId, lowId)
    ensures |ExploreLoop(st, csr, originLen, cutoff, startId, lowId).metas| >= |st.metas|
    ensures ScanWindows(st.occ, st.expl, csr, 0, originLen, cutoff, NoPiece(cutoff)).Some? ==>
              |ExploreLoop(st, csr, originLen, cutoff, startId, lowId).metas| > 0
  {
    match ScanWindows(st.occ, st.expl, csr, 0, originLen, cutoff, NoPiece(cutoff))
    case None =>
    case Some(best) =>
      NextInv(st, csr, best, strides, cutoff, startId, lowId);
      MarkShrinks(st.expl, best);
      ExploreLoopInv(Next(st, best, startId, lowId), csr, originLen, cutoff, startId, lowId, strides);
  }

  /** The first search round of `compute_metapatterns` on a fresh exploration matrix. */
  function FirstRound(origins: seq<Cell>, cutoff: nat, minStride: nat, maxStride: nat): Option<Piece>
    requires cutoff >= 1
  {
    FreshCsr(origins);
    ScanWindows(Occurrences(Strides(origins, minStride, maxStride)), FreshExploration(origins), CsrOrder(origins), 0, |origins|, cutoff, NoPiece(cutoff))
  }

  /** Every origin of the CSR order is a cell of the fresh exploration matrix. */
  lemma FreshCsr(origins: seq<Cell>)
    ensures forall a :: 0 <= a < |CsrOrder(origins)| ==> CsrOrder(origins)[a] in FreshExploration(origins)
  {
    var csr := CsrOrder(origins);
    forall a | 0 <= a < |csr|
      ensures csr[a] in FreshExploration(origins)
    {
      assert csr[a] in csr;
    }
  }

  /** The exploration state after the `'L1` loop, started from fresh tables. */
  function Explored(origins: seq<Cell>, cutoff: nat, startId: int, lowId: int, minStride: nat, maxStride: nat): Explore
    requires cutoff >= 1
  {
    var st := Explore(Occurrences(Strides(origins, minStride, maxStride)), FreshExploration(origins), [], []);
    FreshCsr(origins);
    ExploreLoop(st, CsrOrder(origins), |origins|, cutoff, startId, lowId)
  }

  lemma ExploredInv(origins: seq<Cell>, cutoff: nat, startId: int, lowId: int, minStride: nat, maxStride: nat)
    requires cutoff >= 1
    ensures var fin := Explored(origins, cutoff, startId, lowId, minStride, maxStride);
            && ExploreInv(fin, Strides(origins, minStride, maxStride), cutoff, startId, lowId)
            && (forall c :: c in fin.expl <==> c in origins)
            && (|fin.metas| > 0 <==> FirstRound(origins, cutoff, minStride, maxStride).Some?)
  {
    var strides := Strides(origins, minStride, maxStride);
    var st := Explore(Occurrences(strides), FreshExploration(origins), [], []);
    FreshInv(origins, strides, cutoff, startId, lowId);
    FreshCsr(origins);
    ExploreLoopInv(st, CsrOrder(origins), |origins|, cutoff, startId, lowId, strides);
  }

  /** The fresh tables satisfy the exploration invariant. */
  lemma FreshInv(origins: seq<Cell>, strides: seq<Cell>, cutoff: nat, startId: int, lowId: int)
    ensures ExploreInv(Explore(Occurrences(strides), FreshExploration(origins), [], []), strides, cutoff, startId, lowId)
  {
    var occ := Occurrences(strides);
    assert forall d :: CoverCount(PiecesOf([], []), d) == 0;
    forall t | 0 <= t < |occ|
      ensures occ[t].stride in strides && occ[t].count >= 0
    {
      assert occ[t] in occ;
    }
  }

  /**
   * `compute_metapatterns`: `None` for fewer than `piece_cutoff` origins or
   * when no piece is found; otherwise the new metapatterns, with consecutive
   * ids from `start_id`, each `(p, 0, Some(low_order_id))` with `n >=
   * piece_cutoff` and a retained stride, and the origins of the new pieces,
   * whose cells lie on the origins and never overlap.
   */
  function ComputeMetapatterns(origins: seq<Cell>, cutoff: nat, startId: int, lowId: int, minStride: nat, maxStride: nat)
    : (r: Option<(LMap<int, MetaPattern>, LMap<Cell, int>)>)
    requires cutoff >= 1
    ensures |origins| < cutoff ==> r.None?
    ensures r.None? <==> |origins| < cutoff || FirstRound(origins, cutoff, minStride, maxStride).None?
    ensures r.Some? ==> |r.value.0| > 0 && MetasInv(r.value.0, Strides(origins, minStride, maxStride), cutoff, startId, lowId)
    ensures r.Some? ==> ValidMap(r.value.1) && forall t :: 0 <= t < |r.value.1| ==> HasKey(r.value.0, r.value.1[t].val)
    ensures r.Some? ==> forall d :: CoverCount(PiecesOf(r.value.0, r.value.1), d) <= if d in origins then 1 else 0
  {
    if |origins| < cutoff then None
    else
      var fin := Explored(origins, cutoff, startId, lowId, minStride, maxStride);
      ExploredResult(origins, cutoff, startId, lowId, minStride, maxStride);
      if |fin.metas| > 0 then Some((fin.metas, fin.pieces)) else None
  }

  /** What the `'L1` loop hands back, as `compute_metapatterns` returns it. */
  lemma ExploredResult(origins: seq<Cell>, cutoff: nat, startId: int, lowId: int, minStride: nat, maxStride: nat)
    requires cutoff >= 1
    ensures var fin := Explored(origins, cutoff, startId, lowId, minStride, maxStride);
            && (|fin.metas| > 0 <==> FirstRound(origins, cutoff, minStride, maxStride).Some?)
            && MetasInv(fin.metas, Strides(origins, minStride, maxStride), cutoff, startId, lowId)
            && ValidMap(fin.pieces) && (forall t :: 0 <= t < |fin.pieces| ==> HasKey(fin.metas, fin.pieces[t].val))
            && forall d :: CoverCount(PiecesOf(fin.metas, fin.pieces), d) <= if d in origins then 1 else 0
  {
    var fin := Explored(origins, cutoff, startId, lowId, minStride, maxStride);
    ExploredInv(origins, cutoff, startId, lowId, minStride, maxStride);
    assert PiecesInv(fin.metas, fin.pieces, fin.expl);
    forall d
      ensures CoverCount(PiecesOf(fin.metas, fin.pieces), d) <= if d in origins then 1 else 0
    {
    }
  }

  /** The pieces `compute_metapatterns` returns lie on the origins and are pairwise disjoint. */
  lemma ComputedPiecesDisjoint(origins: seq<Cell>, cutoff: nat, startId: int, lowId: int, minStride: nat, maxStride: nat)
    requires cutoff >= 1
    requires ComputeMetapatterns(origins, cutoff, startId, lowId, minStride, maxStride).Some?
    ensures var r := ComputeMetapatterns(origins, cutoff, startId, lowId, minStride, maxStride).value;
            var ps := PiecesOf(r.0, r.1);
            && (forall t, d :: 0 <= t < |ps| && d in Cells(ps[t]) ==> d in origins)
            && (forall a, b, d :: 0 <= a < b < |ps| && d in Cells(ps[a]) ==> d !in Cells(ps[b]))
  {
    var r := ComputeMetapatterns(origins, cutoff, startId, lowId, minStride, maxStride).value;
    var ps := PiecesOf(r.0, r.1);
    forall t, d | 0 <= t < |ps| && d in Cells(ps[t])
      ensures d in origins
    {
      CoverCountPositive(ps, d, t);
    }
    forall a, b, d | 0 <= a < b < |ps| && d in Cells(ps[a])
      ensures d !in Cells(ps[b])
    {
      CoverOnceDisjoint(ps, d, a, b);
    }
  }
}
