/**
 * The `SpAugment` struct of `src/spaugment.rs`: the metapattern table and the
 * piece table, built from a one-dimensional origin/uwc list and then raised
 * one dimension at a time by `augment_dimensionality`.
 *
 * Both tables are `LinkedHashMap`s: metapatterns keyed by id, pieces keyed by
 * their origin cell with the id of the metapattern anchored there. Id `-1`
 * marks a leftover single nonzero.
 */
module Augment {
  import opened Wrappers
  import opened Sparse
  import opened LinkedMap
  import opened Utils
  import opened SpAugment

  datatype State = State(nrows: int, ncols: int, nnz: int, metas: LMap<int, MetaPattern>, pieces: LMap<Cell, int>)

  // ------------------------------------------------ from_1d_origin_uwc_list

  /** An origin/uwc entry `orig_uwc_to_piece_1d` can read: `w[0]`, `c[0]` and `c[1]` exist. */
  predicate Readable(list: seq<(OriginUwc, int)>) {
    forall t :: 0 <= t < |list| ==> |list[t].0.uwc.w| >= 1 && |list[t].0.uwc.c| >= 2
  }

  /** The origin an entry of the list is anchored at. */
  function OriginOf(e: (OriginUwc, int)): Cell {
    Cell(e.0.x, e.0.y)
  }

  /** The one-dimensional metapattern an entry describes: `((n, i, j), 1, None)`. */
  function BaseMeta(e: (OriginUwc, int)): MetaPattern
    requires |e.0.uwc.w| >= 1 && |e.0.uwc.c| >= 2
  {
    MetaPattern(OrigUwcToPiece1d(e.0).pat, 1, None)
  }

  /** The piece table: every origin mapped to its id, collected in list order. */
  function PiecesFrom(list: seq<(OriginUwc, int)>): (r: LMap<Cell, int>)
    requires Readable(list)
    ensures ValidMap(r)
  {
    if |list| == 0 then []
    else
      var front := PiecesFrom(list[..|list| - 1]);
      var pc := OrigUwcToPiece1d(list[|list| - 1].0);
      InsertValid(front, Cell(pc.row, pc.col), list[|list| - 1].1);
      Insert(front, Cell(pc.row, pc.col), list[|list| - 1].1)
  }

  /** The metapattern table: one entry per distinct id, from the id's first occurrence. */
  function MetasFrom(list: seq<(OriginUwc, int)>): (r: LMap<int, MetaPattern>)
    requires Readable(list)
    ensures ValidMap(r)
  {
    if |list| == 0 then []
    else
      var front := MetasFrom(list[..|list| - 1]);
      var e := list[|list| - 1];
      if Get(front, e.1).Some? then front
      else
        InsertValid(front, e.1, BaseMeta(e));
        Insert(front, e.1, BaseMeta(e))
  }

  /** `from_1d_origin_uwc_list`. */
  function FromOriginUwcList(list: seq<(OriginUwc, int)>, nrows: int, ncols: int, nnz: int): (s: State)
    requires Readable(list)
    ensures ValidMap(s.metas) && ValidMap(s.pieces)
    ensures s.nrows == nrows && s.ncols == ncols && s.nnz == nnz
  {
    State(nrows, ncols, nnz, MetasFrom(list), PiecesFrom(list))
  }

  /** A cell that is the origin of no entry of the list has no entry in the piece map, and only such a cell. */
  lemma {:induction false} PiecesFromAbsent(list: seq<(OriginUwc, int)>, c: Cell)
    requires Readable(list)
    ensures Get(PiecesFrom(list), c).None? <==> forall t :: 0 <= t < |list| ==> OriginOf(list[t]) != c
  {
    if |list| > 0 {
      var front := list[..|list| - 1];
      var e := list[|list| - 1];
      PiecesFromAbsent(front, c);
      PiecesFromSnoc(list);
      GetInsert(PiecesFrom(front), OriginOf(e), e.1, c);
      OriginAbsentSnoc(list, front, c);
    }
  }

  lemma PiecesFromSnoc(list: seq<(OriginUwc, int)>)
    requires Readable(list) && |list| > 0
    ensures PiecesFrom(list) == Insert(PiecesFrom(list[..|list| - 1]), OriginOf(list[|list| - 1]), list[|list| - 1].1)
  {
  }

  lemma OriginAbsentSnoc(list: seq<(OriginUwc, int)>, front: seq<(OriginUwc, int)>, c: Cell)
    requires |list| > 0 && front == list[..|list| - 1]
    ensures (forall t :: 0 <= t < |list| ==> OriginOf(list[t]) != c) <==>
            (forall t :: 0 <= t < |front| ==> OriginOf(front[t]) != c) && OriginOf(list[|list| - 1]) != c
  {
  }

  /** Each origin of the list maps to the id of its LAST entry in the list. */
  lemma {:induction false} PiecesFromLast(list: seq<(OriginUwc, int)>, c: Cell, t: int)
    requires Readable(list)
    requires 0 <= t < |list| && OriginOf(list[t]) == c
    requires forall u :: t < u < |list| ==> OriginOf(list[u]) != c
    ensures Get(PiecesFrom(list), c) == Some(list[t].1)
  {
    var front := list[..|list| - 1];
    var e := list[|list| - 1];
    PiecesFromSnoc(list);
    GetInsert(PiecesFrom(front), OriginOf(e), e.1, c);
    if t < |front| {
      assert OriginOf(e) != c;
      assert front[t] == list[t];
      assert forall u :: t < u < |front| ==> front[u] == list[u];
      PiecesFromLast(front, c, t);
    }
  }

  /** An id that does not occur in the list has no metapattern, and one that occurs has one. */
  lemma {:induction false} MetasFromKeys(list: seq<(OriginUwc, int)>, id: int)
    requires Readable(list)
    ensures Get(MetasFrom(list), id).None? <==> forall t :: 0 <= t < |list| ==> list[t].1 != id
  {
    if |list| > 0 {
      var front := list[..|list| - 1];
      var e := list[|list| - 1];
      var m := MetasFrom(front);
      MetasFromKeys(front, id);
      IdAbsentSnoc(list, front, id);
      if Get(m, e.1).None? {
        GetInsert(m, e.1, BaseMeta(e), id);
      }
    }
  }

  lemma IdAbsentSnoc(list: seq<(OriginUwc, int)>, front: seq<(OriginUwc, int)>, id: int)
    requires |list| > 0 && front == list[..|list| - 1]
    ensures (forall t :: 0 <= t < |list| ==> list[t].1 != id) <==>
            (forall t :: 0 <= t < |front| ==> front[t].1 != id) && list[|list| - 1].1 != id
  {
  }

  /** The metapattern of an id is `((n, i, j), 1, None)` built from the id's FIRST entry in the list. */
  lemma {:induction false} MetasFromFirst(list: seq<(OriginUwc, int)>, t: int)
    requires Readable(list)
    requires 0 <= t < |list|
    requires forall u :: 0 <= u < t ==> list[u].1 != list[t].1
    ensures Get(MetasFrom(list), list[t].1) == Some(BaseMeta(list[t]))
  {
    var front := list[..|list| - 1];
    var e := list[|list| - 1];
    var id := list[t].1;
    var m := MetasFrom(front);
    FirstSnoc(list, front, t);
    if t < |front| {
      MetasFromFirst(front, t);
      if Get(m, e.1).None? {
        GetInsert(m, e.1, BaseMeta(e), id);
      }
    } else {
      MetasFromKeys(front, id);
      GetInsert(m, e.1, BaseMeta(e), id);
    }
  }

  lemma FirstSnoc(list: seq<(OriginUwc, int)>, front: seq<(OriginUwc, int)>, t: int)
    requires 0 <= t < |list| && front == list[..|list| - 1]
    requires forall u :: 0 <= u < t ==> list[u].1 != list[t].1
    ensures t < |front| ==> front[t] == list[t] && forall u :: 0 <= u < t ==> front[u].1 != front[t].1
    ensures t == |front| ==> forall u :: 0 <= u < |front| ==> front[u].1 != list[t].1
  {
  }


  // -------------------------------------- augment_dimensionality: grouping

  /** The piece table without leftover single nonzeros: `filter(|(_, id)| *id != -1)`. */
  function NonSingle(pieces: LMap<Cell, int>): (r: LMap<Cell, int>)
    ensures forall e :: e in r <==> e in pieces && e.val != -1
    ensures ValidMap(pieces) ==> ValidMap(r)
  {
    if |pieces| == 0 then []
    else
      var front := NonSingle(pieces[..|pieces| - 1]);
      var last := pieces[|pieces| - 1];
      assert pieces == pieces[..|pieces| - 1] + [last];
      assert forall e :: e in pieces <==> e in pieces[..|pieces| - 1] || e == last;
      if last.val == -1 then front
      else
        assert ValidMap(pieces) ==> forall t :: 0 <= t < |front| ==> front[t].key != last.key by {
          if ValidMap(pieces) {
            forall t | 0 <= t < |front|
              ensures front[t].key != last.key
            {
              assert front[t] in pieces[..|pieces| - 1];
            }
          }
        }
        front + [last]
  }

  /**
   * The state of the grouping loop: the origins of the current run of equal
   * ids, that id, the next free id (`start_id`), and the metapatterns and
   * pieces found so far.
   */
  datatype Grouping = Grouping(origins: seq<Cell>, currId: int, nextId: int, metas: LMap<int, MetaPattern>, pieces: LMap<Cell, int>)

  /** End of a run: `compute_metapatterns` on its origins, then `origins_list.clear()`. */
  function Flush(g: Grouping, cutoff: nat, minStride: nat, maxStride: nat): (f: Grouping)
    requires cutoff >= 1
    ensures f.origins == [] && f.currId == g.currId
  {
    match ComputeMetapatterns(g.origins, cutoff, g.nextId, g.currId, minStride, maxStride)
    case None => g.(origins := [])
    case Some((m, p)) => Grouping([], g.currId, g.nextId + |m|, Extend(g.metas, m), Extend(g.pieces, p))
  }

  /** One iteration of the loop: a change of id ends the run, then the origin joins the current run. */
  function Feed(g: Grouping, e: Entry<Cell, int>, cutoff: nat, minStride: nat, maxStride: nat): Grouping
    requires cutoff >= 1
  {
    var g1 := if e.val != g.currId then Flush(g, cutoff, minStride, maxStride).(currId := e.val) else g;
    g1.(origins := g1.origins + [e.key])
  }

  /** The loop over the entries, from `curr_id = 0` and no origins. */
  function Run(entries: LMap<Cell, int>, startId: int, cutoff: nat, minStride: nat, maxStride: nat): Grouping
    requires cutoff >= 1
  {
    if |entries| == 0 then Grouping([], 0, startId, [], [])
    else Feed(Run(entries[..|entries| - 1], startId, cutoff, minStride, maxStride), entries[|entries| - 1], cutoff, minStride, maxStride)
  }

  /**
   * The whole loop: every run, the last one flushed when the iterator is
   * exhausted. No origin is left pending, and the metapatterns found carry
   * consecutive ids from `start_id`, `nextId` the next free one.
   */
  function Grouped(entries: LMap<Cell, int>, startId: int, cutoff: nat, minStride: nat, maxStride: nat): (g: Grouping)
    requires cutoff >= 1
    ensures g.origins == []
    ensures IdsInv(g.metas, g.nextId, startId)
  {
    RunIds(entries, startId, cutoff, minStride, maxStride);
    FlushIds(Run(entries, startId, cutoff, minStride, maxStride), startId, cutoff, minStride, maxStride);
    Flush(Run(entries, startId, cutoff, minStride, maxStride), cutoff, minStride, maxStride)
  }

  /** The metapatterns found so far: consecutive ids from `startId`, `nextId` the next one. */
  predicate IdsInv(metas: LMap<int, MetaPattern>, nextId: int, startId: int) {
    ValidMap(metas) && Consecutive(metas, startId) && nextId == startId + |metas|
  }

  /** Appending a block of consecutive ids right after another. */
  lemma ConsecutiveExtend(a: LMap<int, MetaPattern>, b: LMap<int, MetaPattern>, startId: int)
    requires ValidMap(a) && Consecutive(a, startId)
    requires ValidMap(b) && Consecutive(b, startId + |a|)
    ensures Extend(a, b) == a + b
    ensures ValidMap(a + b) && Consecutive(a + b, startId)
  {
    ExtendAbsent(a, b);
    ExtendValid(a, b);
  }

  lemma FlushIds(g: Grouping, startId: int, cutoff: nat, minStride: nat, maxStride: nat)
    requires cutoff >= 1
    requires IdsInv(g.metas, g.nextId, startId)
    ensures var f := Flush(g, cutoff, minStride, maxStride); IdsInv(f.metas, f.nextId, startId)
  {
    var r := ComputeMetapatterns(g.origins, cutoff, g.nextId, g.currId, minStride, maxStride);
    if r.Some? {
      var m := r.value.0;
      assert ValidMap(m) && Consecutive(m, g.nextId);
      ConsecutiveExtend(g.metas, m, startId);
    }
  }

  lemma {:induction false} RunIds(entries: LMap<Cell, int>, startId: int, cutoff: nat, minStride: nat, maxStride: nat)
    requires cutoff >= 1
    ensures var g := Run(entries, startId, cutoff, minStride, maxStride); IdsInv(g.metas, g.nextId, startId)
    decreases |entries|
  {
    if |entries| > 0 {
      var g := Run(entries[..|entries| - 1], startId, cutoff, minStride, maxStride);
      RunIds(entries[..|entries| - 1], startId, cutoff, minStride, maxStride);
      FlushIds(g, startId, cutoff, minStride, maxStride);
    }
  }

  /** The piece a table entry stands for: its origin, with the pattern of its id. */
  function PieceOf(metas: LMap<int, MetaPattern>, e: Entry<Cell, int>): Piece {
    Piece(e.key.row, e.key.col, match Get(metas, e.val) case Some(mp) => mp.pat case None => Pattern(0, 0, 0))
  }

  /**
   * What the loop keeps about the pieces found so far: distinct origins, each
   * with a metapattern of at least one cell and a non-zero stride, and no
   * cell covered twice or outside the origins of the runs already flushed.
   */
  ghost predicate CoverInv(metas: LMap<int, MetaPattern>, pieces: LMap<Cell, int>, flushed: LMap<Cell, int>) {
    && ValidMap(pieces)
    && (forall t :: 0 <= t < |pieces| ==> HasKey(metas, pieces[t].val))
    && (forall t :: 0 <= t < |metas| ==> metas[t].val.pat.n >= 1 && NonDegenerate(metas[t].val.pat))
    && forall d :: CoverCount(PiecesOf(metas, pieces), d) <= if d in Keys(flushed) then 1 else 0
  }

  /** The current run is the tail of the entries seen so far; everything before it is flushed. */
  ghost predicate RunInv(g: Grouping, done: LMap<Cell, int>, startId: int) {
    && |g.origins| <= |done|
    && (forall t :: 0 <= t < |g.origins| ==> done[|done| - |g.origins| + t] == Entry(g.origins[t], g.currId))
    && IdsInv(g.metas, g.nextId, startId)
    && CoverInv(g.metas, g.pieces, done[..|done| - |g.origins|])
  }

  /** Origins are distinct, so no retained stride is zero. */
  lemma StrideNonzero(o: seq<Cell>, s: Cell, minStride: nat, maxStride: nat)
    requires Distinct(o)
    requires s in Strides(o, minStride, maxStride)
    ensures s != Cell(0, 0)
  {
    var a, b :| 0 <= a < b < |o| && s == Diff(o[b], o[a]) && StrideInRange(s, minStride, maxStride);
  }

  /** A piece whose pattern has a cell covers its origin. */
  lemma OriginCovered(ps: seq<Piece>, t: int)
    requires 0 <= t < |ps| && ps[t].pat.n >= 1
    ensures CoverCount(ps, Cell(ps[t].row, ps[t].col)) >= 1
  {
    assert Cells(ps[t])[0] == Cell(ps[t].row, ps[t].col);
    CoverCountPositive(ps, Cell(ps[t].row, ps[t].col), t);
  }

  /** The pieces of two tables with disjoint id blocks, side by side. */
  lemma PiecesOfConcat(metas: LMap<int, MetaPattern>, pieces: LMap<Cell, int>, m: LMap<int, MetaPattern>, p: LMap<Cell, int>)
    requires forall t :: 0 <= t < |pieces| ==> HasKey(metas, pieces[t].val) && !HasKey(m, pieces[t].val)
    requires forall t :: 0 <= t < |p| ==> HasKey(m, p[t].val)
    ensures forall t :: 0 <= t < |pieces + p| ==> HasKey(metas + m, (pieces + p)[t].val)
    ensures PiecesOf(metas + m, pieces + p) == PiecesOf(metas, pieces) + PiecesOf(m, p)
  {
    forall t | 0 <= t < |pieces + p|
      ensures HasKey(metas + m, (pieces + p)[t].val)
    {
      var v := (pieces + p)[t].val;
      GetConcat(metas, m, v);
      if t < |pieces| {
        assert Get(metas, v).Some?;
      } else {
        assert p[t - |pieces|].val == v;
      }
    }
    forall t | 0 <= t < |pieces + p|
      ensures PiecesOf(metas + m, pieces + p)[t] == (PiecesOf(metas, pieces) + PiecesOf(m, p))[t]
    {
      var v := (pieces + p)[t].val;
      GetConcat(metas, m, v);
      if t >= |pieces| {
        assert p[t - |pieces|].val == v;
      }
    }
  }

  /** The current run and the flushed entries before it have no origin in common. */
  lemma RunKeys(g: Grouping, done: LMap<Cell, int>, startId: int)
    requires ValidMap(done)
    requires RunInv(g, done, startId)
    ensures var pre := done[..|done| - |g.origins|];
            && (forall d :: d in Keys(pre) ==> d in Keys(done) && d !in g.origins)
            && (forall d :: d in g.origins ==> d in Keys(done))
            && Distinct(g.origins)
  {
    var sp := |done| - |g.origins|;
    var pre := done[..sp];
    forall d | d in Keys(pre)
      ensures d in Keys(done) && d !in g.origins
    {
      var a :| 0 <= a < |pre| && Keys(pre)[a] == d;
      assert Keys(done)[a] == d;
    }
    forall d | d in g.origins
      ensures d in Keys(done)
    {
      var t :| 0 <= t < |g.origins| && g.origins[t] == d;
      assert Keys(done)[sp + t] == d;
    }
    forall a, b | 0 <= a < b < |g.origins|
      ensures g.origins[a] != g.origins[b]
    {
      assert done[sp + a].key == g.origins[a] && done[sp + b].key == g.origins[b];
    }
  }

  /** Adding the metapatterns and pieces of one run whose origins are new. */
  lemma FlushSome(metas: LMap<int, MetaPattern>, pieces: LMap<Cell, int>, nextId: int, startId: int,
                  m: LMap<int, MetaPattern>, p: LMap<Cell, int>, origins: seq<Cell>, pre: LMap<Cell, int>, done: LMap<Cell, int>)
    requires IdsInv(metas, nextId, startId) && CoverInv(metas, pieces, pre)
    requires ValidMap(m) && Consecutive(m, nextId)
    requires forall t :: 0 <= t < |m| ==> m[t].val.pat.n >= 1 && NonDegenerate(m[t].val.pat)
    requires ValidMap(p) && forall t :: 0 <= t < |p| ==> HasKey(m, p[t].val)
    requires forall d :: CoverCount(PiecesOf(m, p), d) <= if d in origins then 1 else 0
    requires forall d :: d in Keys(pre) ==> d in Keys(done) && d !in origins
    requires forall d :: d in origins ==> d in Keys(done)
    ensures Extend(metas, m) == metas + m && Extend(pieces, p) == pieces + p
    ensures CoverInv(metas + m, pieces + p, done)
  {
    ConsecutiveExtend(metas, m, startId);
    NewOrigins(metas, pieces, m, p, origins, pre);
    ExtendAbsent(pieces, p);
    ExtendValid(pieces, p);
    OldIdsNotNew(metas, pieces, m, nextId, startId);
    PiecesOfConcat(metas, pieces, m, p);
    CoverUnion(PiecesOf(metas, pieces), PiecesOf(m, p), origins, pre, done);
    GoodPatternsConcat(metas, m);
  }

  /** No id of the old table is an id of the block that follows it. */
  lemma OldIdsNotNew(metas: LMap<int, MetaPattern>, pieces: LMap<Cell, int>, m: LMap<int, MetaPattern>, nextId: int, startId: int)
    requires IdsInv(metas, nextId, startId) && Consecutive(m, nextId)
    requires forall t :: 0 <= t < |pieces| ==> HasKey(metas, pieces[t].val)
    ensures forall t :: 0 <= t < |pieces| ==> !HasKey(m, pieces[t].val)
  {
    forall t | 0 <= t < |pieces|
      ensures !HasKey(m, pieces[t].val)
    {
      ConsecutiveKeys(metas, startId, pieces[t].val);
      ConsecutiveKeys(m, nextId, pieces[t].val);
    }
  }

  /** Pieces covering flushed cells at most once, next to pieces covering the run's new origins at most once. */
  lemma CoverUnion(ps: seq<Piece>, qs: seq<Piece>, origins: seq<Cell>, pre: LMap<Cell, int>, done: LMap<Cell, int>)
    requires forall d :: CoverCount(ps, d) <= if d in Keys(pre) then 1 else 0
    requires forall d :: CoverCount(qs, d) <= if d in origins then 1 else 0
    requires forall d :: d in Keys(pre) ==> d in Keys(done) && d !in origins
    requires forall d :: d in origins ==> d in Keys(done)
    ensures forall d :: CoverCount(ps + qs, d) <= if d in Keys(done) then 1 else 0
  {
    forall d
      ensures CoverCount(ps + qs, d) <= if d in Keys(done) then 1 else 0
    {
      CoverCountAppend(ps, qs, d);
    }
  }

  /** Two tables of long, non-degenerate metapatterns side by side. */
  lemma GoodPatternsConcat(metas: LMap<int, MetaPattern>, m: LMap<int, MetaPattern>)
    requires forall t :: 0 <= t < |metas| ==> metas[t].val.pat.n >= 1 && NonDegenerate(metas[t].val.pat)
    requires forall t :: 0 <= t < |m| ==> m[t].val.pat.n >= 1 && NonDegenerate(m[t].val.pat)
    ensures forall t :: 0 <= t < |metas + m| ==> (metas + m)[t].val.pat.n >= 1 && NonDegenerate((metas + m)[t].val.pat)
  {
    forall t | 0 <= t < |metas + m|
      ensures (metas + m)[t].val.pat.n >= 1 && NonDegenerate((metas + m)[t].val.pat)
    {
      if t >= |metas| {
        assert (metas + m)[t] == m[t - |metas|];
      }
    }
  }

  /** The origins of a run's pieces are not keys of the table yet. */
  lemma NewOrigins(metas: LMap<int, MetaPattern>, pieces: LMap<Cell, int>, m: LMap<int, MetaPattern>, p: LMap<Cell, int>,
                   origins: seq<Cell>, pre: LMap<Cell, int>)
    requires CoverInv(metas, pieces, pre)
    requires forall t :: 0 <= t < |m| ==> m[t].val.pat.n >= 1
    requires forall t :: 0 <= t < |p| ==> HasKey(m, p[t].val)
    requires forall d :: CoverCount(PiecesOf(m, p), d) <= if d in origins then 1 else 0
    requires forall d :: d in Keys(pre) ==> d !in origins
    ensures forall t :: 0 <= t < |p| ==> !HasKey(pieces, p[t].key)
  {
    var ps := PiecesOf(metas, pieces);
    var qs := PiecesOf(m, p);
    forall t | 0 <= t < |p|
      ensures !HasKey(pieces, p[t].key)
    {
      var e :| 0 <= e < |m| && m[e] == Entry(p[t].val, Get(m, p[t].val).value);
      OriginCovered(qs, t);
      if HasKey(pieces, p[t].key) {
        var u :| 0 <= u < |pieces| && pieces[u].key == p[t].key;
        var e' :| 0 <= e' < |metas| && metas[e'] == Entry(pieces[u].val, Get(metas, pieces[u].val).value);
        OriginCovered(ps, u);
      }
    }
  }

  /** Flushing a run keeps the cover invariant, now over every entry seen. */
  lemma FlushCover(g: Grouping, done: LMap<Cell, int>, startId: int, cutoff: nat, minStride: nat, maxStride: nat)
    requires cutoff >= 1
    requires ValidMap(done)
    requires RunInv(g, done, startId)
    ensures var f := Flush(g, cutoff, minStride, maxStride); CoverInv(f.metas, f.pieces, done)
  {
    var pre := done[..|done| - |g.origins|];
    RunKeys(g, done, startId);
    var r := ComputeMetapatterns(g.origins, cutoff, g.nextId, g.currId, minStride, maxStride);
    if r.Some? {
      var m := r.value.0;
      var p := r.value.1;
      forall t | 0 <= t < |m|
        ensures m[t].val.pat.n >= 1 && NonDegenerate(m[t].val.pat)
      {
        StrideNonzero(g.origins, Cell(m[t].val.pat.i, m[t].val.pat.j), minStride, maxStride);
      }
      FlushSome(g.metas, g.pieces, g.nextId, startId, m, p, g.origins, pre, done);
    } else {
      forall d
        ensures CoverCount(PiecesOf(g.metas, g.pieces), d) <= if d in Keys(done) then 1 else 0
      {
      }
    }
  }

  lemma EmptyRunInv(startId: int)
    ensures RunInv(Grouping([], 0, startId, [], []), [], startId)
  {
    assert forall d :: CoverCount(PiecesOf([], []), d) == 0;
  }

  /** One iteration keeps the run invariant. */
  lemma FeedInv(g: Grouping, all: LMap<Cell, int>, startId: int, cutoff: nat, minStride: nat, maxStride: nat)
    requires cutoff >= 1 && |all| > 0
    requires ValidMap(all[..|all| - 1])
    requires RunInv(g, all[..|all| - 1], startId)
    ensures RunInv(Feed(g, all[|all| - 1], cutoff, minStride, maxStride), all, startId)
  {
    var done := all[..|all| - 1];
    var e := all[|all| - 1];
    if e.val != g.currId {
      FlushCover(g, done, startId, cutoff, minStride, maxStride);
      FlushIds(g, startId, cutoff, minStride, maxStride);
      var f := Flush(g, cutoff, minStride, maxStride);
      assert Feed(g, e, cutoff, minStride, maxStride) == f.(currId := e.val, origins := [e.key]);
      NewRunInv(f.(currId := e.val, origins := [e.key]), all, startId);
    } else {
      SameRunInv(g, all, startId);
    }
  }

  lemma NewRunInv(g: Grouping, all: LMap<Cell, int>, startId: int)
    requires |all| > 0 && g.origins == [all[|all| - 1].key] && g.currId == all[|all| - 1].val
    requires IdsInv(g.metas, g.nextId, startId) && CoverInv(g.metas, g.pieces, all[..|all| - 1])
    ensures RunInv(g, all, startId)
  {
  }

  lemma SameRunInv(g: Grouping, all: LMap<Cell, int>, startId: int)
    requires |all| > 0 && all[|all| - 1].val == g.currId
    requires RunInv(g, all[..|all| - 1], startId)
    ensures RunInv(g.(origins := g.origins + [all[|all| - 1].key]), all, startId)
  {
    var done := all[..|all| - 1];
    assert all[..|all| - (|g.origins| + 1)] == done[..|done| - |g.origins|];
    assert forall t :: 0 <= t < |done| ==> all[t] == done[t];
  }

  /** The loop keeps its run invariant over the entries it has seen. */
  lemma {:induction false} RunCover(entries: LMap<Cell, int>, startId: int, cutoff: nat, minStride: nat, maxStride: nat)
    requires cutoff >= 1
    requires ValidMap(entries)
    ensures RunInv(Run(entries, startId, cutoff, minStride, maxStride), entries, startId)
    decreases |entries|
  {
    if |entries| == 0 {
      EmptyRunInv(startId);
    } else {
      var done := entries[..|entries| - 1];
      RunCover(done, startId, cutoff, minStride, maxStride);
      FeedInv(Run(done, startId, cutoff, minStride, maxStride), entries, startId, cutoff, minStride, maxStride);
    }
  }

  /** After the loop, the new pieces cover only origins of the entries, each at most once. */
  lemma GroupedCover(entries: LMap<Cell, int>, startId: int, cutoff: nat, minStride: nat, maxStride: nat)
    requires cutoff >= 1
    requires ValidMap(entries)
    ensures var g := Grouped(entries, startId, cutoff, minStride, maxStride);
            IdsInv(g.metas, g.nextId, startId) && CoverInv(g.metas, g.pieces, entries)
  {
    RunCover(entries, startId, cutoff, minStride, maxStride);
    var g := Run(entries, startId, cutoff, minStride, maxStride);
    FlushCover(g, entries, startId, cutoff, minStride, maxStride);
    FlushIds(g, startId, cutoff, minStride, maxStride);
  }

  // ---------------------------------- augment_dimensionality: invalidation

  /** `get_mut(&id).unwrap().1 = order`: one metapattern's order, changed in place. */
  function SetOrder(metas: LMap<int, MetaPattern>, id: int, order: int): (r: LMap<int, MetaPattern>)
    ensures |r| == |metas|
    ensures forall t :: 0 <= t < |r| ==> r[t].key == metas[t].key
  {
    seq(|metas|, t requires 0 <= t < |metas| =>
      if metas[t].key == id then Entry(id, metas[t].val.(order := order)) else metas[t])
  }

  /** Only the order of `id` changes; every id keeps its entry. */
  lemma {:induction false} GetSetOrder(metas: LMap<int, MetaPattern>, id: int, order: int, k: int)
    ensures Get(SetOrder(metas, id, order), k).Some? == Get(metas, k).Some?
    ensures Get(metas, k).Some? ==>
              Get(SetOrder(metas, id, order), k).value == if k == id then Get(metas, k).value.(order := order) else Get(metas, k).value
  {
    if |metas| > 0 {
      var front := metas[..|metas| - 1];
      assert SetOrder(metas, id, order)[..|metas| - 1] == SetOrder(front, id, order);
      GetSetOrder(front, id, order, k);
    }
  }

  /** The cells of a piece from offset `k` on; none when `k` is past its end. */
  function CellsFrom(pc: Piece, k: nat): seq<Cell> {
    if k <= Len(pc.pat) then Cells(pc)[k..] else []
  }

  /** The loop `for ii in k..n { remove(origin + ii*(i, j)) }`; an empty range when `n <= k`. */
  function RemoveRun(pieces: LMap<Cell, int>, pc: Piece, k: nat): (r: LMap<Cell, int>)
    decreases Len(pc.pat) - k
    ensures ValidMap(pieces) ==> ValidMap(r)
  {
    if k >= Len(pc.pat) then pieces
    else
      assert ValidMap(pieces) ==> ValidMap(Remove(pieces, CellAt(pc, k))) by {
        if ValidMap(pieces) {
          RemoveValid(pieces, CellAt(pc, k));
        }
      }
      RemoveRun(Remove(pieces, CellAt(pc, k)), pc, k + 1)
  }

  /** Exactly the cells `k .. n-1` of the piece lose their entry. */
  lemma {:induction false} GetRemoveRun(pieces: LMap<Cell, int>, pc: Piece, k: nat, c: Cell)
    decreases Len(pc.pat) - k
    ensures Get(RemoveRun(pieces, pc, k), c) == if c in CellsFrom(pc, k) then None else Get(pieces, c)
  {
    if k < Len(pc.pat) {
      assert Cells(pc)[k..] == [CellAt(pc, k)] + Cells(pc)[k + 1..];
      GetRemoveRun(Remove(pieces, CellAt(pc, k)), pc, k + 1, c);
      GetRemove(pieces, CellAt(pc, k), c);
    }
  }

  /**
   * The invalidation loop over the pieces of the new metapatterns: each sets
   * its metapattern's order to `order` and removes the origins at offsets
   * `1 .. n-1` along its stride.
   */
  function Invalidate(metas: LMap<int, MetaPattern>, pieces: LMap<Cell, int>, list: LMap<Cell, int>, order: int)
    : (r: (LMap<int, MetaPattern>, LMap<Cell, int>))
    requires forall t :: 0 <= t < |list| ==> Get(metas, list[t].val).Some?
    decreases |list|
    ensures |r.0| == |metas| && forall t :: 0 <= t < |metas| ==> r.0[t].key == metas[t].key
    ensures ValidMap(metas) ==> ValidMap(r.0)
    ensures ValidMap(pieces) ==> ValidMap(r.1)
  {
    if |list| == 0 then (metas, pieces)
    else
      var e := list[0];
      var mp := Get(metas, e.val).value;
      var metas' := SetOrder(metas, e.val, order);
      assert forall t :: 0 <= t < |list| ==> Get(metas', list[t].val).Some? by {
        forall t | 0 <= t < |list| {
          GetSetOrder(metas, e.val, order, list[t].val);
        }
      }
      Invalidate(metas', RemoveRun(pieces, Piece(e.key.row, e.key.col, mp.pat), 1), list[1..], order)
  }

  /** `list` names the metapattern id `k`. */
  predicate Names(list: LMap<Cell, int>, k: int) {
    exists t :: 0 <= t < |list| && list[t].val == k
  }

  /** Cell `c` lies at an offset `1 .. n-1` of the piece of entry `e`. */
  predicate Beyond(metas: LMap<int, MetaPattern>, e: Entry<Cell, int>, c: Cell) {
    c in CellsFrom(PieceOf(metas, e), 1)
  }

  /** Some piece of `list` reaches cell `c` past its origin. */
  predicate Dropped(metas: LMap<int, MetaPattern>, list: LMap<Cell, int>, c: Cell) {
    exists t :: 0 <= t < |list| && Beyond(metas, list[t], c)
  }

  lemma NamesCons(list: LMap<Cell, int>, k: int)
    requires |list| > 0
    ensures Names(list, k) <==> list[0].val == k || Names(list[1..], k)
  {
    if Names(list, k) && list[0].val != k {
      var t :| 0 <= t < |list| && list[t].val == k;
      assert list[1..][t - 1].val == k;
    }
    if Names(list[1..], k) {
      var t :| 0 <= t < |list[1..]| && list[1..][t].val == k;
      assert list[t + 1].val == k;
    }
  }

  lemma DroppedCons(metas: LMap<int, MetaPattern>, metas': LMap<int, MetaPattern>, list: LMap<Cell, int>, c: Cell)
    requires |list| > 0
    requires forall x :: PieceOf(metas', x) == PieceOf(metas, x)
    ensures Dropped(metas, list, c) <==> Beyond(metas, list[0], c) || Dropped(metas', list[1..], c)
  {
    if Dropped(metas, list, c) && !Beyond(metas, list[0], c) {
      var t :| 0 <= t < |list| && Beyond(metas, list[t], c);
      assert Beyond(metas', list[1..][t - 1], c);
    }
    if Dropped(metas', list[1..], c) {
      var t :| 0 <= t < |list[1..]| && Beyond(metas', list[1..][t], c);
      assert Beyond(metas, list[t + 1], c);
    }
  }

  /** After the invalidation every named metapattern has order `order`; nothing else in the table changes. */
  lemma {:induction false} InvalidateMetas(metas: LMap<int, MetaPattern>, pieces: LMap<Cell, int>, list: LMap<Cell, int>, order: int, k: int)
    requires forall t :: 0 <= t < |list| ==> Get(metas, list[t].val).Some?
    decreases |list|
    ensures var r := Invalidate(metas, pieces, list, order);
            && Get(r.0, k).Some? == Get(metas, k).Some?
            && (Get(metas, k).Some? ==>
                  Get(r.0, k).value == if Names(list, k) then Get(metas, k).value.(order := order) else Get(metas, k).value)
  {
    if |list| > 0 {
      var e := list[0];
      var mp := Get(metas, e.val).value;
      var metas' := SetOrder(metas, e.val, order);
      var pieces' := RemoveRun(pieces, Piece(e.key.row, e.key.col, mp.pat), 1);
      forall t | 0 <= t < |list|
        ensures Get(metas', list[t].val).Some?
      {
        GetSetOrder(metas, e.val, order, list[t].val);
      }
      GetSetOrder(metas, e.val, order, k);
      InvalidateMetas(metas', pieces', list[1..], order, k);
      NamesCons(list, k);
    }
  }

  /** A piece entry disappears exactly when some listed piece reaches its cell past its own origin. */
  lemma {:induction false} InvalidatePieces(metas: LMap<int, MetaPattern>, pieces: LMap<Cell, int>, list: LMap<Cell, int>, order: int, c: Cell)
    requires forall t :: 0 <= t < |list| ==> Get(metas, list[t].val).Some?
    decreases |list|
    ensures Get(Invalidate(metas, pieces, list, order).1, c) == if Dropped(metas, list, c) then None else Get(pieces, c)
  {
    if |list| > 0 {
      var e := list[0];
      var mp := Get(metas, e.val).value;
      var metas' := SetOrder(metas, e.val, order);
      var pc := Piece(e.key.row, e.key.col, mp.pat);
      var pieces' := RemoveRun(pieces, pc, 1);
      forall k
        ensures Get(metas', k).Some? == Get(metas, k).Some?
        ensures Get(metas, k).Some? ==> Get(metas', k).value.pat == Get(metas, k).value.pat
      {
        GetSetOrder(metas, e.val, order, k);
      }
      assert forall x :: PieceOf(metas', x) == PieceOf(metas, x);
      InvalidatePieces(metas', pieces', list[1..], order, c);
      GetRemoveRun(pieces, pc, 1, c);
      DroppedCons(metas, metas', list, c);
    }
  }

  // ------------------------------------------- augment_dimensionality: steps

  /** `meta_patterns.len() + single_compensation`: the first id of the next dimension. */
  function StartId(metas: LMap<int, MetaPattern>): int {
    |metas| + (if Get(metas, -1).Some? then -1 else 0)
  }

  /** The piece entries whose id lies in `[lo, hi)`, in table order. */
  function InRange(pieces: LMap<Cell, int>, lo: int, hi: int): (r: LMap<Cell, int>)
    ensures forall t :: 0 <= t < |r| ==> lo <= r[t].val < hi
  {
    if |pieces| == 0 then []
    else
      var last := pieces[|pieces| - 1];
      InRange(pieces[..|pieces| - 1], lo, hi) + (if lo <= last.val < hi then [last] else [])
  }

  /** `InRange` keeps exactly the entries with an id in range. */
  lemma {:induction false} InRangeMembers(pieces: LMap<Cell, int>, lo: int, hi: int, e: Entry<Cell, int>)
    ensures e in InRange(pieces, lo, hi) <==> e in pieces && lo <= e.val < hi
    decreases |pieces|
  {
    if |pieces| > 0 {
      var last := pieces[|pieces| - 1];
      assert pieces == pieces[..|pieces| - 1] + [last];
      InRangeMembers(pieces[..|pieces| - 1], lo, hi, e);
    }
  }

  /** The grouping loop of one dimension, over the pieces that are not single nonzeros. */
  function NewGroups(s: State, cutoff: nat, minStride: nat, maxStride: nat): Grouping
    requires cutoff >= 1
  {
    Grouped(NonSingle(s.pieces), StartId(s.metas), cutoff, minStride, maxStride)
  }

  /** The new metapatterns and pieces appended to the tables with `extend`. */
  function Extended(s: State, g: Grouping): State {
    State(s.nrows, s.ncols, s.nnz, Extend(s.metas, g.metas), Extend(s.pieces, g.pieces))
  }

  /** Every id of `[startId, startId + count)` has a metapattern. */
  predicate Known(metas: LMap<int, MetaPattern>, startId: int, count: int) {
    forall k :: startId <= k < startId + count ==> Get(metas, k).Some?
  }

  /**
   * The invalidation after `extend`: the pieces whose id lies in
   * `[startId, startId + count)`, in table order, each setting its
   * metapattern's order and removing the origins its pattern reaches.
   */
  function Invalidated(s: State, startId: int, count: int, currDim: int): (r: State)
    requires Known(s.metas, startId, count)
    ensures r.nrows == s.nrows && r.ncols == s.ncols && r.nnz == s.nnz
    ensures |r.metas| == |s.metas| && forall t :: 0 <= t < |s.metas| ==> r.metas[t].key == s.metas[t].key
    ensures ValidMap(s.metas) ==> ValidMap(r.metas)
    ensures ValidMap(s.pieces) ==> ValidMap(r.pieces)
  {
    var list := InRange(s.pieces, startId, startId + count);
    var r := Invalidate(s.metas, s.pieces, list, currDim);
    State(s.nrows, s.ncols, s.nnz, r.0, r.1)
  }

  /** After `extend`, every new id has a metapattern. */
  lemma ExtendedKnown(s: State, g: Grouping)
    requires IdsInv(g.metas, g.nextId, StartId(s.metas))
    ensures Known(Extended(s, g).metas, StartId(s.metas), |g.metas|)
  {
    forall k | StartId(s.metas) <= k < StartId(s.metas) + |g.metas|
      ensures Get(Extend(s.metas, g.metas), k).Some?
    {
      ConsecutiveKeys(g.metas, StartId(s.metas), k);
      GetExtend(s.metas, g.metas, k);
    }
  }

  /** One iteration `curr_dim` of `augment_dimensionality`. */
  function Step(s: State, currDim: int, cutoff: nat, minStride: nat, maxStride: nat): (r: State)
    requires cutoff >= 1
    ensures r.nrows == s.nrows && r.ncols == s.ncols && r.nnz == s.nnz
  {
    var g := NewGroups(s, cutoff, minStride, maxStride);
    ExtendedKnown(s, g);
    Invalidated(Extended(s, g), StartId(s.metas), |g.metas|, currDim)
  }

  /** The loop `for curr_dim in curr..=target_dim`. */
  function Dims(s: State, currDim: int, targetDim: int, cutoff: nat, minStride: nat, maxStride: nat): (r: State)
    requires cutoff >= 1
    decreases targetDim - currDim
    ensures r.nrows == s.nrows && r.ncols == s.ncols && r.nnz == s.nnz
  {
    if currDim > targetDim then s
    else Dims(Step(s, currDim, cutoff, minStride, maxStride), currDim + 1, targetDim, cutoff, minStride, maxStride)
  }

  /** `augment_dimensionality`: a panic for `piece_cutoff < 2`, otherwise dimensions `2 ..= target_dim` in turn. */
  function AugmentDimensionality(s: State, targetDim: nat, cutoff: nat, minStride: nat, maxStride: nat): (r: Result<State, string>)
    ensures r.Failure? <==> cutoff < 2
    ensures r.Success? ==> r.value.nrows == s.nrows && r.value.ncols == s.ncols && r.value.nnz == s.nnz
    ensures r.Success? && targetDim < 2 ==> r.value == s
  {
    if cutoff < 2 then Failure("piece_cutoff < 2")
    else Success(Dims(s, 2, targetDim, cutoff, minStride, maxStride))
  }

  // ------------------------------------- augment_dimensionality: properties

  /**
   * The numbering the bookkeeping relies on: distinct keys, and every id in
   * either table is `-1` or below the start id of the next dimension.
   */
  predicate WellNumbered(s: State) {
    && ValidMap(s.metas) && ValidMap(s.pieces)
    && (forall t :: 0 <= t < |s.metas| ==> s.metas[t].key == -1 || 0 <= s.metas[t].key < StartId(s.metas))
    && (forall t :: 0 <= t < |s.pieces| ==> s.pieces[t].val == -1 || 0 <= s.pieces[t].val < StartId(s.metas))
  }

  lemma StartIdNonneg(metas: LMap<int, MetaPattern>)
    ensures StartId(metas) >= 0
  {
    if Get(metas, -1).Some? {
      assert |metas| > 0;
    }
  }

  /** A block of consecutive ids from `startId` added after a table whose ids are `-1` or below `startId`. */
  lemma BlockAfter(metas: LMap<int, MetaPattern>, m: LMap<int, MetaPattern>, startId: int)
    requires startId >= 0 && IdsInv(m, startId + |m|, startId)
    requires forall t :: 0 <= t < |metas| ==> metas[t].key == -1 || 0 <= metas[t].key < startId
    ensures Extend(metas, m) == metas + m
    ensures forall k :: Get(m, k).Some? <==> startId <= k < startId + |m|
    ensures forall k :: Get(metas + m, k) == if startId <= k < startId + |m| then Get(m, k) else Get(metas, k)
  {
    forall k
      ensures Get(m, k).Some? <==> startId <= k < startId + |m|
    {
      ConsecutiveKeys(m, startId, k);
    }
    ExtendAbsent(metas, m);
    forall k
      ensures Get(metas + m, k) == if startId <= k < startId + |m| then Get(m, k) else Get(metas, k)
    {
      GetConcat(metas, m, k);
    }
  }

  /** The entries with a new id after `extend` are exactly the new pieces. */
  lemma ListIsNew(pieces: LMap<Cell, int>, p: LMap<Cell, int>, m: LMap<int, MetaPattern>, startId: int)
    requires startId >= 0 && ValidMap(p) && Consecutive(m, startId)
    requires forall t :: 0 <= t < |p| ==> HasKey(m, p[t].val)
    requires forall t :: 0 <= t < |pieces| ==> pieces[t].val == -1 || 0 <= pieces[t].val < startId
    ensures forall e :: e in InRange(Extend(pieces, p), startId, startId + |m|) <==> e in p
  {
    forall e
      ensures e in InRange(Extend(pieces, p), startId, startId + |m|) <==> e in p
    {
      ListIsNewEntry(pieces, p, m, startId, e);
    }
  }

  lemma ListIsNewEntry(pieces: LMap<Cell, int>, p: LMap<Cell, int>, m: LMap<int, MetaPattern>, startId: int, e: Entry<Cell, int>)
    requires startId >= 0 && ValidMap(p) && Consecutive(m, startId)
    requires forall t :: 0 <= t < |p| ==> HasKey(m, p[t].val)
    requires forall t :: 0 <= t < |pieces| ==> pieces[t].val == -1 || 0 <= pieces[t].val < startId
    ensures e in InRange(Extend(pieces, p), startId, startId + |m|) <==> e in p
  {
    var ext := Extend(pieces, p);
    ExtendMembers(pieces, p, e);
    InRangeMembers(ext, startId, startId + |m|, e);
    ListIsNewAt(ext, InRange(ext, startId, startId + |m|), pieces, p, m, startId, e);
  }

  /** One entry of `ListIsNew`, with the extended table and its range filter given by their members. */
  lemma ListIsNewAt(ext: LMap<Cell, int>, inr: LMap<Cell, int>, pieces: LMap<Cell, int>, p: LMap<Cell, int>,
                    m: LMap<int, MetaPattern>, startId: int, e: Entry<Cell, int>)
    requires startId >= 0 && Consecutive(m, startId)
    requires forall t :: 0 <= t < |p| ==> HasKey(m, p[t].val)
    requires forall t :: 0 <= t < |pieces| ==> pieces[t].val == -1 || 0 <= pieces[t].val < startId
    requires e in ext <==> e in p || (e in pieces && !HasKey(p, e.key))
    requires e in inr <==> e in ext && startId <= e.val < startId + |m|
    ensures e in inr <==> e in p
  {
    NewIdInRange(p, m, startId, e);
    OldIdBelow(pieces, startId, e);
  }

  /** An entry of the new pieces has an id of the new block. */
  lemma NewIdInRange(p: LMap<Cell, int>, m: LMap<int, MetaPattern>, startId: int, e: Entry<Cell, int>)
    requires Consecutive(m, startId)
    requires forall t :: 0 <= t < |p| ==> HasKey(m, p[t].val)
    ensures e in p ==> startId <= e.val < startId + |m|
  {
    if e in p {
      var t :| 0 <= t < |p| && p[t] == e;
      ConsecutiveKeys(m, startId, e.val);
    }
  }

  /** An entry of the old pieces has an id below the new block. */
  lemma OldIdBelow(pieces: LMap<Cell, int>, startId: int, e: Entry<Cell, int>)
    requires startId >= 0
    requires forall t :: 0 <= t < |pieces| ==> pieces[t].val == -1 || 0 <= pieces[t].val < startId
    ensures e in pieces ==> !(startId <= e.val)
  {
    if e in pieces {
      var t :| 0 <= t < |pieces| && pieces[t] == e;
    }
  }

  /** Under the cover invariant an entry's piece is the one `PiecesOf` lists, and it covers its origin. */
  lemma EntryPiece(m: LMap<int, MetaPattern>, p: LMap<Cell, int>, flushed: LMap<Cell, int>, t: int)
    requires CoverInv(m, p, flushed) && 0 <= t < |p|
    ensures PiecesOf(m, p)[t] == PieceOf(m, p[t])
    ensures PieceOf(m, p[t]).pat.n >= 1 && NonDegenerate(PieceOf(m, p[t]).pat)
    ensures Cells(PieceOf(m, p[t]))[0] == p[t].key
  {
    var v := Get(m, p[t].val).value;
    var a :| 0 <= a < |m| && m[a] == Entry(p[t].val, v);
  }

  /** No new piece reaches the origin of a new piece past its own origin. */
  lemma NewPiecesApart(m: LMap<int, MetaPattern>, p: LMap<Cell, int>, flushed: LMap<Cell, int>, t: int, u: int)
    requires CoverInv(m, p, flushed)
    requires 0 <= t < |p| && 0 <= u < |p|
    ensures !Beyond(m, p[u], p[t].key)
  {
    var ps := PiecesOf(m, p);
    var key := p[t].key;
    EntryPiece(m, p, flushed, t);
    EntryPiece(m, p, flushed, u);
    if Beyond(m, p[u], key) {
      var k :| 1 <= k < |Cells(ps[u])| && Cells(ps[u])[k] == key by {
        var tail := Cells(ps[u])[1..];
        var x :| 0 <= x < |tail| && tail[x] == key;
        assert Cells(ps[u])[x + 1] == key;
      }
      if u == t {
        CellsDistinct(ps[t]);
      } else {
        assert key in Cells(ps[t]) && key in Cells(ps[u]);
        if t < u {
          CoverOnceDisjoint(ps, key, t, u);
        } else {
          CoverOnceDisjoint(ps, key, u, t);
        }
      }
    }
  }

  /** Walking a list with the same entries as the new pieces, each read in a table that agrees on their ids, reaches the same cells. */
  lemma DroppedBlock(metas: LMap<int, MetaPattern>, m: LMap<int, MetaPattern>, p: LMap<Cell, int>, list: LMap<Cell, int>, c: Cell)
    requires forall e :: e in list <==> e in p
    requires forall u :: 0 <= u < |p| ==> Get(metas, p[u].val) == Get(m, p[u].val)
    ensures Dropped(metas, list, c) <==> Dropped(m, p, c)
  {
    if Dropped(metas, list, c) {
      var t :| 0 <= t < |list| && Beyond(metas, list[t], c);
      assert list[t] in list;
      var u :| 0 <= u < |p| && p[u] == list[t];
      assert Beyond(m, p[u], c);
    }
    if Dropped(m, p, c) {
      var u :| 0 <= u < |p| && Beyond(m, p[u], c);
      assert p[u] in p;
      var t :| 0 <= t < |list| && list[t] == p[u];
      assert Beyond(metas, list[t], c);
    }
  }

  /** The same for the names: the list names an id exactly when some new piece has it. */
  lemma NamesBlock(p: LMap<Cell, int>, list: LMap<Cell, int>, k: int)
    requires forall e :: e in list <==> e in p
    ensures Names(list, k) <==> Names(p, k)
  {
    if Names(list, k) {
      var t :| 0 <= t < |list| && list[t].val == k;
      assert list[t] in list;
      var u :| 0 <= u < |p| && p[u] == list[t];
    }
    if Names(p, k) {
      var u :| 0 <= u < |p| && p[u].val == k;
      assert p[u] in p;
      var t :| 0 <= t < |list| && list[t] == p[u];
    }
  }

  /**
   * What the grouping loop hands to `extend`: consecutive new ids from the
   * start id, and new pieces with distinct origins, known ids, and no cell
   * covered twice.
   */
  ghost predicate Fresh(s: State, g: Grouping) {
    && WellNumbered(s)
    && IdsInv(g.metas, g.nextId, StartId(s.metas))
    && CoverInv(g.metas, g.pieces, NonSingle(s.pieces))
  }

  /** The grouping loop of a well-numbered state hands over fresh tables. */
  lemma NewGroupsFresh(s: State, cutoff: nat, minStride: nat, maxStride: nat)
    requires cutoff >= 1 && WellNumbered(s)
    ensures Fresh(s, NewGroups(s, cutoff, minStride, maxStride))
  {
    GroupedCover(NonSingle(s.pieces), StartId(s.metas), cutoff, minStride, maxStride);
  }

  /** The metapattern table after `extend`: the new block follows the old ids. */
  lemma ExtendedMetas(s: State, g: Grouping)
    requires Fresh(s, g)
    ensures var startId := StartId(s.metas);
            var e := Extended(s, g);
            && startId >= 0
            && e.metas == s.metas + g.metas
            && (forall k :: Get(g.metas, k).Some? <==> startId <= k < startId + |g.metas|)
            && (forall k :: Get(e.metas, k) == if startId <= k < startId + |g.metas| then Get(g.metas, k) else Get(s.metas, k))
  {
    StartIdNonneg(s.metas);
    BlockAfter(s.metas, g.metas, StartId(s.metas));
  }

  /** The piece table after `extend`: the new pieces are the entries whose id is in the new block. */
  lemma ExtendedPieces(s: State, g: Grouping)
    requires Fresh(s, g)
    ensures forall x :: x in InRange(Extended(s, g).pieces, StartId(s.metas), StartId(s.metas) + |g.metas|) <==> x in g.pieces
  {
    StartIdNonneg(s.metas);
    ListIsNew(s.pieces, g.pieces, g.metas, StartId(s.metas));
  }

  /** Every new piece's id reads the same metapattern in the extended table as in the new block. */
  lemma ExtendedNewIds(s: State, g: Grouping)
    requires Fresh(s, g)
    ensures forall u :: 0 <= u < |g.pieces| ==> Get(Extended(s, g).metas, g.pieces[u].val) == Get(g.metas, g.pieces[u].val)
  {
    ExtendedMetas(s, g);
    forall u | 0 <= u < |g.pieces|
      ensures Get(Extended(s, g).metas, g.pieces[u].val) == Get(g.metas, g.pieces[u].val)
    {
      ConsecutiveKeys(g.metas, StartId(s.metas), g.pieces[u].val);
    }
  }

  /**
   * The entries of `s` with an id in `[startId, startId + count)` are those
   * of `p`, and each of their ids reads the same metapattern in `s` as in `m`.
   */
  ghost predicate NewBlock(s: State, startId: int, count: int, m: LMap<int, MetaPattern>, p: LMap<Cell, int>) {
    && (forall x :: x in InRange(s.pieces, startId, startId + count) <==> x in p)
    && forall u :: 0 <= u < |p| ==> Get(s.metas, p[u].val) == Get(m, p[u].val)
  }

  /** After `extend`, the new block of the tables is the grouping's. */
  lemma ExtendedNewBlock(s: State, g: Grouping)
    requires Fresh(s, g)
    ensures NewBlock(Extended(s, g), StartId(s.metas), |g.metas|, g.metas, g.pieces)
  {
    ExtendedPieces(s, g);
    ExtendedNewIds(s, g);
  }

  /** The piece table after the invalidation, cell by cell, given the pieces it walks. */
  lemma InvalidatedPieces(s: State, startId: int, count: int, currDim: int, m: LMap<int, MetaPattern>, p: LMap<Cell, int>, c: Cell)
    requires Known(s.metas, startId, count)
    requires NewBlock(s, startId, count, m, p)
    ensures Get(Invalidated(s, startId, count, currDim).pieces, c) == if Dropped(m, p, c) then None else Get(s.pieces, c)
  {
    var list := InRange(s.pieces, startId, startId + count);
    InvalidatePieces(s.metas, s.pieces, list, currDim, c);
    DroppedBlock(s.metas, m, p, list, c);
  }

  /** The metapattern table after the invalidation, id by id, given the pieces it walks. */
  lemma InvalidatedMetas(s: State, startId: int, count: int, currDim: int, p: LMap<Cell, int>, k: int)
    requires Known(s.metas, startId, count)
    requires forall x :: x in InRange(s.pieces, startId, startId + count) <==> x in p
    ensures var r := Invalidated(s, startId, count, currDim);
            && Get(r.metas, k).Some? == Get(s.metas, k).Some?
            && (Get(s.metas, k).Some? ==>
                  Get(r.metas, k).value == if Names(p, k) then Get(s.metas, k).value.(order := currDim) else Get(s.metas, k).value)
  {
    var list := InRange(s.pieces, startId, startId + count);
    InvalidateMetas(s.metas, s.pieces, list, currDim, k);
    NamesBlock(p, list, k);
  }

  /** The piece table after `extend` and the invalidation, cell by cell. */
  lemma FreshPieces(s: State, g: Grouping, currDim: int, c: Cell)
    requires Fresh(s, g)
    ensures Known(Extended(s, g).metas, StartId(s.metas), |g.metas|)
    ensures Get(Invalidated(Extended(s, g), StartId(s.metas), |g.metas|, currDim).pieces, c)
              == if Dropped(g.metas, g.pieces, c) then None
                 else if Get(g.pieces, c).Some? then Get(g.pieces, c)
                 else Get(s.pieces, c)
  {
    var startId := StartId(s.metas);
    ExtendedKnown(s, g);
    ExtendedNewBlock(s, g);
    InvalidatedPieces(Extended(s, g), startId, |g.metas|, currDim, g.metas, g.pieces, c);
    GetExtend(s.pieces, g.pieces, c);
  }

  /**
   * The piece table after one dimension: a cell that a new piece reaches past
   * its origin has no entry; every other cell reads as in the old table
   * extended with the new pieces.
   */
  lemma StepPieces(s: State, currDim: int, cutoff: nat, minStride: nat, maxStride: nat, c: Cell)
    requires cutoff >= 1 && WellNumbered(s)
    ensures var g := NewGroups(s, cutoff, minStride, maxStride);
            Get(Step(s, currDim, cutoff, minStride, maxStride).pieces, c)
              == if Dropped(g.metas, g.pieces, c) then None
                 else if Get(g.pieces, c).Some? then Get(g.pieces, c)
                 else Get(s.pieces, c)
  {
    NewGroupsFresh(s, cutoff, minStride, maxStride);
    FreshPieces(s, NewGroups(s, cutoff, minStride, maxStride), currDim, c);
  }

  /** Every new piece keeps its origin under its new id. */
  lemma StepOrigins(s: State, currDim: int, cutoff: nat, minStride: nat, maxStride: nat, t: int)
    requires cutoff >= 1 && WellNumbered(s)
    requires 0 <= t < |NewGroups(s, cutoff, minStride, maxStride).pieces|
    ensures var g := NewGroups(s, cutoff, minStride, maxStride);
            Get(Step(s, currDim, cutoff, minStride, maxStride).pieces, g.pieces[t].key) == Some(g.pieces[t].val)
  {
    var g := NewGroups(s, cutoff, minStride, maxStride);
    NewGroupsFresh(s, cutoff, minStride, maxStride);
    StepPieces(s, currDim, cutoff, minStride, maxStride, g.pieces[t].key);
    forall u | 0 <= u < |g.pieces|
      ensures !Beyond(g.metas, g.pieces[u], g.pieces[t].key)
    {
      NewPiecesApart(g.metas, g.pieces, NonSingle(s.pieces), t, u);
    }
    GetEntry(g.pieces, t);
  }

  /**
   * The metapattern table after one dimension: old ids are unchanged, and a
   * new id keeps its metapattern, with order `currDim` when some piece has it.
   */
  lemma StepMetas(s: State, currDim: int, cutoff: nat, minStride: nat, maxStride: nat, k: int)
    requires cutoff >= 1 && WellNumbered(s)
    ensures var startId := StartId(s.metas);
            var g := NewGroups(s, cutoff, minStride, maxStride);
            var r := Step(s, currDim, cutoff, minStride, maxStride);
            && (!(startId <= k < startId + |g.metas|) ==> Get(r.metas, k) == Get(s.metas, k))
            && (startId <= k < startId + |g.metas| ==>
                  && Get(g.metas, k).Some?
                  && Get(r.metas, k) == Some(if Names(g.pieces, k) then Get(g.metas, k).value.(order := currDim) else Get(g.metas, k).value))
  {
    var g := NewGroups(s, cutoff, minStride, maxStride);
    NewGroupsFresh(s, cutoff, minStride, maxStride);
    ExtendedMetas(s, g);
    ExtendedPieces(s, g);
    ExtendedKnown(s, g);
    InvalidatedMetas(Extended(s, g), StartId(s.metas), |g.metas|, currDim, g.pieces, k);
  }

  /** An id read from the old or the new table of one dimension is `-1` or below the next start id. */
  lemma StepIdBound(s: State, currDim: int, cutoff: nat, minStride: nat, maxStride: nat, c: Cell)
    requires cutoff >= 1 && WellNumbered(s)
    ensures var g := NewGroups(s, cutoff, minStride, maxStride);
            var v := Get(Step(s, currDim, cutoff, minStride, maxStride).pieces, c);
            v.Some? ==> v.value == -1 || 0 <= v.value < StartId(s.metas) + |g.metas|
  {
    var g := NewGroups(s, cutoff, minStride, maxStride);
    var v := Get(Step(s, currDim, cutoff, minStride, maxStride).pieces, c);
    NewGroupsFresh(s, cutoff, minStride, maxStride);
    StartIdNonneg(s.metas);
    StepPieces(s, currDim, cutoff, minStride, maxStride, c);
    if v.Some? {
      if Get(g.pieces, c).Some? {
        var a :| 0 <= a < |g.pieces| && g.pieces[a] == Entry(c, v.value);
        ConsecutiveKeys(g.metas, StartId(s.metas), v.value);
      } else {
        var a :| 0 <= a < |s.pieces| && s.pieces[a] == Entry(c, v.value);
      }
    }
  }

  /** The metapattern table after one dimension has the old entries, then the new block, under the same keys. */
  lemma StepShape(s: State, currDim: int, cutoff: nat, minStride: nat, maxStride: nat)
    requires cutoff >= 1 && WellNumbered(s)
    ensures var g := NewGroups(s, cutoff, minStride, maxStride);
            var r := Step(s, currDim, cutoff, minStride, maxStride);
            && ValidMap(r.metas) && ValidMap(r.pieces)
            && |r.metas| == |s.metas| + |g.metas|
            && (forall t :: 0 <= t < |s.metas| ==> r.metas[t].key == s.metas[t].key)
            && (forall t :: |s.metas| <= t < |r.metas| ==> r.metas[t].key == StartId(s.metas) + t - |s.metas|)
  {
    var g := NewGroups(s, cutoff, minStride, maxStride);
    NewGroupsFresh(s, cutoff, minStride, maxStride);
    ExtendedBlock(s, g);
    ExtendValid(s.metas, g.metas);
    ExtendValid(s.pieces, g.pieces);
  }

  /** After `extend` the metapattern table is the old one, then the new block with its consecutive ids. */
  lemma ExtendedBlock(s: State, g: Grouping)
    requires Fresh(s, g)
    ensures var e := Extended(s, g).metas;
            && e == s.metas + g.metas
            && forall t :: |s.metas| <= t < |e| ==> e[t].key == StartId(s.metas) + t - |s.metas|
  {
    StartIdNonneg(s.metas);
    BlockAfter(s.metas, g.metas, StartId(s.metas));
    var e := s.metas + g.metas;
    forall t | |s.metas| <= t < |e|
      ensures e[t].key == StartId(s.metas) + t - |s.metas|
    {
      assert e[t] == g.metas[t - |s.metas|];
    }
  }

  /** One dimension keeps the numbering, and the next start id follows the new block. */
  lemma StepWellNumbered(s: State, currDim: int, cutoff: nat, minStride: nat, maxStride: nat)
    requires cutoff >= 1 && WellNumbered(s)
    ensures var g := NewGroups(s, cutoff, minStride, maxStride);
            var r := Step(s, currDim, cutoff, minStride, maxStride);
            WellNumbered(r) && StartId(r.metas) == StartId(s.metas) + |g.metas|
  {
    var g := NewGroups(s, cutoff, minStride, maxStride);
    var r := Step(s, currDim, cutoff, minStride, maxStride);
    var startId := StartId(s.metas);
    StartIdNonneg(s.metas);
    StepShape(s, currDim, cutoff, minStride, maxStride);
    StepMetas(s, currDim, cutoff, minStride, maxStride, -1);
    assert StartId(r.metas) == startId + |g.metas|;
    forall t | 0 <= t < |r.pieces|
      ensures r.pieces[t].val == -1 || 0 <= r.pieces[t].val < startId + |g.metas|
    {
      GetEntry(r.pieces, t);
      StepIdBound(s, currDim, cutoff, minStride, maxStride, r.pieces[t].key);
    }
  }

  /**
   * The dimensions `currDim ..= targetDim` keep the numbering and never
   * change a metapattern that was already there.
   */
  lemma {:induction false} DimsKeep(s: State, currDim: int, targetDim: int, cutoff: nat, minStride: nat, maxStride: nat, k: int)
    requires cutoff >= 1 && WellNumbered(s)
    requires Get(s.metas, k).Some?
    decreases targetDim - currDim
    ensures var r := Dims(s, currDim, targetDim, cutoff, minStride, maxStride);
            WellNumbered(r) && StartId(r.metas) >= StartId(s.metas) && Get(r.metas, k) == Get(s.metas, k)
  {
    if currDim <= targetDim {
      var s' := Step(s, currDim, cutoff, minStride, maxStride);
      StepWellNumbered(s, currDim, cutoff, minStride, maxStride);
      StepMetas(s, currDim, cutoff, minStride, maxStride, k);
      var a :| 0 <= a < |s.metas| && s.metas[a] == Entry(k, Get(s.metas, k).value);
      DimsKeep(s', currDim + 1, targetDim, cutoff, minStride, maxStride, k);
    }
  }

  /**
   * `augment_dimensionality` on a well-numbered state: the numbering is kept
   * and every metapattern already in the table is left as it was.
   */
  lemma AugmentKeeps(s: State, targetDim: nat, cutoff: nat, minStride: nat, maxStride: nat, k: int)
    requires WellNumbered(s) && Get(s.metas, k).Some?
    ensures var r := AugmentDimensionality(s, targetDim, cutoff, minStride, maxStride);
            r.Success? ==> WellNumbered(r.value) && Get(r.value.metas, k) == Get(s.metas, k)
  {
    if cutoff >= 2 {
      DimsKeep(s, 2, targetDim, cutoff, minStride, maxStride, k);
    }
  }
}
