/**
 * The polyhedral "U/w/c" encoding helpers of `src/utils.rs`.
 *
 * A uwc triple describes an iteration domain `{ x | U x <= w }` with the
 * per-dimension steps in `c`; for a one-dimensional pattern `(n, i, j)` it is
 * `U = [[-1], [1]]`, `w = [n-1, 0]`, `c = [i, j]`.
 */
module Utils {
  import opened Wrappers
  import opened Sparse
  import opened LinkedMap

  datatype Uwc = Uwc(u: seq<seq<int>>, w: seq<int>, c: seq<int>)

  /** A uwc anchored at a matrix position `(x, y)`. */
  datatype OriginUwc = OriginUwc(x: int, y: int, uwc: Uwc)

  /**
   * A metapattern: its own `(n, i, j)`, its order (dimensionality) and the id
   * of the lower-order pattern it repeats, `None` for a base pattern.
   */
  datatype MetaPattern = MetaPattern(pat: Pattern, order: int, sub: Option<int>)

  // ---------------------------------------------------------------- flatten

  function TotalLength<T>(nested: seq<seq<T>>): nat {
    if |nested| == 0 then 0 else TotalLength(nested[..|nested| - 1]) + |nested[|nested| - 1]|
  }

  /** `flatten`: the inner sequences concatenated in order. */
  function Flatten<T>(nested: seq<seq<T>>): (r: seq<T>)
    ensures |r| == TotalLength(nested)
  {
    if |nested| == 0 then [] else Flatten(nested[..|nested| - 1]) + nested[|nested| - 1]
  }

  /** Flattening distributes over concatenation of the outer sequence. */
  lemma {:induction false} FlattenAppend<T>(a: seq<seq<T>>, b: seq<seq<T>>)
    ensures Flatten(a + b) == Flatten(a) + Flatten(b)
    decreases |b|
  {
    if |b| == 0 {
      assert a + b == a;
    } else {
      var b' := b[..|b| - 1];
      var x := b[|b| - 1];
      assert (a + b)[..|a + b| - 1] == a + b';
      assert (a + b)[|a + b| - 1] == x;
      FlattenAppend(a, b');
      assert Flatten(a + b) == Flatten(a + b') + x;
      assert Flatten(b) == Flatten(b') + x;
    }
  }

  /** An element is in the flattening iff it is in one of the inner sequences. */
  lemma {:induction false} FlattenMembers<T>(nested: seq<seq<T>>, x: T)
    ensures x in Flatten(nested) <==> exists a :: 0 <= a < |nested| && x in nested[a]
  {
    if |nested| > 0 {
      var front := nested[..|nested| - 1];
      FlattenMembers(front, x);
      assert forall a :: 0 <= a < |front| ==> front[a] == nested[a];
    }
  }

  // ------------------------------------------------------ 1D uwc <-> piece

  /**
   * `orig_uwc_to_piece_1d`: the piece anchored at the uwc's origin whose `k`-th
   * cell is the origin moved `k` times by the offset `(c[0], c[1])`, for the
   * `w[0] + 1` offsets `0 ..= w[0]` of the hull.
   */
  function OrigUwcToPiece1d(o: OriginUwc): (r: Piece)
    requires |o.uwc.w| >= 1 && |o.uwc.c| >= 2
    ensures r.row == o.x && r.col == o.y
    ensures forall k :: CellAt(r, k) == Cell(o.x + k * o.uwc.c[0], o.y + k * o.uwc.c[1])
    ensures o.uwc.w[0] >= 0 ==> Len(r.pat) == o.uwc.w[0] + 1
  {
    Piece(o.x, o.y, Pattern(o.uwc.w[0] + 1, o.uwc.c[0], o.uwc.c[1]))
  }

  // ------------------------------------------------ metapattern to uwc

  /**
   * The patterns met along the sub-pattern chain starting at `id`, `count` of
   * them; each step follows `sub`, and a missing `sub` continues at id 0
   * (`unwrap_or_default`). `None` when an id along the way is unknown.
   */
  function Chain(metas: LMap<int, MetaPattern>, id: int, count: nat): (r: Option<seq<Pattern>>)
    decreases count
    ensures r.Some? ==> |r.value| == count
    ensures r.Some? && count > 0 ==> Get(metas, id).Some? && r.value[0] == Get(metas, id).value.pat
  {
    if count == 0 then Some([])
    else
      match Get(metas, id)
      case None => None
      case Some(mp) =>
        match Chain(metas, UnwrapOr(mp.sub, 0), count - 1)
        case None => None
        case Some(rest) => Some([mp.pat] + rest)
  }

  /** `u` of an order-`order` hyperrectangle: row `r < order` is `-e_r`, row `order + r` is `+e_r`. */
  predicate IsHyperrectangleU(u: seq<seq<int>>, order: nat) {
    && |u| == 2 * order
    && (forall r :: 0 <= r < 2 * order ==> |u[r]| == order)
    && (forall r, k :: 0 <= r < order && 0 <= k < order ==> u[r][k] == (if k == r then -1 else 0))
    && (forall r, k :: order <= r < 2 * order && 0 <= k < order ==> u[r][k] == (if k == r - order then 1 else 0))
  }

  /** `w` of the hyperrectangle over `pats`: `n - 1` per pattern, then as many zeros. */
  predicate IsHyperrectangleW(w: seq<int>, pats: seq<Pattern>) {
    && |w| == 2 * |pats|
    && (forall k :: 0 <= k < |pats| ==> w[k] == pats[k].n - 1)
    && (forall k :: |pats| <= k < 2 * |pats| ==> w[k] == 0)
  }

  /** `c` of the hyperrectangle over `pats`: the steps `i, j` of each pattern in turn. */
  predicate IsHyperrectangleC(c: seq<int>, pats: seq<Pattern>) {
    && |c| == 2 * |pats|
    && (forall k :: 0 <= k < |pats| ==> c[2 * k] == pats[k].i && c[2 * k + 1] == pats[k].j)
  }

  /** The `2*order x order` matrix of the source's `u`, filled in place as the source does. */
  method HyperrectangleU(order: nat) returns (u: seq<seq<int>>)
    ensures IsHyperrectangleU(u, order)
  {
    u := seq(2 * order, _ => seq(order, _ => 0));
    var idx := 0;
    while idx < order
      invariant 0 <= idx <= order
      invariant |u| == 2 * order
      invariant forall r :: 0 <= r < 2 * order ==> |u[r]| == order
      invariant forall r, k :: 0 <= r < order && 0 <= k < order ==>
                  u[r][k] == (if k == r && r < idx then -1 else 0)
      invariant forall r, k :: order <= r < 2 * order && 0 <= k < order ==>
                  u[r][k] == (if k == r - order && k < idx then 1 else 0)
    {
      u := u[idx := u[idx][idx := -1]];
      u := u[order + idx := u[order + idx][idx := 1]];
      idx := idx + 1;
    }
  }

  /** The order of metapattern `id`, when it is known and not negative. */
  function OrderOf(metas: LMap<int, MetaPattern>, id: int): Option<nat> {
    match Get(metas, id)
    case None => None
    case Some(mp) => if mp.order < 0 then None else Some(mp.order as nat)
  }

  /**
   * `metapattern_to_hyperrectangle_uwc`: `None` where the source panics (an
   * unknown id on the chain, or a negative order, whose `usize` length
   * overflows the allocation); otherwise the hyperrectangle of the chain of
   * `order` patterns that starts at `id`.
   */
  method MetapatternToHyperrectangleUwc(id: int, metas: LMap<int, MetaPattern>) returns (r: Option<Uwc>)
    ensures r.None? <==> OrderOf(metas, id).None? || Chain(metas, id, OrderOf(metas, id).value).None?
    ensures r.Some? ==>
              && IsHyperrectangleU(r.value.u, OrderOf(metas, id).value)
              && IsHyperrectangleW(r.value.w, Chain(metas, id, OrderOf(metas, id).value).value)
              && IsHyperrectangleC(r.value.c, Chain(metas, id, OrderOf(metas, id).value).value)
  {
    var top := OrderOf(metas, id);
    if top.None? {
      return None;
    }
    var order := top.value;
    if Chain(metas, id, order).None? {
      return None;
    }
    var u := HyperrectangleU(order);
    var w, c := HyperrectangleWc(metas, id, order);
    r := Some(Uwc(u, w, c));
  }

  /** One step along a known chain: the head is the pattern of `id`, the tail starts at its sub-pattern. */
  lemma ChainStep(metas: LMap<int, MetaPattern>, id: int, count: nat)
    requires count > 0 && Chain(metas, id, count).Some?
    ensures Get(metas, id).Some?
    ensures Chain(metas, UnwrapOr(Get(metas, id).value.sub, 0), count - 1) == Some(Chain(metas, id, count).value[1..])
  {
  }

  /** The loop that fills `w` and `c` while following the sub-pattern chain. */
  method HyperrectangleWc(metas: LMap<int, MetaPattern>, id: int, order: nat) returns (w: seq<int>, c: seq<int>)
    requires Chain(metas, id, order).Some?
    ensures IsHyperrectangleW(w, Chain(metas, id, order).value)
    ensures IsHyperrectangleC(c, Chain(metas, id, order).value)
  {
    ghost var pats := Chain(metas, id, order).value;
    w := seq(2 * order, _ => 0);
    c := [];
    var currId := id;
    var idx := 0;
    while idx < order
      invariant 0 <= idx <= order
      invariant Chain(metas, currId, order - idx) == Some(pats[idx..])
      invariant |w| == 2 * order
      invariant forall k :: 0 <= k < idx ==> w[k] == pats[k].n - 1
      invariant forall k :: idx <= k < 2 * order ==> w[k] == 0
      invariant |c| == 2 * idx
      invariant forall k :: 0 <= k < idx ==> c[2 * k] == pats[k].i && c[2 * k + 1] == pats[k].j
    {
      ChainStep(metas, currId, order - idx);
      var mp := Get(metas, currId).value;
      assert pats[idx] == mp.pat;
      assert pats[idx..][1..] == pats[idx + 1..];
      w := w[idx := mp.pat.n - 1];
      c := c + [mp.pat.i, mp.pat.j];
      currId := UnwrapOr(mp.sub, 0);
      idx := idx + 1;
    }
  }

  // ---------------------------------------------------------- convex hulls

  /** The inclusive integer range `lo ..= hi`, ascending; empty when `lo > hi`. */
  function Range(lo: int, hi: int): (r: seq<int>)
    ensures |r| == if lo <= hi then hi - lo + 1 else 0
    ensures forall k :: 0 <= k < |r| ==> r[k] == lo + k
    decreases hi - lo
  {
    if lo > hi then [] else [lo] + Range(lo + 1, hi)
  }

  /** `convex_hull_1d`: the one-coordinate points `[w[1]], ..., [w[0]]`. */
  function ConvexHull1d(w: seq<int>): (r: seq<seq<int>>)
    requires |w| >= 2
    ensures |r| == if w[1] <= w[0] then w[0] - w[1] + 1 else 0
    ensures forall p :: p in r <==> |p| == 1 && w[1] <= p[0] <= w[0]
  {
    var vals := Range(w[1], w[0]);
    var r := seq(|vals|, k requires 0 <= k < |vals| => [vals[k]]);
    assert forall p :: |p| == 1 && w[1] <= p[0] <= w[0] ==> p == r[p[0] - w[1]];
    r
  }

  /**
   * One comprehension step of `convex_hull_hyperrectangle_nd`: every point of
   * `ch` extended by every value of `vals`.
   */
  function Product(ch: seq<seq<int>>, vals: seq<int>): (r: seq<seq<int>>)
    ensures |r| == |ch| * |vals|
  {
    ProductLength(ch, vals);
    Flatten(seq(|vals|, a requires 0 <= a < |vals| => seq(|ch|, b requires 0 <= b < |ch| => ch[b] + [vals[a]])))
  }

  lemma {:induction false} ProductLength(ch: seq<seq<int>>, vals: seq<int>)
    ensures TotalLength(seq(|vals|, a requires 0 <= a < |vals| => seq(|ch|, b requires 0 <= b < |ch| => ch[b] + [vals[a]])))
            == |ch| * |vals|
    decreases |vals|
  {
    if |vals| > 0 {
      var front := vals[..|vals| - 1];
      ProductLength(ch, front);
      assert seq(|vals|, a requires 0 <= a < |vals| => seq(|ch|, b requires 0 <= b < |ch| => ch[b] + [vals[a]]))[..|vals| - 1]
          == seq(|front|, a requires 0 <= a < |front| => seq(|ch|, b requires 0 <= b < |ch| => ch[b] + [front[a]]));
    }
  }

  lemma ProductMembers(ch: seq<seq<int>>, vals: seq<int>, p: seq<int>)
    ensures p in Product(ch, vals) <==> |p| >= 1 && p[..|p| - 1] in ch && p[|p| - 1] in vals
  {
    var nested := seq(|vals|, a requires 0 <= a < |vals| => seq(|ch|, b requires 0 <= b < |ch| => ch[b] + [vals[a]]));
    FlattenMembers(nested, p);
    if |p| >= 1 && p[..|p| - 1] in ch && p[|p| - 1] in vals {
      var a :| 0 <= a < |vals| && vals[a] == p[|p| - 1];
      var b :| 0 <= b < |ch| && ch[b] == p[..|p| - 1];
      assert p == ch[b] + [vals[a]];
      assert nested[a][b] == p;
    }
    if p in Product(ch, vals) {
      var a :| 0 <= a < |nested| && p in nested[a];
      var b :| 0 <= b < |ch| && nested[a][b] == p;
      assert p[..|p| - 1] == ch[b];
    }
  }

  /** Every coordinate `d < |p|` of `p` lies in `[lo[d], hi[d]]`. */
  predicate InBoxPoint(p: seq<int>, lo: seq<int>, hi: seq<int>)
    requires |p| <= |lo| && |p| <= |hi|
  {
    forall d :: 0 <= d < |p| ==> lo[d] <= p[d] <= hi[d]
  }

  /** One dense step: extending the points of the box over `idx` dimensions by the range of dimension `idx`. */
  lemma ProductRangeStep(ch: seq<seq<int>>, idx: nat, lo: seq<int>, hi: seq<int>)
    requires idx < |lo| && idx < |hi|
    requires forall p :: p in ch <==> |p| == idx && InBoxPoint(p, lo, hi)
    ensures forall p :: p in Product(ch, Range(lo[idx], hi[idx])) <==> |p| == idx + 1 && InBoxPoint(p, lo, hi)
  {
    var vals := Range(lo[idx], hi[idx]);
    forall p
      ensures p in Product(ch, vals) <==> |p| == idx + 1 && InBoxPoint(p, lo, hi)
    {
      ProductMembers(ch, vals, p);
      if |p| == idx + 1 {
        assert p[idx] in vals <==> lo[idx] <= p[idx] <= hi[idx] by {
          if lo[idx] <= p[idx] <= hi[idx] {
            assert vals[p[idx] - lo[idx]] == p[idx];
          }
        }
        assert InBoxPoint(p, lo, hi) <==> InBoxPoint(p[..idx], lo, hi) && lo[idx] <= p[idx] <= hi[idx];
      }
    }
  }

  /** The non-dense last step: only the two extremes of the last dimension. */
  lemma ProductExtremesStep(ch: seq<seq<int>>, dims: nat, lo: seq<int>, hi: seq<int>)
    requires 1 <= dims <= |lo| && dims <= |hi|
    requires forall p :: p in ch <==> |p| == dims - 1 && InBoxPoint(p, lo, hi)
    ensures forall p :: p in Product(ch, [lo[dims - 1], hi[dims - 1]]) <==>
              (|p| == dims && InBoxPoint(p[..dims - 1], lo, hi)
               && (p[dims - 1] == lo[dims - 1] || p[dims - 1] == hi[dims - 1]))
  {
    forall p
      ensures p in Product(ch, [lo[dims - 1], hi[dims - 1]]) <==>
                (|p| == dims && InBoxPoint(p[..dims - 1], lo, hi)
                 && (p[dims - 1] == lo[dims - 1] || p[dims - 1] == hi[dims - 1]))
    {
      ProductMembers(ch, [lo[dims - 1], hi[dims - 1]], p);
    }
  }

  /** The comprehension loop: the box `lo[d] ..= hi[d]` over the first `last` dimensions. */
  method BoxPoints(lo: seq<int>, hi: seq<int>, last: nat) returns (ch: seq<seq<int>>)
    requires last <= |lo| && last <= |hi|
    ensures forall p :: p in ch <==> |p| == last && InBoxPoint(p, lo, hi)
  {
    ch := [[]];
    var idx := 0;
    while idx < last
      invariant 0 <= idx <= last
      invariant forall p :: p in ch <==> |p| == idx && InBoxPoint(p, lo, hi)
    {
      ProductRangeStep(ch, idx, lo, hi);
      ch := Product(ch, Range(lo[idx], hi[idx]));
      idx := idx + 1;
    }
  }

  /** A full-length point is in the box iff its prefix is and its last coordinate is in range. */
  lemma InBoxLast(p: seq<int>, lo: seq<int>, hi: seq<int>)
    requires 1 <= |p| <= |lo| && |p| <= |hi|
    ensures InBoxPoint(p, lo, hi) <==> InBoxPoint(p[..|p| - 1], lo, hi) && lo[|p| - 1] <= p[|p| - 1] <= hi[|p| - 1]
  {
  }

  /**
   * `convex_hull_hyperrectangle_nd`: `None` where the source panics (an empty
   * `u`, or a `w` too short for the indices it reads). With `w_high` the first
   * half of `w` and `w_low` the second, the dense hull is the box
   * `[-w_low[d], w_high[d]]` over every dimension; the non-dense hull keeps only
   * the two extremes of the last dimension.
   */
  method ConvexHullHyperrectangleNd(u: seq<seq<int>>, w: seq<int>, dense: bool) returns (r: Option<seq<seq<int>>>)
    ensures r.None? <==> |u| == 0 || (|u[0]| < 2 && |w| < 2) || (|u[0]| >= 2 && |w| / 2 < |u[0]|)
    ensures r.Some? && |u[0]| < 2 ==> r.value == ConvexHull1d(w)
    ensures r.Some? && |u[0]| >= 2 ==>
              forall p :: p in r.value <==> HullPoint(p, |u[0]|, w, dense)
  {
    if |u| == 0 {
      return None;
    }
    var dims := |u[0]|;
    if dims < 2 {
      if |w| < 2 {
        return None;
      }
      return Some(ConvexHull1d(w));
    }
    var half := |w| / 2;
    if half < dims {
      return None;
    }
    var wHigh := w[..half];
    var wLow := w[half..];
    var lo := seq(dims, d requires 0 <= d < dims => -wLow[d]);
    assert lo == LowBounds(w, dims);
    var hi := wHigh[..dims];
    assert hi == w[..dims];
    var ch;
    if dense {
      ch := BoxPoints(lo, hi, dims);
      forall p
        ensures p in ch <==> HullPoint(p, dims, w, dense)
      {
        if |p| == dims {
          InBoxLast(p, lo, hi);
        }
      }
    } else {
      ch := BoxPoints(lo, hi, dims - 1);
      ProductExtremesStep(ch, dims, lo, hi);
      ch := Product(ch, [lo[dims - 1], hi[dims - 1]]);
    }
    r := Some(ch);
  }

  /** `-w_low[d]` for each dimension `d`, where `w_low` is the second half of `w`. */
  function LowBounds(w: seq<int>, dims: nat): (lo: seq<int>)
    requires |w| / 2 >= dims
    ensures |lo| == dims && forall d :: 0 <= d < dims ==> lo[d] == -w[|w| / 2 + d]
  {
    seq(dims, d requires 0 <= d < dims => -w[|w| / 2 + d])
  }

  /**
   * A point of the hull over `dims >= 2` dimensions: every coordinate but the
   * last inside `[-w_low[d], w_high[d]]`, and the last one inside that range
   * (dense) or at one of its two ends (non-dense).
   */
  predicate HullPoint(p: seq<int>, dims: nat, w: seq<int>, dense: bool)
    requires 1 <= dims <= |w| / 2
  {
    var lo := LowBounds(w, dims);
    var hi := w[..dims];
    && |p| == dims && InBoxPoint(p[..dims - 1], lo, hi)
    && if dense then lo[dims - 1] <= p[dims - 1] <= hi[dims - 1]
       else p[dims - 1] == lo[dims - 1] || p[dims - 1] == hi[dims - 1]
  }
}
