# z_polyhedrator core, modelled in Dafny

The model covers the integer core of z_polyhedrator, a tool that describes a
sparse matrix by the arithmetic progressions among its nonzeros.

- A **pattern** `(n, i, j)` is `n` cells with step `(i, j)`.
- A **piece** (an AST in the plotter's terms) is a pattern placed at a cell,
  `(row, col, (n, i, j))`.
- The searches cover the nonzeros with disjoint pieces drawn from a pattern
  list. Every nonzero left over becomes the single-cell piece
  `(row, col, (1, 0, 0))`.
- Higher-order *metapatterns* are grown from repeated strides between pieces
  of the same pattern.
- A plotter draws a piece list as PDF tiles, merged row by row and then by a
  binary reduction.

The model is functional: immutable datatypes, maps from cells to state,
and searches written as folds.

| module | file | models |
|---|---|---|
| `Wrappers` | wrappers.dfy | `Option` / `Result` for panics and raised errors |
| `Arith` | arith.dfy | multiplication and Euclidean division facts used by the proofs |
| `Sparse` | sparse.dfy | cells, patterns, pieces, the cells a piece visits, cover counts |
| `LinkedMap` | linked_map.dfy | the `linked_hash_map` crate: insertion-ordered entries; `insert` of an existing key moves it to the back |
| `Sorting` | sorting.dfy | a sort by a lexicographic key (`sorted_by_key`); it is applied to distinct strides, so the order of equal keys never matters |
| `SpSearch` | spsearch.dfy | `src/spsearch.rs`: `load_patterns` validation, `check_pattern`, CellFirst / PatternFirst search, singletons |
| `SpGSearx` | spgsearx.dfy | `src/spgsearx.rs`: the same search without the `n < 2` rejection |
| `PrioSearch` | prio_search.dfy | the priority / invalidation state machine shared by `src/spisearx.rs` and `src/spsearx.rs` |
| `PieceList` | piece_list.dfy | `get_piece_list` of `spisearx` and the dump marking of `print_pieces` in `spsearx` |
| `Utils` | utils.dfy | `src/utils.rs`: `flatten`, `orig_uwc_to_piece_1d`, the U/w/c hyperrectangle, the convex hulls |
| `SpfGen` | spfgen.dfy | `src/spfgen.rs`: `ast_to_uwc`, `from_piece_list` |
| `SpAugment` | spaugment.dfy | `compute_metapatterns` and `check_metapattern_reps` of `src/spaugment.rs` |
| `Augment` | augment.dfy | `from_1d_origin_uwc_list` and `augment_dimensionality` of `src/spaugment.rs` |
| `AstFile` | ast_file.dfy | the AST text format: `read_ast_file` and the writer `print_pieces` |
| `PlotTiles` | plot_tiles.dfy | `utils/plot_ast_2d.py`: tile intersection, extent quantisation, saved tiles |
| `PlotMerge` | plot_merge.dfy | `utils/plot_ast_2d.py`: row merge, log reduction schedule, the output page |

Representation choices:

- The `CsMat<bool>` of the live search is a map from each nonzero to its
  "taken" flag. The nonzeros are listed in CSR iteration order.
- The `TriMat<Prio>` of the older searches is a map from each nonzero to
  `Prio(prio, src_row, src_col)`.
- Every `panic!`, failing `unwrap` and raised `ValueError` is a `None` or a
  `Failure`.
- `usize` wrap-around in the older searches' cell addressing is written out
  modulo 2^64.
- A PDF page is a sequence of placement records `(tile, dx, dy)`. The plotter's
  temporary directory is a map from file names to pages.

## Model

| member | source | states |
|---|---|---|
| Sparse.Cells | src/spsearch.rs:198-210 | the cells a piece visits are `(x + k*i, y + k*j)` for `k` in `0 .. n-1`, in that order |
| Sparse.MarkPiece | src/spsearch.rs:139-146 | marking a piece sets exactly its cells taken and leaves every other flag and the key set unchanged |
| Sparse.CellsDistinct | src/spsearch.rs:114-123 | a pattern with at most one cell or a nonzero step never visits a cell twice |
| Sparse.CoverCountAppend | src/spsearch.rs:152-157 | the number of pieces covering a cell adds up over concatenated piece lists |
| Sparse.CoverOnceDisjoint | src/spsearch.rs:114-123 | a cell covered at most once lies in at most one piece of the list |
| Sparse.PartitionSum | src/spsearch.rs:152-157 | pieces that cover every nonzero exactly once and nothing else, none visiting a cell twice, have lengths summing to the number of nonzeros, and their cells form the multiset of nonzeros |
| SpSearch.FromMatrix | src/spsearch.rs:28-48 | a fresh search state has one untaken flag per nonzero and no found pieces |
| SpSearch.FirstShort | src/spsearch.rs:56-67 | finds the first pattern with `n < 2`, or reports that every pattern has `n >= 2` |
| SpSearch.LongOnly | src/spsearch.rs:68-70 | the filter keeps only patterns with `n > 1` and is the identity on a list of such patterns |
| SpSearch.LoadPatterns | src/spsearch.rs:56-70 | loading fails exactly when some pattern has `n < 2`, and names the first one; otherwise the list is stored unchanged |
| SpSearch.FreeFrom | src/spsearch.rs:198-210 | the loop accepts exactly when every remaining cell of the piece is a nonzero that is not taken |
| SpSearch.CheckPattern | src/spsearch.rs:177-213 | `None` at a taken start and when the last cell is outside the matrix; `Some` exactly when the start is free, the last cell is in bounds and every cell `1 .. n-1` is a free nonzero; the result echoes the inputs as a piece |
| SpSearch.CheckPatternCellsFree | src/spsearch.rs:198-212 | every cell of an accepted piece, the start included, is a free nonzero |
| SpSearch.FirstFit | src/spsearch.rs:99-113 | CellFirst takes the first pattern in list order that `check_pattern` accepts at the cell, and none only when every pattern is rejected |
| SpSearch.AcceptAccounted | src/spsearch.rs:114-123 | accepting a piece that `check_pattern` returned keeps every taken nonzero covered by exactly one found piece and every other cell by none |
| SpSearch.CellFirstAccounted | src/spsearch.rs:91-125 | the CellFirst pass keeps that cover invariant, and every found piece uses a loaded pattern |
| SpSearch.CellFirst | src/spsearch.rs:91-125 | the CellFirst pass only appends pieces and never changes which cells carry a flag |
| SpSearch.Untaken | src/spsearch.rs:130-133 | the snapshot for one pattern holds exactly the nonzeros not yet taken |
| SpSearch.PatternPass | src/spsearch.rs:134-148 | one pattern's pass only appends pieces of that pattern, each anchored at a cell of the snapshot |
| SpSearch.PatternPassAccounted | src/spsearch.rs:134-148 | one pattern's pass keeps the cover invariant |
| SpSearch.PatternFirstAccounted | src/spsearch.rs:127-150 | the PatternFirst loop keeps the cover invariant, and every found piece uses a loaded pattern |
| SpSearch.PatternFirst | src/spsearch.rs:127-150 | the PatternFirst loop only appends pieces and never changes which cells carry a flag |
| SpSearch.Singletons | src/spsearch.rs:152-157 | the leftover pieces are all single-cell `(1, 0, 0)` pieces |
| SpSearch.SingletonsCover | src/spsearch.rs:152-157 | the leftover pieces cover each untaken nonzero exactly once and nothing else |
| SpSearch.Pass | src/spsearch.rs:91-150 | either priority mode only appends to the found pieces |
| SpSearch.PassAccounted | src/spsearch.rs:91-150 | either priority mode keeps the cover invariant and uses only loaded patterns |
| SpSearch.SearchPatterns | src/spsearch.rs:80-159 | the search fails exactly when both or neither priority flag is set; otherwise it keeps the matrix, the patterns and the set of nonzeros |
| SpSearch.SearchCoversOnce | src/spsearch.rs:114-157 | after a search from a fresh matrix, every nonzero lies in exactly one piece, no other cell lies in any piece, and every piece uses a loaded pattern or `(1, 0, 0)` |
| SpSearch.SearchPiecesDisjoint | src/spsearch.rs:114-146 | no two pieces of a fresh search share a cell |
| SpSearch.SearchLengthsSumToNnz | src/spsearch.rs:152-157 | with validated patterns whose step is not `(0, 0)`, the pattern lengths sum to the number of nonzeros |
| SpGSearx.SearchPatterns | src/spgsearx.rs:86-165 | fails exactly on a bad flag combination; otherwise only appends pieces and keeps the set of nonzeros |
| SpGSearx.SearchCoversOnce | src/spgsearx.rs:120-163 | even without the `n < 2` check, every nonzero lies in exactly one piece and no other cell is covered |
| SpGSearx.ShortPatternSkewsLengths | src/spgsearx.rs:62-77 | the pattern `(-1, 0, 0)` on a one-nonzero matrix yields pieces whose lengths sum to 0, not 1 |
| PrioSearch.CarryOffset | src/spisearx.rs:128-133 | without wrap-around the `(r + c/numcols, c % numcols)` carry keeps the row-major offset and lands in a column of the matrix |
| PrioSearch.CarryPlain | src/spisearx.rs:128-133 | a column already inside the matrix is not carried |
| PrioSearch.Address | src/spisearx.rs:127-134 | whatever the offsets, the address of cell `k` is a `usize` row and a column inside the matrix; `AddressOffset` and `AddressPlain` relate it to the unwrapped cell |
| PrioSearch.AddressOffset | src/spisearx.rs:127-134 | when no coordinate wraps, the address of cell `k` keeps the row-major offset of the unwrapped cell |
| PrioSearch.AddressPlain | src/spisearx.rs:127-134 | a pattern cell inside the matrix is addressed as itself |
| PrioSearch.Trace | src/spisearx.rs:127-134 | the visited cells are the `n` wrapped addresses of the pattern, in order |
| PrioSearch.FreeValue | src/spisearx.rs:16-20 | in a consistent state a cell is free exactly when its priority value is `usize::MAX` |
| PrioSearch.Fill | src/spisearx.rs:182-198 | setting a list of cells to one value changes exactly those cells |
| PrioSearch.ResetClass | src/spisearx.rs:172-199 | releasing a held piece frees exactly the cells carrying its tag and keeps the state consistent |
| PrioSearch.MatchFrom | src/spisearx.rs:127-147 | a pattern at priority `p` matches only if each of its cells is a nonzero whose priority value is strictly greater than `p` |
| PrioSearch.InvalidateEffect | src/spisearx.rs:157-200 | every piece overlapping the match is released whole, nothing else changes, and the flag is raised exactly when such a piece existed |
| PrioSearch.Invalidate | src/spisearx.rs:157-200 | the invalidation keeps the set of nonzeros and the consistency of the tags |
| PrioSearch.FirstMatch | src/spisearx.rs:120-147 | the first pattern in priority order that is not skipped and matches, and no earlier one matches |
| PrioSearch.Claim | src/spisearx.rs:157-225 | a claim keeps the set of nonzeros and the consistency of the tags |
| PrioSearch.ClaimEffect | src/spisearx.rs:157-225 | after a match the pattern's cells carry `(p, row, col)`, the cells of overlapped pieces are free, every other cell keeps its tag, the flag says whether a piece was released, and claimed cells only lower their priority value |
| PrioSearch.ClaimQuiet | src/spisearx.rs:157-225 | a claim that releases nothing leaves every held cell as it was |
| PrioSearch.Pass | src/spisearx.rs:110-227 | one pass keeps consistency, only raises the running maximum priority to a pattern index, and never lowers the flag |
| PrioSearch.PassKeepsHeld | src/spisearx.rs:110-227 | a pass that releases nothing only adds claims: every held cell keeps its tag |
| PrioSearch.Loop | src/spisearx.rs:103-230 | the repeated passes keep the set of nonzeros and the consistency of the tags |
| PrioSearch.Initial | src/spisearx.rs:52-56 | the initial exploration matrix has every nonzero free |
| PrioSearch.Search | src/spisearx.rs:93-231 | a finished search has one entry per nonzero, and every held cell belongs to a whole piece whose cells all carry its tag |
| PrioSearch.PassNoPatterns | src/spisearx.rs:120-126 | with no patterns a pass changes nothing |
| PrioSearch.SearchNoPatterns | src/spisearx.rs:99-230 | with no patterns the search stops after one pass, every nonzero free |
| PieceList.Dump | src/spisearx.rs:247-287 | the traversal never adds or removes a nonzero of the state it marks |
| PieceList.DumpStep | src/spisearx.rs:247-287 | one visited cell writes its reference entry in front of what the rest of the traversal writes |
| PieceList.DumpFrom | src/spisearx.rs:247-287 | on a consistent state the traversal never panics and writes exactly the reference list |
| PieceList.GetPieceListWrites | src/spisearx.rs:234-290 | `get_piece_list` never panics on a searched state and returns each free nonzero as `(1, 0, 0)` and each piece once, at the first of its cells in storage order |
| PieceList.PrintPiecesMarks | src/spsearx.rs:232-275 | `print_pieces` prints the same list and leaves every held nonzero marked written and every free one free |
| PieceList.PrintPiecesTwice | src/spsearx.rs:236-274 | a second `print_pieces` prints only the free nonzeros, because the first marked every piece as written |
| PieceList.SinglesAgree | src/spisearx.rs:257-260 | the single-cell entries depend only on which cells are free |
| PieceList.CoverFrom | src/spisearx.rs:261-286 | anchored at their source cells, the written pieces from position `i` on cover each nonzero as often as it remains to be written |
| PieceList.AtSourceCovers | src/spisearx.rs:261-286 | anchored at their source cells, the written pieces cover every nonzero exactly once and nothing else |
| PieceList.PairSearch | src/spisearx.rs:93-231 | on the nonzeros `(0,0), (0,1)` with the pattern `(2, 0, -1)`, the search holds both cells under the piece that starts at `(0, 1)` |
| PieceList.VisitedAnchorMisses | src/spisearx.rs:261-265 | on that state the piece is written at the visited cell `(0, 0)`, so nonzero `(0, 1)` lies on no written piece; written at the source cell it is covered once |
| PieceList.PairDump | src/spisearx.rs:247-287 | the traversal of that state writes one piece, at `(0, 0)` as written and at `(0, 1)` when anchored at the source |
| Utils.Flatten | src/utils.rs:93-95 | the flattening is as long as all inner vectors together |
| Utils.FlattenAppend | src/utils.rs:93-95 | flattening distributes over concatenation, so the inner vectors appear in order |
| Utils.FlattenMembers | src/utils.rs:93-95 | an element is in the flattening exactly when it is in one of the inner vectors |
| Utils.Chain | src/utils.rs:120-135 | the chain has `order` patterns, the first being that of the starting id |
| Utils.HyperrectangleU | src/utils.rs:107-113 | `u` has `2*order` rows of length `order`, with -1 on the diagonal of the top half, +1 on the diagonal of the bottom half, and 0 elsewhere |
| Utils.HyperrectangleWc | src/utils.rs:117-131 | `w[idx] = n_idx - 1` along the chain and 0 after it, and `c` holds `i_idx, j_idx` pairs along the chain |
| Utils.MetapatternToHyperrectangleUwc | src/utils.rs:99-141 | `None` exactly on an unknown id along the chain or a negative order; otherwise the U/w/c of the chain of `order` patterns from the id |
| Utils.Range | src/utils.rs:154 | `lo ..= hi` is the ascending integers from `lo` to `hi`, empty when `lo > hi` |
| Utils.ConvexHull1d | src/utils.rs:152-155 | the hull holds exactly the one-coordinate points from `w[1]` to `w[0]`, one each, and is empty when `w[1] > w[0]` |
| Utils.Product | src/utils.rs:179 | one comprehension step extends every point by every value |
| Utils.ProductMembers | src/utils.rs:179 | a point of the product is a point of the old hull followed by one of the values |
| Utils.ProductRangeStep | src/utils.rs:178-180 | the dense step extends the box by the full range of the next dimension |
| Utils.ProductExtremesStep | src/utils.rs:182-184 | the non-dense step extends the box by the two extremes of the last dimension only |
| Utils.BoxPoints | src/utils.rs:176-180 | after the loop the points are exactly the box `[-w_low[d], w_high[d]]` over the dimensions visited |
| Utils.ConvexHullHyperrectangleNd | src/utils.rs:159-187 | `None` exactly where the source indexes out of bounds; the 1D case delegates to `convex_hull_1d`; otherwise the points are the dense box or the box with only the last dimension's extremes |
| Utils.LowBounds | src/utils.rs:174 | the lower bounds are the negated second half of `w` |
| SpfGen.FromPieceList | src/spfgen.rs:11-19 | the AST list is kept unchanged and there is one encoding per AST |
| SpfGen.AstToUwcIgnoresPosition | src/spfgen.rs:44-55 | two ASTs have the same encoding exactly when they have the same pattern |
| Utils.OrigUwcToPiece1d | src/utils.rs:145-148 | the decoded piece keeps the uwc's origin, its `k`-th cell is the origin moved `k` times by `(c[0], c[1])`, and it has `w[0] + 1` cells; `SpfGen.AstRoundTrip` is its inverse partner |
| SpfGen.AstToUwc | src/spfgen.rs:44-55 | an AST is encoded as the order-1 hyperrectangle of its pattern, which decodes at the AST's origin to the AST itself |
| SpfGen.AstRoundTrip | src/spfgen.rs:44-55 | decoding the encoding of an AST at its own origin with `orig_uwc_to_piece_1d` gives the AST back |
| SpfGen.FromPieceListRoundTrip | src/spfgen.rs:11-19 | every encoding of the generator decodes at its AST's origin to that AST |
| SpfGen.AstHullIsPieceCells | src/spfgen.rs:44-55 | the 1D hull of an encoding enumerates the offsets `0 .. n-1`, so mapping them to cells gives exactly the AST's cells |
| SpfGen.AstHull | src/spfgen.rs:50-52 | `convex_hull_hyperrectangle_nd` on an encoding returns `n` points `[0], ..., [n-1]` |
| LinkedMap.Get | src/spaugment.rs:37 | a lookup finds a key exactly when some entry has it, and returns that entry's value |
| LinkedMap.GetInsert | src/spaugment.rs:39 | after an insertion the key reads the new value and every other key is unchanged |
| LinkedMap.GetExtend | src/spaugment.rs:107-108 | after `extend` the extension's value wins where it has the key |
| LinkedMap.ExtendMembers | src/spaugment.rs:134-135 | the entries after `extend` are those of the extension and the old ones whose key it does not hold |
| Sorting.SortBy | src/spaugment.rs:221-228 | the result is sorted by the key and is a permutation of the input |
| SpAugment.PairStrides | src/spaugment.rs:208-216 | the strides from one origin are exactly the differences to the later origins that pass the filter |
| SpAugment.Strides | src/spaugment.rs:208-216 | the retained strides are exactly the differences `b - a` over ordered pairs with both `abs(dx)` and `abs(dy)` in `[min_stride, max_stride]`, one entry per pair: each stride occurs as often as the pairs `a < b` it separates |
| SpAugment.PairStridesCount | src/spaugment.rs:208-216 | from one origin, a stride in range occurs once for every later origin at that difference, and a stride out of range never |
| SpAugment.StridesCountBelow | src/spaugment.rs:208-216 | over the first `top` origins, a stride in range occurs once for every pair at that difference |
| SpAugment.Groups | src/spaugment.rs:221-225 | each distinct retained stride appears once with its number of occurrences |
| SpAugment.Occurrences | src/spaugment.rs:221-228 | the occurrence list is sorted by descending count, ties by smaller `dx*dx + dy*dy`, and holds each distinct stride once with its count |
| SpAugment.RepsFrom | src/spaugment.rs:347-361 | the first step from `from` whose cell is absent or marked, or `max_n` when there is none |
| SpAugment.CheckMetapatternReps | src/spaugment.rs:336-361 | length 0 at a marked start; otherwise the first step in `[1, max_n)` whose cell is absent or marked, or `max_n`; position and stride echoed |
| SpAugment.CheckedPieceFree | src/spaugment.rs:336-361 | the length never exceeds a non-negative `max_n`, and every cell of the result is a free origin |
| SpAugment.CsrOrder | src/spaugment.rs:236-239 | the exploration matrix iterates each origin once, by row and then by column |
| SpAugment.FreshExploration | src/spaugment.rs:236-239 | the exploration matrix holds every origin and none is found |
| SpAugment.ScanCells | src/spaugment.rs:273-287 | the inner loop keeps the longest candidate, at least as long as every candidate it tries; an origin it skips is one from which no candidate could beat the kept one; every candidate is anchored at an origin with the tried stride and lies on free origins |
| SpAugment.ScanWindows | src/spaugment.rs:269-316 | a round ends with a piece of length at least `piece_cutoff` from one of the windows, or with none |
| SpAugment.Decrement | src/spaugment.rs:250-256 | only the count of the found stride changes, lowered by the given amount (`n - 1` where the round calls it) |
| SpAugment.RecordMetas | src/spaugment.rs:289-305 | the append routine reuses the back id for the same pattern or appends the next id, and the piece's id stands for its pattern |
| SpAugment.RecordPieces | src/spaugment.rs:308-309 | recording a piece at a new origin appends it to the piece list |
| SpAugment.NextInv | src/spaugment.rs:247-316 | a round that finds a piece keeps consecutive ids, long retained patterns and a cover of the found origins |
| SpAugment.ExploreLoop | src/spaugment.rs:247-321 | the search rounds never change the set of origins |
| SpAugment.ExploreLoopInv | src/spaugment.rs:247-321 | the search rounds keep the exploration invariant, and the metapattern list is non-empty once a piece was found |
| SpAugment.ExploredInv | src/spaugment.rs:196-321 | from fresh tables the loop ends with the invariant, and with metapatterns exactly when the first round finds a piece |
| SpAugment.ComputeMetapatterns | src/spaugment.rs:184-332 | `None` with fewer than `piece_cutoff` origins or when no piece is found; otherwise consecutive ids from `start_id`, each `(p, 0, Some(low_order_id))` with `n >= piece_cutoff` and a retained stride, pieces covering each origin at most once |
| SpAugment.ComputedPiecesDisjoint | src/spaugment.rs:258-262 | the returned pieces lie on the origins and never overlap |
| Augment.PiecesFrom | src/spaugment.rs:26-32 | the piece table has distinct origins |
| Augment.PiecesFromAbsent | src/spaugment.rs:26-32 | a cell has a piece entry exactly when it is the origin of some list entry |
| Augment.PiecesFromLast | src/spaugment.rs:26-32 | each origin maps to the id of its last entry in the list |
| Augment.MetasFrom | src/spaugment.rs:35-41 | the metapattern table has distinct ids |
| Augment.MetasFromKeys | src/spaugment.rs:35-41 | an id has a metapattern exactly when it occurs in the list |
| Augment.MetasFromFirst | src/spaugment.rs:35-41 | the metapattern of an id is `((n, i, j), 1, None)`, built from its first entry |
| Augment.FromOriginUwcList | src/spaugment.rs:18-54 | both tables have distinct keys and the matrix sizes are kept |
| Augment.NonSingle | src/spaugment.rs:84-85 | the filtered table is the entries whose id is not -1 |
| Augment.Flush | src/spaugment.rs:97-114 | ending a run clears the origins and keeps the current id |
| Augment.FlushIds | src/spaugment.rs:102-108 | ending a run keeps new ids consecutive from the dimension's start id |
| Augment.Grouped | src/spaugment.rs:94-127 | after the grouping loop no origin is pending, and the new metapatterns carry consecutive ids from `start_id`, one per metapattern; `Augment.GroupedCover` is its cover partner |
| Augment.FlushCover | src/spaugment.rs:97-114 | ending a run keeps every origin covered at most once by the new pieces |
| Augment.GroupedCover | src/spaugment.rs:94-127 | after the loop the new pieces cover only origins of the table, each at most once |
| Augment.SetOrder | src/spaugment.rs:156 | changing an order keeps the ids in place |
| Augment.GetSetOrder | src/spaugment.rs:156 | only the order of the named id changes |
| Augment.RemoveRun | src/spaugment.rs:159-163 | removing the run of cells keeps the keys distinct |
| Augment.GetRemoveRun | src/spaugment.rs:159-163 | exactly the cells `1 .. n-1` of the piece lose their entry |
| Augment.Invalidate | src/spaugment.rs:147-164 | the invalidation keeps every metapattern id in place and the tables' keys distinct |
| Augment.InvalidateMetas | src/spaugment.rs:147-164 | every metapattern named by a new piece gets order `curr_dim`, and nothing else in the table changes |
| Augment.InvalidatePieces | src/spaugment.rs:147-164 | a piece entry disappears exactly when a new piece reaches its cell past its own origin |
| Augment.Invalidated | src/spaugment.rs:140-164 | the invalidation after `extend` keeps the sizes and the metapattern ids |
| Augment.Step | src/spaugment.rs:75-170 | one dimension keeps the matrix sizes |
| Augment.Dims | src/spaugment.rs:75-170 | the dimensions loop keeps the matrix sizes |
| Augment.AugmentDimensionality | src/spaugment.rs:56-171 | fails exactly when `piece_cutoff < 2`; otherwise keeps the sizes, and changes nothing when `target_dim < 2` |
| Augment.StepPieces | src/spaugment.rs:133-164 | after one dimension a cell that a new piece reaches past its origin has no entry, a new origin has its new id, and every other cell is unchanged |
| Augment.StepOrigins | src/spaugment.rs:158-163 | every new piece keeps its origin under its new id |
| Augment.StepMetas | src/spaugment.rs:133-164 | old ids keep their metapattern; a new id keeps its metapattern, with order `curr_dim` when some piece has it |
| Augment.StepIdBound | src/spaugment.rs:87-104 | every id after one dimension is -1 or below the next start id |
| Augment.StepShape | src/spaugment.rs:133-135 | the metapattern table is the old entries followed by the new block with consecutive ids from the start id |
| Augment.StepWellNumbered | src/spaugment.rs:87-135 | one dimension keeps the numbering, and the next start id follows the new block |
| Augment.DimsKeep | src/spaugment.rs:75-170 | the dimensions loop keeps the numbering and never changes a metapattern already there |
| Augment.AugmentKeeps | src/spaugment.rs:56-171 | `augment_dimensionality` keeps the numbering and leaves every existing metapattern as it was |
| AstFile.Split | utils/plot_ast_2d.py:85 | `split` yields at least one piece, none holding the separator |
| AstFile.JoinSplit | utils/plot_ast_2d.py:85 | joining the pieces of a split gives the text back |
| AstFile.SplitJoin | utils/plot_ast_2d.py:94 | splitting a join of separator-free pieces gives the pieces back |
| AstFile.Strip | utils/plot_ast_2d.py:85 | a stripped line neither starts nor ends with a space |
| AstFile.StripEmpty | utils/plot_ast_2d.py:85-86 | a line strips to nothing exactly when it is all spaces |
| AstFile.StripKeeps | utils/plot_ast_2d.py:85 | a line without surrounding spaces is kept as it is |
| AstFile.NonBlank | utils/plot_ast_2d.py:86 | the filter keeps no empty line |
| AstFile.NonBlankEmpty | utils/plot_ast_2d.py:86-89 | the filter leaves nothing exactly when every line is blank |
| AstFile.NonBlankKeeps | utils/plot_ast_2d.py:86 | a list without blank lines passes the filter untouched |
| AstFile.CleanEmpty | utils/plot_ast_2d.py:85-89 | no line survives exactly when every raw line strips to nothing |
| AstFile.ParseAst | utils/plot_ast_2d.py:93-98 | a line is accepted exactly when it has five tab-separated fields that `int()` accepts, and reads as those five integers |
| AstFile.ParseAll | utils/plot_ast_2d.py:93-98 | all lines are read, in order, or the read fails exactly when one line is malformed |
| AstFile.ReadLines | utils/plot_ast_2d.py:77-98 | fails as empty exactly when every line is blank, as not an AST file exactly on a wrong header or a malformed later line; otherwise returns one AST per remaining line, in order |
| AstFile.RowParses | src/spsearch.rs:164-166 | a written piece line is non-empty, has no newline or surrounding space, and parses back to the piece |
| AstFile.CleanRows | src/spsearch.rs:161-167 | stripping and dropping blanks from the written text leaves the header and the piece lines |
| AstFile.ReadLinesAccepts | utils/plot_ast_2d.py:88-98 | a header followed by lines that each parse is read as those ASTs |
| AstFile.ReadRows | src/spsearch.rs:161-167 | the lines `print_pieces` writes are read back as the pieces they show |
| AstFile.ReadRender | src/spsearch.rs:161-167 | reading back the text `print_pieces` wrote gives the same pieces |
| AstFile.NonBlankSplit | utils/plot_ast_2d.py:86 | the blank filter distributes over concatenation |
| PlotTiles.RangeStep | utils/plot_ast_2d.py:323-324 | `range(start, stop, step)` is ascending and lies in `[start, stop)` |
| PlotTiles.RangeStepMembers | utils/plot_ast_2d.py:323-324 | the range holds exactly the values from `start` below `stop` reached in whole steps |
| PlotTiles.InBlock | utils/plot_ast_2d.py:100-110 | an AST meets a tile exactly when one of its sample points lies in it; segments are not tested |
| PlotTiles.PointsInCanvas | utils/plot_ast_2d.py:120-124 | the count is positive exactly when some AST meets the tile |
| PlotTiles.PlotBlock | utils/plot_ast_2d.py:165-167 | a tile is saved exactly when it is the origin tile or some AST meets it |
| PlotTiles.SavedTiles | utils/plot_ast_2d.py:323-333 | the saved files are exactly the grid tiles that `_plot_matrix_block` keeps |
| PlotTiles.OriginSaved | utils/plot_ast_2d.py:165-167 | tile `(0, 0)` is always saved |
| PlotTiles.TruncDiv | utils/plot_ast_2d.py:316-317 | `int(a / b)` truncates toward zero |
| PlotTiles.Quantise | utils/plot_ast_2d.py:316-317 | the quantised extent is a multiple of the stride strictly greater than the index, and at most index plus stride when that sum is not negative |
| PlotTiles.ExtentAsWritten | utils/plot_ast_2d.py:313-317 | as written, the extents bound every AST's last point, are multiples of the stride, and do not exist for an empty list |
| PlotTiles.Extent | utils/plot_ast_2d.py:313-317 | the corrected extents bound every sample point of every AST |
| PlotTiles.TileOf | utils/plot_ast_2d.py:323-324 | every point of the first quadrant lies in the grid tile at its rounded-down corner |
| PlotTiles.GridCovers | utils/plot_ast_2d.py:313-333 | with the corrected extent every sample point in the first quadrant lies in a saved tile |
| PlotTiles.FirstPointDropped | utils/plot_ast_2d.py:313-317 | as written, the grid of `[(0, 25, 2, 1, -1)]` is the single tile `(0, 0)`, which misses the first point `(25, 0)` |
| PlotTiles.FirstPointKept | utils/plot_ast_2d.py:313-317 | with the corrected extent the grid reaches that point's tile and saves it |
| PlotMerge.Shift | utils/plot_ast_2d.py:219-221 | a translation moves every placement by `(dx, dy)` |
| PlotMerge.Plotted | utils/plot_ast_2d.py:189-190 | after plotting there is one file per saved tile, holding that tile at the origin |
| PlotMerge.MergeRow | utils/plot_ast_2d.py:194-228 | the merged row holds exactly the placements of the tile files `(i, j)` for the listed `i`, each moved right by `(i / stride_i) * width` |
| PlotMerge.RowFromSource | utils/plot_ast_2d.py:208-224 | every placement of a merged row comes from a listed tile file moved to its column, and every such placement arrives |
| PlotMerge.RowFromPlaces | utils/plot_ast_2d.py:208-224 | a merged row holds each saved tile of its row once, at x `(i / stride_i) * width` and y 0 |
| PlotMerge.RowBand | utils/plot_ast_2d.py:203-228 | every merged row is the band of its single tile row |
| PlotMerge.MergeRowsEffect | utils/plot_ast_2d.py:350-360 | the row phase writes `row_{j}` for every `j`, each from the tile files alone, and leaves every other file as it was |
| PlotMerge.FloorLog2 | utils/plot_ast_2d.py:347 | `int(np.log2(m))` is the exact floor of the base-2 logarithm |
| PlotMerge.Reduce | utils/plot_ast_2d.py:250-306 | a task writes one file, `row_{k}_{j}` or at the last level the output, and leaves every other file; the file holds the top input raised by `height * 2^k` above the bottom input, both lifted to the top of the page at the last level |
| PlotMerge.LevelEffect | utils/plot_ast_2d.py:277-281 | a middle level writes `row_{k}_{j}` for its tasks, each from the previous level's files, and changes nothing else |
| PlotMerge.MergedBand | utils/plot_ast_2d.py:250-275 | the page a task writes draws exactly the saved tiles of the `2^(k+1)` tile rows from its offset, each once, at its row's height within the band |
| PlotMerge.LevelStep | utils/plot_ast_2d.py:363-383 | a middle level leaves exactly the files the next level reads |
| PlotMerge.LastLevel | utils/plot_ast_2d.py:283-306 | the last level writes the output: all rows, shifted by `target_height` minus the page height |
| PlotMerge.ReductionsBand | utils/plot_ast_2d.py:363-383 | the levels from `k` on end with the output file holding every row below `2^reductions` |
| PlotMerge.RowsReady | utils/plot_ast_2d.py:350-360 | after the row merges, level 0 finds every `row_{j}` of the grid |
| PlotMerge.Levels | utils/plot_ast_2d.py:347 | there is at least one level |
| PlotMerge.LevelsReach | utils/plot_ast_2d.py:347 | `2^reductions` tile rows reach past the grid |
| PlotMerge.Schedule | utils/plot_ast_2d.py:346-383 | on a valid grid the schedule writes the output file, which draws every saved tile exactly once at its place and nothing else |
| PlotMerge.ScheduleOutput | utils/plot_ast_2d.py:346-383 | the schedule draws every saved tile exactly once on the output page, at its row's height counted down from the top, and nothing else |
| PlotMerge.TasksApart | utils/plot_ast_2d.py:365 | two tasks of one level are a full span `2^(k+1) * stride_j` apart |
| PlotMerge.ReaderExists | utils/plot_ast_2d.py:241-248 | every input of a level is read by a task at its own offset or one span `2^k * stride_j` below it |
| PlotMerge.ConsumedOnce | utils/plot_ast_2d.py:241-248 | every input of a level is read by exactly one task of that level |
| PlotMerge.LastLevelSingle | utils/plot_ast_2d.py:363-365 | the last level has the single task `j = 0` |
| PlotMerge.PrintAsts | utils/plot_ast_2d.py:308-383 | as written, on the last-point extent: the output page exists exactly when the list and its grid are not empty; otherwise `0_0.pdf` is never written and the merge raises |
| PlotMerge.PrintAstsPlaces | utils/plot_ast_2d.py:308-383 | as written, the output page draws every tile saved on the last-point grid exactly once and nothing else, tile `(i, j)` at `x = (i / 25) * width`, `y = target_height - (j / 25 + 1) * height` |
| PlotMerge.PrintAstsFixed | utils/plot_ast_2d.py:308-383 | with the corrected extent over every point, the output page exists exactly when the list and its grid are not empty |
| PlotMerge.PrintAstsFixedPlaces | utils/plot_ast_2d.py:308-383 | with the corrected extent, the output page draws every saved tile exactly once and nothing else, at the same positions |
| PlotMerge.PrintAstsCovers | utils/plot_ast_2d.py:308-383 | with the corrected extent, every sample point of every AST in the first quadrant is drawn: its tile appears exactly once on the output page |
| PlotMerge.PrintAstsMissesTile | utils/plot_ast_2d.py:308-333 | as written, the output page of `[(0, 25, 2, 1, -1)]` never draws the tile `(25, 0)` |
| PlotMerge.PrintAstsFixedHasTile | utils/plot_ast_2d.py:308-333 | with the corrected extent, the output page of the same list draws the tile `(25, 0)` once |
| PlotMerge.PrintAstsDropsFirstPoint | utils/plot_ast_2d.py:308-333 | the first point `(25, 0)` of that list lies in tile `(25, 0)`: the page as written leaves it out, the corrected page draws it |

## Left out

- File and terminal I/O is not modelled:
  - the MatrixMarket reader (`read_matrix_market_csr`) and `pause`;
  - the pattern-file reading and `scan!` parsing in `load_patterns`;
  - the text decoding in `read_ast_file`.
  The nonzero list, the pattern list and the raw text lines are parameters.
- The command line in `src/main.rs` and the wrapper `utils/transcode_mm.py` are not part of this model.
- Printing is not modelled: the `print_*` functions and the debug `println!` calls.
  - `spsearx`'s `print_pieces` is modelled only for its effect on the state and the list it prints.
  - The text `print_pieces` writes is modelled by `AstFile.Render` and read back by `ReadRender`.
- The `PrintInformation` flag of the older searches only prints, so it is not modelled.
- `get_metapatterns`, `get_metapattern_pieces` and the `get_piece_list` of the live searches are plain copies. They are modelled as the tables themselves.
- Fixed-width integers:
  - `i32` and `i64` overflow of coordinates, products and ids is not modelled; integers are unbounded.
  - The `usize` wrap of a negative coordinate is modelled only in the older searches' addressing.
- PrioSearch.Loop: the `while flag_invalidate` loop has no evident variant. It is bounded by a fuel count and returns `None` when the fuel runs out, so nothing is stated about searches that need more passes.
- PrioSearch.Search: stated only for searches that finish within the fuel.
- SpAugment.Decrement: the occurrence counts are unbounded integers. The `u32` subtraction at `src/spaugment.rs:254`, which may underflow, is not modelled.
- SpAugment.CsrOrder: the exploration matrix is created as `CsMat::zero((max_row, max_col))`.
  - Its shape is not modelled: the model holds exactly the origins, and inserting at row `max_row` or column `max_col` is assumed to succeed.
  - The nonzero positions of sprs are modelled by their row-then-column order.
- SpAugment.Occurrences: ties between strides with equal count and length come from `HashMap` iteration order in the source. The model breaks them by first appearance.
- SpSearch.SearchLengthsSumToNnz: assumes every pattern has a nonzero step.
  - A pattern `(n, 0, 0)` with `n >= 2` passes `check_pattern` on a single free cell.
  - It then counts `n` for one nonzero, so the lengths do not sum to the number of nonzeros.
- PlotTiles.Quantise: when `idx + stride` is negative, Python's truncating `int()` rounds toward zero. The contract then states only a multiple of the stride above `idx`, not the least one.
- Augment.AugmentKeeps: stated for well-numbered states. Those have distinct keys, and every id is -1 or below the next start id, which is what `from_1d_origin_uwc_list` builds from the search's id list.
- PieceList.AtSourceCovers: stated for a matrix with at least one column and distinct nonzeros, which a CSR matrix guarantees.
- The plotter:
  - Not modelled: matplotlib drawing, the colour palette, the floating-point page sizes, the float truncation in `target_width`, the `ProcessPoolExecutor` concurrency (the phases run in sequence), `tqdm` and the temporary directory's lifetime.
  - Pages are placement records `(tile, dx, dy)`, and `width` and `height` are positive integers.
  - `np.log2` is an integer floor logarithm.
- AstFile.Strip: `str.strip()` is modelled on the ASCII whitespace characters only.
- Python's `int()` is a parameter `parse`. Rust's `{}` formatting of integers is a parameter `show` that `parse` reads back.

## Findings

| source | as written | input that shows it | evidently intended | confidence | as-written member | corrected member |
|---|---|---|---|---|---|---|
| src/spisearx.rs:261-265 | `get_piece_list` (and `print_pieces` in `src/spsearx.rs:249-251`) writes a held piece at the cell where the traversal first meets it, not at the piece's source cell `(src_row, src_col)` | numcols 2, nonzeros `(0,0), (0,1)`, pattern `(2, 0, -1)`: the search holds both cells under the piece from `(0, 1)`, and the list is `[(0, 0, (2, 0, -1))]`, which misses `(0, 1)` | write the piece at `(src_row, src_col)`, so that the list covers every nonzero exactly once | not executed; the model proves the as-written list misses the nonzero | PieceList.VisitedAnchorMisses | PieceList.AtSourceCovers |
| utils/plot_ast_2d.py:313-317 | the x and y extents are taken from each AST's last point `col + (n-1)*jj`, `row + (n-1)*ii` only | `[(0, 25, 2, 1, -1)]`: the last point is `(24, 1)`, the grid is the single tile `(0, 0)`, and the first point `(25, 0)` is never drawn | take the extents over every point of the AST (for a progression, the maximum of the first and the last point) | not executed; the model proves the point lies in no tile of the grid and the output page as written does not draw its tile | PlotMerge.PrintAstsDropsFirstPoint | PlotMerge.PrintAstsCovers |
| src/spgsearx.rs:62-77 | `load_patterns` keeps patterns with `n < 2`, which `check_pattern` accepts without marking cells | a 1x1 matrix with one nonzero and the pattern `(-1, 0, 0)`: the pieces are `(0, 0, (-1, 0, 0))` and `(0, 0, (1, 0, 0))`, whose lengths sum to 0 instead of 1 | reject such patterns, as `src/spsearch.rs:62-64` does | not executed; the later `spsearch.rs` adds the check | SpGSearx.ShortPatternSkewsLengths | SpSearch.SearchLengthsSumToNnz |
