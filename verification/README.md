# valr `closest` kernel in Dafny

A model of the per-group closest-interval kernel of valr, `closest_grouped` in
`src/closest.cpp`. Each query interval `vx` belongs to one chromosome group. The kernel asks
an interval tree over that group's reference intervals `vy` for the closest candidates, and
classifies each (query, candidate) pair by overlap and signed distance. It then pushes one
row per candidate onto four parallel accumulators: query row, reference row, overlap and
distance.

Modules, one per component:

- `Intervals` (`intervals.dfy`): the `Interval` record (`start`, `stop`, `value` = data-frame
  row). It also holds `Overlap`, the signed overlap measure the kernel gets from
  `intervalOverlap`. That function's body lives in `valr.h`, which is not part of this
  model. The definition `min(stops) - max(starts)` is an assumption.
- `Classifier` (`classify.dfy`): the three-way overlap/distance rule, and an independent
  positional description that it is proved equal to.
- `Closest` (`closest.dfy`): the candidate set of one query. The interval tree and its
  `findClosest` are not part of this model. They are replaced by a reference definition,
  `FindClosest`, which is an assumed contract and not a verified copy of the tree:
  - if any reference interval overlaps the query (overlap > 0), the result is all of the
    overlapping intervals;
  - otherwise the result is the upstream intervals tied at the least gap, followed by the
    downstream intervals tied at the least gap.

  A candidate is downstream when it starts at or after the query's stop, and upstream when
  it ends at or before the query's start (and is not downstream). `ScanClosest` is a
  one-pass scan that keeps per-side (best distance, intervals) pairs, seeded with the
  `max_end` sentinel as on lines 19-20. Its result is `Scanned`: the overlapping intervals,
  or each side's intervals at the least distance capped by the sentinel. That equals the
  reference whenever no gap exceeds the sentinel.
- `Grouped` (`grouped.dfy`): the four accumulators, the query loop as a function
  (`ClosestGrouped`) and as the loops of the source (`ClosestGroupedLoop`,
  `PushCandidates`). Their rows are related to a reference description: `Rows(Hits(vx, vy))`,
  row k of which copies the ids of the k-th (query, candidate) pair and holds its
  classification. The loops append the rows of `ScannedHits`, the hits of the seeded pass.
  On ordered input these are the same rows.
- `Driver` (`driver.dfy`): the kernel applied to already-paired groups one after another,
  sharing the accumulators.
- `Samples` (`samples.dfy`): the data of the embedded R script, worked through the model.

Choices the model makes about valr:

- Ids are data-frame row positions, because lines 77-78 subset the frames with them. So
  the chr2 sample row is (1, 3, 0, 1000).
- The kernel validates no interval. `start > stop` is never rejected, and `Classify` is
  total over all integer pairs. Positional facts are stated for well-formed intervals only.
- A candidate that touches the query on either side is a neighbour at gap 0. So the pair
  (0,100)/(100,200) reports (0, 0), and a touching interval hides farther ones on its side.
- An interval that neither overlaps the query nor lies wholly on one side of it is not a
  candidate. Examples are an empty interval strictly inside the query, or a reference
  interval around an empty query.

## Model

| member | source | states |
|---|---|---|
| Intervals.Overlap | src/closest.cpp:26 | assumed `intervalOverlap`: positive exactly when both intervals are non-empty and intersect; never more than either length; for disjoint well-formed intervals, minus the gap between them |
| Classifier.Classify | src/closest.cpp:26-44 | overlap is never negative and is the positive part of the raw overlap; positive overlap forces distance 0; distance is positive exactly when the candidate starts after the query stops; otherwise its magnitude is the raw overlap; both are 0 exactly when the raw overlap is 0 |
| Classifier.ClassifyIsGeometric | src/closest.cpp:28-44 | for well-formed intervals the rule equals a positional description: intersection length, downstream gap, minus upstream gap, or (0, 0) for touching intervals |
| Classifier.NegativeMeansUpstream | src/closest.cpp:34-43 | for well-formed intervals a negative distance occurs exactly when the candidate ends before the query starts, and equals stop minus query start; a positive one equals start minus query stop |
| Closest.FindClosest | src/closest.cpp:21 | an empty reference set yields no candidates |
| Closest.OverlappingCount | src/closest.cpp:21 | the overlap set holds each overlapping reference interval exactly as often as it occurs, and nothing else |
| Closest.AtGapCount | src/closest.cpp:21 | a side's tie buffer holds each interval on that side at the given gap as often as it occurs, and nothing else |
| Closest.MinGapIsLeast | src/closest.cpp:10-21 | the least gap on a side is absent exactly when the side is empty; otherwise it is attained and nothing on that side is nearer |
| Closest.NearestIsTied | src/closest.cpp:21 | one side's nearest set is exactly the intervals on that side that no other interval there beats, with multiplicities |
| Closest.OverlapDominates | src/closest.cpp:21 | if any reference interval overlaps the query, the candidates are exactly the overlapping intervals, with multiplicities |
| Closest.NearestWhenDisjoint | src/closest.cpp:21 | with no overlap, the candidates are exactly the intervals nearest on either side, with multiplicities |
| Closest.CandidatesFromReference | src/closest.cpp:21 | every candidate is one of the reference intervals |
| Closest.TiesShareGap | src/closest.cpp:21 | all candidates returned on one side are at the same distance |
| Closest.OfferKeepsPair | src/closest.cpp:10 | offering the next interval turns a side's (best distance, intervals) pair for a prefix into the pair for the longer prefix |
| Closest.ScanStep | src/closest.cpp:10-21 | one scan step extends the overlap buffer by the interval iff it overlaps and updates both side pairs |
| Closest.ScanClosest | src/closest.cpp:10-21 | a pass seeded with (sentinel, empty) per side returns `Scanned`: the overlapping intervals if any, otherwise each side's intervals at its least distance capped by the sentinel; only reference intervals; exactly the reference candidate set when no gap exceeds the sentinel |
| Closest.ScannedIsClosest | src/closest.cpp:10-21 | when no gap exceeds the sentinel, the seeded pass's result equals the reference candidate set |
| Grouped.ScannedHitsAgree | src/closest.cpp:17-21 | if no query is farther from a reference interval than the sentinel, the hits of the seeded pass are the reference hits |
| Grouped.OrderedWithinSentinel | src/closest.cpp:12 | on well-formed, non-negative, start-sorted groups every query-to-reference gap is within `max_end` |
| Grouped.MaxEndBoundsGaps | src/closest.cpp:12 | on well-formed, non-negative, start-sorted groups no query-to-reference gap exceeds `max(vx.back().stop, vy.back().stop)` |
| Grouped.ClosestGrouped | src/closest.cpp:3-49 | requires both groups non-empty; the result is the input accumulators followed by the rows of all (query, candidate) hits in query-then-candidate order; parallel accumulators stay parallel |
| Grouped.ClosestGroupedRows | src/closest.cpp:29-46 | the kernel keeps old contents as a prefix and grows each accumulator by the number of hits; appended overlaps are non-negative with distance 0 when positive; ids come from `vx` and `vy` |
| Grouped.EmitAllIsRows | src/closest.cpp:24-46 | one query's candidate loop appends exactly one row per candidate, in candidate order, after the existing contents |
| Grouped.QueriesAreRows | src/closest.cpp:17-48 | the query loop appends exactly the rows of its hits after the existing contents |
| Grouped.HitsFromInputs | src/closest.cpp:29-43 | every reported pair couples a query of `vx` with one of its closest candidates, which is an interval of `vy` |
| Grouped.HitsSplit | src/closest.cpp:17-24 | the hits of two runs of queries are the first run's hits followed by the second's, so nothing carries over between queries (the candidate buffer is cleared on line 47) |
| Grouped.OneQuery | src/closest.cpp:21-46 | a single query yields exactly as many rows as its closest query returns candidates |
| Grouped.RowsSigned | src/closest.cpp:29-43 | appending the rows of any hits keeps old contents as a prefix, grows every accumulator by the hit count and signs every row correctly |
| Grouped.RowsAppended | src/closest.cpp:29-43 | appending the rows of hits keeps old contents as a prefix, grows every accumulator by the hit count, signs every row correctly and copies ids from the inputs |
| Grouped.PushCandidates | src/closest.cpp:24-46 | the three-branch push loop computes the same accumulators as the one-row-per-candidate fold |
| Grouped.ClosestGroupedLoop | src/closest.cpp:3-49 | the kernel as written appends exactly the rows of the seeded pass's hits (sentinel `max(vx.back().stop, vy.back().stop)`); append-only, parallel-preserving, correctly signed rows with ids from the inputs; on ordered input it equals `ClosestGrouped` |
| Grouped.ExtendRows | src/closest.cpp:17-47 | pushing one query's candidates after the rows of earlier hits gives the rows of the hits extended by that query's |
| Driver.ApplyPaired | src/closest.cpp:74-75 | runs the reference kernel `ClosestGrouped` per paired group on shared accumulators: appends the rows of all hits, group by group; old contents stay a prefix; rows stay parallel and signed |
| Driver.GroupsAreIndependent | src/closest.cpp:74-75 | a group's rows do not depend on the groups before it: a run over two batches is the first batch's output followed by what the second produces from empty accumulators |
| Samples.SampleChr1 | src/closest.cpp:131-143 | query chr1 (500,600) against three references gives the single row (0, 2, 30, 0); the overlapping interval hides the upstream ones |
| Samples.SampleChr2 | src/closest.cpp:131-143 | query chr2 (5000,6000) against (7000,8500) gives the row (1, 3, 0, 1000) |
| Samples.SampleBothGroups | src/closest.cpp:129-150 | both sample groups through the driver give the rows in group order |
| Samples.AbuttingPair | src/closest.cpp:39-43 | query (0,100) against (100,200) gives overlap 0 and distance 0 |
| Samples.TouchingNeighbour | src/closest.cpp:21 | for query (100,200), the touching (50,100) is the upstream neighbour at gap 0 and hides (10,90) |
| Samples.EmptyInsideQuery | src/closest.cpp:21 | for query (100,200), the empty (150,150) is not reported and (10,90) is |
| Samples.EmptyQueryInside | src/closest.cpp:21 | the empty query (10,10) gets no candidate from (5,15) |
| Samples.SentinelDropsNeighbour | src/closest.cpp:12-21 | for queries (1000,1100), (0,10) and reference (0,5), `max_end` is 10, the seeded pass reports only the second query's hit, and the reference reports both |
| Samples.TiedNeighbours | src/closest.cpp:21 | with no overlap, both upstream intervals tied at gap 5 and the downstream one at gap 5 are reported, upstream first |

## Left out

- `closest_impl` (src/closest.cpp:55-127): data-frame subsetting, column renaming and
  suffixing, and row names. This is output assembly over R objects.
- `PairedGroupApply` and the grouped data frames (line 74): pairing groups by key (the
  inner join) is foreign library code. `Driver.ApplyPaired` starts from groups that are
  already paired and non-empty.
- The interval tree (line 7) and its `findClosest` are not part of this model. The
  reference definition fixes the order of candidates as reference order. The tree may visit
  them in another order, and then the rows of one query would come out permuted.
- Closest.FindClosest: the side rule is an assumption about the tree. Touching intervals
  count as neighbours at gap 0 (`Samples.TouchingNeighbour`). An empty interval strictly
  inside the query, or an interval around an empty query, is on no side and is not
  reported (`Samples.EmptyInsideQuery`, `Samples.EmptyQueryInside`).
- Intervals.Overlap: `intervalOverlap` (valr.h) is not part of this model. The model
  assumes `min(stops) - max(starts)`.
- Closest.ScanClosest: the sentinel rule (a strictly nearer interval replaces, an equally
  near one joins) is an assumption about the tree.
- C++ `int` arithmetic: the subtraction in `intervalOverlap` and the negation on line 38 can
  overflow for extreme coordinates. The model uses unbounded integers.
- The embedded R script (lines 129-150) is used only as sample data.

## Findings

| source | as written | input that shows it | evidently intended | confidence | as-written member | corrected member |
|---|---|---|---|---|---|---|
| src/closest.cpp:11-12 | both sides start from `max(vx.back().stop, vy.back().stop)`, so a neighbour farther than that is never kept | queries (1000,1100), (0,10), reference (0,5): `max_end` is 10, the first query's only neighbour is 995 away and it gets no row | every query gets its nearest neighbours whatever their distance | low, not executed; arises only for groups not sorted by start, and the tree's use of the sentinel is assumed | Grouped.ClosestGroupedLoop | Grouped.ClosestGrouped |
