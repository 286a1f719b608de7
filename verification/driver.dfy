/** Sequential application of the kernel to the groups that the grouping layer has already
    paired by key, all sharing one set of append-only accumulators. */
module Driver {
  import opened Sequences
  import opened Intervals
  import opened Grouped

  /** The query group and the reference group that share one key. */
  datatype GroupPair = GroupPair(x: seq<Interval>, y: seq<Interval>)

  /** Every paired group has intervals on both sides, as the kernel requires. */
  predicate NonEmptyGroups(gs: seq<GroupPair>) {
    forall i :: 0 <= i < |gs| ==> |gs[i].x| > 0 && |gs[i].y| > 0
  }

  /** Reference description of all hits: group order, then query order, then candidate order. */
  function GroupHits(gs: seq<GroupPair>): seq<Hit> {
    FlatMap(gs, GroupHitsFn())
  }

  function GroupHitsFn(): GroupPair -> seq<Hit> {
    (g: GroupPair) => Hits(g.x, g.y)
  }

  /** The kernel run once per paired group, in group order, on shared accumulators. */
  function ApplyPaired(gs: seq<GroupPair>, acc: Output): (r: Output)
    requires NonEmptyGroups(gs)
    ensures r == Concat(acc, Rows(GroupHits(gs)))
    ensures AppendsRows(acc, r, |GroupHits(gs)|)
    ensures Parallel(acc) ==> Parallel(r)
    ensures SignedRows(acc, r, |GroupHits(gs)|)
    decreases |gs|
  {
    if |gs| == 0 then
      assert Rows([]) == Empty;
      acc
    else
      var g := Last(gs);
      assert |g.x| > 0 && |g.y| > 0;
      var before := ApplyPaired(Init(gs), acc);
      RowsConcat(GroupHits(Init(gs)), Hits(g.x, g.y));
      ConcatAssoc(acc, Rows(GroupHits(Init(gs))), Rows(Hits(g.x, g.y)));
      RowsSigned(acc, GroupHits(gs));
      ClosestGrouped(g.x, g.y, before)
  }

  /** Groups do not influence each other: running two batches of groups one after the other
      appends to the first batch's output exactly what the second batch produces from empty
      accumulators. */
  lemma {:induction false} GroupsAreIndependent(gs1: seq<GroupPair>, gs2: seq<GroupPair>, acc: Output)
    requires NonEmptyGroups(gs1) && NonEmptyGroups(gs2)
    ensures NonEmptyGroups(gs1 + gs2)
    ensures ApplyPaired(gs1 + gs2, acc) == Concat(ApplyPaired(gs1, acc), ApplyPaired(gs2, Empty))
  {
    GroupHitsSplit(gs1, gs2);
    RowsConcat(GroupHits(gs1), GroupHits(gs2));
    ConcatAssoc(acc, Rows(GroupHits(gs1)), Rows(GroupHits(gs2)));
    assert Concat(Empty, Rows(GroupHits(gs2))) == Rows(GroupHits(gs2));
  }

  lemma GroupHitsSplit(gs1: seq<GroupPair>, gs2: seq<GroupPair>)
    ensures GroupHits(gs1 + gs2) == GroupHits(gs1) + GroupHits(gs2)
  {
    FlatMapSplit(gs1, gs2, GroupHitsFn());
  }

  lemma GroupHitsUnfold(gs: seq<GroupPair>)
    requires |gs| > 0
    ensures GroupHits(gs) == GroupHits(Init(gs)) + Hits(Last(gs).x, Last(gs).y)
  {
  }
}
