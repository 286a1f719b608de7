/** The per-group kernel: for every query interval, ask for its closest reference intervals
    and push one row per candidate onto four parallel accumulators. */
module Grouped {
  import opened Sequences
  import opened Intervals
  import opened Classifier
  import opened Closest

  /** The four accumulators the kernel appends to: query row, reference row, overlap and
      signed distance. */
  datatype Output = Output(indicesX: seq<int>, indicesY: seq<int>, overlapSizes: seq<int>, distanceSizes: seq<int>)

  const Empty := Output([], [], [], [])

  /** The row ids carried by a run of intervals. */
  function Ids(v: seq<Interval>): set<int> {
    set i | 0 <= i < |v| :: v[i].value
  }

  /** One (query, candidate) pair the kernel reports on. */
  datatype Hit = Hit(query: Interval, candidate: Interval)

  /** The four accumulators describe the same number of rows. */
  predicate Parallel(o: Output) {
    |o.indicesX| == |o.indicesY| == |o.overlapSizes| == |o.distanceSizes|
  }

  /** `a` followed by `b`, accumulator by accumulator. */
  function Concat(a: Output, b: Output): Output {
    Output(a.indicesX + b.indicesX, a.indicesY + b.indicesY,
           a.overlapSizes + b.overlapSizes, a.distanceSizes + b.distanceSizes)
  }

  /** Reference description of the rows a list of hits produces: row k copies the ids of
      hit k and holds its classification. */
  function Rows(hs: seq<Hit>): Output {
    Output(seq(|hs|, k requires 0 <= k < |hs| => hs[k].query.value),
           seq(|hs|, k requires 0 <= k < |hs| => hs[k].candidate.value),
           seq(|hs|, k requires 0 <= k < |hs| => Classify(hs[k].query, hs[k].candidate).overlap),
           seq(|hs|, k requires 0 <= k < |hs| => Classify(hs[k].query, hs[k].candidate).distance))
  }

  /** The hits of one query: the query paired with each of its candidates, in order. */
  function QueryHits(vy: seq<Interval>, q: Interval): seq<Hit> {
    HitsOf(q, FindClosest(vy, q))
  }

  function HitsFn(vy: seq<Interval>): Interval -> seq<Hit> {
    (q: Interval) => QueryHits(vy, q)
  }

  /** Reference description of the hits for a run of queries: query order first, then the
      order of each query's candidates. */
  function Hits(vx: seq<Interval>, vy: seq<Interval>): seq<Hit> {
    FlatMap(vx, HitsFn(vy))
  }

  function HitsOf(q: Interval, cs: seq<Interval>): seq<Hit> {
    seq(|cs|, j requires 0 <= j < |cs| => Hit(q, cs[j]))
  }

  /** One row pushed onto each accumulator for the pair (q, c). */
  function Emit(acc: Output, q: Interval, c: Interval): Output {
    var m := Classify(q, c);
    Output(acc.indicesX + [q.value], acc.indicesY + [c.value],
           acc.overlapSizes + [m.overlap], acc.distanceSizes + [m.distance])
  }

  /** The rows of one query: one per candidate, in candidate order. */
  function EmitAll(acc: Output, q: Interval, cs: seq<Interval>): Output
    decreases |cs|
  {
    if |cs| == 0 then acc else Emit(EmitAll(acc, q, Init(cs)), q, Last(cs))
  }

  /** The query loop, one query after another; each query starts from an empty candidate
      buffer. */
  function Queries(vx: seq<Interval>, vy: seq<Interval>, acc: Output): Output
    decreases |vx|
  {
    if |vx| == 0 then acc
    else
      var q := Last(vx);
      EmitAll(Queries(Init(vx), vy, acc), q, FindClosest(vy, q))
  }

  /** `r` is `acc` with `n` rows appended: each accumulator keeps its old contents as a
      prefix and grows by exactly `n` elements. */
  predicate AppendsRows(acc: Output, r: Output, n: nat) {
    && |r.indicesX| == |acc.indicesX| + n && r.indicesX[..|acc.indicesX|] == acc.indicesX
    && |r.indicesY| == |acc.indicesY| + n && r.indicesY[..|acc.indicesY|] == acc.indicesY
    && |r.overlapSizes| == |acc.overlapSizes| + n && r.overlapSizes[..|acc.overlapSizes|] == acc.overlapSizes
    && |r.distanceSizes| == |acc.distanceSizes| + n && r.distanceSizes[..|acc.distanceSizes|] == acc.distanceSizes
  }

  /** Every appended row has a non-negative overlap, and distance zero whenever its overlap
      is positive. */
  predicate SignedRows(acc: Output, r: Output, n: nat)
    requires AppendsRows(acc, r, n)
  {
    forall k :: |acc.overlapSizes| <= k < |r.overlapSizes| ==>
      && r.overlapSizes[k] >= 0
      && (r.overlapSizes[k] > 0 ==> r.distanceSizes[k - |acc.overlapSizes| + |acc.distanceSizes|] == 0)
  }

  /** Every appended row names a query row of `vx` and a reference row of `vy`. */
  predicate IdsFrom(acc: Output, r: Output, vx: seq<Interval>, vy: seq<Interval>) {
    && (forall k :: |acc.indicesX| <= k < |r.indicesX| ==> r.indicesX[k] in Ids(vx))
    && (forall k :: |acc.indicesY| <= k < |r.indicesY| ==> r.indicesY[k] in Ids(vy))
  }

  /** The kernel for one group. Both groups must be non-empty: the sentinel is read from the
      last interval of each. The rows it appends are exactly the rows of its hits, in query
      order and then candidate order, after the existing contents. */
  function ClosestGrouped(vx: seq<Interval>, vy: seq<Interval>, acc: Output): (r: Output)
    requires |vx| > 0 && |vy| > 0
    ensures r == Concat(acc, Rows(Hits(vx, vy)))
    ensures Parallel(acc) ==> Parallel(r)
  {
    QueriesAreRows(vx, vy, acc);
    Queries(vx, vy, acc)
  }

  /** What the kernel's rows guarantee: old contents stay a prefix and every accumulator
      grows by the number of hits; every appended overlap is non-negative, with distance 0
      when positive; every appended id is copied from an interval of `vx` or `vy`. */
  lemma ClosestGroupedRows(vx: seq<Interval>, vy: seq<Interval>, acc: Output)
    requires |vx| > 0 && |vy| > 0
    ensures AppendsRows(acc, ClosestGrouped(vx, vy, acc), |Hits(vx, vy)|)
    ensures SignedRows(acc, ClosestGrouped(vx, vy, acc), |Hits(vx, vy)|)
    ensures IdsFrom(acc, ClosestGrouped(vx, vy, acc), vx, vy)
  {
    HitsFromInputs(vx, vy);
    RowsAppended(acc, Hits(vx, vy), vx, vy);
  }

  /** Appending the rows of any hits keeps old contents as a prefix, grows every accumulator
      by the hit count and signs every appended row correctly. */
  lemma RowsSigned(acc: Output, hs: seq<Hit>)
    ensures AppendsRows(acc, Concat(acc, Rows(hs)), |hs|)
    ensures SignedRows(acc, Concat(acc, Rows(hs)), |hs|)
  {
    var r := Concat(acc, Rows(hs));
    assert AppendsRows(acc, r, |hs|);
  }

  /** Appending the rows of hits drawn from `vx` and `vy` has all three row properties. */
  lemma RowsAppended(acc: Output, hs: seq<Hit>, vx: seq<Interval>, vy: seq<Interval>)
    requires forall h :: h in hs ==> h.query in vx && h.candidate in vy
    ensures AppendsRows(acc, Concat(acc, Rows(hs)), |hs|)
    ensures SignedRows(acc, Concat(acc, Rows(hs)), |hs|)
    ensures IdsFrom(acc, Concat(acc, Rows(hs)), vx, vy)
  {
    var r := Concat(acc, Rows(hs));
    RowsSigned(acc, hs);
    forall k | |acc.indicesX| <= k < |r.indicesX| ensures r.indicesX[k] in Ids(vx) {
      var h := hs[k - |acc.indicesX|];
      assert h in hs;
      InIds(vx, h.query);
    }
    forall k | |acc.indicesY| <= k < |r.indicesY| ensures r.indicesY[k] in Ids(vy) {
      var h := hs[k - |acc.indicesY|];
      assert h in hs;
      InIds(vy, h.candidate);
    }
  }

  lemma InIds(v: seq<Interval>, x: Interval)
    requires x in v
    ensures x.value in Ids(v)
  {
    var i :| 0 <= i < |v| && v[i] == x;
  }

  lemma HitsOfMembers(q: Interval, cs: seq<Interval>)
    ensures forall h :: h in HitsOf(q, cs) ==> h.query == q && h.candidate in cs
  {
  }

  /** Every hit pairs a query of `vx` with one of its closest candidates, taken from `vy`. */
  lemma {:induction false} HitsFromInputs(vx: seq<Interval>, vy: seq<Interval>)
    ensures forall h :: h in Hits(vx, vy) ==> h.query in vx && h.candidate in FindClosest(vy, h.query)
    ensures forall h :: h in Hits(vx, vy) ==> h.candidate in vy
    decreases |vx|
  {
    if |vx| > 0 {
      HitsFromInputs(Init(vx), vy);
      assert vx == Init(vx) + [Last(vx)];
      HitsOfMembers(Last(vx), FindClosest(vy, Last(vx)));
      forall h | h in Hits(vx, vy) ensures h.candidate in vy {
        CandidatesFromReference(vy, h.query);
      }
    }
  }

  /** Queries contribute independently and in order: the hits of two runs of queries are
      the hits of the first run followed by those of the second, so nothing carries over
      from one query to the next. */
  lemma HitsSplit(vx1: seq<Interval>, vx2: seq<Interval>, vy: seq<Interval>)
    ensures Hits(vx1 + vx2, vy) == Hits(vx1, vy) + Hits(vx2, vy)
  {
    FlatMapSplit(vx1, vx2, HitsFn(vy));
  }

  lemma HitsUnfold(vx: seq<Interval>, vy: seq<Interval>)
    requires |vx| > 0
    ensures Hits(vx, vy) == Hits(Init(vx), vy) + HitsOf(Last(vx), FindClosest(vy, Last(vx)))
  {
  }

  /** A single query yields one hit per candidate its closest query returns. */
  lemma OneQuery(q: Interval, vy: seq<Interval>)
    ensures Hits([q], vy) == HitsOf(q, FindClosest(vy, q))
    ensures |Hits([q], vy)| == |FindClosest(vy, q)|
  {
    assert Init([q]) == [];
    HitsUnfold([q], vy);
  }

  /** Rows of a concatenation are the concatenated rows. */
  lemma RowsConcat(a: seq<Hit>, b: seq<Hit>)
    ensures Rows(a + b) == Concat(Rows(a), Rows(b))
  {
    var l, r := Rows(a + b), Concat(Rows(a), Rows(b));
    assert l.indicesX == r.indicesX;
    assert l.indicesY == r.indicesY;
    assert l.overlapSizes == r.overlapSizes;
    assert l.distanceSizes == r.distanceSizes;
  }

  lemma ConcatAssoc(a: Output, b: Output, c: Output)
    ensures Concat(Concat(a, b), c) == Concat(a, Concat(b, c))
  {
  }

  /** Pushing one row is concatenating the row of that single hit. */
  lemma EmitIsRow(acc: Output, q: Interval, c: Interval)
    ensures Emit(acc, q, c) == Concat(acc, Rows([Hit(q, c)]))
  {
  }

  /** The rows one query pushes are the rows of its hits, appended after what was there. */
  lemma {:induction false} EmitAllIsRows(acc: Output, q: Interval, cs: seq<Interval>)
    ensures EmitAll(acc, q, cs) == Concat(acc, Rows(HitsOf(q, cs)))
    decreases |cs|
  {
    if |cs| == 0 {
      assert Rows(HitsOf(q, cs)) == Empty;
    } else {
      EmitAllIsRows(acc, q, Init(cs));
      assert HitsOf(q, cs) == HitsOf(q, Init(cs)) + [Hit(q, Last(cs))];
      RowsConcat(HitsOf(q, Init(cs)), [Hit(q, Last(cs))]);
      EmitIsRow(EmitAll(acc, q, Init(cs)), q, Last(cs));
      ConcatAssoc(acc, Rows(HitsOf(q, Init(cs))), Rows([Hit(q, Last(cs))]));
    }
  }

  /** The whole query loop appends exactly the rows of its hits. */
  lemma {:induction false} QueriesAreRows(vx: seq<Interval>, vy: seq<Interval>, acc: Output)
    ensures Queries(vx, vy, acc) == Concat(acc, Rows(Hits(vx, vy)))
    decreases |vx|
  {
    if |vx| == 0 {
      assert Rows([]) == Empty;
    } else {
      var q := Last(vx);
      QueriesAreRows(Init(vx), vy, acc);
      EmitAllIsRows(Queries(Init(vx), vy, acc), q, FindClosest(vy, q));
      RowsConcat(Hits(Init(vx), vy), HitsOf(q, FindClosest(vy, q)));
      ConcatAssoc(acc, Rows(Hits(Init(vx), vy)), Rows(HitsOf(q, FindClosest(vy, q))));
    }
  }

  /** Starts never decrease along the run. */
  predicate SortedByStart(v: seq<Interval>) {
    forall i, j :: 0 <= i < j < |v| ==> v[i].start <= v[j].start
  }

  /** Well-formed intervals on non-negative coordinates. */
  predicate NonNegative(v: seq<Interval>) {
    forall i :: 0 <= i < |v| ==> 0 <= v[i].start <= v[i].stop
  }

  /** Genomic input as the kernel receives it: well-formed, non-negative, sorted by start. */
  predicate Ordered(v: seq<Interval>) {
    SortedByStart(v) && NonNegative(v)
  }

  /** The initial "not yet found" distance of both sides: the larger stop of the two last
      intervals. */
  function MaxEnd(vx: seq<Interval>, vy: seq<Interval>): int
    requires |vx| > 0 && |vy| > 0
  {
    Max(Last(vx).stop, Last(vy).stop)
  }

  /** On ordered input no query is farther from any reference interval than the sentinel,
      so starting the search from it loses no candidate. */
  lemma MaxEndBoundsGaps(vx: seq<Interval>, vy: seq<Interval>, q: Interval)
    requires |vx| > 0 && |vy| > 0
    requires Ordered(vx) && Ordered(vy)
    requires q in vx
    ensures forall c :: c in vy ==> Gap(q, c) <= MaxEnd(vx, vy)
  {
    var i :| 0 <= i < |vx| && vx[i] == q;
    forall c | c in vy ensures Gap(q, c) <= MaxEnd(vx, vy) {
      var j :| 0 <= j < |vy| && vy[j] == c;
      assert q.start <= Last(vx).start <= Last(vx).stop;
      assert c.start <= Last(vy).start <= Last(vy).stop;
    }
  }

  function ScannedHitsFn(vy: seq<Interval>, sentinel: int): Interval -> seq<Hit> {
    (q: Interval) => HitsOf(q, Scanned(vy, q, sentinel))
  }

  /** The hits the kernel as written produces when both sides of every query start from
      `sentinel`: query order first, then the order the seeded pass keeps. */
  function ScannedHits(vx: seq<Interval>, vy: seq<Interval>, sentinel: int): seq<Hit> {
    FlatMap(vx, ScannedHitsFn(vy, sentinel))
  }

  /** If no query is farther from a reference interval than the sentinel, the seeded pass
      loses nothing: its hits are the reference hits. */
  lemma {:induction false} ScannedHitsAgree(vx: seq<Interval>, vy: seq<Interval>, sentinel: int)
    requires forall q, c :: q in vx && c in vy ==> Gap(q, c) <= sentinel
    ensures ScannedHits(vx, vy, sentinel) == Hits(vx, vy)
    decreases |vx|
  {
    if |vx| > 0 {
      var q := Last(vx);
      assert vx == Init(vx) + [q];
      ScannedHitsAgree(Init(vx), vy, sentinel);
      ScannedIsClosest(vy, q, sentinel);
      HitsUnfold(vx, vy);
    }
  }

  /** On ordered input the sentinel bounds every gap. */
  lemma OrderedWithinSentinel(vx: seq<Interval>, vy: seq<Interval>)
    requires |vx| > 0 && |vy| > 0
    requires Ordered(vx) && Ordered(vy)
    ensures forall q, c :: q in vx && c in vy ==> Gap(q, c) <= MaxEnd(vx, vy)
  {
    forall q | q in vx ensures forall c :: c in vy ==> Gap(q, c) <= MaxEnd(vx, vy) {
      MaxEndBoundsGaps(vx, vy, q);
    }
  }

  /** One row pushed onto the four accumulators. */
  function Push(o: Output, x: int, y: int, overlap: int, distance: int): Output {
    Output(o.indicesX + [x], o.indicesY + [y], o.overlapSizes + [overlap], o.distanceSizes + [distance])
  }

  /** The candidate loop as written: each candidate is classified by the three-way branch
      and one row is pushed onto all four accumulators. */
  method PushCandidates(acc: Output, q: Interval, cs: seq<Interval>) returns (out: Output)
    ensures out == EmitAll(acc, q, cs)
  {
    out := acc;
    var j := 0;
    while j < |cs|
      invariant 0 <= j <= |cs|
      invariant out == EmitAll(acc, q, cs[..j])
    {
      var c := cs[j];
      var overlap := Overlap(q, c);
      if overlap > 0 {
        out := Push(out, q.value, c.value, overlap, 0);
      } else if c.start > q.stop {
        out := Push(out, q.value, c.value, 0, -overlap);
      } else {
        out := Push(out, q.value, c.value, 0, overlap);
      }
      assert Init(cs[..j + 1]) == cs[..j] && Last(cs[..j + 1]) == c;
      j := j + 1;
    }
    assert cs[..j] == cs;
  }

  /** The kernel as written: the sentinel is taken from the last intervals, every query gets
      fresh (sentinel, empty) side buffers, and its candidates are pushed in order. The rows
      appended are those of the seeded pass; on ordered input they are exactly the rows of
      the reference closest query. */
  method ClosestGroupedLoop(vx: seq<Interval>, vy: seq<Interval>, acc: Output) returns (out: Output)
    requires |vx| > 0 && |vy| > 0
    ensures out == Concat(acc, Rows(ScannedHits(vx, vy, MaxEnd(vx, vy))))
    ensures AppendsRows(acc, out, |ScannedHits(vx, vy, MaxEnd(vx, vy))|)
    ensures Parallel(acc) ==> Parallel(out)
    ensures SignedRows(acc, out, |ScannedHits(vx, vy, MaxEnd(vx, vy))|)
    ensures IdsFrom(acc, out, vx, vy)
    ensures Ordered(vx) && Ordered(vy) ==> out == ClosestGrouped(vx, vy, acc)
  {
    var maxEnd := MaxEnd(vx, vy);
    ghost var hits: seq<Hit> := [];
    out := acc;
    var i := 0;
    assert Rows([]) == Empty;
    while i < |vx|
      invariant 0 <= i <= |vx|
      invariant out == Concat(acc, Rows(hits))
      invariant hits == ScannedHits(vx[..i], vy, maxEnd)
      invariant forall h :: h in hits ==> h.query in vx && h.candidate in vy
    {
      var q := vx[i];
      var closest := ScanClosest(vy, q, maxEnd);
      ExtendRows(acc, hits, q, closest);
      out := PushCandidates(out, q, closest);
      HitsOfMembers(q, closest);
      assert Init(vx[..i + 1]) == vx[..i] && Last(vx[..i + 1]) == q;
      hits := hits + HitsOf(q, closest);
      i := i + 1;
    }
    assert vx[..i] == vx;
    RowsAppended(acc, hits, vx, vy);
    if Ordered(vx) && Ordered(vy) {
      OrderedWithinSentinel(vx, vy);
      ScannedHitsAgree(vx, vy, maxEnd);
    }
  }

  /** Pushing one query's candidates after the rows of `hs` gives the rows of `hs` followed
      by that query's hits. */
  lemma ExtendRows(acc: Output, hs: seq<Hit>, q: Interval, cs: seq<Interval>)
    ensures EmitAll(Concat(acc, Rows(hs)), q, cs) == Concat(acc, Rows(hs + HitsOf(q, cs)))
  {
    EmitAllIsRows(Concat(acc, Rows(hs)), q, cs);
    RowsConcat(hs, HitsOf(q, cs));
    ConcatAssoc(acc, Rows(hs), Rows(HitsOf(q, cs)));
  }
}
