/** The candidate set the interval tree hands back for one query, given here by a reference
    definition over the reference intervals, and a one-pass scan with the kernel's sentinel. */
module Closest {
  import opened Sequences
  import opened Intervals

  datatype Option<T> = None | Some(value: T)

  /** Which side of the query a non-overlapping candidate lies on. */
  datatype Side = Left | Right

  predicate Overlaps(q: Interval, c: Interval) {
    Overlap(q, c) > 0
  }

  /** Downstream when the candidate starts at or after the query's stop; upstream when it
      ends at or before the query's start and is not downstream. A touching interval is thus
      a neighbour at gap 0. An interval that is neither overlapping nor on a side, such as
      an empty interval strictly inside the query, is on no side. */
  predicate OnSide(q: Interval, c: Interval, s: Side) {
    && !Overlaps(q, c)
    && match s
       case Right => c.start >= q.stop
       case Left => c.stop <= q.start && c.start < q.stop
  }

  /** Distance between a non-overlapping candidate and the query (never negative for them). */
  function Gap(q: Interval, c: Interval): int {
    -Overlap(q, c)
  }

  /** Every reference interval that overlaps the query, in reference order. */
  function Overlapping(q: Interval, ys: seq<Interval>): seq<Interval>
    decreases |ys|
  {
    if |ys| == 0 then []
    else Overlapping(q, Init(ys)) + if Overlaps(q, Last(ys)) then [Last(ys)] else []
  }

  /** The least gap among the candidates on side `s`, or None if there are none. */
  function MinGap(q: Interval, ys: seq<Interval>, s: Side): Option<int>
    decreases |ys|
  {
    if |ys| == 0 then None
    else
      var rest := MinGap(q, Init(ys), s);
      var c := Last(ys);
      if !OnSide(q, c, s) then rest
      else if rest.None? || Gap(q, c) < rest.value then Some(Gap(q, c))
      else rest
  }

  /** The candidates on side `s` whose gap is exactly `g`, in reference order. */
  function AtGap(q: Interval, ys: seq<Interval>, s: Side, g: int): seq<Interval>
    decreases |ys|
  {
    if |ys| == 0 then []
    else
      var c := Last(ys);
      AtGap(q, Init(ys), s, g) + if OnSide(q, c, s) && Gap(q, c) == g then [c] else []
  }

  /** All candidates tied for the least gap on side `s`. */
  function Nearest(q: Interval, ys: seq<Interval>, s: Side): seq<Interval> {
    match MinGap(q, ys, s)
    case None => []
    case Some(g) => AtGap(q, ys, s, g)
  }

  /** `c` lies on side `s` and no candidate on that side is nearer. */
  predicate NearestOn(q: Interval, ys: seq<Interval>, c: Interval, s: Side) {
    c in ys && OnSide(q, c, s) && forall d :: d in ys && OnSide(q, d, s) ==> Gap(q, c) <= Gap(q, d)
  }

  /** Reference definition of the tree's closest query: the overlapping intervals when there
      are any; otherwise the tied-nearest upstream ones followed by the tied-nearest
      downstream ones. An empty reference set yields no candidates. */
  function FindClosest(ys: seq<Interval>, q: Interval): (r: seq<Interval>)
    ensures |ys| == 0 ==> r == []
  {
    var over := Overlapping(q, ys);
    if |over| > 0 then over else Nearest(q, ys, Left) + Nearest(q, ys, Right)
  }

  /** `Overlapping` keeps each overlapping interval as often as it occurs and nothing else. */
  lemma {:induction false} OverlappingCount(q: Interval, ys: seq<Interval>)
    ensures forall c :: multiset(Overlapping(q, ys))[c] == if Overlaps(q, c) then multiset(ys)[c] else 0
    ensures forall c :: c in Overlapping(q, ys) <==> c in ys && Overlaps(q, c)
    decreases |ys|
  {
    if |ys| > 0 {
      OverlappingCount(q, Init(ys));
      assert ys == Init(ys) + [Last(ys)];
    }
  }

  /** `AtGap` keeps each interval on side `s` at distance `g` as often as it occurs and
      nothing else. */
  lemma {:induction false} AtGapCount(q: Interval, ys: seq<Interval>, s: Side, g: int)
    ensures forall c :: multiset(AtGap(q, ys, s, g))[c] == if OnSide(q, c, s) && Gap(q, c) == g then multiset(ys)[c] else 0
    ensures forall c :: c in AtGap(q, ys, s, g) <==> c in ys && OnSide(q, c, s) && Gap(q, c) == g
    decreases |ys|
  {
    if |ys| > 0 {
      AtGapCount(q, Init(ys), s, g);
      assert ys == Init(ys) + [Last(ys)];
    }
  }

  /** `MinGap` is None exactly when side `s` is empty, and otherwise a gap attained on that
      side that no interval on that side undercuts. */
  lemma {:induction false} MinGapIsLeast(q: Interval, ys: seq<Interval>, s: Side)
    ensures MinGap(q, ys, s).None? <==> forall c :: c in ys ==> !OnSide(q, c, s)
    ensures MinGap(q, ys, s).Some? ==> exists c :: c in ys && OnSide(q, c, s) && Gap(q, c) == MinGap(q, ys, s).value
    ensures MinGap(q, ys, s).Some? ==> forall c :: c in ys && OnSide(q, c, s) ==> MinGap(q, ys, s).value <= Gap(q, c)
    decreases |ys|
  {
    if |ys| > 0 {
      MinGapIsLeast(q, Init(ys), s);
      assert ys == Init(ys) + [Last(ys)];
    }
  }

  /** Membership and multiplicity of one side's nearest set. */
  lemma NearestIsTied(q: Interval, ys: seq<Interval>, s: Side)
    ensures forall c :: multiset(Nearest(q, ys, s))[c] == if NearestOn(q, ys, c, s) then multiset(ys)[c] else 0
  {
    MinGapIsLeast(q, ys, s);
    match MinGap(q, ys, s)
    case None =>
      forall c ensures multiset(Nearest(q, ys, s))[c] == if NearestOn(q, ys, c, s) then multiset(ys)[c] else 0 {
        assert !NearestOn(q, ys, c, s);
      }
    case Some(g) =>
      AtGapCount(q, ys, s, g);
      forall c ensures multiset(Nearest(q, ys, s))[c] == if NearestOn(q, ys, c, s) then multiset(ys)[c] else 0 {
        if NearestOn(q, ys, c, s) {
          var w :| w in ys && OnSide(q, w, s) && Gap(q, w) == g;
          assert Gap(q, c) == g;
        }
      }
  }

  /** Overlap dominates: when some reference interval overlaps the query, the candidates are
      exactly the overlapping ones, with their multiplicities. */
  lemma OverlapDominates(ys: seq<Interval>, q: Interval, w: Interval)
    requires w in ys && Overlaps(q, w)
    ensures forall c :: multiset(FindClosest(ys, q))[c] == if Overlaps(q, c) then multiset(ys)[c] else 0
  {
    OverlappingCount(q, ys);
    assert w in Overlapping(q, ys);
  }

  /** Without an overlap, the candidates are exactly the intervals nearest on either side,
      with their multiplicities. */
  lemma NearestWhenDisjoint(ys: seq<Interval>, q: Interval)
    requires forall c :: c in ys ==> !Overlaps(q, c)
    ensures forall c :: multiset(FindClosest(ys, q))[c] ==
                        (if NearestOn(q, ys, c, Left) || NearestOn(q, ys, c, Right) then multiset(ys)[c] else 0)
  {
    OverlappingCount(q, ys);
    assert Overlapping(q, ys) == [] by {
      assert multiset(Overlapping(q, ys)) == multiset{};
    }
    NearestIsTied(q, ys, Left);
    NearestIsTied(q, ys, Right);
    forall c ensures multiset(FindClosest(ys, q))[c] ==
      if NearestOn(q, ys, c, Left) || NearestOn(q, ys, c, Right) then multiset(ys)[c] else 0
    {
      assert !(NearestOn(q, ys, c, Left) && NearestOn(q, ys, c, Right));
    }
  }

  /** Every candidate is one of the reference intervals. */
  lemma CandidatesFromReference(ys: seq<Interval>, q: Interval)
    ensures forall c :: c in FindClosest(ys, q) ==> c in ys
  {
    OverlappingCount(q, ys);
    NearestIsTied(q, ys, Left);
    NearestIsTied(q, ys, Right);
    forall c | c in FindClosest(ys, q) ensures c in ys {
      if |Overlapping(q, ys)| == 0 {
        if c in Nearest(q, ys, Left) {
          assert multiset(Nearest(q, ys, Left))[c] > 0;
        } else {
          assert multiset(Nearest(q, ys, Right))[c] > 0;
        }
      }
    }
  }

  /** All returned candidates on one side share one gap (the tie set is uniform). */
  lemma TiesShareGap(ys: seq<Interval>, q: Interval, s: Side, c: Interval, d: Interval)
    requires c in FindClosest(ys, q) && d in FindClosest(ys, q)
    requires OnSide(q, c, s) && OnSide(q, d, s)
    ensures Gap(q, c) == Gap(q, d)
  {
    OverlappingCount(q, ys);
    assert c !in Overlapping(q, ys);
    NearestIsTied(q, ys, s);
    assert multiset(Nearest(q, ys, s))[c] > 0 && multiset(Nearest(q, ys, s))[d] > 0 by {
      var other := if s == Left then Right else Left;
      NearestIsTied(q, ys, other);
      assert !NearestOn(q, ys, c, other) && !NearestOn(q, ys, d, other);
    }
  }

  /** The running best distance on one side, starting from a sentinel that a real distance
      has to beat (or equal) to be kept. */
  function Capped(m: Option<int>, sentinel: int): int {
    match m
    case None => sentinel
    case Some(g) => Min(g, sentinel)
  }

  /** What one side's (best distance, intervals) pair becomes when interval `c` is offered:
      a strictly nearer interval on that side replaces the buffer, an equally near one joins
      it, anything else leaves the pair alone. */
  function Offer(q: Interval, c: Interval, s: Side, best: int, buf: seq<Interval>): (int, seq<Interval>) {
    if !OnSide(q, c, s) then (best, buf)
    else if Gap(q, c) < best then (Gap(q, c), [c])
    else if Gap(q, c) == best then (best, buf + [c])
    else (best, buf)
  }

  /** The (best distance, intervals) pair one side should hold after scanning `zs`. */
  function Pair(q: Interval, zs: seq<Interval>, s: Side, sentinel: int): (int, seq<Interval>) {
    var best := Capped(MinGap(q, zs, s), sentinel);
    (best, AtGap(q, zs, s, best))
  }

  /** Offering the next interval turns the pair for a prefix into the pair for the longer
      prefix, and the overlap buffer grows by that interval exactly when it overlaps. */
  lemma ScanStep(q: Interval, zs: seq<Interval>, c: Interval, sentinel: int)
    ensures Overlapping(q, zs + [c]) == Overlapping(q, zs) + if Overlaps(q, c) then [c] else []
    ensures Pair(q, zs + [c], Left, sentinel) == Offer(q, c, Left, Pair(q, zs, Left, sentinel).0, Pair(q, zs, Left, sentinel).1)
    ensures Pair(q, zs + [c], Right, sentinel) == Offer(q, c, Right, Pair(q, zs, Right, sentinel).0, Pair(q, zs, Right, sentinel).1)
  {
    assert Init(zs + [c]) == zs && Last(zs + [c]) == c;
    OfferKeepsPair(q, zs, c, Left, sentinel);
    OfferKeepsPair(q, zs, c, Right, sentinel);
  }

  /** Offering the next interval keeps the pair equal to (capped least distance, intervals at
      that distance) over the longer prefix. */
  lemma OfferKeepsPair(q: Interval, ys: seq<Interval>, c: Interval, s: Side, sentinel: int)
    ensures var p := Pair(q, ys, s, sentinel); Offer(q, c, s, p.0, p.1) == Pair(q, ys + [c], s, sentinel)
  {
    var best := Capped(MinGap(q, ys, s), sentinel);
    var p := Offer(q, c, s, best, AtGap(q, ys, s, best));
    MinGapIsLeast(q, ys, s);
    OfferKeepsBest(q, ys, c, s, sentinel);
    OfferKeepsBuffer(q, ys, c, s, best, p.0);
  }

  lemma OfferKeepsBest(q: Interval, ys: seq<Interval>, c: Interval, s: Side, sentinel: int)
    ensures var best := Capped(MinGap(q, ys, s), sentinel);
            Offer(q, c, s, best, []).0 == Capped(MinGap(q, ys + [c], s), sentinel)
  {
    var ys' := ys + [c];
    assert Init(ys') == ys && Last(ys') == c;
  }

  lemma OfferKeepsBuffer(q: Interval, ys: seq<Interval>, c: Interval, s: Side, best: int, best': int)
    requires forall d :: d in ys && OnSide(q, d, s) ==> best <= Gap(q, d)
    requires best' == Offer(q, c, s, best, []).0
    ensures Offer(q, c, s, best, AtGap(q, ys, s, best)).1 == AtGap(q, ys + [c], s, best')
  {
    var ys' := ys + [c];
    assert Init(ys') == ys && Last(ys') == c;
    if OnSide(q, c, s) && Gap(q, c) < best {
      NoneAtGap(q, ys, s, Gap(q, c));
    }
  }

  /** What a pass seeded with `sentinel` on both sides hands back: the overlapping intervals
      when there are any, otherwise each side's buffer at its capped least distance. Unlike
      `FindClosest`, a side whose true least distance exceeds the sentinel comes back empty. */
  function Scanned(ys: seq<Interval>, q: Interval, sentinel: int): seq<Interval> {
    var over := Overlapping(q, ys);
    if |over| > 0 then over else Pair(q, ys, Left, sentinel).1 + Pair(q, ys, Right, sentinel).1
  }

  /** When no distance exceeds the sentinel, the seeded pass agrees with the reference. */
  lemma ScannedIsClosest(ys: seq<Interval>, q: Interval, sentinel: int)
    requires forall c :: c in ys ==> Gap(q, c) <= sentinel
    ensures Scanned(ys, q, sentinel) == FindClosest(ys, q)
  {
    ScanResult(q, ys, sentinel);
  }

  /** One pass over the reference intervals in order, as the closest query fills its buffers:
      overlapping intervals go to `closest`; each side keeps a (best distance, intervals) pair
      that starts as (sentinel, empty), is reset by a strictly nearer interval and extended by
      an equally near one. When no distance exceeds the sentinel the pass yields exactly the
      reference candidate set. */
  method ScanClosest(ys: seq<Interval>, q: Interval, sentinel: int) returns (closest: seq<Interval>)
    ensures closest == Scanned(ys, q, sentinel)
    ensures forall c :: c in closest ==> c in ys
    ensures (forall c :: c in ys ==> Gap(q, c) <= sentinel) ==> closest == FindClosest(ys, q)
  {
    var over: seq<Interval> := [];
    var left := (sentinel, []);
    var right := (sentinel, []);
    var i := 0;
    while i < |ys|
      invariant 0 <= i <= |ys|
      invariant over == Overlapping(q, ys[..i])
      invariant left == Pair(q, ys[..i], Left, sentinel)
      invariant right == Pair(q, ys[..i], Right, sentinel)
    {
      var c := ys[i];
      assert ys[..i + 1] == ys[..i] + [c];
      ScanStep(q, ys[..i], c, sentinel);
      if Overlaps(q, c) {
        over := over + [c];
      }
      left := Offer(q, c, Left, left.0, left.1);
      right := Offer(q, c, Right, right.0, right.1);
      i := i + 1;
    }
    assert ys[..i] == ys;
    if |over| > 0 {
      OverlappingCount(q, ys);
      closest := over;
    } else {
      closest := left.1 + right.1;
      ScanResult(q, ys, sentinel);
    }
  }

  /** After the whole pass, the two side buffers hold members of `ys`, and under the bound
      they are the tied-nearest sets. */
  lemma ScanResult(q: Interval, ys: seq<Interval>, sentinel: int)
    ensures forall c :: c in Pair(q, ys, Left, sentinel).1 + Pair(q, ys, Right, sentinel).1 ==> c in ys
    ensures (forall c :: c in ys ==> Gap(q, c) <= sentinel) ==>
      Pair(q, ys, Left, sentinel).1 == Nearest(q, ys, Left) && Pair(q, ys, Right, sentinel).1 == Nearest(q, ys, Right)
  {
    AtGapCount(q, ys, Left, Pair(q, ys, Left, sentinel).0);
    AtGapCount(q, ys, Right, Pair(q, ys, Right, sentinel).0);
    if forall c :: c in ys ==> Gap(q, c) <= sentinel {
      SentinelNeverWins(q, ys, Left, sentinel);
      SentinelNeverWins(q, ys, Right, sentinel);
    }
  }

  /** No interval on side `s` at distance `g` means the buffer for `g` is empty. */
  lemma NoneAtGap(q: Interval, ys: seq<Interval>, s: Side, g: int)
    requires forall c :: c in ys && OnSide(q, c, s) ==> Gap(q, c) != g
    ensures AtGap(q, ys, s, g) == []
  {
    AtGapCount(q, ys, s, g);
    assert multiset(AtGap(q, ys, s, g)) == multiset{};
  }

  /** Under the bound, the buffer kept at the capped best is the tied-nearest set. */
  lemma SentinelNeverWins(q: Interval, ys: seq<Interval>, s: Side, sentinel: int)
    requires forall c :: c in ys ==> Gap(q, c) <= sentinel
    ensures AtGap(q, ys, s, Capped(MinGap(q, ys, s), sentinel)) == Nearest(q, ys, s)
  {
    MinGapIsLeast(q, ys, s);
    match MinGap(q, ys, s)
    case None =>
      NoneAtGap(q, ys, s, sentinel);
    case Some(g) =>
      var w :| w in ys && OnSide(q, w, s) && Gap(q, w) == g;
  }
}
