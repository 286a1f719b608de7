/** The example data frames of the repository's embedded R script, worked through the model.
    Interval values are the rows of each data frame (0-based), which is what the kernel's
    callers use to subset the frames. */
module Samples {
  import opened Sequences
  import opened Intervals
  import opened Classifier
  import opened Closest
  import opened Grouped
  import opened Driver

  const Chr1X: seq<Interval> := [Interval(500, 600, 0)]
  const Chr1Y: seq<Interval> := [Interval(100, 200, 0), Interval(150, 200, 1), Interval(550, 580, 2)]
  const Chr2X: seq<Interval> := [Interval(5000, 6000, 1)]
  const Chr2Y: seq<Interval> := [Interval(7000, 8500, 3)]

  /** chr1: (550, 580) overlaps the query by 30, so the two upstream intervals are not
      reported at all. */
  lemma SampleChr1()
    ensures Hits(Chr1X, Chr1Y) == [Hit(Chr1X[0], Chr1Y[2])]
    ensures ClosestGrouped(Chr1X, Chr1Y, Empty) == Output([0], [2], [30], [0])
  {
    var q := Chr1X[0];
    assert Chr1Y == [Chr1Y[0], Chr1Y[1], Chr1Y[2]];
    Chr1Candidates(q, Chr1Y[0], Chr1Y[1], Chr1Y[2]);
    OneQuery(q, Chr1Y);
    assert Classify(q, Chr1Y[2]) == Measure(30, 0);
  }

  /** The chr1 closest query, one reference interval at a time. */
  lemma Chr1Candidates(q: Interval, a: Interval, b: Interval, c: Interval)
    requires q.start == 500 && q.stop == 600
    requires a.start == 100 && a.stop == 200 && b.start == 150 && b.stop == 200
    requires c.start == 550 && c.stop == 580
    ensures FindClosest([a, b, c], q) == [c]
  {
    var e: seq<Interval> := [];
    assert Overlapping(q, e) == [];
    assert Init([a]) == e && Last([a]) == a && !Overlaps(q, a);
    assert Overlapping(q, [a]) == [];
    assert Init([a, b]) == [a] && Last([a, b]) == b && !Overlaps(q, b);
    assert Overlapping(q, [a, b]) == [];
    assert Init([a, b, c]) == [a, b] && Last([a, b, c]) == c && Overlaps(q, c);
    assert Overlapping(q, [a, b, c]) == [c];
  }

  /** chr2: the only reference interval lies 1000 bases downstream. */
  lemma SampleChr2()
    ensures Hits(Chr2X, Chr2Y) == [Hit(Chr2X[0], Chr2Y[0])]
    ensures ClosestGrouped(Chr2X, Chr2Y, Empty) == Output([1], [3], [0], [1000])
  {
    var q := Chr2X[0];
    var c := Chr2Y[0];
    assert Init(Chr2Y) == [];
    assert Overlapping(q, Chr2Y) == [];
    assert MinGap(q, Chr2Y, Left) == None;
    assert MinGap(q, Chr2Y, Right) == Some(1000);
    assert AtGap(q, Chr2Y, Right, 1000) == [c];
    assert FindClosest(Chr2Y, q) == [c];
    assert Hits(Chr2X, Chr2Y) == [Hit(q, c)] by {
      OneQuery(q, Chr2Y);
    }
  }

  /** Both groups through the driver: chr1's row, then chr2's. */
  lemma SampleBothGroups()
    ensures ApplyPaired([GroupPair(Chr1X, Chr1Y), GroupPair(Chr2X, Chr2Y)], Empty) == Output([0, 1], [2, 3], [30, 0], [0, 1000])
  {
    var gs := [GroupPair(Chr1X, Chr1Y), GroupPair(Chr2X, Chr2Y)];
    var h1, h2 := Hit(Chr1X[0], Chr1Y[2]), Hit(Chr2X[0], Chr2Y[0]);
    SampleHits();
    assert GroupHits(gs) == [h1, h2] by {
      GroupHitsUnfold(gs);
      GroupHitsUnfold(gs[..1]);
      assert Init(gs) == gs[..1] && Init(gs[..1]) == [];
    }
    SampleRows(h1, h2);
  }

  lemma SampleHits()
    ensures Hits(Chr1X, Chr1Y) == [Hit(Chr1X[0], Chr1Y[2])]
    ensures Hits(Chr2X, Chr2Y) == [Hit(Chr2X[0], Chr2Y[0])]
  {
    SampleChr1();
    SampleChr2();
  }

  lemma SampleRows(h1: Hit, h2: Hit)
    requires h1 == Hit(Chr1X[0], Chr1Y[2]) && h2 == Hit(Chr2X[0], Chr2Y[0])
    ensures Concat(Empty, Rows([h1, h2])) == Output([0, 1], [2, 3], [30, 0], [0, 1000])
  {
    assert Classify(h1.query, h1.candidate) == Measure(30, 0);
    assert Classify(h2.query, h2.candidate) == Measure(0, 1000);
  }

  /** Intervals that only touch report overlap 0 and distance 0. */
  lemma AbuttingPair()
    ensures Classify(Interval(0, 100, 0), Interval(100, 200, 0)) == Measure(0, 0)
  {
  }

  /** Ties: without an overlap, every upstream interval at the least gap and every
      downstream one at the least gap is reported, upstream ones first. */
  lemma TiedNeighbours()
    ensures var q := Interval(10, 20, 0);
            var ys := [Interval(30, 40, 1), Interval(0, 5, 2), Interval(25, 28, 3), Interval(2, 5, 4)];
            FindClosest(ys, q) == [Interval(0, 5, 2), Interval(2, 5, 4), Interval(25, 28, 3)]
  {
    var q := Interval(10, 20, 0);
    var a, b, c, d := Interval(30, 40, 1), Interval(0, 5, 2), Interval(25, 28, 3), Interval(2, 5, 4);
    TiedSides(q, a, b, c, d);
    TiedLeft(q, a, b, c, d);
    TiedRight(q, a, b, c, d);
  }

  /** Where each interval of the tie example lies relative to the query (10, 20). */
  lemma TiedSides(q: Interval, a: Interval, b: Interval, c: Interval, d: Interval)
    requires q.start == 10 && q.stop == 20
    requires a.start == 30 && a.stop == 40 && b.start == 0 && b.stop == 5
    requires c.start == 25 && c.stop == 28 && d.start == 2 && d.stop == 5
    ensures OnSide(q, a, Right) && Gap(q, a) == 10 && !OnSide(q, a, Left)
    ensures OnSide(q, b, Left) && Gap(q, b) == 5 && !OnSide(q, b, Right)
    ensures OnSide(q, c, Right) && Gap(q, c) == 5 && !OnSide(q, c, Left)
    ensures OnSide(q, d, Left) && Gap(q, d) == 5 && !OnSide(q, d, Right)
    ensures Overlapping(q, [a, b, c, d]) == []
  {
    var e: seq<Interval> := [];
    assert Overlapping(q, e) == [];
    assert Init([a]) == e && Last([a]) == a;
    assert Overlapping(q, [a]) == [];
    assert Init([a, b]) == [a] && Last([a, b]) == b;
    assert Overlapping(q, [a, b]) == [];
    assert Init([a, b, c]) == [a, b] && Last([a, b, c]) == c;
    assert Overlapping(q, [a, b, c]) == [];
    assert Init([a, b, c, d]) == [a, b, c] && Last([a, b, c, d]) == d;
  }

  lemma TiedLeft(q: Interval, a: Interval, b: Interval, c: Interval, d: Interval)
    requires OnSide(q, a, Right) && Gap(q, a) == 10 && !OnSide(q, a, Left)
    requires OnSide(q, b, Left) && Gap(q, b) == 5 && !OnSide(q, b, Right)
    requires OnSide(q, c, Right) && Gap(q, c) == 5 && !OnSide(q, c, Left)
    requires OnSide(q, d, Left) && Gap(q, d) == 5 && !OnSide(q, d, Right)
    ensures Nearest(q, [a, b, c, d], Left) == [b, d]
  {
    var e: seq<Interval> := [];
    assert MinGap(q, e, Left) == None && AtGap(q, e, Left, 5) == [];
    assert Init([a]) == e && Last([a]) == a;
    assert MinGap(q, [a], Left) == None && AtGap(q, [a], Left, 5) == [];
    assert Init([a, b]) == [a] && Last([a, b]) == b;
    assert MinGap(q, [a, b], Left) == Some(5) && AtGap(q, [a, b], Left, 5) == [b];
    assert Init([a, b, c]) == [a, b] && Last([a, b, c]) == c;
    assert MinGap(q, [a, b, c], Left) == Some(5) && AtGap(q, [a, b, c], Left, 5) == [b];
    assert Init([a, b, c, d]) == [a, b, c] && Last([a, b, c, d]) == d;
    assert MinGap(q, [a, b, c, d], Left) == Some(5);
    assert AtGap(q, [a, b, c, d], Left, 5) == [b, d];
  }

  lemma TiedRight(q: Interval, a: Interval, b: Interval, c: Interval, d: Interval)
    requires OnSide(q, a, Right) && Gap(q, a) == 10 && !OnSide(q, a, Left)
    requires OnSide(q, b, Left) && Gap(q, b) == 5 && !OnSide(q, b, Right)
    requires OnSide(q, c, Right) && Gap(q, c) == 5 && !OnSide(q, c, Left)
    requires OnSide(q, d, Left) && Gap(q, d) == 5 && !OnSide(q, d, Right)
    ensures Nearest(q, [a, b, c, d], Right) == [c]
  {
    var e: seq<Interval> := [];
    assert MinGap(q, e, Right) == None && AtGap(q, e, Right, 5) == [];
    assert Init([a]) == e && Last([a]) == a;
    assert MinGap(q, [a], Right) == Some(10) && AtGap(q, [a], Right, 5) == [];
    assert Init([a, b]) == [a] && Last([a, b]) == b;
    assert MinGap(q, [a, b], Right) == Some(10) && AtGap(q, [a, b], Right, 5) == [];
    assert Init([a, b, c]) == [a, b] && Last([a, b, c]) == c;
    assert MinGap(q, [a, b, c], Right) == Some(5) && AtGap(q, [a, b, c], Right, 5) == [c];
    assert Init([a, b, c, d]) == [a, b, c] && Last([a, b, c, d]) == d;
    assert MinGap(q, [a, b, c, d], Right) == Some(5);
    assert AtGap(q, [a, b, c, d], Right, 5) == [c];
  }

  /** An interval that touches the query is a neighbour at distance 0 and hides a farther
      one on the same side. */
  lemma TouchingNeighbour()
    ensures FindClosest([Interval(50, 100, 0), Interval(10, 90, 1)], Interval(100, 200, 0)) == [Interval(50, 100, 0)]
  {
    TouchingSteps(Interval(100, 200, 0), Interval(50, 100, 0), Interval(10, 90, 1));
  }

  lemma TouchingSteps(q: Interval, a: Interval, b: Interval)
    requires q.start == 100 && q.stop == 200 && a.start == 50 && a.stop == 100 && b.start == 10 && b.stop == 90
    ensures FindClosest([a, b], q) == [a]
  {
    assert Gap(q, a) == 0 && OnSide(q, a, Left) && !OnSide(q, a, Right);
    assert Gap(q, b) == 10 && OnSide(q, b, Left) && !OnSide(q, b, Right);
    var e: seq<Interval> := [];
    assert Overlapping(q, e) == [] && MinGap(q, e, Left) == None && MinGap(q, e, Right) == None && AtGap(q, e, Left, 0) == [];
    assert Init([a]) == e && Last([a]) == a;
    assert Overlapping(q, [a]) == [];
    assert MinGap(q, [a], Left) == Some(0) && AtGap(q, [a], Left, 0) == [a];
    assert MinGap(q, [a], Right) == None;
    assert Init([a, b]) == [a] && Last([a, b]) == b;
    assert Overlapping(q, [a, b]) == [];
    assert MinGap(q, [a, b], Left) == Some(0) && AtGap(q, [a, b], Left, 0) == [a];
    assert MinGap(q, [a, b], Right) == None;
  }

  /** An empty interval strictly inside the query neither overlaps it nor lies on a side,
      so it is not reported and does not hide the upstream neighbour. */
  lemma EmptyInsideQuery()
    ensures FindClosest([Interval(150, 150, 0), Interval(10, 90, 1)], Interval(100, 200, 0)) == [Interval(10, 90, 1)]
  {
    EmptyInsideSteps(Interval(100, 200, 0), Interval(150, 150, 0), Interval(10, 90, 1));
  }

  lemma EmptyInsideSteps(q: Interval, a: Interval, b: Interval)
    requires q.start == 100 && q.stop == 200 && a.start == 150 && a.stop == 150 && b.start == 10 && b.stop == 90
    ensures FindClosest([a, b], q) == [b]
  {
    assert !Overlaps(q, a) && !OnSide(q, a, Left) && !OnSide(q, a, Right);
    assert Gap(q, b) == 10 && OnSide(q, b, Left) && !OnSide(q, b, Right);
    var e: seq<Interval> := [];
    assert Overlapping(q, e) == [] && MinGap(q, e, Left) == None && MinGap(q, e, Right) == None && AtGap(q, e, Left, 10) == [];
    assert Init([a]) == e && Last([a]) == a;
    assert Overlapping(q, [a]) == [];
    assert MinGap(q, [a], Left) == None && AtGap(q, [a], Left, 10) == [];
    assert MinGap(q, [a], Right) == None;
    assert Init([a, b]) == [a] && Last([a, b]) == b;
    assert Overlapping(q, [a, b]) == [];
    assert MinGap(q, [a, b], Left) == Some(10) && AtGap(q, [a, b], Left, 10) == [b];
    assert MinGap(q, [a, b], Right) == None;
  }

  /** An empty query strictly inside a reference interval gets no candidate from it. */
  lemma EmptyQueryInside()
    ensures FindClosest([Interval(5, 15, 0)], Interval(10, 10, 0)) == []
  {
    EmptyQuerySteps(Interval(10, 10, 0), Interval(5, 15, 0));
  }

  lemma EmptyQuerySteps(q: Interval, a: Interval)
    requires q.start == 10 && q.stop == 10 && a.start == 5 && a.stop == 15
    ensures FindClosest([a], q) == []
  {
    assert !Overlaps(q, a) && !OnSide(q, a, Left) && !OnSide(q, a, Right);
    var e: seq<Interval> := [];
    assert Overlapping(q, e) == [] && MinGap(q, e, Left) == None && MinGap(q, e, Right) == None;
    assert Init([a]) == e && Last([a]) == a;
    assert Overlapping(q, [a]) == [];
    assert MinGap(q, [a], Left) == None && MinGap(q, [a], Right) == None;
  }

  /** The sentinel read from the last intervals can be smaller than a real distance when the
      queries are not sorted by start: here it is 10, the only reference interval lies 995
      upstream of the first query, and the seeded pass reports nothing for that query while
      the reference reports that interval. */
  lemma SentinelDropsNeighbour()
    ensures var vx := [Interval(1000, 1100, 0), Interval(0, 10, 1)];
            var vy := [Interval(0, 5, 0)];
            && MaxEnd(vx, vy) == 10
            && ScannedHits(vx, vy, MaxEnd(vx, vy)) == [Hit(vx[1], vy[0])]
            && Hits(vx, vy) == [Hit(vx[0], vy[0]), Hit(vx[1], vy[0])]
  {
    SentinelHits(Interval(1000, 1100, 0), Interval(0, 10, 1), Interval(0, 5, 0));
  }

  lemma SentinelHits(q0: Interval, q1: Interval, c: Interval)
    requires q0.start == 1000 && q0.stop == 1100 && q1.start == 0 && q1.stop == 10
    requires c.start == 0 && c.stop == 5
    ensures MaxEnd([q0, q1], [c]) == 10
    ensures ScannedHits([q0, q1], [c], 10) == [Hit(q1, c)]
    ensures Hits([q0, q1], [c]) == [Hit(q0, c), Hit(q1, c)]
  {
    SentinelSteps(q0, q1, c);
    assert Init([q0, q1]) == [q0] && Last([q0, q1]) == q1;
    assert Init([q0]) == [] && Last([q0]) == q0;
    var e: seq<Interval> := [];
    assert ScannedHits(e, [c], 10) == [] && Hits(e, [c]) == [];
    assert ScannedHits([q0], [c], 10) == [] && Hits([q0], [c]) == [Hit(q0, c)];
  }

  /** Each query of the sentinel example against the single reference interval. */
  lemma SentinelSteps(q0: Interval, q1: Interval, c: Interval)
    requires q0.start == 1000 && q0.stop == 1100 && q1.start == 0 && q1.stop == 10
    requires c.start == 0 && c.stop == 5
    ensures Scanned([c], q0, 10) == [] && FindClosest([c], q0) == [c]
    ensures Scanned([c], q1, 10) == [c] && FindClosest([c], q1) == [c]
  {
    assert !Overlaps(q0, c) && OnSide(q0, c, Left) && !OnSide(q0, c, Right) && Gap(q0, c) == 995;
    assert Overlaps(q1, c);
    var e: seq<Interval> := [];
    assert Overlapping(q0, e) == [] && Overlapping(q1, e) == [];
    assert MinGap(q0, e, Left) == None && MinGap(q0, e, Right) == None;
    assert AtGap(q0, e, Left, 10) == [] && AtGap(q0, e, Right, 10) == [] && AtGap(q0, e, Left, 995) == [];
    assert Init([c]) == e && Last([c]) == c;
    assert Overlapping(q0, [c]) == [] && Overlapping(q1, [c]) == [c];
    assert MinGap(q0, [c], Left) == Some(995) && MinGap(q0, [c], Right) == None;
    assert AtGap(q0, [c], Left, 10) == [] && AtGap(q0, [c], Right, 10) == [];
    assert AtGap(q0, [c], Left, 995) == [c];
  }
}
