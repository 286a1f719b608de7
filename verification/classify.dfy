/** The overlap/distance rule applied to every (query, candidate) pair. */
module Classifier {
  import opened Intervals

  /** What one emitted row reports about a pair: overlap length and signed distance. */
  datatype Measure = Measure(overlap: int, distance: int)

  /** Overlap wins when positive; otherwise the distance is signed by side: positive when the
      candidate lies strictly downstream of the query, zero or negative otherwise. */
  function Classify(q: Interval, c: Interval): (m: Measure)
    ensures m.overlap >= 0
    ensures m.overlap > 0 ==> m.distance == 0
    ensures m.overlap == Max(0, Overlap(q, c))
    ensures m.distance > 0 <==> c.start > q.stop
    ensures m.overlap == 0 ==> (m.distance == Overlap(q, c) || m.distance == -Overlap(q, c))
    ensures m.overlap == 0 && m.distance == 0 <==> Overlap(q, c) == 0
  {
    var raw := Overlap(q, c);
    if raw > 0 then Measure(raw, 0)
    else if c.start > q.stop then Measure(0, -raw)
    else Measure(0, raw)
  }

  /** An independent, purely positional description of the same rule for well-formed
      intervals: shared length, gap to a downstream candidate, minus the gap to an upstream
      one, and zero for intervals that merely touch. */
  function Geometric(q: Interval, c: Interval): Measure {
    if q.start < q.stop && c.start < c.stop && q.start < c.stop && c.start < q.stop then
      Measure(Min(q.stop, c.stop) - Max(q.start, c.start), 0)
    else if q.stop < c.start then Measure(0, c.start - q.stop)
    else if c.stop < q.start then Measure(0, c.stop - q.start)
    else Measure(0, 0)
  }

  /** On well-formed intervals the rule agrees with the positional description. */
  lemma ClassifyIsGeometric(q: Interval, c: Interval)
    requires WellFormed(q) && WellFormed(c)
    ensures Classify(q, c) == Geometric(q, c)
  {
    var raw := Overlap(q, c);
    if raw > 0 {
    } else if c.start > q.stop {
      assert raw == q.stop - c.start;
    } else if c.stop < q.start {
      assert raw == c.stop - q.start;
    } else {
      assert raw == 0;
    }
  }

  /** Reading the sign back: a negative distance means the candidate ends strictly before
      the query starts, and its magnitude is that gap. */
  lemma NegativeMeansUpstream(q: Interval, c: Interval)
    requires WellFormed(q) && WellFormed(c)
    ensures Classify(q, c).distance < 0 <==> c.stop < q.start
    ensures Classify(q, c).distance < 0 ==> Classify(q, c).distance == c.stop - q.start
    ensures Classify(q, c).distance > 0 ==> Classify(q, c).distance == c.start - q.stop
  {
    ClassifyIsGeometric(q, c);
  }
}
