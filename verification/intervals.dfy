/** Half-open genomic intervals and the signed overlap measure between two of them. */
module Intervals {

  /** An interval [start, stop) carrying `value`, the row of the data frame it came from. */
  datatype Interval = Interval(start: int, stop: int, value: int)

  /** The producer of intervals promises start <= stop; nothing in the kernel checks it. */
  predicate WellFormed(i: Interval) {
    i.start <= i.stop
  }

  function Min(a: int, b: int): int {
    if a <= b then a else b
  }

  function Max(a: int, b: int): int {
    if a >= b then a else b
  }

  /** The shared length of `a` and `b` when positive; otherwise minus the gap between them.
      This is the measure the kernel obtains from `intervalOverlap`, whose body is not part
      of this model: the definition below is the assumed one. */
  function Overlap(a: Interval, b: Interval): (r: int)
    ensures r > 0 <==> a.start < a.stop && b.start < b.stop && a.start < b.stop && b.start < a.stop
    ensures r <= a.stop - a.start && r <= b.stop - b.start
    ensures WellFormed(a) && WellFormed(b) && a.stop <= b.start ==> r == a.stop - b.start
    ensures WellFormed(a) && WellFormed(b) && b.stop <= a.start ==> r == b.stop - a.start
  {
    Min(a.stop, b.stop) - Max(a.start, b.start)
  }
}
