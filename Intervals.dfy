/** Time intervals as the report handles them: a (start, end) pair of
    minutes since midnight, compared the way a Python tuple is compared. */
module Intervals {

  /** One meeting: the tuple (start, end) of the source. */
  datatype Interval = Interval(start: int, end: int)

  /** An emitted overlap: the two intervals in the order the detector yields them. */
  type Pair = (Interval, Interval)

  /** Python's `<=` on 2-tuples: compare starts, then ends. */
  predicate LexLe(a: Interval, b: Interval) {
    a.start < b.start || (a.start == b.start && a.end <= b.end)
  }

  /** Strict overlap: each interval starts before the other one ends.
      Touching endpoints (a.end == b.start) do not overlap. */
  predicate Overlaps(a: Interval, b: Interval) {
    b.start < a.end && a.start < b.end
  }

  /** The sequence is in non-decreasing tuple order, as `sorted` leaves it. */
  predicate LexSorted(s: seq<Interval>) {
    forall a, b :: 0 <= a < b < |s| ==> LexLe(s[a], s[b])
  }

  lemma LexLeTotal(a: Interval, b: Interval)
    ensures LexLe(a, b) || LexLe(b, a)
    ensures LexLe(a, b) && LexLe(b, a) ==> a == b
  {
  }

  /** Index pairs in row-major (lexicographic) order. */
  predicate IndexLess(p: (nat, nat), q: (nat, nat)) {
    p.0 < q.0 || (p.0 == q.0 && p.1 < q.1)
  }

  /** Every earlier element of `r` is strictly before every later one:
      ordered, and therefore free of repetitions. */
  predicate StrictlyIncreasing(r: seq<(nat, nat)>) {
    forall a, b :: 0 <= a < b < |r| ==> IndexLess(r[a], r[b])
  }
}
