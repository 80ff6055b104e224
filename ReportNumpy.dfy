/** The matrix-broadcast overlap detector of report_numpy.py. The input is
    the two columns `start` and `end` as read from the file, in file order;
    nothing here sorts them. The clock conversions and the report lines of
    that file are the same text as in report.py and are Clock.MinutesToAmPm
    and Report.FormatOverlappingTimes. */
module ReportNumpy {
  import opened Intervals
  import Report

  // ---------------------------------------------------------------------------
  // Boolean matrices as sequences of rows

  /** `start[:, np.newaxis] < end`: entry (i, j) compares start i with end j. */
  function Broadcast(start: seq<int>, end: seq<int>): (m: seq<seq<bool>>)
    ensures |m| == |start| && forall i :: 0 <= i < |m| ==> |m[i]| == |end|
    ensures forall i, j {:trigger m[i][j]} :: 0 <= i < |start| && 0 <= j < |end| ==> (m[i][j] <==> start[i] < end[j])
  {
    seq(|start|, i requires 0 <= i < |start| =>
      seq(|end|, j requires 0 <= j < |end| => start[i] < end[j]))
  }

  /** `np.tril(m, k)`: keeps the entries on and below diagonal k (column
      j <= row i + k) and clears the rest. */
  function Tril(m: seq<seq<bool>>, k: int): (r: seq<seq<bool>>)
    ensures |r| == |m| && forall i :: 0 <= i < |r| ==> |r[i]| == |m[i]|
    ensures forall i, j :: 0 <= i < |m| && 0 <= j < |m[i]| && j > i + k ==> !r[i][j]
    ensures forall i, j :: 0 <= i < |m| && 0 <= j < |m[i]| && j <= i + k ==> r[i][j] == m[i][j]
  {
    seq(|m|, i requires 0 <= i < |m| =>
      seq(|m[i]|, j requires 0 <= j < |m[i]| => m[i][j] && j <= i + k))
  }

  /** Positions of the true entries of row i from column j on. */
  function NonZeroRow(m: seq<seq<bool>>, i: nat, j: nat): seq<(nat, nat)>
    requires i < |m|
    decreases |m[i]| - j
  {
    if j >= |m[i]| then []
    else (if m[i][j] then [(i, j)] else []) + NonZeroRow(m, i, j + 1)
  }

  /** Positions of the true entries of rows i.., row by row. */
  function NonZeroFrom(m: seq<seq<bool>>, i: nat): seq<(nat, nat)>
    requires i <= |m|
    decreases |m| - i
  {
    if i == |m| then [] else NonZeroRow(m, i, 0) + NonZeroFrom(m, i + 1)
  }

  /** `.nonzero()`: the (row, column) positions of the true entries in
      row-major order (numpy returns them as two index arrays). */
  function NonZero(m: seq<seq<bool>>): (r: seq<(nat, nat)>)
    ensures forall p :: p in r ==> p.0 < |m| && p.1 < |m[p.0]| && m[p.0][p.1]
    ensures forall i, j :: 0 <= i < |m| && 0 <= j < |m[i]| && m[i][j] ==> (i, j) in r
    ensures StrictlyIncreasing(r)
  {
    NonZeroFromExact(m, 0);
    NonZeroFrom(m, 0)
  }

  lemma {:induction false} NonZeroRowMembers(m: seq<seq<bool>>, i: nat, j: nat)
    requires i < |m|
    ensures forall p :: p in NonZeroRow(m, i, j) ==> p.0 == i && j <= p.1 < |m[i]| && m[i][p.1]
    ensures forall c :: j <= c < |m[i]| && m[i][c] ==> (i, c) in NonZeroRow(m, i, j)
    decreases |m[i]| - j
  {
    if j < |m[i]| {
      NonZeroRowMembers(m, i, j + 1);
    }
  }

  lemma {:induction false} NonZeroRowOrdered(m: seq<seq<bool>>, i: nat, j: nat)
    requires i < |m|
    ensures forall a, b :: 0 <= a < b < |NonZeroRow(m, i, j)| ==>
      NonZeroRow(m, i, j)[a].1 < NonZeroRow(m, i, j)[b].1
    decreases |m[i]| - j
  {
    if j < |m[i]| {
      NonZeroRowOrdered(m, i, j + 1);
      NonZeroRowMembers(m, i, j + 1);
      var rest := NonZeroRow(m, i, j + 1);
      if m[i][j] {
        var r := [(i, j)] + rest;
        forall a, b | 0 <= a < b < |r| ensures r[a].1 < r[b].1 {
          assert r[b] == rest[b - 1] && rest[b - 1] in rest;
          if a > 0 { assert r[a] == rest[a - 1]; }
        }
      }
    }
  }

  lemma {:induction false} NonZeroFromExact(m: seq<seq<bool>>, i: nat)
    requires i <= |m|
    ensures forall p :: p in NonZeroFrom(m, i) ==> i <= p.0 < |m| && p.1 < |m[p.0]| && m[p.0][p.1]
    ensures forall r, c :: i <= r < |m| && 0 <= c < |m[r]| && m[r][c] ==> (r, c) in NonZeroFrom(m, i)
    ensures StrictlyIncreasing(NonZeroFrom(m, i))
    decreases |m| - i
  {
    if i < |m| {
      NonZeroRowMembers(m, i, 0);
      NonZeroRowOrdered(m, i, 0);
      NonZeroFromExact(m, i + 1);
      Report.ConcatIncreasing(NonZeroRow(m, i, 0), NonZeroFrom(m, i + 1), i);
    }
  }

  // ---------------------------------------------------------------------------
  // The detector

  /** `np.tril(start_t < end, k=-1).nonzero()`: the index pairs (group1[k],
      group2[k]) that get_overlapping_times selects, in row-major order. */
  function SelectedIndices(start: seq<int>, end: seq<int>): (r: seq<(nat, nat)>)
    ensures forall p :: p in r ==> p.1 < p.0 < |start| && p.1 < |end| && start[p.0] < end[p.1]
    ensures StrictlyIncreasing(r)
  {
    var m := Tril(Broadcast(start, end), -1);
    NonZero(m)
  }

  /** `get_overlapping_times(start, end)`: for each selected (i, j) the pair
      ((start[i], end[i]), (start[j], end[j])), later index first. Both
      columns come from one file and have the same length. */
  function GetOverlappingTimes(start: seq<int>, end: seq<int>): (r: seq<Pair>)
    requires |start| == |end|
    ensures var idx := SelectedIndices(start, end);
      |r| == |idx| && forall k :: 0 <= k < |r| ==>
        r[k] == (Interval(start[idx[k].0], end[idx[k].0]), Interval(start[idx[k].1], end[idx[k].1]))
    ensures |r| == |Qualifying(start, end)|
    ensures forall p :: p in r ==> p.0.start < p.1.end
  {
    var idx := SelectedIndices(start, end);
    SelectedIndicesCount(start, end);
    seq(|idx|, k requires 0 <= k < |idx| =>
      (Interval(start[idx[k].0], end[idx[k].0]), Interval(start[idx[k].1], end[idx[k].1])))
  }

  /** The selected pairs are exactly those with j < i and start[i] < end[j]:
      the diagonal and the upper triangle are cleared by k = -1, and touching
      intervals (start[i] == end[j]) are not selected. */
  lemma SelectedIndicesExact(start: seq<int>, end: seq<int>, i: nat, j: nat)
    ensures (i, j) in SelectedIndices(start, end)
        <==> j < i < |start| && j < |end| && start[i] < end[j]
  {
    var m := Tril(Broadcast(start, end), -1);
    if j < i < |start| && j < |end| && start[i] < end[j] {
      assert m[i][j];
    }
  }

  /** The pairs of indices that satisfy the selection. */
  function Qualifying(start: seq<int>, end: seq<int>): set<(nat, nat)> {
    set i: nat, j: nat | j < i < |start| && j < |end| && start[i] < end[j] :: (i, j)
  }

  /** The result has one element per qualifying index pair. */
  lemma SelectedIndicesCount(start: seq<int>, end: seq<int>)
    ensures |SelectedIndices(start, end)| == |Qualifying(start, end)|
  {
    var idx := SelectedIndices(start, end);
    forall p | p in Qualifying(start, end) ensures p in idx {
      SelectedIndicesExact(start, end, p.0, p.1);
    }
    assert Elements(idx) == Qualifying(start, end);
    DistinctCard(idx);
  }

  function Elements(r: seq<(nat, nat)>): set<(nat, nat)> {
    set p | p in r
  }

  lemma TailIncreasing(r: seq<(nat, nat)>)
    requires r != [] && StrictlyIncreasing(r)
    ensures StrictlyIncreasing(r[1..])
    ensures forall k :: 0 <= k < |r| - 1 ==> r[1..][k] != r[0]
  {
    var t := r[1..];
    forall a, b | 0 <= a < b < |t| ensures IndexLess(t[a], t[b]) {
      assert t[a] == r[a + 1] && t[b] == r[b + 1];
    }
    forall k | 0 <= k < |t| ensures t[k] != r[0] {
      assert IndexLess(r[0], r[k + 1]);
    }
  }

  lemma ElementsCons(r: seq<(nat, nat)>)
    requires r != []
    ensures Elements(r) == Elements(r[1..]) + {r[0]}
  {
    assert r == [r[0]] + r[1..];
  }

  /** A sequence without repetitions has as many elements as its set. */
  lemma {:induction false} DistinctCard(r: seq<(nat, nat)>)
    requires StrictlyIncreasing(r)
    ensures |Elements(r)| == |r|
  {
    if r != [] {
      TailIncreasing(r);
      DistinctCard(r[1..]);
      ElementsCons(r);
      assert r[0] !in Elements(r[1..]);
    }
  }

  /** What a result element is: the later interval i first, the earlier
      interval j second, j < i, and start i before end j. */
  lemma GetOverlappingTimesMember(start: seq<int>, end: seq<int>, p: Pair)
    requires |start| == |end|
    ensures p in GetOverlappingTimes(start, end) <==>
      exists i: nat, j: nat :: j < i < |start| && start[i] < end[j]
        && p == (Interval(start[i], end[i]), Interval(start[j], end[j]))
  {
    var idx := SelectedIndices(start, end);
    var r := GetOverlappingTimes(start, end);
    if p in r {
      var k :| 0 <= k < |r| && r[k] == p;
      assert idx[k] in idx;
    }
    if exists i: nat, j: nat :: j < i < |start| && start[i] < end[j]
        && p == (Interval(start[i], end[i]), Interval(start[j], end[j])) {
      var i: nat, j: nat :| j < i < |start| && start[i] < end[j]
        && p == (Interval(start[i], end[i]), Interval(start[j], end[j]));
      SelectedIndicesExact(start, end, i, j);
      var k :| 0 <= k < |idx| && idx[k] == (i, j);
      assert r[k] == p;
    }
  }

  /** Start times in non-decreasing order, as the comment "assuming sorted"
      asks of the caller. */
  predicate StartSorted(start: seq<int>) {
    forall a, b :: 0 <= a < b < |start| ==> start[a] <= start[b]
  }

  /** Every interval ends after it starts. */
  predicate Proper(start: seq<int>, end: seq<int>) {
    |start| == |end| && forall k :: 0 <= k < |start| ==> start[k] < end[k]
  }

  /** On start-sorted proper input every selected pair is a genuine overlap,
      and the first member starts no earlier than the second. */
  lemma SelectedAreOverlaps(start: seq<int>, end: seq<int>, p: Pair)
    requires StartSorted(start) && Proper(start, end)
    requires p in GetOverlappingTimes(start, end)
    ensures Overlaps(p.0, p.1) && p.1.start <= p.0.start
  {
    GetOverlappingTimesMember(start, end, p);
    var i: nat, j: nat :| j < i < |start| && start[i] < end[j]
      && p == (Interval(start[i], end[i]), Interval(start[j], end[j]));
    assert start[j] <= start[i] < end[i];
  }

  /** Touching intervals are not reported: (1, 2), (2, 3), (3, 4). */
  lemma TouchingExample()
    ensures GetOverlappingTimes([1, 2, 3], [2, 3, 4]) == []
  {
    var idx := SelectedIndices([1, 2, 3], [2, 3, 4]);
    assert forall k :: 0 <= k < |idx| ==> idx[k] in idx;
  }

  /** Out of order the claim fails: with (5, 6) before (1, 2) the two
      disjoint intervals are reported. */
  lemma UnsortedInputReportsDisjoint()
    ensures GetOverlappingTimes([5, 1], [6, 2]) == [(Interval(1, 2), Interval(5, 6))]
    ensures !Overlaps(Interval(1, 2), Interval(5, 6))
  {
    var idx := SelectedIndices([5, 1], [6, 2]);
    SelectedIndicesExact([5, 1], [6, 2], 1, 0);
    forall p | p in idx ensures p == (1, 0) {
      SelectedIndicesExact([5, 1], [6, 2], p.0, p.1);
    }
    assert idx == [(1, 0)] by {
      var k :| 0 <= k < |idx| && idx[k] == (1, 0);
    }
  }

  // ---------------------------------------------------------------------------
  // Agreement with the sweep of report.py

  function Starts(times: seq<Interval>): (r: seq<int>)
    ensures |r| == |times| && forall k :: 0 <= k < |r| ==> r[k] == times[k].start
  {
    seq(|times|, k requires 0 <= k < |times| => times[k].start)
  }

  function Ends(times: seq<Interval>): (r: seq<int>)
    ensures |r| == |times| && forall k :: 0 <= k < |r| ==> r[k] == times[k].end
  {
    seq(|times|, k requires 0 <= k < |times| => times[k].end)
  }

  /** On input already in (start, end) order whose intervals end after they
      start, both detectors report the same overlaps: the sweep gives (a, b)
      exactly when the matrix variant gives (b, a). */
  lemma SweepAgreement(times: seq<Interval>, p: Pair)
    requires LexSorted(times)
    requires forall k :: 0 <= k < |times| ==> times[k].start < times[k].end
    ensures p in Report.OverlappingTimes(times)
        <==> (p.1, p.0) in GetOverlappingTimes(Starts(times), Ends(times))
  {
    var start, end := Starts(times), Ends(times);
    Report.SortedCopyCharacterized(times, times);
    var q := (p.1, p.0);
    GetOverlappingTimesMember(start, end, q);
    if p in Report.OverlappingTimes(times) {
      var a, b := Report.SweepRowsSound(times, p);
      assert q == (Interval(start[b], end[b]), Interval(start[a], end[a]));
    }
    if q in GetOverlappingTimes(start, end) {
      var i: nat, j: nat :| j < i < |start| && start[i] < end[j]
        && q == (Interval(start[i], end[i]), Interval(start[j], end[j]));
      assert times[i] == q.0 && times[j] == q.1;
      assert LexLe(times[j], times[i]);
      Report.SweepRowsComplete(times, j, i);
    }
  }
}
