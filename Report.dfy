/** The sort-and-sweep overlap detector of report.py and its report lines. */
module Report {
  import opened Wrappers
  import opened Intervals
  import Clock

  // ---------------------------------------------------------------------------
  // `sorted(times)`: the tuples in non-decreasing (start, end) order

  /** Puts `x` into the sorted sequence `s` in front of the first element it
      is not greater than. */
  function Insert(x: Interval, s: seq<Interval>): (r: seq<Interval>)
    requires LexSorted(s)
    ensures LexSorted(r)
    ensures multiset(r) == multiset(s) + multiset{x}
  {
    if s == [] then [x]
    else if LexLe(x, s[0]) then [x] + s
    else
      var t := Insert(x, s[1..]);
      assert s == [s[0]] + s[1..];
      assert forall k :: 0 <= k < |t| ==> LexLe(s[0], t[k]) by {
        forall k | 0 <= k < |t| ensures LexLe(s[0], t[k]) {
          assert t[k] in multiset(t);
          assert t[k] in multiset(s[1..]) + multiset{x};
        }
      }
      [s[0]] + t
  }

  /** The copy `sorted(times)` that the detector sweeps: in tuple order and a
      permutation of the input. */
  function SortedCopy(times: seq<Interval>): (r: seq<Interval>)
    ensures LexSorted(r)
    ensures multiset(r) == multiset(times)
    ensures |r| == |times|
  {
    if times == [] then []
    else
      assert times == [times[0]] + times[1..];
      Insert(times[0], SortedCopy(times[1..]))
  }

  /** The head of a sorted sequence is below every element of it. */
  lemma HeadIsLeast(a: seq<Interval>, x: Interval)
    requires LexSorted(a) && x in multiset(a)
    ensures LexLe(a[0], x)
  {
    var i :| 0 <= i < |a| && a[i] == x;
    if i == 0 {
      LexLeTotal(x, x);
    }
  }

  lemma TailMultiset(a: seq<Interval>)
    requires a != []
    ensures multiset(a[1..]) == multiset(a) - multiset{a[0]}
  {
    assert a == [a[0]] + a[1..];
  }

  /** Two sequences in tuple order with the same elements are equal: a sorted
      copy does not depend on the order of its input. */
  lemma {:induction false} SortedUnique(a: seq<Interval>, b: seq<Interval>)
    requires LexSorted(a) && LexSorted(b)
    requires multiset(a) == multiset(b)
    ensures a == b
  {
    if a != [] {
      assert |b| == |a| by { assert |multiset(a)| == |multiset(b)|; }
      HeadIsLeast(a, b[0]);
      HeadIsLeast(b, a[0]);
      LexLeTotal(a[0], b[0]);
      TailMultiset(a);
      TailMultiset(b);
      SortedUnique(a[1..], b[1..]);
      assert a == [a[0]] + a[1..] && b == [b[0]] + b[1..];
    }
  }

  /** The sorted copy is the one sequence in tuple order with the input's
      elements; in particular sorting a sorted sequence changes nothing. */
  lemma SortedCopyCharacterized(times: seq<Interval>, s: seq<Interval>)
    requires LexSorted(s) && multiset(times) == multiset(s)
    ensures SortedCopy(times) == s
  {
    SortedUnique(SortedCopy(times), s);
  }

  // ---------------------------------------------------------------------------
  // The detector's specification: every overlapping index pair, no pruning

  /** Row i from column j on: (i, k) for each k in j..|s|-1, in ascending k,
      whose intervals overlap. */
  function RowFrom(s: seq<Interval>, i: nat, j: nat): seq<(nat, nat)>
    requires i < |s|
    decreases |s| - j
  {
    if j >= |s| then []
    else
      var rest := RowFrom(s, i, j + 1);
      if Overlaps(s[i], s[j]) then [(i, j)] + rest else rest
  }

  /** Rows i..|s|-1, each scanned from the column just after the diagonal. */
  function RowsFrom(s: seq<Interval>, i: nat): seq<(nat, nat)>
    requires i <= |s|
    decreases |s| - i
  {
    if i == |s| then [] else RowFrom(s, i, i + 1) + RowsFrom(s, i + 1)
  }

  /** A row names interval i and columns from j on. */
  lemma {:induction false} RowFromRange(s: seq<Interval>, i: nat, j: nat)
    requires i < |s|
    ensures forall p :: p in RowFrom(s, i, j) ==> p.0 == i && j <= p.1 < |s|
    decreases |s| - j
  {
    if j < |s| {
      RowFromRange(s, i, j + 1);
    }
  }

  /** Rows i.. name pairs a < b with a >= i. */
  lemma {:induction false} RowsFromRange(s: seq<Interval>, i: nat)
    requires i <= |s|
    ensures forall p :: p in RowsFrom(s, i) ==> i <= p.0 < p.1 < |s|
    decreases |s| - i
  {
    if i < |s| {
      RowFromRange(s, i, i + 1);
      RowsFromRange(s, i + 1);
    }
  }

  /** A row holds exactly the overlapping columns from j on, in ascending order. */
  lemma {:induction false} RowFromExact(s: seq<Interval>, i: nat, j: nat)
    requires i < |s|
    ensures forall p :: p in RowFrom(s, i, j) ==> p.0 == i && j <= p.1 < |s| && Overlaps(s[i], s[p.1])
    ensures forall k :: j <= k < |s| && Overlaps(s[i], s[k]) ==> (i, k) in RowFrom(s, i, j)
    ensures forall a, b :: 0 <= a < b < |RowFrom(s, i, j)| ==> RowFrom(s, i, j)[a].1 < RowFrom(s, i, j)[b].1
    decreases |s| - j
  {
    if j < |s| {
      RowFromExact(s, i, j + 1);
      var rest := RowFrom(s, i, j + 1);
      if Overlaps(s[i], s[j]) {
        var r := [(i, j)] + rest;
        forall a, b | 0 <= a < b < |r| ensures r[a].1 < r[b].1 {
          assert r[b] == rest[b - 1] && rest[b - 1] in rest;
          if a > 0 { assert r[a] == rest[a - 1]; }
        }
      }
    }
  }

  /** Rows i.. hold exactly the overlapping pairs a < b with a >= i, ordered. */
  lemma {:induction false} RowsFromExact(s: seq<Interval>, i: nat)
    requires i <= |s|
    ensures forall p :: p in RowsFrom(s, i) ==> i <= p.0 < p.1 < |s| && Overlaps(s[p.0], s[p.1])
    ensures forall a, b :: i <= a < b < |s| && Overlaps(s[a], s[b]) ==> (a, b) in RowsFrom(s, i)
    ensures StrictlyIncreasing(RowsFrom(s, i))
    decreases |s| - i
  {
    if i < |s| {
      RowFromExact(s, i, i + 1);
      RowsFromExact(s, i + 1);
      ConcatIncreasing(RowFrom(s, i, i + 1), RowsFrom(s, i + 1), i);
    }
  }

  /** One row (first component i, second ascending) followed by an ordered
      list of later rows is ordered. */
  lemma ConcatIncreasing(row: seq<(nat, nat)>, rest: seq<(nat, nat)>, i: nat)
    requires forall p :: p in row ==> p.0 == i
    requires forall a, b :: 0 <= a < b < |row| ==> row[a].1 < row[b].1
    requires forall p :: p in rest ==> i < p.0
    requires StrictlyIncreasing(rest)
    ensures StrictlyIncreasing(row + rest)
  {
    var r := row + rest;
    forall a, b | 0 <= a < b < |r| ensures IndexLess(r[a], r[b]) {
      if b < |row| {
        assert r[a] == row[a] && r[b] == row[b];
        assert row[a] in row && row[b] in row;
      } else if a < |row| {
        assert r[a] == row[a] && row[a] in row;
        assert r[b] == rest[b - |row|] && rest[b - |row|] in rest;
      } else {
        assert r[a] == rest[a - |row|] && r[b] == rest[b - |row|];
      }
    }
  }

  /** The index pairs (i, j) of the sorted list whose intervals overlap. */
  function OverlapIndices(s: seq<Interval>): (r: seq<(nat, nat)>)
    ensures forall p :: p in r ==> p.0 < p.1 < |s| && Overlaps(s[p.0], s[p.1])
  {
    RowsFromExact(s, 0);
    RowsFrom(s, 0)
  }

  /** The intervals an index list names, in the list's order. */
  function Emit(s: seq<Interval>, idx: seq<(nat, nat)>): (r: seq<Pair>)
    requires forall p :: p in idx ==> p.0 < |s| && p.1 < |s|
    ensures |r| == |idx|
    ensures forall k :: 0 <= k < |r| ==> r[k] == (s[idx[k].0], s[idx[k].1])
  {
    seq(|idx|, k requires 0 <= k < |idx| => (s[idx[k].0], s[idx[k].1]))
  }

  /** Row i of the sweep from column j on, as the intervals it yields: the
      pair (s[i], s[k]) for each overlapping k >= j, in ascending k. */
  function SweepRow(s: seq<Interval>, i: nat, j: nat): seq<Pair>
    requires i < |s|
    decreases |s| - j
  {
    if j >= |s| then []
    else (if Overlaps(s[i], s[j]) then [(s[i], s[j])] else []) + SweepRow(s, i, j + 1)
  }

  /** Rows i..|s|-1 of the sweep, one after the other. */
  function SweepRows(s: seq<Interval>, i: nat): seq<Pair>
    requires i <= |s|
    decreases |s| - i
  {
    if i == |s| then [] else SweepRow(s, i, i + 1) + SweepRows(s, i + 1)
  }

  /** What `get_overlapping_times(times)` yields, as a whole sequence and
      without the early stop. */
  function OverlappingTimes(times: seq<Interval>): (r: seq<Pair>)
    ensures var s := SortedCopy(times); r == Emit(s, OverlapIndices(s))
  {
    SweepRowsIndexed(SortedCopy(times), 0);
    SweepRows(SortedCopy(times), 0)
  }

  /** A sweep row yields the intervals named by the same row of index pairs. */
  lemma {:induction false} SweepRowIndexed(s: seq<Interval>, i: nat, j: nat)
    requires i < |s|
    ensures forall p :: p in RowFrom(s, i, j) ==> p.0 < |s| && p.1 < |s|
    ensures SweepRow(s, i, j) == Emit(s, RowFrom(s, i, j))
    decreases |s| - j
  {
    RowFromRange(s, i, j);
    if j < |s| {
      var rest := RowFrom(s, i, j + 1);
      RowFromRange(s, i, j + 1);
      assert SweepRow(s, i, j + 1) == Emit(s, rest) by {
        SweepRowIndexed(s, i, j + 1);
      }
      if Overlaps(s[i], s[j]) {
        assert Emit(s, [(i, j)]) == [(s[i], s[j])];
        EmitAppend(s, [(i, j)], rest);
      }
    }
  }

  /** The sweep yields the intervals named by the overlapping index pairs. */
  lemma {:induction false} SweepRowsIndexed(s: seq<Interval>, i: nat)
    requires i <= |s|
    ensures forall p :: p in RowsFrom(s, i) ==> p.0 < |s| && p.1 < |s|
    ensures SweepRows(s, i) == Emit(s, RowsFrom(s, i))
    decreases |s| - i
  {
    RowsFromRange(s, i);
    if i < |s| {
      var row, rows := RowFrom(s, i, i + 1), RowsFrom(s, i + 1);
      RowFromRange(s, i, i + 1);
      RowsFromRange(s, i + 1);
      assert SweepRow(s, i, i + 1) == Emit(s, row) by {
        SweepRowIndexed(s, i, i + 1);
      }
      assert SweepRows(s, i + 1) == Emit(s, rows) by {
        SweepRowsIndexed(s, i + 1);
      }
      EmitAppend(s, row, rows);
    }
  }

  /** Concatenating index lists concatenates the intervals they name. */
  lemma EmitAppend(s: seq<Interval>, a: seq<(nat, nat)>, b: seq<(nat, nat)>)
    requires forall q :: q in a ==> q.0 < |s| && q.1 < |s|
    requires forall q :: q in b ==> q.0 < |s| && q.1 < |s|
    ensures Emit(s, a + b) == Emit(s, a) + Emit(s, b)
  {
  }

  // ---------------------------------------------------------------------------
  // The sweep

  /** Past a column whose start is not before interval i's end, no later
      column of the sorted list overlaps interval i, so the rest of the row
      yields nothing. */
  lemma {:induction false} RowEmptyAfterBreak(s: seq<Interval>, i: nat, j: nat)
    requires LexSorted(s)
    requires i < j < |s|
    requires s[j].start >= s[i].end
    ensures SweepRow(s, i, j) == []
    decreases |s| - j
  {
    if j + 1 < |s| {
      assert LexLe(s[j], s[j + 1]);
      RowEmptyAfterBreak(s, i, j + 1);
    }
  }

  /** `get_overlapping_times`: sort a copy of the input, then sweep it. */
  method GetOverlappingTimes(times: seq<Interval>) returns (pairs: seq<Pair>)
    ensures pairs == OverlappingTimes(times)
    ensures |times| <= 1 ==> pairs == []
    ensures forall p :: p in pairs ==> Overlaps(p.0, p.1) && LexLe(p.0, p.1)
  {
    var sortedTimes := SortedCopy(times);
    pairs := Sweep(sortedTimes);
    OverlappingTimesShape(times);
  }

  /** The nested loops of `get_overlapping_times` over the sorted copy: for
      each i scan j = i+1, i+2, ..., stop at the first start2 >= end1, and
      emit the pair when end2 > start1. The early stop loses nothing: the
      result is the whole sweep without it, every overlapping index pair of
      the sorted copy, ordered by (i, j). */
  method Sweep(sortedTimes: seq<Interval>) returns (pairs: seq<Pair>)
    requires LexSorted(sortedTimes)
    ensures pairs == SweepRows(sortedTimes, 0)
  {
    var numTimes := |sortedTimes|;
    ghost var spec := SweepRows(sortedTimes, 0);
    ghost var rest := spec;
    pairs := [];
    var i: nat := 0;
    while i < numTimes
      invariant i <= numTimes
      invariant rest == SweepRows(sortedTimes, i)
      invariant pairs + rest == spec
    {
      var start1, end1 := sortedTimes[i].start, sortedTimes[i].end;
      ghost var later := SweepRows(sortedTimes, i + 1);
      var j: nat := i + 1;
      while j < numTimes
        invariant i + 1 <= j <= numTimes
        invariant rest == SweepRow(sortedTimes, i, j) + later
        invariant pairs + rest == spec
      {
        var start2, end2 := sortedTimes[j].start, sortedTimes[j].end;
        if start2 >= end1 {
          RowEmptyAfterBreak(sortedTimes, i, j);
          break;
        }
        ghost var next := SweepRow(sortedTimes, i, j + 1) + later;
        if end2 > start1 {
          MoveFront(pairs, (sortedTimes[i], sortedTimes[j]), SweepRow(sortedTimes, i, j + 1), later);
          pairs := pairs + [(sortedTimes[i], sortedTimes[j])];
        } else {
          assert rest == next;
        }
        rest := next;
        j := j + 1;
      }
      assert rest == later;
      i := i + 1;
    }
  }

  /** Moving the head of the part still to come onto the part already done. */
  lemma MoveFront<T>(done: seq<T>, x: T, row: seq<T>, later: seq<T>)
    ensures done + (([x] + row) + later) == (done + [x]) + (row + later)
  {
  }

  // ---------------------------------------------------------------------------
  // Properties of the detector

  /** Completeness and soundness: the pair (i, j) is reported exactly when
      i < j and the intervals i and j of the sorted copy strictly overlap. */
  lemma OverlapIndicesExact(s: seq<Interval>, i: nat, j: nat)
    ensures (i, j) in OverlapIndices(s) <==> i < j < |s| && Overlaps(s[i], s[j])
  {
    RowsFromExact(s, 0);
  }

  /** Index pairs come in ascending (i, j) order, so each one at most once. */
  lemma OverlapIndicesOrdered(s: seq<Interval>)
    ensures StrictlyIncreasing(OverlapIndices(s))
    ensures forall k :: 0 <= k < |OverlapIndices(s)| ==> OverlapIndices(s)[k].0 < OverlapIndices(s)[k].1
  {
    RowsFromExact(s, 0);
    forall k | 0 <= k < |OverlapIndices(s)|
      ensures OverlapIndices(s)[k].0 < OverlapIndices(s)[k].1
    {
      assert OverlapIndices(s)[k] in OverlapIndices(s);
    }
  }

  /** A reported pair of intervals: both strictly overlap (touching intervals
      never appear), and the first is not greater than the second. */
  lemma OverlappingTimesSound(times: seq<Interval>, p: Pair)
    requires p in OverlappingTimes(times)
    ensures Overlaps(p.0, p.1) && p.1.start != p.0.end && LexLe(p.0, p.1)
    ensures p.0 in times && p.1 in times
  {
    var s := SortedCopy(times);
    var i, j := SweepRowsSound(s, p);
    assert s[i] in multiset(times) && s[j] in multiset(times);
  }

  /** Every reported pair is a strict overlap in tuple order, and fewer than
      two intervals report nothing. */
  lemma OverlappingTimesShape(times: seq<Interval>)
    ensures forall p :: p in OverlappingTimes(times) ==> Overlaps(p.0, p.1) && LexLe(p.0, p.1)
    ensures |times| <= 1 ==> OverlappingTimes(times) == []
  {
    forall p | p in OverlappingTimes(times) ensures Overlaps(p.0, p.1) && LexLe(p.0, p.1) {
      OverlappingTimesSound(times, p);
    }
    if |times| <= 1 {
      var s := SortedCopy(times);
      if |s| == 1 {
        assert SweepRows(s, 0) == SweepRow(s, 0, 1) + SweepRows(s, 1);
      }
    }
  }

  /** Only the contents of the input matter, not its order. */
  lemma OverlappingTimesPermutationInvariant(xs: seq<Interval>, ys: seq<Interval>)
    requires multiset(xs) == multiset(ys)
    ensures OverlappingTimes(xs) == OverlappingTimes(ys)
  {
    SortedUnique(SortedCopy(xs), SortedCopy(ys));
  }

  /** Completeness on values: the intervals of every overlapping index pair
      i < j of the sorted list are reported. */
  lemma SweepRowsComplete(s: seq<Interval>, i: nat, j: nat)
    requires i < j < |s| && Overlaps(s[i], s[j])
    ensures (s[i], s[j]) in SweepRows(s, 0)
  {
    SweepRowsIndexed(s, 0);
    OverlapIndicesExact(s, i, j);
    var idx := OverlapIndices(s);
    var m :| 0 <= m < |idx| && idx[m] == (i, j);
    assert SweepRows(s, 0)[m] == (s[i], s[j]);
  }

  /** Soundness on values: every reported pair is the intervals of an
      overlapping index pair i < j of the sorted list. */
  lemma SweepRowsSound(s: seq<Interval>, p: Pair) returns (i: nat, j: nat)
    requires p in SweepRows(s, 0)
    ensures i < j < |s| && Overlaps(s[i], s[j]) && p == (s[i], s[j])
  {
    SweepRowsIndexed(s, 0);
    var idx := OverlapIndices(s);
    var k :| 0 <= k < |idx| && SweepRows(s, 0)[k] == p;
    assert idx[k] in idx;
    i, j := idx[k].0, idx[k].1;
  }

  /** Adding an interval keeps every pair that was reported. */
  lemma OverlappingTimesMonotone(times: seq<Interval>, x: Interval, p: Pair)
    requires p in OverlappingTimes(times)
    ensures p in OverlappingTimes(times + [x])
  {
    var s := SortedCopy(times);
    var t := SortedCopy(times + [x]);
    var i, j := SweepRowsSound(s, p);
    assert multiset(t) == multiset(s) + multiset{x};
    var a, b := IndexPairIn(s, t, i, j);
    SweepRowsComplete(t, a, b);
  }

  /** Two positions i < j of a sorted sequence `s` reappear, in the same
      order, in a sorted sequence `t` that holds at least the elements of `s`. */
  lemma IndexPairIn(s: seq<Interval>, t: seq<Interval>, i: nat, j: nat)
      returns (a: nat, b: nat)
    requires LexSorted(s) && LexSorted(t)
    requires multiset(s) <= multiset(t)
    requires i < j < |s|
    ensures a < b < |t| && t[a] == s[i] && t[b] == s[j]
  {
    if s[i] == s[j] {
      // at least two copies: take the first two positions of that value in t
      var v := s[i];
      assert multiset(s)[v] >= 2 by {
        assert s == s[..j] + s[j..];
        assert s[..j][i] == v && s[j..][0] == v;
        assert v in multiset(s[..j]) && v in multiset(s[j..]);
      }
      a, b := TwoPositions(t, v);
    } else {
      assert s[i] in multiset(t) && s[j] in multiset(t);
      a :| 0 <= a < |t| && t[a] == s[i];
      b :| 0 <= b < |t| && t[b] == s[j];
      assert LexLe(s[i], s[j]);
      assert b < a ==> LexLe(t[b], t[a]);
    }
  }

  /** A value occurring at least twice in a sequence occurs at two positions. */
  lemma {:induction false} TwoPositions(t: seq<Interval>, v: Interval) returns (a: nat, b: nat)
    requires multiset(t)[v] >= 2
    ensures a < b < |t| && t[a] == v && t[b] == v
  {
    assert t == [t[0]] + t[1..];
    if t[0] == v {
      assert v in multiset(t[1..]);
      var c :| 0 <= c < |t[1..]| && t[1..][c] == v;
      a, b := 0, c + 1;
    } else {
      var a', b' := TwoPositions(t[1..], v);
      a, b := a' + 1, b' + 1;
    }
  }

  // ---------------------------------------------------------------------------
  // Report lines

  /** One interval as the report writes it: "(start - end)". */
  function Bracket(a: Interval): (t: string)
    ensures InDay(a) ==> ParseBracket(t) == Some((a, []))
  {
    var t := "(" + Clock.MinutesToAmPm(a.start) + " - " + Clock.MinutesToAmPm(a.end) + ")";
    // Proof of the read-back only: both branches give the same text, and the
    // lemma, stated for a text followed by a rest, is used with the empty rest.
    assert t + [] == t;
    if InDay(a) then
      ParseBracketOfFormat(a, []);
      t
    else
      t
  }

  /** The line for one pair: "(a - b) and (c - d)". It reads back as the pair
      when the four times are minutes of the day. */
  function FormatLine(p: Pair): (line: string)
    ensures InDay(p.0) && InDay(p.1) ==> ParseLine(line) == Some(p)
  {
    var line := Bracket(p.0) + " and " + Bracket(p.1);
    // Proof of the read-back only: the line is cut as the parser reads it,
    // first bracket, " and ", second bracket with an empty rest; both
    // branches give the same text.
    var s2 := Bracket(p.1) + [];
    assert line == Bracket(p.0) + (" and " + s2);
    if InDay(p.0) && InDay(p.1) then
      ParseBracketOfFormat(p.0, " and " + s2);
      ExpectLiteral(" and ", s2);
      ParseBracketOfFormat(p.1, []);
      line
    else
      line
  }

  /** `format_overlapping_times`: one line per pair, in the pairs' order. */
  function FormatOverlappingTimes(times: seq<Pair>): (lines: seq<string>)
    ensures |lines| == |times|
    ensures forall k :: 0 <= k < |times| ==> lines[k] == FormatLine(times[k])
  {
    if times == [] then []
    else seq(|times|, k requires 0 <= k < |times| => FormatLine(times[k]))
  }

  /** Removes the literal `lit` from the front of `s`. */
  function Expect(lit: string, s: string): (r: Option<string>)
    ensures r.Some? ==> s == lit + r.value
  {
    if |lit| <= |s| && s[..|lit|] == lit then Some(s[|lit|..]) else None
  }

  /** Reads "(" clock " - " clock ")" from the front of `s`. */
  function ParseBracket(s: string): Option<(Interval, string)> {
    match Expect("(", s)
    case None => None
    case Some(s1) =>
      match Clock.ParseClock(s1)
      case None => None
      case Some((a, s2)) =>
        match Expect(" - ", s2)
        case None => None
        case Some(s3) =>
          match Clock.ParseClock(s3)
          case None => None
          case Some((b, s4)) =>
            match Expect(")", s4)
            case None => None
            case Some(s5) => Some((Interval(a, b), s5))
  }

  /** Reads a whole report line back into the pair it describes. */
  function ParseLine(line: string): Option<Pair> {
    match ParseBracket(line)
    case None => None
    case Some((a, s1)) =>
      match Expect(" and ", s1)
      case None => None
      case Some(s2) =>
        match ParseBracket(s2)
        case None => None
        case Some((b, s3)) => if s3 == [] then Some((a, b)) else None
  }

  predicate InDay(a: Interval) {
    0 <= a.start < Clock.MinutesPerDay && 0 <= a.end < Clock.MinutesPerDay
  }

  lemma ExpectLiteral(lit: string, rest: string)
    ensures Expect(lit, lit + rest) == Some(rest)
  {
    assert (lit + rest)[..|lit|] == lit;
    assert (lit + rest)[|lit|..] == rest;
  }

  /** Regrouping a left-nested concatenation of six parts to the right. */
  lemma AssocRight<T>(a: seq<T>, b: seq<T>, c: seq<T>, d: seq<T>, e: seq<T>, f: seq<T>)
    ensures a + b + c + d + e + f == a + (b + (c + (d + (e + f))))
  {
  }

  /** The text "(start - end)" of an interval of the day, followed by
      anything, reads back as the interval and the untouched rest. */
  lemma ParseBracketOfFormat(a: Interval, rest: string)
    requires InDay(a)
    ensures ParseBracket("(" + Clock.MinutesToAmPm(a.start) + " - " + Clock.MinutesToAmPm(a.end) + ")" + rest)
         == Some((a, rest))
  {
    var t1 := Clock.MinutesToAmPm(a.start);
    var t2 := Clock.MinutesToAmPm(a.end);
    var s5 := rest;
    var s4 := ")" + s5;
    var s3 := t2 + s4;
    var s2 := " - " + s3;
    var s1 := t1 + s2;
    AssocRight("(", t1, " - ", t2, ")", rest);
    ExpectLiteral("(", s1);
    Clock.ParseClockOfFormat(a.start, s2);
    ExpectLiteral(" - ", s3);
    Clock.ParseClockOfFormat(a.end, s4);
    ExpectLiteral(")", s5);
  }

  /** The report has one line per pair, in order, and each line reads back
      as its pair. */
  lemma FormatOverlappingTimesReadsBack(times: seq<Pair>)
    requires forall p :: p in times ==> InDay(p.0) && InDay(p.1)
    ensures |FormatOverlappingTimes(times)| == |times|
    ensures forall k :: 0 <= k < |times| ==> ParseLine(FormatOverlappingTimes(times)[k]) == Some(times[k])
  {
    forall k | 0 <= k < |times|
      ensures ParseLine(FormatOverlappingTimes(times)[k]) == Some(times[k])
    {
      assert times[k] in times;
    }
  }
}
