# Overlapping times report, in Dafny

The program reads a list of meetings. Each meeting is a pair of clock times
such as `9:00am,10:30am`. The program reports every two meetings whose time
ranges strictly overlap, one line per pair: `(9:00am - 10:00am) and (9:30am - 10:30am)`.
Times are kept as minutes since midnight.

The program has two detectors:

- `report.py` sorts the list of (start, end) tuples. It then sweeps the
  sorted list with two nested loops. The inner loop stops at the first later
  meeting that starts at or after the current one's end.
- `report_numpy.py` compares every start with every end in one boolean
  matrix. It keeps the part strictly below the diagonal and reads off the
  positions of the true entries.

Both files share the clock conversions and the line formatter.

Modules:

- `Wrappers`: `Option`. `None` stands for the `ValueError` of a failed parse.
- `Intervals`: a meeting as `Interval(start, end)`; Python's tuple order
  (`LexLe`); strict overlap (`Overlaps`); row-major order on index pairs.
- `Clock`: `minutes_to_ampm` (`MinutesToAmPm`) and `ampm_to_minutes`
  (`AmPmToMinutes`). The latter is a parser for the canonical `H:MMam` /
  `H:MMpm` text.
- `Report`: the sort (`SortedCopy`) and the sweep. `Sweep` is the nested
  `while` loops with their `break`, proved against the function `SweepRows`.
  `GetOverlappingTimes` sorts and then calls `Sweep`. The module also holds
  the line formatter and, as its partner, a reader that parses a line back.
- `ReportNumpy`: broadcast, `tril(k=-1)` and `nonzero` over sequences of
  rows, plus the agreement lemma with the sweep.
- `ReportExamples`: the fixed cases of `test_report.py`.

The sweep is specified on two levels:

- the index level (`OverlapIndices`): every pair i < j of the sorted copy
  that overlaps, in (i, j) order;
- the interval level (`SweepRows`): the pairs of intervals, one row at a time.

The contract of `OverlappingTimes` connects the two. `RowEmptyAfterBreak` shows that
the inner loop's early stop loses nothing.

## Model

| member | source | states |
|---|---|---|
| Clock.MinutesToAmPm | report.py:10-18 | for a minute of the day, the text is the clock hour (the hour of the day modulo 12, 0 read as 12) in decimal, ':', the minute as two digits, and "am" before noon, "pm" from noon on |
| Clock.MinutesToAmPmFields | report.py:10-18 | for a minute of the day, the text is the hour 1..12 (0 and 12 read as 12, 13..23 as 1..11) without padding, then ':', then the minute as two digits, then "am" exactly when the minute is before noon |
| Clock.ParseClock | report.py:5-7 | an accepted clock text gives a minute of the day and leaves a proper suffix of the input unread |
| Clock.AmPmToMinutes | report.py:5-7 | an accepted text gives a minute in 0..1439 |
| Clock.ParseClockOfFormat | report.py:5-18 | reading back the text of any minute of the day, followed by anything, gives the minute and the untouched rest |
| Clock.FormatOfParseClock | report.py:5-18 | every text the parser accepts is exactly the text minutes_to_ampm writes for the value it reads |
| Clock.AmPmRoundTrip | report.py:5-18 | ampm_to_minutes(minutes_to_ampm(m)) == m for every minute of the day |
| Clock.MinutesRoundTrip | report.py:5-18 | minutes_to_ampm(ampm_to_minutes(s)) == s for every accepted text s |
| Clock.ExampleMidnight | test_report.py:11 | "12:00am" and 0 convert into each other |
| Clock.ExampleNoon | test_report.py:12 | "12:00pm" and 720 convert into each other |
| Clock.ExampleNineAm | test_report.py:13 | "9:00am" and 540 convert into each other |
| Clock.ExampleNinePm | test_report.py:14 | "9:00pm" and 1260 convert into each other |
| Clock.ExampleOneAfterMidnight | test_report.py:15 | "12:01am" and 1 convert into each other |
| Clock.ExampleOneToOnePm | test_report.py:16 | "12:59pm" and 779 convert into each other |
| Clock.ExampleHalfPastNine | test_report.py:17 | "9:30am" and 570 convert into each other |
| Intervals.LexLeTotal | report.py:23 | tuple order is total and antisymmetric |
| Report.Insert | report.py:23 | inserting into a sorted list keeps it sorted and adds exactly one copy of the element |
| Report.SortedCopy | report.py:23 | `sorted(times)` is in tuple order, is a permutation of the input and has its length |
| Report.SortedUnique | report.py:23 | two sorted sequences with the same elements are equal |
| Report.SortedCopyCharacterized | report.py:23 | the sorted copy is the only sorted permutation of the input; sorting a sorted list changes nothing |
| Report.OverlapIndices | report.py:24-33 | every index pair it lists is i < j < n with the two sorted intervals overlapping |
| Report.OverlapIndicesExact | report.py:24-33 | (i, j) is listed exactly when i < j < n and intervals i and j of the sorted copy strictly overlap |
| Report.OverlapIndicesOrdered | report.py:24-27 | index pairs come in ascending (i, j) order, so each pair at most once, and always i < j |
| Report.OverlappingTimes | report.py:21-33 | what the generator yields, without the early stop: the k-th reported pair is the two intervals of the k-th overlapping index pair of the sorted copy |
| Report.RowEmptyAfterBreak | report.py:29-30 | once a later start is at or after the current end, no later interval of the sorted row can overlap, so the `break` loses nothing |
| Report.Sweep | report.py:24-33 | the nested loops with `break` and the `end2 > start1` test compute exactly SweepRows of the sorted list |
| Report.GetOverlappingTimes | report.py:21-33 | the generator's output is OverlappingTimes(times); fewer than two intervals yield nothing; every pair strictly overlaps and is in tuple order |
| Report.OverlappingTimesSound | report.py:29-33 | every reported pair strictly overlaps, never merely touches, has its first member not above its second, and both members come from the input |
| Report.OverlappingTimesShape | report.py:21-33 | every reported pair is a strict overlap in tuple order; zero or one interval reports nothing |
| Report.SweepRowsComplete | report.py:24-33 | the intervals of every overlapping pair i < j of the sorted list are reported |
| Report.SweepRowsSound | report.py:24-33 | every reported pair is the intervals of some overlapping pair i < j of the sorted list |
| Report.OverlappingTimesPermutationInvariant | report.py:23 | the result depends only on the multiset of input intervals, not on their order |
| Report.OverlappingTimesMonotone | report.py:21-33 | adding an interval to the input keeps every pair already reported |
| Report.FormatOverlappingTimes | report.py:36-40 | one line per pair, in the pairs' order, the k-th line being the line of the k-th pair |
| Report.Bracket | report.py:40 | the text "(start - end)" of an interval of the day reads back as exactly that interval |
| Report.ParseBracketOfFormat | report.py:40 | the text "(start - end)" of an interval of the day, followed by anything, reads back as that interval and the untouched rest |
| Report.FormatLine | report.py:40 | the line "(a - b) and (c - d)" of a pair whose four times are minutes of the day reads back as exactly that pair |
| Report.FormatOverlappingTimesReadsBack | report.py:36-40 | the report has one line per pair and line k reads back as pair k |
| ReportExamples.SingleExample | test_report.py:51 | a single interval reports nothing |
| ReportExamples.TouchingExample | test_report.py:52 | (1,2), (2,3), (3,4) touch but do not overlap and report nothing |
| ReportExamples.ScenarioSorts | test_report.py:53 | the six-interval input sorts to (1,2), (3,6), (5,10), (6,7), (7,12), (15,20) |
| ReportExamples.ScenarioExample | test_report.py:53-54 | the six-interval input reports exactly ((3,6),(5,10)), ((5,10),(6,7)), ((5,10),(7,12)), in that order |
| ReportExamples.FormatEmptyExample | test_report.py:70 | no pairs give no lines |
| ReportExamples.FormatOneExample | test_report.py:71 | one pair gives the line "(9:00am - 10:00am) and (9:30am - 10:30am)" |
| ReportExamples.FormatTwoExample | test_report.py:72-74 | two pairs give their two lines in order |
| ReportNumpy.Broadcast | report_numpy.py:25-29 | `start[:, np.newaxis] < end` is a matrix of one row per start and one column per end, whose entry (i, j) is true exactly when start[i] < end[j] |
| ReportNumpy.Tril | report_numpy.py:29 | `np.tril(m, k)` keeps the shape of m, clears every entry above diagonal k (column j > row i + k) and keeps the others |
| ReportNumpy.NonZero | report_numpy.py:29 | `nonzero` lists exactly the true positions, each once, in row-major order |
| ReportNumpy.SelectedIndices | report_numpy.py:29 | every selected (i, j) has j < i, both in range, and start[i] < end[j]; the pairs come in row-major order, each once |
| ReportNumpy.SelectedIndicesExact | report_numpy.py:25-29 | (i, j) is selected exactly when j < i < n and start[i] < end[j]; the diagonal, the upper triangle and touching pairs are excluded |
| ReportNumpy.SelectedIndicesCount | report_numpy.py:29 | the number of selected pairs is the number of qualifying index pairs |
| ReportNumpy.GetOverlappingTimes | report_numpy.py:22-34 | the k-th result is ((start[i], end[i]), (start[j], end[j])) for the k-th selected index pair (i, j), so the results come in the row-major order of the selected index pairs; there is one per index pair j < i with start[i] < end[j], and in each the first interval starts before the second one ends |
| ReportNumpy.GetOverlappingTimesMember | report_numpy.py:22-34 | a pair is in the result exactly when it is ((start[i], end[i]), (start[j], end[j])) for some j < i with start[i] < end[j] |
| ReportNumpy.SelectedAreOverlaps | report_numpy.py:23-29 | when the starts are sorted and every interval ends after it starts, every reported pair is a strict overlap whose second member starts no later than its first |
| ReportNumpy.TouchingExample | report_numpy.py:29 | (1,2), (2,3), (3,4) report nothing |
| ReportNumpy.UnsortedInputReportsDisjoint | report_numpy.py:23 | without the sorted-input assumption the result can hold disjoint intervals: (5,6) before (1,2) reports ((1,2),(5,6)) |
| ReportNumpy.SweepAgreement | report_numpy.py:22-34 | on input in tuple order whose intervals end after they start, the sweep of report.py reports (a, b) exactly when the matrix detector reports (b, a) |

## Left out

- `read_times` in both files is left out: file reading, the header line and
  `numpy.genfromtxt`. The detectors take the list, or the two columns, as a
  parameter.
- The `__main__` blocks (argument parsing, `print`) are left out. They only
  do I/O.
- `strptime` is more lenient than the model. `AmPmToMinutes` accepts the
  canonical text `minutes_to_ampm` writes, which is what `H:MMam|pm` input
  looks like. `strptime` also accepts leading zeros ("09:00am"), one-digit
  minutes and upper-case "AM"/"PM", and the model rejects all of those.
- Clock.MinutesToAmPm: defined for every integer, as in the source, but its
  properties are stated for minutes of the day (0..1439) only.
- The business-day filter in `test_report.py:36-47` and `59-66` is left
  out. It belongs to an `OverlappingTimesReport` class that is not part of
  this model. Both `report.py` and `report_numpy.py` define free functions
  with no such filter.
- Generators are modelled as the whole sequence they produce (`yield` order
  kept). Laziness is not modelled.
- Python's `sorted` on (start, end) tuples orders by start and then by end,
  and the model sorts the same way (`LexLe`). It is not a stable sort on the
  start alone.
- ReportNumpy.GetOverlappingTimes: requires the two columns to have the same
  length, as they do when both come from one file. NumPy's broadcasting of
  columns of unequal length is not modelled. numpy integer widths are not
  modelled either: values are unbounded integers.
- ReportNumpy.SweepAgreement: stated for input already in (start, end) order
  whose intervals are non-empty. It is not stated for input sorted by start
  alone, where ties in the start may be ordered differently. The matrix
  detector puts the later interval first and lists pairs by the later index.
  The sweep puts the earlier interval first and lists pairs by the earlier
  index. So the agreement is stated as membership with the two members
  swapped, not as equality of the lists.
- `minutes_to_ampm`, `ampm_to_minutes` and `format_overlapping_times` of
  `report_numpy.py` (lines 6-19 and 37-41) are the same text as in
  `report.py`. They are modelled once, in `Clock` and `Report`.
