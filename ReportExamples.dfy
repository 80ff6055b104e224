/** The fixed cases of test_report.py, stated about the model. */
module ReportExamples {
  import opened Intervals
  import opened Report
  import Clock

  const ScenarioInput := [Interval(5, 10), Interval(1, 2), Interval(3, 6),
                          Interval(6, 7), Interval(7, 12), Interval(15, 20)]
  const ScenarioSorted := [Interval(1, 2), Interval(3, 6), Interval(5, 10),
                           Interval(6, 7), Interval(7, 12), Interval(15, 20)]

  /** A single interval overlaps nothing. */
  lemma SingleExample()
    ensures OverlappingTimes([Interval(0, 1)]) == []
  {
    OverlappingTimesShape([Interval(0, 1)]);
  }

  const Touching := [Interval(1, 2), Interval(2, 3), Interval(3, 4)]

  lemma TouchingSweep()
    ensures SweepRows(Touching, 0) == []
  {
    var s := Touching;
    assert SweepRow(s, 2, 3) == [];
    assert SweepRow(s, 1, 2) == [];
    assert SweepRow(s, 0, 1) == [];
  }

  /** Intervals that only touch at their ends are not reported. */
  lemma TouchingExample()
    ensures OverlappingTimes(Touching) == []
  {
    assert LexSorted(Touching);
    SortedCopyCharacterized(Touching, Touching);
    TouchingSweep();
  }

  lemma ScenarioSortedIsSorted()
    ensures LexSorted(ScenarioSorted)
  {
  }

  lemma ScenarioSamePermutation()
    ensures multiset(ScenarioInput) == multiset(ScenarioSorted)
  {
  }

  lemma ScenarioSorts()
    ensures SortedCopy(ScenarioInput) == ScenarioSorted
  {
    ScenarioSortedIsSorted();
    ScenarioSamePermutation();
    SortedCopyCharacterized(ScenarioInput, ScenarioSorted);
  }

  lemma ScenarioRow0()
    ensures SweepRow(ScenarioSorted, 0, 1) == []
  {
  }

  lemma ScenarioRow1()
    ensures SweepRow(ScenarioSorted, 1, 2) == [(Interval(3, 6), Interval(5, 10))]
  {
  }

  lemma ScenarioRow2()
    ensures SweepRow(ScenarioSorted, 2, 3)
         == [(Interval(5, 10), Interval(6, 7)), (Interval(5, 10), Interval(7, 12))]
  {
  }

  lemma ScenarioRowsFrom3()
    ensures SweepRows(ScenarioSorted, 3) == []
  {
  }

  const ScenarioOverlaps := [(Interval(3, 6), Interval(5, 10)), (Interval(5, 10), Interval(6, 7)),
                             (Interval(5, 10), Interval(7, 12))]

  lemma ScenarioSweep()
    ensures SweepRows(ScenarioSorted, 0) == ScenarioOverlaps
  {
    ScenarioRow0();
    ScenarioRow1();
    ScenarioRow2();
    ScenarioRowsFrom3();
    var s := ScenarioSorted;
    assert SweepRows(s, 0) == SweepRow(s, 0, 1) + (SweepRow(s, 1, 2) + (SweepRow(s, 2, 3) + SweepRows(s, 3)));
  }

  /** The six-interval case: exactly three overlaps, in sweep order. */
  lemma ScenarioExample()
    ensures OverlappingTimes(ScenarioInput) == ScenarioOverlaps
  {
    ScenarioSorts();
    ScenarioSweep();
  }

  /** No pairs, no lines. */
  lemma FormatEmptyExample()
    ensures FormatOverlappingTimes([]) == []
  {
  }

  lemma TenAm()
    ensures Clock.MinutesToAmPm(600) == "10:00am"
  {
    assert Clock.ClockHour(600) == 10;
    assert Clock.NatToDecimal(10) == "10";
    assert Clock.TwoDigits(0) == "00";
  }

  lemma HalfPastTenAm()
    ensures Clock.MinutesToAmPm(630) == "10:30am"
  {
    assert Clock.ClockHour(630) == 10;
    assert Clock.NatToDecimal(10) == "10";
    assert Clock.TwoDigits(30) == "30";
  }

  lemma TwelveAm(m: int, t: string)
    requires 0 <= m < 10 && t == "12:0" + [Clock.Digit(m)] + "am"
    ensures Clock.MinutesToAmPm(m) == t
  {
    assert Clock.NatToDecimal(12) == "12";
  }

  lemma TenAfterMidnight()
    ensures Clock.MinutesToAmPm(10) == "12:10am"
  {
    assert Clock.NatToDecimal(12) == "12";
    assert Clock.TwoDigits(10) == "10";
  }

  /** The text of an interval, from the clock texts of its two ends. */
  lemma BracketIs(a: Interval, x: string, y: string, t: string)
    requires Clock.MinutesToAmPm(a.start) == x && Clock.MinutesToAmPm(a.end) == y
    requires "(" + x + " - " + y + ")" == t
    ensures Bracket(a) == t
  {
  }

  /** The line of a pair, from the texts of its two intervals. */
  lemma LineIs(p: Pair, x: string, y: string, t: string)
    requires Bracket(p.0) == x && Bracket(p.1) == y
    requires x + " and " + y == t
    ensures FormatLine(p) == t
  {
  }

  // The *Join lemmas below state that the string literals of a report line
  // concatenate to the whole line. Each stands alone so that the solver
  // evaluates the concatenation once, apart from the clock texts; stated
  // inside the line lemmas the two evaluations together cost far more.

  lemma NineToTenJoin()
    ensures "(" + "9:00am" + " - " + "10:00am" + ")" == "(9:00am - 10:00am)"
  {
  }

  lemma HalfPastJoin()
    ensures "(" + "9:30am" + " - " + "10:30am" + ")" == "(9:30am - 10:30am)"
  {
  }

  lemma NineToTen()
    ensures Bracket(Interval(540, 600)) == "(9:00am - 10:00am)"
  {
    Clock.ExampleNineAm();
    TenAm();
    NineToTenJoin();
    BracketIs(Interval(540, 600), "9:00am", "10:00am", "(9:00am - 10:00am)");
  }

  lemma HalfPastNineToHalfPastTen()
    ensures Bracket(Interval(570, 630)) == "(9:30am - 10:30am)"
  {
    Clock.ExampleHalfPastNine();
    HalfPastTenAm();
    HalfPastJoin();
    BracketIs(Interval(570, 630), "9:30am", "10:30am", "(9:30am - 10:30am)");
  }

  lemma NineJoin()
    ensures "(9:00am - 10:00am)" + " and " + "(9:30am - 10:30am)"
         == "(9:00am - 10:00am) and (9:30am - 10:30am)"
  {
  }

  lemma NineLine()
    ensures FormatLine((Interval(540, 600), Interval(570, 630)))
         == "(9:00am - 10:00am) and (9:30am - 10:30am)"
  {
    NineToTen();
    HalfPastNineToHalfPastTen();
    NineJoin();
    LineIs((Interval(540, 600), Interval(570, 630)), "(9:00am - 10:00am)", "(9:30am - 10:30am)",
      "(9:00am - 10:00am) and (9:30am - 10:30am)");
  }

  /** One pair gives one line in the report's wording. */
  lemma FormatOneExample()
    ensures FormatOverlappingTimes([(Interval(540, 600), Interval(570, 630))])
         == ["(9:00am - 10:00am) and (9:30am - 10:30am)"]
  {
    NineLine();
    var r := FormatOverlappingTimes([(Interval(540, 600), Interval(570, 630))]);
    assert |r| == 1 && r[0] == "(9:00am - 10:00am) and (9:30am - 10:30am)";
  }

  lemma MidnightBrackets()
    ensures Bracket(Interval(0, 2)) == "(12:00am - 12:02am)"
    ensures Bracket(Interval(1, 3)) == "(12:01am - 12:03am)"
  {
    TwelveAm(0, "12:00am");
    TwelveAm(1, "12:01am");
    TwelveAm(2, "12:02am");
    TwelveAm(3, "12:03am");
    MidnightBracketJoins();
    BracketIs(Interval(0, 2), "12:00am", "12:02am", "(12:00am - 12:02am)");
    BracketIs(Interval(1, 3), "12:01am", "12:03am", "(12:01am - 12:03am)");
  }

  lemma MidnightBracketJoins()
    ensures "(" + "12:00am" + " - " + "12:02am" + ")" == "(12:00am - 12:02am)"
    ensures "(" + "12:01am" + " - " + "12:03am" + ")" == "(12:01am - 12:03am)"
  {
  }

  lemma MidnightJoin()
    ensures "(12:00am - 12:02am)" + " and " + "(12:01am - 12:03am)"
         == "(12:00am - 12:02am) and (12:01am - 12:03am)"
  {
  }

  lemma MidnightLine()
    ensures FormatLine((Interval(0, 2), Interval(1, 3)))
         == "(12:00am - 12:02am) and (12:01am - 12:03am)"
  {
    MidnightBrackets();
    MidnightJoin();
    LineIs((Interval(0, 2), Interval(1, 3)), "(12:00am - 12:02am)", "(12:01am - 12:03am)",
      "(12:00am - 12:02am) and (12:01am - 12:03am)");
  }

  lemma FiveBrackets()
    ensures Bracket(Interval(5, 10)) == "(12:05am - 12:10am)"
    ensures Bracket(Interval(6, 7)) == "(12:06am - 12:07am)"
  {
    TwelveAm(5, "12:05am");
    TwelveAm(6, "12:06am");
    TwelveAm(7, "12:07am");
    TenAfterMidnight();
    FiveBracketJoins();
    BracketIs(Interval(5, 10), "12:05am", "12:10am", "(12:05am - 12:10am)");
    BracketIs(Interval(6, 7), "12:06am", "12:07am", "(12:06am - 12:07am)");
  }

  lemma FiveBracketJoins()
    ensures "(" + "12:05am" + " - " + "12:10am" + ")" == "(12:05am - 12:10am)"
    ensures "(" + "12:06am" + " - " + "12:07am" + ")" == "(12:06am - 12:07am)"
  {
  }

  lemma FiveJoin()
    ensures "(12:05am - 12:10am)" + " and " + "(12:06am - 12:07am)"
         == "(12:05am - 12:10am) and (12:06am - 12:07am)"
  {
  }

  lemma FiveLine()
    ensures FormatLine((Interval(5, 10), Interval(6, 7)))
         == "(12:05am - 12:10am) and (12:06am - 12:07am)"
  {
    FiveBrackets();
    FiveJoin();
    LineIs((Interval(5, 10), Interval(6, 7)), "(12:05am - 12:10am)", "(12:06am - 12:07am)",
      "(12:05am - 12:10am) and (12:06am - 12:07am)");
  }

  /** Two pairs give two lines, in order. */
  lemma FormatTwoExample()
    ensures FormatOverlappingTimes([(Interval(0, 2), Interval(1, 3)), (Interval(5, 10), Interval(6, 7))])
         == ["(12:00am - 12:02am) and (12:01am - 12:03am)",
             "(12:05am - 12:10am) and (12:06am - 12:07am)"]
  {
    MidnightLine();
    FiveLine();
    ReportOfTwo((Interval(0, 2), Interval(1, 3)), (Interval(5, 10), Interval(6, 7)),
      "(12:00am - 12:02am) and (12:01am - 12:03am)", "(12:05am - 12:10am) and (12:06am - 12:07am)");
  }

  /** The report of two pairs, from their two lines. */
  lemma ReportOfTwo(p: Pair, q: Pair, x: string, y: string)
    requires FormatLine(p) == x && FormatLine(q) == y
    ensures FormatOverlappingTimes([p, q]) == [x, y]
  {
    var r := FormatOverlappingTimes([p, q]);
    assert |r| == 2 && r[0] == x && r[1] == y;
  }
}
