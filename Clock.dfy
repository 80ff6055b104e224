/** Conversion between minutes since midnight and 12-hour clock text
    such as "9:05am" (report.py:5-18, repeated verbatim in report_numpy.py:6-19). */
module Clock {
  import opened Wrappers

  const MinutesPerDay := 1440
  const Noon := 720

  predicate IsDigit(c: char) {
    '0' <= c <= '9'
  }

  function Digit(d: nat): (c: char)
    requires d < 10
    ensures IsDigit(c) && DigitValue(c) == d
  {
    ('0' as int + d) as char
  }

  function DigitValue(c: char): nat
    requires IsDigit(c)
  {
    c as int - '0' as int
  }

  /** Python's `str` of a non-negative integer: decimal, no leading zeros. */
  function NatToDecimal(n: nat): (r: string)
    ensures |r| >= 1
    ensures forall k :: 0 <= k < |r| ==> IsDigit(r[k])
    ensures n < 10 <==> |r| == 1
    ensures n >= 10 ==> r[0] != '0'
    decreases n
  {
    if n < 10 then [Digit(n)] else NatToDecimal(n / 10) + [Digit(n % 10)]
  }

  /** Python's `str` of any integer. */
  function IntToDecimal(i: int): string {
    if i < 0 then "-" + NatToDecimal(-i) else NatToDecimal(i)
  }

  /** The format `{m:02}` for a value below 100. */
  function TwoDigits(m: nat): (r: string)
    requires m < 100
    ensures |r| == 2 && IsDigit(r[0]) && IsDigit(r[1])
    ensures 10 * DigitValue(r[0]) + DigitValue(r[1]) == m
  {
    [Digit(m / 10), Digit(m % 10)]
  }

  /** `minutes_to_ampm`. Python's `//` and `%` by the positive 60 agree with
      Dafny's Euclidean ones for every integer, so the arithmetic is the source's
      for all inputs, outside the day included. */
  function MinutesToAmPm(m: int): (r: string)
    ensures 0 <= m < MinutesPerDay ==>
      1 <= ClockHour(m) <= 12
      && r == NatToDecimal(ClockHour(m)) + ":" + TwoDigits(m % 60) + (if m < Noon then "am" else "pm")
  {
    var h := m / 60;
    var mm := m % 60;
    var ampm := if h < 12 then "am" else "pm";
    var h12 := if h == 0 then 12 else if h > 12 then h - 12 else h;
    assert 0 <= m < MinutesPerDay ==> 0 <= h < 24 && (h < 12 <==> m < Noon) && h12 == ClockHour(m) by {
      assert h * 60 <= m < h * 60 + 60;
    }
    IntToDecimal(h12) + ":" + TwoDigits(mm) + ampm
  }

  /** The clock hour shown for a minute of the day, stated independently of the
      branches in MinutesToAmPm: the hour of the day modulo 12, with 0 read as 12. */
  function ClockHour(m: int): int
    requires 0 <= m < MinutesPerDay
  {
    var h := (m / 60) % 12;
    if h == 0 then 12 else h
  }

  /** An hour 1..12 is written with one or two digits. */
  lemma HourWidth(h: nat)
    requires 1 <= h <= 12
    ensures |NatToDecimal(h)| == 1 || |NatToDecimal(h)| == 2
  {
    if h >= 10 {
      assert NatToDecimal(h) == NatToDecimal(h / 10) + [Digit(h % 10)];
    }
  }

  /** Cutting a text made of a head, one character, two and two. */
  lemma SplitText(a: string, b: string, c: string, d: string)
    requires |b| == 1 && |c| == 2 && |d| == 2
    ensures var s := a + b + c + d;
      s[..|s| - 5] == a && s[|s| - 5] == b[0] && s[|s| - 4..|s| - 2] == c && s[|s| - 2..] == d
  {
  }

  /** For a minute of the day the text is: the hour 1..12 without padding,
      ':', the minute as two digits, and "am" exactly before noon. */
  lemma MinutesToAmPmFields(m: int)
    requires 0 <= m < MinutesPerDay
    ensures 1 <= ClockHour(m) <= 12
    ensures var s := MinutesToAmPm(m);
      (|s| == 6 || |s| == 7)
      && s[..|s| - 5] == NatToDecimal(ClockHour(m))
      && s[|s| - 5] == ':'
      && s[|s| - 4..|s| - 2] == TwoDigits(m % 60)
      && s[|s| - 2..] == (if m < Noon then "am" else "pm")
  {
    HourWidth(ClockHour(m));
    SplitText(NatToDecimal(ClockHour(m)), ":", TwoDigits(m % 60), if m < Noon then "am" else "pm");
  }

  /** The hour field of the canonical form: "1".."9", "10", "11" or "12",
      which must be followed by ':'. Returns the hour and the text from ':' on. */
  function ParseHour(s: string): (r: Option<(nat, string)>)
    ensures r.Some? ==> 1 <= r.value.0 <= 12 && |r.value.1| < |s|
  {
    if |s| >= 2 && '1' <= s[0] <= '9' && s[1] == ':' then
      Some((DigitValue(s[0]), s[1..]))
    else if |s| >= 3 && s[0] == '1' && '0' <= s[1] <= '2' && s[2] == ':' then
      Some((10 + DigitValue(s[1]), s[2..]))
    else
      None
  }

  /** Reads one canonical clock text `H:MMam` or `H:MMpm` at the front of `s`
      and returns its minute of the day and what follows it. The hour 12 means
      0 with "am" and 12 with "pm", every other hour h means h or h + 12, as
      `strptime` with "%I:%M%p" computes. */
  function ParseClock(s: string): (r: Option<(int, string)>)
    ensures r.Some? ==> 0 <= r.value.0 < MinutesPerDay
    ensures r.Some? ==> |r.value.1| < |s| && s[|s| - |r.value.1|..] == r.value.1
  {
    match ParseHour(s)
    case None => None
    case Some((h, rest)) =>
      if |rest| >= 5 && rest[0] == ':' && '0' <= rest[1] <= '5' && IsDigit(rest[2])
         && (rest[3..5] == "am" || rest[3..5] == "pm")
      then
        var mm := 10 * DigitValue(rest[1]) + DigitValue(rest[2]);
        var hour := (if h == 12 then 0 else h) + (if rest[3..5] == "pm" then 12 else 0);
        Some((hour * 60 + mm, rest[5..]))
      else
        None
  }

  /** `ampm_to_minutes`: the whole text must be one canonical clock text;
      None stands for the ValueError `strptime` raises. */
  function AmPmToMinutes(s: string): (r: Option<int>)
    ensures r.Some? ==> 0 <= r.value < MinutesPerDay
  {
    match ParseClock(s)
    case None => None
    case Some((m, rest)) => if rest == [] then Some(m) else None
  }

  /** The hour field reads back the hour MinutesToAmPm writes. */
  lemma ParseHourOf(h: nat, tail: string)
    requires 1 <= h <= 12 && |tail| >= 1 && tail[0] == ':'
    ensures ParseHour(NatToDecimal(h) + tail) == Some((h, tail))
  {
    if h >= 10 {
      assert NatToDecimal(h) == NatToDecimal(h / 10) + [Digit(h % 10)];
      assert NatToDecimal(h / 10) == [Digit(1)];
    }
  }

  /** What the hour field reads is the decimal text of its hour. */
  lemma ParseHourText(s: string)
    requires ParseHour(s).Some?
    ensures s == NatToDecimal(ParseHour(s).value.0) + ParseHour(s).value.1
  {
    var (h, after) := ParseHour(s).value;
    if h < 10 {
      assert s == [s[0]] + after;
      assert [s[0]] == [Digit(h)];
    } else {
      assert s == [s[0], s[1]] + after;
      assert NatToDecimal(h) == NatToDecimal(h / 10) + [Digit(h % 10)];
      assert NatToDecimal(h / 10) == [Digit(1)] == [s[0]];
    }
  }

  /** Two digit characters are the two-digit text of their value. */
  lemma TwoDigitsText(c: string)
    requires |c| == 2 && '0' <= c[0] <= '5' && IsDigit(c[1])
    ensures 10 * DigitValue(c[0]) + DigitValue(c[1]) < 60
    ensures TwoDigits(10 * DigitValue(c[0]) + DigitValue(c[1])) == c
  {
  }

  /** The minute of the day of a 12-hour clock hour, a minute and a half of
      the day, and the fields MinutesToAmPm writes for it. */
  lemma ClockFields(h: nat, mm: nat, pm: bool)
    requires 1 <= h <= 12 && mm < 60
    ensures var m := ((if h == 12 then 0 else h) + (if pm then 12 else 0)) * 60 + mm;
      0 <= m < MinutesPerDay && ClockHour(m) == h && m % 60 == mm && (m < Noon <==> !pm)
  {
    var hour := (if h == 12 then 0 else h) + (if pm then 12 else 0);
    var m := hour * 60 + mm;
    assert m / 60 == hour && m % 60 == mm;
  }

  /** Every minute of the day is the value of its own fields. */
  lemma ClockValue(m: int)
    requires 0 <= m < MinutesPerDay
    ensures 1 <= ClockHour(m) <= 12
    ensures ((if ClockHour(m) == 12 then 0 else ClockHour(m)) + (if m < Noon then 0 else 12)) * 60 + m % 60 == m
  {
    var h := m / 60;
    assert m == h * 60 + m % 60;
    assert 0 <= h < 24;
  }

  /** Reading back the text of a minute of the day, followed by anything,
      gives that minute and leaves the rest untouched. */
  lemma ParseClockOfFormat(m: int, rest: string)
    requires 0 <= m < MinutesPerDay
    ensures ParseClock(MinutesToAmPm(m) + rest) == Some((m, rest))
  {
    ClockValue(m);
    var h := ClockHour(m);
    var td := TwoDigits(m % 60);
    var ap := if m < Noon then "am" else "pm";
    var tail := ":" + td + ap + rest;
    Disassemble(NatToDecimal(h), td, ap, rest);
    ParseHourOf(h, tail);
    assert '0' <= td[0] <= '5' by {
      assert m % 60 / 10 <= 5;
    }
  }

  /** The pieces of a clock text followed by the rest, read back by position. */
  lemma Disassemble(hd: string, td: string, ap: string, rest: string)
    requires |td| == 2 && |ap| == 2
    ensures var tail := ":" + td + ap + rest;
      hd + ":" + td + ap + rest == hd + tail
      && |tail| >= 5 && tail[0] == ':' && tail[1] == td[0] && tail[2] == td[1]
      && tail[3..5] == ap && tail[5..] == rest
  {
    var tail := ":" + td + ap + rest;
    assert tail[3..5] == ap && tail[5..] == rest;
  }

  /** Every clock text the parser accepts is exactly the text MinutesToAmPm
      writes for its value: the parser reads canonical texts only. */
  lemma FormatOfParseClock(s: string)
    requires ParseClock(s).Some?
    ensures var (m, rest) := ParseClock(s).value;
      s == MinutesToAmPm(m) + rest
  {
    var (m, rest) := ParseClock(s).value;
    var (h, after) := ParseHour(s).value;
    ParseHourText(s);
    var td := after[1..3];
    var ap := after[3..5];
    TwoDigitsText(td);
    var mm := 10 * DigitValue(td[0]) + DigitValue(td[1]);
    var hour := (if h == 12 then 0 else h) + (if ap == "pm" then 12 else 0);
    assert m == hour * 60 + mm && rest == after[5..];
    ClockFields(h, mm, ap == "pm");
    assert ClockHour(m) == h && TwoDigits(m % 60) == td;
    assert ap == (if m < Noon then "am" else "pm");
    assert after[..1] == ":";
    Assemble(NatToDecimal(h), after, rest);
  }

  /** A text cut into an hour field, ':', two digits, a suffix and the rest
      is the concatenation of those pieces. */
  lemma Assemble(hd: string, after: string, rest: string)
    requires |after| >= 5 && after[..1] == ":" && rest == after[5..]
    ensures hd + after == (hd + ":" + after[1..3] + after[3..5]) + rest
  {
    assert after == after[..1] + after[1..3] + after[3..5] + after[5..];
  }

  /** Round trip of the test table: parsing the text of m gives m back. */
  lemma AmPmRoundTrip(m: int)
    requires 0 <= m < MinutesPerDay
    ensures AmPmToMinutes(MinutesToAmPm(m)) == Some(m)
  {
    ParseClockOfFormat(m, []);
    assert MinutesToAmPm(m) + [] == MinutesToAmPm(m);
  }

  /** The other direction: an accepted text is the text of its value. */
  lemma MinutesRoundTrip(s: string)
    requires AmPmToMinutes(s).Some?
    ensures MinutesToAmPm(AmPmToMinutes(s).value) == s
  {
    FormatOfParseClock(s);
  }

  /** The rows of the conversion test table, one lemma each. */
  lemma ExampleMidnight()
    ensures MinutesToAmPm(0) == "12:00am" && AmPmToMinutes("12:00am") == Some(0)
  {
    assert ClockHour(0) == 12;
    assert NatToDecimal(12) == "12";
    assert TwoDigits(0) == "00";
    AmPmRoundTrip(0);
  }

  lemma ExampleNoon()
    ensures MinutesToAmPm(720) == "12:00pm" && AmPmToMinutes("12:00pm") == Some(720)
  {
    assert ClockHour(720) == 12;
    assert NatToDecimal(12) == "12";
    assert TwoDigits(0) == "00";
    AmPmRoundTrip(720);
  }

  lemma ExampleNineAm()
    ensures MinutesToAmPm(540) == "9:00am" && AmPmToMinutes("9:00am") == Some(540)
  {
    assert ClockHour(540) == 9;
    assert NatToDecimal(9) == "9";
    assert TwoDigits(0) == "00";
    AmPmRoundTrip(540);
  }

  lemma ExampleNinePm()
    ensures MinutesToAmPm(1260) == "9:00pm" && AmPmToMinutes("9:00pm") == Some(1260)
  {
    assert ClockHour(1260) == 9;
    assert NatToDecimal(9) == "9";
    assert TwoDigits(0) == "00";
    AmPmRoundTrip(1260);
  }

  lemma ExampleOneAfterMidnight()
    ensures MinutesToAmPm(1) == "12:01am" && AmPmToMinutes("12:01am") == Some(1)
  {
    assert ClockHour(1) == 12;
    assert NatToDecimal(12) == "12";
    assert TwoDigits(1) == "01";
    AmPmRoundTrip(1);
  }

  lemma ExampleOneToOnePm()
    ensures MinutesToAmPm(779) == "12:59pm" && AmPmToMinutes("12:59pm") == Some(779)
  {
    assert ClockHour(779) == 12;
    assert NatToDecimal(12) == "12";
    assert TwoDigits(59) == "59";
    AmPmRoundTrip(779);
  }

  lemma ExampleHalfPastNine()
    ensures MinutesToAmPm(570) == "9:30am" && AmPmToMinutes("9:30am") == Some(570)
  {
    assert ClockHour(570) == 9;
    assert NatToDecimal(9) == "9";
    assert TwoDigits(30) == "30";
    AmPmRoundTrip(570);
  }
}
