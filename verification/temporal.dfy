/** Calendar arithmetic on epoch seconds in UTC, as pandas' `to_datetime(...,
    unit='s')` and its `.dt` accessors compute it. Division is floor
    division, so instants before 1970 land on the right day too. */
module Temporal {
  import opened Wrappers
  import opened Tables
  import Text

  const SecondsPerDay := 86400

  /** Days since 1970-01-01 of the day holding instant `t`. */
  function DayNumber(t: int): (d: int)
    ensures d * SecondsPerDay <= t < d * SecondsPerDay + SecondsPerDay
  {
    t / SecondsPerDay
  }

  /** Seconds since midnight of instant `t`. */
  function SecondOfDay(t: int): (s: nat)
    ensures s < SecondsPerDay
    ensures t == DayNumber(t) * SecondsPerDay + s
  {
    t % SecondsPerDay
  }

  /** `.dt.dayofweek`: Monday is 0; 1970-01-01 was a Thursday (3). */
  function WeekdayIndex(t: int): (w: nat)
    ensures w < 7
    ensures w == (DayNumber(t) + 3) % 7
  {
    (t / SecondsPerDay + 3) % 7
  }

  /** Counting on by one wraps the same way before and after `% 7`. */
  lemma ModSevenSucc(a: int)
    ensures (a + 1) % 7 == (a % 7 + 1) % 7
    ensures (a + 7) % 7 == a % 7
  {
    var q, m := a / 7, a % 7;
    assert a == 7 * q + m;
    if m == 6 {
      assert a + 1 == 7 * (q + 1);
    } else {
      assert a + 1 == 7 * q + (m + 1);
    }
    assert a + 7 == 7 * (q + 1) + m;
  }

  /** The epoch is a Thursday, and a day later is the next weekday. */
  lemma WeekdayAdvances(t: int)
    ensures WeekdayIndex(0) == 3
    ensures WeekdayIndex(t + SecondsPerDay) == (WeekdayIndex(t) + 1) % 7
    ensures WeekdayIndex(t + 7 * SecondsPerDay) == WeekdayIndex(t)
  {
    var d := DayNumber(t);
    assert DayNumber(t + SecondsPerDay) == d + 1;
    assert DayNumber(t + 7 * SecondsPerDay) == d + 7;
    ModSevenSucc(d + 3);
  }

  const DayNames: seq<string> :=
    ["Monday", "Tuesday", "Wednesday", "Thursday", "Friday", "Saturday", "Sunday"]

  /** `.dt.day_name()`. */
  function DayName(w: nat): (r: string)
    requires w < 7
    ensures |r| > 0 && 'A' <= r[0] <= 'Z'
  {
    DayNames[w]
  }

  /** `dayofweek < 5`: Monday to Friday. */
  predicate IsWorkday(t: int) {
    WeekdayIndex(t) < 5
  }

  /** Two-digit zero-padded rendering. */
  function Pad2(n: nat): (r: string)
    requires n < 100
    ensures |r| == 2 && Text.IsDigit(r[0]) && Text.IsDigit(r[1])
  {
    [Text.DigitChar(n / 10), Text.DigitChar(n % 10)]
  }

  /** `strftime('%H:%M:%S')` of a second of the day. */
  function FormatClock(s: nat): (r: string)
    requires s < SecondsPerDay
    ensures |r| == 8 && r[2] == ':' && r[5] == ':'
  {
    Pad2(s / 3600) + ":" + Pad2(s / 60 % 60) + ":" + Pad2(s % 60)
  }

  function TwoDigits(a: char, b: char): nat
    requires Text.IsDigit(a) && Text.IsDigit(b)
  {
    10 * Text.DigitValue(a) + Text.DigitValue(b)
  }

  /** Reads `HH:MM:SS` back into a second of the day; anything else, or an
      hour, minute or second out of range, is NaT. */
  function ParseClock(x: string): (r: Option<nat>)
    ensures r.Some? ==> r.value < SecondsPerDay
  {
    if |x| == 8 && x[2] == ':' && x[5] == ':'
       && Text.IsDigit(x[0]) && Text.IsDigit(x[1]) && Text.IsDigit(x[3])
       && Text.IsDigit(x[4]) && Text.IsDigit(x[6]) && Text.IsDigit(x[7])
    then
      var h := TwoDigits(x[0], x[1]);
      var m := TwoDigits(x[3], x[4]);
      var s := TwoDigits(x[6], x[7]);
      if h < 24 && m < 60 && s < 60 then Some(h * 3600 + m * 60 + s) else None
    else None
  }

  lemma Pad2Value(n: nat)
    requires n < 100
    ensures TwoDigits(Pad2(n)[0], Pad2(n)[1]) == n
  {
  }

  /** A second of the day splits into hours, minutes and seconds in range. */
  lemma ClockParts(s: nat)
    requires s < SecondsPerDay
    ensures s / 3600 < 24 && s / 60 % 60 < 60 && s % 60 < 60
    ensures s / 3600 * 3600 + s / 60 % 60 * 60 + s % 60 == s
  {
    var q := s / 60;
    assert s == q * 60 + s % 60;
    assert q == q / 60 * 60 + q % 60;
    assert q / 60 == s / 3600;
  }

  /** The parts of a clock determine the second of the day. */
  lemma ClockPartsUnique(h: nat, m: nat, sec: nat)
    requires h < 24 && m < 60 && sec < 60
    ensures var s := h * 3600 + m * 60 + sec;
      s < SecondsPerDay && s / 3600 == h && s / 60 % 60 == m && s % 60 == sec
  {
    var s := h * 3600 + m * 60 + sec;
    assert s / 60 == h * 60 + m;
    assert (h * 60 + m) % 60 == m;
  }

  /** What `ParseClock` reads from a string built of three padded parts. */
  lemma ParseClockOf(h: nat, m: nat, sec: nat)
    requires h < 100 && m < 100 && sec < 100
    ensures ParseClock(Pad2(h) + ":" + Pad2(m) + ":" + Pad2(sec)) ==
      if h < 24 && m < 60 && sec < 60 then Some(h * 3600 + m * 60 + sec) else None
  {
    var x := Pad2(h) + ":" + Pad2(m) + ":" + Pad2(sec);
    assert x[0] == Pad2(h)[0] && x[1] == Pad2(h)[1];
    assert x[3] == Pad2(m)[0] && x[4] == Pad2(m)[1];
    assert x[6] == Pad2(sec)[0] && x[7] == Pad2(sec)[1];
    Pad2Value(h);
    Pad2Value(m);
    Pad2Value(sec);
  }

  /** Reading back a rendered clock gives the second of the day. */
  lemma ParseFormatClock(s: nat)
    requires s < SecondsPerDay
    ensures ParseClock(FormatClock(s)) == Some(s)
  {
    ClockParts(s);
    ParseClockOf(s / 3600, s / 60 % 60, s % 60);
  }

  /** A clock that reads back renders to the same text, so the rendering is
      exactly the set of valid `HH:MM:SS` strings. */
  lemma FormatParseClock(x: string)
    requires ParseClock(x).Some?
    ensures FormatClock(ParseClock(x).value) == x
  {
    var h := TwoDigits(x[0], x[1]);
    var m := TwoDigits(x[3], x[4]);
    var sec := TwoDigits(x[6], x[7]);
    ClockPartsUnique(h, m, sec);
    PadOfDigits(x[0], x[1]);
    PadOfDigits(x[3], x[4]);
    PadOfDigits(x[6], x[7]);
    assert x == [x[0], x[1]] + ":" + [x[3], x[4]] + ":" + [x[6], x[7]];
  }

  lemma PadOfDigits(a: char, b: char)
    requires Text.IsDigit(a) && Text.IsDigit(b)
    ensures TwoDigits(a, b) < 100 && Pad2(TwoDigits(a, b)) == [a, b]
  {
    var n := TwoDigits(a, b);
    assert n / 10 == Text.DigitValue(a) && n % 10 == Text.DigitValue(b);
  }

  /** `pd.to_datetime(cell, unit='s')`: numbers become an instant (fractional
      seconds cut to the second below), an instant stays, the rest is NaT. */
  function EpochOf(c: Cell): (r: Option<int>)
    ensures c.Some? && c.value.Int? ==> r == Some(c.value.i)
    ensures c.None? ==> r.None?
  {
    match c
    case Some(Int(t)) => Some(t)
    case Some(Float(x)) => Some(x.Floor)
    case Some(Instant(t)) => Some(t)
    case _ => None
  }

  /** The cells derived from one instant (NaN for NaT). */
  function InstantCell(e: Option<int>): Cell {
    match e case Some(t) => Some(Instant(t)) case None => None
  }

  /** Reading the instant back gives the epoch it was built from. */
  lemma EpochOfInstant(e: Option<int>)
    ensures EpochOf(InstantCell(e)) == e
  {
  }

  function DateCell(e: Option<int>): (r: Cell)
    ensures e.Some? ==> r == Some(CalendarDate(DayNumber(e.value)))
    ensures e.None? ==> r.None?
  {
    match e case Some(t) => Some(CalendarDate(DayNumber(t))) case None => None
  }

  /** `strftime('%H:%M:%S')` of the instant. */
  function ClockCell(e: Option<int>): (r: Cell)
    ensures e.Some? ==> r.Some? && r.value.Str? && ParseClock(r.value.s) == Some(SecondOfDay(e.value))
    ensures e.None? ==> r.None?
  {
    match e
    case Some(t) =>
      ParseFormatClock(SecondOfDay(t));
      Some(Str(FormatClock(SecondOfDay(t))))
    case None => None
  }

  /** `.dt.time` of the instant: the time-of-day object of its second of
      the day, the one its `%H:%M:%S` text reads back as. */
  function TimeObjectCell(e: Option<int>): (r: Cell)
    ensures e.Some? ==> r.Some? && r.value.Clock? && ParseClock(ClockCell(e).value.s) == Some(r.value.second)
    ensures e.Some? ==> r.value.second < SecondsPerDay
    ensures e.None? ==> r.None?
  {
    match e case Some(t) => Some(Clock(SecondOfDay(t))) case None => None
  }

  /** `.dt.day_name()` of the instant. */
  function DayNameCell(e: Option<int>): (r: Cell)
    ensures e.Some? ==> r == Some(Str(DayNames[WeekdayIndex(e.value)]))
    ensures e.None? ==> r.None?
  {
    match e case Some(t) => Some(Str(DayName(WeekdayIndex(t)))) case None => None
  }

  /** `.dt.dayofweek.apply(lambda x: x < 5)`: NaT gives NaN, and `NaN < 5`
      is False, so an absent instant is not a workday. */
  function WorkdayCell(e: Option<int>): (r: Cell)
    ensures r.Some? && r.value.Bool?
    ensures r.value.b <==> e.Some? && WeekdayIndex(e.value) < 5
  {
    match e case Some(t) => Some(Bool(IsWorkday(t))) case None => Some(Bool(false))
  }
}
