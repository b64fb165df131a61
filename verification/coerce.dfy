/** The dtype casts and the final coercions before the database insert:
    the coercing numeric parse with NaN filled by zero, in its integer and
    float forms, the text rendering, and the `'string'` and `'bool'` casts. */
module Coerce {
  import opened Wrappers
  import opened Tables
  import Text
  import Temporal

  /** `astype(int)` of a float: truncation toward zero. */
  function Truncate(x: real): (r: int)
    ensures 0.0 <= x ==> r as real <= x < r as real + 1.0
    ensures x < 0.0 ==> r as real - 1.0 < x <= r as real
  {
    if x >= 0.0 then x.Floor else -((-x).Floor)
  }

  /** `to_numeric(errors='coerce')` of one cell: the number it denotes, or
      None (NaN) when it is not numeric. Booleans count as 1 and 0, text
      counts when it spells an integer, and dates, instants and clocks do
      not count. */
  function Numeric(c: Cell): (r: Option<real>)
    ensures c.None? ==> r.None?
    ensures c.Some? && c.value.Int? ==> r == Some(c.value.i as real)
    ensures c.Some? && c.value.Float? ==> r == Some(c.value.x)
    ensures c.Some? && c.value.Bool? ==> r == Some(if c.value.b then 1.0 else 0.0)
    ensures c.Some? && c.value.Str? && Text.ParseInt(c.value.s).Some? ==>
      r == Some(Text.ParseInt(c.value.s).value as real)
    ensures c.Some? && c.value.Str? && Text.ParseInt(c.value.s).None? ==> r.None?
    ensures c.Some? && (c.value.Instant? || c.value.CalendarDate? || c.value.Clock?) ==> r.None?
  {
    match c
    case None => None
    case Some(Int(i)) => Some(i as real)
    case Some(Float(x)) => Some(x)
    case Some(Bool(b)) => Some(if b then 1.0 else 0.0)
    case Some(Str(s)) =>
      (match Text.ParseInt(s) case Some(n) => Some(n as real) case None => None)
    case Some(_) => None
  }

  /** The integer coercion of the sink: NaN and every non-numeric value
      become 0, an integer and the integer a text spells are kept, a float
      is truncated toward zero and a boolean becomes 1 or 0. */
  function CoerceInt(c: Cell): (r: int)
    ensures c.None? ==> r == 0
    ensures c.Some? && c.value.Int? ==> r == c.value.i
    ensures c.Some? && c.value.Float? ==> r == Truncate(c.value.x)
    ensures c.Some? && c.value.Bool? ==> r == (if c.value.b then 1 else 0)
    ensures c.Some? && c.value.Str? && Text.ParseInt(c.value.s).Some? ==> r == Text.ParseInt(c.value.s).value
    ensures c.Some? && c.value.Str? && Text.ParseInt(c.value.s).None? ==> r == 0
    ensures c.Some? && (c.value.Instant? || c.value.CalendarDate? || c.value.Clock?) ==> r == 0
  {
    match Numeric(c) case Some(x) => Truncate(x) case None => 0
  }

  /** The float coercion of the sink: NaN and every non-numeric value
      become 0.0; integers, floats, booleans and integer texts keep their
      number. */
  function CoerceFloat(c: Cell): (r: real)
    ensures c.None? ==> r == 0.0
    ensures c.Some? && c.value.Int? ==> r == c.value.i as real
    ensures c.Some? && c.value.Float? ==> r == c.value.x
    ensures c.Some? && c.value.Bool? ==> r == (if c.value.b then 1.0 else 0.0)
    ensures c.Some? && c.value.Str? && Text.ParseInt(c.value.s).Some? ==> r == Text.ParseInt(c.value.s).value as real
    ensures c.Some? && c.value.Str? && Text.ParseInt(c.value.s).None? ==> r == 0.0
    ensures c.Some? && (c.value.Instant? || c.value.CalendarDate? || c.value.Clock?) ==> r == 0.0
  {
    Numeric(c).GetOr(0.0)
  }

  /** The two coercions agree: the integer one is the float one truncated. */
  lemma CoerceAgree(c: Cell)
    ensures CoerceInt(c) == Truncate(CoerceFloat(c))
  {
  }

  /** Truncation is the identity on whole numbers. */
  lemma TruncateWhole(n: int)
    ensures Truncate(n as real) == n
  {
  }

  /** Integer cells and integer texts survive coercion unchanged. */
  lemma CoerceIntExact(n: int)
    ensures CoerceInt(Some(Int(n))) == n
    ensures CoerceInt(Some(Str(Text.IntToString(n)))) == n
  {
    Text.ParseIntToString(n);
  }

  /** Non-numeric text coerces to 0, and so does NaN. */
  lemma CoerceNonNumeric(s: string)
    requires Text.ParseInt(s).None?
    ensures CoerceInt(Some(Str(s))) == 0 && CoerceInt(None) == 0
  {
  }

  /** A weekday name is not numeric, so the `Day` column always coerces to 0. */
  lemma DayCoercesToZero(e: Option<int>)
    ensures CoerceInt(Temporal.DayNameCell(e)) == 0
  {
    if e.Some? {
      var name := Temporal.DayNames[Temporal.WeekdayIndex(e.value)];
      assert name[0] != '+' && name[0] != '-' && !Text.IsDigit(name[0]);
    }
  }

  /** `Workday` booleans survive the bool cast and coerce to 1 for Monday
      to Friday and 0 otherwise. */
  lemma WorkdayCoercion(e: Option<int>)
    ensures BoolCast(Temporal.WorkdayCell(e)) == Temporal.WorkdayCell(e)
    ensures CoerceInt(BoolCast(Temporal.WorkdayCell(e))) == (if e.Some? && Temporal.WeekdayIndex(e.value) < 5 then 1 else 0)
  {
  }

  /** `astype(str)`: NaN becomes the text "nan"; strings stay; integers and
      booleans get Python's rendering. Floats, dates, instants and clocks
      keep their value (their textual rendering is not modelled). */
  function ToText(c: Cell): (r: Value)
    ensures c.None? ==> r == Str("nan")
    ensures c.Some? && c.value.Str? ==> r == c.value
    ensures c.Some? && c.value.Int? ==> r.Str? && Text.ParseInt(r.s) == Some(c.value.i)
    ensures c.Some? && c.value.Bool? ==> r == Str(if c.value.b then "True" else "False")
    ensures c.Some? && (c.value.Float? || c.value.Instant? || c.value.CalendarDate? || c.value.Clock?) ==> r == c.value
  {
    match c
    case None => Str("nan")
    case Some(Int(i)) =>
      Text.ParseIntToString(i);
      Str(Text.IntToString(i))
    case Some(Bool(b)) => Str(if b then "True" else "False")
    case Some(v) => v
  }

  /** `pd.to_datetime(Date, errors='coerce')`: the calendar day, NaT otherwise. */
  function DateOf(c: Cell): (r: Option<int>)
    ensures r.Some? <==> c.Some? && c.value.CalendarDate?
  {
    match c case Some(CalendarDate(d)) => Some(d) case _ => None
  }

  /** The coercing date-time parse of `Time`, taken back to a time of day:
      an `HH:MM:SS` text gives its second of the day, while a
      `datetime.time` object is not convertible and, like every other
      value, becomes NaT. */
  function TimeOf(c: Cell): (r: Option<nat>)
    ensures r.Some? ==> r.value < Temporal.SecondsPerDay
    ensures r.Some? ==> c.Some? && c.value.Str? && Temporal.FormatClock(r.value) == c.value.s
    ensures c.Some? && c.value.Str? && Temporal.ParseClock(c.value.s).Some? ==> r == Temporal.ParseClock(c.value.s)
    ensures c.None? || c.value.Clock? ==> r.None?
  {
    match c
    case Some(Str(s)) =>
      var t := Temporal.ParseClock(s);
      if t.Some? then Temporal.FormatParseClock(s); t else t
    case _ => None
  }

  /** The `'string'` dtype cast: text stays, integers and booleans get
      Python's rendering, and NaN becomes `pd.NA`, still missing. Floats,
      dates, instants and clocks keep their value (their rendering is not
      modelled). */
  function StringCast(c: Cell): (r: Cell)
    ensures c.None? <==> r.None?
    ensures c.Some? && c.value.Str? ==> r == c
    ensures c.Some? && c.value.Int? ==> r.Some? && r.value.Str? && Text.ParseInt(r.value.s) == Some(c.value.i)
    ensures c.Some? && c.value.Bool? ==> r == Some(Str(if c.value.b then "True" else "False"))
    ensures c.Some? && !c.value.Str? && !c.value.Int? && !c.value.Bool? ==> r == c
  {
    match c
    case None => None
    case Some(Int(i)) =>
      Text.ParseIntToString(i);
      Some(Str(Text.IntToString(i)))
    case Some(Bool(b)) => Some(Str(if b then "True" else "False"))
    case Some(v) => Some(v)
  }

  /** An integer survives the string cast and the integer coercion, while
      a boolean, once rendered as text, is no longer numeric. */
  lemma StringCastCoerce(c: Cell)
    ensures c.Some? && c.value.Int? ==> CoerceInt(StringCast(c)) == c.value.i
    ensures c.Some? && c.value.Bool? ==> CoerceInt(StringCast(c)) == 0
    ensures c.Some? && c.value.Str? ==> CoerceInt(StringCast(c)) == CoerceInt(c)
  {
    if c.Some? && c.value.Bool? {
      var s := if c.value.b then "True" else "False";
      assert s[0] == 'T' || s[0] == 'F';
    }
  }

  /** `astype(str)` of a `'string'` column: `pd.NA` renders as "<NA>", and
      every present value as `astype(str)` renders it. */
  function StringText(c: Cell): (r: Value)
    ensures c.None? ==> r == Str("<NA>")
    ensures c.Some? && c.value.Str? ==> r == c.value
    ensures c.Some? && c.value.Int? ==> r.Str? && Text.ParseInt(r.s) == Some(c.value.i)
    ensures c.Some? ==> r == ToText(c)
  {
    if c.None? then Str("<NA>") else ToText(StringCast(c))
  }

  /** The `'bool'` dtype cast, Python truthiness: NaN is true, a number is
      true unless zero, text is true unless empty, and every other value
      is true. */
  function BoolCast(c: Cell): (r: Cell)
    ensures r.Some? && r.value.Bool?
    ensures c.None? ==> r.value.b
    ensures c.Some? && c.value.Bool? ==> r == c
    ensures c.Some? && c.value.Int? ==> (r.value.b <==> c.value.i != 0)
    ensures c.Some? && c.value.Float? ==> (r.value.b <==> c.value.x != 0.0)
    ensures c.Some? && c.value.Str? ==> (r.value.b <==> c.value.s != "")
    ensures c.Some? && (c.value.Instant? || c.value.CalendarDate? || c.value.Clock?) ==> r.value.b
  {
    match c
    case None => Some(Bool(true))
    case Some(Bool(b)) => Some(Bool(b))
    case Some(Int(i)) => Some(Bool(i != 0))
    case Some(Float(x)) => Some(Bool(x != 0.0))
    case Some(Str(s)) => Some(Bool(s != ""))
    case Some(_) => Some(Bool(true))
  }

  /** The time-of-day re-parse of one `Time` cell, without coercion: clock
      text becomes a `datetime.time`, NaN stays NaT, an instant gives its
      time of day and a calendar day gives midnight. `pd.to_datetime`
      cannot convert a `datetime.time` object, so a time object makes the
      parse raise, and so does any other value. */
  function ToClock(c: Cell): (r: Result<Cell, Error>)
    ensures r.Success? ==> r.value.None? || r.value.value.Clock?
    ensures r.Failure? ==> r.error == UnparsableTime
    ensures c.None? ==> r == Success(None)
    ensures c.Some? && c.value.Str? ==>
      && (r.Success? <==> Temporal.ParseClock(c.value.s).Some?)
      && (r.Success? ==> r.value == Some(Clock(Temporal.ParseClock(c.value.s).value)))
    ensures c.Some? && c.value.Clock? ==> r == Failure(UnparsableTime)
    ensures c.Some? && c.value.Instant? ==> r == Success(Some(Clock(Temporal.SecondOfDay(c.value.epoch))))
    ensures c.Some? && c.value.CalendarDate? ==> r == Success(Some(Clock(0)))
    ensures c.Some? && (c.value.Int? || c.value.Float? || c.value.Bool?) ==> r == Failure(UnparsableTime)
  {
    match c
    case None => Success(None)
    case Some(Str(s)) =>
      (match Temporal.ParseClock(s)
       case Some(t) => Success(Some(Clock(t)))
       case None => Failure(UnparsableTime))
    case Some(Instant(e)) => Success(Some(Clock(Temporal.SecondOfDay(e))))
    case Some(CalendarDate(_)) => Success(Some(Clock(0)))
    case Some(_) => Failure(UnparsableTime)
  }

  /** The `HH:MM:SS` text of an instant re-parses to the time object of its
      second of the day, and NaT stays NaT. */
  lemma ClockOfClockCell(e: Option<int>)
    ensures ToClock(Temporal.ClockCell(e)) ==
      Success(if e.Some? then Some(Clock(Temporal.SecondOfDay(e.value))) else None)
  {
  }

  /** Once re-parsed, no `Time` cell survives the coercing parse: every one
      is stored as NaT. */
  lemma TimeOfClock(c: Cell)
    requires ToClock(c).Success?
    ensures TimeOf(ToClock(c).value).None?
  {
  }

  /** An id column on its way to the sink: the `'string'` cast, then the
      integer coercion. Integers and integer texts survive, NaN and any
      other text give 0, and a boolean, once rendered as "True" or
      "False", is no longer a number. */
  function CoerceId(c: Cell): (r: int)
    ensures c.None? ==> r == 0
    ensures c.Some? && c.value.Int? ==> r == c.value.i
    ensures c.Some? && c.value.Str? && Text.ParseInt(c.value.s).Some? ==> r == Text.ParseInt(c.value.s).value
    ensures c.Some? && c.value.Str? && Text.ParseInt(c.value.s).None? ==> r == 0
    ensures c.Some? && c.value.Bool? ==> r == 0
    ensures c.Some? && c.value.Float? ==> r == Truncate(c.value.x)
  {
    StringCastCoerce(c);
    CoerceInt(StringCast(c))
  }

  /** `Workday` on its way to the sink: the `'bool'` cast, then the integer
      coercion. NaN counts as a workday. */
  function WorkdayFlag(c: Cell): (r: int)
    ensures r == 0 || r == 1
    ensures c.None? ==> r == 1
    ensures c.Some? && c.value.Bool? ==> r == (if c.value.b then 1 else 0)
    ensures c.Some? && c.value.Int? ==> (r == 1 <==> c.value.i != 0)
    ensures c.Some? && c.value.Str? ==> (r == 1 <==> c.value.s != "")
  {
    CoerceInt(BoolCast(c))
  }
}
