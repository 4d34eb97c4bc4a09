/** Instants written as UTC timestamps and read back. */
module InstantText {
  import opened Bytes
  import opened Calendar
  import opened Decimals
  import opened Options
  import opened Texts

  const DAY_SECONDS: int := 86400

  // ---------------------------------------------------------------------
  // Formatting
  // ---------------------------------------------------------------------

  function DayOf(ms: int): int { ms / 1000 / DAY_SECONDS }

  function SecondOfDay(ms: int): int { ms / 1000 % DAY_SECONDS }

  function DateOf(ms: int): Date { CivilFromDays(DayOf(ms)) }

  /** A year of at least four characters, its sign among them. */
  function YearText(year: int): string { if year < 0 then "-" + Pad(-year, 3) else Pad(year, 4) }

  function DateText(d: Date): string
    requires Calendar.Valid(d)
  {
    YearText(d.year) + "-" + (Pad(d.month, 2) + "-" + Pad(d.day, 2))
  }

  function TimeText(tod: int, millis: int): string
    requires 0 <= tod && 0 <= millis
  {
    Pad(tod / 3600, 2) + ":" + (Pad(tod % 3600 / 60, 2) + ":" + (Pad(tod % 60, 2) + "." + Pad(millis, 3)))
  }

  /** `format_instant`. */
  function Format(ms: int): string {
    CivilInverts(DayOf(ms));
    DateText(DateOf(ms)) + " " + TimeText(SecondOfDay(ms), ms % 1000)
  }

  // ---------------------------------------------------------------------
  // Parsing
  // ---------------------------------------------------------------------

  function ParseField(s: string, low: int, high: int): Option<int> {
    match ParseI64(s)
    case Some(n) => if low <= n <= high then Some(n) else None
    case None => None
  }

  function ParseDate(date: string): Option<Date> {
    var parts := Split(date, '-');
    if |parts| != 3 then None else
    match (ParseI64(parts[0]), ParseField(parts[1], 1, 12), ParseField(parts[2], 1, 31))
    case (Some(y), Some(m), Some(d)) => if d > DaysInMonth(y, m) then None else Some(Date(y, m, d))
    case _ => None
  }

  /** Milliseconds of a second, with a fraction of any length cut or filled to three digits. */
  function ParseSecond(s: string): Option<int> {
    match SplitOnce(s, {'.'})
    case None =>
      (match ParseField(s, 0, 60)
       case Some(n) => Some(n * 1000)
       case None => None)
    case Some((whole, fraction)) =>
      match (ParseField(whole, 0, 60), ParseField((fraction + "000")[..3], 0, 999))
      case (Some(n), Some(f)) => Some(n * 1000 + f)
      case _ => None
  }

  function ParseTime(time: string): Option<int> {
    var parts := Split(time, ':');
    if |parts| != 2 && |parts| != 3 then None else
    match (ParseField(parts[0], 0, 23), ParseField(parts[1], 0, 59),
           if |parts| == 3 then ParseSecond(parts[2]) else Some(0))
    case (Some(h), Some(m), Some(s)) => Some((h * 3600 + m * 60) * 1000 + s)
    case _ => None
  }

  function Combine(date: Option<Date>, time: Option<int>): Option<int> {
    if date.None? || time.None? then None else
    var ms := DaysFromCivil(date.value) * DAY_SECONDS * 1000 + time.value;
    if -U63_LIMIT <= ms < U63_LIMIT then Some(ms) else None
  }

  /** `parse_instant`. */
  function Parse(text: string): Option<int> {
    var t := Trim(text);
    var t := if t != [] && t[|t| - 1] == 'Z' then t[..|t| - 1] else t;
    match SplitOnce(t, {'T', ' '})
    case None => Combine(ParseDate(t), Some(0))
    case Some((date, time)) => Combine(ParseDate(date), ParseTime(time))
  }

  // ---------------------------------------------------------------------
  // Parsing undoes formatting
  // ---------------------------------------------------------------------

  lemma YearReads(year: int)
    requires -U63_LIMIT < year < U63_LIMIT
    ensures year >= 0 ==> AllDigits(YearText(year)) && YearText(year) != [] && ParseI64(YearText(year)) == Some(year)
    ensures year < 0 ==> exists rest: string :: YearText(year) == ['-'] + rest && AllDigits(rest)
  {
    PadReads(if year < 0 then -year else year, if year < 0 then 3 else 4);
  }

  lemma DateReads(d: Date)
    requires Calendar.Valid(d) && 0 <= d.year < U63_LIMIT
    ensures ParseDate(DateText(d)) == Some(d)
  {
    hide IsLeapYear, Pad, ParseI64, Split, YearText;
    var y, m, dd := YearText(d.year), Pad(d.month, 2), Pad(d.day, 2);
    YearReads(d.year); PadReads(d.month, 2); PadReads(d.day, 2);
    SplitAt(y, '-', m + "-" + dd);
    SplitAt(m, '-', dd);
    SplitWhole(dd, '-');
    assert DateText(d) == y + ['-'] + (m + "-" + dd);
    assert Split(DateText(d), '-') == [y, m, dd];
  }

  /** A negative year's sign reads as a separator. */
  lemma NegativeYearFails(d: Date)
    requires Calendar.Valid(d) && -U63_LIMIT < d.year < 0
    ensures ParseDate(DateText(d)) == None
  {
    YearReads(d.year);
    var rest: string :| YearText(d.year) == ['-'] + rest && AllDigits(rest);
    var tail := rest + "-" + (Pad(d.month, 2) + "-" + Pad(d.day, 2));
    assert DateText(d) == [] + ['-'] + tail;
    SplitAt([], '-', tail);
    assert Split(DateText(d), '-')[0] == [];
  }

  lemma SecondReads(second: int, millis: int)
    requires 0 <= second < 60 && 0 <= millis < 1000
    ensures ParseSecond(Pad(second, 2) + "." + Pad(millis, 3)) == Some(second * 1000 + millis)
  {
    hide Pad, ParseI64, SplitOnce, Digits;
    PadReads(second, 2); PadReads(millis, 3); ThreeDigits(millis);
    SplitOnceAt(Pad(second, 2), '.', Pad(millis, 3), {'.'});
    assert (Pad(millis, 3) + "000")[..3] == Pad(millis, 3);
  }

  lemma TimeReads(tod: int, millis: int)
    requires 0 <= tod < DAY_SECONDS && 0 <= millis < 1000
    ensures ParseTime(TimeText(tod, millis)) == Some(tod * 1000 + millis)
  {
    hide ParseSecond, Pad, ParseI64, Split;
    var h, m, s := tod / 3600, tod % 3600 / 60, tod % 60;
    PadReads(h, 2); PadReads(m, 2); PadReads(s, 2); PadReads(millis, 3);
    SecondReads(s, millis);
    var last := Pad(s, 2) + "." + Pad(millis, 3);
    SplitAt(Pad(h, 2), ':', Pad(m, 2) + ":" + last);
    SplitAt(Pad(m, 2), ':', last);
    SplitWhole(last, ':');
    assert TimeText(tod, millis) == Pad(h, 2) + [':'] + (Pad(m, 2) + ":" + last);
    assert Split(TimeText(tod, millis), ':') == [Pad(h, 2), Pad(m, 2), last];
    assert tod == h * 3600 + m * 60 + s;
  }

  lemma EndsAreDigits(ms: int)
    requires -U63_LIMIT <= ms < U63_LIMIT
    ensures var t := Format(ms); |t| > 1 && !IsWhite(t[0]) && IsDigit(t[|t| - 1])
  {
    hide CivilFromDays, Pad, ParseI64, YearText;
    YearFits(ms);
    YearReads(DateOf(ms).year);
    PadReads(ms % 1000, 3);
    var y, last := YearText(DateOf(ms).year), Pad(ms % 1000, 3);
    assert y != [] && !IsWhite(y[0]);
    CivilInverts(DayOf(ms));
    assert Format(ms)[0] == y[0];
    assert Format(ms)[|Format(ms)| - 1] == last[|last| - 1];
  }

  lemma DateHasNoBlank(d: Date)
    requires Calendar.Valid(d) && -U63_LIMIT < d.year < U63_LIMIT
    ensures forall k :: 0 <= k < |DateText(d)| ==> DateText(d)[k] !in {'T', ' '}
  {
    hide Pad, ParseI64, YearText, IsLeapYear;
    YearReads(d.year); PadReads(d.month, 2); PadReads(d.day, 2);
  }

  /** Formatted text is read as its two halves. */
  lemma FormatSplits(ms: int)
    requires -U63_LIMIT <= ms < U63_LIMIT
    ensures Calendar.Valid(DateOf(ms))
    ensures Parse(Format(ms)) == Combine(ParseDate(DateText(DateOf(ms))),
                                         ParseTime(TimeText(SecondOfDay(ms), ms % 1000)))
  {
    hide CivilFromDays, DateText, TimeText, Combine, ParseDate, ParseTime, SplitOnce, IsWhite, DaysInMonth;
    CivilInverts(DayOf(ms));
    YearFits(ms);
    EndsAreDigits(ms);
    var t := Format(ms);
    DigitIsNotWhite(t[|t| - 1]);
    DateHasNoBlank(DateOf(ms));
    assert t == DateText(DateOf(ms)) + [' '] + TimeText(SecondOfDay(ms), ms % 1000);
    SplitOnceAt(DateText(DateOf(ms)), ' ', TimeText(SecondOfDay(ms), ms % 1000), {'T', ' '});
  }

  lemma DigitIsNotWhite(c: char)
    requires IsDigit(c)
    ensures !IsWhite(c)
  {}

  /**
   * Reading what was written gives the instant back for every instant whose year is not negative, and nothing for the
   * others.
   */
  lemma ParseUndoesFormat(ms: int)
    requires -U63_LIMIT <= ms < U63_LIMIT
    ensures Parse(Format(ms)) == if DateOf(ms).year >= 0 then Some(ms) else None
  {
    hide Parse, Format, ParseDate, ParseTime, DateText, TimeText, CivilFromDays, DaysFromCivil, DaysInMonth;
    FormatSplits(ms);
    YearFits(ms);
    CivilInverts(DayOf(ms));
    TimeReads(SecondOfDay(ms), ms % 1000);
    if DateOf(ms).year >= 0 {
      DateReads(DateOf(ms));
      assert ms == (DayOf(ms) * DAY_SECONDS + SecondOfDay(ms)) * 1000 + ms % 1000;
    } else {
      NegativeYearFails(DateOf(ms));
    }
  }

  // ---------------------------------------------------------------------
  // What formatting computes fits
  // ---------------------------------------------------------------------

  /** No step of formatting leaves the 64-bit range: the year is within 293 million either way. */
  lemma YearFits(ms: int)
    requires -U63_LIMIT <= ms < U63_LIMIT
    ensures -U63_LIMIT <= DayOf(ms) + 719468 < U63_LIMIT
    ensures -U63_LIMIT <= (DayOf(ms) + 719468) / 146097 * 400 < U63_LIMIT
    ensures -293000000 < DateOf(ms).year < 293000000
  {
    hide YearOfEra, IsLeapYear, MarchStart;
    var y, doy := CivilByMarchYears(DayOf(ms));
    MarchStartBounds(y);
  }

  lemma MarchStartBounds(y: int)
    ensures y >= 0 ==> 365 * y <= MarchStart(y)
    ensures y < 0 ==> MarchStart(y) <= 365 * y
  {}

  // ---------------------------------------------------------------------
  // Every text that can be read
  // ---------------------------------------------------------------------

  lemma ReadDateIsModern(date: string)
    requires ParseDate(date).Some?
    ensures Calendar.Valid(ParseDate(date).value) && ParseDate(date).value.year >= 0
  {
    hide Split, ParseI64, IsLeapYear;
    PartsHoldNoSeparator(date, '-', 0);
    UnsignedIsNatural(Split(date, '-')[0]);
  }

  lemma ReadTimeIsNatural(time: string)
    requires ParseTime(time).Some?
    ensures ParseTime(time).value >= 0
  {
    hide Split, ParseI64, SplitOnce;
  }

  /** Only dates from year zero on have day counts from that of 0000-01-01 on. */
  lemma ModernDays(days: int, d: Date)
    requires Calendar.Valid(d) && d.year >= 0 && DaysFromCivil(d) <= days
    ensures CivilFromDays(days).year >= 0
  {
    hide CivilFromDays, DaysFromCivil, IsLeapYear;
    CivilInverts(days);
    if CivilFromDays(days).year < 0 { DaysFollowCalendar(CivilFromDays(days), d); }
  }

  lemma ReadIsModern(date: Option<Date>, time: Option<int>)
    requires date.Some? ==> Calendar.Valid(date.value) && date.value.year >= 0
    requires time.Some? ==> time.value >= 0
    requires Combine(date, time).Some?
    ensures DateOf(Combine(date, time).value).year >= 0
  {
    hide CivilFromDays, DaysFromCivil, IsLeapYear;
    var ms := Combine(date, time).value;
    ModernDays(DayOf(ms), date.value);
  }

  /** What any text reads as is written as text that reads the same. */
  lemma ReadingIsStable(text: string)
    requires Parse(text).Some?
    ensures Parse(Format(Parse(text).value)) == Parse(text)
  {
    hide ParseDate, ParseTime, Format, CivilFromDays, DaysFromCivil, Trim, SplitOnce;
    var trimmed := Trim(text);
    var t := if trimmed != [] && trimmed[|trimmed| - 1] == 'Z' then trimmed[..|trimmed| - 1] else trimmed;
    var halves := SplitOnce(t, {'T', ' '});
    var date := ParseDate(if halves.None? then t else halves.value.0);
    var time := if halves.None? then Some(0) else ParseTime(halves.value.1);
    assert Parse(text) == Combine(date, time);
    ReadDateIsModern(if halves.None? then t else halves.value.0);
    if halves.Some? { ReadTimeIsNatural(halves.value.1); }
    ReadIsModern(date, time);
    ParseUndoesFormat(Parse(text).value);
  }
}
