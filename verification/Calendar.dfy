/**
 * Gregorian dates and day counts since 1970-01-01.
 *
 * The two conversions work on years that begin in March, so that a leap day ends its year, and on eras of 400 of them.
 */
module Calendar {
  datatype Date = Date(year: int, month: int, day: int)

  // ---------------------------------------------------------------------
  // The calendar
  // ---------------------------------------------------------------------

  predicate IsLeapYear(year: int) { year % 4 == 0 && (year % 100 != 0 || year % 400 == 0) }

  function DaysInMonth(year: int, month: int): int {
    if month == 2 && IsLeapYear(year) then 29
    else if month == 2 then 28
    else if month in {4, 6, 9, 11} then 30
    else 31
  }

  predicate Valid(d: Date) { 1 <= d.month <= 12 && 1 <= d.day <= DaysInMonth(d.year, d.month) }

  /** The day after. */
  function Tomorrow(d: Date): Date {
    if d.day < DaysInMonth(d.year, d.month) then d.(day := d.day + 1)
    else if d.month < 12 then Date(d.year, d.month + 1, 1)
    else Date(d.year + 1, 1, 1)
  }

  predicate Before(d: Date, e: Date) {
    d.year < e.year || (d.year == e.year && (d.month < e.month || (d.month == e.month && d.day < e.day)))
  }

  // ---------------------------------------------------------------------
  // The conversions
  // ---------------------------------------------------------------------

  function YearOfEra(doe: int): int { (doe - doe / 1460 + doe / 36524 - doe / 146096) / 365 }

  function CivilFromDays(days: int): Date {
    var z := days + 719468;
    var era, doe := z / 146097, z % 146097;
    var yoe := YearOfEra(doe);
    var doy := doe - (365 * yoe + yoe / 4 - yoe / 100);
    var mp := (5 * doy + 2) / 153;
    var month := if mp < 10 then mp + 3 else mp - 9;
    Date(yoe + era * 400 + (if month <= 2 then 1 else 0), month, doy - (153 * mp + 2) / 5 + 1)
  }

  function DaysFromCivil(d: Date): int {
    var year := if d.month <= 2 then d.year - 1 else d.year;
    var era := year / 400;
    var yoe := year - era * 400;
    var mp := if d.month > 2 then d.month - 3 else d.month + 9;
    var doy := (153 * mp + 2) / 5 + d.day - 1;
    var doe := yoe * 365 + yoe / 4 - yoe / 100 + doy;
    era * 146097 + doe - 719468
  }

  // ---------------------------------------------------------------------
  // Years from March
  // ---------------------------------------------------------------------

  /** Days before the March year `y`, counted from 0000-03-01. */
  function MarchStart(y: int): int { 365 * y + y / 4 - y / 100 + y / 400 }

  function MarchYear(d: Date): int { if d.month <= 2 then d.year - 1 else d.year }

  function MarchMonth(d: Date): int { if d.month > 2 then d.month - 3 else d.month + 9 }

  /** Days before the date in its March year. */
  function DayOfYear(d: Date): int { (153 * MarchMonth(d) + 2) / 5 + d.day - 1 }

  function MarchLength(y: int): int { if IsLeapYear(y + 1) then 366 else 365 }

  lemma MarchYearsAbut(y: int)
    ensures MarchStart(y + 1) == MarchStart(y) + MarchLength(y)
  {
    var k := y / 400;
    assert (y + 1) / 4 == y / 4 + if (y + 1) % 4 == 0 then 1 else 0;
    assert (y + 1) / 100 == y / 100 + if (y + 1) % 100 == 0 then 1 else 0;
    assert (y + 1) / 400 == y / 400 + if (y + 1) % 400 == 0 then 1 else 0;
  }

  lemma MarchStartsRise(y: int, z: int)
    requires y < z
    ensures MarchStart(y) + MarchLength(y) <= MarchStart(z)
    decreases z - y
  {
    MarchYearsAbut(y);
    if y + 1 < z { MarchStartsRise(y + 1, z); }
  }

  /** The era form is the plain count of March years. */
  lemma DaysByMarchYears(d: Date)
    ensures DaysFromCivil(d) == MarchStart(MarchYear(d)) + DayOfYear(d) - 719468
  {
    var y := MarchYear(d);
    var era, yoe := y / 400, y % 400;
    assert y == 400 * era + yoe;
    assert y / 4 == 100 * era + yoe / 4;
    assert y / 100 == 4 * era + yoe / 100;
  }

  /** A valid date falls inside its March year. */
  lemma DayOfYearFits(d: Date)
    requires Valid(d)
    ensures 0 <= DayOfYear(d) < MarchLength(MarchYear(d))
  {
    assert d.month in {1, 2, 3, 4, 5, 6, 7, 8, 9, 10, 11, 12};
  }

  lemma MonthsRise(d: Date, e: Date)
    requires Valid(d) && Valid(e) && d.year == e.year && MarchYear(d) == MarchYear(e) && Before(d, e)
    ensures DayOfYear(d) < DayOfYear(e)
  {
    assert d.month in {1, 2, 3, 4, 5, 6, 7, 8, 9, 10, 11, 12};
    assert e.month in {1, 2, 3, 4, 5, 6, 7, 8, 9, 10, 11, 12};
  }

  /** Later dates have greater day counts. */
  lemma DaysFollowCalendar(d: Date, e: Date)
    requires Valid(d) && Valid(e) && Before(d, e)
    ensures DaysFromCivil(d) < DaysFromCivil(e)
  {
    DaysByMarchYears(d); DaysByMarchYears(e);
    DayOfYearFits(d); DayOfYearFits(e);
    if MarchYear(d) < MarchYear(e) {
      MarchStartsRise(MarchYear(d), MarchYear(e));
    } else {
      SameMarchYear(d, e);
    }
  }

  /** In one March year, January and February of the next calendar year come last. */
  lemma SameMarchYear(d: Date, e: Date)
    requires Valid(d) && Valid(e) && Before(d, e) && MarchYear(d) >= MarchYear(e)
    ensures MarchYear(d) == MarchYear(e) && DayOfYear(d) < DayOfYear(e)
  {
    if d.year == e.year {
      MonthsRise(d, e);
    } else {
      assert d.month in {3, 4, 5, 6, 7, 8, 9, 10, 11, 12} && e.month in {1, 2};
    }
  }

  /** Tomorrow is the next day of the March year, or the first of the next. */
  lemma TomorrowInYear(d: Date)
    requires Valid(d)
    ensures var t := Tomorrow(d);
            && Valid(t)
            && ((MarchYear(t) == MarchYear(d) && DayOfYear(t) == DayOfYear(d) + 1)
                || (MarchYear(t) == MarchYear(d) + 1 && DayOfYear(t) == 0
                    && DayOfYear(d) + 1 == MarchLength(MarchYear(d))))
  {
    assert d.month in {1, 2, 3, 4, 5, 6, 7, 8, 9, 10, 11, 12};
  }

  /** Consecutive dates have consecutive day counts. */
  lemma TomorrowIsOneMore(d: Date)
    requires Valid(d)
    ensures Valid(Tomorrow(d)) && DaysFromCivil(Tomorrow(d)) == DaysFromCivil(d) + 1
  {
    hide DaysFromCivil, MarchStart;
    DaysByMarchYears(d); DaysByMarchYears(Tomorrow(d));
    MarchYearsAbut(MarchYear(d));
    TomorrowInYear(d);
  }

  lemma EpochIsZero()
    ensures DaysFromCivil(Date(1970, 1, 1)) == 0
  {}

  // ---------------------------------------------------------------------
  // The conversions undo each other
  // ---------------------------------------------------------------------

  /** The estimate of the year in the era is exact, for `c` centuries, `q` four-year cycles and `r` years. */
  lemma YearOfEraIsExact(c: int, q: int, r: int, doy: int)
    requires 0 <= c < 4 && 0 <= q < 25 && 0 <= r < 4
    requires 0 <= doy < 365 || (doy == 365 && r == 3 && (q < 24 || c == 3))
    ensures YearOfEra(36524 * c + 1461 * q + 365 * r + doy) == 100 * c + 4 * q + r
  {
    var doe := 36524 * c + 1461 * q + 365 * r + doy;
    var carry := if 24 * c + q + 365 * r + doy >= 1460 then 1 else 0;
    assert doe / 1460 == 25 * c + q + carry;
    assert doe / 146096 == if doe == 146096 then 1 else 0;
    assert doe / 36524 == c + doe / 146096;
  }

  /** Centuries, four-year cycles, years and days of a day of the era. */
  lemma SplitDayOfEra(doe: int) returns (c: int, q: int, r: int, doy: int)
    requires 0 <= doe < 146097
    ensures 0 <= c < 4 && 0 <= q < 25 && 0 <= r < 4
    ensures 0 <= doy < 365 || (doy == 365 && r == 3 && (q < 24 || c == 3))
    ensures doe == 36524 * c + 1461 * q + 365 * r + doy
  {
    c := if doe == 146096 then 3 else doe / 36524;
    var rest := doe - 36524 * c;
    q := rest / 1461;
    var left := rest - 1461 * q;
    r := if left == 1460 then 3 else left / 365;
    doy := left - 365 * r;
  }

  lemma YearSplit(c: int, q: int, r: int)
    requires 0 <= c < 4 && 0 <= q < 25 && 0 <= r < 4
    ensures var yoe := 100 * c + 4 * q + r;
            && yoe / 4 == 25 * c + q && yoe / 100 == c
            && (IsLeapYear(yoe + 1) <==> r == 3 && (q < 24 || c == 3))
  {}

  /** The date within a March year, from its day. */
  function InYear(y: int, doy: int): Date {
    var mp := (5 * doy + 2) / 153;
    var month := if mp < 10 then mp + 3 else mp - 9;
    Date(y + (if month <= 2 then 1 else 0), month, doy - (153 * mp + 2) / 5 + 1)
  }

  lemma InYearIsRight(y: int, doy: int)
    requires 0 <= doy < MarchLength(y)
    ensures var d := InYear(y, doy); Valid(d) && MarchYear(d) == y && DayOfYear(d) == doy
  {
    var mp := (5 * doy + 2) / 153;
    assert mp in {0, 1, 2, 3, 4, 5, 6, 7, 8, 9, 10, 11};
  }

  lemma LeapByEra(era: int, yoe: int)
    ensures IsLeapYear(400 * era + yoe) <==> IsLeapYear(yoe)
  {
    var y := 400 * era + yoe;
    assert y / 4 == 100 * era + yoe / 4;
    assert y / 100 == 4 * era + yoe / 100;
    assert y / 400 == era + yoe / 400;
  }

  /** A day of the era lies in the year of the era that is computed for it. */
  lemma InEra(doe: int) returns (yoe: int, doy: int)
    requires 0 <= doe < 146097
    ensures 0 <= yoe < 400 && YearOfEra(doe) == yoe && 0 <= doy < MarchLength(yoe)
    ensures doe == 365 * yoe + yoe / 4 - yoe / 100 + doy
  {
    hide YearOfEra, IsLeapYear;
    var c, q, r, left := SplitDayOfEra(doe);
    YearOfEraIsExact(c, q, r, left);
    YearSplit(c, q, r);
    yoe, doy := 100 * c + 4 * q + r, left;
  }

  /** The date of a day count lies in the March year that holds the day. */
  lemma CivilByMarchYears(days: int) returns (y: int, doy: int)
    ensures 0 <= doy < MarchLength(y) && CivilFromDays(days) == InYear(y, doy)
    ensures days == MarchStart(y) + doy - 719468
  {
    hide YearOfEra, MarchStart, IsLeapYear;
    var z := days + 719468;
    var era, doe := z / 146097, z % 146097;
    var yoe;
    yoe, doy := InEra(doe);
    y := 400 * era + yoe;
    LeapByEra(era, yoe + 1);
    assert 400 * era + (yoe + 1) == y + 1;
    MarchStartByEra(era, yoe);
  }

  lemma MarchStartByEra(era: int, yoe: int)
    requires 0 <= yoe < 400
    ensures MarchStart(400 * era + yoe) == 146097 * era + 365 * yoe + yoe / 4 - yoe / 100
  {
    assert (400 * era + yoe) / 4 == 100 * era + yoe / 4;
    assert (400 * era + yoe) / 100 == 4 * era + yoe / 100;
    assert (400 * era + yoe) / 400 == era;
  }

  /** Every day count has a valid date that counts back to it. */
  lemma CivilInverts(days: int)
    ensures Valid(CivilFromDays(days)) && DaysFromCivil(CivilFromDays(days)) == days
  {
    var y, doy := CivilByMarchYears(days);
    InYearIsRight(y, doy);
    DaysByMarchYears(CivilFromDays(days));
  }

  /** Every valid date is the date of its day count. */
  lemma DaysInverts(d: Date)
    requires Valid(d)
    ensures CivilFromDays(DaysFromCivil(d)) == d
  {
    var e := CivilFromDays(DaysFromCivil(d));
    CivilInverts(DaysFromCivil(d));
    if Before(d, e) {
      DaysFollowCalendar(d, e);
    } else if Before(e, d) {
      DaysFollowCalendar(e, d);
    }
  }
}
