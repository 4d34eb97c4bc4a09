/**
 * What each documented form of a timestamp reads as, and what is refused.
 *
 * A form is a date, alone or followed by `T` or a space and a time to the minute, the second or a fraction of one.
 */
module InstantForms {
  import opened Bytes
  import opened Calendar
  import opened Decimals
  import opened Options
  import opened Texts
  import opened InstantText

  datatype Form =
    | DateOnly
    | ToMinute(sep: char, hour: int, minute: int)
    | ToSecond(sep: char, hour: int, minute: int, second: int)
    | ToFraction(sep: char, hour: int, minute: int, second: int, fraction: string)

  /** Fields in range, a leap second allowed; the fraction any digits. */
  predicate FormOk(f: Form) {
    f.DateOnly? ||
    (&& f.sep in {'T', ' '} && 0 <= f.hour <= 23 && 0 <= f.minute <= 59
     && (f.ToMinute? || 0 <= f.second <= 60) && (f.ToFraction? ==> AllDigits(f.fraction)))
  }

  function ClockText(f: Form): string
    requires FormOk(f) && !f.DateOnly?
  {
    Pad(f.hour, 2) + ":" +
    match f
    case ToMinute(_, _, m) => Pad(m, 2)
    case ToSecond(_, _, m, s) => Pad(m, 2) + ":" + Pad(s, 2)
    case ToFraction(_, _, m, s, fraction) => Pad(m, 2) + ":" + (Pad(s, 2) + "." + fraction)
  }

  function Written(d: Date, f: Form): string
    requires Calendar.Valid(d) && FormOk(f)
  {
    DateText(d) + if f.DateOnly? then [] else [f.sep] + ClockText(f)
  }

  function DigitValue(c: char): int { c as int - '0' as int }

  /** Milliseconds of a fraction: its first three digits, missing ones zero. */
  function FractionMillis(fraction: string): int {
    (if |fraction| > 0 then 100 * DigitValue(fraction[0]) else 0)
    + (if |fraction| > 1 then 10 * DigitValue(fraction[1]) else 0)
    + (if |fraction| > 2 then DigitValue(fraction[2]) else 0)
  }

  /** The instant a date and form mean. */
  function Meant(d: Date, f: Form): int {
    DaysFromCivil(d) * 86400000
    + match f
      case DateOnly => 0
      case ToMinute(_, h, m) => h * 3600000 + m * 60000
      case ToSecond(_, h, m, s) => h * 3600000 + m * 60000 + s * 1000
      case ToFraction(_, h, m, s, fraction) => h * 3600000 + m * 60000 + s * 1000 + FractionMillis(fraction)
  }

  // ---------------------------------------------------------------------
  // Fields
  // ---------------------------------------------------------------------

  lemma FieldReads(n: int, low: int, high: int)
    requires 0 <= low <= n <= high < 1000
    ensures Pad(n, 2) != [] && AllDigits(Pad(n, 2)) && ParseField(Pad(n, 2), low, high) == Some(n)
  {
    PadReads(n, 2);
  }

  lemma ThreeDigitNumber(s: string)
    requires |s| == 3 && AllDigits(s)
    ensures Number(s) == 100 * DigitValue(s[0]) + 10 * DigitValue(s[1]) + DigitValue(s[2])
  {
    var two := s[..2];
    var one := two[..1];
    assert one[..0] == [];
    assert Number(one) == DigitValue(s[0]);
    assert Number(two) == 10 * Number(one) + DigitValue(s[1]);
  }

  lemma FractionReads(fraction: string)
    requires AllDigits(fraction)
    ensures ParseField((fraction + "000")[..3], 0, 999) == Some(FractionMillis(fraction))
  {
    var s := (fraction + "000")[..3];
    assert forall i :: 0 <= i < 3 ==> s[i] == if i < |fraction| then fraction[i] else '0';
    assert AllDigits(s);
    ThreeDigitNumber(s);
  }

  lemma WholeSecondReads(second: int)
    requires 0 <= second <= 60
    ensures ParseSecond(Pad(second, 2)) == Some(second * 1000)
  {
    hide Pad, ParseI64;
    FieldReads(second, 0, 60);
    NoSplit(Pad(second, 2), {'.'});
  }

  lemma FractionalSecondReads(second: int, fraction: string)
    requires 0 <= second <= 60 && AllDigits(fraction)
    ensures ParseSecond(Pad(second, 2) + "." + fraction) == Some(second * 1000 + FractionMillis(fraction))
  {
    hide Pad, ParseI64, SplitOnce, ParseField, FractionMillis;
    FieldReads(second, 0, 60);
    FractionReads(fraction);
    SplitOnceAt(Pad(second, 2), '.', fraction, {'.'});
  }

  lemma NoSplit(s: string, seps: set<char>)
    requires forall k :: 0 <= k < |s| ==> s[k] !in seps
    ensures SplitOnce(s, seps) == None
  {}

  // ---------------------------------------------------------------------
  // Times
  // ---------------------------------------------------------------------

  lemma TwoParts(h: string, m: string)
    requires ':' !in h && ':' !in m
    ensures Split(h + ":" + m, ':') == [h, m]
  {
    SplitAt(h, ':', m);
    SplitWhole(m, ':');
  }

  lemma ThreeParts(h: string, m: string, s: string)
    requires ':' !in h && ':' !in m && ':' !in s
    ensures Split(h + ":" + (m + ":" + s), ':') == [h, m, s]
  {
    SplitAt(h, ':', m + ":" + s);
    TwoParts(m, s);
  }

  lemma ClockReads(f: Form)
    requires FormOk(f) && !f.DateOnly?
    ensures ParseTime(ClockText(f)) == Some(Meant(Date(1970, 1, 1), f) - DaysFromCivil(Date(1970, 1, 1)) * 86400000)
  {
    hide ParseSecond, ParseField, Pad, Split, FractionMillis, DaysFromCivil;
    FieldReads(f.hour, 0, 23);
    FieldReads(f.minute, 0, 59);
    match f
    case ToMinute(_, h, m) => TwoParts(Pad(h, 2), Pad(m, 2));
    case ToSecond(_, h, m, s) =>
      FieldReads(s, 0, 60);
      ThreeParts(Pad(h, 2), Pad(m, 2), Pad(s, 2));
      WholeSecondReads(s);
    case ToFraction(_, h, m, s, fraction) =>
      FieldReads(s, 0, 60);
      ThreeParts(Pad(h, 2), Pad(m, 2), Pad(s, 2) + "." + fraction);
      FractionalSecondReads(s, fraction);
  }

  // ---------------------------------------------------------------------
  // Trimming
  // ---------------------------------------------------------------------

  /** The code points with the White_Space property of the Unicode Character Database. */
  const WHITE_SPACE: set<int> :=
    {0x9, 0xA, 0xB, 0xC, 0xD, 0x20, 0x85, 0xA0, 0x1680, 0x2000, 0x2001, 0x2002, 0x2003, 0x2004, 0x2005, 0x2006, 0x2007,
     0x2008, 0x2009, 0x200A, 0x2028, 0x2029, 0x202F, 0x205F, 0x3000}

  lemma WhiteIsExact(c: char)
    ensures IsWhite(c) <==> c as int in WHITE_SPACE
  {
    var n := c as int;
    if IsWhite(c) {
      if 0x2000 <= n <= 0x200A { assert n in WHITE_SPACE; }
      assert n in WHITE_SPACE;
    }
  }

  predicate AllWhite(s: string) { forall i :: 0 <= i < |s| ==> s[i] as int in WHITE_SPACE }

  predicate Bare(s: string) { s != [] && !IsWhite(s[0]) && !IsWhite(s[|s| - 1]) }

  lemma {:induction false} TrimStartSkips(lead: string, s: string)
    requires AllWhite(lead) && s != [] && !IsWhite(s[0])
    ensures TrimStart(lead + s) == s
    decreases |lead|
  {
    hide IsWhite;
    if lead == [] {
      assert lead + s == s;
    } else {
      WhiteIsExact(lead[0]);
      assert (lead + s)[1..] == lead[1..] + s;
      TrimStartSkips(lead[1..], s);
    }
  }

  lemma {:induction false} TrimEndSkips(s: string, trail: string)
    requires AllWhite(trail) && s != [] && !IsWhite(s[|s| - 1])
    ensures TrimEnd(s + trail) == s
    decreases |trail|
  {
    hide IsWhite;
    if trail == [] {
      assert s + trail == s;
    } else {
      var n := |trail| - 1;
      WhiteIsExact(trail[n]);
      assert (s + trail)[..|s| + n] == s + trail[..n];
      TrimEndSkips(s, trail[..n]);
    }
  }

  /** Trimming takes exactly the white space around a text. */
  lemma TrimIsExact(lead: string, s: string, trail: string)
    requires AllWhite(lead) && AllWhite(trail) && Bare(s)
    ensures Trim(lead + s + trail) == s
  {
    hide IsWhite;
    assert lead + s + trail == lead + (s + trail);
    TrimStartSkips(lead, s + trail);
    TrimEndSkips(s, trail);
  }

  // ---------------------------------------------------------------------
  // Whole forms
  // ---------------------------------------------------------------------

  /** Text as it is read: white space around it and one trailing `Z` taken off. */
  lemma Stripped(lead: string, s: string, z: bool, trail: string)
    requires AllWhite(lead) && AllWhite(trail) && Bare(s) && s[|s| - 1] != 'Z'
    ensures Parse(lead + (s + if z then "Z" else "") + trail)
            == match SplitOnce(s, {'T', ' '})
               case None => Combine(ParseDate(s), Some(0))
               case Some((date, time)) => Combine(ParseDate(date), ParseTime(time))
  {
    hide SplitOnce, Combine, ParseDate, ParseTime, Trim;
    var whole := s + if z then "Z" else "";
    assert !IsWhite('Z');
    assert Bare(whole);
    TrimIsExact(lead, whole, trail);
    assert z ==> whole[..|whole| - 1] == s;
    assert !z ==> whole == s;
  }

  lemma DateEnds(d: Date)
    requires Calendar.Valid(d) && 0 <= d.year < U63_LIMIT
    ensures DateText(d) != [] && IsDigit(DateText(d)[0]) && IsDigit(DateText(d)[|DateText(d)| - 1])
  {
    hide Pad, ParseI64, IsLeapYear;
    PadReads(d.year, 4); PadReads(d.month, 2); PadReads(d.day, 2);
  }

  lemma ClockEnds(f: Form)
    requires FormOk(f) && !f.DateOnly?
    ensures var t := ClockText(f); t != [] && (IsDigit(t[|t| - 1]) || t[|t| - 1] == '.')
  {
    hide Pad, ParseField;
    FieldReads(f.minute, 0, 59);
    if !f.ToMinute? { FieldReads(f.second, 0, 60); }
  }

  lemma WrittenIsBare(d: Date, f: Form)
    requires Calendar.Valid(d) && FormOk(f) && 0 <= d.year < U63_LIMIT
    ensures Bare(Written(d, f)) && Written(d, f)[|Written(d, f)| - 1] != 'Z'
  {
    hide DateText, ClockText, IsLeapYear;
    DateEnds(d);
    if !f.DateOnly? { ClockEnds(f); }
  }

  /**
   * Every documented form, on every valid date from year zero on, reads as the instant it means when that fits 64 bits
   * and is refused when it does not; a trailing `Z` and white space around it change nothing.
   */
  lemma FormsRead(d: Date, f: Form, lead: string, z: bool, trail: string)
    requires Calendar.Valid(d) && FormOk(f) && 0 <= d.year < U63_LIMIT
    requires AllWhite(lead) && AllWhite(trail)
    ensures Parse(lead + (Written(d, f) + if z then "Z" else "") + trail)
            == if -U63_LIMIT <= Meant(d, f) < U63_LIMIT then Some(Meant(d, f)) else None
  {
    hide Parse, ParseDate, ParseTime, DateText, ClockText, DaysFromCivil, IsLeapYear, AllWhite, Bare, FractionMillis;
    WrittenIsBare(d, f);
    Stripped(lead, Written(d, f), z, trail);
    DateReads(d);
    DateHasNoBlank(d);
    if f.DateOnly? {
      assert Written(d, f) == DateText(d);
      NoSplit(DateText(d), {'T', ' '});
    } else {
      assert Written(d, f) == DateText(d) + [f.sep] + ClockText(f);
      SplitOnceAt(DateText(d), f.sep, ClockText(f), {'T', ' '});
      ClockReads(f);
    }
  }

  // ---------------------------------------------------------------------
  // Refusals
  // ---------------------------------------------------------------------

  function Count(s: string, c: char): nat {
    if s == [] then 0 else (if s[0] == c then 1 else 0) + Count(s[1..], c)
  }

  lemma {:induction false} CountUpTo(s: string, c: char, i: nat)
    requires i <= |s| && forall k :: 0 <= k < i ==> s[k] != c
    ensures Count(s, c) == Count(s[i..], c)
    decreases i
  {
    if i > 0 {
      CountUpTo(s[1..], c, i - 1);
      assert s[1..][i - 1..] == s[i..];
    } else {
      assert s[0..] == s;
    }
  }

  lemma {:induction false} PartsByCount(s: string, sep: char)
    ensures |Split(s, sep)| == Count(s, sep) + 1
    decreases |s|
  {
    var i := Find(s, {sep});
    CountUpTo(s, sep, i);
    if i < |s| {
      assert s[i..][1..] == s[i + 1..];
      PartsByCount(s[i + 1..], sep);
    }
  }

  /** A date without exactly two dashes, or a time without one or two colons, is refused. */
  lemma WrongShapesRefused(date: string, sep: char, time: string)
    requires sep in {'T', ' '} && 'T' !in date && ' ' !in date && Bare(date + [sep] + time)
    requires time != [] && time[|time| - 1] != 'Z'
    ensures Count(date, '-') != 2 || (Count(time, ':') != 1 && Count(time, ':') != 2) ==>
              Parse(date + [sep] + time) == None
  {
    hide Split, Bare, Parse, ParseField, ParseSecond, ParseI64, DaysInMonth, DaysFromCivil;
    var s := date + [sep] + time;
    assert [] + (s + "") + [] == s;
    Stripped([], s, false, []);
    SplitOnceAt(date, sep, time, {'T', ' '});
    PartsByCount(date, '-');
    PartsByCount(time, ':');
  }

  /** So is a date alone without exactly two dashes. */
  lemma WrongDatesRefused(date: string)
    requires 'T' !in date && ' ' !in date && Bare(date) && date[|date| - 1] != 'Z'
    ensures Count(date, '-') != 2 ==> Parse(date) == None
  {
    hide Split, Bare, Parse;
    assert [] + (date + "") + [] == date;
    Stripped([], date, false, []);
    NoSplit(date, {'T', ' '});
    PartsByCount(date, '-');
  }

  // ---------------------------------------------------------------------
  // Offsets
  // ---------------------------------------------------------------------

  /** A UTC offset: a sign and digits, in one run or with a colon inside. */
  datatype Offset = Offset(sign: char, hours: string, colon: bool, minutes: string)

  predicate OffsetOk(o: Offset) {
    o.sign in {'+', '-'} && o.hours != [] && AllDigits(o.hours) && AllDigits(o.minutes) && (o.colon ==> o.minutes != [])
  }

  function OffsetText(o: Offset): string { [o.sign] + o.hours + (if o.colon then ":" else "") + o.minutes }

  /** A sign past the first place is no number. */
  lemma SignInside(s: string, k: nat)
    requires 0 < k < |s| && s[k] in {'+', '-'}
    ensures ParseI64(s) == None
  {
    var body := if s[0] == '-' || s[0] == '+' then s[1..] else s;
    assert s[k] == if s[0] == '-' || s[0] == '+' then body[k - 1] else body[k];
  }

  /** A time followed by an offset without a colon, read: only a fraction of three digits or more hides it. */
  lemma RunTogether(f: Form, o: Offset)
    requires FormOk(f) && !f.DateOnly? && OffsetOk(o) && !o.colon && (f.ToFraction? ==> f.fraction != [])
    ensures ParseTime(ClockText(f) + OffsetText(o))
            == if f.ToFraction? && |f.fraction| >= 3 then ParseTime(ClockText(f)) else None
  {
    hide ParseI64, Pad, Split, SplitOnce;
    var tail := OffsetText(o);
    FieldReads(f.hour, 0, 23);
    FieldReads(f.minute, 0, 59);
    assert ':' !in tail && '.' !in tail;
    match f
    case ToMinute(_, h, m) =>
      assert ClockText(f) + tail == Pad(h, 2) + ":" + (Pad(m, 2) + tail);
      TwoParts(Pad(h, 2), Pad(m, 2) + tail);
      SignInside(Pad(m, 2) + tail, |Pad(m, 2)|);
    case ToSecond(_, h, m, s) =>
      FieldReads(s, 0, 60);
      assert ClockText(f) + tail == Pad(h, 2) + ":" + (Pad(m, 2) + ":" + (Pad(s, 2) + tail));
      ThreeParts(Pad(h, 2), Pad(m, 2), Pad(s, 2) + tail);
      NoSplit(Pad(s, 2) + tail, {'.'});
      SignInside(Pad(s, 2) + tail, |Pad(s, 2)|);
    case ToFraction(_, h, m, s, fraction) =>
      FieldReads(s, 0, 60);
      var last := Pad(s, 2) + "." + fraction;
      assert ClockText(f) + tail == Pad(h, 2) + ":" + (Pad(m, 2) + ":" + (last + tail));
      ThreeParts(Pad(h, 2), Pad(m, 2), last + tail);
      ThreeParts(Pad(h, 2), Pad(m, 2), last);
      FractionWithTail(s, fraction, tail);
  }

  lemma FractionWithTail(s: int, fraction: string, tail: string)
    requires 0 <= s <= 60 && AllDigits(fraction) && fraction != [] && tail != [] && tail[0] in {'+', '-'}
    ensures ParseSecond(Pad(s, 2) + "." + fraction + tail)
            == if |fraction| >= 3 then ParseSecond(Pad(s, 2) + "." + fraction) else None
  {
    hide ParseI64, Pad, SplitOnce;
    FieldReads(s, 0, 60);
    assert Pad(s, 2) + "." + fraction + tail == Pad(s, 2) + ['.'] + (fraction + tail);
    SplitOnceAt(Pad(s, 2), '.', fraction + tail, {'.'});
    SplitOnceAt(Pad(s, 2), '.', fraction, {'.'});
    var scaled := (fraction + tail + "000")[..3];
    if |fraction| >= 3 {
      assert scaled == (fraction + "000")[..3];
    } else {
      assert scaled[|fraction|] == tail[0];
      SignInside(scaled, |fraction|);
    }
  }

  lemma {:induction false} CountJoins(a: string, b: string, c: char)
    ensures Count(a + b, c) == Count(a, c) + Count(b, c)
    decreases |a|
  {
    if a == [] {
      assert a + b == b;
    } else {
      assert (a + b)[1..] == a[1..] + b;
      CountJoins(a[1..], b, c);
    }
  }

  lemma {:induction false} CountNone(s: string, c: char)
    requires c !in s
    ensures Count(s, c) == 0
    decreases |s|
  {
    if s != [] { CountNone(s[1..], c); }
  }

  lemma {:induction false} CountSome(s: string, c: char)
    requires c in s
    ensures Count(s, c) > 0
    decreases |s|
  {
    if s[0] != c { CountSome(s[1..], c); }
  }

  /** A time to the second followed by an offset with a colon has a part too many. */
  lemma ColonRefused(f: Form, o: Offset)
    requires FormOk(f) && !f.DateOnly? && OffsetOk(o) && o.colon
    ensures ParseTime(ClockText(f) + OffsetText(o)) == None
  {
    hide ParseI64, Pad, Split, SplitOnce, ParseSecond;
    var tail := OffsetText(o);
    FieldReads(f.hour, 0, 23);
    FieldReads(f.minute, 0, 59);
    var front := [o.sign] + o.hours;
    assert tail == front + ":" + o.minutes;
    if f.ToMinute? {
      var minute := Pad(f.minute, 2) + front;
      assert ClockText(f) + tail == Pad(f.hour, 2) + ":" + (minute + ":" + o.minutes);
      ThreeParts(Pad(f.hour, 2), minute, o.minutes);
      SignInside(minute, |Pad(f.minute, 2)|);
    } else {
      PartsByCount(ClockText(f) + tail, ':');
      FieldReads(f.second, 0, 60);
      ClockColons(f);
      CountSome(tail, ':');
      CountJoins(ClockText(f), tail, ':');
    }
  }

  lemma ClockColons(f: Form)
    requires FormOk(f) && (f.ToSecond? || f.ToFraction?)
    ensures Count(ClockText(f), ':') == 2
  {
    hide Pad, ParseField;
    FieldReads(f.hour, 0, 23);
    FieldReads(f.minute, 0, 59);
    FieldReads(f.second, 0, 60);
    var h, m := Pad(f.hour, 2), Pad(f.minute, 2);
    var s := if f.ToSecond? then Pad(f.second, 2) else Pad(f.second, 2) + "." + f.fraction;
    CountNone(h, ':'); CountNone(m, ':'); CountNone(s, ':'); CountNone([], ':');
    CountJoins(h + ":", m + ":" + s, ':');
    CountJoins(h, ":", ':');
    CountJoins(m + ":", s, ':');
    CountJoins(m, ":", ':');
    assert ":"[1..] == [];
  }

  /**
   * A form followed by an offset is refused, as promised, exactly unless it carries a fraction of three digits or more
   * and the offset has no colon; then the offset is read over.
   */
  lemma OffsetsRefused(d: Date, f: Form, o: Offset)
    requires Calendar.Valid(d) && FormOk(f) && 0 <= d.year < U63_LIMIT && OffsetOk(o)
    requires f.ToFraction? ==> f.fraction != []
    ensures Parse(Written(d, f) + OffsetText(o))
            == if f.ToFraction? && |f.fraction| >= 3 && !o.colon then Parse(Written(d, f)) else None
  {
    hide Parse, ParseDate, ParseTime, DateText, ClockText, DaysFromCivil, IsLeapYear, Bare, OffsetText, SplitOnce;
    hide Combine;
    WrittenIsBare(d, f);
    OffsetEnds(o);
    DateHasNoBlank(d);
    var s := Written(d, f) + OffsetText(o);
    BareMore(Written(d, f), OffsetText(o));
    assert [] + (s + "") + [] == s && [] + (Written(d, f) + "") + [] == Written(d, f);
    Stripped([], s, false, []);
    Stripped([], Written(d, f), false, []);
    if f.DateOnly? {
      assert s == DateText(d) + OffsetText(o);
      DateWithTail(d, o);
      NoSplit(s, {'T', ' '});
    } else {
      assert s == DateText(d) + [f.sep] + (ClockText(f) + OffsetText(o));
      assert Written(d, f) == DateText(d) + [f.sep] + ClockText(f);
      SplitOnceAt(DateText(d), f.sep, ClockText(f) + OffsetText(o), {'T', ' '});
      SplitOnceAt(DateText(d), f.sep, ClockText(f), {'T', ' '});
      if o.colon { ColonRefused(f, o); } else { RunTogether(f, o); }
      NothingCombines(ParseDate(DateText(d)));
    }
  }

  lemma NothingCombines(date: Option<Date>)
    ensures Combine(date, None) == None && Combine(None, Some(0)) == None
  {}

  lemma BareMore(s: string, tail: string)
    requires Bare(s) && tail != [] && IsDigit(tail[|tail| - 1])
    ensures Bare(s + tail) && (s + tail)[|s + tail| - 1] != 'Z'
  {}

  lemma OffsetEnds(o: Offset)
    requires OffsetOk(o)
    ensures var t := OffsetText(o);
            && t != [] && IsDigit(t[|t| - 1]) && t[0] in {'+', '-'}
            && forall k :: 0 <= k < |t| ==> t[k] !in {'T', ' '}
  {}

  lemma DateWithTail(d: Date, o: Offset)
    requires Calendar.Valid(d) && 0 <= d.year < U63_LIMIT && OffsetOk(o)
    ensures ParseDate(DateText(d) + OffsetText(o)) == None && Combine(None, Some(0)) == None
  {
    hide Pad, ParseI64, IsLeapYear, Split;
    PadReads(d.year, 4); PadReads(d.month, 2); PadReads(d.day, 2);
    var y, m, last, tail := Pad(d.year, 4), Pad(d.month, 2), Pad(d.day, 2), OffsetText(o);
    assert DateText(d) + tail == y + ['-'] + (m + ['-'] + (last + tail));
    SplitAt(y, '-', m + ['-'] + (last + tail));
    SplitAt(m, '-', last + tail);
    if o.sign == '-' {
      assert last + tail == last + ['-'] + tail[1..];
      SplitAt(last, '-', tail[1..]);
    } else {
      SplitWhole(last + tail, '-');
      SignInside(last + tail, |last|);
    }
  }

  /** An offset after milliseconds goes unnoticed: midnight in any zone reads as midnight UTC. */
  lemma OffsetIsReadOver(d: Date, o: Offset)
    requires Calendar.Valid(d) && 0 <= d.year < U63_LIMIT && OffsetOk(o) && !o.colon
    requires -U63_LIMIT <= DaysFromCivil(d) * 86400000 < U63_LIMIT
    ensures Parse(Written(d, ToFraction('T', 0, 0, 0, "000")) + OffsetText(o)) == Some(DaysFromCivil(d) * 86400000)
  {
    hide Parse, DaysFromCivil, Written, IsLeapYear, OffsetText;
    var f := ToFraction('T', 0, 0, 0, "000");
    OffsetsRefused(d, f, o);
    FormsRead(d, f, [], false, []);
    assert [] + (Written(d, f) + "") + [] == Written(d, f);
  }

  // ---------------------------------------------------------------------
  // What formatting writes
  // ---------------------------------------------------------------------

  lemma TwoWide(n: nat)
    requires n < 100
    ensures |Pad(n, 2)| == 2
  {
    assert n >= 10 ==> Digits(n) == Digits(n / 10) + [Digit(n % 10)];
  }

  lemma FourWide(n: nat)
    requires n < 10000
    ensures |Pad(n, 4)| == 4 && (n < 1000 ==> |Pad(n, 3)| == 3)
  {
    hide Digits;
    if n < 1000 {
      ThreeDigits(n);
    } else {
      MoreDigits(n);
      ThreeDigits(n / 10);
    }
  }

  lemma MoreDigits(n: nat)
    requires n >= 10
    ensures |Digits(n)| == |Digits(n / 10)| + 1
  {}

  /** Four-character years are written in 23 characters: date, space, time and milliseconds, each field in its place. */
  lemma FormatShape(ms: int)
    requires -U63_LIMIT <= ms < U63_LIMIT && -1000 < DateOf(ms).year < 10000
    ensures var t := Format(ms);
            && |t| == 23 && t[4] == '-' && t[7] == '-' && t[10] == ' ' && t[13] == ':' && t[16] == ':' && t[19] == '.'
            && t[..4] == (if DateOf(ms).year < 0 then "-" + Pad(-DateOf(ms).year, 3) else Pad(DateOf(ms).year, 4))
            && t[5..7] == Pad(DateOf(ms).month, 2) && t[8..10] == Pad(DateOf(ms).day, 2)
            && t[11..13] == Pad(ms / 3600000 % 24, 2) && t[14..16] == Pad(ms / 60000 % 60, 2)
            && t[17..19] == Pad(ms / 1000 % 60, 2) && t[20..] == Pad(ms % 1000, 3)
  {
    hide CivilFromDays, IsLeapYear, Pad;
    CivilInverts(DayOf(ms));
    var d, tod := DateOf(ms), SecondOfDay(ms);
    FourWide(if d.year < 0 then -d.year else d.year);
    TwoWide(d.month); TwoWide(d.day);
    TwoWide(tod / 3600); TwoWide(tod % 3600 / 60); TwoWide(tod % 60);
    FourWide(ms % 1000);
    ClockFields(ms);
    FieldsInPlace(YearText(d.year), Pad(d.month, 2), Pad(d.day, 2), Pad(tod / 3600, 2), Pad(tod % 3600 / 60, 2),
                  Pad(tod % 60, 2), Pad(ms % 1000, 3), Format(ms));
  }

  lemma FieldsInPlace(year: string, month: string, day: string, hour: string, minute: string, second: string,
                      millis: string, t: string)
    requires |year| == 4 && |month| == 2 && |day| == 2 && |hour| == 2 && |minute| == 2 && |second| == 2 && |millis| == 3
    requires t == year + "-" + (month + "-" + day) + " " + (hour + ":" + (minute + ":" + (second + "." + millis)))
    ensures |t| == 23 && t[4] == '-' && t[7] == '-' && t[10] == ' ' && t[13] == ':' && t[16] == ':' && t[19] == '.'
    ensures t[5..7] == month && t[8..10] == day && t[11..13] == hour && t[14..16] == minute && t[17..19] == second
    ensures t[..4] == year && t[20..] == millis
  {}

  lemma ClockFields(ms: int)
    ensures var tod := SecondOfDay(ms);
            && tod / 3600 == ms / 3600000 % 24 && tod % 3600 / 60 == ms / 60000 % 60 && tod % 60 == ms / 1000 % 60
  {
    var q, k, tod := ms / 1000, DayOf(ms), SecondOfDay(ms);
    assert q == 86400 * k + tod;
    SixtyInto(q, 1440 * k + tod / 60, tod % 60);
    SixtyInto(q / 60, 24 * k + tod / 3600, tod % 3600 / 60);
    DayInto(q / 3600, k, tod / 3600);
    assert ms / 60000 == q / 60 && ms / 3600000 == q / 3600;
  }

  lemma SixtyInto(q: int, a: int, r: int)
    requires q == 60 * a + r && 0 <= r < 60
    ensures q / 60 == a && q % 60 == r
  {}

  lemma DayInto(q: int, a: int, r: int)
    requires q == 24 * a + r && 0 <= r < 24
    ensures q % 24 == r
  {}
}
