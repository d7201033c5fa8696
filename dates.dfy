/** Calendar dates, the closing-date normaliser of the expiry sweep and the
    `DD-MM-YYYY HH:MM:SS` formatting of the row builder.

    The normaliser tries `datetime.strptime(s, "%d-%m-%Y")` and then
    `datetime.strptime(s, "%Y-%m-%d")`. With the pattern CPython builds for
    those directives and its requirement that the whole text be consumed, a
    text is accepted exactly when it splits at `-` into three pieces where a
    day piece is one or two digits worth 1 to 31, a month piece one or two
    digits worth 1 to 12, a year piece exactly four digits, and the three
    numbers form a real calendar date (year 1 to 9999). */
module Dates {
  import opened Wrappers
  import opened Strings

  datatype Date = Date(year: nat, month: nat, day: nat)

  /** A structured timestamp as the spreadsheet reader delivers it. */
  datatype DateTime = DateTime(year: nat, month: nat, day: nat, hour: nat, minute: nat, second: nat)

  function DateOf(t: DateTime): Date {
    Date(t.year, t.month, t.day)
  }

  predicate IsLeapYear(y: nat) {
    y % 4 == 0 && (y % 100 != 0 || y % 400 == 0)
  }

  function DaysInMonth(y: nat, m: nat): nat
    requires 1 <= m <= 12
  {
    if m == 2 then (if IsLeapYear(y) then 29 else 28)
    else if m == 4 || m == 6 || m == 9 || m == 11 then 30
    else 31
  }

  /** The dates Python's `datetime.date` accepts. */
  predicate ValidDate(d: Date) {
    1 <= d.year <= 9999 && 1 <= d.month <= 12 && 1 <= d.day <= DaysInMonth(d.year, d.month)
  }

  /** `a < b` on `datetime.date`: year, then month, then day. */
  predicate Before(a: Date, b: Date) {
    a.year < b.year || (a.year == b.year && (a.month < b.month || (a.month == b.month && a.day < b.day)))
  }

  /** `<` on dates is a strict total order: never both ways, never a date
      before itself, transitive, and any two different dates compare. */
  lemma BeforeIsStrictOrder(a: Date, b: Date, c: Date)
    ensures !Before(a, a)
    ensures Before(a, b) ==> !Before(b, a)
    ensures Before(a, b) && Before(b, c) ==> Before(a, c)
    ensures a != b ==> Before(a, b) || Before(b, a)
  {
  }

  /** The texts the `%d` directive accepts here. */
  predicate DayToken(t: string) {
    1 <= |t| <= 2 && AllDigits(t) && 1 <= Value(t) <= 31
  }

  /** The texts the `%m` directive accepts. */
  predicate MonthToken(t: string) {
    1 <= |t| <= 2 && AllDigits(t) && 1 <= Value(t) <= 12
  }

  /** The texts the `%Y` directive accepts: exactly four digits. */
  predicate YearToken(t: string) {
    |t| == 4 && AllDigits(t)
  }

  function DateFrom(y: nat, m: nat, d: nat): (r: Option<Date>)
    ensures r.Some? <==> ValidDate(Date(y, m, d))
    ensures r.Some? ==> r.value == Date(y, m, d)
  {
    if ValidDate(Date(y, m, d)) then Some(Date(y, m, d)) else None
  }

  /** `strptime(s, "%d-%m-%Y").date()`, None where it raises ValueError. */
  function ParseDayFirst(s: string): (r: Option<Date>)
    ensures r.Some? ==> ValidDate(r.value)
    ensures var p := Split(s, '-');
      r.Some? <==> |p| == 3 && DayToken(p[0]) && MonthToken(p[1]) && YearToken(p[2])
                   && ValidDate(Date(Value(p[2]), Value(p[1]), Value(p[0])))
    ensures r.Some? ==> var p := Split(s, '-');
      r.value == Date(Value(p[2]), Value(p[1]), Value(p[0]))
  {
    var p := Split(s, '-');
    if |p| == 3 && DayToken(p[0]) && MonthToken(p[1]) && YearToken(p[2])
    then DateFrom(Value(p[2]), Value(p[1]), Value(p[0]))
    else None
  }

  /** `strptime(s, "%Y-%m-%d").date()`, None where it raises ValueError. */
  function ParseYearFirst(s: string): (r: Option<Date>)
    ensures r.Some? ==> ValidDate(r.value)
    ensures var p := Split(s, '-');
      r.Some? <==> |p| == 3 && YearToken(p[0]) && MonthToken(p[1]) && DayToken(p[2])
                   && ValidDate(Date(Value(p[0]), Value(p[1]), Value(p[2])))
    ensures r.Some? ==> var p := Split(s, '-');
      r.value == Date(Value(p[0]), Value(p[1]), Value(p[2]))
  {
    var p := Split(s, '-');
    if |p| == 3 && YearToken(p[0]) && MonthToken(p[1]) && DayToken(p[2])
    then DateFrom(Value(p[0]), Value(p[1]), Value(p[2]))
    else None
  }

  /** Day-month-year first; year-month-day only when that fails. */
  function ParseSegment(s: string): (r: Option<Date>)
    ensures r.Some? ==> ValidDate(r.value)
    ensures r.Some? <==> ParseDayFirst(s).Some? || ParseYearFirst(s).Some?
    ensures ParseDayFirst(s).None? ==> r == ParseYearFirst(s)
  {
    var dmy := ParseDayFirst(s);
    if dmy.Some? then dmy else ParseYearFirst(s)
  }

  /** The two orders never both accept one text, so trying day-first before
      year-first decides nothing: a text has at most one reading. */
  lemma OrdersExclusive(s: string)
    ensures ParseDayFirst(s).None? || ParseYearFirst(s).None?
  {
  }

  /** `raw.replace("/", "-").split(" ")[0].strip()`. */
  function CleanSegment(raw: string): (r: string)
    ensures '/' !in r
    ensures r == [] || (!IsSpace(r[0]) && !IsSpace(r[|r| - 1]))
    ensures ' ' !in r
  {
    Strip(Split(ReplaceChar(raw, '/', '-'), ' ')[0])
  }

  /** Texts of this many characters or fewer are never read as dates. */
  const ShortText: nat := 8

  /** The closing date the sweep reads from a stored text, or None ("keep"). */
  function Normalise(raw: string): (r: Option<Date>)
    ensures r.Some? ==> |raw| > ShortText && ValidDate(r.value)
    ensures r.Some? <==> |raw| > ShortText && ParseSegment(CleanSegment(raw)).Some?
  {
    if |raw| <= ShortText then None else ParseSegment(CleanSegment(raw))
  }

  /** The date part of `strftime("%d-%m-%Y %H:%M:%S")`. */
  function DayFirstText(t: DateTime): string {
    Pad(t.day, 2) + "-" + Pad(t.month, 2) + "-" + Pad(t.year, 4)
  }

  function ClockText(t: DateTime): string {
    Pad(t.hour, 2) + ":" + Pad(t.minute, 2) + ":" + Pad(t.second, 2)
  }

  /** `t.strftime("%d-%m-%Y %H:%M:%S")`. */
  function FormatStamp(t: DateTime): string {
    DayFirstText(t) + " " + ClockText(t)
  }

  /** `str(t)` of a timestamp: `YYYY-MM-DD HH:MM:SS`. */
  function IsoStamp(t: DateTime): string {
    Pad(t.year, 4) + "-" + Pad(t.month, 2) + "-" + Pad(t.day, 2) + " " + ClockText(t)
  }

  /** Three runs of digits joined by dashes hold no whitespace and no slash. */
  lemma DashedDigitsChars(dd: string, mm: string, yyyy: string)
    requires AllDigits(dd) && AllDigits(mm) && AllDigits(yyyy)
    ensures var s := dd + "-" + mm + "-" + yyyy;
      NoSpace(s) && '/' !in s && ' ' !in s
  {
    DigitsOnly(dd);
    DigitsOnly(mm);
    DigitsOnly(yyyy);
  }

  /** The date part of a formatted timestamp: digits and dashes only. */
  lemma DayFirstTextChars(t: DateTime)
    ensures |DayFirstText(t)| >= 10
    ensures NoSpace(DayFirstText(t)) && '/' !in DayFirstText(t) && ' ' !in DayFirstText(t)
  {
    PadFacts(t.day, 2);
    PadFacts(t.month, 2);
    PadFacts(t.year, 4);
    DashedDigitsChars(Pad(t.day, 2), Pad(t.month, 2), Pad(t.year, 4));
  }

  /** The time part of a formatted timestamp: digits and colons only. */
  lemma ClockTextChars(t: DateTime)
    ensures '/' !in ClockText(t)
  {
    var hh, mi, ss := Pad(t.hour, 2), Pad(t.minute, 2), Pad(t.second, 2);
    PadFacts(t.hour, 2);
    PadFacts(t.minute, 2);
    PadFacts(t.second, 2);
    DigitsOnly(hh);
    DigitsOnly(mi);
    DigitsOnly(ss);
    assert ClockText(t) == hh + [':'] + mi + [':'] + ss;
  }

  /** Cleaning a formatted timestamp leaves exactly its date part. */
  lemma {:induction false} CleanFormattedStamp(t: DateTime)
    ensures CleanSegment(FormatStamp(t)) == DayFirstText(t)
  {
    var date, clock := DayFirstText(t), ClockText(t);
    DayFirstTextChars(t);
    ClockTextChars(t);
    var s := FormatStamp(t);
    assert s == date + [' '] + clock;
    assert '/' !in s;
    ReplaceAbsent(s, '/', '-');
    SplitAtFirst(date, ' ', clock);
  }

  /** A day, a month and a year token that name a real date, joined by
      dashes, parse day-first to that date. */
  lemma DashedDateParses(dd: string, mm: string, yyyy: string)
    requires DayToken(dd) && MonthToken(mm) && YearToken(yyyy)
    requires ValidDate(Date(Value(yyyy), Value(mm), Value(dd)))
    ensures ParseDayFirst(dd + "-" + mm + "-" + yyyy) == Some(Date(Value(yyyy), Value(mm), Value(dd)))
  {
    DigitsOnly(dd);
    DigitsOnly(mm);
    DigitsOnly(yyyy);
    JoinThree(dd, mm, yyyy, '-');
    SplitOfJoin([dd, mm, yyyy], '-');
  }

  /** A year, a month and a day token that name a real date, joined by
      dashes, are refused day-first and parse year-first to that date. */
  lemma DashedYearFirstParses(yyyy: string, mm: string, dd: string)
    requires YearToken(yyyy) && MonthToken(mm) && DayToken(dd)
    requires ValidDate(Date(Value(yyyy), Value(mm), Value(dd)))
    ensures ParseDayFirst(yyyy + "-" + mm + "-" + dd) == None
    ensures ParseSegment(yyyy + "-" + mm + "-" + dd) == Some(Date(Value(yyyy), Value(mm), Value(dd)))
  {
    DigitsOnly(dd);
    DigitsOnly(mm);
    DigitsOnly(yyyy);
    JoinThree(yyyy, mm, dd, '-');
    SplitOfJoin([yyyy, mm, dd], '-');
  }

  /** Replacing slashes in three runs of digits separated by `-` or `/`
      leaves them separated by dashes. */
  lemma SlashedDigits(a: string, b: string, c: string, sep: char, rest: string)
    requires AllDigits(a) && AllDigits(b) && AllDigits(c)
    requires sep == '-' || sep == '/'
    ensures ReplaceChar(a + [sep] + b + [sep] + c + rest, '/', '-')
         == a + "-" + b + "-" + c + ReplaceChar(rest, '/', '-')
  {
    DigitsOnly(a);
    DigitsOnly(b);
    DigitsOnly(c);
    ReplaceAbsent(a, '/', '-');
    ReplaceAbsent(b, '/', '-');
    ReplaceAbsent(c, '/', '-');
    ReplaceConcat(a, [sep], '/', '-');
    ReplaceConcat(a + [sep], b, '/', '-');
    ReplaceConcat(a + [sep] + b, [sep], '/', '-');
    ReplaceConcat(a + [sep] + b + [sep], c, '/', '-');
    ReplaceConcat(a + [sep] + b + [sep] + c, rest, '/', '-');
  }

  /** Three runs of digits separated by `-` or `/`, followed by nothing or
      by a space and anything, clean to the three runs joined by dashes. */
  lemma {:induction false} CleanDateText(a: string, b: string, c: string, sep: char, rest: string)
    requires AllDigits(a) && AllDigits(b) && AllDigits(c)
    requires sep == '-' || sep == '/'
    requires rest == [] || rest[0] == ' '
    ensures CleanSegment(a + [sep] + b + [sep] + c + rest) == a + "-" + b + "-" + c
  {
    var date := a + "-" + b + "-" + c;
    var tail := ReplaceChar(rest, '/', '-');
    SlashedDigits(a, b, c, sep, rest);
    DashedDigitsChars(a, b, c);
    if rest == [] {
      assert date + tail == date;
      SplitWithoutSeparator(date, ' ');
    } else {
      assert date + tail == date + [' '] + tail[1..];
      SplitAtFirst(date, ' ', tail[1..]);
    }
  }

  /** `DD-MM-YYYY` or `DD/MM/YYYY`, with or without a time after a space,
      is read as that date once it is longer than eight characters. */
  lemma NormaliseDayFirst(dd: string, mm: string, yyyy: string, sep: char, rest: string)
    requires DayToken(dd) && MonthToken(mm) && YearToken(yyyy)
    requires ValidDate(Date(Value(yyyy), Value(mm), Value(dd)))
    requires sep == '-' || sep == '/'
    requires rest == [] || rest[0] == ' '
    requires |dd + [sep] + mm + [sep] + yyyy + rest| > ShortText
    ensures Normalise(dd + [sep] + mm + [sep] + yyyy + rest) == Some(Date(Value(yyyy), Value(mm), Value(dd)))
  {
    CleanDateText(dd, mm, yyyy, sep, rest);
    DashedDateParses(dd, mm, yyyy);
  }

  /** `YYYY-MM-DD` or `YYYY/MM/DD`, with or without a time after a space,
      is read as that date by the year-first fallback once it is longer
      than eight characters (`2025-3-1` is not). */
  lemma NormaliseYearFirst(yyyy: string, mm: string, dd: string, sep: char, rest: string)
    requires YearToken(yyyy) && MonthToken(mm) && DayToken(dd)
    requires ValidDate(Date(Value(yyyy), Value(mm), Value(dd)))
    requires sep == '-' || sep == '/'
    requires rest == [] || rest[0] == ' '
    requires |yyyy + [sep] + mm + [sep] + dd + rest| > ShortText
    ensures Normalise(yyyy + [sep] + mm + [sep] + dd + rest) == Some(Date(Value(yyyy), Value(mm), Value(dd)))
  {
    CleanDateText(yyyy, mm, dd, sep, rest);
    DashedYearFirstParses(yyyy, mm, dd);
  }

  /** Slashes are read exactly like dashes. */
  lemma SlashesReadAsDashes(raw: string)
    ensures Normalise(ReplaceChar(raw, '/', '-')) == Normalise(raw)
  {
    ReplaceTwice(raw, '/', '-');
  }

  /** The date part of a formatted timestamp parses day-first to its date. */
  lemma DayFirstTextParses(t: DateTime)
    requires ValidDate(DateOf(t))
    ensures ParseDayFirst(DayFirstText(t)) == Some(DateOf(t))
  {
    PadFacts(t.day, 2);
    PadFacts(t.month, 2);
    PadFacts(t.year, 4);
    assert DayToken(Pad(t.day, 2)) && MonthToken(Pad(t.month, 2));
    DashedDateParses(Pad(t.day, 2), Pad(t.month, 2), Pad(t.year, 4));
  }

  /** A closing timestamp written by the row builder is read back by the
      sweep as the same calendar date. */
  lemma {:induction false} FormatStampNormalises(t: DateTime)
    requires ValidDate(DateOf(t))
    ensures Normalise(FormatStamp(t)) == Some(DateOf(t))
  {
    CleanFormattedStamp(t);
    DayFirstTextParses(t);
    DayFirstTextChars(t);
  }

  /** A timestamp turned into text by `str` (`YYYY-MM-DD HH:MM:SS`) is read
      back by the year-first fallback as the same calendar date. */
  lemma {:induction false} IsoStampNormalises(t: DateTime)
    requires ValidDate(DateOf(t))
    ensures Normalise(IsoStamp(t)) == Some(DateOf(t))
  {
    var yyyy, mm, dd := Pad(t.year, 4), Pad(t.month, 2), Pad(t.day, 2);
    PadFacts(t.year, 4);
    PadFacts(t.month, 2);
    PadFacts(t.day, 2);
    var rest := " " + ClockText(t);
    assert IsoStamp(t) == yyyy + ['-'] + mm + ['-'] + dd + rest;
    NormaliseYearFirst(yyyy, mm, dd, '-', rest);
  }
}
