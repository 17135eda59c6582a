// The International Fixed Calendar (IFC) side of the converter: the name
// tables, the 13 x 28 grid, the special days outside it, the conversion of
// a Gregorian date and the string it is written as.
module Ifc {

  import opened Wrappers
  import opened Decimal
  import opened Gregorian
  import opened IfcNames

  /** What the converter names a day: a day of the 13 x 28 grid, or one of the
      two days outside it. `year` is the year the label carries. */
  datatype IfcDay =
    | Regular(dayOfMonth: int, month: int, year: int)
    | LeapDay(year: int)
    | NewYearsDay(year: int)

  /** A grid day lies in one of the 13 months (0-based) and on one of their 28 days. */
  predicate WellFormed(x: IfcDay) {
    x.Regular? ==> 1 <= x.dayOfMonth <= 28 && 0 <= x.month <= 12
  }

  /** The provisional month (0-based) and day of month of `toIFCString`. */
  datatype GridPos = GridPos(month: int, dayOfMonth: int)

  /** `Math.floor((dayOfYear - 1) / 28)` and `dayOfYear % 28`, a zero remainder
      read as 28: the position of an ordinal in consecutive 28-day months. */
  function Split(dayOfYear: int): (p: GridPos)
    requires 1 <= dayOfYear
    ensures 28 * p.month + p.dayOfMonth == dayOfYear
    ensures 0 <= p.month && 1 <= p.dayOfMonth <= 28
    ensures dayOfYear <= 392 ==> p.month <= 13
  {
    GridPos((dayOfYear - 1) / 28, if dayOfYear % 28 == 0 then 28 else dayOfYear % 28)
  }

  /** Specification: the day at place `k` (1-based) of a year laid out as 13
      months of 28 days, then New Year's Day and then, if there is one, the
      leap day; the labels of the two extra days carry the following year. */
  function GridDay(k: int, year: int): IfcDay
    requires 1 <= k <= 366
  {
    if k == 365 then NewYearsDay(year + 1)
    else if k == 366 then LeapDay(year + 1)
    else Regular((k - 1) % 28 + 1, (k - 1) / 28, year)
  }

  /** Specification of `toIFCString` before formatting. In the original scheme
      the leap day is ordinal 169 of a leap year, and every later day takes the
      grid place one earlier; in the proposed scheme and in common years the
      ordinal is the grid place. */
  function IfcDate(date: Date, useProposed: bool): (r: IfcDay)
    requires ValidDate(date)
    ensures WellFormed(r)
  {
    DayOfYearRange(date);
    var n := DayOfYear(date);
    var original := IsLeapYear(date.year) && !useProposed;
    if original && n == 169 then LeapDay(date.year)
    else GridDay(if original && n > 169 then n - 1 else n, date.year)
  }

  /** The day-of-week name of a grid day: `shortDayNames[dayOfMonth % 7]`. Days 1,
      8, 15 and 22 are Sundays and every seventh day a Saturday, so every month
      starts on a Sunday. */
  function WeekdayIndex(dayOfMonth: int): (w: int)
    requires 1 <= dayOfMonth
    ensures 0 <= w < |ShortDayNames|
    ensures ShortDayNames[w] == "Sun" <==> dayOfMonth % 7 == 1
    ensures ShortDayNames[w] == "Sat" <==> dayOfMonth % 7 == 0
  {
    dayOfMonth % 7
  }

  /** The string `toIFCString` returns for a day: `Leap Day <year>`,
      `New Years Day <year>` or `<DayShort>, <DD> <MonShort> <year>`. */
  function Format(x: IfcDay): string
    requires WellFormed(x)
  {
    match x
    case LeapDay(y) => "Leap Day " + IntToString(y)
    case NewYearsDay(y) => "New Years Day " + IntToString(y)
    case Regular(dom, m, y) =>
      ShortDayNames[WeekdayIndex(dom)] + ", " + PadStart(NatToString(dom), 2, '0') + " "
        + IfcShortMonthNames[m] + " " + IntToString(y)
  }

  /** `toIFCString(date, useProposed)`, with its reassigned locals and early returns. */
  method ToIfcString(date: Date, useProposed: bool := false) returns (s: string)
    requires ValidDate(date)
    ensures s == Format(IfcDate(date, useProposed))
  {
    var year := date.year;
    var isLeapYear := IsLeapYear(year);

    var dayOfYear := DayOfYear(date);
    DayOfYearRange(date);
    var pos := Split(dayOfYear);
    var month, dayOfMonth := pos.month, pos.dayOfMonth;

    if isLeapYear && !useProposed {
      if month == 6 && dayOfMonth == 1 {
        assert IfcDate(date, useProposed) == LeapDay(year);
        return Format(LeapDay(year));
      }
      if month >= 6 {
        dayOfYear := dayOfYear - 1;
        pos := Split(dayOfYear);
        month, dayOfMonth := pos.month, pos.dayOfMonth;
      }
    }
    assert 28 * month + dayOfMonth == dayOfYear <= 366;

    if month == 13 {
      if dayOfMonth == 1 {
        assert IfcDate(date, useProposed) == NewYearsDay(year + 1);
        return Format(NewYearsDay(year + 1));
      }
      if dayOfMonth == 2 {
        assert IfcDate(date, useProposed) == LeapDay(year + 1);
        return Format(LeapDay(year + 1));
      }
    }
    GridPlace(dayOfYear, month, dayOfMonth);
    assert IfcDate(date, useProposed) == Regular(dayOfMonth, month, year);
    s := Format(Regular(dayOfMonth, month, year));
  }

  /** The provisional month and day are the quotient and the shifted remainder
      of the grid place. */
  lemma GridPlace(k: int, month: int, dayOfMonth: int)
    requires 28 * month + dayOfMonth == k && 1 <= dayOfMonth <= 28
    ensures month == (k - 1) / 28 && dayOfMonth == (k - 1) % 28 + 1
  {
  }

  /** The first index at or after `from` holding `name`. */
  function IndexOf(names: seq<string>, name: string, from: nat): (r: Option<int>)
    requires from <= |names|
    ensures r.Some? ==> from <= r.value < |names| && names[r.value] == name
    ensures r.Some? ==> forall i :: from <= i < r.value ==> names[i] != name
    ensures r.None? ==> forall i :: from <= i < |names| ==> names[i] != name
    decreases |names| - from
  {
    if from == |names| then None
    else if names[from] == name then Some(from)
    else IndexOf(names, name, from + 1)
  }

  /** Reads back a string `Format` writes; `None` for any other string. */
  function Parse(s: string): Option<IfcDay> {
    if 9 <= |s| && s[..9] == "Leap Day " && IsIntString(s[9..]) then
      Some(LeapDay(ParseInt(s[9..])))
    else if 14 <= |s| && s[..14] == "New Years Day " && IsIntString(s[14..]) then
      Some(NewYearsDay(ParseInt(s[14..])))
    else if 13 <= |s| && s[3..5] == ", " && AllDigits(s[5..7]) && s[7] == ' ' && s[11] == ' '
            && IsIntString(s[12..]) then
      ParseRegular(s[..3], ParseNat(s[5..7]), IndexOf(IfcShortMonthNames, s[8..11], 0), ParseInt(s[12..]))
    else None
  }

  /** A regular day from its parsed fields, if the weekday name matches the day. */
  function ParseRegular(dayName: string, dayOfMonth: int, month: Option<int>, year: int): Option<IfcDay> {
    if month.Some? && 1 <= dayOfMonth && ShortDayNames[WeekdayIndex(dayOfMonth)] == dayName
    then Some(Regular(dayOfMonth, month.value, year))
    else None
  }
}
