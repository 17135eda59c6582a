// What the conversion promises: where the two special days fall in each
// scheme, how the two schemes relate, that the conversion is a bijection
// onto the days that occur, that weeks run on across month ends, and that
// the formatted string loses nothing.
module IfcProperties {

  import opened Wrappers
  import opened Decimal
  import opened IfcNames
  import opened Gregorian
  import opened Ifc

  /** The grid place of `date`: its ordinal, less one after the leap day of the
      original scheme. */
  function Place(date: Date, useProposed: bool): int
    requires ValidDate(date)
  {
    if IsLeapYear(date.year) && !useProposed && DayOfYear(date) > 169
    then DayOfYear(date) - 1 else DayOfYear(date)
  }

  /** The leap day is ordinal 169 of a leap year in the original scheme, labelled
      with that year, and ordinal 366 in the proposed scheme, labelled with the
      next year; no other day is a leap day. */
  lemma LeapDayIff(d: Date, p: bool)
    requires ValidDate(d)
    ensures IfcDate(d, p).LeapDay? <==>
      IsLeapYear(d.year) && DayOfYear(d) == (if p then 366 else 169)
    ensures IfcDate(d, p).LeapDay? ==> IfcDate(d, p).year == (if p then d.year + 1 else d.year)
  {
    DayOfYearRange(d);
  }

  /** New Year's Day is the last day of the Gregorian year, except in a leap year
      of the proposed scheme, where it is the day before; it carries the next year. */
  lemma NewYearsDayIff(d: Date, p: bool)
    requires ValidDate(d)
    ensures IfcDate(d, p).NewYearsDay? <==>
      DayOfYear(d) == (if IsLeapYear(d.year) && p then 365 else DaysInYear(IsLeapYear(d.year)))
    ensures IfcDate(d, p).NewYearsDay? ==> IfcDate(d, p).year == d.year + 1
  {
    DayOfYearRange(d);
  }

  /** Every other day is a grid day of the same year, at its grid place, and the
      grid places run from 1 to 364. */
  lemma RegularDayPlace(d: Date, p: bool)
    requires ValidDate(d)
    ensures var x := IfcDate(d, p);
      x.Regular? <==> 1 <= Place(d, p) <= 364 && !(IsLeapYear(d.year) && !p && DayOfYear(d) == 169)
    ensures var x := IfcDate(d, p);
      x.Regular? ==> x.year == d.year && 28 * x.month + x.dayOfMonth == Place(d, p)
  {
    DayOfYearRange(d);
  }

  /** The special days as calendar dates: 17 June and 31 December of a leap year
      are its leap days in the two schemes; 31 December, or 30 December in a
      leap year of the proposed scheme, is New Year's Day. */
  lemma SpecialDayDates(year: int)
    ensures IsLeapYear(year) ==> IfcDate(Date(year, 5, 17), false) == LeapDay(year)
    ensures IsLeapYear(year) ==> IfcDate(Date(year, 11, 31), true) == LeapDay(year + 1)
    ensures IsLeapYear(year) ==> IfcDate(Date(year, 11, 30), true) == NewYearsDay(year + 1)
    ensures !IsLeapYear(year) ==> IfcDate(Date(year, 11, 31), true) == NewYearsDay(year + 1)
    ensures IfcDate(Date(year, 11, 31), false) == NewYearsDay(year + 1)
  {
    var leap := IsLeapYear(year);
    var lens := MonthLengths(leap);
    assert lens[5] == 30 && lens[11] == 31;
    DaysBeforeYear(leap);
    DayOfYearIsDaysBefore(Date(year, 5, 17));
    DayOfYearIsDaysBefore(Date(year, 11, 30));
    DayOfYearIsDaysBefore(Date(year, 11, 31));
  }

  /** The two schemes name a day alike exactly when the year is common or the
      day comes before the original scheme's leap day. */
  lemma SchemesAgree(d: Date)
    requires ValidDate(d)
    ensures IfcDate(d, false) == IfcDate(d, true) <==> !IsLeapYear(d.year) || DayOfYear(d) < 169
  {
    DayOfYearRange(d);
    var n := DayOfYear(d);
    if IsLeapYear(d.year) && n > 169 {
      GridDayInjective(n - 1, n, d.year);
    }
  }

  /** Distinct grid places of a year name distinct days. */
  lemma GridDayInjective(k1: int, k2: int, year: int)
    requires 1 <= k1 <= 366 && 1 <= k2 <= 366
    ensures k1 != k2 ==> GridDay(k1, year) != GridDay(k2, year)
  {
    if k1 != 365 && k1 != 366 && k2 != 365 && k2 != 366 {
      assert 28 * ((k1 - 1) / 28) + (k1 - 1) % 28 + 1 == k1;
      assert 28 * ((k2 - 1) / 28) + (k2 - 1) % 28 + 1 == k2;
    }
  }

  /** From the original scheme's leap day on, the original scheme names each day
      as the proposed scheme names the day before. */
  lemma OriginalLagsProposed(d: Date)
    requires ValidDate(d) && IsLeapYear(d.year) && DayOfYear(d) >= 169
    requires NextDayInYear(d).Some?
    ensures IfcDate(NextDayInYear(d).value, false) == IfcDate(d, true)
  {
    NextDayOrdinal(d);
    DayOfYearRange(d);
    DayOfYearRange(NextDayInYear(d).value);
  }

  /** The IFC days that occur in a scheme: every grid day and New Year's Day, and a
      leap day whose label is a leap year (original) or follows one (proposed). */
  predicate Occurs(x: IfcDay, p: bool) {
    WellFormed(x) &&
    match x
    case Regular(_, _, _) => true
    case LeapDay(y) => IsLeapYear(if p then y - 1 else y)
    case NewYearsDay(_) => true
  }

  /** The Gregorian year an IFC day of scheme `p` falls in: the labels of the
      extra days after the grid carry the following year. */
  function GregorianYear(x: IfcDay, p: bool): int {
    match x
    case Regular(_, _, y) => y
    case LeapDay(y) => if p then y - 1 else y
    case NewYearsDay(y) => y - 1
  }

  /** The ordinal, within its Gregorian year, of an IFC day of scheme `p`. */
  function GregorianOrdinal(x: IfcDay, p: bool): (n: int)
    requires Occurs(x, p)
    ensures 1 <= n <= DaysInYear(IsLeapYear(GregorianYear(x, p)))
  {
    match x
    case Regular(dom, m, y) =>
      var k := 28 * m + dom;
      if IsLeapYear(y) && !p && k >= 169 then k + 1 else k
    case LeapDay(y) => if p then 366 else 169
    case NewYearsDay(y) => if IsLeapYear(y - 1) && p then 365 else DaysInYear(IsLeapYear(y - 1))
  }

  /** Reference inverse: the Gregorian date an IFC day of scheme `p` falls on. */
  function ToGregorian(x: IfcDay, p: bool): (d: Date)
    requires Occurs(x, p)
    ensures ValidDate(d)
  {
    DateOfOrdinal(GregorianYear(x, p), GregorianOrdinal(x, p))
  }

  /** Every date converts to a day that occurs, and converting back gives the date. */
  lemma ToGregorianOfIfcDate(d: Date, p: bool)
    requires ValidDate(d)
    ensures Occurs(IfcDate(d, p), p)
    ensures ToGregorian(IfcDate(d, p), p) == d
  {
    OrdinalOfIfcDate(d, p);
    DateOfOrdinalOfDate(d);
  }

  /** A converted date occurs, in the date's year and at the date's ordinal. */
  lemma OrdinalOfIfcDate(d: Date, p: bool)
    requires ValidDate(d)
    ensures Occurs(IfcDate(d, p), p)
    ensures GregorianYear(IfcDate(d, p), p) == d.year
    ensures GregorianOrdinal(IfcDate(d, p), p) == DayOfYear(d)
  {
    DayOfYearRange(d);
    match IfcDate(d, p)
    case Regular(dom, m, y) => RegularDayPlace(d, p);
    case LeapDay(y) => LeapDayIff(d, p);
    case NewYearsDay(y) => NewYearsDayIff(d, p);
  }

  /** Every day that occurs is the conversion of its Gregorian date. */
  lemma IfcDateOfToGregorian(x: IfcDay, p: bool)
    requires Occurs(x, p)
    ensures IfcDate(ToGregorian(x, p), p) == x
  {
    var d := ToGregorian(x, p);
    IfcDateAt(d, p, x);
  }

  /** The conversion of the date at an IFC day's ordinal is that day. */
  lemma IfcDateAt(d: Date, p: bool, x: IfcDay)
    requires Occurs(x, p) && ValidDate(d)
    requires d.year == GregorianYear(x, p) && DayOfYear(d) == GregorianOrdinal(x, p)
    ensures IfcDate(d, p) == x
  {
    match x
    case Regular(dom, m, y) =>
      RegularOfDate(d, p, dom, m);
    case LeapDay(y) =>
    case NewYearsDay(y) =>
  }

  /** The date at the ordinal of a grid day converts to that grid day. */
  lemma RegularOfDate(d: Date, p: bool, dom: int, m: int)
    requires ValidDate(d) && 1 <= dom <= 28 && 0 <= m <= 12
    requires var k := 28 * m + dom;
      DayOfYear(d) == if IsLeapYear(d.year) && !p && k >= 169 then k + 1 else k
    ensures IfcDate(d, p) == Regular(dom, m, d.year)
  {
    GridPlace(28 * m + dom, m, dom);
    GridPlaceOfDate(d, p, 28 * m + dom);
  }

  /** The date at the ordinal of grid place `k` converts to the grid day at `k`. */
  lemma GridPlaceOfDate(d: Date, p: bool, k: int)
    requires ValidDate(d) && 1 <= k <= 364
    requires DayOfYear(d) == if IsLeapYear(d.year) && !p && k >= 169 then k + 1 else k
    ensures IfcDate(d, p) == GridDay(k, d.year)
  {
  }

  /** Distinct dates convert to distinct IFC days, in either scheme. */
  lemma IfcDateInjective(d1: Date, d2: Date, p: bool)
    requires ValidDate(d1) && ValidDate(d2)
    requires IfcDate(d1, p) == IfcDate(d2, p)
    ensures d1 == d2
  {
    ToGregorianOfIfcDate(d1, p);
    ToGregorianOfIfcDate(d2, p);
  }

  /** Weeks run on without a break: the day after a grid day, when it is a grid
      day too, has the next weekday, across month ends as well. */
  lemma WeekdayCycle(d: Date, p: bool)
    requires ValidDate(d) && NextDayInYear(d).Some?
    requires IfcDate(d, p).Regular? && IfcDate(NextDayInYear(d).value, p).Regular?
    ensures WeekdayIndex(IfcDate(NextDayInYear(d).value, p).dayOfMonth)
      == (WeekdayIndex(IfcDate(d, p).dayOfMonth) + 1) % 7
  {
    var e := NextDayInYear(d).value;
    NextDayOrdinal(d);
    RegularStep(d, e, p);
    var x, y := IfcDate(d, p), IfcDate(e, p);
    NextGridPlace(x.month, x.dayOfMonth, y.month, y.dayOfMonth);
    NextWeekday(x.dayOfMonth, y.dayOfMonth);
  }

  /** The weekday of the next day of the grid: one on, and Sunday after a 28th. */
  lemma NextWeekday(d1: int, d2: int)
    requires (1 <= d1 < 28 && d2 == d1 + 1) || (d1 == 28 && d2 == 1)
    ensures WeekdayIndex(d2) == (WeekdayIndex(d1) + 1) % 7
  {
    if d1 < 28 {
      var q := d1 / 7;
      assert d1 == 7 * q + d1 % 7;
      if d1 % 7 < 6 {
        assert d2 == 7 * q + (d1 % 7 + 1);
      } else {
        assert d2 == 7 * (q + 1);
      }
    }
  }

  /** Two grid days on consecutive dates of a year are at consecutive grid places. */
  lemma RegularStep(d: Date, e: Date, p: bool)
    requires ValidDate(d) && ValidDate(e) && e.year == d.year && DayOfYear(e) == DayOfYear(d) + 1
    requires IfcDate(d, p).Regular? && IfcDate(e, p).Regular?
    ensures 28 * IfcDate(e, p).month + IfcDate(e, p).dayOfMonth
      == 28 * IfcDate(d, p).month + IfcDate(d, p).dayOfMonth + 1
  {
    LeapDayIff(d, p);
    RegularDayPlace(d, p);
    RegularDayPlace(e, p);
  }

  /** The grid place after day `d1` of month `m1` is the next day of that month,
      or the first day of the next month after a 28th. */
  lemma NextGridPlace(m1: int, d1: int, m2: int, d2: int)
    requires 1 <= d1 <= 28 && 1 <= d2 <= 28
    requires 28 * m2 + d2 == 28 * m1 + d1 + 1
    ensures (d1 < 28 && m2 == m1 && d2 == d1 + 1) || (d1 == 28 && m2 == m1 + 1 && d2 == 1)
  {
  }

  /** The layout of a regular day's string: each field at its fixed offset. */
  lemma RegularLayout(day: string, dd: string, mon: string, ys: string)
    requires |day| == 3 && |dd| == 2 && |mon| == 3 && 1 <= |ys|
    ensures var s := day + ", " + dd + " " + mon + " " + ys;
      13 <= |s| && s[..3] == day && s[3..5] == ", " && s[5..7] == dd && s[7] == ' '
      && s[8..11] == mon && s[11] == ' ' && s[12..] == ys
  {
    var s := day + ", " + dd + " " + mon + " " + ys;
    assert s == day + (", " + (dd + (" " + (mon + (" " + ys)))));
  }

  /** The month short name is found at its own index. */
  lemma IndexOfShortMonth(m: int)
    requires 0 <= m < |IfcShortMonthNames|
    ensures IndexOf(IfcShortMonthNames, IfcShortMonthNames[m], 0) == Some(m)
  {
    ShortMonthNameShape(m);
  }

  /** Reading back the string of a day gives the day. */
  lemma ParseFormat(x: IfcDay)
    requires WellFormed(x)
    ensures Parse(Format(x)) == Some(x)
  {
    match x
    case LeapDay(y) => ParseLeapDay(y);
    case NewYearsDay(y) => ParseNewYearsDay(y);
    case Regular(dom, m, y) => ParseRegularDay(dom, m, y);
  }

  lemma ParseLeapDay(y: int)
    ensures Parse(Format(LeapDay(y))) == Some(LeapDay(y))
  {
    var s := Format(LeapDay(y));
    IntToStringRoundTrip(y);
    assert s[..9] == "Leap Day " && s[9..] == IntToString(y);
  }

  lemma ParseNewYearsDay(y: int)
    ensures Parse(Format(NewYearsDay(y))) == Some(NewYearsDay(y))
  {
    var s := Format(NewYearsDay(y));
    IntToStringRoundTrip(y);
    assert s[..9][0] == 'N';
    assert s[..14] == "New Years Day " && s[14..] == IntToString(y);
  }

  lemma ParseRegularDay(dom: int, m: int, y: int)
    requires WellFormed(Regular(dom, m, y))
    ensures Parse(Format(Regular(dom, m, y))) == Some(Regular(dom, m, y))
  {
    var day, dd, mon, ys :=
      ShortDayNames[WeekdayIndex(dom)], PadStart(NatToString(dom), 2, '0'), IfcShortMonthNames[m], IntToString(y);
    var s := Format(Regular(dom, m, y));
    assert s == day + ", " + dd + " " + mon + " " + ys;
    ShortDayNameShape(WeekdayIndex(dom));
    ShortMonthNameShape(m);
    TwoDigitRoundTrip(dom);
    IntToStringRoundTrip(y);
    RegularLayout(day, dd, mon, ys);
    ParseRegularLayout(s);
    IndexOfShortMonth(m);
  }

  /** `Parse` reads the four fields of a string laid out as a regular day. */
  lemma ParseRegularLayout(s: string)
    requires 13 <= |s| && s[3..5] == ", " && AllDigits(s[5..7]) && s[7] == ' ' && s[11] == ' '
    requires IsIntString(s[12..])
    ensures Parse(s)
      == ParseRegular(s[..3], ParseNat(s[5..7]), IndexOf(IfcShortMonthNames, s[8..11], 0), ParseInt(s[12..]))
  {
    assert s[3] == s[3..5][0] == ',';
    assert s[..9][3] == ',';
    if 14 <= |s| {
      assert s[..14][3] == ',';
    }
  }

  /** Distinct days are written as distinct strings; in particular a special
      day's label is never the string of a grid day. */
  lemma FormatInjective(x1: IfcDay, x2: IfcDay)
    requires WellFormed(x1) && WellFormed(x2)
    requires Format(x1) == Format(x2)
    ensures x1 == x2
  {
    ParseFormat(x1);
    ParseFormat(x2);
  }

  /** Distinct dates give distinct strings in either scheme. */
  lemma DistinctDatesDistinctStrings(d1: Date, d2: Date, p: bool)
    requires ValidDate(d1) && ValidDate(d2) && d1 != d2
    ensures Format(IfcDate(d1, p)) != Format(IfcDate(d2, p))
  {
    if Format(IfcDate(d1, p)) == Format(IfcDate(d2, p)) {
      FormatInjective(IfcDate(d1, p), IfcDate(d2, p));
      IfcDateInjective(d1, d2, p);
    }
  }
}
