// The conversions of the calendar dates listed in the converter's demonstration
// block, stated for every year (the block uses 1999, 2000 and 2001) and for both
// schemes. Each expected string is written in the shape of the template literal
// `${dayName}, ${paddedDayOfMonth} ${month} ${year}` it comes from.
module IfcScenarios {

  import opened Decimal
  import opened IfcNames
  import opened Gregorian
  import opened Ifc
  import opened IfcProperties

  /** The days of a common year before each month. */
  const CommonDaysBefore: seq<int> := [0, 31, 59, 90, 120, 151, 181, 212, 243, 273, 304, 334]

  /** The ordinal of a date, from the days of the months before it; February's
      extra day counts from March on in a leap year. */
  lemma Ordinal(date: Date, before: int)
    requires 0 <= date.month0 < 12 && before == CommonDaysBefore[date.month0]
    ensures DayOfYear(date) == before + date.day + (if IsLeapYear(date.year) && date.month0 >= 2 then 1 else 0)
  {
    var leap := IsLeapYear(date.year);
    var lens, feb := MonthLengths(leap), if leap then 29 else 28;
    DayOfYearIsDaysBefore(date);
    assert DaysBefore(lens, 1) == 31;
    assert DaysBefore(lens, 2) == 31 + feb;
    assert DaysBefore(lens, 3) == 62 + feb;
    assert DaysBefore(lens, 4) == 92 + feb;
    assert DaysBefore(lens, 5) == 123 + feb;
    assert DaysBefore(lens, 6) == 153 + feb;
    assert DaysBefore(lens, 7) == 184 + feb;
    assert DaysBefore(lens, 8) == 215 + feb;
    assert DaysBefore(lens, 9) == 245 + feb;
    assert DaysBefore(lens, 10) == 276 + feb;
    assert DaysBefore(lens, 11) == 306 + feb;
  }

  /** The string of the date whose ordinal is grid place `28 * m + dom` (one
      further on from 17 June of a leap year in the original scheme), from the
      weekday name, the two digits of the day of the month and the month name. */
  lemma RegularAt(date: Date, p: bool, dom: int, m: int, day: string, dd: string, mon: string)
    requires ValidDate(date) && 1 <= dom <= 28 && 0 <= m <= 12
    requires var k, leap := 28 * m + dom, IsLeapYear(date.year);
      CommonDaysBefore[date.month0] + date.day + (if leap && date.month0 >= 2 then 1 else 0)
      == if leap && !p && k >= 169 then k + 1 else k
    requires day == ShortDayNames[dom % 7] && dd == [DigitChar(dom / 10), DigitChar(dom % 10)]
    requires mon == IfcShortMonthNames[m]
    ensures Format(IfcDate(date, p)) == day + ", " + dd + " " + mon + " " + IntToString(date.year)
  {
    Ordinal(date, CommonDaysBefore[date.month0]);
    RegularOfDate(date, p, dom, m);
    PaddedDigits(dom);
  }

  /** 1 January opens the year on a Sunday, in every year and scheme. */
  lemma FirstOfJanuary(year: int, p: bool)
    ensures Format(IfcDate(Date(year, 0, 1), p)) == "Sun" + ", " + "01" + " " + "Jan" + " " + IntToString(year)
  {
    RegularAt(Date(year, 0, 1), p, 1, 0, "Sun", "01", "Jan");
  }

  /** 20 January is a Friday, the 20th of the IFC January. */
  lemma TwentiethOfJanuary(year: int, p: bool)
    ensures Format(IfcDate(Date(year, 0, 20), p)) == "Fri" + ", " + "20" + " " + "Jan" + " " + IntToString(year)
  {
    RegularAt(Date(year, 0, 20), p, 20, 0, "Fri", "20", "Jan");
  }

  /** 28 January closes the IFC January, on a Saturday. */
  lemma TwentyEighthOfJanuary(year: int, p: bool)
    ensures Format(IfcDate(Date(year, 0, 28), p)) == "Sat" + ", " + "28" + " " + "Jan" + " " + IntToString(year)
  {
    RegularAt(Date(year, 0, 28), p, 28, 0, "Sat", "28", "Jan");
  }

  /** 29 January opens the IFC February. */
  lemma TwentyNinthOfJanuary(year: int, p: bool)
    ensures Format(IfcDate(Date(year, 0, 29), p)) == "Sun" + ", " + "01" + " " + "Feb" + " " + IntToString(year)
  {
    RegularAt(Date(year, 0, 29), p, 1, 1, "Sun", "01", "Feb");
  }

  /** 25 February closes the IFC February. */
  lemma TwentyFifthOfFebruary(year: int, p: bool)
    ensures Format(IfcDate(Date(year, 1, 25), p)) == "Sat" + ", " + "28" + " " + "Feb" + " " + IntToString(year)
  {
    RegularAt(Date(year, 1, 25), p, 28, 1, "Sat", "28", "Feb");
  }

  /** 29 February, which only a leap year has, is the fourth of the IFC March. */
  lemma TwentyNinthOfFebruary(year: int, p: bool)
    requires IsLeapYear(year)
    ensures Format(IfcDate(Date(year, 1, 29), p)) == "Wed" + ", " + "04" + " " + "Mar" + " " + IntToString(year)
  {
    RegularAt(Date(year, 1, 29), p, 4, 2, "Wed", "04", "Mar");
  }

  /** 1 March is the fifth of the IFC March in a leap year and the fourth in a common
      year (where a 29 February written in a `Date` string rolls over to it). */
  lemma FirstOfMarch(year: int, p: bool)
    ensures IsLeapYear(year) ==> Format(IfcDate(Date(year, 2, 1), p)) == "Thu" + ", " + "05" + " " + "Mar" + " " + IntToString(year)
    ensures !IsLeapYear(year) ==> Format(IfcDate(Date(year, 2, 1), p)) == "Wed" + ", " + "04" + " " + "Mar" + " " + IntToString(year)
  {
    if IsLeapYear(year) {
      RegularAt(Date(year, 2, 1), p, 5, 2, "Thu", "05", "Mar");
    } else {
      RegularAt(Date(year, 2, 1), p, 4, 2, "Wed", "04", "Mar");
    }
  }

  /** 16 June closes the IFC June in a leap year; in a common year it is the 27th. */
  lemma SixteenthOfJune(year: int, p: bool)
    ensures IsLeapYear(year) ==> Format(IfcDate(Date(year, 5, 16), p)) == "Sat" + ", " + "28" + " " + "Jun" + " " + IntToString(year)
    ensures !IsLeapYear(year) ==> Format(IfcDate(Date(year, 5, 16), p)) == "Fri" + ", " + "27" + " " + "Jun" + " " + IntToString(year)
  {
    if IsLeapYear(year) {
      RegularAt(Date(year, 5, 16), p, 28, 5, "Sat", "28", "Jun");
    } else {
      RegularAt(Date(year, 5, 16), p, 27, 5, "Fri", "27", "Jun");
    }
  }

  /** 17 June is the original scheme's leap day in a leap year and opens Sol in
      the proposed scheme; in a common year it closes the IFC June. */
  lemma SeventeenthOfJune(year: int, p: bool)
    ensures IsLeapYear(year) && !p ==> Format(IfcDate(Date(year, 5, 17), p)) == "Leap Day " + IntToString(year)
    ensures IsLeapYear(year) && p ==> Format(IfcDate(Date(year, 5, 17), p)) == "Sun" + ", " + "01" + " " + "Sol" + " " + IntToString(year)
    ensures !IsLeapYear(year) ==> Format(IfcDate(Date(year, 5, 17), p)) == "Sat" + ", " + "28" + " " + "Jun" + " " + IntToString(year)
  {
    if !IsLeapYear(year) {
      RegularAt(Date(year, 5, 17), p, 28, 5, "Sat", "28", "Jun");
    } else if p {
      RegularAt(Date(year, 5, 17), p, 1, 6, "Sun", "01", "Sol");
    } else {
      SpecialDayDates(year);
    }
  }

  /** 18 June opens Sol, on a Sunday, except in a leap year of the proposed
      scheme, where it is the second of Sol. */
  lemma EighteenthOfJune(year: int, p: bool)
    ensures !IsLeapYear(year) || !p ==> Format(IfcDate(Date(year, 5, 18), p)) == "Sun" + ", " + "01" + " " + "Sol" + " " + IntToString(year)
    ensures IsLeapYear(year) && p ==> Format(IfcDate(Date(year, 5, 18), p)) == "Mon" + ", " + "02" + " " + "Sol" + " " + IntToString(year)
  {
    if IsLeapYear(year) && p {
      RegularAt(Date(year, 5, 18), p, 2, 6, "Mon", "02", "Sol");
    } else {
      RegularAt(Date(year, 5, 18), p, 1, 6, "Sun", "01", "Sol");
    }
  }

  /** 15 July closes Sol, except in a leap year of the proposed scheme, where it
      opens the IFC July. */
  lemma FifteenthOfJuly(year: int, p: bool)
    ensures !IsLeapYear(year) || !p ==> Format(IfcDate(Date(year, 6, 15), p)) == "Sat" + ", " + "28" + " " + "Sol" + " " + IntToString(year)
    ensures IsLeapYear(year) && p ==> Format(IfcDate(Date(year, 6, 15), p)) == "Sun" + ", " + "01" + " " + "Jul" + " " + IntToString(year)
  {
    if IsLeapYear(year) && p {
      RegularAt(Date(year, 6, 15), p, 1, 7, "Sun", "01", "Jul");
    } else {
      RegularAt(Date(year, 6, 15), p, 28, 6, "Sat", "28", "Sol");
    }
  }

  /** 16 July opens the IFC July, except in a leap year of the proposed scheme,
      where it is its second day. */
  lemma SixteenthOfJuly(year: int, p: bool)
    ensures !IsLeapYear(year) || !p ==> Format(IfcDate(Date(year, 6, 16), p)) == "Sun" + ", " + "01" + " " + "Jul" + " " + IntToString(year)
    ensures IsLeapYear(year) && p ==> Format(IfcDate(Date(year, 6, 16), p)) == "Mon" + ", " + "02" + " " + "Jul" + " " + IntToString(year)
  {
    if IsLeapYear(year) && p {
      RegularAt(Date(year, 6, 16), p, 2, 7, "Mon", "02", "Jul");
    } else {
      RegularAt(Date(year, 6, 16), p, 1, 7, "Sun", "01", "Jul");
    }
  }

  /** 12 August closes the IFC July, except in a leap year of the proposed scheme,
      where it opens the IFC August. */
  lemma TwelfthOfAugust(year: int, p: bool)
    ensures !IsLeapYear(year) || !p ==> Format(IfcDate(Date(year, 7, 12), p)) == "Sat" + ", " + "28" + " " + "Jul" + " " + IntToString(year)
    ensures IsLeapYear(year) && p ==> Format(IfcDate(Date(year, 7, 12), p)) == "Sun" + ", " + "01" + " " + "Aug" + " " + IntToString(year)
  {
    if IsLeapYear(year) && p {
      RegularAt(Date(year, 7, 12), p, 1, 8, "Sun", "01", "Aug");
    } else {
      RegularAt(Date(year, 7, 12), p, 28, 7, "Sat", "28", "Jul");
    }
  }

  /** 20 December is the 18th of the IFC December, or the 19th in a leap year of
      the proposed scheme. */
  lemma TwentiethOfDecember(year: int, p: bool)
    ensures !IsLeapYear(year) || !p ==> Format(IfcDate(Date(year, 11, 20), p)) == "Wed" + ", " + "18" + " " + "Dec" + " " + IntToString(year)
    ensures IsLeapYear(year) && p ==> Format(IfcDate(Date(year, 11, 20), p)) == "Thu" + ", " + "19" + " " + "Dec" + " " + IntToString(year)
  {
    if IsLeapYear(year) && p {
      RegularAt(Date(year, 11, 20), p, 19, 12, "Thu", "19", "Dec");
    } else {
      RegularAt(Date(year, 11, 20), p, 18, 12, "Wed", "18", "Dec");
    }
  }

  /** 29 December is the 27th of the IFC December, or the 28th in a leap year of
      the proposed scheme. */
  lemma TwentyNinthOfDecember(year: int, p: bool)
    ensures !IsLeapYear(year) || !p ==> Format(IfcDate(Date(year, 11, 29), p)) == "Fri" + ", " + "27" + " " + "Dec" + " " + IntToString(year)
    ensures IsLeapYear(year) && p ==> Format(IfcDate(Date(year, 11, 29), p)) == "Sat" + ", " + "28" + " " + "Dec" + " " + IntToString(year)
  {
    if IsLeapYear(year) && p {
      RegularAt(Date(year, 11, 29), p, 28, 12, "Sat", "28", "Dec");
    } else {
      RegularAt(Date(year, 11, 29), p, 27, 12, "Fri", "27", "Dec");
    }
  }

  /** 30 December closes the IFC December, except in a leap year of the proposed
      scheme, where it is New Year's Day of the next year. */
  lemma ThirtiethOfDecember(year: int, p: bool)
    ensures !IsLeapYear(year) || !p ==> Format(IfcDate(Date(year, 11, 30), p)) == "Sat" + ", " + "28" + " " + "Dec" + " " + IntToString(year)
    ensures IsLeapYear(year) && p ==> Format(IfcDate(Date(year, 11, 30), p)) == "New Years Day " + IntToString(year + 1)
  {
    if IsLeapYear(year) && p {
      SpecialDayDates(year);
    } else {
      RegularAt(Date(year, 11, 30), p, 28, 12, "Sat", "28", "Dec");
    }
  }

  /** 31 December is New Year's Day of the next year, except in a leap year of the
      proposed scheme, where it is the next year's leap day. */
  lemma ThirtyFirstOfDecember(year: int, p: bool)
    ensures !IsLeapYear(year) || !p ==> Format(IfcDate(Date(year, 11, 31), p)) == "New Years Day " + IntToString(year + 1)
    ensures IsLeapYear(year) && p ==> Format(IfcDate(Date(year, 11, 31), p)) == "Leap Day " + IntToString(year + 1)
  {
    SpecialDayDates(year);
  }
}
