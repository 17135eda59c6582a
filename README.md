# Gregorian to International Fixed Calendar converter, in Dafny

The model covers the converter in `index.ts`. It turns a Gregorian calendar date
(UTC year, zero-based month, day of month) into a date of the International Fixed
Calendar (IFC). The IFC has 13 months of 28 days, with Sol between June and July.
A New Year's Day and, in leap years, a Leap Day lie outside the months. The
converter supports two schemes:

- In the original scheme, the leap day is inserted after the 28th of June.
- In the proposed scheme (`useProposed`), the leap day comes after New Year's Day
  at the end of the year.

The files are:

- `gregorian.dfy` (module `Gregorian`):
  - `getIsLeapYear`. JavaScript's truncating `%` is spelled out as `JsRem`.
  - The month-length table.
  - `getDayOfYear`, written as the same left fold over the table, with the same
    callback (`ReduceStep`, `ReduceFrom`).
  - A reference definition of the ordinal (`DaysBefore`), the next calendar day,
    and the inverse search from an ordinal back to a date (`DateOfOrdinal`).
- `decimal.dfy` (module `Decimal`): `toString` and template-literal rendering of
  integers, `padStart`, `substring(0, n)`, and an inverse parser for the rendering.
- `names.dfy` (module `IfcNames`): the month and weekday name tables and their
  three-letter forms. A lemma shows each short table is the `map` of the long one.
- `ifc.dfy` (module `Ifc`):
  - The result datatype `IfcDay` (grid day, Leap Day, New Year's Day).
  - The split of an ordinal into a provisional month and day (`Split`).
  - The declarative specification of the conversion (`IfcDate`) and the string
    format (`Format`).
  - `toIFCString` itself as the method `ToIfcString`. It keeps the source's
    reassigned locals and early returns, and is proved equal to
    `Format(IfcDate(...))`.
  - A parser `Parse` for the strings `Format` writes. It is the inverse of
    `Format`, not part of the source.
- `ifc_properties.dfy` (module `IfcProperties`): what the conversion promises.
  - Where the special days fall in each scheme, and when the two schemes agree.
  - That the conversion is a bijection onto the days that occur, with an
    explicit inverse `ToGregorian`.
  - That weekdays run on across month ends.
  - That the output string can be read back, so distinct dates give distinct
    strings.
- `scenarios.dfy` (module `IfcScenarios`): the conversions of every calendar
  date listed in the demonstration block (index.ts:108-171), proved for every
  year and both schemes, as the exact strings returned.
- `wrappers.dfy`: an `Option` type.

## Model

| member | source | states |
|---|---|---|
| Gregorian.JsRem | index.ts:47 | JavaScript `%`: the Euclidean remainder for a non-negative dividend; a value in (-b, 0] for a negative one |
| Gregorian.JsRemQuotient | index.ts:47 | the dividend is a multiple of the divisor plus the JavaScript remainder, so with the range above it is the remainder of truncating division |
| Gregorian.JsRemZero | index.ts:47 | for the divisors 4, 100 and 400, a zero JavaScript remainder is exactly a zero Euclidean remainder, negative years included |
| Gregorian.IsLeapYear | index.ts:46-48 | `getIsLeapYear`: the year's JavaScript remainder by 4 is zero, and its remainder by 100 is not zero or its remainder by 400 is zero (no ensures; its meaning is the next row) |
| Gregorian.IsLeapYearRule | index.ts:46-48 | `getIsLeapYear(y)` holds iff `y % 4 == 0 && (y % 100 != 0 \|\| y % 400 == 0)` |
| Gregorian.WithFebruary | index.ts:62 | February's entry becomes 29 in a leap year and 28 otherwise; every other entry is the table's |
| Gregorian.MonthLengths | index.ts:1-14 | the month table of a year has 12 entries, all positive |
| Gregorian.DaysBeforeYear | index.ts:1-14 | the months sum to 365, or 366 in a leap year; the months before December and before June sum as the calendar says |
| Gregorian.ReduceStep | index.ts:55-65 | the `reduce` callback: past the month the accumulator is kept; at the month the day of the month is added; otherwise February adds 29 or 28 by the leap flag and any other month its table length (no ensures; its meaning is stated by the next three rows) |
| Gregorian.ReduceFrom | index.ts:55 | `reduce` from `offset` with accumulator `acc`: the callback applied to each table entry from `offset` to the end, in order (no ensures) |
| Gregorian.DayOfYear | index.ts:50-68 | `getDayOfYear`: the fold over `gregorianFixedMonths` from 0 with the date's month, day and leap flag (no ensures; `DayOfYearIsDaysBefore` states its value) |
| Gregorian.ReducePastMonth | index.ts:56-58 | table entries after the current month leave the accumulator unchanged |
| Gregorian.ReduceUpToMonth | index.ts:55-65 | the fold from any offset up to the month adds the earlier months' lengths (February leap-adjusted) and then the day of the month |
| Gregorian.DayOfYearIsDaysBefore | index.ts:50-68 | `getDayOfYear` is the sum of the lengths of the months strictly before the date's month, plus the day |
| Gregorian.DayOfYearRange | index.ts:50-68 | for a valid date the ordinal lies in [1, 365], or [1, 366] in a leap year |
| Gregorian.FirstAndLastDay | index.ts:50-68 | 1 January is ordinal 1; 31 December is ordinal 365, or 366 in a leap year |
| Gregorian.NextDayInYear | index.ts:50-68 | the next calendar day is a valid date of the same year, and it is absent exactly on 31 December |
| Gregorian.NextDayOrdinal | index.ts:55-65 | the next day's ordinal is one larger; there is no next day exactly at the year's last ordinal |
| Gregorian.LastDayOrdinal | index.ts:55-65 | a date has the year's last ordinal iff it is 31 December |
| Gregorian.FindMonth | index.ts:55-65 | the search from month `m` finds a month and day whose earlier months plus day give `n` |
| Gregorian.DateOfOrdinal | index.ts:50-68 | reference inverse: a valid date of the year whose `getDayOfYear` is `n` |
| Gregorian.FindMonthOfDate | index.ts:55-65 | searching for a date's own ordinal finds that date |
| Gregorian.DateOfOrdinalOfDate | index.ts:50-68 | every valid date is recovered from its ordinal |
| Gregorian.DayOfYearInjective | index.ts:50-68 | distinct dates of one year have distinct ordinals |
| Decimal.DigitChar | index.ts:102 | the digit character of a value 0-9 is a digit whose value is that value |
| Decimal.NatToString | index.ts:102 | `n.toString()` is a non-empty digit string, one character iff `n < 10`, with no leading zero |
| Decimal.IntToString | index.ts:105 | `${year}` is non-empty and starts with `-` iff the year is negative |
| Decimal.NatToStringRoundTrip | index.ts:102 | reading back `n.toString()` gives `n` |
| Decimal.IntToStringRoundTrip | index.ts:105 | the year's rendering is a well-formed integer string that reads back as the year |
| Decimal.PadStart | index.ts:102 | `padStart(width, fill)` has length max(\|s\|, width), ends with `s`, and is `fill` before it |
| Decimal.Prefix | index.ts:32 | `substring(0, n)` is a prefix of `s` of length min(\|s\|, n) |
| Decimal.TwoDigitRoundTrip | index.ts:102 | a day below 100, padded to two places, is exactly two digits and reads back as the day |
| Decimal.PaddedDigits | index.ts:102 | a number below 100 padded to two places is its tens digit followed by its units digit |
| IfcNames.ShortNames | index.ts:32 | `map(name => name.substring(0, 3))` keeps the length and maps each entry to its prefix |
| IfcNames.ShortNamesUnique | index.ts:32 | any table whose entries are the names' prefixes is that `map` |
| IfcNames.EachShortMonthName | index.ts:16-32 | every three-letter month name is the prefix of the corresponding full name |
| IfcNames.ShortMonthNamesAreMapped | index.ts:16-32 | the three-letter month table is `ifcMonthNames.map(name => name.substring(0, 3))` |
| IfcNames.EachShortDayName | index.ts:34-44 | every three-letter day name is the prefix of the corresponding full name |
| IfcNames.ShortDayNamesAreMapped | index.ts:34-44 | the three-letter day table is `dayNames.map(name => name.substring(0, 3))` |
| IfcNames.ShortMonthNameShape | index.ts:16-32 | every short month name has three letters and differs from all earlier ones |
| IfcNames.ShortDayNameShape | index.ts:34-44 | every short day name has three letters |
| Ifc.Split | index.ts:75-76 | `28*month + dayOfMonth == dayOfYear` with `1 <= dayOfMonth <= 28`, and `month <= 13` for ordinals up to 392 |
| Ifc.GridDay | index.ts:75-93 | the day at place `k` of the 364-day grid: New Year's Day of the next year at 365, a leap day labelled with the next year at 366, and otherwise day `(k-1) % 28 + 1` of month `(k-1) / 28` (no ensures; `RegularDayPlace`, `GridDayInjective` and `NextGridPlace` state its meaning) |
| Ifc.IfcDate | index.ts:70-100 | every conversion is well formed: a grid day has a month in [0, 12] and a day in [1, 28] |
| Ifc.WeekdayIndex | index.ts:103 | the weekday index is a valid index of the day table; its name is `Sun` exactly when `dayOfMonth % 7 == 1` and `Sat` exactly when `dayOfMonth % 7 == 0`, so every month starts on a Sunday |
| Ifc.Format | index.ts:79-105 | the string returned for an IFC day: `Leap Day <year>`, `New Years Day <year>`, or `<Day>, <DD> <Mon> <year>` with the weekday name at `dayOfMonth % 7` (no ensures; `ParseFormat` and `FormatInjective` state its meaning) |
| Ifc.ToIfcString | index.ts:70-106 | the imperative conversion, with its leap-day shift, its early returns and `useProposed` defaulting to false, returns `Format(IfcDate(date, useProposed))` |
| Ifc.GridPlace | index.ts:75-76 | the provisional month and day are the quotient and the shifted remainder of the place |
| Ifc.IndexOf | index.ts:105 | the index found is the first one from `from` on that holds the name; when none is found, no entry holds it |
| IfcProperties.LeapDayIff | index.ts:78-81 | the result is a leap day iff the year is leap and the ordinal is 169 (original) or 366 (proposed); it is labelled with the year, or the next year in the proposed scheme |
| IfcProperties.NewYearsDayIff | index.ts:90-93 | the result is New Year's Day iff the ordinal is the year's last, or 365 in a leap year of the proposed scheme; it is labelled with the next year |
| IfcProperties.RegularDayPlace | index.ts:83-87 | the result is a grid day iff its place (ordinal, less one after the original leap day) is in [1, 364] and it is not the original leap day; it keeps the year and sits at that place |
| IfcProperties.SpecialDayDates | index.ts:78-100 | 17 June and 31 December of a leap year are its leap days in the two schemes; 31 December, or 30 December in a leap year of the proposed scheme, is New Year's Day |
| IfcProperties.SchemesAgree | index.ts:78 | the two schemes give the same day iff the year is common or the ordinal is below 169 |
| IfcProperties.GridDayInjective | index.ts:75-76 | distinct grid places of a year are distinct days |
| IfcProperties.OriginalLagsProposed | index.ts:83-87 | from ordinal 169 of a leap year on, the original scheme names the next day as the proposed scheme names this one |
| IfcProperties.GregorianOrdinal | index.ts:78-100 | an IFC day that occurs has an ordinal within its Gregorian year |
| IfcProperties.ToGregorian | index.ts:70-106 | the inverse conversion gives a valid date |
| IfcProperties.OrdinalOfIfcDate | index.ts:70-100 | a conversion occurs in its scheme, in the date's year, at the date's ordinal |
| IfcProperties.ToGregorianOfIfcDate | index.ts:70-100 | every date converts to a day that occurs, and the inverse gives the date back |
| IfcProperties.IfcDateOfToGregorian | index.ts:70-100 | every day that occurs is the conversion of its inverse |
| IfcProperties.IfcDateAt | index.ts:70-100 | the date at an IFC day's year and ordinal converts to that day |
| IfcProperties.RegularOfDate | index.ts:83-87 | the date at the ordinal of a grid day (one more after the original leap day) converts to that grid day |
| IfcProperties.GridPlaceOfDate | index.ts:83-87 | the date at the ordinal of grid place `k` converts to the grid day at `k` |
| IfcProperties.IfcDateInjective | index.ts:70-100 | distinct dates convert to distinct IFC days in either scheme |
| IfcProperties.WeekdayCycle | index.ts:103 | when a grid day and the next calendar day are both grid days, the weekday index advances by one modulo 7, across month ends too |
| IfcProperties.NextWeekday | index.ts:103 | the next grid day's weekday is one on, and day 1 after a 28th |
| IfcProperties.RegularStep | index.ts:83-87 | two grid days on consecutive dates of a year are at consecutive places |
| IfcProperties.NextGridPlace | index.ts:75-76 | the place after a grid day is the next day of its month, or day 1 of the next month after a 28th |
| IfcProperties.RegularLayout | index.ts:105 | in a regular string each field (day, day of month, month, year) is at its fixed offset |
| IfcProperties.IndexOfShortMonth | index.ts:32 | each short month name is found at its own index |
| IfcProperties.ParseFormat | index.ts:79-105 | reading back any string the converter returns gives the day it names |
| IfcProperties.ParseLeapDay | index.ts:80 | `Leap Day <year>` reads back as that leap day |
| IfcProperties.ParseNewYearsDay | index.ts:92 | `New Years Day <year>` reads back as that New Year's Day |
| IfcProperties.ParseRegularDay | index.ts:102-105 | `<Day>, <DD> <Mon> <year>` reads back as that grid day |
| IfcProperties.ParseRegularLayout | index.ts:105 | a string with the regular layout is read field by field |
| IfcProperties.FormatInjective | index.ts:79-105 | distinct days are written as distinct strings, so a special-day label is never a regular day's string |
| IfcProperties.DistinctDatesDistinctStrings | index.ts:70-106 | distinct dates give distinct strings in either scheme |
| IfcScenarios.Ordinal | index.ts:55-65 | the ordinal of a date in any month: the days of the common-year months before it, plus the day, plus one from March on in a leap year |
| IfcScenarios.RegularAt | index.ts:70-106 | a date whose ordinal is the grid place `28 * m + dom` (one further on after the original leap day) is written as the weekday, the two digits of the day, the month and the year |
| IfcScenarios.FirstOfJanuary | index.ts:70-106 | 1 January (index.ts:113 and 130) is `Sun, 01 Jan <year>` in every year and scheme |
| IfcScenarios.TwentiethOfJanuary | index.ts:102-105 | 20 January (index.ts:114 and 131) is `Fri, 20 Jan <year>` |
| IfcScenarios.TwentyEighthOfJanuary | index.ts:102-105 | 28 January (index.ts:115 and 132) is `Sat, 28 Jan <year>` |
| IfcScenarios.TwentyNinthOfJanuary | index.ts:102-105 | 29 January (index.ts:116 and 133) is `Sun, 01 Feb <year>` |
| IfcScenarios.TwentyFifthOfFebruary | index.ts:102-105 | 25 February (index.ts:117 and 134) is `Sat, 28 Feb <year>` |
| IfcScenarios.TwentyNinthOfFebruary | index.ts:102-105 | 29 February of a leap year (index.ts:118) is `Wed, 04 Mar <year>` in both schemes |
| IfcScenarios.FirstOfMarch | index.ts:102-105 | 1 March is `Thu, 05 Mar <year>` in a leap year and `Wed, 04 Mar <year>` in a common year, the string for the rolled-over "29 Feb 2001" (index.ts:135) |
| IfcScenarios.SixteenthOfJune | index.ts:102-105 | 16 June (index.ts:119 and 136) is `Sat, 28 Jun <year>` in a leap year and `Fri, 27 Jun <year>` in a common year |
| IfcScenarios.SeventeenthOfJune | index.ts:78-105 | 17 June (index.ts:120 and 137) is `Leap Day <year>` in a leap year of the original scheme, `Sun, 01 Sol <year>` in one of the proposed scheme, and `Sat, 28 Jun <year>` in a common year |
| IfcScenarios.EighteenthOfJune | index.ts:83-105 | 18 June (index.ts:121 and 138) is `Sun, 01 Sol <year>`, except `Mon, 02 Sol <year>` in a leap year of the proposed scheme |
| IfcScenarios.FifteenthOfJuly | index.ts:83-105 | 15 July (index.ts:122 and 139) is `Sat, 28 Sol <year>`, except `Sun, 01 Jul <year>` in a leap year of the proposed scheme |
| IfcScenarios.SixteenthOfJuly | index.ts:83-105 | 16 July (index.ts:123 and 140) is `Sun, 01 Jul <year>`, except `Mon, 02 Jul <year>` in a leap year of the proposed scheme |
| IfcScenarios.TwelfthOfAugust | index.ts:83-105 | 12 August (index.ts:124 and 141) is `Sat, 28 Jul <year>`, except `Sun, 01 Aug <year>` in a leap year of the proposed scheme |
| IfcScenarios.TwentiethOfDecember | index.ts:83-105 | 20 December (index.ts:125 and 142) is `Wed, 18 Dec <year>`, except `Thu, 19 Dec <year>` in a leap year of the proposed scheme |
| IfcScenarios.TwentyNinthOfDecember | index.ts:83-105 | 29 December (index.ts:126 and 143) is `Fri, 27 Dec <year>`, except `Sat, 28 Dec <year>` in a leap year of the proposed scheme |
| IfcScenarios.ThirtiethOfDecember | index.ts:83-105 | 30 December (index.ts:127 and 144) is `Sat, 28 Dec <year>`, except `New Years Day <year+1>` in a leap year of the proposed scheme |
| IfcScenarios.ThirtyFirstOfDecember | index.ts:90-100 | 31 December (index.ts:111, 128 and 145) is `New Years Day <year+1>`, except `Leap Day <year+1>` in a leap year of the proposed scheme |

## Left out

- The demonstration block (index.ts:108-171) is not modelled: console output, parsing of date strings, the current time, `toUTCString`/`padEnd` display and the local-time year grouping. The conversions of its dates are stated as the `IfcScenarios` lemmas, for every year rather than for 1999-2001 only, and in both schemes although the block uses the original one. Its "Tue, 29 Feb 2001" is not a date of 2001; `Date` parsing rolls it over to 1 March 2001, whose conversion `IfcScenarios.FirstOfMarch` states.
- The JavaScript `Date` object (timestamps, time zones, normalisation of out-of-range fields, invalid dates) is not modelled. The input is its UTC year, zero-based month and day, with a validity predicate, since `getUTCFullYear`, `getUTCMonth` and `getUTCDate` always return a valid calendar date.
- Floating point is not modelled: `Math.floor((dayOfYear - 1) / 28)` and `%` act on small positive integers there, and are modelled with integer `/` and `%`. The range limit of `Date` (about ±275000 years) is not modelled; years are unbounded integers.
- `Number.prototype.toString` and template literals are modelled for integers only, which is all the converter renders.
- `Parse`, `ToGregorian`, `DateOfOrdinal`, `FindMonth`, `NextDayInYear`, `GridDay`, `Place`, `Occurs`, `GregorianYear`, `GregorianOrdinal` and `IndexOf` are not operations of the source. They are inverses and reference definitions against which the conversion is stated.
- The code indexes `shortDayNames` by `dayOfMonth % 7` with Saturday at index 0, so every IFC month starts on a Sunday, and it prints three-letter month names. The model follows the code: `Sun, 01 Sol 2000`, and `Wed, 04 Mar 2000` for 29 February 2000.
- Two comments in the demonstration block do not match what the code returns. The one at index.ts:136 labels 16 June 2001 "28 June 2001"; its ordinal is 167 and the code returns `Fri, 27 Jun 2001`, which `IfcScenarios.SixteenthOfJune` states for every common year. The one at index.ts:137 labels 17 June 2001 "1 Sol 2001"; the code returns `Sat, 28 Jun 2001`, which `IfcScenarios.SeventeenthOfJune` states for every common year.
