// The Gregorian side of the converter: the proleptic leap-year rule and the
// 1-based ordinal day of a date within its year, computed as the source does,
// by folding over the table of month lengths.
//
// The facts about the month table are proved once for an arbitrary table of
// positive lengths (so the solver never unfolds the twelve constants) and then
// used with the table of the year at hand.
module Gregorian {

  import opened Wrappers

  /** JavaScript's `%` on integers: the remainder truncated toward zero, so its
      sign follows the dividend (`-1 % 4` is `-1`, not `3`). */
  function JsRem(a: int, b: int): (r: int)
    requires b > 0
    ensures a >= 0 ==> r == a % b
    ensures a < 0 ==> -b < r <= 0
  {
    if a >= 0 then a % b else -((-a) % b)
  }

  /** The dividend is a multiple of the divisor plus the JavaScript remainder;
      with the range above this pins the remainder down as the truncated one. */
  lemma JsRemQuotient(a: int, b: int) returns (q: int)
    requires b > 0
    ensures a == b * q + JsRem(a, b)
    ensures a >= 0 ==> q == a / b
  {
    if a >= 0 {
      q := a / b;
    } else {
      var q0 := (-a) / b;
      assert -a == b * q0 + (-a) % b;
      q := -q0;
      assert b * q == -(b * q0);
    }
  }

  /** For the divisors of the leap-year rule, a zero JavaScript remainder is a
      zero Euclidean remainder, negative years included. */
  lemma JsRemZero(a: int)
    ensures (JsRem(a, 4) == 0) == (a % 4 == 0)
    ensures (JsRem(a, 100) == 0) == (a % 100 == 0)
    ensures (JsRem(a, 400) == 0) == (a % 400 == 0)
  {
    JsRemZero4(a);
    JsRemZero100(a);
    JsRemZero400(a);
  }

  lemma JsRemZero4(a: int)
    ensures (JsRem(a, 4) == 0) == (a % 4 == 0)
  {
  }

  lemma JsRemZero100(a: int)
    ensures (JsRem(a, 100) == 0) == (a % 100 == 0)
  {
  }

  lemma JsRemZero400(a: int)
    ensures (JsRem(a, 400) == 0) == (a % 400 == 0)
  {
  }

  /** `getIsLeapYear`. */
  function IsLeapYear(year: int): bool {
    JsRem(year, 4) == 0 && (JsRem(year, 100) != 0 || JsRem(year, 400) == 0)
  }

  /** The proleptic Gregorian rule: divisible by 4 and, for century years, by 400. */
  lemma IsLeapYearRule(year: int)
    ensures IsLeapYear(year) <==> year % 4 == 0 && (year % 100 != 0 || year % 400 == 0)
  {
    JsRemZero(year);
  }

  /** `gregorianFixedMonths`: the month lengths of a common year, January first. */
  const GregorianFixedMonths: seq<int> := [31, 28, 31, 30, 31, 30, 31, 31, 30, 31, 30, 31]

  /** A month table with February given its length for the kind of year. */
  function WithFebruary(months: seq<int>, leap: bool): (r: seq<int>)
    requires 2 <= |months|
    ensures |r| == |months| && r[1] == (if leap then 29 else 28)
    ensures forall i :: 0 <= i < |months| && i != 1 ==> r[i] == months[i]
  {
    months[1 := if leap then 29 else 28]
  }

  /** The month lengths of a common (`leap` false) or leap year. */
  function MonthLengths(leap: bool): (r: seq<int>)
    ensures |r| == 12 && Positive(r)
  {
    WithFebruary(GregorianFixedMonths, leap)
  }

  predicate Positive(lens: seq<int>) {
    forall i :: 0 <= i < |lens| ==> 1 <= lens[i]
  }

  function DaysInYear(leap: bool): int {
    if leap then 366 else 365
  }

  /** The UTC fields of a JavaScript `Date`: full year, zero-based month, day of month. */
  datatype Date = Date(year: int, month0: int, day: int)

  /** The field triples a JavaScript `Date`'s UTC accessors can return. */
  predicate ValidDate(d: Date) {
    0 <= d.month0 < 12 && 1 <= d.day <= MonthLengths(IsLeapYear(d.year))[d.month0]
  }

  /** The callback given to `reduce` in `getDayOfYear`. */
  function ReduceStep(acc: int, daysInMonth: int, offset: int, month: int, dateOfMonth: int, leap: bool): int {
    if offset > month then acc
    else if offset == month then acc + dateOfMonth
    else if offset == 1 then acc + (if leap then 29 else 28)
    else acc + daysInMonth
  }

  /** `months.reduce(ReduceStep, acc)` over the entries from `offset` on. */
  function ReduceFrom(months: seq<int>, offset: nat, acc: int, month: int, dateOfMonth: int, leap: bool): int
    requires offset <= |months|
    decreases |months| - offset
  {
    if offset == |months| then acc
    else ReduceFrom(months, offset + 1,
                    ReduceStep(acc, months[offset], offset, month, dateOfMonth, leap),
                    month, dateOfMonth, leap)
  }

  /** `getDayOfYear`. */
  function DayOfYear(date: Date): int {
    ReduceFrom(GregorianFixedMonths, 0, 0, date.month0, date.day, IsLeapYear(date.year))
  }

  /** Reference definition: the number of days in the months before month `m`. */
  function DaysBefore(lens: seq<int>, m: int): int
    requires 0 <= m <= |lens|
  {
    if m == 0 then 0 else DaysBefore(lens, m - 1) + lens[m - 1]
  }

  lemma {:induction false} DaysBeforeMonotone(lens: seq<int>, a: int, b: int)
    requires Positive(lens) && 0 <= a <= b <= |lens|
    ensures DaysBefore(lens, a) + (b - a) <= DaysBefore(lens, b)
    decreases b - a
  {
    if a < b {
      DaysBeforeMonotone(lens, a, b - 1);
    }
  }

  lemma DaysBeforeYear(leap: bool)
    ensures DaysBefore(MonthLengths(leap), 12) == DaysInYear(leap)
    ensures DaysBefore(MonthLengths(leap), 11) == DaysInYear(leap) - 31
    ensures DaysBefore(MonthLengths(leap), 5) == if leap then 152 else 151
  {
    var lens, feb := MonthLengths(leap), if leap then 29 else 28;
    assert DaysBefore(lens, 1) == 31;
    assert DaysBefore(lens, 2) == 31 + feb;
    assert DaysBefore(lens, 3) == 62 + feb;
    assert DaysBefore(lens, 4) == 92 + feb;
    assert DaysBefore(lens, 5) == 123 + feb;
    assert DaysBefore(lens, 6) == 153 + feb;
    assert DaysBefore(lens, 7) == 184 + feb;
    assert DaysBefore(lens, 8) == 215 + feb;
    assert DaysBefore(lens, 9) == 245 + feb;
    assert DaysBefore(lens, 10) == 276 + feb;
    assert DaysBefore(lens, 11) == 306 + feb;
  }

  /** Table entries past `month` leave the accumulator as it is. */
  lemma {:induction false} ReducePastMonth(months: seq<int>, offset: nat, acc: int, month: int, dateOfMonth: int, leap: bool)
    requires month < offset <= |months|
    ensures ReduceFrom(months, offset, acc, month, dateOfMonth, leap) == acc
    decreases |months| - offset
  {
    if offset < |months| {
      ReducePastMonth(months, offset + 1, acc, month, dateOfMonth, leap);
    }
  }

  lemma {:induction false} ReduceUpToMonth(months: seq<int>, offset: nat, month: int, dateOfMonth: int, leap: bool)
    requires 2 <= |months| && offset <= month < |months|
    ensures ReduceFrom(months, offset, DaysBefore(WithFebruary(months, leap), offset), month, dateOfMonth, leap)
         == DaysBefore(WithFebruary(months, leap), month) + dateOfMonth
    decreases month - offset
  {
    var lens := WithFebruary(months, leap);
    var acc := DaysBefore(lens, offset);
    if offset == month {
      ReducePastMonth(months, offset + 1, acc + dateOfMonth, month, dateOfMonth, leap);
    } else {
      assert ReduceStep(acc, months[offset], offset, month, dateOfMonth, leap) == DaysBefore(lens, offset + 1);
      ReduceUpToMonth(months, offset + 1, month, dateOfMonth, leap);
    }
  }

  /** The fold adds the full lengths of the earlier months (February leap-adjusted)
      and the day of the current month; later months contribute nothing. */
  lemma DayOfYearIsDaysBefore(date: Date)
    requires 0 <= date.month0 < 12
    ensures DayOfYear(date) == DaysBefore(MonthLengths(IsLeapYear(date.year)), date.month0) + date.day
  {
    ReduceUpToMonth(GregorianFixedMonths, 0, date.month0, date.day, IsLeapYear(date.year));
  }

  lemma DayOfYearRange(date: Date)
    requires ValidDate(date)
    ensures 1 <= DayOfYear(date) <= DaysInYear(IsLeapYear(date.year))
  {
    var leap := IsLeapYear(date.year);
    DayOfYearIsDaysBefore(date);
    DaysBeforeMonotone(MonthLengths(leap), date.month0 + 1, 12);
    DaysBeforeYear(leap);
  }

  lemma FirstAndLastDay(year: int)
    ensures DayOfYear(Date(year, 0, 1)) == 1
    ensures DayOfYear(Date(year, 11, 31)) == DaysInYear(IsLeapYear(year))
  {
    DayOfYearIsDaysBefore(Date(year, 0, 1));
    DayOfYearIsDaysBefore(Date(year, 11, 31));
    DaysBeforeYear(IsLeapYear(year));
  }

  /** The following calendar day within the same year, if there is one. */
  function NextDayInYear(d: Date): (r: Option<Date>)
    requires ValidDate(d)
    ensures r.Some? ==> ValidDate(r.value) && r.value.year == d.year
    ensures r.None? <==> d.month0 == 11 && d.day == 31
  {
    if d.day < MonthLengths(IsLeapYear(d.year))[d.month0] then Some(Date(d.year, d.month0, d.day + 1))
    else if d.month0 < 11 then Some(Date(d.year, d.month0 + 1, 1))
    else None
  }

  lemma NextDayOrdinal(d: Date)
    requires ValidDate(d)
    ensures NextDayInYear(d).Some? ==> DayOfYear(NextDayInYear(d).value) == DayOfYear(d) + 1
    ensures NextDayInYear(d).None? <==> DayOfYear(d) == DaysInYear(IsLeapYear(d.year))
  {
    if NextDayInYear(d).Some? {
      NextDaySome(d);
    }
    LastDayOrdinal(d);
  }

  lemma NextDaySome(d: Date)
    requires ValidDate(d) && NextDayInYear(d).Some?
    ensures DayOfYear(NextDayInYear(d).value) == DayOfYear(d) + 1
  {
    var lens := MonthLengths(IsLeapYear(d.year));
    var e := NextDayInYear(d).value;
    DayOfYearIsDaysBefore(d);
    DayOfYearIsDaysBefore(e);
    if d.day == lens[d.month0] {
      assert e == Date(d.year, d.month0 + 1, 1);
      DaysBeforeStep(lens, d.month0);
    }
  }

  lemma DaysBeforeStep(lens: seq<int>, m: int)
    requires 0 <= m < |lens|
    ensures DaysBefore(lens, m + 1) == DaysBefore(lens, m) + lens[m]
  {
  }

  /** Only 31 December has the last ordinal of the year. */
  lemma LastDayOrdinal(d: Date)
    requires ValidDate(d)
    ensures d.month0 == 11 && d.day == 31 <==> DayOfYear(d) == DaysInYear(IsLeapYear(d.year))
  {
    var leap := IsLeapYear(d.year);
    var lens := MonthLengths(leap);
    DayOfYearIsDaysBefore(d);
    DaysBeforeYear(leap);
    if d.month0 < 11 {
      DaysBeforeStep(lens, d.month0);
      DaysBeforeMonotone(lens, d.month0 + 1, 11);
    }
  }

  /** The month holding the day `n` days into the year, searched for from month
      `m` on: the search that inverts the fold. */
  function FindMonth(year: int, lens: seq<int>, m: int, n: int): (d: Date)
    requires Positive(lens) && 0 <= m < |lens|
    requires DaysBefore(lens, m) < n <= DaysBefore(lens, |lens|)
    ensures d.year == year && m <= d.month0 < |lens| && 1 <= d.day <= lens[d.month0]
    ensures DaysBefore(lens, d.month0) + d.day == n
    decreases |lens| - m
  {
    if n <= DaysBefore(lens, m + 1) then Date(year, m, n - DaysBefore(lens, m))
    else FindMonth(year, lens, m + 1, n)
  }

  /** The date of ordinal day `n` of `year`. */
  function DateOfOrdinal(year: int, n: int): (d: Date)
    requires 1 <= n <= DaysInYear(IsLeapYear(year))
    ensures ValidDate(d) && d.year == year && DayOfYear(d) == n
  {
    DaysBeforeYear(IsLeapYear(year));
    var d := FindMonth(year, MonthLengths(IsLeapYear(year)), 0, n);
    DayOfYearIsDaysBefore(d);
    d
  }

  lemma {:induction false} FindMonthOfDate(d: Date, lens: seq<int>, m: int)
    requires Positive(lens) && 0 <= m <= d.month0 < |lens| && 1 <= d.day <= lens[d.month0]
    ensures DaysBefore(lens, m) < DaysBefore(lens, d.month0) + d.day <= DaysBefore(lens, |lens|)
    ensures FindMonth(d.year, lens, m, DaysBefore(lens, d.month0) + d.day) == d
    decreases d.month0 - m
  {
    DaysBeforeMonotone(lens, m, d.month0);
    DaysBeforeMonotone(lens, d.month0 + 1, |lens|);
    DaysBeforeStep(lens, d.month0);
    if m < d.month0 {
      DaysBeforeMonotone(lens, m + 1, d.month0);
      FindMonthOfDate(d, lens, m + 1);
    }
  }

  /** Every valid date is recovered from its ordinal. */
  lemma DateOfOrdinalOfDate(d: Date)
    requires ValidDate(d)
    ensures 1 <= DayOfYear(d) <= DaysInYear(IsLeapYear(d.year))
    ensures DateOfOrdinal(d.year, DayOfYear(d)) == d
  {
    DayOfYearRange(d);
    DayOfYearIsDaysBefore(d);
    FindMonthOfDate(d, MonthLengths(IsLeapYear(d.year)), 0);
  }

  /** Distinct dates of one year have distinct ordinals. */
  lemma DayOfYearInjective(d1: Date, d2: Date)
    requires ValidDate(d1) && ValidDate(d2) && d1.year == d2.year
    requires DayOfYear(d1) == DayOfYear(d2)
    ensures d1 == d2
  {
    DateOfOrdinalOfDate(d1);
    DateOfOrdinalOfDate(d2);
  }
}
