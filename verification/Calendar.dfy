/** Day counts of Gregorian dates: a closed form and an approximation, against a count that
    adds up years and months. */
module Calendar {
  import opened Base

  datatype Date = Date(year: int, month: int, day: int)

  // ---------- the reference ----------

  predicate IsLeap(year: int) {
    year % 4 == 0 && (year % 100 != 0 || year % 400 == 0)
  }

  function YearLength(year: int): int { if IsLeap(year) then 366 else 365 }

  function MonthLength(year: int, month: int): int {
    if month == 2 then (if IsLeap(year) then 29 else 28)
    else if month == 4 || month == 6 || month == 9 || month == 11 then 30
    else 31
  }

  predicate Valid(d: Date) {
    1 <= d.month <= 12 && 1 <= d.day <= MonthLength(d.year, d.month)
  }

  function DaysBeforeMonth(year: int, month: int): int
    requires 1 <= month <= 12
    decreases month
  {
    if month == 1 then 0 else DaysBeforeMonth(year, month - 1) + MonthLength(year, month - 1)
  }

  /** From 1 January 1970, backwards for the years before. */
  function DaysBeforeYear(year: int): int
    decreases if year >= 1970 then year - 1970 else 1970 - year
  {
    if year == 1970 then 0
    else if year > 1970 then DaysBeforeYear(year - 1) + YearLength(year - 1)
    else DaysBeforeYear(year + 1) - YearLength(year)
  }

  function DayCount(d: Date): int
    requires Valid(d)
  {
    DaysBeforeYear(d.year) + DaysBeforeMonth(d.year, d.month) + d.day - 1
  }

  function Next(d: Date): Date
    requires Valid(d)
  {
    if d.day < MonthLength(d.year, d.month) then d.(day := d.day + 1)
    else if d.month < 12 then Date(d.year, d.month + 1, 1)
    else Date(d.year + 1, 1, 1)
  }

  /** The reference counts every day once. */
  lemma DayCountFollowsTheCalendar(d: Date)
    requires Valid(d)
    ensures Valid(Next(d)) && DayCount(Next(d)) == DayCount(d) + 1
    ensures DayCount(Date(1970, 1, 1)) == 0
  {
    MonthTable(d.year);
    NextYear(d.year);
  }

  lemma NextYear(year: int)
    ensures DaysBeforeYear(year + 1) == DaysBeforeYear(year) + YearLength(year)
  {
  }

  lemma MonthTable(year: int)
    ensures DaysBeforeMonth(year, 1) == 0 && DaysBeforeMonth(year, 2) == 31
    ensures var m := if IsLeap(year) then 60 else 59;
            && DaysBeforeMonth(year, 3) == m && DaysBeforeMonth(year, 4) == m + 31
            && DaysBeforeMonth(year, 5) == m + 61 && DaysBeforeMonth(year, 6) == m + 92
            && DaysBeforeMonth(year, 7) == m + 122 && DaysBeforeMonth(year, 8) == m + 153
            && DaysBeforeMonth(year, 9) == m + 184 && DaysBeforeMonth(year, 10) == m + 214
            && DaysBeforeMonth(year, 11) == m + 245 && DaysBeforeMonth(year, 12) == m + 275
  {
    hide IsLeap;
    assert DaysBeforeMonth(year, 3) == DaysBeforeMonth(year, 2) + MonthLength(year, 2);
    assert DaysBeforeMonth(year, 5) == DaysBeforeMonth(year, 4) + 30;
    assert DaysBeforeMonth(year, 7) == DaysBeforeMonth(year, 6) + 30;
    assert DaysBeforeMonth(year, 9) == DaysBeforeMonth(year, 8) + 31;
    assert DaysBeforeMonth(year, 11) == DaysBeforeMonth(year, 10) + 31;
  }

  // ---------- days_from_date ----------

  /** Division of machine integers truncates toward zero. */
  function TruncatedDiv(a: int, b: int): int
    requires b > 0
  {
    if a >= 0 then a / b else -((-a) / b)
  }

  /** The year that begins on 1 March. */
  function MarchYear(d: Date): int { if d.month <= 2 then d.year - 1 else d.year }

  function DaysFromDate(d: Date): int {
    var y := MarchYear(d);
    var m := if d.month <= 2 then d.month + 12 else d.month;
    var era := TruncatedDiv(y, 400);
    var yearOfEra := y - era * 400;
    var dayOfYear := TruncatedDiv(153 * (m - 3) + 2, 5) + d.day - 1;
    var dayOfEra := yearOfEra * 365 + TruncatedDiv(yearOfEra, 4) - TruncatedDiv(yearOfEra, 100) + dayOfYear;
    era * 146097 + dayOfEra - 719468
  }

  /** Days from 1970-01-01 to 1 March of a year, with divisions that round down. */
  function FirstOfMarch(y: int): int {
    365 * y + y / 4 - y / 100 + y / 400 - 719468
  }

  /** One for a multiple of b, else zero. */
  function Tick(y: int, b: int): int
    requires b > 0
  {
    if y % b == 0 then 1 else 0
  }

  lemma DivStep(y: int, b: int)
    requires b == 4 || b == 100 || b == 400
    ensures (y + 1) / b == y / b + Tick(y + 1, b)
  {
  }

  lemma LeapTicks(y: int)
    ensures YearLength(y) == 365 + Tick(y, 4) - Tick(y, 100) + Tick(y, 400)
  {
    if y % 400 == 0 { assert y == 100 * (4 * (y / 400)); }
    if y % 100 == 0 { assert y == 4 * (25 * (y / 100)); }
  }

  lemma FirstOfMarchStep(y: int)
    ensures FirstOfMarch(y + 1) == FirstOfMarch(y) + YearLength(y + 1)
  {
    hide Tick, YearLength;
    DivStep(y, 4);
    DivStep(y, 100);
    DivStep(y, 400);
    LeapTicks(y + 1);
  }

  lemma {:induction false} FirstOfMarchIsCounted(y: int)
    ensures FirstOfMarch(y) == DaysBeforeYear(y) + DaysBeforeMonth(y, 3)
    decreases if y >= 1970 then y - 1970 else 1970 - y
  {
    hide IsLeap, FirstOfMarch;
    MonthTable(y);
    if y == 1970 {
      assert FirstOfMarch(1970) == 59 && !IsLeap(1970) by { Year1970(); }
    } else if y > 1970 {
      FirstOfMarchIsCounted(y - 1);
      FirstOfMarchStep(y - 1);
      MonthTable(y - 1);
    } else {
      FirstOfMarchIsCounted(y + 1);
      FirstOfMarchStep(y);
      MonthTable(y + 1);
    }
  }

  lemma Year1970()
    ensures FirstOfMarch(1970) == 59 && !IsLeap(1970)
  {
  }

  /** How much the closed form is ahead: one day in years before 1 March of year 0 that are
      no leap years, because the divisions truncate. */
  function Ahead(y: int): int { if y >= 0 || IsLeap(y) then 0 else 1 }

  function EraPart(y: int): int {
    var era := TruncatedDiv(y, 400);
    var yearOfEra := y - era * 400;
    era * 146097 + yearOfEra * 365 + TruncatedDiv(yearOfEra, 4) - TruncatedDiv(yearOfEra, 100) - 719468
  }

  lemma EraPartIsAhead(y: int)
    ensures EraPart(y) == FirstOfMarch(y) + Ahead(y)
  {
    if y >= 0 { EraPartFromYearZero(y); } else { EraPartBeforeYearZero(-y); }
  }

  lemma EraPartFromYearZero(y: int)
    requires y >= 0
    ensures EraPart(y) == FirstOfMarch(y)
  {
    var era, rest := y / 400, y % 400;
    assert y == 400 * era + rest;
    assert y / 4 == 100 * era + rest / 4;
    assert y / 100 == 4 * era + rest / 100;
  }

  lemma EraPartBeforeYearZero(n: int)
    requires n > 0
    ensures EraPart(-n) == FirstOfMarch(-n) + Ahead(-n)
  {
    var era, rest := n / 400, n % 400;
    assert n == 400 * era + rest;
    assert TruncatedDiv(-n, 400) == -era;
    assert EraPart(-n) == -era * 146097 - rest * 365 - rest / 4 + rest / 100 - 719468;
    FloorOfNegative(n, 4);
    FloorOfNegative(n, 100);
    FloorOfNegative(n, 400);
    assert n / 4 == 100 * era + rest / 4;
    assert n / 100 == 4 * era + rest / 100;
  }

  lemma FloorOfNegative(n: int, b: int)
    requires n > 0 && (b == 4 || b == 100 || b == 400)
    ensures (-n) / b == -(n / b) - (if n % b == 0 then 0 else 1)
    ensures (-n) % b == 0 <==> n % b == 0
  {
  }

  /** Days since 1 March, for the months from March to the following February. */
  lemma MonthFormula(d: Date)
    requires Valid(d)
    ensures var m := if d.month <= 2 then d.month + 12 else d.month;
            DaysBeforeYear(d.year) + DaysBeforeMonth(d.year, d.month) ==
            DaysBeforeYear(MarchYear(d)) + DaysBeforeMonth(MarchYear(d), 3) + TruncatedDiv(153 * (m - 3) + 2, 5)
  {
    hide IsLeap, DaysBeforeMonth, DaysBeforeYear;
    MonthTable(d.year);
    MonthTable(d.year - 1);
    NextYear(d.year - 1);
  }

  /** The closed form is the day count, for every valid date of every year, except one day
      too many in March-based years before 0 that are no leap years. */
  lemma DaysFromDateExactly(d: Date)
    requires Valid(d)
    ensures DaysFromDate(d) == DayCount(d) + Ahead(MarchYear(d))
  {
    hide IsLeap, DaysBeforeMonth, DaysBeforeYear, FirstOfMarch, Ahead;
    MonthFormula(d);
    FirstOfMarchIsCounted(MarchYear(d));
    EraPartIsAhead(MarchYear(d));
  }

  /** From year 1 on: zero at the epoch, and each date one less than the next day's. */
  lemma DaysFromDateFollowsTheCalendar(d: Date)
    requires Valid(d) && d.year >= 1
    ensures DaysFromDate(d) == DayCount(d) && DaysFromDate(Next(d)) == DaysFromDate(d) + 1
    ensures DaysFromDate(Date(1970, 1, 1)) == 0
  {
    hide IsLeap, DaysBeforeMonth, DaysBeforeYear, DaysFromDate;
    DayCountFollowsTheCalendar(d);
    DaysFromDateExactly(d);
    DaysFromDateExactly(Next(d));
    DaysFromDateExactly(Date(1970, 1, 1));
  }

  // ---------- the approximate count ----------

  /** Century years that are no leap years, from 1970 up to the year before. */
  function SkippedLeapDays(year: int): nat
    decreases year
  {
    if year <= 1970 then 0
    else SkippedLeapDays(year - 1) + SkippedIn(year - 1)
  }

  const DAYS_BEFORE_MONTH: seq<nat> := [0, 31, 59, 90, 120, 151, 181, 212, 243, 273, 304, 334]

  /** The arithmetic is unsigned: a year before 1970 or a day 0 underflows, here None. */
  method ApproximateDays(year: nat, month: nat, day: nat) returns (r: Option<nat>)
    ensures r.None? <==> year < 1970 || day == 0
    ensures r.Some? && Valid(Date(year, month, day)) ==>
              r.value == DayCount(Date(year, month, day)) + SkippedLeapDays(year)
  {
    if year < 1970 { return None; }
    var days := (year - 1970) * 365 + (year - 1969) / 4;
    if 1 <= month <= 12 { days := days + DAYS_BEFORE_MONTH[month - 1]; }
    if month > 2 && year % 4 == 0 && (year % 100 != 0 || year % 400 == 0) { days := days + 1; }
    if day == 0 { return None; }
    days := days + (day - 1);
    MonthTable(year);
    YearsAreOverCounted(year);
    return Some(days);
  }

  function SkippedIn(year: int): nat { if year % 100 == 0 && year % 400 != 0 then 1 else 0 }

  lemma YearLengthSplits(year: int)
    ensures YearLength(year) == 365 + (if year % 4 == 0 then 1 else 0) - SkippedIn(year)
  {
    var k := year / 100;
    if year % 100 == 0 { assert year == 100 * k == 4 * (25 * k); }
  }

  lemma LeapDayCounted(year: int)
    requires year > 1970
    ensures (year - 1969) / 4 == (year - 1970) / 4 + (if (year - 1) % 4 == 0 then 1 else 0)
  {
    DivStep(year - 1970, 4);
    assert year - 1 == (year - 1969) + 4 * 492;
  }

  lemma {:induction false} YearsAreOverCounted(year: int)
    requires year >= 1970
    ensures (year - 1970) * 365 + (year - 1969) / 4 == DaysBeforeYear(year) + SkippedLeapDays(year)
    decreases year
  {
    hide YearLength, SkippedIn;
    if year > 1970 {
      YearsAreOverCounted(year - 1);
      LeapDayCounted(year);
      YearLengthSplits(year - 1);
    }
  }

  /** No century year is skipped before 2101, so until then the count is exact. */
  lemma {:induction false} ExactThrough2100(year: int)
    ensures SkippedLeapDays(year) == 0 <==> year <= 2100
    decreases year
  {
    if year > 2101 {
      ExactThrough2100(year - 1);
    } else if year > 1970 && year != 2101 {
      ExactThrough2100(year - 1);
      assert (year - 1) % 100 == 0 ==> year - 1 == 2000;
    } else if year == 2101 {
      assert 2100 % 100 == 0 && 2100 % 400 != 0;
    }
  }
}
