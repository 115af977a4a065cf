/** The proleptic Gregorian calendar of `java.time.LocalDate` and
    `java.time.YearMonth` (ISO 8601), reduced to day numbers.

    A date is represented by its day number: the count of days since
    0000-01-01, which has day number 0. Java's epoch day is the same count
    shifted by a constant (see `EpochAnchor`), so comparing two dates
    (`isBefore`, `isAfter`), moving a date by one day (`plusDays(1)`) and
    counting the days between two dates (`ChronoUnit.DAYS.between`) become
    `<`, `+ 1` and `-` on day numbers. */
module Calendar {

  /** A calendar month, as `YearMonth` holds it. */
  datatype YearMonth = YearMonth(year: int, month: int)

  /** A calendar date, as `LocalDate` holds it. */
  datatype Date = Date(year: int, month: int, day: int)

  predicate ValidMonth(ym: YearMonth) {
    1 <= ym.month <= 12
  }

  /** The Gregorian leap-year rule of `IsoChronology.isLeapYear`. */
  predicate IsLeapYear(year: int) {
    year % 4 == 0 && (year % 100 != 0 || year % 400 == 0)
  }

  /** `YearMonth.lengthOfMonth`. */
  function DaysInMonth(ym: YearMonth): (n: int)
    requires ValidMonth(ym)
    ensures 28 <= n <= 31
    ensures n == 28 <==> ym.month == 2 && !IsLeapYear(ym.year)
  {
    if ym.month == 2 then (if IsLeapYear(ym.year) then 29 else 28)
    else if ym.month == 4 || ym.month == 6 || ym.month == 9 || ym.month == 11 then 30
    else 31
  }

  function DaysInYear(year: int): int {
    if IsLeapYear(year) then 366 else 365
  }

  /** The day number of January 1st of `year`: 365 days a year plus one for
      each leap year in [0, year) (negated for the leap years in [year, 0)
      when `year` is negative). */
  function DaysBeforeYear(year: int): int {
    365 * year + (year + 3) / 4 - (year + 99) / 100 + (year + 399) / 400
  }

  /** Days of `ym.year` that precede the first of `ym`. */
  function DaysBeforeMonth(ym: YearMonth): int
    requires ValidMonth(ym)
  {
    var m := ym.month;
    var common :=
      if m <= 6 then
        if m == 1 then 0 else if m == 2 then 31 else if m == 3 then 59
        else if m == 4 then 90 else if m == 5 then 120 else 151
      else
        if m == 7 then 181 else if m == 8 then 212 else if m == 9 then 243
        else if m == 10 then 273 else if m == 11 then 304 else 334;
    common + (if m > 2 && IsLeapYear(ym.year) then 1 else 0)
  }

  /** Day number of `ym.atDay(1)`. */
  function FirstDay(ym: YearMonth): int
    requires ValidMonth(ym)
  {
    DaysBeforeYear(ym.year) + DaysBeforeMonth(ym)
  }

  /** Day number of `ym.atEndOfMonth()`. */
  function LastDay(ym: YearMonth): (d: int)
    requires ValidMonth(ym)
    ensures FirstDay(ym) + 27 <= d <= FirstDay(ym) + 30
  {
    FirstDay(ym) + DaysInMonth(ym) - 1
  }

  /** `ym.plusMonths(1)`. */
  function NextMonth(ym: YearMonth): (next: YearMonth)
    requires ValidMonth(ym)
    ensures ValidMonth(next)
    ensures MonthIndex(next) == MonthIndex(ym) + 1
  {
    if ym.month == 12 then YearMonth(ym.year + 1, 1) else YearMonth(ym.year, ym.month + 1)
  }

  /** `ym.minusMonths(1)`. */
  function PrevMonth(ym: YearMonth): (prev: YearMonth)
    requires ValidMonth(ym)
    ensures ValidMonth(prev) && NextMonth(prev) == ym
  {
    if ym.month == 1 then YearMonth(ym.year - 1, 12) else YearMonth(ym.year, ym.month - 1)
  }

  /** Months counted from January of year 0. */
  function MonthIndex(ym: YearMonth): int {
    12 * ym.year + ym.month - 1
  }

  /** `a.isBefore(b)` for months: year first, then month. */
  predicate MonthBefore(a: YearMonth, b: YearMonth) {
    a.year < b.year || (a.year == b.year && a.month < b.month)
  }

  /** The month a date lies in (`YearMonth.from`). */
  function MonthOf(d: Date): YearMonth {
    YearMonth(d.year, d.month)
  }

  predicate ValidDate(d: Date) {
    ValidMonth(MonthOf(d)) && 1 <= d.day <= DaysInMonth(MonthOf(d))
  }

  /** The day number of a date. */
  function DayNumber(d: Date): (n: int)
    requires ValidDate(d)
    ensures FirstDay(MonthOf(d)) <= n <= LastDay(MonthOf(d))
  {
    FirstDay(MonthOf(d)) + d.day - 1
  }

  /** `a.isBefore(b)` for dates, as `LocalDate.compareTo` orders them: year,
      then month, then day. */
  predicate DateBefore(a: Date, b: Date) {
    MonthBefore(MonthOf(a), MonthOf(b)) || (MonthOf(a) == MonthOf(b) && a.day < b.day)
  }

  /** A year is 365 days long, 366 in a leap year. */
  lemma YearLength(year: int)
    ensures DaysBeforeYear(year + 1) == DaysBeforeYear(year) + DaysInYear(year)
  {
    CeilingStep4(year);
    CeilingStep100(year);
    CeilingStep400(year);
    DivisibilityChain(year);
    var leaps := (if year % 4 == 0 then 1 else 0) - (if year % 100 == 0 then 1 else 0)
                 + (if year % 400 == 0 then 1 else 0);
    assert DaysBeforeYear(year + 1) == DaysBeforeYear(year) + 365 + leaps;
  }

  lemma DivisibilityChain(x: int)
    ensures x % 400 == 0 ==> x % 100 == 0
    ensures x % 100 == 0 ==> x % 4 == 0
  {
    if x % 400 == 0 {
      MultipleOf100(x, 4 * (x / 400));
    }
    if x % 100 == 0 {
      MultipleOf4(x, 25 * (x / 100));
    }
  }

  lemma MultipleOf100(x: int, k: int)
    requires x == 100 * k
    ensures x % 100 == 0
  {
  }

  lemma MultipleOf4(x: int, k: int)
    requires x == 4 * k
    ensures x % 4 == 0
  {
  }

  /** Helpers for `YearLength`: the count of multiples of k below a bound
      grows by one exactly when the bound passes a multiple of k. */
  lemma CeilingStep4(x: int)
    ensures (x + 4) / 4 - (x + 3) / 4 == if x % 4 == 0 then 1 else 0
  {
    var q, r := x / 4, x % 4;
    assert x == 4 * q + r;
    if r == 0 {
      assert (x + 3) / 4 == q && (x + 4) / 4 == q + 1;
    } else {
      assert (x + 3) / 4 == q + 1 && (x + 4) / 4 == q + 1;
    }
  }

  lemma CeilingStep100(x: int)
    ensures (x + 100) / 100 - (x + 99) / 100 == if x % 100 == 0 then 1 else 0
  {
    var q, r := x / 100, x % 100;
    assert x == 100 * q + r;
    if r == 0 {
      assert (x + 99) / 100 == q && (x + 100) / 100 == q + 1;
    } else {
      assert (x + 99) / 100 == q + 1 && (x + 100) / 100 == q + 1;
    }
  }

  lemma CeilingStep400(x: int)
    ensures (x + 400) / 400 - (x + 399) / 400 == if x % 400 == 0 then 1 else 0
  {
    var q, r := x / 400, x % 400;
    assert x == 400 * q + r;
    if r == 0 {
      assert (x + 399) / 400 == q && (x + 400) / 400 == q + 1;
    } else {
      assert (x + 399) / 400 == q + 1 && (x + 400) / 400 == q + 1;
    }
  }

  /** Consecutive months tile the day line: the day after the last day of a
      month is the first day of the next month, across a year end too. */
  lemma MonthsTile(ym: YearMonth)
    requires ValidMonth(ym)
    ensures LastDay(ym) + 1 == FirstDay(NextMonth(ym))
  {
    if ym.month == 12 {
      YearLength(ym.year);
    }
  }

  /** An earlier month ends before a later month begins. */
  lemma {:induction false} MonthOrder(a: YearMonth, b: YearMonth)
    requires ValidMonth(a) && ValidMonth(b)
    requires MonthBefore(a, b)
    ensures LastDay(a) < FirstDay(b)
    decreases MonthIndex(b) - MonthIndex(a)
  {
    var next := NextMonth(a);
    MonthsTile(a);
    if next != b {
      MonthOrder(next, b);
    }
  }

  /** Day numbers order dates as `LocalDate` does, and distinct dates have
      distinct day numbers; this is what lets the model compare and subtract
      day numbers where the source compares and subtracts dates. */
  lemma DayNumberOrder(a: Date, b: Date)
    requires ValidDate(a) && ValidDate(b)
    ensures DateBefore(a, b) <==> DayNumber(a) < DayNumber(b)
    ensures a == b <==> DayNumber(a) == DayNumber(b)
  {
    if MonthBefore(MonthOf(a), MonthOf(b)) {
      MonthOrder(MonthOf(a), MonthOf(b));
    } else if MonthBefore(MonthOf(b), MonthOf(a)) {
      MonthOrder(MonthOf(b), MonthOf(a));
    }
  }

  /** A date's day number lies in a month exactly when the date does. */
  lemma DayInMonthIff(d: Date, ym: YearMonth)
    requires ValidDate(d) && ValidMonth(ym)
    ensures FirstDay(ym) <= DayNumber(d) <= LastDay(ym) <==> MonthOf(d) == ym
  {
    if MonthBefore(MonthOf(d), ym) {
      MonthOrder(MonthOf(d), ym);
    } else if MonthBefore(ym, MonthOf(d)) {
      MonthOrder(ym, MonthOf(d));
    }
  }

  /** Day number 719528 is 1970-01-01, the origin of Java's epoch day
      (`LocalDate.DAYS_0000_TO_1970`). */
  lemma EpochAnchor()
    ensures DayNumber(Date(1970, 1, 1)) == 719528
  {
  }

  /** Every day number lies in some month, found by walking month by month
      from January of year 0 (whose first day is day 0). */
  lemma {:induction false} MonthContaining(n: int) returns (ym: YearMonth)
    ensures ValidMonth(ym) && FirstDay(ym) <= n <= LastDay(ym)
    decreases if n < 0 then -n else n
  {
    if n == 0 {
      ym := YearMonth(0, 1);
      assert FirstDay(ym) == 0;
    } else if n > 0 {
      var before := MonthContaining(n - 1);
      if n <= LastDay(before) {
        ym := before;
      } else {
        MonthsTile(before);
        ym := NextMonth(before);
      }
    } else {
      var after := MonthContaining(n + 1);
      if FirstDay(after) <= n {
        ym := after;
      } else {
        ym := PrevMonth(after);
        MonthsTile(ym);
      }
    }
  }

  /** Day numbers leave no gaps: every integer is the day number of a date.
      With `DayNumberOrder` this makes `DayNumber` a bijection between
      dates and integers. */
  lemma EveryDayIsADate(n: int)
    ensures exists d :: ValidDate(d) && DayNumber(d) == n
  {
    var ym := MonthContaining(n);
    var d := Date(ym.year, ym.month, n - FirstDay(ym) + 1);
    assert ValidDate(d) && DayNumber(d) == n;
  }
}
