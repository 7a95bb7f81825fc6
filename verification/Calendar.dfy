/** The proleptic Gregorian calendar behind `chrono::NaiveDate`: leap years as in
    Appendix C of RFC 3339, month lengths as in section 5.7 of RFC 3339, and the
    day numbers that `crates/core/src/utils.rs` computes with. */
module Calendar {
  import opened Machine

  // First and last year that `NaiveDate` can hold.
  const MIN_YEAR: int := -262143
  const MAX_YEAR: int := 262142

  // Day number (day 1 is 0001-01-01) of 1970-01-01.
  const UNIX_EPOCH_OFFSET_DAYS: int := 719163

  datatype Date = Date(year: int, month: int, day: int)

  const EPOCH: NaiveDate := Date(1970, 1, 1)

  type NaiveDate = d: Date | Valid(d) && MIN_YEAR <= d.year <= MAX_YEAR witness Date(1970, 1, 1)

  predicate IsLeap(year: int) {
    year % 4 == 0 && (year % 100 != 0 || year % 400 == 0)
  }

  function YearLength(year: int): int {
    if IsLeap(year) then 366 else 365
  }

  function DaysInMonth(year: int, month: int): int {
    if month == 2 then (if IsLeap(year) then 29 else 28)
    else if month in {4, 6, 9, 11} then 30
    else 31
  }

  predicate Valid(d: Date) {
    1 <= d.month <= 12 && 1 <= d.day <= DaysInMonth(d.year, d.month)
  }

  /** Lexicographic order on (year, month, day). */
  predicate Before(a: Date, b: Date) {
    a.year < b.year || (a.year == b.year && DayOfYearBefore(a, b))
  }

  /** Lexicographic order on (month, day) alone. */
  predicate DayOfYearBefore(a: Date, b: Date) {
    a.month < b.month || (a.month == b.month && a.day < b.day)
  }

  predicate NotAfter(a: Date, b: Date) {
    a == b || Before(a, b)
  }

  // ----- Day numbers -----

  /** Number of days in all years before `year`, counted from year 1. */
  function DaysBeforeYear(year: int): int
    decreases if year > 1 then year - 1 else 1 - year
  {
    if year > 1 then DaysBeforeYear(year - 1) + YearLength(year - 1)
    else if year < 1 then DaysBeforeYear(year + 1) - YearLength(year)
    else 0
  }

  function DaysBeforeMonth(year: int, month: int): int
    requires 1 <= month <= 13
    decreases month
  {
    if month == 1 then 0 else DaysBeforeMonth(year, month - 1) + DaysInMonth(year, month - 1)
  }

  /** `num_days_from_ce`. */
  function NumDaysFromCe(d: Date): int
    requires Valid(d)
  {
    DaysBeforeYear(d.year) + DaysBeforeMonth(d.year, d.month) + d.day
  }

  /** The signed day count around 1970-01-01. */
  function SignedDays(d: Date): int
    requires Valid(d)
  {
    NumDaysFromCe(d) - UNIX_EPOCH_OFFSET_DAYS
  }

  // ----- The reference: one calendar day after another -----

  /** The next calendar day, read off the month lengths. */
  function NextDay(d: Date): (r: Date)
    requires Valid(d)
    ensures Valid(r)
  {
    if d.day < DaysInMonth(d.year, d.month) then d.(day := d.day + 1)
    else if d.month < 12 then Date(d.year, d.month + 1, 1)
    else Date(d.year + 1, 1, 1)
  }

  /** `d` advanced by `n` calendar days. */
  function AfterDays(d: Date, n: nat): (r: Date)
    requires Valid(d)
    ensures Valid(r)
  {
    if n == 0 then d else NextDay(AfterDays(d, n - 1))
  }

  // ----- Year and month lengths in closed form -----

  lemma YearStep(year: int)
    ensures DaysBeforeYear(year + 1) == DaysBeforeYear(year) + YearLength(year)
  {
  }

  lemma QuotientStep(year: int, k: int)
    requires k in {4, 100, 400}
    ensures year / k - (year - 1) / k == if year % k == 0 then 1 else 0
  {
  }

  function LeapDaysBefore(year: int): int {
    (year - 1) / 4 - (year - 1) / 100 + (year - 1) / 400
  }

  lemma LeapDayStep(year: int)
    ensures LeapDaysBefore(year + 1) == LeapDaysBefore(year) + if IsLeap(year) then 1 else 0
  {
    QuotientStep(year, 4);
    QuotientStep(year, 100);
    QuotientStep(year, 400);
  }

  /** The year sum in the closed form with which a date library computes it. */
  lemma {:induction false} DaysBeforeYearClosedForm(year: int)
    ensures DaysBeforeYear(year) == 365 * (year - 1) + LeapDaysBefore(year)
    decreases if year > 1 then year - 1 else 1 - year
  {
    if year > 1 {
      DaysBeforeYearClosedForm(year - 1);
      LeapDayStep(year - 1);
    } else if year < 1 {
      DaysBeforeYearClosedForm(year + 1);
      LeapDayStep(year);
    }
  }

  lemma {:induction false} YearsApart(y1: int, y2: int)
    requires y1 < y2
    ensures DaysBeforeYear(y1) + YearLength(y1) <= DaysBeforeYear(y2)
    decreases y2 - y1
  {
    if y2 == y1 + 1 {
      YearStep(y1);
    } else {
      YearsApart(y1, y2 - 1);
      YearStep(y2 - 1);
    }
  }

  lemma {:induction false} MonthsApart(year: int, m1: int, m2: int)
    requires 1 <= m1 < m2 <= 13
    ensures DaysBeforeMonth(year, m1) + DaysInMonth(year, m1) <= DaysBeforeMonth(year, m2)
    decreases m2
  {
    if m1 + 1 < m2 {
      MonthsApart(year, m1, m2 - 1);
    }
  }

  lemma MonthsFillYear(year: int)
    ensures DaysBeforeMonth(year, 13) == YearLength(year)
  {
    MonthTable(year);
  }

  lemma MonthTable(year: int)
    ensures DaysBeforeMonth(year, 5) == 92 + DaysInMonth(year, 2)
    ensures DaysBeforeMonth(year, 9) == 215 + DaysInMonth(year, 2)
    ensures DaysBeforeMonth(year, 13) == 337 + DaysInMonth(year, 2)
  {
    assert DaysBeforeMonth(year, 3) == 31 + DaysInMonth(year, 2);
    assert DaysBeforeMonth(year, 5) == DaysBeforeMonth(year, 3) + 61;
    assert DaysBeforeMonth(year, 7) == DaysBeforeMonth(year, 5) + 61;
    assert DaysBeforeMonth(year, 9) == DaysBeforeMonth(year, 7) + 62;
    assert DaysBeforeMonth(year, 11) == DaysBeforeMonth(year, 9) + 61;
    assert DaysBeforeMonth(year, 13) == DaysBeforeMonth(year, 11) + 61;
  }

  /** The position of a date inside its year. */
  lemma OrdinalRange(d: Date)
    requires Valid(d)
    ensures DaysBeforeYear(d.year) < NumDaysFromCe(d) <= DaysBeforeYear(d.year) + YearLength(d.year)
  {
    MonthsApart(d.year, d.month, 13);
    MonthsFillYear(d.year);
    if d.month > 1 {
      MonthsApart(d.year, 1, d.month);
    }
  }

  // ----- Day numbers follow the calendar -----

  lemma NextDayCountsOne(d: Date)
    requires Valid(d)
    ensures NumDaysFromCe(NextDay(d)) == NumDaysFromCe(d) + 1
  {
    if d.day == DaysInMonth(d.year, d.month) && d.month == 12 {
      MonthsFillYear(d.year);
      YearStep(d.year);
    }
  }

  lemma EpochIsDayZero()
    ensures SignedDays(EPOCH) == 0
  {
    DaysBeforeYearClosedForm(1970);
  }

  /** Walking `n` calendar days adds `n` to the day count, from any date. */
  lemma {:induction false} AfterDaysAddsToCount(d: Date, n: nat)
    requires Valid(d)
    ensures SignedDays(AfterDays(d, n)) == SignedDays(d) + n
  {
    if n > 0 {
      AfterDaysAddsToCount(d, n - 1);
      NextDayCountsOne(AfterDays(d, n - 1));
    }
  }

  /** The signed day count is the number of calendar days walked from 1970-01-01. */
  lemma SignedDaysCountsCalendarDays(n: nat)
    ensures SignedDays(AfterDays(EPOCH, n)) == n
  {
    AfterDaysAddsToCount(EPOCH, n);
    EpochIsDayZero();
  }

  /** Comparing day numbers is comparing dates. */
  lemma DayNumberOrder(a: Date, b: Date)
    requires Valid(a) && Valid(b)
    ensures SignedDays(a) < SignedDays(b) <==> Before(a, b)
    ensures SignedDays(a) == SignedDays(b) <==> a == b
  {
    if Before(a, b) {
      DayNumberIncreases(a, b);
    } else if Before(b, a) {
      DayNumberIncreases(b, a);
    }
  }

  lemma DayNumberIncreases(a: Date, b: Date)
    requires Valid(a) && Valid(b) && Before(a, b)
    ensures SignedDays(a) < SignedDays(b)
  {
    if a.year < b.year {
      OrdinalRange(a);
      OrdinalRange(b);
      YearsApart(a.year, b.year);
    } else if a.month < b.month {
      MonthsApart(a.year, a.month, b.month);
    }
  }

  // ----- From a day number back to a date -----

  /** The year that holds day number `n`, by 400-, 100-, 4- and 1-year cycles. */
  function YearOf(n: int): (year: int)
    ensures DaysBeforeYear(year) < n <= DaysBeforeYear(year) + YearLength(year)
  {
    var t := n - 1;
    var a := t / 146097;
    var r := t % 146097;
    var b := if r / 36524 > 3 then 3 else r / 36524;
    var r1 := r - 36524 * b;
    var c := r1 / 1461;
    var r2 := r1 % 1461;
    var e := if r2 / 365 > 3 then 3 else r2 / 365;
    CyclesCount(a, b, c, e);
    400 * a + 100 * b + 4 * c + e + 1
  }

  lemma CyclesCount(a: int, b: int, c: int, e: int)
    requires 0 <= b <= 3 && 0 <= c <= 24 && 0 <= e <= 3
    ensures var y := 400 * a + 100 * b + 4 * c + e + 1;
            && DaysBeforeYear(y) == 146097 * a + 36524 * b + 1461 * c + 365 * e
            && YearLength(y) == if e == 3 && (c != 24 || b == 3) then 366 else 365
  {
    DaysBeforeYearClosedForm(400 * a + 100 * b + 4 * c + e + 1);
    CycleQuotients(a, b, c, e);
    CycleRemainders(a, b, c, e);
  }

  lemma CycleQuotients(a: int, b: int, c: int, e: int)
    requires 0 <= b <= 3 && 0 <= c <= 24 && 0 <= e <= 3
    ensures var y := 400 * a + 100 * b + 4 * c + e;
            y / 4 == 100 * a + 25 * b + c && y / 100 == 4 * a + b && y / 400 == a
  {
  }

  lemma CycleRemainders(a: int, b: int, c: int, e: int)
    requires 0 <= b <= 3 && 0 <= c <= 24 && 0 <= e <= 3
    ensures var y := 400 * a + 100 * b + 4 * c + e + 1;
            IsLeap(y) <==> e == 3 && (c != 24 || b == 3)
  {
    var y := 400 * a + 100 * b + 4 * c + e + 1;
    if e == 3 {
      CycleQuotients(a, b, c, 3);
      if c == 24 {
        assert y == 100 * (4 * a + b + 1);
        assert y == 400 * a + 100 * (b + 1);
      } else {
        assert y == 100 * (4 * a + b) + 4 * (c + 1);
        assert y == 4 * (100 * a + 25 * b + c + 1);
      }
    } else {
      assert y == 4 * (100 * a + 25 * b + c) + (e + 1);
    }
  }

  /** The month of `year` that holds the `ordinal`-th day of that year. */
  function MonthOf(year: int, ordinal: int, month: int): (m: int)
    requires 1 <= month <= 12
    requires DaysBeforeMonth(year, month) < ordinal <= DaysBeforeMonth(year, 13)
    ensures month <= m <= 12
    ensures DaysBeforeMonth(year, m) < ordinal <= DaysBeforeMonth(year, m) + DaysInMonth(year, m)
    decreases 12 - month
  {
    if ordinal <= DaysBeforeMonth(year, month + 1) then month else MonthOf(year, ordinal, month + 1)
  }

  /** The date with day number `n`, in the unbounded calendar. */
  function DateOfCe(n: int): (d: Date)
    ensures Valid(d) && NumDaysFromCe(d) == n
  {
    var year := YearOf(n);
    var ordinal := n - DaysBeforeYear(year);
    MonthsFillYear(year);
    var month := MonthOf(year, ordinal, 1);
    Date(year, month, ordinal - DaysBeforeMonth(year, month))
  }

  lemma DateOfCeInverts(d: Date)
    requires Valid(d)
    ensures DateOfCe(NumDaysFromCe(d)) == d
  {
    DayNumberOrder(DateOfCe(NumDaysFromCe(d)), d);
  }

  // ----- Dates that `NaiveDate` can hold -----

  function FromYmdOpt(year: int, month: int, day: int): Option<NaiveDate> {
    var d := Date(year, month, day);
    if Valid(d) && MIN_YEAR <= year <= MAX_YEAR then Some(d) else None
  }

  function WithYear(d: NaiveDate, year: int): Option<NaiveDate> {
    FromYmdOpt(year, d.month, d.day)
  }

  function FromNumDaysFromCeOpt(n: i32): Option<NaiveDate> {
    var d := DateOfCe(n);
    if MIN_YEAR <= d.year <= MAX_YEAR then Some(d) else None
  }

  /** Every day number of the representable calendar fits an `i32`. */
  lemma CalendarFitsI32(d: NaiveDate)
    ensures I32_MIN < NumDaysFromCe(d) < I32_MAX
    ensures I32_MIN < SignedDays(d) < I32_MAX
  {
    OrdinalRange(d);
    DaysBeforeYearClosedForm(d.year);
  }
}
