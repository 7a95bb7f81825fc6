/** Day counts and the age cutoff of `crates/core/src/utils.rs`, against the
    calendar meaning of age. */
module AgeCutoff {
  import opened Machine
  import opened Calendar

  datatype CutoffError = AgeTooLarge | YearOutOfRange | DaysOutsideI32

  /** `days_since_epoch`: the calendar days walked from 1970-01-01, clamped at zero. */
  function DaysSinceEpoch(date: NaiveDate): (days: u64)
    ensures NotAfter(EPOCH, date) ==> AfterDays(EPOCH, days) == date
    ensures NotAfter(date, EPOCH) <==> days == 0
  {
    CalendarFitsI32(date);
    DayNumberOrder(date, EPOCH);
    EpochIsDayZero();
    var signed := NumDaysFromCe(date) - UNIX_EPOCH_OFFSET_DAYS;
    var days: u64 := if signed < 0 then 0 else signed;
    SignedDaysCountsCalendarDays(days);
    DayNumberOrder(AfterDays(EPOCH, days), date);
    days
  }

  /** `date_from_days`, with its three range checks. */
  function DateFromDays(days: u64): Option<NaiveDate> {
    if days > I64_MAX then None
    else if UNIX_EPOCH_OFFSET_DAYS + days > I64_MAX then None
    else if UNIX_EPOCH_OFFSET_DAYS + days > I32_MAX then None
    else FromNumDaysFromCeOpt(UNIX_EPOCH_OFFSET_DAYS + days)
  }

  /** The cutoff date: today moved back by whole years, 29 February falling back
      to 28 February when the target year has no leap day. */
  function CutoffDate(today: NaiveDate, targetYear: int): Option<NaiveDate> {
    match WithYear(today, targetYear)
    case Some(d) => Some(d)
    case None => FromYmdOpt(targetYear, 2, 28)
  }

  /** `calculate_cutoff_days`, with the clock reading `today` as a parameter. (An
      age of at most 200 always converts to `i32`, so that step has no branch.) */
  function CalculateCutoffDays(today: NaiveDate, minAgeYears: u32): Result<i32, CutoffError> {
    if minAgeYears > 200 then Err(AgeTooLarge)
    else if today.year - minAgeYears < I32_MIN then Err(YearOutOfRange)
    else
      match CutoffDate(today, today.year - minAgeYears)
      case None => Err(YearOutOfRange)
      case Some(cutoff) =>
        var signed := NumDaysFromCe(cutoff) - UNIX_EPOCH_OFFSET_DAYS;
        if I32_MIN <= signed <= I32_MAX then Ok(signed) else Err(DaysOutsideI32)
  }

  /** `validate_age`. */
  predicate ValidateAge(dobDays: i32, cutoffDays: i32, isUnderAge: bool) {
    if isUnderAge then dobDays >= cutoffDays else dobDays <= cutoffDays
  }

  /** A date of birth as the signed day count that credentials carry. */
  function DobDays(dob: NaiveDate): i32 {
    CalendarFitsI32(dob);
    SignedDays(dob)
  }

  // ----- What an age is -----

  /** Age in completed calendar years: birthdays reached since birth. A birth on
      29 February completes its year on 1 March of a common year. */
  function CompletedYears(dob: Date, today: Date): int {
    today.year - dob.year - (if DayOfYearBefore(today, dob) then 1 else 0)
  }

  // ----- Day counts and dates undo each other -----

  lemma DateFromOwnDays(date: NaiveDate, days: u64)
    requires SignedDays(date) == days
    ensures DateFromDays(days) == Some(date)
  {
    CalendarFitsI32(date);
    var n: i32 := NumDaysFromCe(date);
    DateOfCeInverts(date);
    assert FromNumDaysFromCeOpt(n) == Some(date);
    assert UNIX_EPOCH_OFFSET_DAYS + days == n;
  }

  /** A date survives the round trip exactly when it is not clamped. */
  lemma DateRoundTrip(date: NaiveDate)
    ensures DateFromDays(DaysSinceEpoch(date)) == Some(date) <==> NotAfter(EPOCH, date)
  {
    EpochIsDayZero();
    DayNumberOrder(date, EPOCH);
    if NotAfter(EPOCH, date) {
      DateFromOwnDays(date, DaysSinceEpoch(date));
    } else {
      DateFromOwnDays(EPOCH, DaysSinceEpoch(date));
    }
  }

  lemma DayCountRoundTrip(days: u64)
    requires DateFromDays(days).Some?
    ensures DaysSinceEpoch(DateFromDays(days).value) == days
  {
  }

  /** `date_from_days` answers exactly the day counts that are `days` calendar
      days after 1970-01-01 within the representable calendar. */
  lemma DateFromDaysWalksCalendar(days: u64, date: NaiveDate)
    ensures DateFromDays(days) == Some(date) <==> AfterDays(EPOCH, days) == date
  {
    SignedDaysCountsCalendarDays(days);
    CalendarFitsI32(date);
    DayNumberOrder(AfterDays(EPOCH, days), date);
    DateOfCeInverts(date);
  }

  // ----- The cutoff -----

  lemma CutoffOutcome(today: NaiveDate, n: u32)
    ensures CalculateCutoffDays(today, n).Ok? <==> n <= 200 && today.year - n >= MIN_YEAR
    ensures n > 200 ==> CalculateCutoffDays(today, n) == Err(AgeTooLarge)
    ensures n <= 200 && today.year - n < MIN_YEAR ==> CalculateCutoffDays(today, n) == Err(YearOutOfRange)
    ensures CalculateCutoffDays(today, n).Ok? ==>
              && CutoffDate(today, today.year - n).Some?
              && CalculateCutoffDays(today, n).value == SignedDays(CutoffDate(today, today.year - n).value)
  {
    var cutoff := CutoffDate(today, today.year - n);
    if cutoff.Some? {
      CalendarFitsI32(cutoff.value);
    }
  }

  /** Passing the over-age check is having completed `n` years of age: the day
      number comparison decides the calendar question for every date of birth and
      every day, leap days included. */
  lemma OverAgeIsCompletedYears(dob: NaiveDate, today: NaiveDate, n: u32)
    requires CalculateCutoffDays(today, n).Ok?
    ensures ValidateAge(DobDays(dob), CalculateCutoffDays(today, n).value, false)
            <==> CompletedYears(dob, today) >= n
    ensures CompletedYears(dob, today) >= n
            <==> NotAfter(Date(dob.year + n, dob.month, dob.day), today)
  {
    CutoffOutcome(today, n);
    DayNumberOrder(CutoffDate(today, today.year - n).value, dob);
  }

  /** The under-age check accepts everyone younger than `n`, and besides them
      exactly the holders born on the cutoff date itself. */
  lemma UnderAgeIsYoungerOrBornOnCutoff(dob: NaiveDate, today: NaiveDate, n: u32)
    requires CalculateCutoffDays(today, n).Ok?
    ensures ValidateAge(DobDays(dob), CalculateCutoffDays(today, n).value, true)
            <==> CompletedYears(dob, today) < n || CutoffDate(today, today.year - n) == Some(dob)
  {
    CutoffOutcome(today, n);
    OverAgeIsCompletedYears(dob, today, n);
    DayNumberOrder(CutoffDate(today, today.year - n).value, dob);
  }

  /** A holder on the cutoff date passes both directions, and no other does. */
  lemma BothDirectionsOnlyOnCutoffDate(dob: NaiveDate, today: NaiveDate, n: u32)
    requires CalculateCutoffDays(today, n).Ok?
    ensures (ValidateAge(DobDays(dob), CalculateCutoffDays(today, n).value, false)
             && ValidateAge(DobDays(dob), CalculateCutoffDays(today, n).value, true))
            <==> CutoffDate(today, today.year - n) == Some(dob)
    ensures ValidateAge(DobDays(dob), CalculateCutoffDays(today, n).value, false)
            || ValidateAge(DobDays(dob), CalculateCutoffDays(today, n).value, true)
  {
    CutoffOutcome(today, n);
    DayNumberOrder(CutoffDate(today, today.year - n).value, dob);
  }

  /** Under-age is not "younger than n": born 2006-02-28, the holder is eighteen
      and a day on 2024-02-29 and still passes the under-age check for 18. */
  lemma UnderAgeAcceptsAnAdult()
    ensures var dob: NaiveDate := Date(2006, 2, 28);
            var today: NaiveDate := Date(2024, 2, 29);
            && CalculateCutoffDays(today, 18).Ok?
            && CompletedYears(dob, today) == 18
            && Before(Date(2024, 2, 28), today)
            && ValidateAge(DobDays(dob), CalculateCutoffDays(today, 18).value, true)
  {
    var dob: NaiveDate := Date(2006, 2, 28);
    var today: NaiveDate := Date(2024, 2, 29);
    CutoffOutcome(today, 18);
    UnderAgeIsYoungerOrBornOnCutoff(dob, today, 18);
  }

  /** One more year of required age moves the cutoff back by 365 or 366 days. */
  lemma EachYearMovesCutoff(today: NaiveDate, n: u32)
    requires CalculateCutoffDays(today, n).Ok? && CalculateCutoffDays(today, n + 1).Ok?
    ensures CalculateCutoffDays(today, n).value - CalculateCutoffDays(today, n + 1).value in {365, 366}
  {
    CutoffOutcome(today, n);
    CutoffOutcome(today, n + 1);
    YearBack(today, today.year - n);
  }

  lemma YearBack(today: NaiveDate, year: int)
    requires CutoffDate(today, year).Some? && CutoffDate(today, year - 1).Some?
    ensures SignedDays(CutoffDate(today, year).value) - SignedDays(CutoffDate(today, year - 1).value) in {365, 366}
  {
    YearStep(year - 1);
    MonthShift(year, year - 1, today.month);
  }

  /** Two years agree on the days before a month, up to the leap day. */
  lemma {:induction false} MonthShift(y1: int, y2: int, month: int)
    requires 1 <= month <= 12
    ensures DaysBeforeMonth(y1, month) - DaysBeforeMonth(y2, month)
            == if month <= 2 then 0 else DaysInMonth(y1, 2) - DaysInMonth(y2, 2)
    decreases month
  {
    if month > 1 {
      MonthShift(y1, y2, month - 1);
    }
  }

  /** Any higher age has a strictly earlier cutoff. */
  lemma {:induction false} HigherAgeEarlierCutoff(today: NaiveDate, n1: u32, n2: u32)
    requires n1 < n2 && CalculateCutoffDays(today, n2).Ok?
    ensures CalculateCutoffDays(today, n1).Ok?
    ensures 365 * (n2 - n1) <= CalculateCutoffDays(today, n1).value - CalculateCutoffDays(today, n2).value
            <= 366 * (n2 - n1)
    decreases n2
  {
    CutoffOutcome(today, n1);
    CutoffOutcome(today, n2);
    CutoffOutcome(today, n2 - 1);
    EachYearMovesCutoff(today, n2 - 1);
    if n1 < n2 - 1 {
      HigherAgeEarlierCutoff(today, n1, n2 - 1);
    }
  }

  /** The cutoff never moves back as the days pass, so an accepted holder stays
      accepted on every later day. */
  lemma CutoffNeverRetreats(today: NaiveDate, later: NaiveDate, n: u32, dob: NaiveDate)
    requires NotAfter(today, later)
    requires CalculateCutoffDays(today, n).Ok?
    ensures CalculateCutoffDays(later, n).Ok?
    ensures CalculateCutoffDays(today, n).value <= CalculateCutoffDays(later, n).value
    ensures ValidateAge(DobDays(dob), CalculateCutoffDays(today, n).value, false) ==>
              ValidateAge(DobDays(dob), CalculateCutoffDays(later, n).value, false)
  {
    CutoffOutcome(today, n);
    CutoffOutcome(later, n);
    DayNumberOrder(CutoffDate(later, later.year - n).value, CutoffDate(today, today.year - n).value);
  }
}
