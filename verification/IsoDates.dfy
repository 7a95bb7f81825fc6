/** Dates of birth as text: `parse_dob_iso` and `days_to_iso` of
    `crates/core/src/issuance.rs`. Years 0 to 9999 have the `full-date` form of section
    5.6 of RFC 3339; other years carry a sign and at least four digits. */
module IsoDates {
  import opened Machine
  import opened Calendar
  import opened TextOrder
  import opened AgeCutoff

  datatype IsoError = BadFormat | DaysOutsideI32 | OutsideCalendar

  // ----- Decimal digits -----

  predicate IsDigit(c: char) {
    '0' <= c <= '9'
  }

  predicate AllDigits(s: string) {
    forall i :: 0 <= i < |s| ==> IsDigit(s[i])
  }

  function DigitChar(d: nat): char
    requires d < 10
  {
    ('0' as int + d) as char
  }

  /** `n` in decimal, padded with zeros to at least `width` digits. */
  function Digits(n: nat, width: nat): string
    decreases n + width
  {
    if n == 0 && width == 0 then ""
    else Digits(n / 10, if width == 0 then 0 else width - 1) + [DigitChar(n % 10)]
  }

  function NumberOf(s: string): nat
    requires AllDigits(s)
  {
    if s == "" then 0 else 10 * NumberOf(s[..|s| - 1]) + (s[|s| - 1] as int - '0' as int)
  }

  function Power10(n: nat): nat {
    if n == 0 then 1 else 10 * Power10(n - 1)
  }

  lemma {:induction false} DigitsRoundTrip(n: nat, width: nat)
    ensures AllDigits(Digits(n, width)) && NumberOf(Digits(n, width)) == n
    ensures |Digits(n, width)| >= width
    ensures n < Power10(width) ==> |Digits(n, width)| == width
    decreases n + width
  {
    if n > 0 || width > 0 {
      var shorter := Digits(n / 10, if width == 0 then 0 else width - 1);
      DigitsRoundTrip(n / 10, if width == 0 then 0 else width - 1);
      assert Digits(n, width)[..|Digits(n, width)| - 1] == shorter;
    }
  }

  // ----- Text of a date -----

  function YearText(year: int): string {
    if 0 <= year <= 9999 then Digits(year, 4)
    else if year > 9999 then "+" + Digits(year, 4)
    else "-" + Digits(-year, 4)
  }

  function DateText(d: Date): string
    requires Valid(d)
  {
    Joined(YearText(d.year), Digits(d.month, 2), Digits(d.day, 2))
  }

  function Joined(y: string, m: string, d: string): string {
    y + ("-" + (m + ("-" + d)))
  }

  function ParseYear(s: string): Option<int> {
    if |s| == 4 && AllDigits(s) then Some(NumberOf(s))
    else if |s| >= 5 && s[0] in {'+', '-'} && AllDigits(s[1..]) then
      var magnitude: int := NumberOf(s[1..]);
      Some(if s[0] == '+' then magnitude else -magnitude)
    else None
  }

  function ParseDate(s: string): Option<NaiveDate> {
    var n := |s|;
    if n < 10 || s[n - 6] != '-' || s[n - 3] != '-' then None
    else if !AllDigits(s[n - 5..n - 3]) || !AllDigits(s[n - 2..]) then None
    else
      match ParseYear(s[..n - 6])
      case None => None
      case Some(year) => FromYmdOpt(year, NumberOf(s[n - 5..n - 3]), NumberOf(s[n - 2..]))
  }

  // ----- The two conversions -----

  function ParseDobIso(s: string): Result<i32, IsoError> {
    match ParseDate(s)
    case None => Err(BadFormat)
    case Some(dob) =>
      var days := SignedDays(dob);
      if I32_MIN <= days <= I32_MAX then Ok(days) else Err(IsoError.DaysOutsideI32)
  }

  function DaysToIso(days: i32): Result<string, IsoError> {
    var date := DateOfCe(days + UNIX_EPOCH_OFFSET_DAYS);
    if MIN_YEAR <= date.year <= MAX_YEAR then Ok(DateText(date)) else Err(OutsideCalendar)
  }

  // ----- Round trips -----

  lemma YearRoundTrip(year: int)
    ensures ParseYear(YearText(year)) == Some(year)
    ensures |YearText(year)| >= 4
  {
    assert Power10(4) == 10000 by { assert Power10(2) == 100; }
    DigitsRoundTrip(if year < 0 then -year else year, 4);
    if year > 9999 || year < 0 {
      assert YearText(year)[1..] == Digits(if year < 0 then -year else year, 4);
    }
  }

  lemma TwoDigits(n: nat)
    requires n < 100
    ensures |Digits(n, 2)| == 2 && AllDigits(Digits(n, 2)) && NumberOf(Digits(n, 2)) == n
  {
    assert Power10(2) == 100;
    DigitsRoundTrip(n, 2);
  }

  /** Every date is read back from its own text. */
  lemma DateTextRoundTrip(d: NaiveDate)
    ensures ParseDate(DateText(d)) == Some(d)
  {
    hide YearText, Digits, NumberOf, AllDigits, ParseYear, Joined;
    YearRoundTrip(d.year);
    TwoDigits(d.month);
    TwoDigits(d.day);
    Fields(YearText(d.year), Digits(d.month, 2), Digits(d.day, 2));
  }

  lemma Fields(y: string, m: string, d: string)
    requires |m| == 2 && |d| == 2
    ensures var s := Joined(y, m, d);
            && |s| == |y| + 6
            && s[..|y|] == y && s[|y|] == '-' && s[|y| + 1..|y| + 3] == m && s[|y| + 3] == '-' && s[|y| + 4..] == d
  {
  }

  lemma {:induction false} DigitsOfNumber(s: string)
    requires AllDigits(s)
    ensures Digits(NumberOf(s), |s|) == s
  {
    if s != "" {
      DigitsOfNumber(s[..|s| - 1]);
    }
  }

  /** `y` writes `year`: four digits, or a sign and at least four digits. */
  predicate WritesYear(y: string, year: int) {
    || (|y| == 4 && year >= 0 && y == Digits(year, 4))
    || (|y| >= 5 && y[0] == '+' && year >= 0 && y[1..] == Digits(year, |y| - 1))
    || (|y| >= 5 && y[0] == '-' && year <= 0 && y[1..] == Digits(-year, |y| - 1))
  }

  lemma YearParsedExactlyWhen(y: string, year: int)
    ensures ParseYear(y) == Some(year) <==> WritesYear(y, year)
  {
    hide Digits, NumberOf, AllDigits;
    if |y| == 4 && AllDigits(y) {
      DigitsOfNumber(y);
      if WritesYear(y, year) {
        DigitsRoundTrip(year, 4);
      }
    } else if |y| >= 5 && AllDigits(y[1..]) {
      DigitsOfNumber(y[1..]);
    }
    if WritesYear(y, year) {
      DigitsRoundTrip(if year < 0 then -year else year, if |y| == 4 then 4 else |y| - 1);
    }
  }

  /** Which texts are a date: a year, and two digits each for a month and a day that
      exist, between dashes. Every other text is refused. */
  lemma ParsedExactlyWhen(s: string, d: NaiveDate)
    ensures ParseDate(s) == Some(d)
            <==> exists y :: WritesYear(y, d.year) && s == Joined(y, Digits(d.month, 2), Digits(d.day, 2))
  {
    hide WritesYear, Digits, NumberOf, AllDigits, ParseYear;
    if ParseDate(s) == Some(d) {
      var n := |s|;
      YearParsedExactlyWhen(s[..n - 6], d.year);
      DigitsOfNumber(s[n - 5..n - 3]);
      DigitsOfNumber(s[n - 2..]);
      assert s == Joined(s[..n - 6], s[n - 5..n - 3], s[n - 2..]);
    }
    if y :| WritesYear(y, d.year) && s == Joined(y, Digits(d.month, 2), Digits(d.day, 2)) {
      YearParsedExactlyWhen(y, d.year);
      WrittenYearLength(y, d.year);
      TwoDigits(d.month);
      TwoDigits(d.day);
      Fields(y, Digits(d.month, 2), Digits(d.day, 2));
    }
  }

  lemma WrittenYearLength(y: string, year: int)
    requires WritesYear(y, year)
    ensures |y| >= 4
  {
  }

  /** A day number within the calendar survives text and back; outside it there is no
      text at all. */
  lemma DaysSurviveText(days: i32)
    ensures DaysToIso(days).Ok? ==> ParseDobIso(DaysToIso(days).value) == Ok(days)
    ensures DaysToIso(days).Ok? <==> exists d: NaiveDate :: SignedDays(d) == days
  {
    var date := DateOfCe(days + UNIX_EPOCH_OFFSET_DAYS);
    if MIN_YEAR <= date.year <= MAX_YEAR {
      var d: NaiveDate := date;
      assert SignedDays(d) == days;
      DateTextRoundTrip(d);
    } else {
      forall d: NaiveDate ensures SignedDays(d) != days {
        DayNumberOrder(d, date);
      }
    }
  }

  /** A date of birth survives being parsed and printed, and its parsed day number is
      the one `days_since_epoch` computes, except that the latter stops at zero. */
  lemma DobTextSurvives(dob: NaiveDate)
    ensures ParseDobIso(DateText(dob)) == Ok(DobDays(dob))
    ensures DaysToIso(DobDays(dob)) == Ok(DateText(dob))
    ensures DaysSinceEpoch(dob) == if DobDays(dob) < 0 then 0 else DobDays(dob)
  {
    hide DateText, DateOfCe, ParseDate;
    DateTextRoundTrip(dob);
    CalendarFitsI32(dob);
    DateOfCeInverts(dob);
    assert DobDays(dob) + UNIX_EPOCH_OFFSET_DAYS == NumDaysFromCe(dob);
  }

  // ----- Order -----

  lemma {:induction false} LessAppend(a: string, b: string, x: string, y: string)
    requires |a| == |b|
    ensures Less(a + x, b + y) <==> Less(a, b) || (a == b && Less(x, y))
  {
    if a == "" {
      assert a + x == x && b + y == y;
    } else {
      LessAppend(a[1..], b[1..], x, y);
      assert (a + x)[1..] == a[1..] + x && (b + y)[1..] == b[1..] + y;
      assert a == [a[0]] + a[1..] && b == [b[0]] + b[1..];
    }
  }

  /** Numbers written with the same number of digits compare as text. */
  lemma {:induction false} DigitsOrder(m: nat, n: nat, width: nat)
    requires m < Power10(width) && n < Power10(width)
    ensures Less(Digits(m, width), Digits(n, width)) <==> m < n
    ensures Digits(m, width) == Digits(n, width) <==> m == n
  {
    hide NumberOf, AllDigits;
    DigitsRoundTrip(m, width);
    DigitsRoundTrip(n, width);
    if width > 0 {
      DigitsOrder(m / 10, n / 10, width - 1);
      DigitsRoundTrip(m / 10, width - 1);
      DigitsRoundTrip(n / 10, width - 1);
      LessAppend(Digits(m / 10, width - 1), Digits(n / 10, width - 1), [DigitChar(m % 10)], [DigitChar(n % 10)]);
    }
  }

  /** For years 0 to 9999 the order of the texts is the order of the dates, and so of
      the day numbers. */
  lemma TextOrderIsDateOrder(a: NaiveDate, b: NaiveDate)
    requires 0 <= a.year <= 9999 && 0 <= b.year <= 9999
    ensures |DateText(a)| == |DateText(b)| == 10
    ensures Less(DateText(a), DateText(b)) <==> Before(a, b)
    ensures Less(DateText(a), DateText(b)) <==> SignedDays(a) < SignedDays(b)
  {
    assert Power10(2) == 100;
    assert Power10(4) == 10000;
    DigitsRoundTrip(a.year, 4);
    DigitsRoundTrip(b.year, 4);
    TwoDigits(a.month);
    TwoDigits(b.month);
    TwoDigits(a.day);
    TwoDigits(b.day);
    DigitsOrder(a.year, b.year, 4);
    DigitsOrder(a.month, b.month, 2);
    DigitsOrder(a.day, b.day, 2);
    DayNumberOrder(a, b);
    FieldsOrder(YearText(a.year), Digits(a.month, 2), Digits(a.day, 2),
                YearText(b.year), Digits(b.month, 2), Digits(b.day, 2));
  }

  lemma FieldsOrder(ya: string, ma: string, da: string, yb: string, mb: string, db: string)
    requires |ya| == |yb| && |ma| == |mb|
    ensures Less(Joined(ya, ma, da), Joined(yb, mb, db))
            <==> Less(ya, yb) || (ya == yb && (Less(ma, mb) || (ma == mb && Less(da, db))))
  {
    LessAppend(ya, yb, "-" + (ma + ("-" + da)), "-" + (mb + ("-" + db)));
    AfterDash(ma + ("-" + da), mb + ("-" + db));
    LessAppend(ma, mb, "-" + da, "-" + db);
    AfterDash(da, db);
  }

  lemma AfterDash(x: string, y: string)
    ensures Less("-" + x, "-" + y) <==> Less(x, y)
  {
    assert ("-" + x)[1..] == x && ("-" + y)[1..] == y;
  }
}
