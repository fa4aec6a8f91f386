/** The proleptic Gregorian calendar of Python's `datetime.date`: years 1 to
    9999, the ordinal numbering of days (1 January of year 1 is day 1),
    weekdays with Monday = 0, `date.replace(year=...)` and the step to the
    next day that `+ timedelta(days=1)` takes. */
module Calendar {
  import opened Wrappers
  import opened Text
  import opened Errors

  const MinYear := 1
  const MaxYear := 9999

  /** Ordinal of 31 December 9999, the largest date Python can represent. */
  const MaxOrdinal := 3652059

  const Saturday := 5
  const Sunday := 6

  datatype Date = Date(year: int, month: int, day: int)

  predicate IsLeapYear(year: int) {
    year % 4 == 0 && (year % 100 != 0 || year % 400 == 0)
  }

  function DaysInMonth(year: int, month: int): (n: int)
    requires 1 <= month <= 12
    ensures 28 <= n <= 31
  {
    if month == 2 then (if IsLeapYear(year) then 29 else 28)
    else if month == 4 || month == 6 || month == 9 || month == 11 then 30
    else 31
  }

  predicate IsValid(d: Date) {
    MinYear <= d.year <= MaxYear && 1 <= d.month <= 12 && 1 <= d.day <= DaysInMonth(d.year, d.month)
  }

  /** A value of Python's `date` type: every one of them is a real calendar day. */
  type CalendarDate = d: Date | IsValid(d) witness Date(1, 1, 1)

  const MaxDate: CalendarDate := Date(MaxYear, 12, 31)

  /** Python's date order: by year, then month, then day. */
  predicate Before(a: Date, b: Date) {
    a.year < b.year || (a.year == b.year && (a.month < b.month || (a.month == b.month && a.day < b.day)))
  }

  predicate AtOrBefore(a: Date, b: Date) {
    a == b || Before(a, b)
  }

  function DaysInYear(year: int): int {
    if IsLeapYear(year) then 366 else 365
  }

  /** Days in the years before `year` (Python's `_days_before_year`). */
  function DaysBeforeYear(year: int): int
    requires year >= 1
  {
    var y := year - 1;
    y * 365 + y / 4 - y / 100 + y / 400
  }

  /** Days in the months of `year` before `month` (`_days_before_month`). */
  function DaysBeforeMonth(year: int, month: int): int
    requires 1 <= month <= 12
  {
    var common :=
      match month
      case 1 => 0 case 2 => 31 case 3 => 59 case 4 => 90
      case 5 => 120 case 6 => 151 case 7 => 181 case 8 => 212
      case 9 => 243 case 10 => 273 case 11 => 304 case _ => 334;
    common + (if month > 2 && IsLeapYear(year) then 1 else 0)
  }

  /** `date.toordinal()`. */
  function Ordinal(d: CalendarDate): int {
    DaysBeforeYear(d.year) + DaysBeforeMonth(d.year, d.month) + d.day
  }

  /** `date.weekday()`: Monday is 0 and Sunday is 6. */
  function Weekday(d: CalendarDate): (w: int)
    ensures 0 <= w < 7
  {
    (Ordinal(d) + 6) % 7
  }

  lemma DaysBeforeYearStep(year: int)
    requires year >= 1
    ensures DaysBeforeYear(year + 1) == DaysBeforeYear(year) + DaysInYear(year)
  {
    var y := year - 1;
    QuotientStep(y, 4);
    QuotientStep(y, 100);
    QuotientStep(y, 400);
    CenturiesNest(year);
    var leaps := year / 4 - y / 4;
    var centuries := year / 100 - y / 100;
    var quads := year / 400 - y / 400;
    assert DaysBeforeYear(year + 1) - DaysBeforeYear(year) == 365 + leaps - centuries + quads;
    assert DaysInYear(year) == 365 + leaps - centuries + quads;
  }

  /** A multiple of 400 is one of 100, and a multiple of 100 one of 4. */
  lemma CenturiesNest(year: int)
    ensures year % 400 == 0 ==> year % 100 == 0
    ensures year % 100 == 0 ==> year % 4 == 0
  {
    if year % 400 == 0 {
      QuotientUnique(year, 100, 4 * (year / 400), 0);
    }
    if year % 100 == 0 {
      QuotientUnique(year, 4, 25 * (year / 100), 0);
    }
  }

  /** Counting one more: `(y + 1) / k` passes a multiple of `k` exactly when
      `y + 1` is one. */
  lemma QuotientStep(y: int, k: int)
    requires y >= 0 && k > 0
    ensures (y + 1) / k == y / k + (if (y + 1) % k == 0 then 1 else 0)
  {
    var q, r := y / k, y % k;
    assert y == q * k + r && 0 <= r < k;
    if r + 1 == k {
      assert y + 1 == (q + 1) * k;
      QuotientUnique(y + 1, k, q + 1, 0);
    } else {
      assert y + 1 == q * k + (r + 1);
      QuotientUnique(y + 1, k, q, r + 1);
    }
  }

  lemma QuotientUnique(a: int, k: int, q: int, r: int)
    requires k > 0 && 0 <= r < k && a == q * k + r
    ensures a / k == q && a % k == r
  {
    var q', r' := a / k, a % k;
    assert a == q' * k + r' && 0 <= r' < k;
    if q > q' {
      assert (q - q') * k == q * k - q' * k;
      AtLeastOnce(q - q', k);
    } else if q < q' {
      assert (q' - q) * k == q' * k - q * k;
      AtLeastOnce(q' - q, k);
    }
  }

  lemma {:induction false} AtLeastOnce(m: int, k: int)
    requires m >= 1 && k > 0
    ensures m * k >= k
    decreases m
  {
    if m > 1 {
      AtLeastOnce(m - 1, k);
      assert m * k == (m - 1) * k + k;
    }
  }

  lemma {:induction false} DaysBeforeYearMonotone(a: int, b: int)
    requires 1 <= a <= b
    ensures DaysBeforeYear(a) + 365 * (b - a) <= DaysBeforeYear(b)
    decreases b - a
  {
    if a < b {
      DaysBeforeYearStep(a);
      DaysBeforeYearMonotone(a + 1, b);
    }
  }

  lemma DaysBeforeMonthStep(year: int, month: int)
    requires 1 <= month < 12
    ensures DaysBeforeMonth(year, month + 1) == DaysBeforeMonth(year, month) + DaysInMonth(year, month)
  {
  }

  lemma {:induction false} DaysBeforeMonthMonotone(year: int, m: int, n: int)
    requires 1 <= m < n <= 12
    ensures DaysBeforeMonth(year, m) + DaysInMonth(year, m) <= DaysBeforeMonth(year, n)
    decreases n - m
  {
    DaysBeforeMonthStep(year, m);
    if m + 1 < n {
      DaysBeforeMonthMonotone(year, m + 1, n);
    }
  }

  /** A date's ordinal lies within the span of its own year. */
  lemma OrdinalWithinYear(d: CalendarDate)
    ensures DaysBeforeYear(d.year) < Ordinal(d) <= DaysBeforeYear(d.year) + DaysInYear(d.year)
  {
    if d.month < 12 {
      DaysBeforeMonthMonotone(d.year, d.month, 12);
    }
  }

  /** Python's date order is the order of ordinals. */
  lemma OrdinalOrder(a: CalendarDate, b: CalendarDate)
    ensures Before(a, b) <==> Ordinal(a) < Ordinal(b)
  {
    OrdinalMonotone(a, b);
    OrdinalMonotone(b, a);
  }

  lemma OrdinalMonotone(a: CalendarDate, b: CalendarDate)
    ensures Before(a, b) ==> Ordinal(a) < Ordinal(b)
    ensures a == b || Before(a, b) || Before(b, a)
  {
    if a.year < b.year {
      OrdinalWithinYear(a);
      OrdinalWithinYear(b);
      DaysBeforeYearStep(a.year);
      DaysBeforeYearMonotone(a.year + 1, b.year);
    } else if a.year == b.year && a.month < b.month {
      DaysBeforeMonthMonotone(a.year, a.month, b.month);
    }
  }

  /** Distinct dates have distinct ordinals. */
  lemma OrdinalInjective(a: CalendarDate, b: CalendarDate)
    requires Ordinal(a) == Ordinal(b)
    ensures a == b
  {
    OrdinalOrder(a, b);
    OrdinalOrder(b, a);
    OrdinalMonotone(a, b);
  }

  /** Every date's ordinal lies in 1..MaxOrdinal, the range
      `date.fromordinal` accepts. */
  lemma OrdinalRange(d: CalendarDate)
    ensures 1 <= Ordinal(d) <= MaxOrdinal
  {
    OrdinalOrder(d, MaxDate);
    OrdinalMonotone(d, MaxDate);
    assert DaysBeforeYear(1) == 0;
  }

  /** 31 December 9999 is a Friday. */
  lemma MaxDateIsFriday()
    ensures Ordinal(MaxDate) == MaxOrdinal && Weekday(MaxDate) == 4
  {
  }

  /** The day after `d` (`d + timedelta(days=1)`); only the last
      representable day has none. */
  function NextDay(d: CalendarDate): (r: CalendarDate)
    requires d != MaxDate
  {
    if d.day < DaysInMonth(d.year, d.month) then Date(d.year, d.month, d.day + 1)
    else if d.month < 12 then Date(d.year, d.month + 1, 1)
    else Date(d.year + 1, 1, 1)
  }

  /** The next day is one ordinal on, and one weekday on. */
  lemma NextDayOrdinal(d: CalendarDate)
    requires d != MaxDate
    ensures Ordinal(NextDay(d)) == Ordinal(d) + 1
    ensures Weekday(NextDay(d)) == (Weekday(d) + 1) % 7
  {
    var n := NextDay(d);
    if d.day < DaysInMonth(d.year, d.month) {
    } else if d.month < 12 {
      DaysBeforeMonthStep(d.year, d.month);
    } else {
      DaysBeforeYearStep(d.year);
      assert Ordinal(n) == DaysBeforeYear(d.year + 1) + 1;
    }
    WeekdayStep(Ordinal(d));
  }

  lemma WeekdayStep(k: int)
    ensures (k + 1 + 6) % 7 == ((k + 6) % 7 + 1) % 7
  {
  }

  /** `d.replace(year=year)`: the year is checked first, then whether the day
      exists in that month of the new year. */
  function ReplaceYear(d: CalendarDate, year: int): (r: Result<CalendarDate, Exception>)
    ensures r.Success? <==>
              MinYear <= year <= MaxYear && !(d.month == 2 && d.day == 29 && !IsLeapYear(year))
    ensures r.Success? ==> r.value == Date(year, d.month, d.day)
    ensures r.Failure? ==> r.error.ValueError?
  {
    if year < MinYear || year > MaxYear then
      Failure(ValueError("year " + IntToString(year) + " is out of range"))
    else if d.day > DaysInMonth(year, d.month) then
      Failure(ValueError("day is out of range for month"))
    else
      Success(Date(year, d.month, d.day))
  }
}
