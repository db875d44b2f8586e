/**
 * The proleptic Gregorian calendar that Python's `datetime` module uses:
 * dates from 0001-01-01 onwards, numbered by day so that 0001-01-01 is day 1
 * (the numbering of `date.toordinal` and `date.fromordinal`).
 */
module Calendar {

  datatype Date = Date(year: int, month: int, day: int)

  /** The year range of Python's `datetime.date`. */
  const MinYear: int := 1
  const MaxYear: int := 9999

  /** Day number of 9999-12-31, the last date Python can represent. */
  const MaxDayNumber: int := 3652059

  /** The Gregorian rule: every fourth year, except century years not divisible by 400. */
  predicate IsLeap(year: int)
    ensures IsLeap(year) ==> year % 4 == 0
    ensures year % 100 == 0 && year % 400 != 0 ==> !IsLeap(year)
    ensures year % 400 == 0 ==> IsLeap(year)
    ensures year % 4 == 0 && year % 100 != 0 ==> IsLeap(year)
  {
    DivisorsOfCenturies(year);
    year % 4 == 0 && (year % 100 != 0 || year % 400 == 0)
  }

  function DaysInYear(year: int): int
  {
    if IsLeap(year) then 366 else 365
  }

  function DaysInMonth(year: int, month: int): (n: int)
    requires 1 <= month <= 12
    ensures 28 <= n <= 31
    ensures n < 30 <==> month == 2
    ensures n == 29 <==> month == 2 && IsLeap(year)
    ensures n == 30 <==> month == 4 || month == 6 || month == 9 || month == 11
  {
    if month == 2 then (if IsLeap(year) then 29 else 28)
    else if month == 4 || month == 6 || month == 9 || month == 11 then 30
    else 31
  }

  /** A date of the unbounded proleptic calendar: year 1 or later, month and day in range. */
  predicate IsCalendarDate(d: Date)
  {
    MinYear <= d.year && 1 <= d.month <= 12 && 1 <= d.day <= DaysInMonth(d.year, d.month)
  }

  /** A date that a Python `datetime.date` can hold. */
  predicate IsPythonDate(d: Date)
  {
    IsCalendarDate(d) && d.year <= MaxYear
  }

  /** Number of days in the years 1 .. year-1 (a closed form of their sum). */
  function DaysBeforeYear(year: int): (n: int)
    requires year >= 1
    ensures n >= 0
  {
    var y := year - 1;
    365 * y + y / 4 - y / 100 + y / 400
  }

  /** Number of days in the months 1 .. month-1 of the given year. */
  function DaysBeforeMonth(year: int, month: int): (n: int)
    requires 1 <= month <= 12
    ensures 0 <= n <= 335
  {
    var common :=
      match month
      case 1 => 0
      case 2 => 31
      case 3 => 59
      case 4 => 90
      case 5 => 120
      case 6 => 151
      case 7 => 181
      case 8 => 212
      case 9 => 243
      case 10 => 273
      case 11 => 304
      case _ => 334;
    common + (if month > 2 && IsLeap(year) then 1 else 0)
  }

  /** The day number of a date (`date.toordinal`). */
  function DateToDayNumber(d: Date): (n: int)
    requires IsCalendarDate(d)
    ensures DaysBeforeYear(d.year) < n <= DaysBeforeYear(d.year) + DaysInYear(d.year)
  {
    DaysBeforeMonthBound(d.year, d.month);
    DaysBeforeYear(d.year) + DaysBeforeMonth(d.year, d.month) + d.day
  }

  /** Each month starts where the previous one ends, and December ends the year. */
  lemma DaysBeforeMonthBound(year: int, month: int)
    requires 1 <= month <= 12
    ensures DaysBeforeMonth(year, month) + DaysInMonth(year, month) <= DaysInYear(year)
    ensures month < 12 ==> DaysBeforeMonth(year, month + 1) == DaysBeforeMonth(year, month) + DaysInMonth(year, month)
    ensures month == 12 ==> DaysBeforeMonth(year, month) + DaysInMonth(year, month) == DaysInYear(year)
  {
  }

  /** The closed form of `DaysBeforeYear` is the running sum of the year lengths. */
  lemma DaysBeforeNextYear(year: int)
    requires year >= 1
    ensures DaysBeforeYear(year + 1) == DaysBeforeYear(year) + DaysInYear(year)
  {
    QuotientStep4(year);
    QuotientStep100(year);
    QuotientStep400(year);
    DivisorsOfCenturies(year);
    var leapDays := year / 4 - (year - 1) / 4 - (year / 100 - (year - 1) / 100) + (year / 400 - (year - 1) / 400);
    assert leapDays == (if IsLeap(year) then 1 else 0);
  }

  /** A multiple of 400 is a multiple of 100, and a multiple of 100 is a multiple of 4. */
  lemma DivisorsOfCenturies(year: int)
    ensures year % 400 == 0 ==> year % 100 == 0
    ensures year % 100 == 0 ==> year % 4 == 0
  {
    if year % 400 == 0 {
      MultipleOf400(year / 400);
    }
    if year % 100 == 0 {
      MultipleOf100(year / 100);
    }
  }

  lemma MultipleOf400(t: int)
    ensures (400 * t) % 100 == 0
  {
    assert 400 * t == 100 * (4 * t);
  }

  lemma MultipleOf100(t: int)
    ensures (100 * t) % 4 == 0
  {
    assert 100 * t == 4 * (25 * t);
  }

  /** Passing from year - 1 to year, y / k grows by one exactly when k divides year. */
  lemma QuotientStep4(year: int)
    requires year >= 1
    ensures year / 4 == (year - 1) / 4 + (if year % 4 == 0 then 1 else 0)
  {
  }

  lemma QuotientStep100(year: int)
    requires year >= 1
    ensures year / 100 == (year - 1) / 100 + (if year % 100 == 0 then 1 else 0)
  {
  }

  lemma QuotientStep400(year: int)
    requires year >= 1
    ensures year / 400 == (year - 1) / 400 + (if year % 400 == 0 then 1 else 0)
  {
  }

  /** Later years start at least 365 days per year later. */
  lemma {:induction false} DaysBeforeYearIncreasing(a: int, b: int)
    requires 1 <= a <= b
    ensures DaysBeforeYear(a) + 365 * (b - a) <= DaysBeforeYear(b)
    decreases b - a
  {
    if a < b {
      DaysBeforeYearIncreasing(a, b - 1);
      DaysBeforeNextYear(b - 1);
    }
  }

  /** No year has more than 366 days. */
  lemma DaysBeforeYearAtMost(year: int)
    requires year >= 1
    ensures DaysBeforeYear(year) <= 366 * (year - 1)
  {
  }

  /** The year that holds the day `days` days after 0001-01-01, searched from `year` on. */
  function YearOfDay(days: int, year: int): (y: int)
    requires year >= 1 && DaysBeforeYear(year) <= days
    ensures y >= year && DaysBeforeYear(y) <= days < DaysBeforeYear(y + 1)
    decreases days - DaysBeforeYear(year)
  {
    DaysBeforeNextYear(year);
    if days < DaysBeforeYear(year + 1) then year else YearOfDay(days, year + 1)
  }

  /** The month of `year` that holds its day `dayOfYear` (counted from 0), searched from `month` on. */
  function MonthOfDay(year: int, dayOfYear: int, month: int): (m: int)
    requires 1 <= month <= 12
    requires DaysBeforeMonth(year, month) <= dayOfYear < DaysInYear(year)
    ensures month <= m <= 12
    ensures DaysBeforeMonth(year, m) <= dayOfYear < DaysBeforeMonth(year, m) + DaysInMonth(year, m)
    decreases 12 - month
  {
    DaysBeforeMonthBound(year, month);
    if dayOfYear < DaysBeforeMonth(year, month) + DaysInMonth(year, month) then month
    else MonthOfDay(year, dayOfYear, month + 1)
  }

  /** The date with a given day number (`date.fromordinal`, without its upper bound). */
  function DayNumberToDate(n: int): (d: Date)
    requires n >= 1
    ensures IsCalendarDate(d) && DateToDayNumber(d) == n
  {
    var days := n - 1;
    var start := days / 366 + 1;
    DaysBeforeYearAtMost(start);
    var year := YearOfDay(days, start);
    var dayOfYear := days - DaysBeforeYear(year);
    DaysBeforeNextYear(year);
    var month := MonthOfDay(year, dayOfYear, 1);
    Date(year, month, dayOfYear - DaysBeforeMonth(year, month) + 1)
  }

  /** Two dates with the same day number are the same date. */
  lemma DateToDayNumberInjective(d: Date, e: Date)
    requires IsCalendarDate(d) && IsCalendarDate(e)
    requires DateToDayNumber(d) == DateToDayNumber(e)
    ensures d == e
  {
    if d.year < e.year {
      YearOfDayNumber(d, e.year);
    } else if e.year < d.year {
      YearOfDayNumber(e, d.year);
    }
    if d.month < e.month {
      MonthsDisjoint(d.year, d.month, e.month);
    } else if e.month < d.month {
      MonthsDisjoint(d.year, e.month, d.month);
    }
  }

  /** Calendar order: by year, then month, then day. */
  predicate Precedes(d: Date, e: Date)
  {
    d.year < e.year || (d.year == e.year && (d.month < e.month || (d.month == e.month && d.day < e.day)))
  }

  /** Day numbers order dates exactly as the calendar does. */
  lemma DayNumberOrder(d: Date, e: Date)
    requires IsCalendarDate(d) && IsCalendarDate(e)
    ensures DateToDayNumber(d) < DateToDayNumber(e) <==> Precedes(d, e)
  {
    if Precedes(d, e) {
      PrecedesSmaller(d, e);
    } else if d != e {
      PrecedesSmaller(e, d);
    }
  }

  lemma PrecedesSmaller(d: Date, e: Date)
    requires IsCalendarDate(d) && IsCalendarDate(e) && Precedes(d, e)
    ensures DateToDayNumber(d) < DateToDayNumber(e)
  {
    if d.year < e.year {
      YearOfDayNumber(d, e.year);
    } else if d.month < e.month {
      MonthsDisjoint(d.year, d.month, e.month);
    }
  }

  /** A date's day number falls inside its own year and no other. */
  lemma YearOfDayNumber(d: Date, year: int)
    requires IsCalendarDate(d) && year > d.year
    ensures DateToDayNumber(d) <= DaysBeforeYear(year)
  {
    DaysBeforeNextYear(d.year);
    DaysBeforeYearIncreasing(d.year + 1, year);
  }

  lemma MonthsDisjoint(year: int, m1: int, m2: int)
    requires 1 <= m1 < m2 <= 12
    ensures DaysBeforeMonth(year, m1) + DaysInMonth(year, m1) <= DaysBeforeMonth(year, m2)
  {
  }

  /** `DayNumberToDate` inverts `DateToDayNumber` on every calendar date. */
  lemma DayNumberRoundTrip(d: Date)
    requires IsCalendarDate(d)
    ensures DayNumberToDate(DateToDayNumber(d)) == d
  {
    DateToDayNumberInjective(DayNumberToDate(DateToDayNumber(d)), d);
  }

  /** A calendar date lies in Python's year range exactly when its day number is at most MaxDayNumber. */
  lemma PythonDateRange(d: Date)
    requires IsCalendarDate(d)
    ensures IsPythonDate(d) <==> DateToDayNumber(d) <= MaxDayNumber
  {
    DaysBeforeNextYear(MaxYear);
    assert DaysBeforeYear(MaxYear + 1) == MaxDayNumber;
    if d.year <= MaxYear {
      DaysBeforeYearIncreasing(d.year + 1, MaxYear + 1);
      DaysBeforeNextYear(d.year);
    } else {
      DaysBeforeYearIncreasing(MaxYear + 1, d.year);
    }
  }

  /** The calendar successor of a date. */
  function NextDay(d: Date): (e: Date)
    requires IsCalendarDate(d)
    ensures IsCalendarDate(e)
    ensures e.year == d.year || (e.year == d.year + 1 && e.month == 1 && e.day == 1)
    ensures e.year == d.year ==> e.month == d.month || (e.month == d.month + 1 && e.day == 1)
  {
    if d.day < DaysInMonth(d.year, d.month) then Date(d.year, d.month, d.day + 1)
    else if d.month < 12 then Date(d.year, d.month + 1, 1)
    else Date(d.year + 1, 1, 1)
  }

  /** The successor of a date has the next day number. */
  lemma NextDayNumber(d: Date)
    requires IsCalendarDate(d)
    ensures DateToDayNumber(NextDay(d)) == DateToDayNumber(d) + 1
  {
    DaysBeforeMonthBound(d.year, d.month);
    DaysBeforeNextYear(d.year);
  }
}
