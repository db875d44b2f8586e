/**
 * `convert_sasdate`: a SAS date is a count of days since 1960-01-01. The
 * converter adds that many days to the epoch with Python's `datetime` and
 * `timedelta` and turns every failure (an input `int` cannot convert, a
 * result outside years 1..9999) into None.
 */
module SasDate {
  import opened Wrappers
  import opened Calendar

  /** The SAS epoch. */
  const Epoch: Date := Date(1960, 1, 1)

  /** Day number of the epoch when 0001-01-01 is day 1. */
  const EpochDayNumber: int := 715510

  /** The smallest and largest offsets whose result Python can represent. */
  const MinOffset: int := 1 - EpochDayNumber
  const MaxOffset: int := MaxDayNumber - EpochDayNumber

  lemma EpochDayNumberIsCorrect()
    ensures IsCalendarDate(Epoch) && DateToDayNumber(Epoch) == EpochDayNumber
  {
  }

  /**
   * `datetime(1960, 1, 1) + timedelta(days=n)`, with the `OverflowError`
   * raised for a result outside Python's date range turned into None.
   */
  function DateFromOffset(n: int): (r: Option<Date>)
    ensures r.Some? <==> -715509 <= n <= 2936549
    ensures r.Some? ==> IsPythonDate(r.value) && DateToDayNumber(r.value) == DateToDayNumber(Epoch) + n
  {
    EpochDayNumberIsCorrect();
    var dayNumber := EpochDayNumber + n;
    if 1 <= dayNumber <= MaxDayNumber then
      var d := DayNumberToDate(dayNumber);
      PythonDateRange(d);
      Some(d)
    else
      None
  }

  /**
   * `convert_sasdate(x)`. The argument is the outcome of `int(x)`:
   * `Some(n)` when the conversion succeeds, None when it raises (a missing
   * value, a non-numeric string, an object without `__int__`).
   */
  function ConvertSasDate(x: Option<int>): (r: Option<Date>)
    ensures x.None? ==> r.None?
    ensures x.Some? ==> r == DateFromOffset(x.value)
    ensures r.Some? <==> x.Some? && MinOffset <= x.value <= MaxOffset
    ensures r.Some? ==> IsPythonDate(r.value) && DateToDayNumber(r.value) == EpochDayNumber + x.value
  {
    match x
    case None => None
    case Some(n) => DateFromOffset(n)
  }

  /** The result, when there is one, is exactly the date `n` days after the epoch. */
  lemma DateFromOffsetIsUnique(n: int, d: Date)
    ensures DateFromOffset(n) == Some(d) <==> IsPythonDate(d) && DateToDayNumber(d) == EpochDayNumber + n
  {
    if IsPythonDate(d) && DateToDayNumber(d) == EpochDayNumber + n {
      PythonDateRange(d);
      DateToDayNumberInjective(DateFromOffset(n).value, d);
    }
  }

  /** Every date Python can represent is reached from exactly one offset. */
  lemma DateFromOffsetOnto(d: Date)
    requires IsPythonDate(d)
    ensures DateFromOffset(DateToDayNumber(d) - EpochDayNumber) == Some(d)
  {
    DateFromOffsetIsUnique(DateToDayNumber(d) - EpochDayNumber, d);
  }

  /** One more day of offset gives the calendar successor. */
  lemma DateFromOffsetSuccessor(n: int)
    requires DateFromOffset(n).Some? && DateFromOffset(n + 1).Some?
    ensures DateFromOffset(n + 1).value == NextDay(DateFromOffset(n).value)
  {
    var d := DateFromOffset(n).value;
    NextDayNumber(d);
    DateToDayNumberInjective(DateFromOffset(n + 1).value, NextDay(d));
  }

  /** Later offsets give later dates, in calendar order. */
  lemma DateFromOffsetMonotone(n: int, m: int)
    requires n < m && DateFromOffset(n).Some? && DateFromOffset(m).Some?
    ensures DateToDayNumber(DateFromOffset(n).value) < DateToDayNumber(DateFromOffset(m).value)
    ensures Precedes(DateFromOffset(n).value, DateFromOffset(m).value)
  {
    DayNumberOrder(DateFromOffset(n).value, DateFromOffset(m).value);
  }

  /** A worked value follows from the date's own day number. */
  lemma ConvertAt(n: int, d: Date)
    requires IsPythonDate(d) && DateToDayNumber(d) == EpochDayNumber + n
    ensures ConvertSasDate(Some(n)) == Some(d)
  {
    DateFromOffsetIsUnique(n, d);
  }

  /** Offset 0 is the epoch itself. */
  lemma ConvertAtEpoch()
    ensures ConvertSasDate(Some(0)) == Some(Date(1960, 1, 1))
  {
    assert DateToDayNumber(Date(1960, 1, 1)) == 715510;
    ConvertAt(0, Date(1960, 1, 1));
  }

  /** 1960 is a leap year, so offset 365 is still in 1960. */
  lemma ConvertLastDayOf1960()
    ensures ConvertSasDate(Some(365)) == Some(Date(1960, 12, 31))
  {
    assert DateToDayNumber(Date(1960, 12, 31)) == 715875;
    ConvertAt(365, Date(1960, 12, 31));
  }

  lemma ConvertFirstDayOf1961()
    ensures ConvertSasDate(Some(366)) == Some(Date(1961, 1, 1))
  {
    assert DateToDayNumber(Date(1961, 1, 1)) == 715876;
    ConvertAt(366, Date(1961, 1, 1));
  }

  /** Negative offsets count back from the epoch. */
  lemma ConvertBeforeEpoch()
    ensures ConvertSasDate(Some(-1)) == Some(Date(1959, 12, 31))
  {
    assert DateToDayNumber(Date(1959, 12, 31)) == 715509;
    ConvertAt(-1, Date(1959, 12, 31));
  }

  /** The smallest accepted offset gives 0001-01-01. */
  lemma ConvertFirstPythonDate()
    ensures ConvertSasDate(Some(MinOffset)) == Some(Date(1, 1, 1))
  {
    assert DateToDayNumber(Date(1, 1, 1)) == 1;
    ConvertAt(MinOffset, Date(1, 1, 1));
  }

  /** The largest accepted offset gives 9999-12-31. */
  lemma ConvertLastPythonDate()
    ensures ConvertSasDate(Some(MaxOffset)) == Some(Date(9999, 12, 31))
  {
    assert DateToDayNumber(Date(9999, 12, 31)) == MaxDayNumber;
    ConvertAt(MaxOffset, Date(9999, 12, 31));
  }
}
