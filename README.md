# Label and date normalisers of the I-94 capstone pipeline, in Dafny

`udf.py` defines the per-value helpers a dataframe engine applies column by
column:

- four categorical lookups (`travel_udf`, `visa_udf`, `country_udf`,
  `port_udf`) that turn a coded value into a label by indexing a read-only
  table, with no default: a missing code raises `KeyError`, which is not
  caught;
- `convert_sasdate`, which turns a SAS date (days since 1960-01-01) into a
  date by `datetime(1960, 1, 1) + timedelta(days=int(x))`, and turns every
  failure into None;
- `convert_stringdate`, which parses `MMDDYYYY` text with
  `datetime.strptime(x, '%m%d%Y').date()`, and turns every failure into None.

The model states the Python library behaviour these rely on:

- `Calendar` (calendar.dfy): the proleptic Gregorian calendar of Python's
  `datetime`, with the leap-year rule, month lengths and the day numbering of
  `date.toordinal` (0001-01-01 is day 1). `DateToDayNumber` is a closed form;
  `DayNumberToDate` searches upwards for the year, starting from a year no
  later than the answer (no year has more than 366 days), and then for the
  month. The two are proved inverse.
- `Labels` (labels.dfy): the lookups over abstract tables `map<K, string>`.
  The outcome `KeyError` is a value of its own, distinct from a null date.
- `SasDate` (sas_date.dfy): epoch plus offset. The result is None exactly when
  the date would leave Python's years 1..9999, that is outside the offsets
  -715509..2936549.
- `StringDate` (string_date.dfy): the regular expression that `strptime`
  builds for `%m%d%Y`:
  - `%m` is `1[0-2]|0[1-9]|[1-9]`;
  - `%d` is `3[01]|[12]\d|0[1-9]|[1-9]| [1-9]`;
  - `%Y` is `\d\d\d\d`.

  The model takes the first match in the engine's backtracking order. It then
  applies the "unconverted data remains" check and the date-validity check.
  Because `%m` and `%d` also take one digit, some 6- and 7-character strings
  are accepted, and they are modelled as such. For example, "1152021" gives
  2021-11-05. So the parser does not require exactly eight characters. On
  eight digits it accepts exactly the real dates MMDDYYYY with year 1 or later.
  A space just before a one-digit day (from the `' '[1-9]` alternative of `%d`)
  is the only non-digit character the parser ever accepts.
- `Wrappers` (wrappers.dfy): `Option` (Python's "value or None") and the
  first-success combinator used for regex alternation.

Everything is a function or a lemma: the source has no state, no loops and
no in-place updates.

## Model

| member | source | states |
|---|---|---|
| Labels.LookupLabel | udf.py:10-19 | the outcome is a label exactly when the key is in the table, and that label is the table's entry for the key; otherwise it is `KeyError` |
| Labels.TravelLabel | udf.py:10 | travel code present: its label; absent: `KeyError`, never a null or a default |
| Labels.VisaLabel | udf.py:13 | visa code present: its label; absent: `KeyError` |
| Labels.CountryLabel | udf.py:16 | country code present: its label; absent: `KeyError` |
| Labels.PortLabel | udf.py:19 | port code present: its label; absent: `KeyError` |
| Labels.LookupDependsOnlyOnEntry | udf.py:10-19 | two tables that agree on a key give the same outcome for it, so no other entry acts as a fallback |
| Calendar.IsLeap | udf.py:26 | the Gregorian rule in full: a leap year is a multiple of 4; a multiple of 4 that is not a century year is a leap year; a multiple of 400 is a leap year; any other century year is not |
| Calendar.DaysInMonth | udf.py:36-37 | a month has 28 to 31 days; only February has fewer than 30, and it has 29 exactly in a leap year; exactly April, June, September and November have 30 |
| Calendar.DateToDayNumber | udf.py:26 | the day number of a date (`date.toordinal`) lies after all days of the earlier years and within the date's own year |
| Calendar.YearOfDay | udf.py:26 | the year search finds, from any year at or before it, the year whose days contain the given day |
| Calendar.MonthOfDay | udf.py:26 | the month search finds, from any month at or before it, the month whose days contain the given day of the year |
| Calendar.NextDay | udf.py:26 | the successor is a valid date; it stays in the same year or is January 1 of the next, and in the same month or is the 1st of the next |
| Calendar.DaysBeforeNextYear | udf.py:26 | the closed-form count of days before a year grows by 366 over a Gregorian leap year and by 365 over any other year |
| Calendar.DayNumberToDate | udf.py:26 | every day number from 1 on names a valid calendar date whose day number it is |
| Calendar.DateToDayNumberInjective | udf.py:26 | distinct calendar dates have distinct day numbers |
| Calendar.DayNumberRoundTrip | udf.py:26 | converting a date to its day number and back gives the same date |
| Calendar.PythonDateRange | udf.py:26 | a calendar date has a year of at most 9999 exactly when its day number is at most 3652059 |
| Calendar.DayNumberOrder | udf.py:26 | one date has a smaller day number than another exactly when it comes first by year, then month, then day |
| Calendar.NextDayNumber | udf.py:26 | the calendar successor of a date has the next day number |
| SasDate.EpochDayNumberIsCorrect | udf.py:25 | 1960-01-01 is day 715510 |
| SasDate.DateFromOffset | udf.py:25-28 | a result exists exactly for offsets -715509..2936549; it is a date Python can hold, and its day number is the epoch's plus the offset |
| SasDate.ConvertSasDate | udf.py:23-28 | an input `int()` cannot convert gives None; an integer gives a result exactly when it lies in MinOffset..MaxOffset, and that result is a Python date whose day number is the epoch's plus the offset |
| SasDate.DateFromOffsetIsUnique | udf.py:26 | the result is `Some(d)` exactly when `d` is a Python date whose day number is 715510 plus the offset |
| SasDate.DateFromOffsetOnto | udf.py:26 | every date in years 1..9999 is the result of the offset its day number gives |
| SasDate.DateFromOffsetSuccessor | udf.py:26 | when offsets n and n+1 both give dates, the second is the calendar successor of the first |
| SasDate.DateFromOffsetMonotone | udf.py:26 | a larger offset gives a date with a larger day number, and a later date in calendar (year, month, day) order |
| SasDate.ConvertAtEpoch | udf.py:25-26 | offset 0 gives 1960-01-01 |
| SasDate.ConvertLastDayOf1960 | udf.py:25-26 | offset 365 gives 1960-12-31, since 1960 is a leap year |
| SasDate.ConvertFirstDayOf1961 | udf.py:25-26 | offset 366 gives 1961-01-01 |
| SasDate.ConvertBeforeEpoch | udf.py:25-26 | offset -1 gives 1959-12-31 |
| SasDate.ConvertFirstPythonDate | udf.py:25-26 | offset -715509 gives 0001-01-01 |
| SasDate.ConvertLastPythonDate | udf.py:25-26 | offset 2936549 gives 9999-12-31 |
| StringDate.MatchFormat | udf.py:36 | a match of `%m%d%Y` ends 6 to 8 characters in, with month 1..12, day 1..31 and year 0..9999 |
| StringDate.ConvertStringDate | udf.py:34-39 | a result needs a string input and is always a date Python can hold; every failure is None |
| StringDate.MatchEightDigits | udf.py:36 | on eight digits the match reaches the end only as MMDDYYYY, and it does so whenever MM is 01..12 and DD is 01..31 |
| StringDate.EightDigits | udf.py:36-37 | on eight digits MMDDYYYY the result is that date when 1 <= MM <= 12, 1 <= DD <= the month's length in year YYYY and YYYY >= 1, and None otherwise |
| StringDate.FormatMMDDYYYY | udf.py:36 | a Python date written as eight digits spelling its month, day and year |
| StringDate.FormatThenParse | udf.py:36-37 | parsing a formatted date gives the same date back, for every year 1..9999 |
| StringDate.ParseThenFormat | udf.py:36-37 | an accepted eight-digit string is the formatting of the date it gives |
| StringDate.AcceptedCharacters | udf.py:35-39 | every character of an accepted string is a digit, or a space directly before a non-zero digit; any other character gives None |
| StringDate.AcceptedLength | udf.py:36 | an accepted string has 6 to 8 characters |
| StringDate.ConvertPlainDate | udf.py:36-37 | "01152021" gives 2021-01-15 |
| StringDate.ConvertImpossibleDay | udf.py:36-39 | "02302021" gives None |
| StringDate.ConvertImpossibleMonth | udf.py:36-39 | "13152021" gives None |
| StringDate.ConvertYearZero | udf.py:36-39 | "01010000" gives None, because year 0 is not a date |
| StringDate.ConvertLeapDay2000 | udf.py:36-37 | "02292000" gives 2000-02-29 |
| StringDate.ConvertNoLeapDay1900 | udf.py:36-39 | "02291900" gives None |
| StringDate.ConvertSevenCharacters | udf.py:36-37 | "1152021" gives 2021-11-05 |
| StringDate.ConvertSpacePaddedDay | udf.py:36-37 | "01 52021" gives 2021-01-05 |
| StringDate.ConvertRejected | udf.py:35-39 | separators, a trailing character and a non-string input all give None |

## Left out

- The PySpark `udf(...)` wrappers and the `StringType`/`DateType` registration
  (udf.py:1-2, 10-19, 31, 42). They are framework plumbing for applying the
  functions to columns.
- The contents of `label_mappings` (udf.py:5). That module is not part of this
  model. The tables are abstract `map<K, string>` with a generic key type.
- Python dictionary key matching. A dict finds keys by `==` and hash, so
  `travel[1]`, `travel[1.0]` and `travel[True]` reach the same entry. In the
  model, a value of `K` stands for a Python key up to `==`; numeric codes
  that Spark passes as floats or ints are not told apart.
- The details of Python's `int()` coercion (udf.py:26), such as float
  truncation, whitespace-padded strings and booleans.
  - `ConvertSasDate` takes the outcome of `int(x)`: an integer, or None when
    `int()` raises.
- `timedelta`'s own limit of ±999999999 days. Every offset beyond it already
  falls outside years 1..9999, so the result is None either way.
- The time of day in the `datetime` that `convert_sasdate` returns. It is
  always midnight, so only the date is modelled.
- Non-ASCII decimal digits. Python's `\d` in `%Y`, and in the second character
  of `[12]\d` in `%d`, also matches other Unicode decimal digits. The model
  treats only '0'..'9' as digits.
- StringDate.EightDigits: the exact characterisation covers eight-digit
  inputs only.
  - Shorter forms are modelled by the same matcher.
  - Their behaviour is stated only through `AcceptedLength`,
    `AcceptedCharacters` (both hold for accepted strings of any length) and
    the worked examples.
- `FormatMMDDYYYY` is not in the source. It is the model's own inverse of the
  parser, used for the round trip. It always pads the year to four digits.
