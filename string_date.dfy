/**
 * `convert_stringdate`: `datetime.strptime(x, '%m%d%Y').date()`, with every
 * exception turned into None.
 *
 * `strptime` compiles the format into a regular expression, one group per
 * directive, and takes the first match the backtracking engine finds:
 *   %m  =  1[0-2] | 0[1-9] | [1-9]
 *   %d  =  3[01] | [12][0-9] | 0[1-9] | [1-9] | ' '[1-9]
 *   %Y  =  [0-9][0-9][0-9][0-9]
 * alternatives tried left to right. It then raises when the match does not
 * reach the end of the string ("unconverted data remains") and when the
 * fields do not form a date (day 31 in a 30-day month, year 0).
 */
module StringDate {
  import opened Wrappers
  import opened Calendar

  /** A directive's matched text: its numeric value and how many characters it took. */
  datatype Piece = Piece(value: int, width: nat)

  /** The three matched fields and the position where the match ends. */
  datatype Fields = Fields(month: int, day: int, year: int, end: nat)

  predicate IsDigit(c: char)
  {
    '0' <= c <= '9'
  }

  function DigitValue(c: char): (v: int)
    requires IsDigit(c)
    ensures 0 <= v <= 9
  {
    c as int - '0' as int
  }

  // ----- the alternatives of the directives, each tried at position i -----

  /** `1[0-2]`: months 10 to 12. */
  function TenToTwelve(s: string, i: nat): (r: Option<Piece>)
    ensures r.Some? ==> i + 2 <= |s| && r.value.width == 2 && 10 <= r.value.value <= 12
  {
    if i + 2 <= |s| && s[i] == '1' && '0' <= s[i + 1] <= '2' then Some(Piece(10 + DigitValue(s[i + 1]), 2))
    else None
  }

  /** `3[01]`: days 30 and 31. */
  function ThirtyOrThirtyOne(s: string, i: nat): (r: Option<Piece>)
    ensures r.Some? ==> i + 2 <= |s| && r.value.width == 2 && 30 <= r.value.value <= 31
  {
    if i + 2 <= |s| && s[i] == '3' && '0' <= s[i + 1] <= '1' then Some(Piece(30 + DigitValue(s[i + 1]), 2))
    else None
  }

  /** `[12][0-9]`: days 10 to 29. */
  function TensOrTwenties(s: string, i: nat): (r: Option<Piece>)
    ensures r.Some? ==> i + 2 <= |s| && r.value.width == 2 && 10 <= r.value.value <= 29
  {
    if i + 2 <= |s| && '1' <= s[i] <= '2' && IsDigit(s[i + 1]) then
      Some(Piece(10 * DigitValue(s[i]) + DigitValue(s[i + 1]), 2))
    else None
  }

  /** `0[1-9]`: a zero-padded 1 to 9. */
  function ZeroPadded(s: string, i: nat): (r: Option<Piece>)
    ensures r.Some? ==> i + 2 <= |s| && r.value.width == 2 && 1 <= r.value.value <= 9
  {
    if i + 2 <= |s| && s[i] == '0' && '1' <= s[i + 1] <= '9' then Some(Piece(DigitValue(s[i + 1]), 2))
    else None
  }

  /** `[1-9]`: a single non-zero digit. */
  function SingleDigit(s: string, i: nat): (r: Option<Piece>)
    ensures r.Some? ==> i + 1 <= |s| && r.value.width == 1 && 1 <= r.value.value <= 9
  {
    if i + 1 <= |s| && '1' <= s[i] <= '9' then Some(Piece(DigitValue(s[i]), 1))
    else None
  }

  /** `' '[1-9]`: a space-padded 1 to 9 (day only). */
  function SpacePadded(s: string, i: nat): (r: Option<Piece>)
    ensures r.Some? ==> i + 2 <= |s| && r.value.width == 2 && 1 <= r.value.value <= 9
  {
    if i + 2 <= |s| && s[i] == ' ' && '1' <= s[i + 1] <= '9' then Some(Piece(DigitValue(s[i + 1]), 2))
    else None
  }

  /** `%Y`: exactly four digits. */
  function FourDigits(s: string, i: nat): (r: Option<int>)
    ensures r.Some? ==> i + 4 <= |s| && 0 <= r.value <= 9999
  {
    if i + 4 <= |s| && IsDigit(s[i]) && IsDigit(s[i + 1]) && IsDigit(s[i + 2]) && IsDigit(s[i + 3]) then
      Some(1000 * DigitValue(s[i]) + 100 * DigitValue(s[i + 1]) + 10 * DigitValue(s[i + 2]) + DigitValue(s[i + 3]))
    else None
  }

  // ----- the backtracking match of %m%d%Y -----

  /** With month and day matched, `%Y` must match right after the day. */
  function ThenYear(s: string, month: Piece, day: Option<Piece>): (r: Option<Fields>)
    ensures r.Some? ==> day.Some? && r.value.end == month.width + day.value.width + 4 <= |s|
    ensures r.Some? ==> r.value.month == month.value && r.value.day == day.value.value
    ensures r.Some? ==> FourDigits(s, month.width + day.value.width) == Some(r.value.year)
  {
    if day.None? then None
    else
      var at := month.width + day.value.width;
      match FourDigits(s, at)
      case None => None
      case Some(year) => Some(Fields(month.value, day.value.value, year, at + 4))
  }

  /** With the month matched, try the `%d` alternatives in order. */
  function ThenDay(s: string, month: Option<Piece>): (r: Option<Fields>)
    requires month.Some? ==> 1 <= month.value.width <= 2
    ensures r.Some? ==> month.Some? && r.value.month == month.value.value
    ensures r.Some? ==> 1 <= r.value.day <= 31 && 0 <= r.value.year <= 9999
    ensures r.Some? ==> month.value.width + 5 <= r.value.end <= month.value.width + 6 && r.value.end <= |s|
  {
    if month.None? then None
    else
      var m, at := month.value, month.value.width;
      OrElse(ThenYear(s, m, ThirtyOrThirtyOne(s, at)),
      OrElse(ThenYear(s, m, TensOrTwenties(s, at)),
      OrElse(ThenYear(s, m, ZeroPadded(s, at)),
      OrElse(ThenYear(s, m, SingleDigit(s, at)),
             ThenYear(s, m, SpacePadded(s, at))))))
  }

  /** The first match of the whole pattern at the start of `s`, trying the `%m` alternatives in order. */
  function MatchFormat(s: string): (r: Option<Fields>)
    ensures r.Some? ==> 6 <= r.value.end <= |s| && r.value.end <= 8
    ensures r.Some? ==> 1 <= r.value.month <= 12 && 1 <= r.value.day <= 31 && 0 <= r.value.year <= 9999
  {
    OrElse(ThenDay(s, TenToTwelve(s, 0)),
    OrElse(ThenDay(s, ZeroPadded(s, 0)),
           ThenDay(s, SingleDigit(s, 0))))
  }

  /**
   * `convert_stringdate(x)`. The argument is None when `x` is not a `str`
   * (`strptime` raises `TypeError`); otherwise it is the string itself.
   */
  function ConvertStringDate(x: Option<string>): (r: Option<Date>)
    ensures r.Some? ==> x.Some? && IsPythonDate(r.value)
  {
    match x
    case None => None
    case Some(s) =>
      match MatchFormat(s)
      case None => None
      case Some(f) =>
        var d := Date(f.year, f.month, f.day);
        if f.end == |s| && IsPythonDate(d) then Some(d) else None
  }

  // ----- properties -----

  /** The number written by two digits from position i. */
  function TwoDigitNumber(s: string, i: nat): int
    requires i + 2 <= |s| && IsDigit(s[i]) && IsDigit(s[i + 1])
  {
    10 * DigitValue(s[i]) + DigitValue(s[i + 1])
  }

  function FourDigitNumber(s: string, i: nat): int
    requires i + 4 <= |s| && IsDigit(s[i]) && IsDigit(s[i + 1]) && IsDigit(s[i + 2]) && IsDigit(s[i + 3])
  {
    1000 * DigitValue(s[i]) + 100 * DigitValue(s[i + 1]) + 10 * DigitValue(s[i + 2]) + DigitValue(s[i + 3])
  }

  predicate AllDigits(s: string)
  {
    forall i :: 0 <= i < |s| ==> IsDigit(s[i])
  }

  /** The fields that eight digits MMDDYYYY spell. */
  function SpelledFields(s: string): Fields
    requires |s| == 8 && AllDigits(s)
  {
    Fields(TwoDigitNumber(s, 0), TwoDigitNumber(s, 2), FourDigitNumber(s, 4), 8)
  }

  /** After a two-character month, eight digits leave two day digits and four year digits. */
  lemma DayOfEightDigits(s: string, month: Piece)
    requires |s| == 8 && AllDigits(s)
    requires month == Piece(TwoDigitNumber(s, 0), 2)
    ensures ThenDay(s, Some(month)).Some? && ThenDay(s, Some(month)).value.end == 8
            ==> ThenDay(s, Some(month)).value == SpelledFields(s)
    ensures 1 <= TwoDigitNumber(s, 2) <= 31 ==> ThenDay(s, Some(month)) == Some(SpelledFields(s))
  {
    assert IsDigit(s[2]) && IsDigit(s[3]) && IsDigit(s[4]) && IsDigit(s[5]) && IsDigit(s[6]) && IsDigit(s[7]);
    assert FourDigits(s, 4) == Some(FourDigitNumber(s, 4));
    assert SpacePadded(s, 2).None?;
  }

  /**
   * On eight digits the pattern reaches the end of the string only by
   * reading them as MMDDYYYY, and it does so whenever MM is a month and DD
   * a day number from 1 to 31.
   */
  lemma MatchEightDigits(s: string)
    requires |s| == 8 && AllDigits(s)
    ensures MatchFormat(s).Some? && MatchFormat(s).value.end == 8 ==> MatchFormat(s).value == SpelledFields(s)
    ensures 1 <= TwoDigitNumber(s, 0) <= 12 && 1 <= TwoDigitNumber(s, 2) <= 31 ==> MatchFormat(s) == Some(SpelledFields(s))
  {
    assert IsDigit(s[0]) && IsDigit(s[1]);
    var month := Piece(TwoDigitNumber(s, 0), 2);
    DayOfEightDigits(s, month);
    if TenToTwelve(s, 0).Some? {
      assert TenToTwelve(s, 0) == Some(month);
    } else if ZeroPadded(s, 0).Some? {
      assert ZeroPadded(s, 0) == Some(month);
    } else {
      assert !(1 <= TwoDigitNumber(s, 0) <= 12);
    }
  }

  /**
   * On eight digits MMDDYYYY the converter gives exactly the date they
   * spell, and None when that is not a real date.
   */
  lemma EightDigits(s: string)
    requires |s| == 8 && AllDigits(s)
    ensures var month, day, year := TwoDigitNumber(s, 0), TwoDigitNumber(s, 2), FourDigitNumber(s, 4);
            ConvertStringDate(Some(s))
            == if 1 <= month <= 12 && 1 <= day <= DaysInMonth(year, month) && year >= 1
               then Some(Date(year, month, day)) else None
  {
    MatchEightDigits(s);
  }

  // ----- the inverse: writing a date as MMDDYYYY -----

  function DigitChar(v: int): (c: char)
    requires 0 <= v <= 9
    ensures IsDigit(c) && DigitValue(c) == v
  {
    ('0' as int + v) as char
  }

  /** A number below 100 written with two digits. */
  function TwoDigits(v: int): (s: string)
    requires 0 <= v <= 99
  {
    [DigitChar(v / 10), DigitChar(v % 10)]
  }

  lemma TwoDigitWords(v: int)
    requires 0 <= v <= 99
    ensures |TwoDigits(v)| == 2 && AllDigits(TwoDigits(v)) && TwoDigitNumber(TwoDigits(v), 0) == v
  {
  }

  /** A date written as zero-padded MMDDYYYY. */
  function FormatMMDDYYYY(d: Date): (s: string)
    requires IsPythonDate(d)
    ensures |s| == 8 && AllDigits(s)
    ensures TwoDigitNumber(s, 0) == d.month && TwoDigitNumber(s, 2) == d.day && FourDigitNumber(s, 4) == d.year
  {
    var centuries, years := d.year / 100, d.year % 100;
    TwoDigitWords(d.month);
    TwoDigitWords(d.day);
    TwoDigitWords(centuries);
    TwoDigitWords(years);
    TwoDigits(d.month) + TwoDigits(d.day) + TwoDigits(centuries) + TwoDigits(years)
  }

  /** Parsing a formatted date gives the date back, for every year Python can hold. */
  lemma FormatThenParse(d: Date)
    requires IsPythonDate(d)
    ensures ConvertStringDate(Some(FormatMMDDYYYY(d))) == Some(d)
  {
    EightDigits(FormatMMDDYYYY(d));
  }

  /** An accepted string of eight digits is the formatting of the date it gives. */
  lemma ParseThenFormat(s: string, d: Date)
    requires |s| == 8 && AllDigits(s)
    requires ConvertStringDate(Some(s)) == Some(d)
    ensures FormatMMDDYYYY(d) == s
  {
    AcceptedEightDigits(s, d);
    FormatSpelledDate(s);
  }

  /** Eight digits that spell a date are that date's formatting. */
  lemma FormatSpelledDate(s: string)
    requires |s| == 8 && AllDigits(s)
    requires IsPythonDate(Date(FourDigitNumber(s, 4), TwoDigitNumber(s, 0), TwoDigitNumber(s, 2)))
    ensures FormatMMDDYYYY(Date(FourDigitNumber(s, 4), TwoDigitNumber(s, 0), TwoDigitNumber(s, 2))) == s
  {
    var t := FormatMMDDYYYY(Date(FourDigitNumber(s, 4), TwoDigitNumber(s, 0), TwoDigitNumber(s, 2)));
    SameNumberSameDigits(s, t, 0);
    SameNumberSameDigits(s, t, 2);
    YearAsTwoPairs(s);
    YearAsTwoPairs(t);
    SameNumberSameDigits(s, t, 4);
    SameNumberSameDigits(s, t, 6);
    assert t == s;
  }

  /** The date accepted from eight digits is the one they spell. */
  lemma AcceptedEightDigits(s: string, d: Date)
    requires |s| == 8 && AllDigits(s)
    requires ConvertStringDate(Some(s)) == Some(d)
    ensures d == Date(FourDigitNumber(s, 4), TwoDigitNumber(s, 0), TwoDigitNumber(s, 2))
  {
    EightDigits(s);
    assert IsCalendarDate(Date(FourDigitNumber(s, 4), TwoDigitNumber(s, 0), TwoDigitNumber(s, 2)));
  }

  /** Four year digits split into the century pair and the year-of-century pair. */
  lemma YearAsTwoPairs(s: string)
    requires |s| == 8 && AllDigits(s)
    ensures 0 <= TwoDigitNumber(s, 6) <= 99
    ensures FourDigitNumber(s, 4) == 100 * TwoDigitNumber(s, 4) + TwoDigitNumber(s, 6)
  {
    assert IsDigit(s[4]) && IsDigit(s[5]) && IsDigit(s[6]) && IsDigit(s[7]);
  }

  /** Two digits are determined by the number they write. */
  lemma SameNumberSameDigits(s: string, t: string, i: nat)
    requires i + 2 <= |s| && i + 2 <= |t|
    requires IsDigit(s[i]) && IsDigit(s[i + 1]) && IsDigit(t[i]) && IsDigit(t[i + 1])
    requires TwoDigitNumber(s, i) == TwoDigitNumber(t, i)
    ensures s[i] == t[i] && s[i + 1] == t[i + 1]
  {
  }

  // ----- what the converter accepts beyond MMDDYYYY -----

  /**
   * Whatever it accepts has six to eight characters; `%m` and `%d` may take a
   * single digit, so shorter strings can be accepted too.
   */
  lemma AcceptedLength(x: Option<string>)
    requires ConvertStringDate(x).Some?
    ensures 6 <= |x.value| <= 8
  {
  }

  /** A character an accepted string may hold at position i: a digit, or a space just before a non-zero digit. */
  predicate DigitOrPadding(s: string, i: nat)
    requires i < |s|
  {
    IsDigit(s[i]) || (s[i] == ' ' && i + 1 < |s| && '1' <= s[i + 1] <= '9')
  }

  /**
   * Every character of an accepted string is a digit, except that a space may
   * stand just before a one-digit day (the `' '[1-9]` alternative of `%d`).
   */
  lemma AcceptedCharacters(s: string)
    requires ConvertStringDate(Some(s)).Some?
    ensures forall i :: 0 <= i < |s| ==> DigitOrPadding(s, i)
  {
    var f := MatchFormat(s).value;
    assert f.end == |s|;
    if TenToTwelve(s, 0).Some? && ThenDay(s, TenToTwelve(s, 0)).Some? {
      DayCharacters(s, TenToTwelve(s, 0).value);
    } else if ZeroPadded(s, 0).Some? && ThenDay(s, ZeroPadded(s, 0)).Some? {
      DayCharacters(s, ZeroPadded(s, 0).value);
    } else {
      DayCharacters(s, SingleDigit(s, 0).value);
    }
  }

  /** With the month matched by digits, every character up to the end of the match is a digit or day padding. */
  lemma DayCharacters(s: string, month: Piece)
    requires 1 <= month.width <= 2 && month.width <= |s|
    requires forall i :: 0 <= i < month.width ==> IsDigit(s[i])
    requires ThenDay(s, Some(month)).Some?
    ensures forall i :: 0 <= i < ThenDay(s, Some(month)).value.end ==> DigitOrPadding(s, i)
  {
    var at := month.width;
    var end := ThenDay(s, Some(month)).value.end;
    if ThenYear(s, month, ThirtyOrThirtyOne(s, at)).Some? {
      assert end == at + 6;
    } else if ThenYear(s, month, TensOrTwenties(s, at)).Some? {
      assert end == at + 6;
    } else if ThenYear(s, month, ZeroPadded(s, at)).Some? {
      assert end == at + 6;
    } else if ThenYear(s, month, SingleDigit(s, at)).Some? {
      assert end == at + 5;
    } else {
      assert SpacePadded(s, at).Some? && end == at + 6;
    }
    assert IsDigit(s[end - 4]) && IsDigit(s[end - 3]) && IsDigit(s[end - 2]) && IsDigit(s[end - 1]);
  }

  /** A plain date. */
  lemma ConvertPlainDate()
    ensures ConvertStringDate(Some("01152021")) == Some(Date(2021, 1, 15))
  {
    EightDigits("01152021");
  }

  /** There is no February 30. */
  lemma ConvertImpossibleDay()
    ensures ConvertStringDate(Some("02302021")) == None
  {
    EightDigits("02302021");
  }

  /** There is no month 13. */
  lemma ConvertImpossibleMonth()
    ensures ConvertStringDate(Some("13152021")) == None
  {
    EightDigits("13152021");
  }

  /** There is no year 0. */
  lemma ConvertYearZero()
    ensures ConvertStringDate(Some("01010000")) == None
  {
    EightDigits("01010000");
  }

  /** 2000 is a leap year: a multiple of 400. */
  lemma ConvertLeapDay2000()
    ensures ConvertStringDate(Some("02292000")) == Some(Date(2000, 2, 29))
  {
    EightDigits("02292000");
  }

  /** 1900 is not a leap year: a multiple of 100 but not of 400. */
  lemma ConvertNoLeapDay1900()
    ensures ConvertStringDate(Some("02291900")) == None
  {
    EightDigits("02291900");
  }

  /** "1152021" reads as month 11, day 5: `1[0-2]` is tried before `[1-9]`. */
  lemma ConvertSevenCharacters()
    ensures ConvertStringDate(Some("1152021")) == Some(Date(2021, 11, 5))
  {
  }

  /** A space-padded day is accepted. */
  lemma ConvertSpacePaddedDay()
    ensures ConvertStringDate(Some("01 52021")) == Some(Date(2021, 1, 5))
  {
  }

  /** Separators, trailing characters and non-strings all give None. */
  lemma ConvertRejected()
    ensures ConvertStringDate(Some("01-15-2021")) == None
    ensures ConvertStringDate(Some("011520210")) == None
    ensures ConvertStringDate(None) == None
  {
  }
}
