/** Calendar dates as `datetime` holds them, the `'%Y%m'` parse of a
    year-month token and the `'%Y-%m-%d'` rendering of a date. */
module Dates {
  import opened Outcome
  import opened Decimal

  const MIN_YEAR: int := 1
  const MAX_YEAR: int := 9999

  datatype Date = Date(year: int, month: int, day: int)

  predicate IsLeapYear(year: int) {
    year % 4 == 0 && (year % 100 != 0 || year % 400 == 0)
  }

  function DaysInMonth(year: int, month: int): (n: int)
    ensures 28 <= n <= 31
  {
    if month == 2 then (if IsLeapYear(year) then 29 else 28)
    else if month in {4, 6, 9, 11} then 30
    else 31
  }

  /** A date `datetime` can represent: years 1 to 9999 of the proleptic
      Gregorian calendar. */
  predicate ValidDate(d: Date) {
    && MIN_YEAR <= d.year <= MAX_YEAR
    && 1 <= d.month <= 12
    && 1 <= d.day <= DaysInMonth(d.year, d.month)
  }

  /** `datetime.strptime(token, '%Y%m')`. `%Y` is exactly four digits; `%m` is
      tried as `1[0-2]`, then `0[1-9]`, then a single `[1-9]`, and the first
      alternative that matches is kept; anything left unmatched after the month
      is an error, and so is year 0. The result is midnight on the first of the
      month. */
  function ParseYYYYMM(token: string): (r: Result<Date>)
    ensures r.Ok? ==> ValidDate(r.value) && r.value.day == 1
    ensures r.Ok? ==> |token| == 5 || |token| == 6
    ensures r.Err? ==> r.error == ValueError(token)
  {
    if |token| < 5 || !AllDigits(token[..4]) || Value(token[..4]) < MIN_YEAR then
      Err(ValueError(token))
    else if |token| == 6 && TwoDigitMonth(token[4], token[5]) then
      Ok(Date(Value(token[..4]), 10 * DigitValue(token[4]) + DigitValue(token[5]), 1))
    else if |token| == 5 && '1' <= token[4] <= '9' then
      // single-digit month, which `%m` accepts as well as the two-digit form
      Ok(Date(Value(token[..4]), DigitValue(token[4]), 1))
    else
      Err(ValueError(token))
  }

  /** The two-digit spellings `01`..`12` of a month. */
  predicate TwoDigitMonth(tens: char, units: char) {
    || (tens == '0' && '1' <= units <= '9')
    || (tens == '1' && '0' <= units <= '2')
  }

  /** `date.strftime('%Y-%m-%d')`: four-digit year, two-digit month and day, dash separated. */
  function FormatYMD(d: Date): (s: string)
    requires ValidDate(d)
    ensures |s| == 10 && s[4] == '-' && s[7] == '-'
    ensures AllDigits(s[..4]) && AllDigits(s[5..7]) && AllDigits(s[8..])
  {
    var s := Pad(d.year, 4) + "-" + Pad(d.month, 2) + "-" + Pad(d.day, 2);
    assert s[..4] == Pad(d.year, 4) && s[5..7] == Pad(d.month, 2) && s[8..] == Pad(d.day, 2);
    s
  }

  /** Reading a `YYYY-MM-DD` text back into a date, as building the date index
      from the collected texts does; anything else is a ValueError. */
  function ParseIsoDate(s: string): (r: Result<Date>)
    ensures r.Ok? ==> ValidDate(r.value)
    ensures r.Err? ==> r.error == ValueError(s)
  {
    if |s| == 10 && s[4] == '-' && s[7] == '-'
       && AllDigits(s[..4]) && AllDigits(s[5..7]) && AllDigits(s[8..])
       && ValidDate(Date(Value(s[..4]), Value(s[5..7]), Value(s[8..])))
    then Ok(Date(Value(s[..4]), Value(s[5..7]), Value(s[8..])))
    else Err(ValueError(s))
  }

  /** Reading back what FormatYMD wrote gives the same date. */
  lemma FormatYMDRoundTrip(d: Date)
    requires ValidDate(d)
    ensures ParseIsoDate(FormatYMD(d)) == Ok(d)
  {
    var s := FormatYMD(d);
    assert s[..4] == Pad(d.year, 4) && s[5..7] == Pad(d.month, 2) && s[8..] == Pad(d.day, 2);
    ValueOfPad(d.year, 4);
    ValueOfPad(d.month, 2);
    ValueOfPad(d.day, 2);
  }

  /** Every text ParseIsoDate accepts is the rendering of the date it reads,
      so the rendering of valid dates and the reading are inverse bijections. */
  lemma ParseIsoDateRoundTrip(s: string)
    requires ParseIsoDate(s).Ok?
    ensures FormatYMD(ParseIsoDate(s).value) == s
  {
    PadOfValue(s[..4]);
    PadOfValue(s[5..7]);
    PadOfValue(s[8..]);
    var t := FormatYMD(ParseIsoDate(s).value);
    assert t[..4] == s[..4] && t[5..7] == s[5..7] && t[8..] == s[8..];
    assert forall i :: 0 <= i < 10 ==> t[i] == s[i] by {
      forall i | 0 <= i < 10 ensures t[i] == s[i] {
        if i < 4 { assert t[i] == t[..4][i]; }
        else if 5 <= i < 7 { assert t[i] == t[5..7][i - 5]; }
        else if 8 <= i { assert t[i] == t[8..][i - 8]; }
      }
    }
  }

  /** The rendered date fixes the day at `01` when the date is the first of a month. */
  lemma FormatYMDFirstOfMonth(d: Date)
    requires ValidDate(d) && d.day == 1
    ensures FormatYMD(d)[8..] == "01"
  {
    var s := FormatYMD(d);
    assert s[8..] == Pad(1, 2);
  }

  /** The rendering of the first of a month. */
  lemma FormatYMDOfFirst(year: int, month: int)
    requires MIN_YEAR <= year <= MAX_YEAR && 1 <= month <= 12
    ensures FormatYMD(Date(year, month, 1)) == Pad(year, 4) + "-" + Pad(month, 2) + "-01"
  {
    MonthDigits(1, 2);
  }

  /** Every four-digit year 1..9999 followed by a two-digit month 01..12 parses
      to the first of that month. */
  lemma ParseYYYYMMAcceptsTwoDigitMonth(year: int, month: int)
    requires MIN_YEAR <= year <= MAX_YEAR && 1 <= month <= 12
    ensures ParseYYYYMM(Pad(year, 4) + Pad(month, 2)) == Ok(Date(year, month, 1))
  {
    var token := Pad(year, 4) + Pad(month, 2);
    assert token[..4] == Pad(year, 4);
    ValueOfPad(year, 4);
    MonthDigits(month, 2);
  }

  /** A four-digit year followed by a single digit 1..9 is also accepted. */
  lemma ParseYYYYMMAcceptsOneDigitMonth(year: int, month: int)
    requires MIN_YEAR <= year <= MAX_YEAR && 1 <= month <= 9
    ensures ParseYYYYMM(Pad(year, 4) + Pad(month, 1)) == Ok(Date(year, month, 1))
  {
    var token := Pad(year, 4) + Pad(month, 1);
    assert token[..4] == Pad(year, 4);
    ValueOfPad(year, 4);
    MonthDigits(month, 1);
  }

  /** The digits of a month rendered at width 1 or 2. */
  lemma MonthDigits(month: int, width: nat)
    requires 1 <= month <= 12 && 1 <= width <= 2
    requires width == 1 ==> month <= 9
    ensures width == 1 ==> Pad(month, 1) == [DigitChar(month)]
    ensures width == 2 && month < 10 ==> Pad(month, 2) == ['0', DigitChar(month)]
    ensures width == 2 && month >= 10 ==> Pad(month, 2) == ['1', DigitChar(month - 10)]
  {
    if month < 10 {
      assert month / 10 == 0 && month % 10 == month;
      assert Pad(0, 1) == ['0'];
    } else {
      assert month / 10 == 1 && month % 10 == month - 10;
      assert Pad(1, 1) == ['1'];
    }
  }

  /** Nothing else is accepted: every accepted token is the four-digit year
      followed by the month at width two, or at width one for months 1..9. */
  lemma ParseYYYYMMOnlyYearMonth(token: string)
    requires ParseYYYYMM(token).Ok?
    ensures var d := ParseYYYYMM(token).value;
      || token == Pad(d.year, 4) + Pad(d.month, 2)
      || (d.month <= 9 && token == Pad(d.year, 4) + Pad(d.month, 1))
  {
    var d := ParseYYYYMM(token).value;
    PadOfValue(token[..4]);
    if |token| == 6 {
      SixCharacterToken(token, d);
    } else {
      FiveCharacterToken(token, d);
    }
  }

  lemma SixCharacterToken(token: string, d: Date)
    requires |token| == 6 && ParseYYYYMM(token) == Ok(d)
    requires Pad(d.year, 4) == token[..4]
    ensures token == Pad(d.year, 4) + Pad(d.month, 2)
  {
    assert d.month == 10 * DigitValue(token[4]) + DigitValue(token[5]);
    MonthDigits(d.month, 2);
    DigitCharOfValue(token[5]);
    assert token == token[..4] + [token[4], token[5]];
  }

  lemma FiveCharacterToken(token: string, d: Date)
    requires |token| == 5 && ParseYYYYMM(token) == Ok(d)
    requires Pad(d.year, 4) == token[..4]
    ensures d.month <= 9 && token == Pad(d.year, 4) + Pad(d.month, 1)
  {
    assert d.month == DigitValue(token[4]);
    MonthDigits(d.month, 1);
    DigitCharOfValue(token[4]);
    assert token == token[..4] + [token[4]];
  }

  /** Tokens the documented `VAR_YYYYMM_location` shape does not produce. */
  lemma ParseYYYYMMRejects()
    ensures ParseYYYYMM("198013").Err?   // month 13
    ensures ParseYYYYMM("198000").Err?   // month 0
    ensures ParseYYYYMM("198019").Err?   // `1` is taken as the month, `9` is left over
    ensures ParseYYYYMM("1980101").Err?  // trailing character
    ensures ParseYYYYMM("19801a").Err?   // not a digit
    ensures ParseYYYYMM("000010").Err?   // year 0
    ensures ParseYYYYMM("8010").Err?     // two-digit year
    ensures ParseYYYYMM("").Err?
  {
    var zeros := "000010"[..4];
    assert zeros[..3] == "000" && "000"[..2] == "00" && "00"[..1] == "0" && "0"[..0] == "";
    assert Value(zeros) == 0;
  }
}
