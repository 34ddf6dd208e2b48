/** Calendar dates and their `DD/MM/YYYY` text form: Python's
    `date.strftime('%d/%m/%Y')` and the strings `datetime.strptime(_, '%d/%m/%Y')`
    accepts, following the patterns of CPython's `_strptime` module
    (`%d` is `3[01]|[12]\d|0[1-9]|[1-9]| [1-9]`, `%m` is `1[0-2]|0[1-9]|[1-9]`,
    `%Y` is four digits, the whole string must be consumed, and the date must
    exist), with ASCII digits only. */
module Dates {
  import opened Text

  datatype Date = Date(year: int, month: int, day: int)

  /** The Gregorian leap-year rule. */
  predicate IsLeapYear(y: int) { y % 4 == 0 && (y % 100 != 0 || y % 400 == 0) }

  function DaysInMonth(year: int, month: int): (n: int)
    requires 1 <= month <= 12
    ensures 28 <= n <= 31
  {
    if month == 2 then (if IsLeapYear(year) then 29 else 28)
    else if month == 4 || month == 6 || month == 9 || month == 11 then 30
    else 31
  }

  /** A date that Python's `datetime.date` can hold (years 1 to 9999). */
  predicate ValidDate(d: Date)
  {
    1 <= d.year <= 9999 && 1 <= d.month <= 12 && 1 <= d.day <= DaysInMonth(d.year, d.month)
  }

  type CalendarDate = d: Date | ValidDate(d) witness Date(1970, 1, 1)

  /** A number below 100 as two digits, zero-padded. */
  function TwoDigits(n: nat): (r: string)
    requires n < 100
    ensures |r| == 2 && IsDigit(r[0]) && IsDigit(r[1]) && DigitsValue(r) == n
    ensures r[0] == '0' <==> n < 10
  {
    var r := [DigitChar(n / 10), DigitChar(n % 10)];
    DigitsValueTwo(r);
    r
  }

  /** A number below 10000 as four digits, zero-padded. */
  function FourDigits(n: nat): (r: string)
    requires n < 10000
    ensures |r| == 4 && (forall i :: 0 <= i < 4 ==> IsDigit(r[i])) && DigitsValue(r) == n
  {
    var hi, lo := TwoDigits(n / 100), TwoDigits(n % 100);
    var r := hi + lo;
    assert r[..3] == hi + [lo[0]] && r[..3][..2] == hi && lo[..1] == [lo[0]] && lo[..1][..0] == [];
    r
  }

  /** The zero-padded `DD/MM/YYYY` shape `strftime` writes: ten characters,
      slashes at positions 2 and 5, digits everywhere else. */
  predicate PaddedDMY(r: string)
  {
    |r| == 10 && r[2] == '/' && r[5] == '/' &&
    forall i :: 0 <= i < 10 && i != 2 && i != 5 ==> IsDigit(r[i])
  }

  /** `date.strftime('%d/%m/%Y')`. */
  function FormatDMY(d: CalendarDate): (r: string)
    ensures PaddedDMY(r)
  {
    TwoDigits(d.day) + "/" + TwoDigits(d.month) + "/" + FourDigits(d.year)
  }

  /** A text `%d` matches. */
  predicate DayToken(t: string)
  {
    (|t| == 1 && '1' <= t[0] <= '9') ||
    (|t| == 2 && ((t[0] == '3' && (t[1] == '0' || t[1] == '1')) ||
                  ((t[0] == '1' || t[0] == '2') && IsDigit(t[1])) ||
                  (t[0] == '0' && '1' <= t[1] <= '9') ||
                  (t[0] == ' ' && '1' <= t[1] <= '9')))
  }

  /** A text `%m` matches. */
  predicate MonthToken(t: string)
  {
    (|t| == 1 && '1' <= t[0] <= '9') ||
    (|t| == 2 && ((t[0] == '1' && '0' <= t[1] <= '2') || (t[0] == '0' && '1' <= t[1] <= '9')))
  }

  /** A text `%Y` matches. */
  predicate YearToken(t: string)
  {
    |t| == 4 && forall i :: 0 <= i < 4 ==> IsDigit(t[i])
  }

  /** The number a day or month token stands for (`int()` ignores a leading space). */
  function TokenValue(t: string): (n: nat)
    requires DayToken(t) || MonthToken(t)
    ensures 1 <= n <= 31
  {
    if t[0] == ' ' then DigitsValueOne(t[1..]); DigitsValue(t[1..])
    else if |t| == 1 then DigitsValueOne(t); DigitsValue(t)
    else DigitsValueTwo(t); DigitsValue(t)
  }

  /** `s` splits as a day token of `dl` characters, `/`, a month token of `ml`
      characters, `/` and a four-digit year. The tokens hold no `/`, so the split
      is fixed by where the slashes are. */
  predicate DMYShape(s: string, dl: nat, ml: nat)
  {
    |s| == dl + ml + 6 && s[dl] == '/' && s[dl + ml + 1] == '/' &&
    DayToken(s[..dl]) && MonthToken(s[dl + 1..dl + ml + 1]) && YearToken(s[dl + ml + 2..])
  }

  /** The date a string of that shape names. */
  function DMYFields(s: string, dl: nat, ml: nat): Date
    requires DMYShape(s, dl, ml)
  {
    Date(DigitsValue(s[dl + ml + 2..]), TokenValue(s[dl + 1..dl + ml + 1]), TokenValue(s[..dl]))
  }

  predicate DMYAt(s: string, dl: nat, ml: nat)
  {
    DMYShape(s, dl, ml) && ValidDate(DMYFields(s, dl, ml))
  }

  /** `datetime.strptime(s, '%d/%m/%Y')` succeeds. */
  predicate IsDMY(s: string)
  {
    DMYAt(s, 1, 1) || DMYAt(s, 1, 2) || DMYAt(s, 2, 1) || DMYAt(s, 2, 2)
  }

  /** Reading back a formatted date gives the same date, so `strptime` accepts
      every text `strftime` produces. */
  lemma FormatThenParse(d: CalendarDate)
    ensures DMYAt(FormatDMY(d), 2, 2) && DMYFields(FormatDMY(d), 2, 2) == d
    ensures IsDMY(FormatDMY(d))
  {
    var s := FormatDMY(d);
    var dd, mm, yy := TwoDigits(d.day), TwoDigits(d.month), FourDigits(d.year);
    assert s[..2] == dd && s[3..5] == mm && s[6..] == yy;
    assert DayToken(dd);
    assert MonthToken(mm);
  }
}
