/**
  Proleptic Gregorian dates as `(year, month, day)`, the pandas date
  arithmetic the statement period uses, and the `%d/%m/%Y` rendering.
*/
module Calendar {
  import opened Text

  datatype Date = Date(year: int, month: int, day: int)

  predicate IsLeapYear(y: int)
  {
    y % 4 == 0 && (y % 100 != 0 || y % 400 == 0)
  }

  function DaysInMonth(y: int, m: int): (n: int)
    requires 1 <= m <= 12
    ensures 28 <= n <= 31
    ensures n == 29 <==> m == 2 && IsLeapYear(y)
  {
    if m == 2 then (if IsLeapYear(y) then 29 else 28)
    else if m == 4 || m == 6 || m == 9 || m == 11 then 30
    else 31
  }

  predicate Valid(d: Date)
  {
    1 <= d.month <= 12 && 1 <= d.day <= DaysInMonth(d.year, d.month)
  }

  /** `ts.replace(day=1)`. */
  function FirstOfMonth(d: Date): (r: Date)
    requires Valid(d)
    ensures Valid(r) && r.year == d.year && r.month == d.month && r.day == 1
  {
    Date(d.year, d.month, 1)
  }

  /** `ts - pd.DateOffset(months=1)`: one month back, the day clamped to that month's length. */
  function MinusOneMonth(d: Date): (r: Date)
    requires Valid(d)
    ensures Valid(r)
    ensures r.month == (if d.month == 1 then 12 else d.month - 1)
    ensures r.year == (if d.month == 1 then d.year - 1 else d.year)
    ensures r.day == (if d.day <= DaysInMonth(r.year, r.month) then d.day else DaysInMonth(r.year, r.month))
  {
    var y := if d.month == 1 then d.year - 1 else d.year;
    var m := if d.month == 1 then 12 else d.month - 1;
    Date(y, m, if d.day <= DaysInMonth(y, m) then d.day else DaysInMonth(y, m))
  }

  /** `ts - pd.DateOffset(days=1)`. */
  function MinusOneDay(d: Date): (r: Date)
    requires Valid(d)
    ensures Valid(r)
  {
    if d.day > 1 then Date(d.year, d.month, d.day - 1)
    else if d.month > 1 then Date(d.year, d.month - 1, DaysInMonth(d.year, d.month - 1))
    else Date(d.year - 1, 12, 31)
  }

  /** The next calendar day. */
  function PlusOneDay(d: Date): (r: Date)
    requires Valid(d)
    ensures Valid(r)
  {
    if d.day < DaysInMonth(d.year, d.month) then Date(d.year, d.month, d.day + 1)
    else if d.month < 12 then Date(d.year, d.month + 1, 1)
    else Date(d.year + 1, 1, 1)
  }

  /** Going one day back and one day forward, in either order, returns to the same date. */
  lemma DayStepsInverse(d: Date)
    requires Valid(d)
    ensures PlusOneDay(MinusOneDay(d)) == d
    ensures MinusOneDay(PlusOneDay(d)) == d
  {
  }

  /**
    The statement period for an emission date: from `(first of month -
    1 month).replace(day=1)` to `first of month - 1 day`.
  */
  function StatementPeriod(emission: Date): (period: (Date, Date))
    requires Valid(emission)
    ensures var (start, end) := period;
      Valid(start) && Valid(end) && start.year == end.year && start.month == end.month &&
      start.day == 1 && end.day == DaysInMonth(end.year, end.month) &&
      PlusOneDay(end) == FirstOfMonth(emission)
  {
    var first := FirstOfMonth(emission);
    (FirstOfMonth(MinusOneMonth(first)), MinusOneDay(first))
  }

  /**
    The period is the whole calendar month before the emission month: it
    starts on day 1 and ends on that month's last day, both in the same
    month, December of the year before for a January emission, and the day
    after its end is the first of the emission month.
  */
  lemma StatementPeriodIsPreviousMonth(emission: Date)
    requires Valid(emission)
    ensures var (start, end) := StatementPeriod(emission);
      var py := if emission.month == 1 then emission.year - 1 else emission.year;
      var pm := if emission.month == 1 then 12 else emission.month - 1;
      Valid(start) && Valid(end) &&
      start == Date(py, pm, 1) && end == Date(py, pm, DaysInMonth(py, pm)) &&
      PlusOneDay(end) == FirstOfMonth(emission)
  {
  }

  /** `f"{d:%d/%m/%Y}"`: ten characters for a four-digit year, with '/' at 2 and 5. */
  function FormatDate(d: Date): (s: string)
    ensures Valid(d) && 1000 <= d.year < 10000 ==> |s| == 10 && s[2] == '/' && s[5] == '/'
  {
    var s := ZFill(IntToStr(d.day), 2) + "/" + ZFill(IntToStr(d.month), 2) + "/" + ZFill(IntToStr(d.year), 4);
    if Valid(d) && 1000 <= d.year < 10000 then
      TwoDigitField(d.day);
      TwoDigitField(d.month);
      NatDigitsYear(d.year);
      s
    else s
  }

  lemma NatDigitsSmall(n: nat)
    requires n < 100
    ensures |NatDigits(n)| == if n < 10 then 1 else 2
  {
  }

  lemma NatDigitsYear(n: nat)
    requires 1000 <= n < 10000
    ensures |NatDigits(n)| == 4
  {
    assert NatDigits(n) == NatDigits(n / 10) + [DigitChar(n % 10)];
    assert NatDigits(n / 10) == NatDigits(n / 100) + [DigitChar(n / 10 % 10)];
    NatDigitsSmall(n / 100);
  }

  /** A number below 100 padded to two digits reads back as itself. */
  lemma TwoDigitField(n: nat)
    requires n < 100
    ensures var s := ZFill(IntToStr(n), 2);
      |s| == 2 && AllDigits(s) && DigitsValue(s) == n
  {
    var ds := NatDigits(n);
    NatDigitsSmall(n);
    NatDigitsRoundTrip(n);
    ZFillUnsigned(ds, 2);
    var s := ZFill(ds, 2);
    if n < 10 {
      assert s == ['0'] + ds;
      DigitsValueAppend(['0'], ds[0]);
      assert ['0'][..0] == [];
      assert ds == [ds[0]];
      assert [][..0] + [ds[0]] == ds;
    }
  }

  /**
    For a date with a four-digit year, the rendering is `dd/mm/yyyy`: ten
    characters, '/' at positions 2 and 5, and each field reads back as the
    date's day, month and year.
  */
  lemma FormatDateFields(d: Date)
    requires Valid(d) && 1000 <= d.year < 10000
    ensures var s := FormatDate(d);
      |s| == 10 && s[2] == '/' && s[5] == '/' &&
      AllDigits(s[..2]) && AllDigits(s[3..5]) && AllDigits(s[6..]) &&
      DigitsValue(s[..2]) == d.day && DigitsValue(s[3..5]) == d.month && DigitsValue(s[6..]) == d.year
  {
    var dd, mm, yy := ZFill(IntToStr(d.day), 2), ZFill(IntToStr(d.month), 2), ZFill(IntToStr(d.year), 4);
    TwoDigitField(d.day);
    TwoDigitField(d.month);
    NatDigitsYear(d.year);
    NatDigitsRoundTrip(d.year);
    var s := FormatDate(d);
    assert s == dd + "/" + mm + "/" + yy;
    assert s[..2] == dd;
    assert s[3..5] == mm;
    assert s[6..] == yy;
  }
}
