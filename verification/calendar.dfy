/** Local calendar dates (`toLocalDateISO`, `isYesterday`).

    A JavaScript `Date` is seen here through its local calendar fields only:
    the year, the month (1..12) and the day of the month, or the invalid
    date that `new Date(NaN, ...)` produces. `new Date(y, m, d)` and
    `setDate` normalise out-of-range months and days by counting days on the
    proleptic Gregorian calendar, which `AddDays` does one day at a time. */
module Calendar {
  import opened Optional
  import opened Strings

  datatype Date = Date(year: int, month: int, day: int)

  /** A JavaScript `Date` value: a calendar day, or the invalid date. */
  datatype DateValue = InvalidDate | Day(date: Date)

  predicate IsLeapYear(y: int) {
    y % 4 == 0 && (y % 100 != 0 || y % 400 == 0)
  }

  function DaysInMonth(y: int, m: int): (n: int)
    requires 1 <= m <= 12
    ensures 28 <= n <= 31
  {
    if m == 2 then (if IsLeapYear(y) then 29 else 28)
    else if m == 4 || m == 6 || m == 9 || m == 11 then 30
    else 31
  }

  predicate Valid(x: Date) {
    1 <= x.month <= 12 && 1 <= x.day <= DaysInMonth(x.year, x.month)
  }

  // ---------------------------------------------------------------------
  // An independent reference: the ordinal of a day, counted from 1 January
  // of year 0 (negative before it).

  function YearDays(y: int): int {
    if IsLeapYear(y) then 366 else 365
  }

  /** The number of days from 1 January of year 0 to 1 January of year `y`
      (negative for years before 0), counted year by year. */
  function DaysBeforeYear(y: int): int
    decreases if y < 0 then -y else y
  {
    if y == 0 then 0
    else if y > 0 then DaysBeforeYear(y - 1) + YearDays(y - 1)
    else DaysBeforeYear(y + 1) - YearDays(y)
  }

  /** The days of the year before the first of month `m`. */
  function DaysBeforeMonth(y: int, m: int): int
    requires 1 <= m <= 12
  {
    var common :=
      if m <= 6 then (if m == 1 then 0 else if m == 2 then 31 else if m == 3 then 59
                      else if m == 4 then 90 else if m == 5 then 120 else 151)
      else (if m == 7 then 181 else if m == 8 then 212 else if m == 9 then 243
            else if m == 10 then 273 else if m == 11 then 304 else 334);
    if m > 2 && IsLeapYear(y) then common + 1 else common
  }

  /** Each month starts where the previous one ends. */
  lemma MonthStep(y: int, m: int)
    requires 1 < m <= 12
    ensures DaysBeforeMonth(y, m) == DaysBeforeMonth(y, m - 1) + DaysInMonth(y, m - 1)
  {
  }

  function DayNumber(x: Date): int
    requires Valid(x)
  {
    DaysBeforeYear(x.year) + DaysBeforeMonth(x.year, x.month) + x.day - 1
  }

  lemma YearLength(y: int)
    ensures DaysBeforeYear(y + 1) - DaysBeforeYear(y) == YearDays(y)
  {
  }

  lemma LastMonthEndsYear(y: int)
    ensures DaysBeforeMonth(y, 12) + 31 == YearDays(y)
  {
  }

  // ---------------------------------------------------------------------
  // Calendar-day steps.

  /** The calendar predecessor: the previous day of the month, else the last
      day of the previous month, else 31 December of the previous year. */
  function Pred(x: Date): (r: Date)
    requires Valid(x)
    ensures Valid(r)
  {
    if x.day > 1 then Date(x.year, x.month, x.day - 1)
    else if x.month > 1 then Date(x.year, x.month - 1, DaysInMonth(x.year, x.month - 1))
    else Date(x.year - 1, 12, 31)
  }

  /** The calendar successor. */
  function Succ(x: Date): (r: Date)
    requires Valid(x)
    ensures Valid(r)
  {
    if x.day < DaysInMonth(x.year, x.month) then Date(x.year, x.month, x.day + 1)
    else if x.month < 12 then Date(x.year, x.month + 1, 1)
    else Date(x.year + 1, 1, 1)
  }

  /** The predecessor is the day numbered one less. */
  lemma PredNumber(x: Date)
    requires Valid(x)
    ensures DayNumber(Pred(x)) == DayNumber(x) - 1
  {
    if x.day == 1 && x.month == 1 {
      YearLength(x.year - 1);
      LastMonthEndsYear(x.year - 1);
    } else if x.day == 1 {
      MonthStep(x.year, x.month);
    }
  }

  /** The successor is the day numbered one more. */
  lemma SuccNumber(x: Date)
    requires Valid(x)
    ensures DayNumber(Succ(x)) == DayNumber(x) + 1
  {
    if x.day == DaysInMonth(x.year, x.month) && x.month == 12 {
      YearLength(x.year);
      LastMonthEndsYear(x.year);
    } else if x.day == DaysInMonth(x.year, x.month) {
      MonthStep(x.year, x.month + 1);
    }
  }

  lemma SuccPred(x: Date)
    requires Valid(x)
    ensures Succ(Pred(x)) == x
  {
  }

  lemma PredSucc(x: Date)
    requires Valid(x)
    ensures Pred(Succ(x)) == x
  {
  }

  /** Two valid dates with the same ordinal are the same date. */
  lemma {:induction false} DayNumberInjective(a: Date, b: Date)
    requires Valid(a) && Valid(b)
    requires DayNumber(a) == DayNumber(b)
    ensures a == b
  {
    YearBounds(a);
    YearBounds(b);
    if a.year < b.year {
      YearsApart(a.year + 1, b.year);
      assert false;
    } else if b.year < a.year {
      YearsApart(b.year + 1, a.year);
      assert false;
    } else if a.month < b.month {
      MonthsApart(a.year, a.month + 1, b.month);
      assert false;
    } else if b.month < a.month {
      MonthsApart(a.year, b.month + 1, a.month);
      assert false;
    }
  }

  /** A valid date lies within its year. */
  lemma YearBounds(x: Date)
    requires Valid(x)
    ensures DaysBeforeYear(x.year) <= DayNumber(x) < DaysBeforeYear(x.year + 1)
  {
    MonthBounds(x.year, x.month);
    YearLength(x.year);
    LastMonthEndsYear(x.year);
  }

  lemma MonthBounds(y: int, m: int)
    requires 1 <= m <= 12
    ensures 0 <= DaysBeforeMonth(y, m) && DaysBeforeMonth(y, m) + DaysInMonth(y, m) <= DaysBeforeMonth(y, 12) + 31
  {
    MonthsApart(y, 1, m);
    if m < 12 {
      MonthsApart(y, m + 1, 12);
    }
  }

  lemma {:induction false} YearsApart(a: int, b: int)
    requires a <= b
    ensures DaysBeforeYear(a) <= DaysBeforeYear(b)
    decreases b - a
  {
    if a < b {
      YearLength(a);
      YearsApart(a + 1, b);
    }
  }

  lemma {:induction false} MonthsApart(y: int, a: int, b: int)
    requires 1 <= a <= b <= 12
    ensures DaysBeforeMonth(y, a) <= DaysBeforeMonth(y, b)
    decreases b - a
  {
    if a < b {
      MonthsApart(y, a, b - 1);
    }
  }

  /** `n` days after (before, when negative) `x`, stepping one calendar day
      at a time. */
  function AddDays(x: Date, n: int): (r: Date)
    requires Valid(x)
    ensures Valid(r)
    decreases if n < 0 then -n else n
  {
    if n == 0 then x
    else if n > 0 then AddDays(Succ(x), n - 1)
    else AddDays(Pred(x), n + 1)
  }

  /** Adding `n` days moves the day number by exactly `n`. */
  lemma {:induction false} AddDaysNumber(x: Date, n: int)
    requires Valid(x)
    ensures DayNumber(AddDays(x, n)) == DayNumber(x) + n
    decreases if n < 0 then -n else n
  {
    if n > 0 {
      SuccNumber(x);
      AddDaysNumber(Succ(x), n - 1);
    } else if n < 0 {
      PredNumber(x);
      AddDaysNumber(Pred(x), n + 1);
    }
  }

  /** Stepping forward inside a month only moves the day. */
  lemma {:induction false} AddDaysInMonth(x: Date, k: nat)
    requires Valid(x) && x.day + k <= DaysInMonth(x.year, x.month)
    ensures AddDays(x, k) == Date(x.year, x.month, x.day + k)
    decreases k
  {
    if k > 0 {
      AddDaysInMonth(Succ(x), k - 1);
    }
  }

  /** The year `new Date(year, ...)` means. */
  function FullYear(year: int): int {
    if 0 <= year <= 99 then 1900 + year else year
  }

  /** `new Date(year, monthIndex, day)` on finite arguments: a two-digit year
      (0..99) means 1900 + year; the month index counts from 0 and overflows
      into the years (floor division); the day counts from the first of
      that month and overflows into the months. */
  function Construct(year: int, monthIndex: int, day: int): (r: Date)
    ensures Valid(r)
  {
    AddDays(MonthStart(FullYear(year), monthIndex), day - 1)
  }

  /** The first day of month `monthIndex` (counted from 0) of year `y`; an
      index outside 0..11 carries into the following or earlier years, as
      floor division by 12 would. */
  function MonthStart(y: int, monthIndex: int): (r: Date)
    ensures Valid(r)
    decreases if monthIndex < 0 then 12 - monthIndex else monthIndex
  {
    if monthIndex < 0 then MonthStart(y - 1, monthIndex + 12)
    else if monthIndex >= 12 then MonthStart(y + 1, monthIndex - 12)
    else Date(y, monthIndex + 1, 1)
  }

  /** `d.setDate(day)` on a valid date: the same month, with `day` counted
      from its first day. */
  function SetDate(x: Date, day: int): (r: Date)
    requires Valid(x)
    ensures Valid(r)
  {
    AddDays(Date(x.year, x.month, 1), day - 1)
  }

  /** `setDate(day)` moves the day number by the change in the day. */
  lemma SetDateNumber(x: Date, day: int)
    requires Valid(x)
    ensures DayNumber(SetDate(x, day)) == DayNumber(x) + (day - x.day)
  {
    AddDaysNumber(Date(x.year, x.month, 1), day - 1);
  }

  /** Setting the day of the month to one less than today's is the calendar
      predecessor: `setDate(getDate() - 1)` rolls back over month ends,
      year ends and leap days. */
  lemma SetDateBackOne(x: Date)
    requires Valid(x)
    ensures SetDate(x, x.day - 1) == Pred(x)
  {
    SetDateNumber(x, x.day - 1);
    PredNumber(x);
    DayNumberInjective(SetDate(x, x.day - 1), Pred(x));
  }

  // ---------------------------------------------------------------------
  // Formatting and parsing.

  /** `String(n).padStart(2, '0')`. */
  function TwoDigits(n: nat): string {
    PadStart(NatToString(n), 2, '0')
  }

  /** `toLocalDateISO(date)`: `${year}-${month}-${day}` with month and day
      padded to two digits. From year 0 on, the three pieces between its
      dashes read back as the date's year, month and day. */
  function ToLocalDateISO(x: Date): (r: string)
    requires Valid(x)
    ensures x.year >= 0 ==> Split(r, '-') == [NatToString(x.year), TwoDigits(x.month), TwoDigits(x.day)]
    ensures x.year >= 0 ==> |TwoDigits(x.month)| == 2 && |TwoDigits(x.day)| == 2
    ensures x.year >= 0 ==> Fields(Split(r, '-')) == Some((x.year as nat, x.month as nat, x.day as nat))
  {
    var r := IntToString(x.year) + "-" + TwoDigits(x.month) + "-" + TwoDigits(x.day);
    if x.year < 0 then r
    else
      var y, m, d := NatToString(x.year), TwoDigits(x.month), TwoDigits(x.day);
      TwoDigitsValue(x.month);
      TwoDigitsValue(x.day);
      NoDash(y);
      NoDash(m);
      NoDash(d);
      assert r == y + "-" + m + "-" + d;
      SplitThree(y, m, d);
      NumberOfYear(x.year);
      NumberOfTwoDigits(x.month);
      NumberOfTwoDigits(x.day);
      FieldsOf(Split(r, '-'), x.year, x.month, x.day);
      r
  }

  /** Formatting a `Date` value: the invalid date prints `NaN` for each field. */
  function Format(v: DateValue): string
    requires v.Day? ==> Valid(v.date)
  {
    match v
    case InvalidDate => "NaN-NaN-NaN"
    case Day(x) => ToLocalDateISO(x)
  }

  /** `const [year, month, day] = todayISO.split('-').map(Number)` followed by
      `new Date(year, month - 1, day)`: a missing part is `undefined`, and a
      part that is not a number makes the date invalid. */
  function ParseLocal(s: string): (v: DateValue)
    ensures v.Day? ==> Valid(v.date)
  {
    match Fields(Split(s, '-'))
    case None => InvalidDate
    case Some((y, m, d)) => Day(Construct(y, m - 1, d))
  }

  /** `Number` of the first three pieces, if all three are numbers. */
  function Fields(parts: seq<string>): Option<(nat, nat, nat)> {
    if |parts| < 3 then None
    else
      var y, m, d := NumberOf(parts[0]), NumberOf(parts[1]), NumberOf(parts[2]);
      if y.None? || m.None? || d.None? then None
      else Some((y.value, m.value, d.value))
  }

  /** `isYesterday(dateISO, todayISO)`: when `todayISO` reads as a day, the
      comparison is with the formatted calendar day before it; an unreadable
      `todayISO` compares with the invalid date's text. */
  function IsYesterday(dateISO: string, todayISO: string): (r: bool)
    ensures ParseLocal(todayISO).Day? ==>
      (r <==> dateISO == ToLocalDateISO(Pred(ParseLocal(todayISO).date)))
    ensures ParseLocal(todayISO).InvalidDate? ==> (r <==> dateISO == "NaN-NaN-NaN")
  {
    match ParseLocal(todayISO)
    case InvalidDate => dateISO == Format(InvalidDate)
    case Day(today) =>
      SetDateBackOne(today);
      dateISO == ToLocalDateISO(SetDate(today, today.day - 1))
  }

  lemma TwoDigitsValue(n: nat)
    requires n < 100
    ensures |TwoDigits(n)| == 2 && AllDigits(TwoDigits(n))
    ensures DigitsValue(TwoDigits(n)) == n
  {
    NatToStringRoundTrip(n);
    var s := NatToString(n);
    if n < 10 {
      assert PadStart(s, 2, '0') == PadStart("0" + s, 2, '0');
      LeadingZero(s);
    }
  }

  lemma SplitThree(y: string, m: string, d: string)
    requires '-' !in y && '-' !in m && '-' !in d
    ensures Split(y + "-" + m + "-" + d, '-') == [y, m, d]
  {
    assert y + "-" + m + "-" + d == y + ['-'] + (m + ['-'] + d);
    SplitAfterPiece(y, '-', m + "-" + d);
    SplitAfterPiece(m, '-', d);
    SplitWithoutSeparator(d, '-');
  }

  lemma NoDash(s: string)
    requires AllDigits(s)
    ensures '-' !in s
  {
    forall i | 0 <= i < |s| ensures s[i] != '-' {
      assert IsDigit(s[i]);
    }
  }

  /** Formatting is one-to-one on dates from year 0 on. */
  lemma FormatInjective(a: Date, b: Date)
    requires Valid(a) && a.year >= 0 && Valid(b) && b.year >= 0
    requires ToLocalDateISO(a) == ToLocalDateISO(b)
    ensures a == b
  {
    var pa, pb := Split(ToLocalDateISO(a), '-'), Split(ToLocalDateISO(b), '-');
    assert pa == pb;
    assert NatToString(a.year) == NatToString(b.year) && TwoDigits(a.month) == TwoDigits(b.month)
        && TwoDigits(a.day) == TwoDigits(b.day) by {
      assert pa[0] == pb[0] && pa[1] == pb[1] && pa[2] == pb[2];
    }
    NatToStringRoundTrip(a.year);
    NatToStringRoundTrip(b.year);
    TwoDigitsValue(a.month);
    TwoDigitsValue(b.month);
    TwoDigitsValue(a.day);
    TwoDigitsValue(b.day);
  }

  /** Reading back a formatted date (from year 100 on, where the two-digit
      year rule does not apply) gives the same date. */
  lemma ParseFormatted(x: Date)
    requires Valid(x) && x.year >= 100
    ensures ParseLocal(ToLocalDateISO(x)) == Day(x)
  {
    var s := ToLocalDateISO(x);
    ParseFields(s, x.year, x.month, x.day);
    assert Construct(x.year, x.month - 1, x.day) == x by {
      assert FullYear(x.year) == x.year;
      ConstructInRange(x.year, x.month, x.day);
    }
  }

  lemma NumberOfYear(n: nat)
    ensures NumberOf(NatToString(n)) == Some(n)
  {
    NatToStringRoundTrip(n);
    NumberOfDigits(NatToString(n));
  }

  lemma NumberOfTwoDigits(n: nat)
    requires n < 100
    ensures NumberOf(TwoDigits(n)) == Some(n)
  {
    TwoDigitsValue(n);
    NumberOfDigits(TwoDigits(n));
  }

  /** A formatted year below 100 is read back as 1900 + year. */
  lemma ParseTwoDigitYear(x: Date)
    requires Valid(x) && 0 <= x.year <= 99
    requires Valid(Date(1900 + x.year, x.month, x.day))
    ensures ParseLocal(ToLocalDateISO(x)) == Day(Date(1900 + x.year, x.month, x.day))
  {
    ParseFields(ToLocalDateISO(x), x.year, x.month, x.day);
    var full := Date(1900 + x.year, x.month, x.day);
    assert Construct(x.year, x.month - 1, x.day) == full by {
      assert FullYear(x.year) == full.year;
      ConstructInRange(x.year, x.month, x.day);
    }
  }

  /** Three numbers before the first dashes make the date they name. */
  lemma ParseFields(s: string, y: nat, m: nat, d: nat)
    requires Fields(Split(s, '-')) == Some((y, m, d))
    ensures ParseLocal(s) == Day(Construct(y, m - 1, d))
  {
  }

  lemma FieldsOf(parts: seq<string>, y: nat, m: nat, d: nat)
    requires |parts| >= 3
    requires NumberOf(parts[0]) == Some(y) && NumberOf(parts[1]) == Some(m) && NumberOf(parts[2]) == Some(d)
    ensures Fields(parts) == Some((y, m, d))
  {
  }

  /** `new Date(y, m - 1, d)` names the day `d` of month `m` of the full year. */
  lemma ConstructInRange(y: int, m: int, d: int)
    requires Valid(Date(FullYear(y), m, d))
    ensures Construct(y, m - 1, d) == Date(FullYear(y), m, d)
  {
    assert MonthStart(FullYear(y), m - 1) == Date(FullYear(y), m, 1);
    AddDaysInMonth(Date(FullYear(y), m, 1), d - 1);
  }

  /** `isYesterday(d, t)` holds exactly when `d` is the formatted calendar
      predecessor of the day `t` names. */
  lemma IsYesterdayIffPred(dateISO: string, today: Date)
    requires Valid(today) && today.year >= 100
    ensures IsYesterday(dateISO, ToLocalDateISO(today)) <==> dateISO == ToLocalDateISO(Pred(today))
  {
    ParseFormatted(today);
    SetDateBackOne(today);
  }

  /** For a year written with at most two digits, `isYesterday` compares
      against the day before the same date in the 1900s. */
  lemma IsYesterdayTwoDigitYear(dateISO: string, today: Date)
    requires Valid(today) && 0 <= today.year <= 99
    requires Valid(Date(1900 + today.year, today.month, today.day))
    ensures IsYesterday(dateISO, ToLocalDateISO(today))
        <==> dateISO == ToLocalDateISO(Pred(Date(1900 + today.year, today.month, today.day)))
  {
    ParseTwoDigitYear(today);
    SetDateBackOne(Date(1900 + today.year, today.month, today.day));
  }

  /** 5 January 2025 is written "2025-01-05". */
  lemma FormatExample()
    ensures ToLocalDateISO(Date(2025, 1, 5)) == "2025-01-05"
  {
    FormatExampleText();
  }

  lemma FormatExampleText()
    ensures IntToString(2025) + "-" + TwoDigits(1) + "-" + TwoDigits(5) == "2025-01-05"
  {
    assert NatToString(2) == "2";
    assert NatToString(20) == "20";
    assert NatToString(202) == "202";
    assert NatToString(2025) == "2025";
    assert TwoDigits(1) == "01";
    assert TwoDigits(5) == "05";
    assert IntToString(2025) == "2025";
    var s := "2025" + "-" + "01" + "-" + "05";
    assert forall i | 0 <= i < 10 :: s[i] == "2025-01-05"[i];
  }

  /** The day before 5 January 2025 is 4 January, not 3 January. */
  lemma YesterdayExample()
    ensures IsYesterday(ToLocalDateISO(Date(2025, 1, 4)), ToLocalDateISO(Date(2025, 1, 5)))
    ensures !IsYesterday(ToLocalDateISO(Date(2025, 1, 3)), ToLocalDateISO(Date(2025, 1, 5)))
  {
    IsYesterdayIffPred(ToLocalDateISO(Date(2025, 1, 4)), Date(2025, 1, 5));
    IsYesterdayIffPred(ToLocalDateISO(Date(2025, 1, 3)), Date(2025, 1, 5));
    FormatInjectiveExample();
  }

  lemma FormatInjectiveExample()
    ensures ToLocalDateISO(Date(2025, 1, 3)) != ToLocalDateISO(Date(2025, 1, 4))
  {
    if ToLocalDateISO(Date(2025, 1, 3)) == ToLocalDateISO(Date(2025, 1, 4)) {
      FormatInjective(Date(2025, 1, 3), Date(2025, 1, 4));
    }
  }

  /** The predecessor rolls over leap Februaries (by the century rules) and
      year ends. */
  lemma PredExamples()
    ensures Pred(Date(2024, 3, 1)) == Date(2024, 2, 29)
    ensures Pred(Date(1900, 3, 1)) == Date(1900, 2, 28)
    ensures Pred(Date(2000, 3, 1)) == Date(2000, 2, 29)
    ensures Pred(Date(2025, 1, 1)) == Date(2024, 12, 31)
  {
  }
}
