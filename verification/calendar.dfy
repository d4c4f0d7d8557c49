/** Days since 1970-01-01 as dates of the proleptic Gregorian calendar, and back. */
module Calendars {
  datatype Date = Date(year: int, month: int, day: int)

  // ---- The calendar, day by day ----

  predicate IsLeap(year: int) {
    year % 4 == 0 && (year % 100 != 0 || year % 400 == 0)
  }

  function DaysInMonth(year: int, month: int): int {
    if month == 4 || month == 6 || month == 9 || month == 11 then 30
    else if month == 2 then if IsLeap(year) then 29 else 28
    else 31
  }

  predicate IsDate(date: Date) {
    1 <= date.month <= 12 && 1 <= date.day <= DaysInMonth(date.year, date.month)
  }

  function NextDay(date: Date): Date {
    if date.day < DaysInMonth(date.year, date.month) then date.(day := date.day + 1)
    else if date.month < 12 then Date(date.year, date.month + 1, 1)
    else Date(date.year + 1, 1, 1)
  }

  // The date `n` days after 1970-01-01.
  function Calendar(n: nat): (date: Date)
    ensures IsDate(date) && date.year >= 1970
  {
    if n == 0 then Date(1970, 1, 1) else NextDay(Calendar(n - 1))
  }

  // Its day of the week, where 0 is Sunday. The first was a Thursday.
  function Weekday(n: nat): (w: nat)
    ensures w < 7
  {
    if n == 0 then 4 else (Weekday(n - 1) + 1) % 7
  }

  lemma {:induction false} WeekdayIsRemainder(n: nat)
    ensures Weekday(n) == (n + 4) % 7
  {
    if n > 0 {
      WeekdayIsRemainder(n - 1);
      NextRemainder(n + 3);
    }
  }

  lemma NextRemainder(n: nat)
    ensures (n % 7 + 1) % 7 == (n + 1) % 7
  {
  }

  // ---- The formulas ----

  // Division that drops the fraction, as the source divides.
  function Truncated(a: int, b: int): int
    requires b > 0
  {
    if a >= 0 then a / b else -(-a / b)
  }

  // Howard Hinnant's `civil_from_days`, in which a year starts in March.
  function Civil(days: int): Date {
    var shifted := days + 719_468;
    var era := shifted / 146_097;
    var dayOfEra := shifted % 146_097;
    var yearOfEra := YearOfEra(dayOfEra);
    var dayOfYear := dayOfEra - (365 * yearOfEra + yearOfEra / 4 - yearOfEra / 100);
    var shiftedMonth := (5 * dayOfYear + 2) / 153;
    var day := dayOfYear - (153 * shiftedMonth + 2) / 5 + 1;
    var month := if shiftedMonth < 10 then shiftedMonth + 3 else shiftedMonth - 9;
    Date(yearOfEra + era * 400 + (if month <= 2 then 1 else 0), month, day)
  }

  function YearOfEra(dayOfEra: int): int {
    (dayOfEra - dayOfEra / 1460 + dayOfEra / 36_524 - dayOfEra / 146_096) / 365
  }

  // His `days_from_civil`.
  function DaysFromCivil(date: Date): int {
    var year := if date.month <= 2 then date.year - 1 else date.year;
    var era := Truncated(if year >= 0 then year else year - 399, 400);
    var yearOfEra := year - era * 400;
    var shiftedMonth := if date.month > 2 then date.month - 3 else date.month + 9;
    var dayOfYear := (153 * shiftedMonth + 2) / 5 + date.day - 1;
    var dayOfEra := yearOfEra * 365 + yearOfEra / 4 - yearOfEra / 100 + dayOfYear;
    era * 146_097 + dayOfEra - 719_468
  }

  // The first of March of a year, counted from that of year 0.
  function YearStart(year: int): int {
    365 * year + year / 4 - year / 100 + year / 400
  }

  function MonthStart(shiftedMonth: int): int {
    (153 * shiftedMonth + 2) / 5
  }

  function ShiftedYear(date: Date): int {
    if date.month <= 2 then date.year - 1 else date.year
  }

  function ShiftedMonth(date: Date): int {
    if date.month > 2 then date.month - 3 else date.month + 9
  }

  // The days before a date are those of the years, months and days before it.
  lemma DaysAreSums(date: Date)
    ensures DaysFromCivil(date)
         == YearStart(ShiftedYear(date)) + MonthStart(ShiftedMonth(date)) + date.day - 1 - 719_468
  {
    var year := ShiftedYear(date);
    var era := year / 400;
    assert Truncated(if year >= 0 then year else year - 399, 400) == era;
    EraParts(era, year - era * 400);
  }

  lemma EraParts(era: int, yearOfEra: int)
    requires 0 <= yearOfEra < 400
    ensures YearStart(400 * era + yearOfEra)
         == era * 146_097 + yearOfEra * 365 + yearOfEra / 4 - yearOfEra / 100
  {
    var year := 400 * era + yearOfEra;
    assert year / 4 == 100 * era + yearOfEra / 4;
    assert year / 100 == 4 * era + yearOfEra / 100;
    assert year / 400 == era;
  }

  lemma YearLength(year: int)
    ensures YearStart(year + 1) == YearStart(year) + (if IsLeap(year + 1) then 366 else 365)
  {
    NextQuotient(year, 4);
    NextQuotient(year, 100);
    NextQuotient(year, 400);
  }

  lemma NextQuotient(n: int, k: int)
    requires k == 4 || k == 100 || k == 400
    ensures (n + 1) / k == n / k + (if (n + 1) % k == 0 then 1 else 0)
  {
  }

  // ---- The formulas are the calendar ----

  lemma NextDayIsOneMore(date: Date)
    requires IsDate(date)
    ensures DaysFromCivil(NextDay(date)) == DaysFromCivil(date) + 1
  {
    hide DaysFromCivil, YearStart;
    DaysAreSums(date);
    DaysAreSums(NextDay(date));
    YearLength(ShiftedYear(date));
  }

  lemma {:induction false} CalendarCounts(n: nat)
    ensures DaysFromCivil(Calendar(n)) == n
  {
    hide NextDay, IsDate;
    assert DaysFromCivil(Date(1970, 1, 1)) == 0;
    hide DaysFromCivil;
    if n > 0 {
      CalendarCounts(n - 1);
      NextDayIsOneMore(Calendar(n - 1));
    }
  }

  // A year of an era is found from any of its days.
  lemma YearOfEraIs(c: int, q: int, r: int, dayOfYear: int)
    requires 0 <= c < 4 && 0 <= q < 25 && 0 <= r < 4 && 0 <= dayOfYear <= 365
    requires dayOfYear == 365 ==> r == 3 && (q < 24 || c == 3)
    ensures YearOfEra(36_524 * c + 1461 * q + 365 * r + dayOfYear) == 100 * c + 4 * q + r
  {
    var dayOfEra := 36_524 * c + 1461 * q + 365 * r + dayOfYear;
    var s := 24 * c + q + 365 * r + dayOfYear;
    assert dayOfEra == 1460 * (25 * c + q) + s;
    if dayOfEra == 146_096 {
      assert c == 3 && q == 24 && r == 3 && dayOfYear == 365;
    } else {
      assert dayOfEra / 36_524 == c;
      assert dayOfEra / 1460 == 25 * c + q + (if s >= 1460 then 1 else 0);
    }
  }

  lemma CivilUndoesDays(date: Date)
    requires IsDate(date)
    ensures Civil(DaysFromCivil(date)) == date
  {
    hide DaysFromCivil, YearOfEra, YearStart;
    var era, yearOfEra := ShiftedYear(date) / 400, ShiftedYear(date) % 400;
    var dayOfYear := MonthStart(ShiftedMonth(date)) + date.day - 1;
    MonthOfDay(date);
    DaysAreSums(date);
    EraParts(era, yearOfEra);
    LastDayOfLeapYear(date);
    CivilOf(era, yearOfEra, dayOfYear, DaysFromCivil(date));
  }

  // The formula on a day that is given as an era, a year of it and a day of that.
  lemma CivilOf(era: int, yearOfEra: int, dayOfYear: int, days: int)
    requires 0 <= yearOfEra < 400 && 0 <= dayOfYear <= 365
    requires dayOfYear == 365 ==> yearOfEra % 4 == 3 && (yearOfEra % 100 / 4 < 24 || yearOfEra / 100 == 3)
    requires days + 719_468
          == era * 146_097 + (yearOfEra * 365 + yearOfEra / 4 - yearOfEra / 100) + dayOfYear
    ensures var shiftedMonth := (5 * dayOfYear + 2) / 153;
      var day := dayOfYear - (153 * shiftedMonth + 2) / 5 + 1;
      var month := if shiftedMonth < 10 then shiftedMonth + 3 else shiftedMonth - 9;
      Civil(days) == Date(yearOfEra + era * 400 + (if month <= 2 then 1 else 0), month, day)
  {
    hide YearOfEra, Civil;
    var c, q, r := yearOfEra / 100, yearOfEra % 100 / 4, yearOfEra % 4;
    YearInParts(yearOfEra);
    YearOfEraIs(c, q, r, dayOfYear);
    DayOfEraBound(c, q, r, dayOfYear);
    var dayOfEra := 36_524 * c + 1461 * q + 365 * r + dayOfYear;
    assert dayOfEra == yearOfEra * 365 + yearOfEra / 4 - yearOfEra / 100 + dayOfYear;
    EraOf(days + 719_468, era, dayOfEra);
    CivilFrom(era, dayOfEra, yearOfEra, days);
  }

  lemma YearInParts(year: int)
    requires 0 <= year < 400
    ensures year == 100 * (year / 100) + 4 * (year % 100 / 4) + year % 4
    ensures year / 4 == 25 * (year / 100) + year % 100 / 4
  {
  }

  lemma CivilFrom(era: int, dayOfEra: int, yearOfEra: int, days: int)
    requires (days + 719_468) / 146_097 == era && (days + 719_468) % 146_097 == dayOfEra
    requires YearOfEra(dayOfEra) == yearOfEra
    ensures
      var dayOfYear := dayOfEra - (365 * yearOfEra + yearOfEra / 4 - yearOfEra / 100);
      var shiftedMonth := (5 * dayOfYear + 2) / 153;
      var month := if shiftedMonth < 10 then shiftedMonth + 3 else shiftedMonth - 9;
      Civil(days) == Date(yearOfEra + era * 400 + (if month <= 2 then 1 else 0), month,
                          dayOfYear - (153 * shiftedMonth + 2) / 5 + 1)
  {
    hide YearOfEra;
  }

  lemma EraOf(shifted: int, era: int, dayOfEra: int)
    requires shifted == era * 146_097 + dayOfEra && 0 <= dayOfEra < 146_097
    ensures shifted / 146_097 == era && shifted % 146_097 == dayOfEra
  {
  }

  lemma DayOfEraBound(c: int, q: int, r: int, dayOfYear: int)
    requires 0 <= c < 4 && 0 <= q < 25 && 0 <= r < 4 && 0 <= dayOfYear <= 365
    requires dayOfYear == 365 ==> r == 3 && (q < 24 || c == 3)
    ensures 0 <= 36_524 * c + 1461 * q + 365 * r + dayOfYear < 146_097
  {
  }

  lemma MonthOfDay(date: Date)
    requires IsDate(date)
    ensures var dayOfYear := MonthStart(ShiftedMonth(date)) + date.day - 1;
      0 <= dayOfYear <= 365 && (5 * dayOfYear + 2) / 153 == ShiftedMonth(date)
  {
  }

  lemma LastDayOfLeapYear(date: Date)
    requires IsDate(date)
    ensures MonthStart(ShiftedMonth(date)) + date.day - 1 == 365 ==>
      var y := ShiftedYear(date) % 400; y % 4 == 3 && (y % 100 / 4 < 24 || y / 100 == 3)
  {
    if MonthStart(ShiftedMonth(date)) + date.day - 1 == 365 {
      assert date.month == 2 && date.day == 29 && IsLeap(date.year);
      BeforeLeapYear(ShiftedYear(date));
    }
  }

  lemma BeforeLeapYear(year: int)
    requires IsLeap(year + 1)
    ensures var y := year % 400; y % 4 == 3 && (y % 100 / 4 < 24 || y / 100 == 3)
  {
    var y := year % 400;
    LeapYearsRepeat(year / 400, y + 1);
    assert (y + 1) % 4 == 0;
    if y % 100 / 4 >= 24 {
      assert y % 100 == 99;
    }
  }

  lemma LeapYearsRepeat(era: int, year: int)
    ensures IsLeap(400 * era + year) == IsLeap(year)
  {
    assert (400 * era + year) / 4 == 100 * era + year / 4;
    assert (400 * era + year) / 100 == 4 * era + year / 100;
    assert (400 * era + year) / 400 == era + year / 400;
  }

  // The formula gives the date that counting gives.
  lemma CivilIsCalendar(n: nat)
    ensures Civil(n) == Calendar(n)
  {
    CalendarCounts(n);
    CivilUndoesDays(Calendar(n));
  }

  // A date from 1970 on is that of the days that the formula counts to it.
  lemma DateOfDays(date: Date)
    requires IsDate(date) && date.year >= 1970
    ensures DaysFromCivil(date) >= 0 && Calendar(DaysFromCivil(date)) == date
  {
    hide DaysFromCivil, Civil;
    DaysFromEpoch(date);
    CivilUndoesDays(date);
    CivilIsCalendar(DaysFromCivil(date));
  }

  // Dates before 1970 are counted below zero.
  lemma DaysFromEpoch(date: Date)
    requires IsDate(date)
    ensures DaysFromCivil(date) >= 0 <==> date.year >= 1970
    ensures DaysFromCivil(date) < 2_932_897 <==> date.year <= 9999
  {
    hide DaysFromCivil;
    DaysAreSums(date);
    MonthOfDay(date);
    var year := ShiftedYear(date);
    if year < 1969 {
      YearsGrow(year, 1969);
    } else if year > 1969 {
      YearsGrow(1970, year);
    }
    if year < 9999 {
      YearsGrow(year, 9999);
    } else if year > 9999 {
      YearsGrow(10_000, year);
    }
  }

  lemma YearsGrow(a: int, b: int)
    ensures a < b ==> YearStart(a) + 365 <= YearStart(b)
    ensures a <= b ==> YearStart(a) <= YearStart(b)
    decreases b - a
  {
    if a < b {
      YearLength(a);
      YearsGrow(a + 1, b);
    }
  }
}
