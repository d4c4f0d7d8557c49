/** Answers that the standards print, and texts as the services send them: what ties the tables and
    the marks that a writer and its reader share to the world outside. */
module KnownAnswers {
  import opened Bytes
  import Calendars
  import ChecksumKinds
  import ContentRanges
  import DateReaders
  import EncodedWords
  import Encodings
  import HttpMessages
  import Multiparts
  import Numbers
  import RequestFields
  import Times

  // ---- Base64: the test vectors of section 10 of RFC 4648 ----

  lemma FirstGroup()
    ensures Encodings.EncodeGroup([102, 111, 111]) == [90, 109, 57, 118]
  {
    hide Encodings.Bits;
    BitsOf(102, 111, 111);
  }

  lemma SecondGroup()
    ensures Encodings.EncodeGroup([98, 97, 114]) == [89, 109, 70, 121]
  {
    hide Encodings.Bits;
    BitsOf(98, 97, 114);
  }

  lemma BitsOf(a: byte, b: byte, c: byte)
    ensures Encodings.Bits([a, b, c]) == a * 0x1_0000 + b * 0x100 + c
  {
  }

  lemma ShortGroups()
    ensures Encodings.EncodeGroup([102]) == [90, 103, 61, 61]
    ensures Encodings.EncodeGroup([102, 111]) == [90, 109, 56, 61]
  {
  }

  lemma AsNumbers()
    ensures Ascii("f") == [102] && Ascii("fo") == [102, 111] && Ascii("foo") == [102, 111, 111]
    ensures Ascii("bar") == [98, 97, 114]
    ensures Ascii("Zg==") == [90, 103, 61, 61] && Ascii("Zm8=") == [90, 109, 56, 61]
    ensures Ascii("Zm9v") == [90, 109, 57, 118] && Ascii("YmFy") == [89, 109, 70, 121]
  {
  }

  lemma Base64Vectors()
    ensures Encodings.Encode(Ascii("f")) == Ascii("Zg==")
    ensures Encodings.Encode(Ascii("fo")) == Ascii("Zm8=")
    ensures Encodings.Encode(Ascii("foo")) == Ascii("Zm9v")
    ensures Encodings.Encode(Ascii("foo") + Ascii("bar")) == Ascii("Zm9v") + Ascii("YmFy")
  {
    hide Ascii, Encodings.EncodeGroup, Encodings.Encode;
    AsNumbers();
    FirstGroup();
    SecondGroup();
    ShortGroups();
    Encodings.EncodeOne([102]);
    Encodings.EncodeOne([102, 111]);
    Encodings.EncodeOne([102, 111, 111]);
    Encodings.EncodeOne([98, 97, 114]);
    Encodings.EncodeMore([102, 111, 111], [98, 97, 114]);
  }

  // ---- Dates: the example of section 5.6.7 of RFC 9110, and the first days of months ----

  lemma Digits2(n: nat)
    requires n < 100
    ensures Times.FixedDigits(n, 2) == [48 + n / 10, 48 + n % 10]
  {
    assert Times.FixedDigits(n / 10, 1) == [48 + n / 10];
  }

  lemma Digits4(n: nat)
    requires n < 10_000
    ensures Times.FixedDigits(n, 4) == Times.FixedDigits(n / 100, 2) + Times.FixedDigits(n % 100, 2)
  {
    var high := n / 100;
    assert n / 10 / 10 == high && n / 10 % 10 == n % 100 / 10 && n % 10 == n % 100 % 10;
    Digits2(n % 100);
    assert Times.FixedDigits(n / 10, 3) == Times.FixedDigits(high, 2) + [48 + n / 10 % 10];
  }

  // A date as it is printed.
  function HttpText(weekday: string, day: string, month: string, year: string, hour: string, minute: string,
                    second: string): string
  {
    weekday + ", " + day + " " + month + " " + year + " " + hour + ":" + minute + ":" + second + " GMT"
  }

  function BasicText(year: string, month: string, day: string, hour: string, minute: string, second: string): string {
    year + month + day + "T" + hour + minute + second + "Z"
  }

  lemma HttpTextIs(f: DateReaders.Fields, weekday: string, day: string, month: string, year: string, hour: string,
                   minute: string, second: string)
    requires DateReaders.Readable(f)
    requires f.weekday == Ascii(weekday) && Times.FixedDigits(f.date.day, 2) == Ascii(day)
    requires Times.MonthName(f.date.month) == Ascii(month) && Times.FixedDigits(f.date.year, 4) == Ascii(year)
    requires Times.FixedDigits(f.clock.hour, 2) == Ascii(hour) && Times.FixedDigits(f.clock.minute, 2) == Ascii(minute)
    requires Times.FixedDigits(f.clock.second, 2) == Ascii(second)
    ensures Times.HttpDate(f.weekday, f.date, f.clock)
         == Ascii(HttpText(weekday, day, month, year, hour, minute, second))
  {
    hide Ascii, Times.FixedDigits, Times.MonthName;
    Marks();
    var s := weekday;
    AsciiJoins(s, ", ");
    AsciiJoins(s + ", ", day);
    AsciiJoins(s + ", " + day, " ");
    AsciiJoins(s + ", " + day + " ", month);
    AsciiJoins(s + ", " + day + " " + month, " ");
    AsciiJoins(s + ", " + day + " " + month + " ", year);
    AsciiJoins(s + ", " + day + " " + month + " " + year, " ");
    AsciiJoins(s + ", " + day + " " + month + " " + year + " ", hour);
    AsciiJoins(s + ", " + day + " " + month + " " + year + " " + hour, ":");
    AsciiJoins(s + ", " + day + " " + month + " " + year + " " + hour + ":", minute);
    AsciiJoins(s + ", " + day + " " + month + " " + year + " " + hour + ":" + minute, ":");
    AsciiJoins(s + ", " + day + " " + month + " " + year + " " + hour + ":" + minute + ":", second);
    AsciiJoins(s + ", " + day + " " + month + " " + year + " " + hour + ":" + minute + ":" + second, " GMT");
  }

  lemma Marks()
    ensures Ascii(", ") == Times.COMMA && Ascii(" ") == Times.BLANK && Ascii(":") == Times.COLON
    ensures Ascii(" GMT") == Times.GMT
  {
  }

  lemma NameIs(a: char, b: char, c: char)
    ensures Times.Name(a, b, c) == Ascii([a, b, c])
  {
  }

  lemma MonthTexts()
    ensures Times.MonthName(1) == Ascii("Jan") && Times.MonthName(2) == Ascii("Feb")
    ensures Times.MonthName(3) == Ascii("Mar")
    ensures Times.MonthName(4) == Ascii("Apr") && Times.MonthName(5) == Ascii("May")
    ensures Times.MonthName(6) == Ascii("Jun")
    ensures Times.MonthName(7) == Ascii("Jul") && Times.MonthName(8) == Ascii("Aug")
    ensures Times.MonthName(9) == Ascii("Sep")
    ensures Times.MonthName(10) == Ascii("Oct") && Times.MonthName(11) == Ascii("Nov")
    ensures Times.MonthName(12) == Ascii("Dec")
  {
    hide Ascii, Times.Name;
    NameIs('J', 'a', 'n');
    NameIs('F', 'e', 'b');
    NameIs('M', 'a', 'r');
    NameIs('A', 'p', 'r');
    NameIs('M', 'a', 'y');
    NameIs('J', 'u', 'n');
    NameIs('J', 'u', 'l');
    NameIs('A', 'u', 'g');
    NameIs('S', 'e', 'p');
    NameIs('O', 'c', 't');
    NameIs('N', 'o', 'v');
    NameIs('D', 'e', 'c');
  }

  lemma WeekdayTexts()
    ensures Times.WeekdayName(0) == Ascii("Sun") && Times.WeekdayName(1) == Ascii("Mon")
    ensures Times.WeekdayName(2) == Ascii("Tue") && Times.WeekdayName(3) == Ascii("Wed")
    ensures Times.WeekdayName(4) == Ascii("Thu") && Times.WeekdayName(5) == Ascii("Fri")
    ensures Times.WeekdayName(6) == Ascii("Sat")
  {
    hide Ascii, Times.Name;
    NameIs('S', 'u', 'n');
    NameIs('M', 'o', 'n');
    NameIs('T', 'u', 'e');
    NameIs('W', 'e', 'd');
    NameIs('T', 'h', 'u');
    NameIs('F', 'r', 'i');
    NameIs('S', 'a', 't');
  }

  lemma TwoDigits(n: nat, text: string)
    requires n < 100 && |text| == 2 && text[0] as int == 48 + n / 10 && text[1] as int == 48 + n % 10
    ensures Times.FixedDigits(n, 2) == Ascii(text)
  {
    Digits2(n);
  }

  lemma Halves(n: nat)
    ensures n / 100 / 10 == n / 1000 && n % 100 / 10 == n / 10 % 10 && n % 100 % 10 == n % 10
  {
    var tens := n / 10;
    assert n == 10 * tens + n % 10 && tens / 10 == n / 100 && tens / 100 == n / 1000;
    assert n % 100 == 10 * (tens % 10) + n % 10;
  }

  lemma FourDigits(n: nat, high: string, low: string)
    requires n < 10_000 && |high| == |low| == 2
    requires high[0] as int == 48 + n / 1000 && high[1] as int == 48 + n / 100 % 10
    requires low[0] as int == 48 + n / 10 % 10 && low[1] as int == 48 + n % 10
    ensures Times.FixedDigits(n, 4) == Ascii(high + low)
  {
    hide Times.FixedDigits, Ascii;
    Digits4(n);
    Halves(n);
    TwoDigits(n / 100, high);
    TwoDigits(n % 100, low);
    AsciiJoins(high, low);
  }

  lemma DayIs(days: nat, date: Calendars.Date, weekday: nat)
    requires Calendars.Civil(days) == date && (days + 4) % 7 == weekday
    ensures Calendars.Calendar(days) == date && Calendars.Weekday(days) == weekday
  {
    hide Calendars.Calendar, Calendars.Weekday, Calendars.Civil;
    Calendars.CivilIsCalendar(days);
    Calendars.WeekdayIsRemainder(days);
  }

  lemma InstantIs(days: nat, date: Calendars.Date, weekday: nat, second: nat)
    requires Calendars.Civil(days) == date && (days + 4) % 7 == weekday && second < Times.DAY
    requires days * Times.DAY + second <= Times.MAX_UNIX_SECONDS
    ensures
      var t, f := Times.TimestampsOf(days * Times.DAY + second),
                  DateReaders.Fields(Times.WeekdayName(weekday), date, Times.ClockAt(second));
      && DateReaders.Readable(f) && t.rfc1123 == Times.HttpDate(f.weekday, f.date, f.clock)
      && t.iso8601 == Times.BasicDate(f.date, f.clock)
  {
    hide Calendars.Calendar, Calendars.Weekday, Calendars.Civil, Times.TimestampsOf, DateReaders.Readable,
         Times.WeekdayName, Times.HttpDate, Times.BasicDate, Times.ClockAt, DateReaders.SecondsOf;
    DayIs(days, date, weekday);
    InDay(days, second);
    DateReaders.FieldsOfInstant(days * Times.DAY + second);
  }

  lemma InDay(days: nat, second: nat)
    requires second < Times.DAY
    ensures (days * Times.DAY + second) / Times.DAY == days && (days * Times.DAY + second) % Times.DAY == second
  {
  }

  lemma DateExample()
    ensures Times.TimestampsOf(784_111_777).rfc1123
         == Ascii(HttpText("Sun", "06", "Nov", "19" + "94", "08", "49", "37"))
    ensures Times.TimestampsOf(784_111_777).iso8601 == Ascii(BasicText("19" + "94", "11", "06", "08", "49", "37"))
  {
    hide Calendars.Civil, Times.FixedDigits, Times.TimestampsOf, Times.HttpDate, Times.BasicDate, HttpText, BasicText,
         Ascii, Times.MonthName, Times.WeekdayName, Times.ClockAt;
    ExampleDay();
    InstantIs(9075, Calendars.Date(1994, 11, 6), 0, 31_777);
    ExampleClock();
    MonthTexts();
    WeekdayTexts();
    FourDigits(1994, "19", "94");
    TwoDigits(6, "06");
    TwoDigits(8, "08");
    TwoDigits(11, "11");
    TwoDigits(37, "37");
    TwoDigits(49, "49");
    var f := DateReaders.Fields(Times.WeekdayName(0), Calendars.Date(1994, 11, 6), Times.Clock(8, 49, 37));
    HttpTextIs(f, "Sun", "06", "Nov", "19" + "94", "08", "49", "37");
    BasicTextIs(f, "19" + "94", "11", "06", "08", "49", "37");
  }

  lemma ExampleDay()
    ensures Calendars.Civil(9075) == Calendars.Date(1994, 11, 6)
  {
    hide Calendars.Civil;
    Calendars.CivilOf(4, 394, 250, 9075);
  }

  lemma ExampleClock()
    ensures Times.ClockAt(31_777) == Times.Clock(8, 49, 37)
  {
  }

  lemma BasicTextIs(f: DateReaders.Fields, year: string, month: string, day: string, hour: string, minute: string,
                    second: string)
    requires DateReaders.Readable(f)
    requires Times.FixedDigits(f.date.year, 4) == Ascii(year) && Times.FixedDigits(f.date.month, 2) == Ascii(month)
    requires Times.FixedDigits(f.date.day, 2) == Ascii(day) && Times.FixedDigits(f.clock.hour, 2) == Ascii(hour)
    requires Times.FixedDigits(f.clock.minute, 2) == Ascii(minute)
    requires Times.FixedDigits(f.clock.second, 2) == Ascii(second)
    ensures Times.BasicDate(f.date, f.clock) == Ascii(BasicText(year, month, day, hour, minute, second))
  {
    hide Ascii, Times.FixedDigits;
    BasicMarks();
    AsciiJoins(year, month);
    AsciiJoins(year + month, day);
    AsciiJoins(year + month + day, "T");
    AsciiJoins(year + month + day + "T", hour);
    AsciiJoins(year + month + day + "T" + hour, minute);
    AsciiJoins(year + month + day + "T" + hour + minute, second);
    AsciiJoins(year + month + day + "T" + hour + minute + second, "Z");
  }

  lemma BasicMarks()
    ensures Ascii("T") == ['T' as int] && Ascii("Z") == ['Z' as int]
  {
  }

  // Midnight of the first day of each month of 2023, which fall on every day of the week.
  lemma FirstDay(days: nat, number: nat, month: string, weekday: nat, name: string)
    requires 1 <= number <= 12 && weekday < 7 && (days + 4) % 7 == weekday && days <= 100_000
    requires Calendars.Civil(days) == Calendars.Date(2023, number, 1)
    requires Times.MonthName(number) == Ascii(month) && Times.WeekdayName(weekday) == Ascii(name)
    ensures Times.TimestampsOf(days * Times.DAY).rfc1123
         == Ascii(HttpText(name, "01", month, "20" + "23", "00", "00", "00"))
  {
    hide Calendars.Civil, Times.FixedDigits, Times.TimestampsOf, Times.HttpDate, Times.BasicDate, HttpText, Ascii,
         Times.MonthName, Times.WeekdayName, Times.ClockAt;
    InstantIs(days, Calendars.Date(2023, number, 1), weekday, 0);
    MidnightIs();
    FourDigits(2023, "20", "23");
    TwoDigits(1, "01");
    TwoDigits(0, "00");
    var f := DateReaders.Fields(Times.WeekdayName(weekday), Calendars.Date(2023, number, 1), Times.Clock(0, 0, 0));
    HttpTextIs(f, name, "01", month, "20" + "23", "00", "00", "00");
  }

  lemma MidnightIs()
    ensures Times.ClockAt(0) == Times.Clock(0, 0, 0)
  {
  }

  // The first day of the month `number` of 2023, in years that start in March.
  lemma FirstOf(days: nat, number: nat, year: nat, day: nat)
    requires (year == 22 || year == 23) && day <= 365
    requires days + 719_468 == 5 * 146_097 + year * 365 + 5 + day
    requires number == (if (5 * day + 2) / 153 < 10 then (5 * day + 2) / 153 + 3 else (5 * day + 2) / 153 - 9)
    requires day == (153 * ((5 * day + 2) / 153) + 2) / 5 && year == (if number <= 2 then 22 else 23)
    ensures Calendars.Civil(days) == Calendars.Date(2023, number, 1)
  {
    hide Calendars.Civil;
    Calendars.CivilOf(5, year, day, days);
  }

  lemma MonthsAndWeekdays()
    ensures Times.TimestampsOf(19358 * Times.DAY).rfc1123
         == Ascii(HttpText("Sun", "01", "Jan", "20" + "23", "00", "00", "00"))
    ensures Times.TimestampsOf(19389 * Times.DAY).rfc1123
         == Ascii(HttpText("Wed", "01", "Feb", "20" + "23", "00", "00", "00"))
    ensures Times.TimestampsOf(19417 * Times.DAY).rfc1123
         == Ascii(HttpText("Wed", "01", "Mar", "20" + "23", "00", "00", "00"))
    ensures Times.TimestampsOf(19448 * Times.DAY).rfc1123
         == Ascii(HttpText("Sat", "01", "Apr", "20" + "23", "00", "00", "00"))
    ensures Times.TimestampsOf(19478 * Times.DAY).rfc1123
         == Ascii(HttpText("Mon", "01", "May", "20" + "23", "00", "00", "00"))
    ensures Times.TimestampsOf(19509 * Times.DAY).rfc1123
         == Ascii(HttpText("Thu", "01", "Jun", "20" + "23", "00", "00", "00"))
    ensures Times.TimestampsOf(19539 * Times.DAY).rfc1123
         == Ascii(HttpText("Sat", "01", "Jul", "20" + "23", "00", "00", "00"))
    ensures Times.TimestampsOf(19570 * Times.DAY).rfc1123
         == Ascii(HttpText("Tue", "01", "Aug", "20" + "23", "00", "00", "00"))
    ensures Times.TimestampsOf(19601 * Times.DAY).rfc1123
         == Ascii(HttpText("Fri", "01", "Sep", "20" + "23", "00", "00", "00"))
    ensures Times.TimestampsOf(19631 * Times.DAY).rfc1123
         == Ascii(HttpText("Sun", "01", "Oct", "20" + "23", "00", "00", "00"))
    ensures Times.TimestampsOf(19662 * Times.DAY).rfc1123
         == Ascii(HttpText("Wed", "01", "Nov", "20" + "23", "00", "00", "00"))
    ensures Times.TimestampsOf(19692 * Times.DAY).rfc1123
         == Ascii(HttpText("Fri", "01", "Dec", "20" + "23", "00", "00", "00"))
  {
    hide Calendars.Civil, Times.TimestampsOf, HttpText, Ascii, Times.MonthName, Times.WeekdayName;
    FirstOf(19358, 1, 22, 306);
    FirstOf(19389, 2, 22, 337);
    FirstOf(19417, 3, 23, 0);
    FirstOf(19448, 4, 23, 31);
    FirstOf(19478, 5, 23, 61);
    FirstOf(19509, 6, 23, 92);
    FirstOf(19539, 7, 23, 122);
    FirstOf(19570, 8, 23, 153);
    FirstOf(19601, 9, 23, 184);
    FirstOf(19631, 10, 23, 214);
    FirstOf(19662, 11, 23, 245);
    FirstOf(19692, 12, 23, 275);
    MonthTexts();
    WeekdayTexts();
    FirstDay(19358, 1, "Jan", 0, "Sun");
    FirstDay(19389, 2, "Feb", 3, "Wed");
    FirstDay(19417, 3, "Mar", 3, "Wed");
    FirstDay(19448, 4, "Apr", 6, "Sat");
    FirstDay(19478, 5, "May", 1, "Mon");
    FirstDay(19509, 6, "Jun", 4, "Thu");
    FirstDay(19539, 7, "Jul", 6, "Sat");
    FirstDay(19570, 8, "Aug", 2, "Tue");
    FirstDay(19601, 9, "Sep", 5, "Fri");
    FirstDay(19631, 10, "Oct", 0, "Sun");
    FirstDay(19662, 11, "Nov", 3, "Wed");
    FirstDay(19692, 12, "Dec", 5, "Fri");
  }

  // ---- ISO 8601, as a listing writes it ----

  function IsoString(year: string, month: string, day: string, hour: string, minute: string, second: string,
                     fraction: string): string
  {
    year + "-" + month + "-" + day + "T" + hour + ":" + minute + ":" + second + fraction + "Z"
  }

  lemma IsoTextIs(date: Calendars.Date, clock: Times.Clock, year: string, month: string, day: string, hour: string,
                  minute: string, second: string, fraction: string)
    requires date.year >= 0 && date.month >= 0 && date.day >= 0
    requires Times.FixedDigits(date.year, 4) == Ascii(year) && Times.FixedDigits(date.month, 2) == Ascii(month)
    requires Times.FixedDigits(date.day, 2) == Ascii(day) && Times.FixedDigits(clock.hour, 2) == Ascii(hour)
    requires Times.FixedDigits(clock.minute, 2) == Ascii(minute) && Times.FixedDigits(clock.second, 2) == Ascii(second)
    ensures DateReaders.IsoText(date, clock, Ascii(fraction))
         == Ascii(IsoString(year, month, day, hour, minute, second, fraction))
  {
    hide Ascii, Times.FixedDigits;
    Marks();
    BasicMarks();
    Hyphen();
    var s := year;
    AsciiJoins(s, "-");
    AsciiJoins(s + "-", month);
    AsciiJoins(s + "-" + month, "-");
    AsciiJoins(s + "-" + month + "-", day);
    AsciiJoins(s + "-" + month + "-" + day, "T");
    AsciiJoins(s + "-" + month + "-" + day + "T", hour);
    AsciiJoins(s + "-" + month + "-" + day + "T" + hour, ":");
    AsciiJoins(s + "-" + month + "-" + day + "T" + hour + ":", minute);
    AsciiJoins(s + "-" + month + "-" + day + "T" + hour + ":" + minute, ":");
    AsciiJoins(s + "-" + month + "-" + day + "T" + hour + ":" + minute + ":", second);
    AsciiJoins(s + "-" + month + "-" + day + "T" + hour + ":" + minute + ":" + second, fraction);
    AsciiJoins(s + "-" + month + "-" + day + "T" + hour + ":" + minute + ":" + second + fraction, "Z");
  }

  lemma Hyphen()
    ensures Ascii("-") == ['-' as int]
  {
  }

  // The date that the documentation of the reader shows, 2026-08-22T12:01:01.000Z.
  lemma IsoExample()
    ensures DateReaders.IsoMs(Ascii(IsoString("20" + "26", "08", "22", "12", "01", "01", ".000")))
         == Some(1_787_400_061_000)
  {
    hide Ascii, Times.FixedDigits, DateReaders.IsoMs, DateReaders.IsoText, DateReaders.Millis, DateReaders.SecondsOf,
         IsoString;
    var date, clock := Calendars.Date(2026, 8, 22), Times.Clock(12, 1, 1);
    FourDigits(2026, "20", "26");
    TwoDigits(8, "08");
    TwoDigits(22, "22");
    TwoDigits(12, "12");
    TwoDigits(1, "01");
    IsoTextIs(date, clock, "20" + "26", "08", "22", "12", "01", "01", ".000");
    NoMillis();
    IsoSeconds();
    DateReaders.IsoFieldsRead(DateReaders.Fields(Times.Name('S', 'a', 't'), date, clock), Ascii(".000"), 0);
  }

  lemma NoMillis()
    ensures DateReaders.Millis(Ascii(".000")) == Some(0)
  {
    var digits := Ascii(".000")[1..];
    assert digits == [48, 48, 48];
    assert DateReaders.FirstThree(digits) == [48, 48, 48];
    assert [48, 48, 48][..2] == [48, 48] && [48, 48][..1] == [48] && [48][..0] == [];
    assert Numbers.Value([48]) == 0 && Numbers.Value([48, 48]) == 0;
  }

  lemma IsoSeconds()
    ensures DateReaders.SecondsOf(Calendars.Date(2026, 8, 22), Times.Clock(12, 1, 1)) == 1_787_400_061
  {
  }

  // ---- Ranges: the examples of sections 14.1.2 and 14.4 of RFC 9110 ----

  lemma Numbers3()
    ensures Numbers.Decimal(0) == Ascii("0") && Numbers.Decimal(42) == Ascii("42")
    ensures Numbers.Decimal(499) == Ascii("499") && Numbers.Decimal(500) == Ascii("500")
  {
    assert Numbers.Decimal(4) == ['4' as int] && Numbers.Decimal(49) == ['4' as int, '9' as int];
    assert Numbers.Decimal(5) == ['5' as int] && Numbers.Decimal(50) == ['5' as int, '0' as int];
  }

  lemma Numbers4()
    ensures Numbers.Decimal(9500) == Ascii("9500")
  {
    assert Numbers.Decimal(9) == ['9' as int] && Numbers.Decimal(95) == ['9' as int, '5' as int];
    assert Numbers.Decimal(950) == ['9' as int, '5' as int, '0' as int];
  }

  lemma MoreNumbers()
    ensures Numbers.Decimal(1233) == Ascii("1233") && Numbers.Decimal(1234) == Ascii("1234")
  {
    assert Numbers.Decimal(1) == ['1' as int] && Numbers.Decimal(12) == ['1' as int, '2' as int];
    assert Numbers.Decimal(123) == ['1' as int, '2' as int, '3' as int];
  }

  lemma RangeExamples()
    ensures ContentRanges.RangeText(ContentRanges.Bounded(0, 500)) == Ascii("bytes=" + "0" + "-" + "499")
    ensures ContentRanges.RangeText(ContentRanges.Offset(9500)) == Ascii("bytes=" + "9500" + "-")
    ensures ContentRanges.RangeText(ContentRanges.Suffix(500)) == Ascii("bytes=" + "-" + "500")
  {
    hide Ascii, Numbers.Decimal;
    Numbers3();
    Numbers4();
    Hyphen();
    AsciiJoins("bytes=", "0");
    AsciiJoins("bytes=" + "0", "-");
    AsciiJoins("bytes=" + "0" + "-", "499");
    AsciiJoins("bytes=", "9500");
    AsciiJoins("bytes=" + "9500", "-");
    AsciiJoins("bytes=", "-");
    AsciiJoins("bytes=" + "-", "500");
  }

  lemma ContentRangeExamples()
    ensures ContentRanges.ContentRangeOf(Ascii("bytes " + "42" + "-" + "1233" + "/" + "1234"))
         == Some(ContentRanges.Satisfied(42, 1233, Some(1234)))
    ensures ContentRanges.ContentRangeOf(Ascii("bytes " + "42" + "-" + "1233" + "/" + "*"))
         == Some(ContentRanges.Satisfied(42, 1233, None))
  {
    hide Ascii, Numbers.Decimal, ContentRanges.ContentRangeOf;
    Numbers3();
    MoreNumbers();
    Hyphen();
    SlashAndStar();
    AsciiJoins("bytes ", "42");
    AsciiJoins("bytes " + "42", "-");
    AsciiJoins("bytes " + "42" + "-", "1233");
    AsciiJoins("bytes " + "42" + "-" + "1233", "/");
    AsciiJoins("bytes " + "42" + "-" + "1233" + "/", "1234");
    AsciiJoins("bytes " + "42" + "-" + "1233" + "/", "*");
    ContentRanges.StatedWindowReads(ContentRanges.Window(42, 1234), 1234);
    ContentRanges.UnsizedReads(42, 1233);
    var a, b, c := Ascii("bytes "), Ascii("42"), Ascii("1233");
    assert a + b + ['-' as int] + c + ['/' as int] + Ascii("1234")
        == ContentRanges.ContentRangeText(ContentRanges.Window(42, 1234), 1234);
    assert a + b + ['-' as int] + c + ['/' as int] + ['*' as int] == ContentRanges.UnsizedText(42, 1233);
  }

  lemma SlashAndStar()
    ensures Ascii("/") == ['/' as int] && Ascii("*") == ['*' as int]
  {
  }

  // ---- Encoded words, section 8 of RFC 2047 ----

  lemma WordExample(text: bytes)
    ensures EncodedWords.WordOf(text) == Ascii("=?UTF-8?B?") + Encodings.Encode(text) + Ascii("?=")
  {
    hide Encodings.Encode;
  }

  lemma PlainQ(b: byte, rest: bytes)
    requires 'a' as int <= b <= 'z' as int
    ensures EncodedWords.DecodeQ([b] + rest) == EncodedWords.Prepend(b, EncodedWords.DecodeQ(rest))
  {
    assert ([b] + rest)[1..] == rest;
  }

  lemma SpaceQ(rest: bytes)
    ensures EncodedWords.DecodeQ(Ascii("_") + rest) == EncodedWords.Prepend(' ' as int, EncodedWords.DecodeQ(rest))
  {
    assert (Ascii("_") + rest)[1..] == rest;
  }

  lemma NumberQ(rest: bytes)
    ensures EncodedWords.DecodeQ(Ascii("=3D") + rest) == EncodedWords.Prepend('=' as int, EncodedWords.DecodeQ(rest))
  {
    assert (Ascii("=3D") + rest)[3..] == rest;
  }

  // Letters are themselves, an underscore is a space, and a number after `=` is its byte.
  lemma QWordExample()
    ensures EncodedWords.DecodeQ(Ascii("a") + (Ascii("_") + (Ascii("=3D") + []))) == Some(Ascii("a" + " " + "="))
  {
    hide EncodedWords.DecodeQ, Ascii;
    SpaceQ(Ascii("=3D") + []);
    NumberQ([]);
    QNothing();
    PlainQ('a' as int, Ascii("_") + (Ascii("=3D") + []));
    AsciiJoins("a", " ");
    AsciiJoins("a" + " ", "=");
    assert Ascii("a") + Ascii(" ") + Ascii("=") == ['a' as int] + ([' ' as int] + (['=' as int] + []));
  }

  lemma QNothing()
    ensures EncodedWords.DecodeQ([]) == Some([])
    ensures Ascii("a") == ['a' as int] && Ascii(" ") == [' ' as int] && Ascii("=") == ['=' as int]
  {
  }

  // ---- Messages and their parts ----

  lemma MessageMarks()
    ensures HttpMessages.VERSION == Ascii("HTTP/1.1 ") && HttpMessages.CRLF == Ascii("\r\n")
    ensures Multiparts.DASHES == Ascii("--") && Multiparts.MIXED == Ascii("multipart/mixed")
    ensures RequestFields.NAME_END == Ascii(": ")
  {
  }

  // A body of one part, as section 5.1.1 of RFC 2046 has it.
  lemma BodyExample(boundary: string, line: string, content: string)
    ensures Multiparts.PrintBody([Multiparts.Part([Ascii(line)], Ascii(content))], Ascii(boundary))
         == Ascii("--" + boundary + "\r\n" + line + "\r\n" + "\r\n" + content + "\r\n" + "--" + boundary + "--"
                  + "\r\n")
  {
    hide Ascii;
    MessageMarks();
    var s := "--" + boundary + "\r\n";
    AsciiJoins("--", boundary);
    AsciiJoins("--" + boundary, "\r\n");
    AsciiJoins(s, line);
    AsciiJoins(s + line, "\r\n");
    AsciiJoins(s + line + "\r\n", "\r\n");
    AsciiJoins(s + line + "\r\n" + "\r\n", content);
    var t := s + line + "\r\n" + "\r\n" + content;
    AsciiJoins(t, "\r\n");
    AsciiJoins(t + "\r\n", "--");
    AsciiJoins(t + "\r\n" + "--", boundary);
    AsciiJoins(t + "\r\n" + "--" + boundary, "--");
    AsciiJoins(t + "\r\n" + "--" + boundary + "--", "\r\n");
    OneLine(Ascii(line));
  }

  lemma OneLine(line: bytes)
    ensures HttpMessages.Section([line]) == line + HttpMessages.CRLF
  {
    assert [line][1..] == [] && line + HttpMessages.CRLF + [] == line + HttpMessages.CRLF;
  }

  lemma FieldExample(name: string, value: string)
    ensures RequestFields.PrintFields([HttpMessages.Field(Ascii(name), Ascii(value))])
         == Ascii(name + ": " + value + "\r\n")
  {
    hide Ascii;
    MessageMarks();
    AsciiJoins(name, ": ");
    AsciiJoins(name + ": ", value);
    AsciiJoins(name + ": " + value, "\r\n");
    var field := HttpMessages.Field(Ascii(name), Ascii(value));
    assert [field][1..] == [];
  }

  // A message with `Transfer-Encoding` is refused, and one whose `Content-Length` is not its content's.
  lemma FramingExamples(value: bytes, content: bytes)
    ensures !HttpMessages.IsFramed([HttpMessages.Field(Ascii("T" + "ransfer-" + "E" + "ncoding"), value)], content)
    ensures HttpMessages.IsFramed([HttpMessages.Field(Ascii("C" + "ontent-" + "L" + "ength"), value)], content)
       <==> Numbers.ParseDecimal(value) == Some(|content|)
  {
    hide Ascii, Numbers.ParseDecimal, HttpMessages.SameIgnoringCase, HttpMessages.TRANSFER_ENCODING,
         HttpMessages.CONTENT_LENGTH;
    FramingNames();
    var coding := [HttpMessages.Field(Ascii("T" + "ransfer-" + "E" + "ncoding"), value)];
    var length := [HttpMessages.Field(Ascii("C" + "ontent-" + "L" + "ength"), value)];
    assert HttpMessages.Named(coding[0], HttpMessages.TRANSFER_ENCODING);
    assert HttpMessages.Named(length[0], HttpMessages.CONTENT_LENGTH);
  }

  lemma FramingNames()
    ensures HttpMessages.SameIgnoringCase(Ascii("T" + "ransfer-" + "E" + "ncoding"), HttpMessages.TRANSFER_ENCODING)
    ensures HttpMessages.SameIgnoringCase(Ascii("C" + "ontent-" + "L" + "ength"), HttpMessages.CONTENT_LENGTH)
    ensures !HttpMessages.SameIgnoringCase(Ascii("C" + "ontent-" + "L" + "ength"), HttpMessages.TRANSFER_ENCODING)
  {
    NameInParts("T", "t", "ransfer-", "E", "e", "ncoding");
    NameInParts("C", "c", "ontent-", "L", "l", "ength");
    assert "t" + "ransfer-" + "e" + "ncoding" == "transfer-encoding";
    assert "c" + "ontent-" + "l" + "ength" == "content-length";
  }

  // Names that differ in the case of two letters.
  lemma NameInParts(a: string, b: string, middle: string, c: string, d: string, end: string)
    requires HttpMessages.SameIgnoringCase(Ascii(a), Ascii(b)) && HttpMessages.SameIgnoringCase(Ascii(c), Ascii(d))
    ensures HttpMessages.SameIgnoringCase(Ascii(a + middle + c + end), Ascii(b + middle + d + end))
  {
    hide Ascii;
    AsciiJoins(a, middle);
    AsciiJoins(a + middle, c);
    AsciiJoins(a + middle + c, end);
    AsciiJoins(b, middle);
    AsciiJoins(b + middle, d);
    AsciiJoins(b + middle + d, end);
  }

  // Content needs its length stated, once.
  lemma MoreFramingExamples(value: bytes, content: bytes)
    ensures HttpMessages.IsFramed([], content) <==> content == []
    ensures
      var length := HttpMessages.Field(HttpMessages.CONTENT_LENGTH, value);
      !HttpMessages.IsFramed([length, length], content)
  {
    hide Ascii, Numbers.ParseDecimal;
    var length := HttpMessages.Field(HttpMessages.CONTENT_LENGTH, value);
    var both := [length, length];
    assert HttpMessages.Named(both[0], HttpMessages.CONTENT_LENGTH);
    assert HttpMessages.Named(both[1], HttpMessages.CONTENT_LENGTH);
  }

  // ---- Classes of characters ----

  // The characters of tokens, section 5.6.2 of RFC 9110, and of boundaries, section 5.1.1 of RFC
  // 2046, that are no letters or digits.
  lemma Marks9110(b: byte)
    ensures b in HttpMessages.TOKEN_MARKS <==> b in Ascii("!#$%&'*+-.^_`|~")
    ensures b in Multiparts.BOUNDARY_MARKS <==> b in Ascii("'()+_,-./:=? ")
  {
    hide Ascii;
    TokenMarks(b);
    BoundaryMarks(b);
  }

  lemma TokenMarks(b: byte)
    ensures b in HttpMessages.TOKEN_MARKS <==> b in Ascii("!#$%&'*+-.^_`|~")
  {
    var s := Ascii("!#$%&'*+-.^_`|~");
    assert s[0] == 33 && s[1] == 35 && s[2] == 36 && s[3] == 37 && s[4] == 38 && s[5] == 39 && s[6] == 42 && s[7] == 43;
    assert s[8] == 45 && s[9] == 46 && s[10] == 94 && s[11] == 95 && s[12] == 96 && s[13] == 124 && s[14] == 126;
  }

  lemma BoundaryMarks(b: byte)
    ensures b in Multiparts.BOUNDARY_MARKS <==> b in Ascii("'()+_,-./:=? ")
  {
    var s := Ascii("'()+_,-./:=? ");
    assert s[0] == 39 && s[1] == 40 && s[2] == 41 && s[3] == 43 && s[4] == 95 && s[5] == 44 && s[6] == 45 && s[7] == 46;
    assert s[8] == 47 && s[9] == 58 && s[10] == 61 && s[11] == 63 && s[12] == 32;
  }

  // Blanks are spaces and tabs. Text is printable ASCII, blanks, and bytes past ASCII.
  lemma BlanksAndText(b: byte)
    ensures b in HttpMessages.BLANKS <==> b == 0x20 || b == 0x09
    ensures b in ContentRanges.ASCII_SPACES <==> b == 0x20 || b == 0x09 || b == 0x0A || b == 0x0C || b == 0x0D
    ensures HttpMessages.IsTextByte(b) <==> !(b < 0x20 && b != 0x09) && b != 0x7F
    ensures HttpMessages.IsTokenByte(b) ==> 0x21 <= b <= 0x7E
  {
  }

  // ---- The lengths of digests, in bits ----

  lemma DigestBits()
    ensures 8 * ChecksumKinds.DigestLen(ChecksumKinds.Md5) == 128
    ensures 8 * ChecksumKinds.DigestLen(ChecksumKinds.Sha1) == 160
    ensures 8 * ChecksumKinds.DigestLen(ChecksumKinds.Sha256) == 256
    ensures 8 * ChecksumKinds.DigestLen(ChecksumKinds.Crc64) == 64
    ensures 8 * ChecksumKinds.DigestLen(ChecksumKinds.Crc32) == 8 * ChecksumKinds.DigestLen(ChecksumKinds.Crc32c) == 32
  {
  }
}
