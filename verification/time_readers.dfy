/** Dates of responses read as instants, and the order of the dates that requests carry. */
module DateReaders {
  import Arithmetic
  import opened Bytes
  import opened Calendars
  import opened Numbers
  import opened Times

  // ---- Digits ----

  function ParseDigits(s: bytes): Option<nat> {
    if s == [] then Some(0)
    else
      match ParseDigits(s[..|s| - 1])
      case None => None
      case Some(v) => if IsDigit(s[|s| - 1]) then Some(10 * v + (s[|s| - 1] - ZERO)) else None
  }

  lemma {:induction false} ParsedIsValue(s: bytes)
    ensures ParseDigits(s) == if AllDigits(s) then Some(Value(s)) else None
  {
    if s != [] {
      ParsedIsValue(s[..|s| - 1]);
      assert AllDigits(s) <==> AllDigits(s[..|s| - 1]) && IsDigit(s[|s| - 1]);
    }
  }

  lemma {:induction false} FixedDigitsValue(n: nat, width: nat)
    requires n < Pow10(width)
    ensures Value(FixedDigits(n, width)) == n
  {
    if width > 0 {
      FixedDigitsValue(n / 10, width - 1);
      assert FixedDigits(n, width)[..width - 1] == FixedDigits(n / 10, width - 1);
    }
  }

  lemma {:induction false} DigitsAreFixed(s: bytes)
    requires AllDigits(s)
    ensures Value(s) < Pow10(|s|) && FixedDigits(Value(s), |s|) == s
  {
    if s != [] {
      DigitsAreFixed(s[..|s| - 1]);
      assert s == s[..|s| - 1] + [s[|s| - 1]];
    }
  }

  lemma PowersOfTen()
    ensures Pow10(1) == 10 && Pow10(2) == 100 && Pow10(3) == 1000 && Pow10(4) == 10_000
  {
  }

  // A field of fixed width reads as the number it was written from, and only so.
  lemma FieldReads(s: bytes, n: nat)
    ensures n < Pow10(|s|) ==> (ParseDigits(s) == Some(n) <==> s == FixedDigits(n, |s|))
    ensures ParseDigits(s) == Some(n) ==> n < Pow10(|s|)
  {
    ParsedIsValue(s);
    if n < Pow10(|s|) {
      FixedDigitsValue(n, |s|);
    }
    if AllDigits(s) {
      DigitsAreFixed(s);
    }
  }

  // ---- RFC 1123 dates ----

  function MonthFrom(name: bytes, month: int): Option<nat>
    requires 1 <= month <= 13
    decreases 13 - month
  {
    if month == 13 then None
    else if MonthName(month) == name then Some(month)
    else MonthFrom(name, month + 1)
  }

  lemma MonthNamesDiffer(a: int, b: int)
    requires 1 <= a <= 12 && 1 <= b <= 12 && MonthName(a) == MonthName(b)
    ensures a == b
  {
    assert MonthNumber(MonthName(a)) == MonthNumber(MonthName(b));
  }

  function MonthNumber(name: bytes): int
    requires |name| == 3
  {
    var a: int, b: int, c: int := name[0], name[1], name[2];
    a + 256 * b + 65_536 * c
  }

  lemma {:induction false} MonthFromRange(name: bytes, start: int)
    requires 1 <= start <= 13
    ensures MonthFrom(name, start).Some? ==> start <= MonthFrom(name, start).value <= 12
    decreases 13 - start
  {
    hide MonthName;
    if start < 13 && MonthName(start) != name {
      MonthFromRange(name, start + 1);
    }
  }

  lemma {:induction false} MonthFromFinds(name: bytes, start: int, month: nat)
    requires 1 <= start <= 13 && start <= month <= 12
    ensures MonthFrom(name, start) == Some(month) <==> name == MonthName(month)
    decreases 13 - start
  {
    hide MonthName;
    if start == month {
      MonthFromRange(name, start + 1);
    } else if MonthName(start) == name {
      if name == MonthName(month) {
        MonthNamesDiffer(start, month);
      }
    } else {
      MonthFromFinds(name, start + 1, month);
    }
  }

  datatype Fields = Fields(weekday: bytes, date: Date, clock: Clock)

  predicate HttpShape(v: bytes) {
    && |v| == 29
    && v[3] == ',' as int && v[4] == ' ' as int
    && v[7] == ' ' as int && v[11] == ' ' as int && v[16] == ' ' as int
    && v[19] == ':' as int && v[22] == ':' as int
    && v[25..] == GMT
  }

  predicate InRange(date: Date, clock: Clock) {
    1 <= date.day <= 31 && clock.hour <= 23 && clock.minute <= 59 && clock.second <= 60
  }

  function HttpFields(v: bytes): Option<Fields> {
    if !HttpShape(v) then None
    else
      var day, month, year := ParseDigits(v[5..7]), MonthFrom(v[8..11], 1), ParseDigits(v[12..16]);
      var hour, minute, second := ParseDigits(v[17..19]), ParseDigits(v[20..22]), ParseDigits(v[23..25]);
      if day == None || month == None || year == None || hour == None || minute == None || second == None then None
      else
        var date := Date(year.value, month.value, day.value);
        var clock := Clock(hour.value, minute.value, second.value);
        if InRange(date, clock) then Some(Fields(v[..3], date, clock)) else None
  }

  function SecondsOf(date: Date, clock: Clock): int {
    DaysFromCivil(date) * 86_400 + (clock.hour * 3600 + clock.minute * 60 + clock.second)
  }

  function HttpDateMs(v: bytes): Option<nat> {
    match HttpFields(v)
    case None => None
    case Some(f) =>
      var seconds := SecondsOf(f.date, f.clock);
      if seconds < 0 then None else Some(seconds * 1000)
  }

  // What the fields of a date allow, so that none of the source's checked operations overflows.
  predicate Readable(f: Fields) {
    && |f.weekday| == 3 && 0 <= f.date.year <= 9999 && 1 <= f.date.month <= 12
    && InRange(f.date, f.clock)
  }

  lemma YearsAtTheEnds()
    ensures YearStart(9999) == 3_652_059 && YearStart(9998) == 3_651_694 && YearStart(-1) == -366
  {
  }

  lemma SecondsAreBounded(f: Fields)
    requires Readable(f)
    ensures -62_167_219_200 - 31_622_400 <= SecondsOf(f.date, f.clock) <= MAX_UNIX_SECONDS + 1
  {
    hide DaysFromCivil, YearStart;
    DaysAreSums(f.date);
    var year := ShiftedYear(f.date);
    YearsAtTheEnds();
    YearsGrow(-1, year);
    YearsGrow(year, 9999);
    YearsGrow(year, 9998);
  }

  // The reader and the writer have the same fields.
  lemma FieldsAreWritten(v: bytes, f: Fields)
    requires Readable(f)
    ensures HttpFields(v) == Some(f) <==> v == HttpDate(f.weekday, f.date, f.clock)
  {
    hide ParseDigits, FixedDigits, MonthName, MonthFrom;
    PowersOfTen();
    if v == HttpDate(f.weekday, f.date, f.clock) {
      Parts(f);
    }
    if HttpShape(v) {
      FieldReads(v[5..7], f.date.day);
      FieldReads(v[12..16], f.date.year);
      FieldReads(v[17..19], f.clock.hour);
      FieldReads(v[20..22], f.clock.minute);
      FieldReads(v[23..25], f.clock.second);
      MonthFromFinds(v[8..11], 1, f.date.month);
      Whole(v);
    }
  }

  // The parts of a date.
  lemma Parts(f: Fields)
    requires Readable(f)
    ensures var v := HttpDate(f.weekday, f.date, f.clock);
      && HttpShape(v) && v[..3] == f.weekday && v[5..7] == FixedDigits(f.date.day, 2)
      && v[8..11] == MonthName(f.date.month) && v[12..16] == FixedDigits(f.date.year, 4)
      && v[17..19] == FixedDigits(f.clock.hour, 2) && v[20..22] == FixedDigits(f.clock.minute, 2)
      && v[23..25] == FixedDigits(f.clock.second, 2)
  {
    hide FixedDigits, MonthName;
  }

  lemma Whole(v: bytes)
    requires HttpShape(v)
    ensures v == v[..3] + COMMA + v[5..7] + BLANK + v[8..11] + BLANK + v[12..16] + BLANK + v[17..19] + COLON
               + v[20..22] + COLON + v[23..25] + GMT
  {
  }

  lemma ReadIsReadable(v: bytes)
    ensures HttpFields(v).Some? ==> Readable(HttpFields(v).value)
  {
    hide ParseDigits, MonthFrom;
    PowersOfTen();
    if HttpShape(v) && ParseDigits(v[12..16]).Some? {
      FieldReads(v[12..16], ParseDigits(v[12..16]).value);
      MonthFromRange(v[8..11], 1);
    }
  }

  // ---- What the reader gives ----

  // The fields of an instant's own text.
  function FieldsOf(seconds: nat): Fields
    requires seconds <= MAX_UNIX_SECONDS
  {
    Fields(WeekdayName(Weekday(seconds / DAY)), Calendar(seconds / DAY), ClockAt(seconds % DAY))
  }

  lemma FieldsOfInstant(seconds: nat)
    requires seconds <= MAX_UNIX_SECONDS
    ensures var f := FieldsOf(seconds);
      && Readable(f) && SecondsOf(f.date, f.clock) == seconds
      && TimestampsOf(seconds).rfc1123 == HttpDate(f.weekday, f.date, f.clock)
      && TimestampsOf(seconds).iso8601 == BasicDate(f.date, f.clock)
  {
    hide Calendar, Weekday, WeekdayName, DaysFromCivil, HttpDate, BasicDate;
    CalendarCounts(seconds / DAY);
    DaysFromEpoch(Calendar(seconds / DAY));
  }

  // A date that this program writes reads back as its instant.
  lemma HttpDateReadsBack(seconds: nat)
    ensures HttpDateMs(TimestampsOf(seconds).rfc1123) == Some(Min(seconds, MAX_UNIX_SECONDS) * 1000)
  {
    hide HttpFields, HttpDate, FieldsOf, Readable, TimestampsOf;
    var unix := Min(seconds, MAX_UNIX_SECONDS);
    ClampedAlike(seconds);
    FieldsOfInstant(unix);
    FieldsAreWritten(TimestampsOf(unix).rfc1123, FieldsOf(unix));
  }

  lemma ClampedAlike(seconds: nat)
    ensures TimestampsOf(seconds) == TimestampsOf(Min(seconds, MAX_UNIX_SECONDS))
  {
  }

  // The text names a day that exists, with its day of the week, and no leap second.
  predicate IsProper(f: Fields)
    requires f.date.year >= 1970
  {
    && IsDate(f.date) && IsClock(f.clock)
    && (DateOfDays(f.date); f.weekday == WeekdayName(Weekday(DaysFromCivil(f.date))))
  }

  // The reader takes dates that do not exist, such as the 31st of February, and any day of the
  // week. A text that it reads is the text of the instant it gives exactly when it is a proper one.
  lemma ReadThenWritten(v: bytes)
    requires HttpDateMs(v).Some?
    ensures HttpFields(v).Some?
    ensures HttpDateMs(v).value == 1000 * SecondsOf(HttpFields(v).value.date, HttpFields(v).value.clock)
    ensures TimestampsOf(HttpDateMs(v).value / 1000).rfc1123 == v
       <==> HttpFields(v).value.date.year >= 1970 && IsProper(HttpFields(v).value)
  {
    hide HttpFields, HttpDate, Readable, TimestampsOf, Calendar, Weekday, DaysFromCivil, FieldsOf, IsProper;
    var f := HttpFields(v).value;
    var seconds: nat := SecondsOf(f.date, f.clock);
    ReadIsReadable(v);
    SecondsAreBounded(f);
    FieldsAreWritten(v, f);
    if f.date.year >= 1970 && IsProper(f) {
      ProperFields(f);
    }
    if seconds <= MAX_UNIX_SECONDS {
      FieldsOfInstant(seconds);
      FieldsAreWritten(v, FieldsOf(seconds));
      InstantIsProper(seconds);
    } else {
      ClampedAlike(seconds);
      FieldsOfInstant(MAX_UNIX_SECONDS);
      FieldsAreWritten(v, FieldsOf(MAX_UNIX_SECONDS));
    }
  }

  lemma ProperFields(f: Fields)
    requires Readable(f) && f.date.year >= 1970 && IsProper(f)
    ensures var seconds := SecondsOf(f.date, f.clock);
      0 <= seconds <= MAX_UNIX_SECONDS && FieldsOf(seconds) == f
  {
    hide DaysFromCivil, Calendar, Weekday;
    DateOfDays(f.date);
    DaysFromEpoch(f.date);
    var seconds := SecondsOf(f.date, f.clock);
    assert seconds / DAY == DaysFromCivil(f.date);
    assert seconds % DAY == f.clock.hour * 3600 + f.clock.minute * 60 + f.clock.second;
  }

  lemma InstantIsProper(seconds: nat)
    requires seconds <= MAX_UNIX_SECONDS
    ensures FieldsOf(seconds).date.year >= 1970 && IsProper(FieldsOf(seconds))
  {
    hide DaysFromCivil, Weekday;
    CalendarCounts(seconds / DAY);
  }

  // The 31st of February 2013 is read as the 3rd of March.
  lemma ReadsDaysThatDoNotExist()
    ensures var noon := Clock(12, 0, 0);
      HttpDateMs(HttpDate(Name('S', 'u', 'n'), Date(2013, 2, 31), noon))
      == HttpDateMs(HttpDate(Name('S', 'u', 'n'), Date(2013, 3, 3), noon)) != None
  {
    hide HttpFields, HttpDate, Name, DaysFromCivil;
    DaysInMarch();
    var noon := Clock(12, 0, 0);
    var f := Fields(Name('S', 'u', 'n'), Date(2013, 2, 31), noon);
    var g := Fields(Name('S', 'u', 'n'), Date(2013, 3, 3), noon);
    FieldsAreWritten(HttpDate(f.weekday, f.date, f.clock), f);
    FieldsAreWritten(HttpDate(g.weekday, g.date, g.clock), g);
  }

  lemma DaysInMarch()
    ensures DaysFromCivil(Date(2013, 2, 31)) == DaysFromCivil(Date(2013, 3, 3)) > 0
  {
  }

  // ---- ISO 8601 dates of listings ----

  const DOT: byte := '.' as int
  const LETTER_Z: byte := 'Z' as int

  predicate IsoShape(v: bytes) {
    && |v| >= 20
    && v[4] == '-' as int && v[7] == '-' as int && v[10] == 'T' as int
    && v[13] == ':' as int && v[16] == ':' as int
    && v[|v| - 1] == LETTER_Z
  }

  // The first three of some digits, and zeros after fewer.
  function FirstThree(digits: bytes): (three: bytes)
    requires AllDigits(digits)
    ensures AllDigits(three) && |three| == 3
  {
    (digits + [ZERO, ZERO, ZERO])[..3]
  }

  function Millis(fraction: bytes): Option<nat> {
    if fraction == [] then Some(0)
    else if fraction[0] == DOT && |fraction| > 1 && AllDigits(fraction[1..]) then
      Some(Value(FirstThree(fraction[1..])))
    else None
  }

  // What an ISO 8601 date states: its fraction is what stands between the seconds and the `Z`.
  datatype IsoFields = IsoFields(date: Date, clock: Clock, fraction: bytes)

  function IsoFieldsOf(v: bytes): Option<IsoFields> {
    if !IsoShape(v) then None
    else
      var year, month, day := ParseDigits(v[..4]), ParseDigits(v[5..7]), ParseDigits(v[8..10]);
      var hour, minute, second := ParseDigits(v[11..13]), ParseDigits(v[14..16]), ParseDigits(v[17..19]);
      var fraction := v[19..|v| - 1];
      if year == None || month == None || day == None || hour == None || minute == None || second == None
         || Millis(fraction) == None then None
      else
        var date := Date(year.value, month.value, day.value);
        var clock := Clock(hour.value, minute.value, second.value);
        if 1 <= date.month <= 12 && InRange(date, clock) then Some(IsoFields(date, clock, fraction)) else None
  }

  function IsoMs(v: bytes): Option<nat> {
    match IsoFieldsOf(v)
    case None => None
    case Some(f) =>
      var seconds := SecondsOf(f.date, f.clock);
      if seconds < 0 || Millis(f.fraction) == None then None
      else Some(seconds * 1000 + Millis(f.fraction).value)
  }

  // `YYYY-MM-DDTHH:MM:SS`, a fraction and `Z`.
  function IsoText(date: Date, clock: Clock, fraction: bytes): bytes
    requires date.year >= 0 && date.month >= 0 && date.day >= 0
  {
    FixedDigits(date.year, 4) + ['-' as int] + FixedDigits(date.month, 2) + ['-' as int] + FixedDigits(date.day, 2)
    + ['T' as int] + FixedDigits(clock.hour, 2) + COLON + FixedDigits(clock.minute, 2) + COLON
    + FixedDigits(clock.second, 2) + fraction + [LETTER_Z]
  }

  // A fraction of a second, cut to the millisecond.
  function CutMillis(digits: bytes): nat
    requires AllDigits(digits)
  {
    Arithmetic.Divided(Value(digits) * 1000, Pow10(|digits|))
  }

  lemma MillisAreTheFraction(digits: bytes)
    requires digits != [] && AllDigits(digits)
    ensures Millis([DOT] + digits) == Some(CutMillis(digits))
  {
    hide Value, Pow10, CutMillis;
    assert ([DOT] + digits)[1..] == digits;
    if |digits| <= 2 {
      ShortFraction(digits);
    } else {
      LongFraction(digits);
    }
  }

  // A fraction is nothing, or a point and digits.
  lemma FractionsAre(fraction: bytes)
    ensures Millis(fraction).Some?
       <==> fraction == [] || exists digits :: digits != [] && AllDigits(digits) && fraction == [DOT] + digits
  {
    hide Value;
    if Millis(fraction).Some? && fraction != [] {
      assert fraction == [DOT] + fraction[1..];
    }
    forall digits | digits != [] && AllDigits(digits) && fraction == [DOT] + digits ensures Millis(fraction).Some? {
      assert fraction[1..] == digits;
    }
  }

  lemma ShortFraction(digits: bytes)
    requires 1 <= |digits| <= 2 && AllDigits(digits)
    ensures Value(FirstThree(digits)) == CutMillis(digits)
  {
    hide Value, Pow10;
    PowersOfTen();
    OneDigitMore(digits, ZERO);
    var v := Value(digits);
    if |digits| == 1 {
      assert FirstThree(digits) == digits + [ZERO] + [ZERO];
      OneDigitMore(digits + [ZERO], ZERO);
      assert v * 1000 / 10 == 100 * v;
    } else {
      assert FirstThree(digits) == digits + [ZERO];
      assert v * 1000 / 100 == 10 * v;
    }
  }

  lemma LongFraction(digits: bytes)
    requires |digits| >= 3 && AllDigits(digits)
    ensures Value(FirstThree(digits)) == CutMillis(digits)
  {
    hide Value, Pow10;
    PowersOfTen();
    assert FirstThree(digits) == digits[..3] && digits == digits[..3] + digits[3..];
    ValueInTwo(digits[..3], digits[3..]);
    DigitsAreFixed(digits[3..]);
    PowersAdd(3, |digits| - 3);
    CutFraction(Value(digits[..3]), Value(digits[3..]), Pow10(|digits| - 3));
  }

  lemma CutFraction(a: nat, b: nat, p: nat)
    requires b < p
    ensures (a * p + b) * 1000 / (1000 * p) == a
  {
    assert (a * p + b) * 1000 == a * (1000 * p) + b * 1000;
    Arithmetic.Quotient((a * p + b) * 1000, 1000 * p, a, b * 1000);
  }

  lemma {:induction false} ValueInTwo(a: bytes, b: bytes)
    requires AllDigits(a) && AllDigits(b)
    ensures Value(a + b) == Value(a) * Pow10(|b|) + Value(b)
    decreases |b|
  {
    hide Value, Pow10;
    if b == [] {
      assert a + b == a;
      NoDigitsValue();
    } else {
      var init, last := b[..|b| - 1], b[|b| - 1];
      ValueInTwo(a, init);
      assert b == init + [last] && a + b == (a + init) + [last];
      OneDigitMore(init, last);
      OneDigitMore(a + init, last);
      NextPower(|init|);
      TenTimes(Value(a), Pow10(|init|));
    }
  }

  lemma NoDigitsValue()
    ensures Value([]) == 0 && Pow10(0) == 1
  {
  }

  lemma NextPower(k: nat)
    ensures Pow10(k + 1) == 10 * Pow10(k)
  {
  }

  lemma TenTimes(m: nat, n: nat)
    ensures m * (10 * n) == 10 * (m * n)
  {
  }

  lemma {:induction false} PowersAdd(j: nat, k: nat)
    ensures Pow10(j + k) == Pow10(j) * Pow10(k)
  {
    if j > 0 {
      PowersAdd(j - 1, k);
    }
  }

  // The text of an instant, with any fraction, reads as the instant to the millisecond.
  lemma IsoDateReads(seconds: nat, digits: bytes)
    requires seconds <= MAX_UNIX_SECONDS && AllDigits(digits)
    ensures var f := FieldsOf(seconds);
      IsoMs(IsoText(f.date, f.clock, if digits == [] then [] else [DOT] + digits))
      == Some(seconds * 1000 + CutMillis(digits))
  {
    hide IsoMs, IsoText, FieldsOf, Millis, Readable, CutMillis;
    FieldsOfInstant(seconds);
    if digits == [] {
      NoFraction();
      IsoFieldsRead(FieldsOf(seconds), [], 0);
    } else {
      MillisAreTheFraction(digits);
      IsoFieldsRead(FieldsOf(seconds), [DOT] + digits, CutMillis(digits));
    }
  }

  lemma NoFraction()
    ensures Millis([]) == Some(0) && CutMillis([]) == 0
  {
  }

  // The weekday plays no part in an ISO 8601 date.
  function Unnamed(f: IsoFields): Fields { Fields(Name('S', 'u', 'n'), f.date, f.clock) }

  lemma IsoFieldsRead(f: Fields, fraction: bytes, millis: nat)
    requires Readable(f) && Millis(fraction) == Some(millis) && SecondsOf(f.date, f.clock) >= 0
    ensures IsoMs(IsoText(f.date, f.clock, fraction)) == Some(SecondsOf(f.date, f.clock) * 1000 + millis)
  {
    hide IsoFieldsOf, IsoText, Millis, SecondsOf, Name;
    IsoFieldsAreWritten(IsoText(f.date, f.clock, fraction), IsoFields(f.date, f.clock, fraction));
  }

  // Fields are read from a text exactly if it is what they write.
  lemma IsoFieldsAreWritten(v: bytes, f: IsoFields)
    requires Readable(Unnamed(f)) && Millis(f.fraction).Some?
    ensures IsoFieldsOf(v) == Some(f) <==> v == IsoText(f.date, f.clock, f.fraction)
  {
    hide ParseDigits, FixedDigits, Millis, Name;
    PowersOfTen();
    if v == IsoText(f.date, f.clock, f.fraction) {
      IsoParts(Unnamed(f), f.fraction);
    }
    if IsoShape(v) {
      FieldReads(v[..4], f.date.year);
      FieldReads(v[5..7], f.date.month);
      FieldReads(v[8..10], f.date.day);
      FieldReads(v[11..13], f.clock.hour);
      FieldReads(v[14..16], f.clock.minute);
      FieldReads(v[17..19], f.clock.second);
      IsoWhole(v);
    }
  }

  lemma IsoWhole(v: bytes)
    requires IsoShape(v)
    ensures v == v[..4] + ['-' as int] + v[5..7] + ['-' as int] + v[8..10] + ['T' as int] + v[11..13] + COLON
               + v[14..16] + COLON + v[17..19] + v[19..|v| - 1] + [LETTER_Z]
  {
  }

  lemma IsoReadIsReadable(v: bytes)
    ensures IsoFieldsOf(v).Some? ==>
              Readable(Unnamed(IsoFieldsOf(v).value)) && Millis(IsoFieldsOf(v).value.fraction).Some?
  {
    hide ParseDigits, Millis, Name;
    PowersOfTen();
    if IsoShape(v) && ParseDigits(v[..4]).Some? {
      FieldReads(v[..4], ParseDigits(v[..4]).value);
    }
  }

  lemma MillisAreFew(fraction: bytes)
    ensures Millis(fraction).Some? ==> Millis(fraction).value < 1000
  {
    hide Value, Pow10;
    PowersOfTen();
    if fraction != [] && AllDigits(fraction[1..]) {
      DigitsAreFixed(FirstThree(fraction[1..]));
    }
  }

  // The text of an instant with a fraction. An instant after the year 9999 is its end.
  function IsoTextAt(seconds: nat, fraction: bytes): bytes {
    var f := FieldsOf(Min(seconds, MAX_UNIX_SECONDS));
    IsoText(f.date, f.clock, fraction)
  }

  // This reader too takes days that no month has, and leap seconds. A text that it reads is that of
  // the instant it gives, with the text's own fraction, exactly if the day and the time exist.
  lemma IsoReadThenWritten(v: bytes)
    requires IsoMs(v).Some?
    ensures IsoFieldsOf(v).Some?
    ensures IsoMs(v).value / 1000 == SecondsOf(IsoFieldsOf(v).value.date, IsoFieldsOf(v).value.clock)
    ensures
      var f := IsoFieldsOf(v).value;
      IsoTextAt(IsoMs(v).value / 1000, f.fraction) == v <==> IsDate(f.date) && IsClock(f.clock)
  {
    hide IsoFieldsOf, IsoText, Millis, Readable, Calendar, DaysFromCivil, FieldsOf, IsDate, IsClock, Name;
    var f := IsoFieldsOf(v).value;
    var seconds: nat := SecondsOf(f.date, f.clock);
    IsoReadIsReadable(v);
    SecondsAreBounded(Unnamed(f));
    MillisAreFew(f.fraction);
    assert IsoMs(v).value / 1000 == seconds;
    var at := FieldsOf(Min(seconds, MAX_UNIX_SECONDS));
    FieldsOfInstant(Min(seconds, MAX_UNIX_SECONDS));
    NoWeekdayIsRead(at, f.fraction);
    IsoFieldsAreWritten(v, IsoFields(at.date, at.clock, f.fraction));
    if IsDate(f.date) && IsClock(f.clock) {
      ProperMoment(f);
    }
    InstantExists(Min(seconds, MAX_UNIX_SECONDS));
  }

  lemma NoWeekdayIsRead(f: Fields, fraction: bytes)
    requires Readable(f)
    ensures Readable(Unnamed(IsoFields(f.date, f.clock, fraction)))
  {
  }

  lemma ProperMoment(f: IsoFields)
    requires Readable(Unnamed(f)) && IsDate(f.date) && IsClock(f.clock) && SecondsOf(f.date, f.clock) >= 0
    ensures SecondsOf(f.date, f.clock) <= MAX_UNIX_SECONDS
    ensures FieldsOf(SecondsOf(f.date, f.clock)).date == f.date && FieldsOf(SecondsOf(f.date, f.clock)).clock == f.clock
  {
    hide DaysFromCivil, Calendar, Weekday, WeekdayName, IsDate, Name;
    DaysFromEpoch(f.date);
    DateOfDays(f.date);
    var g := Fields(WeekdayName(Weekday(DaysFromCivil(f.date))), f.date, f.clock);
    ProperFields(g);
  }

  lemma InstantExists(seconds: nat)
    requires seconds <= MAX_UNIX_SECONDS
    ensures IsDate(FieldsOf(seconds).date) && IsClock(FieldsOf(seconds).clock)
  {
    InstantIsProper(seconds);
  }

  // The 31st of February is read as the 3rd of March, and a leap second as the next minute.
  lemma IsoReadsWhatDoesNotExist()
    ensures IsoMs(IsoText(Date(2013, 2, 31), Clock(12, 0, 0), []))
         == IsoMs(IsoText(Date(2013, 3, 3), Clock(12, 0, 0), [])) != None
    ensures IsoMs(IsoText(Date(2013, 3, 3), Clock(12, 0, 60), []))
         == IsoMs(IsoText(Date(2013, 3, 3), Clock(12, 1, 0), [])) != None
  {
    hide IsoMs, IsoText, Millis, Name, DaysFromCivil;
    NoFraction();
    DaysInMarch();
    var sunday := Name('S', 'u', 'n');
    IsoFieldsRead(Fields(sunday, Date(2013, 2, 31), Clock(12, 0, 0)), [], 0);
    IsoFieldsRead(Fields(sunday, Date(2013, 3, 3), Clock(12, 0, 0)), [], 0);
    IsoFieldsRead(Fields(sunday, Date(2013, 3, 3), Clock(12, 0, 60)), [], 0);
    IsoFieldsRead(Fields(sunday, Date(2013, 3, 3), Clock(12, 1, 0)), [], 0);
  }

  lemma IsoParts(f: Fields, fraction: bytes)
    requires Readable(f)
    ensures var v := IsoText(f.date, f.clock, fraction);
      && IsoShape(v) && v[..4] == FixedDigits(f.date.year, 4) && v[5..7] == FixedDigits(f.date.month, 2)
      && v[8..10] == FixedDigits(f.date.day, 2) && v[11..13] == FixedDigits(f.clock.hour, 2)
      && v[14..16] == FixedDigits(f.clock.minute, 2) && v[17..19] == FixedDigits(f.clock.second, 2)
      && v[19..|v| - 1] == fraction
  {
    hide FixedDigits;
  }

  // ---- The order of the dates that requests carry ----

  // The order in which byte strings of one length are sorted.
  predicate Before(a: bytes, b: bytes)
    requires |a| == |b|
  {
    a != [] && (a[0] < b[0] || (a[0] == b[0] && Before(a[1..], b[1..])))
  }

  lemma {:induction false} BeforeInTwo(a: bytes, b: bytes, x: bytes, y: bytes)
    requires |a| == |b| && |x| == |y|
    ensures Before(a + x, b + y) <==> Before(a, b) || (a == b && Before(x, y))
    decreases |a|
  {
    if a == [] {
      assert a + x == x && b + y == y;
    } else {
      BeforeInTwo(a[1..], b[1..], x, y);
      assert (a + x)[1..] == a[1..] + x && (b + y)[1..] == b[1..] + y;
      assert a == b <==> a[0] == b[0] && a[1..] == b[1..];
    }
  }

  lemma {:induction false} DigitsAreOrdered(m: nat, n: nat, width: nat)
    requires m < Pow10(width) && n < Pow10(width)
    ensures Before(FixedDigits(m, width), FixedDigits(n, width)) <==> m < n
    ensures FixedDigits(m, width) == FixedDigits(n, width) <==> m == n
    decreases width
  {
    if width > 0 {
      DigitsAreOrdered(m / 10, n / 10, width - 1);
      BeforeInTwo(FixedDigits(m / 10, width - 1), FixedDigits(n / 10, width - 1), [ZERO + m % 10], [ZERO + n % 10]);
      FixedDigitsValue(m, width);
      FixedDigitsValue(n, width);
    }
  }

  lemma {:induction false} DigitsInTwo(high: nat, low: nat, j: nat, k: nat)
    requires low < Pow10(k)
    ensures FixedDigits(high * Pow10(k) + low, j + k) == FixedDigits(high, j) + FixedDigits(low, k)
    decreases k
  {
    if k == 0 {
      assert FixedDigits(high, j) + [] == FixedDigits(high, j);
    } else {
      var p := high * Pow10(k - 1);
      assert high * Pow10(k) == 10 * p;
      DigitsInTwo(high, low / 10, j, k - 1);
      assert (10 * p + low) / 10 == p + low / 10 && (10 * p + low) % 10 == low % 10;
    }
  }

  // A date as a number of eight digits.
  function DateNumber(date: Date): int { date.year * 10_000 + date.month * 100 + date.day }

  // A time of day as one of six.
  function ClockNumber(clock: Clock): nat { clock.hour * 10_000 + clock.minute * 100 + clock.second }

  lemma {:induction false} DatesAreOrdered(m: nat, n: nat)
    requires m < n
    ensures DateNumber(Calendar(m)) < DateNumber(Calendar(n))
    decreases n
  {
    if m < n - 1 {
      DatesAreOrdered(m, n - 1);
    }
  }

  lemma ClocksAreOrdered(m: nat, n: nat)
    requires m < n < DAY
    ensures ClockNumber(ClockAt(m)) < ClockNumber(ClockAt(n))
  {
    var a, b := ClockAt(m), ClockAt(n);
    if a.hour == b.hour {
      assert a.minute * 60 + a.second < b.minute * 60 + b.second;
    }
  }

  lemma BasicDateDigits(f: Fields)
    requires Readable(f)
    ensures BasicDate(f.date, f.clock)
         == NumbersText(DateNumber(f.date), ClockNumber(f.clock))
  {
    hide FixedDigits;
    PowersOfTen();
    DigitsInTwo(f.date.year, f.date.month, 4, 2);
    DigitsInTwo(f.date.year * 100 + f.date.month, f.date.day, 6, 2);
    DigitsInTwo(f.clock.hour, f.clock.minute, 2, 2);
    DigitsInTwo(f.clock.hour * 100 + f.clock.minute, f.clock.second, 4, 2);
  }

  // The texts of two instants sort as the instants do.
  lemma TextOrderIsTimeOrder(a: nat, b: nat)
    ensures Before(TimestampsOf(a).iso8601, TimestampsOf(b).iso8601)
       <==> Min(a, MAX_UNIX_SECONDS) < Min(b, MAX_UNIX_SECONDS)
  {
    hide TimestampsOf, FieldsOf, BasicDate, Readable;
    var m, n := Min(a, MAX_UNIX_SECONDS), Min(b, MAX_UNIX_SECONDS);
    ClampedAlike(a);
    ClampedAlike(b);
    FieldsOfInstant(m);
    FieldsOfInstant(n);
    BasicDateDigits(FieldsOf(m));
    BasicDateDigits(FieldsOf(n));
    NumbersAreOrdered(m, n);
  }

  lemma NumbersAreOrdered(m: nat, n: nat)
    requires m <= MAX_UNIX_SECONDS && n <= MAX_UNIX_SECONDS
    requires Readable(FieldsOf(m)) && Readable(FieldsOf(n))
    ensures var f, g := FieldsOf(m), FieldsOf(n);
      Before(NumbersText(DateNumber(f.date), ClockNumber(f.clock)),
             NumbersText(DateNumber(g.date), ClockNumber(g.clock)))
      <==> m < n
  {
    hide FieldsOf, Before, NumbersText;
    var f, g := FieldsOf(m), FieldsOf(n);
    TextsAreOrdered(DateNumber(f.date), ClockNumber(f.clock), DateNumber(g.date), ClockNumber(g.clock));
    DaysThenClocks(m, n);
    DaysThenClocks(n, m);
  }

  function NumbersText(date: nat, clock: nat): (s: bytes)
    ensures |s| == 16
  {
    FixedDigits(date, 8) + ['T' as int] + FixedDigits(clock, 6) + [LETTER_Z]
  }

  lemma TextsAreOrdered(d: nat, c: nat, e: nat, k: nat)
    requires d < 100_000_000 && e < 100_000_000 && c < 1_000_000 && k < 1_000_000
    ensures Before(NumbersText(d, c), NumbersText(e, k)) <==> d < e || (d == e && c < k)
  {
    hide FixedDigits, Before;
    assert Pow10(6) == 1_000_000 && Pow10(8) == 100_000_000 by { PowersOfTen(); }
    DigitsAreOrdered(d, e, 8);
    DigitsAreOrdered(c, k, 6);
    var x, y := FixedDigits(d, 8) + ['T' as int], FixedDigits(e, 8) + ['T' as int];
    BeforeInTwo(FixedDigits(d, 8), FixedDigits(e, 8), ['T' as int], ['T' as int]);
    BeforeInTwo(x, y, FixedDigits(c, 6), FixedDigits(k, 6));
    BeforeInTwo(x + FixedDigits(c, 6), y + FixedDigits(k, 6), [LETTER_Z], [LETTER_Z]);
    NotBefore('T' as int);
    NotBefore(LETTER_Z);
    assert d != e ==> x != y by {
      assert x[..8] == FixedDigits(d, 8) && y[..8] == FixedDigits(e, 8);
    }
  }

  lemma NotBefore(b: byte)
    ensures !Before([b], [b])
  {
  }

  lemma DaysThenClocks(m: nat, n: nat)
    requires m <= MAX_UNIX_SECONDS && n <= MAX_UNIX_SECONDS
    ensures var f, g := FieldsOf(m), FieldsOf(n);
      var d, e := DateNumber(f.date), DateNumber(g.date);
      m < n ==> d < e || (d == e && ClockNumber(f.clock) < ClockNumber(g.clock))
  {
    hide Calendar, Weekday;
    if m < n {
      if m / DAY < n / DAY {
        DatesAreOrdered(m / DAY, n / DAY);
      } else {
        ClocksAreOrdered(m % DAY, n % DAY);
      }
    }
  }
}
