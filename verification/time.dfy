/** The texts of an instant in request headers, and the instants of texts in responses. */
module Times {
  import opened Bytes
  import opened Calendars
  import opened Numbers

  const MAX_UNIX_SECONDS: nat := 253_402_300_799
  const DAY: nat := 86_400

  // ---- The texts of an instant ----

  // The last `width` decimal digits of `n`, with leading zeros.
  function FixedDigits(n: nat, width: nat): (s: bytes)
    ensures |s| == width && AllDigits(s)
  {
    if width == 0 then [] else FixedDigits(n / 10, width - 1) + [ZERO + n % 10]
  }

  function Name(a: char, b: char, c: char): (name: bytes)
    ensures |name| == 3
  {
    [a as int % 256, b as int % 256, c as int % 256]
  }

  function WeekdayName(weekday: nat): (name: bytes)
    requires weekday < 7
    ensures |name| == 3
  {
    if weekday == 0 then Name('S', 'u', 'n')
    else if weekday == 1 then Name('M', 'o', 'n')
    else if weekday == 2 then Name('T', 'u', 'e')
    else if weekday == 3 then Name('W', 'e', 'd')
    else if weekday == 4 then Name('T', 'h', 'u')
    else if weekday == 5 then Name('F', 'r', 'i')
    else Name('S', 'a', 't')
  }

  function MonthName(month: int): (name: bytes)
    requires 1 <= month <= 12
    ensures |name| == 3
  {
    if month == 1 then Name('J', 'a', 'n')
    else if month == 2 then Name('F', 'e', 'b')
    else if month == 3 then Name('M', 'a', 'r')
    else if month == 4 then Name('A', 'p', 'r')
    else if month == 5 then Name('M', 'a', 'y')
    else if month == 6 then Name('J', 'u', 'n')
    else if month == 7 then Name('J', 'u', 'l')
    else if month == 8 then Name('A', 'u', 'g')
    else if month == 9 then Name('S', 'e', 'p')
    else if month == 10 then Name('O', 'c', 't')
    else if month == 11 then Name('N', 'o', 'v')
    else Name('D', 'e', 'c')
  }

  // A time of day.
  datatype Clock = Clock(hour: nat, minute: nat, second: nat)

  predicate IsClock(clock: Clock) {
    clock.hour < 24 && clock.minute < 60 && clock.second < 60
  }

  function ClockAt(second: nat): (clock: Clock)
    requires second < DAY
    ensures IsClock(clock) && second == clock.hour * 3600 + clock.minute * 60 + clock.second
  {
    Clock(second / 3600, second % 3600 / 60, second % 60)
  }

  const COMMA: bytes := [',' as int, ' ' as int]
  const COLON: bytes := [':' as int]
  const BLANK: bytes := [' ' as int]
  const GMT: bytes := [' ' as int, 'G' as int, 'M' as int, 'T' as int]

  // `Www, DD Mon YYYY HH:MM:SS GMT`, section 5.2.14 of RFC 1123.
  function HttpDate(weekday: bytes, date: Date, clock: Clock): (s: bytes)
    requires |weekday| == 3 && 1 <= date.month <= 12 && date.day >= 0 && date.year >= 0
    ensures |s| == 29
  {
    weekday + COMMA + FixedDigits(date.day, 2) + BLANK + MonthName(date.month) + BLANK
    + FixedDigits(date.year, 4) + BLANK + FixedDigits(clock.hour, 2) + COLON + FixedDigits(clock.minute, 2)
    + COLON + FixedDigits(clock.second, 2) + GMT
  }

  // `YYYYMMDDTHHMMSSZ`.
  function BasicDate(date: Date, clock: Clock): (s: bytes)
    requires date.year >= 0 && date.month >= 0 && date.day >= 0
    ensures |s| == 16
  {
    FixedDigits(date.year, 4) + FixedDigits(date.month, 2) + FixedDigits(date.day, 2) + ['T' as int]
    + FixedDigits(clock.hour, 2) + FixedDigits(clock.minute, 2) + FixedDigits(clock.second, 2) + ['Z' as int]
  }

  datatype Timestamps = Timestamps(rfc1123: bytes, iso8601: bytes, unix: nat)

  // The texts of an instant, by the calendar. An instant after the year 9999 is its end.
  function TimestampsOf(seconds: nat): Timestamps {
    var unix := Min(seconds, MAX_UNIX_SECONDS);
    var date, clock := Calendar(unix / DAY), ClockAt(unix % DAY);
    Timestamps(HttpDate(WeekdayName(Weekday(unix / DAY)), date, clock), BasicDate(date, clock), unix)
  }

  // ---- Writing them ----

  // Fills `a[from..to]` with digits, from the last to the first.
  method WriteFixedDigits(a: array<byte>, from: nat, to: nat, n: nat)
    requires from <= to <= a.Length
    modifies a
    ensures a[..] == old(a[..from]) + FixedDigits(n, to - from) + old(a[to..])
  {
    hide FixedDigits;
    ghost var was := a[..];
    var at, value := to, n;
    while at > from
      invariant from <= at <= to
      invariant a[..at] == was[..at] && a[to..] == was[to..]
      invariant FixedDigits(value, at - from) + a[at..to] == FixedDigits(n, to - from)
    {
      ghost var digits, after := FixedDigits(value / 10, at - 1 - from), a[at..to];
      NextDigit(value, at - from);
      WriteDigit(a, at - 1, to, ZERO + value % 10);
      at, value := at - 1, value / 10;
      assert digits + ([a[at]] + after) == (digits + [a[at]]) + after;
    }
    NoDigits(value);
    assert [] + a[from..to] == a[from..to];
    assert a[..] == a[..from] + a[from..to] + a[to..];
  }

  method WriteDigit(a: array<byte>, at: nat, to: nat, digit: byte)
    requires at < to <= a.Length
    modifies a
    ensures a[at] == digit && a[at..to] == [digit] + old(a[at + 1..to])
    ensures a[..at] == old(a[..at]) && a[to..] == old(a[to..])
  {
    a[at] := digit;
  }

  lemma NextDigit(n: nat, width: nat)
    requires width > 0
    ensures FixedDigits(n, width) == FixedDigits(n / 10, width - 1) + [ZERO + n % 10]
  {
  }

  lemma NoDigits(n: nat)
    ensures FixedDigits(n, 0) == []
  {
  }

  method FromUnix(seconds: nat) returns (t: Timestamps)
    requires seconds <= U64_MAX
    ensures t == TimestampsOf(seconds)
  {
    hide Calendar, Civil, FixedDigits, WeekdayName, MonthName;
    var unix := Min(seconds, MAX_UNIX_SECONDS);
    var days, remainder := unix / DAY, unix % DAY;
    var clock := Clock(remainder / 3600, remainder % 3600 / 60, remainder % 60);
    var date := Civil(days);
    CivilIsCalendar(days);
    WeekdayIsRemainder(days);
    var rfc1123 := WriteHttpDate((days + 4) % 7, date, clock);
    var iso8601 := WriteBasicDate(date, clock);
    t := Timestamps(rfc1123, iso8601, unix);
  }

  // Overwrites what follows `prefix` in an array that held `template`: a `piece`, after a `gap`
  // that stays.
  method Put(a: array<byte>, at: nat, piece: bytes, ghost prefix: bytes, ghost gap: bytes, ghost template: bytes)
    returns (ghost longer: bytes)
    requires |prefix| <= at && at + |piece| <= a.Length == |template| && template[|prefix|..at] == gap
    requires a[..] == prefix + template[|prefix|..]
    modifies a
    ensures longer == (if gap == [] then prefix else prefix + gap) + piece
    ensures a[..] == longer + template[|longer|..]
  {
    Paste(a, at, piece);
    longer := (if gap == [] then prefix else prefix + gap) + piece;
  }

  method PutDigits(a: array<byte>, at: nat, width: nat, n: nat, ghost prefix: bytes, ghost gap: bytes,
                   ghost template: bytes)
    returns (ghost longer: bytes)
    requires |prefix| <= at && at + width <= a.Length == |template| && template[|prefix|..at] == gap
    requires a[..] == prefix + template[|prefix|..]
    modifies a
    ensures longer == (if gap == [] then prefix else prefix + gap) + FixedDigits(n, width)
    ensures a[..] == longer + template[|longer|..]
  {
    hide FixedDigits;
    WriteFixedDigits(a, at, at + width, n);
    longer := (if gap == [] then prefix else prefix + gap) + FixedDigits(n, width);
  }

  // `Xxx, 00 Xxx 0000 00:00:00 GMT` and `00000000T000000Z`.
  const HTTP_TEMPLATE: bytes :=
    Name('X', 'x', 'x') + COMMA + Repeated(ZERO, 2) + BLANK + Name('X', 'x', 'x') + BLANK + Repeated(ZERO, 4)
    + BLANK + Repeated(ZERO, 2) + COLON + Repeated(ZERO, 2) + COLON + Repeated(ZERO, 2) + GMT
  const BASIC_TEMPLATE: bytes := Repeated(ZERO, 8) + ['T' as int] + Repeated(ZERO, 6) + ['Z' as int]

  lemma HttpTemplate()
    ensures |HTTP_TEMPLATE| == 29
    ensures HTTP_TEMPLATE[3..5] == COMMA
    ensures HTTP_TEMPLATE[7..8] == HTTP_TEMPLATE[11..12] == HTTP_TEMPLATE[16..17] == BLANK
    ensures HTTP_TEMPLATE[19..20] == HTTP_TEMPLATE[22..23] == COLON
    ensures HTTP_TEMPLATE[25..] == GMT
  {
    hide Name, Repeated;
  }

  lemma BasicTemplate()
    ensures |BASIC_TEMPLATE| == 16
    ensures BASIC_TEMPLATE[8..9] == ['T' as int] && BASIC_TEMPLATE[15..] == ['Z' as int]
  {
  }

  method WriteHttpDate(weekday: nat, date: Date, clock: Clock) returns (s: bytes)
    requires weekday < 7 && 1 <= date.month <= 12 && date.day >= 0 && date.year >= 0
    ensures s == HttpDate(WeekdayName(weekday), date, clock)
  {
    hide FixedDigits, WeekdayName, MonthName, HTTP_TEMPLATE;
    var a := new byte[29](i => 0);
    HttpTemplate();
    ghost var t := HTTP_TEMPLATE;
    Paste(a, 0, HTTP_TEMPLATE);
    Paste(a, 0, WeekdayName(weekday));
    ghost var p := PutDigits(a, 5, 2, date.day, WeekdayName(weekday), COMMA, t);
    p := Put(a, 8, MonthName(date.month), p, BLANK, t);
    p := PutDigits(a, 12, 4, date.year, p, BLANK, t);
    p := PutDigits(a, 17, 2, clock.hour, p, BLANK, t);
    p := PutDigits(a, 20, 2, clock.minute, p, COLON, t);
    p := PutDigits(a, 23, 2, clock.second, p, COLON, t);
    s := a[..];
  }

  method WriteBasicDate(date: Date, clock: Clock) returns (s: bytes)
    requires date.month >= 0 && date.day >= 0 && date.year >= 0
    ensures s == BasicDate(date, clock)
  {
    hide FixedDigits, BASIC_TEMPLATE;
    var a := new byte[16](i => 0);
    BasicTemplate();
    ghost var t := BASIC_TEMPLATE;
    Paste(a, 0, BASIC_TEMPLATE);
    WriteFixedDigits(a, 0, 4, date.year);
    ghost var p := PutDigits(a, 4, 2, date.month, FixedDigits(date.year, 4), [], t);
    p := PutDigits(a, 6, 2, date.day, p, [], t);
    p := PutDigits(a, 9, 2, clock.hour, p, ['T' as int], t);
    p := PutDigits(a, 11, 2, clock.minute, p, [], t);
    p := PutDigits(a, 13, 2, clock.second, p, [], t);
    s := a[..];
  }
}
