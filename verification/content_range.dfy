/** The ranges that reads ask for, and the windows that answers hold. */
module ContentRanges {
  import opened Bytes
  import opened HttpMessages
  import opened Numbers

  // ---- The ranges that requests ask for ----

  datatype Range = Whole | Bounded(start: nat, end: nat) | Offset(first: nat) | Suffix(last: nat)

  const DASH: byte := '-' as int
  const SLASH: byte := '/' as int
  const STAR: bytes := ['*' as int]
  const UNIT: bytes := Ascii("bytes=")

  // What a validated range may be: not the whole, within 64 bits, and not empty or inverted.
  predicate IsValidRange(range: Range) {
    match range
    case Whole => false
    case Bounded(start, end) => start < end <= U64_MAX
    case Offset(first) => first <= U64_MAX
    case Suffix(last) => last <= U64_MAX
  }

  method WriteRange(range: Range) returns (out: bytes)
    requires IsValidRange(range)
    ensures out == RangeText(range)
  {
    hide Decimal, Ascii;
    out := UNIT;
    match range {
      case Bounded(start, end) =>
        var first := U64Decimal(start);
        var last := U64Decimal(end - 1);
        out := out + first + [DASH] + last;
      case Offset(first) =>
        var text := U64Decimal(first);
        out := out + text + [DASH];
      case Suffix(n) =>
        var text := U64Decimal(n);
        out := out + [DASH] + text;
      case Whole =>
        assert false;
    }
  }

  function RangeText(range: Range): bytes
    requires IsValidRange(range)
  {
    match range
    case Bounded(start, end) => UNIT + Decimal(start) + [DASH] + Decimal(end - 1)
    case Offset(first) => UNIT + Decimal(first) + [DASH]
    case Suffix(n) => UNIT + [DASH] + Decimal(n)
    case Whole => assert false; []
  }

  // The bytes of an object of `total` bytes that a range covers: those from `from` up to `to`.
  datatype Window = Window(from: nat, to: nat)

  function Covered(range: Range, total: nat): Window {
    match range
    case Whole => Window(0, total)
    case Bounded(start, end) => Window(start, Min(end, total))
    case Offset(first) => Window(first, total)
    case Suffix(n) => Window(Monus(total, n), total)
  }

  // What a range text asks a server for, section 14.1.2 of RFC 9110: first and last position, or a
  // number of bytes at the end.
  function Asked(text: bytes, total: nat): Option<Window> {
    if !(UNIT <= text) then None
    else
      var spec := text[|UNIT|..];
      var dash := FirstByte(spec, DASH);
      if dash == |spec| then None
      else
        var first, last := ParseDecimal(spec[..dash]), ParseDecimal(spec[dash + 1..]);
        if first.Some? && last.Some? then Some(Window(first.value, Min(last.value + 1, total)))
        else if first.Some? && spec[dash + 1..] == [] then Some(Window(first.value, total))
        else if dash == 0 && last.Some? then Some(Window(Monus(total, last.value), total))
        else None
  }

  lemma DecimalHasNone(n: nat, b: byte)
    requires !IsDigit(b)
    ensures b !in Decimal(n) && Decimal(n) != []
  {
  }

  // The text asks for what the range covers.
  lemma RangeTextAsks(range: Range, total: nat)
    requires IsValidRange(range)
    ensures Asked(RangeText(range), total) == Some(Covered(range, total))
  {
    hide Decimal, ParseDecimal, FirstByte, Ascii;
    var text := RangeText(range);
    var spec := text[|UNIT|..];
    assert ParseDecimal([]) == None by { ParseDecimalReads([]); }
    if range.Bounded? {
      DecimalHasNone(range.start, DASH);
      assert spec == Decimal(range.start) + [DASH] + Decimal(range.end - 1);
      SplitAtFirst(Decimal(range.start), DASH, Decimal(range.end - 1));
      ParsingUndoesWriting(range.start);
      ParsingUndoesWriting(range.end - 1);
    } else if range.Offset? {
      DecimalHasNone(range.first, DASH);
      assert spec == Decimal(range.first) + [DASH] + [];
      SplitAtFirst(Decimal(range.first), DASH, []);
      ParsingUndoesWriting(range.first);
    } else {
      assert spec == [] + [DASH] + Decimal(range.last);
      SplitAtFirst([], DASH, Decimal(range.last));
      ParsingUndoesWriting(range.last);
    }
  }

  // ---- Content-Range ----

  const ASCII_SPACES: set<byte> := {9, 10, 12, 13, 32}
  const BYTES_UNIT: bytes := Ascii("bytes ")

  datatype ContentRange =
    | Satisfied(start: nat, end: nat, total: Option<nat>)
    | Unsatisfied(size: Option<nat>)

  // The last place of a byte, or nothing.
  function LastByte(s: bytes, b: byte): (at: Option<nat>)
    ensures at.Some? ==> at.value < |s| && s[at.value] == b && b !in s[at.value + 1..]
    ensures at == None ==> b !in s
  {
    if s == [] then None
    else if s[|s| - 1] == b then Some(|s| - 1)
    else
      var init := s[..|s| - 1];
      assert s == init + [s[|s| - 1]];
      var at := LastByte(init, b);
      assert at.Some? ==> s[at.value + 1..] == init[at.value + 1..] + [s[|s| - 1]];
      at
  }

  // A total: a number, or `*` for none.
  function TotalOf(text: bytes): Option<Option<nat>> {
    if text == STAR then Some(None)
    else match ParseDecimal(text) case None => None case Some(n) => Some(Some(n))
  }

  // The general reading of what follows the unit.
  function ReadRange(rest: bytes): Option<ContentRange> {
    match LastByte(rest, SLASH)
    case None => None
    case Some(slash) =>
      var spec := Trimmed(rest[..slash], ASCII_SPACES);
      match TotalOf(Trimmed(rest[slash + 1..], ASCII_SPACES))
      case None => None
      case Some(total) => if spec == STAR then Some(Unsatisfied(total)) else ReadSpan(spec, total)
  }

  function ReadSpan(spec: bytes, total: Option<nat>): Option<ContentRange> {
    var dash := FirstByte(spec, DASH);
    if dash == |spec| then None
    else
      var start, end := ParseDecimal(spec[..dash]), ParseDecimal(spec[dash + 1..]);
      if start == None || end == None then None
      else if start.value > end.value || end.value >= (if total.Some? then total.value else U64_MAX) then None
      else Some(Satisfied(start.value, end.value, total))
  }

  // The general reading of a whole value.
  function ContentRangeOf(value: bytes): Option<ContentRange> {
    var trimmed := Trimmed(value, ASCII_SPACES);
    if BYTES_UNIT <= trimmed then ReadRange(trimmed[|BYTES_UNIT|..]) else None
  }

  // Satisfied ranges are in order and within their total, and their exclusive ends fit 64 bits.
  lemma RangeIsBounded(rest: bytes)
    ensures var r := ReadRange(rest);
      r.Some? && r.value.Satisfied? ==>
        r.value.start <= r.value.end < U64_MAX
        && (r.value.total.Some? ==> r.value.end < r.value.total.value <= U64_MAX)
  {
    hide Trimmed, FirstByte, LastByte, ParseDecimal;
    forall s: bytes ensures ParseDecimal(s).Some? ==> ParseDecimal(s).value <= U64_MAX {
      ParseDecimalReads(s);
    }
  }

  // ---- The fast path ----

  // How many digits a text starts with.
  function LeadingDigits(text: bytes): (n: nat)
    ensures n <= |text| && AllDigits(text[..n]) && (n < |text| ==> !IsDigit(text[n]))
  {
    if text == [] || !IsDigit(text[0]) then 0
    else
      var n := LeadingDigits(text[1..]);
      assert text[..n + 1] == [text[0]] + text[1..][..n];
      n + 1
  }

  // The number of 1 to 19 digits that a text starts with, and the rest of it.
  function Leading(text: bytes): Option<(nat, bytes)> {
    var n := LeadingDigits(text);
    if 1 <= n <= 19 then Some((Value(text[..n]), text[n..])) else None
  }

  // It is refused that starts with no digit, or with more than fit.
  lemma LeadingIs(text: bytes)
    ensures Leading(text) == None
       <==> text == [] || !IsDigit(text[0]) || (|text| >= 20 && AllDigits(text[..20]))
  {
    hide IsDigit, Value;
    var n := LeadingDigits(text);
    if n >= 20 {
      assert text[..20] == text[..n][..20];
    } else if |text| >= 20 {
      assert n < |text| ==> text[..20][n] == text[n];
    }
  }

  method LeadingDecimal(text: bytes) returns (r: Option<(nat, bytes)>)
    ensures r == Leading(text)
  {
    hide Value, LeadingDigits;
    var value, len := 0, 0;
    NoDigitsYet();
    assert text[..0] == [];
    while len < |text| && IsDigit(text[len]) && len < 19
      invariant len <= |text| && len <= 19 && AllDigits(text[..len])
      invariant value == Value(text[..len])
    {
      OneDigitMore(text[..len], text[len]);
      assert text[..len + 1] == text[..len] + [text[len]];
      FitsWord(text[..len + 1]);
      value := (value * 10 % (U64_MAX + 1) + (text[len] - ZERO)) % (U64_MAX + 1);
      len := len + 1;
    }
    DigitsEnd(text, len);
    if len == 0 || (len < |text| && IsDigit(text[len])) {
      return None;
    }
    return Some((value, text[len..]));
  }

  lemma NoDigitsYet()
    ensures AllDigits([]) && Value([]) == 0
  {
  }

  // The value of 19 digits is below the largest of 64 bits.
  lemma FitsWord(digits: bytes)
    requires AllDigits(digits) && |digits| <= 19
    ensures Value(digits) < U64_MAX
  {
    hide Value, Pow10;
    ValueBound(digits);
    Pow10Grows(|digits|, 19);
    Pow10Of20();
  }

  lemma DigitsEnd(text: bytes, len: nat)
    requires len <= |text| && AllDigits(text[..len])
    ensures len == |text| || !IsDigit(text[len]) ==> LeadingDigits(text) == len
    ensures len < |text| && IsDigit(text[len]) ==> LeadingDigits(text) > len
  {
    hide LeadingDigits;
    var n := LeadingDigits(text);
    assert forall i :: 0 <= i < len ==> text[..len][i] == text[i];
    assert forall i :: 0 <= i < n ==> text[..n][i] == text[i];
  }

  function DigitsRange(text: bytes): Option<ContentRange> {
    match Leading(text)
    case None => None
    case Some((start, afterStart)) =>
      if !([DASH] <= afterStart) then None
      else
        match Leading(afterStart[1..])
        case None => None
        case Some((end, afterEnd)) =>
          if !([SLASH] <= afterEnd) then None
          else
            match Leading(afterEnd[1..])
            case None => None
            case Some((total, rest)) =>
              if rest == [] && start <= end < total then Some(Satisfied(start, end, Some(total))) else None
  }

  method ReadDigitsRange(text: bytes) returns (r: Option<ContentRange>)
    ensures r == DigitsRange(text)
  {
    hide Leading;
    var start := LeadingDecimal(text);
    if start == None || !([DASH] <= start.value.1) {
      return None;
    }
    var end := LeadingDecimal(start.value.1[1..]);
    if end == None || !([SLASH] <= end.value.1) {
      return None;
    }
    var total := LeadingDecimal(end.value.1[1..]);
    if total == None {
      return None;
    }
    if total.value.1 == [] && start.value.0 <= end.value.0 < total.value.0 {
      return Some(Satisfied(start.value.0, end.value.0, Some(total.value.0)));
    }
    return None;
  }

  // The digits before the rest of a text.
  lemma LeadingParts(text: bytes)
    requires Leading(text).Some?
    ensures var (n, rest) := Leading(text).value;
      exists digits ::
        && text == digits + rest && digits != [] && AllDigits(digits)
        && ParseDecimal(digits) == Some(n) && n < U64_MAX
  {
    hide Value, LeadingDigits, ParseDecimal;
    var digits := text[..LeadingDigits(text)];
    FitsWord(digits);
    ParseDecimalReads(digits);
    assert text == digits + text[|digits|..];
  }

  // The fast path never differs from the general reading.
  lemma FastPathAgrees(rest: bytes)
    requires DigitsRange(rest).Some?
    ensures ReadRange(rest) == DigitsRange(rest)
  {
    hide Leading, ParseDecimal, ReadRange, AllDigits;
    var (start, afterStart) := Leading(rest).value;
    var (end, afterEnd) := Leading(afterStart[1..]).value;
    var (total, nothing) := Leading(afterEnd[1..]).value;
    LeadingParts(rest);
    LeadingParts(afterStart[1..]);
    LeadingParts(afterEnd[1..]);
    var a :| rest == a + afterStart && a != [] && AllDigits(a) && ParseDecimal(a) == Some(start);
    var b :| afterStart[1..] == b + afterEnd && b != [] && AllDigits(b) && ParseDecimal(b) == Some(end)
        && end < U64_MAX;
    var c :| afterEnd[1..] == c + nothing && c != [] && AllDigits(c) && ParseDecimal(c) == Some(total);
    assert rest == (a + [DASH] + b) + [SLASH] + c;
    DigitsAreRead(a, b, c, start, end, total);
  }

  lemma DigitsAreRead(a: bytes, b: bytes, c: bytes, start: nat, end: nat, total: nat)
    requires a != [] && b != [] && c != [] && AllDigits(a) && AllDigits(b) && AllDigits(c)
    requires ParseDecimal(a) == Some(start) && ParseDecimal(b) == Some(end) && ParseDecimal(c) == Some(total)
    requires start <= end < total
    ensures ReadRange((a + [DASH] + b) + [SLASH] + c) == Some(Satisfied(start, end, Some(total)))
  {
    hide ParseDecimal, LastByte, Trimmed, ReadSpan, AllDigits;
    var spec := a + [DASH] + b;
    DigitsHaveNone(c, SLASH);
    SplitAtLast(spec, SLASH, c);
    DigitsStay(a, [DASH], b);
    NoDigitsYet();
    DigitsStay(c, [], []);
    assert c + [] + [] == c;
    SpanIsRead(a, b, Some(total));
  }

  // A text that starts and ends with digits is not trimmed.
  lemma DigitsStay(a: bytes, middle: bytes, b: bytes)
    requires a != [] && AllDigits(a) && AllDigits(b) && (b == [] ==> middle == [])
    ensures Trimmed(a + middle + b, ASCII_SPACES) == a + middle + b != STAR
  {
    hide Trimmed;
    var s := a + middle + b;
    assert s[0] == a[0] && s[|s| - 1] == if b == [] then a[|a| - 1] else b[|b| - 1];
    TrimmedIsSame(s, ASCII_SPACES);
    assert s[0] != STAR[0];
  }

  lemma SpanIsRead(a: bytes, b: bytes, total: Option<nat>)
    requires AllDigits(a) && ParseDecimal(a).Some? && ParseDecimal(b).Some?
    requires ParseDecimal(a).value <= ParseDecimal(b).value < (if total.Some? then total.value else U64_MAX)
    ensures ReadSpan(a + [DASH] + b, total) == Some(Satisfied(ParseDecimal(a).value, ParseDecimal(b).value, total))
  {
    hide ParseDecimal, FirstByte;
    DigitsHaveNone(a, DASH);
    SplitAtFirst(a, DASH, b);
  }

  lemma DigitsHaveNone(digits: bytes, b: byte)
    requires AllDigits(digits) && !IsDigit(b)
    ensures b !in digits
  {
  }

  lemma SplitAtLast(before: bytes, b: byte, after: bytes)
    requires b !in after
    ensures var s := before + [b] + after;
      LastByte(s, b) == Some(|before|) && s[..|before|] == before && s[|before| + 1..] == after
  {
    hide LastByte;
    var s := before + [b] + after;
    assert s[|before|] == b && b in s;
    forall i | |before| < i < |s| ensures s[i] != b {
      assert after[i - |before| - 1] in after;
    }
    forall k | 0 <= k < |before| ensures s[k] == b ==> b in s[k + 1..] {
      assert s[k + 1..][|before| - k - 1] == b;
    }
  }

  method ParseContentRange(value: bytes) returns (r: Option<ContentRange>)
    ensures r == ContentRangeOf(value)
  {
    hide ReadRange, DigitsRange, Trimmed, Ascii;
    var trimmed := Trimmed(value, ASCII_SPACES);
    if !(BYTES_UNIT <= trimmed) {
      return None;
    }
    var rest := trimmed[|BYTES_UNIT|..];
    var fast := ReadDigitsRange(rest);
    if fast.Some? {
      FastPathAgrees(rest);
      return fast;
    }
    return ReadRange(rest);
  }

  // ---- The window that an answer holds ----

  datatype Kind = Content | Metadata

  // The values of a head that this reads, and whether `Last-Modified` is text.
  datatype GetHead = GetHead(status: nat, contentLength: Option<bytes>, contentRange: Option<bytes>, dateIsText: bool)

  datatype BodyWindow = BodyWindow(offset: nat, expectedLen: Option<nat>, objectSize: Option<nat>)
  datatype Fault = HeadFault | RangeFault
  datatype Outcome =
    | Complete(size: Option<nat>)
    | Body(bodySize: Option<nat>, window: BodyWindow)
    | Refused(fault: Fault)

  datatype Header = NoHeader | BadHeader | Number(n: nat)

  function ReadDecimalHeader(value: Option<bytes>): Header {
    match value
    case None => NoHeader
    case Some(text) =>
      match ParseDecimal(Trimmed(text, ASCII_SPACES)) case None => BadHeader case Some(n) => Number(n)
  }

  function Stated(header: Header): Option<nat> {
    if header.Number? then Some(header.n) else None
  }

  // Where a range starts, if the size is known or the range does not need it.
  function StartOf(range: Range, total: Option<nat>): Option<nat> {
    match range
    case Bounded(start, _) => Some(start)
    case Offset(first) => Some(first)
    case Suffix(n) => if total.Some? then Some(Monus(total.value, n)) else None
    case Whole => None
  }

  function AcceptWindow(range: Range, length: Option<nat>, start: nat, end: nat, total: Option<nat>): Outcome
    requires start <= end
  {
    var served := end - start + 1;
    if length.Some? && length.value != served then Refused(HeadFault)
    else if StartOf(range, total) != Some(start) then Refused(RangeFault)
    else if total.Some? && end + 1 != (if range.Bounded? then Min(range.end, total.value) else total.value) then
      Refused(RangeFault)
    else Body(total, BodyWindow(start, Some(served), total))
  }

  function AcceptGetSuccess(kind: Kind, range: Range, head: GetHead): Outcome {
    var header := ReadDecimalHeader(head.contentLength);
    if header == BadHeader || !head.dateIsText then Refused(HeadFault)
    else
      var length := Stated(header);
      if head.status == 200 then
        if kind == Metadata then Complete(length) else Body(length, BodyWindow(0, length, length))
      else if head.contentRange == None || ContentRangeOf(head.contentRange.value) == None then Refused(HeadFault)
      else
        var r := ContentRangeOf(head.contentRange.value).value;
        if !r.Satisfied? then Refused(HeadFault)
        else
          RangeIsOrdered(head.contentRange.value);
          AcceptWindow(range, length, r.start, r.end, r.total)
  }

  lemma RangeIsOrdered(value: bytes)
    ensures var r := ContentRangeOf(value);
      r.Some? && r.value.Satisfied? ==> r.value.start <= r.value.end < U64_MAX
    ensures var r := ContentRangeOf(value);
      r.Some? && r.value.Satisfied? && r.value.total.Some? ==> r.value.end < r.value.total.value <= U64_MAX
  {
    hide ReadRange, Trimmed, Ascii;
    var trimmed := Trimmed(value, ASCII_SPACES);
    if BYTES_UNIT <= trimmed {
      RangeIsBounded(trimmed[|BYTES_UNIT|..]);
    }
  }

  // The bytes of a window, of an object whose size is known.
  function WindowOf(body: BodyWindow): Window
    requires body.expectedLen.Some?
  {
    Window(body.offset, body.offset + body.expectedLen.value)
  }

  // An answer of the whole object is refused exactly if a value in it cannot be read. A read of the
  // content is then given a body from the object's first byte to its end, and a read of the metadata
  // none; both learn the size, if the answer states it.
  lemma WholeAnswer(kind: Kind, range: Range, head: GetHead)
    requires head.status == 200
    ensures var outcome, length := AcceptGetSuccess(kind, range, head), ReadDecimalHeader(head.contentLength);
      if length == BadHeader || !head.dateIsText then outcome == Refused(HeadFault)
      else
        var size := if length.Number? then Some(length.n) else None;
        if kind == Metadata then outcome == Complete(size)
        else
          && outcome.Body? && outcome.bodySize == outcome.window.objectSize == outcome.window.expectedLen == size
          && outcome.window.offset == 0
          && (size.Some? ==> WindowOf(outcome.window) == Covered(Whole, size.value))
  {
    hide ReadDecimalHeader;
  }

  // A read without a range, answered with the whole object and its length.
  lemma AnsweredWholeIsAccepted(kind: Kind, total: nat)
    requires total <= U64_MAX
    ensures var outcome := AcceptGetSuccess(kind, Whole, GetHead(200, Some(Decimal(total)), None, true));
      if kind == Metadata then outcome == Complete(Some(total))
      else outcome == Body(Some(total), BodyWindow(0, Some(total), Some(total)))
  {
    hide Decimal, ReadDecimalHeader;
    DecimalHeader(total);
    WholeAnswer(kind, Whole, GetHead(200, Some(Decimal(total)), None, true));
  }

  // A partial answer whose values cannot be read, or that states no window, is at fault in its head.
  lemma UnreadableIsRefused(kind: Kind, range: Range, head: GetHead)
    requires head.status != 200
    requires
      || ReadDecimalHeader(head.contentLength) == BadHeader || !head.dateIsText || head.contentRange == None
      || ContentRangeOf(head.contentRange.value) == None || ContentRangeOf(head.contentRange.value).value.Unsatisfied?
    ensures AcceptGetSuccess(kind, range, head) == Refused(HeadFault)
  {
    hide ReadDecimalHeader, ContentRangeOf;
  }

  // A window answers no read of the whole object.
  lemma WholeHasNoWindow(kind: Kind, head: GetHead, start: nat, end: nat, total: Option<nat>)
    requires head.status != 200 && head.dateIsText && head.contentRange.Some?
    requires ReadDecimalHeader(head.contentLength) != BadHeader
    requires ContentRangeOf(head.contentRange.value) == Some(Satisfied(start, end, total))
    ensures AcceptGetSuccess(kind, Whole, head) == Refused(
      if head.contentLength == None || ReadDecimalHeader(head.contentLength) == Number(end + 1 - start) then RangeFault
      else HeadFault)
  {
    hide ContentRangeOf, ParseDecimal, Trimmed;
    RangeIsOrdered(head.contentRange.value);
  }

  // A partial answer is accepted exactly if its readable values state the range that was asked for,
  // cut at the end of the object, and a stated length is that range's. The window is then that
  // range, and no number in it leaves 64 bits.
  lemma WindowIsRequested(kind: Kind, range: Range, head: GetHead, start: nat, end: nat, total: nat)
    requires range != Whole && head.status != 200 && head.dateIsText && head.contentRange.Some?
    requires ReadDecimalHeader(head.contentLength) != BadHeader
    requires ContentRangeOf(head.contentRange.value) == Some(Satisfied(start, end, Some(total)))
    ensures var outcome, asked := AcceptGetSuccess(kind, range, head), Covered(range, total);
      && (outcome.Body? <==>
            Window(start, end + 1) == asked
            && (head.contentLength == None || ReadDecimalHeader(head.contentLength) == Number(end + 1 - start)))
      && (outcome.Body? ==>
            outcome.bodySize == outcome.window.objectSize == Some(total) && outcome.window.expectedLen.Some?
            && WindowOf(outcome.window) == asked && asked.from < asked.to <= total <= U64_MAX)
      && (!outcome.Body? ==>
            outcome == Refused(
              if head.contentLength == None || ReadDecimalHeader(head.contentLength) == Number(end + 1 - start) then
                RangeFault
              else HeadFault))
  {
    hide ContentRangeOf, ParseDecimal, Trimmed;
    RangeIsOrdered(head.contentRange.value);
  }

  // When the answer does not state the size, only the start is compared, and the window is the
  // one that the answer states.
  lemma WindowWithoutSize(kind: Kind, range: Range, head: GetHead, start: nat, end: nat)
    requires head.status != 200 && head.dateIsText && head.contentRange.Some?
    requires ReadDecimalHeader(head.contentLength) != BadHeader
    requires ContentRangeOf(head.contentRange.value) == Some(Satisfied(start, end, None))
    ensures AcceptGetSuccess(kind, range, head).Body? <==>
      && ((range.Bounded? && range.start == start) || (range.Offset? && range.first == start))
      && (head.contentLength == None || ReadDecimalHeader(head.contentLength) == Number(end + 1 - start))
    ensures AcceptGetSuccess(kind, range, head).Body? ==>
      AcceptGetSuccess(kind, range, head) == Body(None, BodyWindow(start, Some(end + 1 - start), None))
    ensures !AcceptGetSuccess(kind, range, head).Body? ==>
      AcceptGetSuccess(kind, range, head) == Refused(
        if head.contentLength == None || ReadDecimalHeader(head.contentLength) == Number(end + 1 - start)
        then RangeFault
        else HeadFault)
  {
    hide ContentRangeOf, ParseDecimal, Trimmed;
    RangeIsOrdered(head.contentRange.value);
  }

  // An accepted answer that does not state the size holds what was asked for, of every object that
  // it can be an answer of, exactly if the range names its end and the answer ends there. A shorter
  // or longer answer is accepted too.
  lemma WindowWithoutSizeIsRequested(kind: Kind, range: Range, head: GetHead, start: nat, end: nat)
    requires head.status != 200 && head.contentRange.Some?
    requires ContentRangeOf(head.contentRange.value) == Some(Satisfied(start, end, None))
    requires AcceptGetSuccess(kind, range, head).Body?
    ensures AcceptGetSuccess(kind, range, head).window.expectedLen.Some?
    ensures (forall size: nat :: size > end ==>
               WindowOf(AcceptGetSuccess(kind, range, head).window) == Covered(range, size))
       <==> range.Bounded? && range.end == end + 1
  {
    hide ContentRangeOf, ReadDecimalHeader;
    WindowWithoutSize(kind, range, head, start, end);
    RangeIsOrdered(head.contentRange.value);
    var window := WindowOf(AcceptGetSuccess(kind, range, head).window);
    assert window == Window(start, end + 1);
    if !range.Bounded? {
      assert Covered(range, end + 2) != window;
    } else if range.end > end + 1 {
      assert Covered(range, range.end) != window;
    } else if range.end < end + 1 {
      assert Covered(range, end + 1) != window;
    }
  }

  // The value of a range whose object has an unknown size.
  function UnsizedText(start: nat, end: nat): bytes {
    BYTES_UNIT + ((Decimal(start) + [DASH] + Decimal(end)) + [SLASH] + STAR)
  }

  lemma UnsizedReads(start: nat, end: nat)
    requires start <= end < U64_MAX
    ensures ContentRangeOf(UnsizedText(start, end)) == Some(Satisfied(start, end, None))
  {
    hide ReadRange, ParseDecimal, Decimal, Trimmed, Ascii;
    var a, b := Decimal(start), Decimal(end);
    ParsingUndoesWriting(start);
    ParsingUndoesWriting(end);
    UnsizedRangeReads(a, b, start, end);
    var rest := (a + [DASH] + b) + [SLASH] + STAR;
    var value := BYTES_UNIT + rest;
    UnitStays();
    assert value[0] == BYTES_UNIT[0] && value[|value| - 1] == STAR[0];
    TrimmedIsSame(value, ASCII_SPACES);
    assert value[|BYTES_UNIT|..] == rest;
  }

  lemma UnsizedRangeReads(a: bytes, b: bytes, start: nat, end: nat)
    requires a != [] && b != [] && AllDigits(a) && AllDigits(b) && start <= end < U64_MAX
    requires ParseDecimal(a) == Some(start) && ParseDecimal(b) == Some(end)
    ensures ReadRange((a + [DASH] + b) + [SLASH] + STAR) == Some(Satisfied(start, end, None))
  {
    hide ParseDecimal, LastByte, Trimmed, ReadSpan, AllDigits;
    SplitAtLast(a + [DASH] + b, SLASH, STAR);
    DigitsStay(a, [DASH], b);
    TrimmedIsSame(STAR, ASCII_SPACES);
    SpanIsRead(a, b, None);
  }

  // Ten bytes are asked for, and an answer of a hundred is accepted.
  lemma LongerWindowIsAccepted(kind: Kind)
    ensures
      var head := GetHead(206, None, Some(UnsizedText(0, 99)), true);
      AcceptGetSuccess(kind, Bounded(0, 10), head) == Body(None, BodyWindow(0, Some(100), None))
  {
    hide ContentRangeOf, UnsizedText;
    UnsizedReads(0, 99);
    NoDecimalHeader();
    WindowWithoutSize(kind, Bounded(0, 10), GetHead(206, None, Some(UnsizedText(0, 99)), true), 0, 99);
  }

  // The value with which a server states a window.
  function ContentRangeText(window: Window, total: nat): bytes
    requires window.from < window.to
  {
    BYTES_UNIT + ((Decimal(window.from) + [DASH] + Decimal(window.to - 1)) + [SLASH] + Decimal(total))
  }

  // A request for a range, answered by a server that reads the range as RFC 9110 says, gives that
  // range of the object: the answer is accepted with the window that the range covers.
  lemma AnsweredRangeIsAccepted(range: Range, total: nat, stated: bool)
    requires IsValidRange(range) && total <= U64_MAX
    requires var window := Covered(range, total); window.from < window.to
    ensures var window := Asked(RangeText(range), total);
      && window.Some? && window.value.from < window.value.to
      && var length := window.value.to - window.value.from;
         var head := GetHead(206, if stated then Some(Decimal(length)) else None,
                             Some(ContentRangeText(window.value, total)), true);
         AcceptGetSuccess(Content, range, head)
         == Body(Some(total), BodyWindow(window.value.from, Some(length), Some(total)))
  {
    hide ContentRangeOf, ParseDecimal, Decimal, Asked, RangeText, ReadDecimalHeader;
    var window := Covered(range, total);
    RangeTextAsks(range, total);
    StatedWindowReads(window, total);
    if stated {
      DecimalHeader(window.to - window.from);
    } else {
      assert ReadDecimalHeader(None) == NoHeader by {
        NoDecimalHeader();
      }
    }
  }

  lemma StatedWindowReads(window: Window, total: nat)
    requires window.from < window.to <= total <= U64_MAX
    ensures ContentRangeOf(ContentRangeText(window, total)) == Some(Satisfied(window.from, window.to - 1, Some(total)))
  {
    hide ReadRange, ParseDecimal, Decimal, Trimmed, Ascii;
    var a, b, c := Decimal(window.from), Decimal(window.to - 1), Decimal(total);
    ParsingUndoesWriting(window.from);
    ParsingUndoesWriting(window.to - 1);
    ParsingUndoesWriting(total);
    DigitsAreRead(a, b, c, window.from, window.to - 1, total);
    var rest := (a + [DASH] + b) + [SLASH] + c;
    var value := BYTES_UNIT + rest;
    UnitStays();
    assert value[0] == BYTES_UNIT[0] && value[|value| - 1] == c[|c| - 1];
    TrimmedIsSame(value, ASCII_SPACES);
    assert value[|BYTES_UNIT|..] == rest;
  }

  lemma UnitStays()
    ensures BYTES_UNIT != [] && BYTES_UNIT[0] !in ASCII_SPACES
  {
  }

  lemma DecimalHeader(n: nat)
    requires n <= U64_MAX
    ensures ReadDecimalHeader(Some(Decimal(n))) == Number(n)
  {
    hide ParseDecimal, Decimal, Trimmed;
    var text := Decimal(n);
    ParsingUndoesWriting(n);
    TrimmedIsSame(text, ASCII_SPACES);
  }

  lemma NoDecimalHeader()
    ensures ReadDecimalHeader(None) == NoHeader
  {
  }

  // ---- The reader, exactly ----

  // A span is two numbers with a hyphen between them, in order and within the total.
  ghost predicate IsSpan(spec: bytes, start: nat, end: nat, total: Option<nat>) {
    && (exists a, b :: spec == a + [DASH] + b && ParseDecimal(a) == Some(start) && ParseDecimal(b) == Some(end))
    && start <= end < if total.Some? then total.value else U64_MAX
  }

  lemma SpanIs(spec: bytes, total: Option<nat>, start: nat, end: nat)
    ensures ReadSpan(spec, total) == Some(Satisfied(start, end, total)) <==> IsSpan(spec, start, end, total)
    ensures ReadSpan(spec, total).Some?
       ==> ReadSpan(spec, total).value.Satisfied? && ReadSpan(spec, total).value.total == total
  {
    hide ParseDecimal, FirstByte;
    var dash := FirstByte(spec, DASH);
    if dash < |spec| {
      assert spec == spec[..dash] + [DASH] + spec[dash + 1..];
    }
    forall a, b | spec == a + [DASH] + b && ParseDecimal(a) == Some(start) && ParseDecimal(b) == Some(end)
      ensures dash == |a| && spec[..dash] == a && spec[dash + 1..] == b
    {
      NumberHasNoDash(a);
      SplitAtFirst(a, DASH, b);
    }
  }

  lemma NumberHasNoDash(a: bytes)
    requires ParseDecimal(a).Some?
    ensures DASH !in a
  {
    hide ParseDecimal;
    ParseDecimalReads(a);
  }

  // A value is `bytes`, a span or `*`, a slash, and a total or `*`, with spaces around each.
  ghost predicate IsRange(rest: bytes, r: ContentRange) {
    exists x, y, total :: IsRangeOf(rest, x, y, total, r)
  }

  ghost predicate IsRangeOf(rest: bytes, x: bytes, y: bytes, total: Option<nat>, r: ContentRange) {
    && rest == x + [SLASH] + y && SLASH !in y
    && ((Trimmed(y, ASCII_SPACES) == STAR && total == None)
        || (Trimmed(y, ASCII_SPACES) != STAR && total.Some? && ParseDecimal(Trimmed(y, ASCII_SPACES)) == total))
    && if Trimmed(x, ASCII_SPACES) == STAR then r == Unsatisfied(total)
       else r.Satisfied? && r.total == total && IsSpan(Trimmed(x, ASCII_SPACES), r.start, r.end, total)
  }

  lemma ReadRangeIs(rest: bytes, r: ContentRange)
    ensures ReadRange(rest) == Some(r) <==> IsRange(rest, r)
  {
    hide ReadRange, IsRangeOf;
    if ReadRange(rest) == Some(r) {
      var x, y, total := RangeInParts(rest, r);
    }
    forall x, y, total | IsRangeOf(rest, x, y, total, r) ensures ReadRange(rest) == Some(r) {
      RangeOfParts(rest, x, y, total, r);
    }
  }

  lemma RangeInParts(rest: bytes, r: ContentRange) returns (x: bytes, y: bytes, total: Option<nat>)
    requires ReadRange(rest) == Some(r)
    ensures IsRangeOf(rest, x, y, total, r)
  {
    hide ParseDecimal, LastByte, Trimmed, ReadSpan, IsSpan;
    var slash := LastByte(rest, SLASH).value;
    x, y := rest[..slash], rest[slash + 1..];
    assert rest == x + [SLASH] + y && SLASH !in y;
    total := TotalOf(Trimmed(y, ASCII_SPACES)).value;
    if Trimmed(x, ASCII_SPACES) != STAR {
      SpanIs(Trimmed(x, ASCII_SPACES), total, 0, 0);
      SpanIs(Trimmed(x, ASCII_SPACES), total, r.start, r.end);
    }
  }

  lemma RangeOfParts(rest: bytes, x: bytes, y: bytes, total: Option<nat>, r: ContentRange)
    requires IsRangeOf(rest, x, y, total, r)
    ensures ReadRange(rest) == Some(r)
  {
    hide ParseDecimal, LastByte, Trimmed, ReadSpan, IsSpan;
    SplitAtLast(x, SLASH, y);
    if r.Satisfied? { SpanIs(Trimmed(x, ASCII_SPACES), total, r.start, r.end); }
  }

  lemma ContentRangeIs(value: bytes, r: ContentRange)
    ensures ContentRangeOf(value) == Some(r)
       <==> exists rest :: Trimmed(value, ASCII_SPACES) == Ascii("bytes ") + rest && IsRange(rest, r)
  {
    hide ReadRange, IsRange, Trimmed, Ascii;
    var trimmed := Trimmed(value, ASCII_SPACES);
    if BYTES_UNIT <= trimmed {
      var rest := trimmed[|BYTES_UNIT|..];
      ReadRangeIs(rest, r);
      assert trimmed == BYTES_UNIT + rest;
    }
    forall rest | trimmed == Ascii("bytes ") + rest && IsRange(rest, r) ensures ContentRangeOf(value) == Some(r) {
      assert trimmed[|BYTES_UNIT|..] == rest;
      ReadRangeIs(rest, r);
    }
  }
}
