/** Responses that a body carries: lines, fields and framing. */
module HttpMessages {
  import opened Bytes
  import opened Numbers
  import opened Url

  const CR: byte := 13
  const LF: byte := 10
  const TAB: byte := 9
  const CRLF: bytes := [CR, LF]
  const COLON: byte := ':' as int

  // ---- Bytes of a message ----

  function ToLower(b: byte): byte {
    if 'A' as int <= b <= 'Z' as int then b + 32 else b
  }

  predicate SameIgnoringCase(a: bytes, b: bytes) {
    |a| == |b| && forall i :: 0 <= i < |a| ==> ToLower(a[i]) == ToLower(b[i])
  }

  const TOKEN_MARKS: set<byte> := {
    '!' as int, '#' as int, '$' as int, '%' as int, '&' as int, '\'' as int, '*' as int, '+' as int,
    '-' as int, '.' as int, '^' as int, '_' as int, '`' as int, '|' as int, '~' as int
  }

  predicate IsTokenByte(b: byte) { IsAlphanumeric(b) || b in TOKEN_MARKS }

  predicate IsTextByte(b: byte) { b == TAB || 0x20 <= b <= 0x7E || 0x80 <= b }

  const BLANKS: set<byte> := {SPACE, TAB}

  predicate IsBlank(b: byte) { b in BLANKS }

  // A value without the blanks around it, from one end and then from the other.
  method TrimWhitespace(value: bytes) returns (trimmed: bytes)
    ensures trimmed == Trimmed(value, BLANKS)
  {
    trimmed := value;
    while trimmed != [] && IsBlank(trimmed[0])
      invariant Trimmed(trimmed, BLANKS) == Trimmed(value, BLANKS)
    {
      trimmed := trimmed[1..];
    }
    while trimmed != [] && IsBlank(trimmed[|trimmed| - 1])
      invariant Trimmed(trimmed, BLANKS) == Trimmed(value, BLANKS)
      invariant trimmed == [] || !IsBlank(trimmed[0])
    {
      assert |trimmed| > 1;
      trimmed := trimmed[..|trimmed| - 1];
    }
  }

  function Trimmed(value: bytes, blanks: set<byte>): bytes {
    if value == [] then []
    else if value[0] in blanks then Trimmed(value[1..], blanks)
    else if value[|value| - 1] in blanks then Trimmed(value[..|value| - 1], blanks)
    else value
  }

  // What is trimmed is blank, and what is left neither begins nor ends with a blank.
  lemma {:induction false} TrimmedIsMiddle(value: bytes, blanks: set<byte>) returns (before: bytes, after: bytes)
    ensures value == before + Trimmed(value, blanks) + after
    ensures (forall b :: b in before ==> b in blanks) && (forall b :: b in after ==> b in blanks)
    ensures var middle := Trimmed(value, blanks);
      middle != [] ==> middle[0] !in blanks && middle[|middle| - 1] !in blanks
    decreases |value|
  {
    if value == [] {
      before, after := [], [];
    } else if value[0] in blanks {
      before, after := TrimmedIsMiddle(value[1..], blanks);
      before := [value[0]] + before;
    } else if value[|value| - 1] in blanks {
      before, after := TrimmedIsMiddle(value[..|value| - 1], blanks);
      after := after + [value[|value| - 1]];
      assert value == value[..|value| - 1] + [value[|value| - 1]];
    } else {
      before, after := [], [];
    }
  }

  lemma TrimmedIsSame(s: bytes, blanks: set<byte>)
    requires s != [] ==> s[0] !in blanks && s[|s| - 1] !in blanks
    ensures Trimmed(s, blanks) == s
  {
  }

  // ---- Lines ----

  // Where the first CR or LF is, or the end.
  function FirstBreak(s: bytes): (at: nat)
    ensures at <= |s|
    ensures at < |s| ==> s[at] == CR || s[at] == LF
    ensures forall i :: 0 <= i < at ==> s[i] != CR && s[i] != LF
  {
    if s == [] || s[0] == CR || s[0] == LF then 0 else 1 + FirstBreak(s[1..])
  }

  datatype Line = Line(text: bytes, after: bytes)

  // Cuts a text after its first CRLF, if no bare CR or LF comes before that.
  function NextLine(s: bytes): (r: Option<Line>)
    ensures r.Some? ==> |r.value.after| < |s|
  {
    var end := FirstBreak(s);
    if end + 2 <= |s| && s[end] == CR && s[end + 1] == LF then Some(Line(s[..end], s[end + 2..])) else None
  }

  predicate IsLine(text: bytes) {
    forall i :: 0 <= i < |text| ==> text[i] != CR && text[i] != LF
  }

  lemma NextLineIs(s: bytes, text: bytes, after: bytes)
    ensures NextLine(s) == Some(Line(text, after)) <==> s == text + CRLF + after && IsLine(text)
  {
    if s == text + CRLF + after && IsLine(text) {
      assert s[|text|] == CR && s[|text| + 1] == LF;
      if FirstBreak(s) < |text| {
        assert s[FirstBreak(s)] == text[FirstBreak(s)];
      }
      assert s[..|text|] == text && s[|text| + 2..] == after;
    }
  }

  // ---- Fields ----

  datatype Field = Field(name: bytes, value: bytes)

  // Where a byte is first, or the end.
  function FirstByte(s: bytes, b: byte): (at: nat)
    ensures at <= |s| && (at < |s| ==> s[at] == b)
    ensures forall i :: 0 <= i < at ==> s[i] != b
  {
    if s == [] || s[0] == b then 0 else 1 + FirstByte(s[1..], b)
  }

  lemma SplitAtFirst(before: bytes, b: byte, after: bytes)
    requires b !in before
    ensures var s := before + [b] + after;
      FirstByte(s, b) == |before| && s[..|before|] == before && s[|before| + 1..] == after
  {
    hide FirstByte;
    var s := before + [b] + after;
    assert s[|before|] == b;
    forall i | 0 <= i < |before| ensures s[i] != b {
      assert before[i] in before;
    }
  }

  predicate IsToken(s: bytes) { s != [] && forall i :: 0 <= i < |s| ==> IsTokenByte(s[i]) }

  predicate IsText(s: bytes) { forall i :: 0 <= i < |s| ==> IsTextByte(s[i]) }

  function FieldLine(line: bytes): Option<Field> {
    var colon := FirstByte(line, COLON);
    if colon == |line| then None
    else if !IsToken(line[..colon]) || !IsText(line[colon + 1..]) then None
    else Some(Field(line[..colon], Trimmed(line[colon + 1..], BLANKS)))
  }

  // A checked line is a line, and not the empty one.
  lemma FieldLineIsLine(line: bytes)
    requires FieldLine(line).Some?
    ensures IsLine(line) && line != []
  {
    var colon := FirstByte(line, COLON);
    forall i | 0 <= i < |line| ensures line[i] != CR && line[i] != LF {
      if i < colon {
        assert line[..colon][i] == line[i];
      } else if i > colon {
        assert line[colon + 1..][i - colon - 1] == line[i];
      }
    }
  }

  // `line` prints `field`, with `text` between the colon and the end of the line.
  ghost predicate IsFieldLine(line: bytes, field: Field, text: bytes) {
    line == field.name + [COLON] + text && IsToken(field.name) && IsText(text) && field.value == Trimmed(text, BLANKS)
  }

  lemma FieldLineIs(line: bytes, field: Field)
    ensures FieldLine(line) == Some(field) <==> exists text :: IsFieldLine(line, field, text)
  {
    hide FirstByte, Trimmed;
    var colon := FirstByte(line, COLON);
    if FieldLine(line) == Some(field) {
      assert line == line[..colon] + [COLON] + line[colon + 1..];
      assert IsFieldLine(line, field, line[colon + 1..]);
    }
    if exists text :: IsFieldLine(line, field, text) {
      var text :| IsFieldLine(line, field, text);
      NoColonInToken(field.name);
      SplitAtFirst(field.name, COLON, text);
    }
  }

  lemma NoColonInToken(name: bytes)
    requires IsToken(name)
    ensures COLON !in name
  {
  }

  predicate AllFieldLines(lines: seq<bytes>) {
    forall i :: 0 <= i < |lines| ==> FieldLine(lines[i]).Some?
  }

  // A field section: each line with its CRLF.
  function Section(lines: seq<bytes>): bytes {
    if lines == [] then [] else lines[0] + CRLF + Section(lines[1..])
  }

  lemma {:induction false} SectionOneMore(lines: seq<bytes>, line: bytes)
    ensures Section(lines + [line]) == Section(lines) + line + CRLF
  {
    if lines == [] {
      assert [line][1..] == [];
    } else {
      SectionOneMore(lines[1..], line);
      assert (lines + [line])[1..] == lines[1..] + [line];
    }
  }

  // ---- The second reader, of a section that was checked ----

  // The pieces of a text between separators.
  function SplitOn(s: bytes, separators: set<byte>): (pieces: seq<bytes>)
    ensures pieces != []
  {
    if s == [] then [[]]
    else
      var pieces := SplitOn(s[1..], separators);
      if s[0] in separators then [[]] + pieces else [[s[0]] + pieces[0]] + pieces[1..]
  }

  function WithoutCr(line: bytes): bytes {
    if line != [] && line[|line| - 1] == CR then line[..|line| - 1] else line
  }

  function ReadPieces(pieces: seq<bytes>): seq<Field> {
    if pieces == [] then []
    else
      var rest := ReadPieces(pieces[1..]);
      var field := FieldLine(WithoutCr(pieces[0]));
      if pieces[0] == [] || field == None then rest else [field.value] + rest
  }

  function FieldLines(section: bytes): seq<Field> { ReadPieces(SplitOn(section, {LF})) }

  // The fields of lines, each checked.
  function FieldsOf(lines: seq<bytes>): (fields: seq<Field>)
    requires AllFieldLines(lines)
    ensures |fields| == |lines|
  {
    seq(|lines|, i requires 0 <= i < |lines| => FieldLine(lines[i]).value)
  }

  lemma {:induction false} SplitAtSeparator(piece: bytes, b: byte, rest: bytes, separators: set<byte>)
    requires b in separators && forall i :: 0 <= i < |piece| ==> piece[i] !in separators
    ensures SplitOn(piece + [b] + rest, separators) == [piece] + SplitOn(rest, separators)
    decreases |piece|
  {
    var s := piece + [b] + rest;
    if piece == [] {
      assert s[1..] == rest;
    } else {
      assert s[1..] == piece[1..] + [b] + rest;
      SplitAtSeparator(piece[1..], b, rest, separators);
      assert [s[0]] + piece[1..] == piece;
    }
  }

  lemma {:induction false} SplitOfOne(s: bytes, separators: set<byte>)
    requires forall i :: 0 <= i < |s| ==> s[i] !in separators
    ensures SplitOn(s, separators) == [s]
  {
    if s != [] {
      SplitOfOne(s[1..], separators);
      assert [s[0]] + s[1..] == s;
    }
  }

  // The second reader gives exactly the fields of the lines, and drops none.
  lemma {:induction false} SecondReaderAgrees(lines: seq<bytes>)
    requires AllFieldLines(lines)
    ensures FieldLines(Section(lines)) == FieldsOf(lines)
  {
    hide FieldLine;
    if lines == [] {
      assert SplitOn([], {LF}) == [[]] && ReadPieces([]) == [];
      assert ReadPieces([[]]) == ReadPieces([[]][1..]);
    } else {
      var line, rest := lines[0] + [CR], Section(lines[1..]);
      FieldLineIsLine(lines[0]);
      assert Section(lines) == line + [LF] + rest;
      SplitAtSeparator(line, LF, rest, {LF});
      SecondReaderAgrees(lines[1..]);
      assert WithoutCr(line) == lines[0];
      assert ([line] + SplitOn(rest, {LF}))[1..] == SplitOn(rest, {LF});
      assert FieldsOf(lines) == [FieldLine(lines[0]).value] + FieldsOf(lines[1..]);
    }
  }

  // ---- Framing ----

  const TRANSFER_ENCODING: bytes := Ascii("transfer-encoding")
  const CONTENT_LENGTH: bytes := Ascii("content-length")

  predicate Named(field: Field, name: bytes) { SameIgnoringCase(field.name, name) }

  // The framing that `CheckFraming` accepts: content has its length in exactly one field.
  ghost predicate IsFramed(fields: seq<Field>, content: bytes) {
    && (forall i :: 0 <= i < |fields| ==> !Named(fields[i], TRANSFER_ENCODING))
    && (forall i, j :: 0 <= i < j < |fields| ==>
          !(Named(fields[i], CONTENT_LENGTH) && Named(fields[j], CONTENT_LENGTH)))
    && (forall i :: 0 <= i < |fields| && Named(fields[i], CONTENT_LENGTH) ==>
          ParseDecimal(fields[i].value) == Some(|content|))
    && (content != [] ==> exists i :: 0 <= i < |fields| && Named(fields[i], CONTENT_LENGTH))
  }

  method CheckFraming(fields: seq<Field>, content: bytes) returns (ok: bool)
    ensures ok == IsFramed(fields, content)
  {
    hide SameIgnoringCase, ParseDecimal;
    var length: Option<nat> := None;
    ghost var at := 0;
    for i := 0 to |fields|
      invariant forall j :: 0 <= j < i ==> !Named(fields[j], TRANSFER_ENCODING)
      invariant forall j :: 0 <= j < i && Named(fields[j], CONTENT_LENGTH) ==> length.Some? && j == at
      invariant length.Some? ==>
        at < i && Named(fields[at], CONTENT_LENGTH) && ParseDecimal(fields[at].value) == length
    {
      if Named(fields[i], TRANSFER_ENCODING) {
        return false;
      }
      if Named(fields[i], CONTENT_LENGTH) {
        if length.Some? {
          return false;
        }
        length, at := ParseDecimal(fields[i].value), i;
        if length == None {
          return false;
        }
      }
    }
    return match length case None => content == [] case Some(n) => n == |content|;
  }

  // ---- Responses ----

  // `fields` is the field section, without the empty line.
  datatype Response = Response(status: nat, fields: bytes, content: bytes)

  const VERSION: bytes := Ascii("HTTP/1.1 ")

  function StatusOf(line: bytes): Option<nat> {
    if |line| < 13 || line[..9] != VERSION then None
    else
      var code, reason := line[9..12], line[13..];
      if !AllDigits(code) || line[12] != SPACE then None
      else
        var status := Value(code);
        if 100 <= status <= 599 && IsText(reason) then Some(status) else None
  }

  // A status line is the version, a code of three digits in range, a space and text.
  lemma StatusLineIs(line: bytes, status: nat)
    ensures StatusOf(line) == Some(status)
       <==> 100 <= status <= 599 && exists reason :: IsStatusLine(line, status, reason)
  {
    hide Value, Decimal, Ascii;
    VersionLength();
    if StatusOf(line) == Some(status) {
      ThreeDigits(line[9..12], status);
      assert line == VERSION + line[9..12] + [SPACE] + line[13..];
      assert IsStatusLine(line, status, line[13..]);
    }
    if 100 <= status <= 599 && exists reason :: IsStatusLine(line, status, reason) {
      var reason :| IsStatusLine(line, status, reason);
      ThreeDigits(Decimal(status), status);
      assert line[..9] == VERSION && line[9..12] == Decimal(status) && line[12] == SPACE && line[13..] == reason;
    }
  }

  ghost predicate IsStatusLine(line: bytes, status: nat, reason: bytes) {
    line == VERSION + Decimal(status) + [SPACE] + reason && IsText(reason)
  }

  lemma VersionLength()
    ensures |VERSION| == 9
  {
  }

  // Three digits whose value is not below 100 are its decimal text.
  lemma ThreeDigits(code: bytes, status: nat)
    requires 100 <= status <= 999
    ensures |code| == 3 && AllDigits(code) && Value(code) == status <==> code == Decimal(status)
  {
    hide Value, Decimal;
    DecimalOfThree(status);
    if |code| == 3 && AllDigits(code) {
      ValueOfThree(code);
      assert code == [code[0], code[1], code[2]];
      DigitsOfThree(code[0] - ZERO, code[1] - ZERO, code[2] - ZERO, status);
    } else {
      DigitsOfThree(status / 100, status / 10 % 10, status % 10, status);
    }
  }

  lemma DigitsOfThree(a: nat, b: nat, c: nat, n: nat)
    requires a <= 9 && b <= 9 && c <= 9
    ensures 100 * a + 10 * b + c == n <==> a == n / 100 && b == n / 10 % 10 && c == n % 10
  {
    assert n == 10 * (n / 10) + n % 10 && n / 10 == 10 * (n / 100) + n / 10 % 10;
  }

  lemma DecimalOfThree(n: nat)
    requires 100 <= n <= 999
    ensures Decimal(n) == [ZERO + n / 100, ZERO + n / 10 % 10, ZERO + n % 10]
  {
    assert Decimal(n / 100) == [ZERO + n / 100];
    assert Decimal(n / 10) == [ZERO + n / 100, ZERO + n / 10 % 10];
  }

  lemma ValueOfThree(code: bytes)
    requires |code| == 3 && AllDigits(code)
    ensures Value(code) == 100 * (code[0] - ZERO) + 10 * (code[1] - ZERO) + (code[2] - ZERO)
  {
    assert code[..2][..1] == code[..1] && code[..1][..0] == [];
    assert Value(code[..1]) == code[0] - ZERO;
    assert Value(code[..2]) == 10 * (code[0] - ZERO) + (code[1] - ZERO);
  }

  // What a message is: its status line, its field lines, and the empty line with the content.
  // The empty line may be missing, and then there is no content.
  datatype Message = Message(statusLine: bytes, lines: seq<bytes>, emptyLine: bool, content: bytes)

  function Print(m: Message): bytes {
    m.statusLine + CRLF + Section(m.lines) + (if m.emptyLine then CRLF + m.content else [])
  }

  ghost predicate IsMessage(m: Message) {
    && IsLine(m.statusLine) && StatusOf(m.statusLine).Some?
    && AllFieldLines(m.lines)
    && (m.content != [] ==> m.emptyLine)
    && IsFramed(FieldsOf(m.lines), m.content)
  }

  function ResponseOf(m: Message): Response
    requires StatusOf(m.statusLine).Some?
  {
    Response(StatusOf(m.statusLine).value, Section(m.lines), m.content)
  }

  // Reads field lines up to the empty line, or to the end.
  datatype Head = Head(lines: seq<bytes>, emptyLine: bool, content: bytes)

  function ReadHead(s: bytes): Option<Head>
    decreases |s|
  {
    if s == [] then Some(Head([], false, []))
    else
      match NextLine(s)
      case None => None
      case Some(line) =>
        if line.text == [] then Some(Head([], true, line.after))
        else if FieldLine(line.text) == None then None
        else
          match ReadHead(line.after)
          case None => None
          case Some(h) => Some(Head([line.text] + h.lines, h.emptyLine, h.content))
  }

  function PrintHead(h: Head): bytes {
    Section(h.lines) + (if h.emptyLine then CRLF + h.content else [])
  }

  predicate IsHead(h: Head) {
    AllFieldLines(h.lines) && (h.content != [] ==> h.emptyLine)
  }

  lemma {:induction false} ReadHeadPrints(s: bytes)
    ensures ReadHead(s).Some? ==> IsHead(ReadHead(s).value) && s == PrintHead(ReadHead(s).value)
    decreases |s|
  {
    hide FieldLine, NextLine;
    if s != [] && NextLine(s).Some? {
      var line := NextLine(s).value;
      NextLineIs(s, line.text, line.after);
      ReadHeadPrints(line.after);
      if line.text == [] {
        assert s == [] + CRLF + line.after;
      }
    }
  }

  lemma {:induction false} PrintedHeadReads(h: Head)
    requires IsHead(h)
    ensures ReadHead(PrintHead(h)) == Some(h)
    decreases |h.lines|
  {
    hide FieldLine, NextLine;
    var s := PrintHead(h);
    if s != [] {
      HeadStarts(s, h);
      if h.lines != [] {
        FieldLineIsLine(h.lines[0]);
        PrintedHeadReads(h.(lines := h.lines[1..]));
        assert [h.lines[0]] + h.lines[1..] == h.lines;
      }
    }
  }

  // How a printed head starts.
  lemma HeadStarts(s: bytes, h: Head)
    requires s == PrintHead(h) && IsHead(h) && s != []
    ensures h.lines == [] ==> NextLine(s) == Some(Line([], h.content)) && h.emptyLine
    ensures h.lines != [] ==> NextLine(s) == Some(Line(h.lines[0], PrintHead(h.(lines := h.lines[1..]))))
  {
    hide FieldLine, NextLine;
    if h.lines == [] {
      NextLineIs(s, [], h.content);
      assert s == [] + CRLF + h.content;
    } else {
      FieldLineIsLine(h.lines[0]);
      var rest := PrintHead(h.(lines := h.lines[1..]));
      assert s == h.lines[0] + CRLF + rest;
      NextLineIs(s, h.lines[0], rest);
    }
  }

  function HeadOf(m: Message): Head { Head(m.lines, m.emptyLine, m.content) }

  // The message that a text is, if it is one that the reader accepts.
  ghost function ReadMessage(s: bytes): Option<Message> {
    match NextLine(s)
    case None => None
    case Some(line) =>
      match ReadHead(line.after)
      case None => None
      case Some(h) =>
        if StatusOf(line.text).Some? && (ReadHeadPrints(line.after); IsFramed(FieldsOf(h.lines), h.content)) then
          Some(Message(line.text, h.lines, h.emptyLine, h.content))
        else None
  }

  // A text is accepted exactly if it is a printed message, and nothing of it is lost.
  lemma AcceptedIsPrinted(s: bytes, m: Message)
    ensures ReadMessage(s) == Some(m) <==> IsMessage(m) && s == Print(m)
  {
    hide FieldLine, NextLine, ReadHead, StatusOf, IsFramed;
    if ReadMessage(s) == Some(m) {
      var line := NextLine(s).value;
      NextLineIs(s, line.text, line.after);
      ReadHeadPrints(line.after);
      assert s == Print(m);
    }
    if IsMessage(m) && s == Print(m) {
      NextLineIs(s, m.statusLine, PrintHead(HeadOf(m)));
      assert s == m.statusLine + CRLF + PrintHead(HeadOf(m));
      PrintedHeadReads(HeadOf(m));
    }
  }

  method Parse(message: bytes) returns (r: Option<Response>)
    ensures r == match ReadMessage(message) case None => None case Some(m) => Some(ResponseOf(m))
  {
    hide FieldLine, IsFramed, StatusOf, FieldLines, NextLine, ReadHead, Section;
    var first := NextLine(message);
    if first == None {
      return None;
    }
    var status := StatusOf(first.value.text);
    if status == None {
      return None;
    }
    var rest := first.value.after;
    var start := |message| - |rest|;
    NextLineIs(message, first.value.text, rest);
    assert rest == message[start..];
    var ends := ReadFields(message, start);
    if ends == None {
      return None;
    }
    r := Some(Response(status.value, message[start..ends.value.0], ends.value.1));
    ReadHeadPrints(rest);
    SecondReaderAgrees(ReadHead(rest).value.lines);
    var ok := CheckFraming(FieldLines(r.value.fields), r.value.content);
    if !ok {
      return None;
    }
  }

  // Where the field lines from `start` on end, and the content after them.
  method ReadFields(message: bytes, start: nat) returns (r: Option<(nat, bytes)>)
    requires start <= |message|
    ensures r.Some? <==> ReadHead(message[start..]).Some?
    ensures r.Some? ==>
      && start <= r.value.0 <= |message|
      && message[start..r.value.0] == Section(ReadHead(message[start..]).value.lines)
      && r.value.1 == ReadHead(message[start..]).value.content
  {
    hide FieldLine, NextLine, ReadHead, Section;
    var rest := message[start..];
    ghost var lines: seq<bytes> := [];
    ghost var before := message[..start];
    ContinuesFromNothing(ReadHead(rest));
    assert Section([]) == [] by { NothingInSection(); }
    assert before + [] + rest == message;
    while rest != []
      invariant message == before + Section(lines) + rest
      invariant Continues(ReadHead(message[start..]), lines, ReadHead(rest))
      decreases |rest|
    {
      HeadSteps(rest);
      var at := |message| - |rest|;
      assert message[start..at] == Section(lines);
      var line := NextLine(rest);
      if line == None {
        return None;
      }
      if line.value.text == [] {
        assert lines + [] == lines;
        return Some((at, line.value.after));
      }
      if FieldLine(line.value.text) == None {
        return None;
      }
      ReadOneMore(ReadHead(message[start..]), rest, lines);
      SectionOneMore(lines, line.value.text);
      NextLineIs(rest, line.value.text, line.value.after);
      SectionGrows(before, Section(lines), line.value.text, line.value.after);
      lines := lines + [line.value.text];
      rest := line.value.after;
    }
    HeadSteps(rest);
    assert lines + [] == lines;
    assert message[start..] == Section(lines) + [];
    return Some((|message|, []));
  }

  lemma NothingInSection()
    ensures Section([]) == []
  {
  }

  lemma SectionGrows(before: bytes, section: bytes, line: bytes, after: bytes)
    ensures before + section + (line + CRLF + after) == before + (section + line + CRLF) + after
  {
  }

  // One step of reading a head.
  lemma HeadSteps(s: bytes)
    ensures s == [] ==> ReadHead(s) == Some(Head([], false, []))
    ensures s != [] && NextLine(s) == None ==> ReadHead(s) == None
    ensures s != [] && NextLine(s).Some? ==>
      var line := NextLine(s).value;
      && (line.text == [] ==> ReadHead(s) == Some(Head([], true, line.after)))
      && (line.text != [] && FieldLine(line.text) == None ==> ReadHead(s) == None)
  {
    hide FieldLine, NextLine;
  }

  // The head that `before` lines and the head of the rest make.
  predicate Continues(whole: Option<Head>, before: seq<bytes>, rest: Option<Head>) {
    match rest
    case None => whole == None
    case Some(h) => whole == Some(h.(lines := before + h.lines))
  }

  lemma ContinuesFromNothing(whole: Option<Head>)
    ensures Continues(whole, [], whole)
  {
    if whole.Some? {
      assert [] + whole.value.lines == whole.value.lines;
    }
  }

  lemma ReadOneMore(whole: Option<Head>, rest: bytes, lines: seq<bytes>)
    requires rest != [] && NextLine(rest).Some? && NextLine(rest).value.text != []
    requires FieldLine(NextLine(rest).value.text).Some? && Continues(whole, lines, ReadHead(rest))
    ensures var line := NextLine(rest).value; Continues(whole, lines + [line.text], ReadHead(line.after))
  {
    hide FieldLine, NextLine;
    var line := NextLine(rest).value;
    if ReadHead(line.after).Some? {
      var more := ReadHead(line.after).value.lines;
      assert lines + ([line.text] + more) == (lines + [line.text]) + more;
    }
  }
}
