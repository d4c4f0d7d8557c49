/** `multipart/mixed` bodies: the parts between their delimiters, and the boundary that names them. */
module Multiparts {
  import opened Bytes
  import opened HttpMessages
  import opened Url

  const MAX_BOUNDARY_LEN: nat := 70
  const DASHES: bytes := ['-' as int, '-' as int]

  // RFC 2046's `bchars`.
  const BOUNDARY_MARKS: set<byte> := {
    '\'' as int, '(' as int, ')' as int, '+' as int, '_' as int, ',' as int, '-' as int, '.' as int,
    '/' as int, ':' as int, '=' as int, '?' as int, ' ' as int
  }

  predicate ValidBoundary(boundary: bytes) {
    && 1 <= |boundary| <= MAX_BOUNDARY_LEN
    && (forall i :: 0 <= i < |boundary| ==> IsAlphanumeric(boundary[i]) || boundary[i] in BOUNDARY_MARKS)
    && boundary[|boundary| - 1] != SPACE
  }

  // ---- Printing ----

  // A part: its field lines and its content.
  datatype Part = Part(lines: seq<bytes>, content: bytes)

  function PartBytes(part: Part): bytes { Section(part.lines) + CRLF + part.content }

  predicate IsPart(part: Part) { AllFieldLines(part.lines) }

  // What stands before each part but the first, and after each.
  function Delimiter(boundary: bytes): bytes { CRLF + DASHES + boundary }

  // The delimiters as they are written.
  function FirstDelimiter(boundary: bytes): bytes { DASHES + boundary + CRLF }

  function MiddleDelimiter(boundary: bytes): bytes { CRLF + DASHES + boundary + CRLF }

  function CloseDelimiter(boundary: bytes): (d: bytes)
    ensures |d| > 2
  {
    CRLF + DASHES + boundary + DASHES + CRLF
  }

  // A part, and those after it with the delimiters between them.
  function PrintParts(parts: seq<Part>, boundary: bytes): bytes
    requires parts != []
  {
    if |parts| == 1 then PartBytes(parts[0])
    else PartBytes(parts[0]) + MiddleDelimiter(boundary) + PrintParts(parts[1..], boundary)
  }

  function PrintBody(parts: seq<Part>, boundary: bytes): bytes
    requires parts != []
  {
    FirstDelimiter(boundary) + PrintParts(parts, boundary) + CloseDelimiter(boundary)
  }

  // ---- Finding delimiters ----

  predicate Occurs(s: bytes, needle: bytes, at: nat) {
    at + |needle| <= |s| && s[at..at + |needle|] == needle
  }

  ghost predicate Contains(s: bytes, needle: bytes) {
    exists at: nat :: Occurs(s, needle, at)
  }

  // The first place of a needle.
  ghost predicate IsFirst(s: bytes, needle: bytes, found: Option<nat>) {
    match found
    case None => !Contains(s, needle)
    case Some(at) => Occurs(s, needle, at) && forall k: nat :: k < at ==> !Occurs(s, needle, k)
  }

  function Find(s: bytes, needle: bytes): (found: Option<nat>)
    ensures found.Some? ==> found.value + |needle| <= |s|
  {
    if |s| < |needle| then None
    else if needle <= s then Some(0)
    else if s == [] then None
    else match Find(s[1..], needle) case None => None case Some(at) => Some(at + 1)
  }

  lemma {:induction false} FindIsFirst(s: bytes, needle: bytes)
    ensures IsFirst(s, needle, Find(s, needle))
  {
    forall k: nat | Occurs(s, needle, k) ensures needle <= s || (k > 0 && Occurs(s[1..], needle, k - 1)) {
      if k > 0 {
        assert s[1..][k - 1..k - 1 + |needle|] == s[k..k + |needle|];
      }
    }
    if |s| >= |needle| && !(needle <= s) && s != [] {
      FindIsFirst(s[1..], needle);
      forall k: nat | Occurs(s[1..], needle, k) ensures Occurs(s, needle, k + 1) {
        assert s[1..][k..k + |needle|] == s[k + 1..k + 1 + |needle|];
      }
    }
  }

  const MARK: bytes := CRLF + DASHES

  // The first place from `from` on where a line starts with two dashes.
  method FindMark(s: bytes, from: nat) returns (found: Option<nat>)
    requires from <= |s|
    ensures found.Some? ==> from <= found.value && Occurs(s, MARK, found.value)
    ensures forall k: nat :: from <= k < (if found.Some? then found.value else |s|) ==> !Occurs(s, MARK, k)
  {
    var at := from;
    while at + 4 <= |s|
      invariant from <= at
      invariant forall k: nat :: from <= k < at ==> !Occurs(s, MARK, k)
    {
      if s[at..at + 4] == MARK {
        return Some(at);
      }
      at := at + 1;
    }
    return None;
  }

  // Where the next delimiter begins.
  method FindDelimiter(s: bytes, boundary: bytes) returns (found: Option<nat>)
    ensures found == Find(s, Delimiter(boundary))
  {
    hide Find;
    FindIsFirst(s, Delimiter(boundary));
    var from := 0;
    var mark := FindMark(s, from);
    while mark.Some?
      invariant from <= |s|
      invariant forall k: nat :: k < from ==> !Occurs(s, Delimiter(boundary), k)
      invariant mark.Some? ==> from <= mark.value && Occurs(s, MARK, mark.value)
      invariant forall k: nat :: from <= k < (if mark.Some? then mark.value else |s|) ==> !Occurs(s, MARK, k)
      decreases if mark.Some? then |s| + 1 - mark.value else 0
    {
      var at := mark.value;
      MarksAreFirst(s, boundary);
      AtMark(s, boundary, at);
      if boundary <= s[at + 4..] {
        return Some(at);
      }
      from := at + 1;
      mark := FindMark(s, from);
    }
    MarksAreFirst(s, boundary);
    return None;
  }

  lemma MarksAreFirst(s: bytes, boundary: bytes)
    ensures forall k: nat :: Occurs(s, Delimiter(boundary), k) ==> Occurs(s, MARK, k) && k < |s|
  {
    forall k: nat | Occurs(s, Delimiter(boundary), k) ensures Occurs(s, MARK, k) {
      assert s[k..k + 4] == s[k..k + |Delimiter(boundary)|][..4] == MARK;
    }
  }

  lemma AtMark(s: bytes, boundary: bytes, at: nat)
    requires Occurs(s, MARK, at)
    ensures Occurs(s, Delimiter(boundary), at) <==> boundary <= s[at + 4..]
  {
    if at + 4 + |boundary| <= |s| {
      assert s[at..at + 4 + |boundary|][4..] == s[at + 4..][..|boundary|];
      assert s[at..at + 4 + |boundary|] == s[at..at + 4] + s[at + 4..][..|boundary|];
    }
  }

  // A needle that starts after `k` and whose only CR is the first byte does not begin at `k`.
  lemma NoStraddle(s: bytes, needle: bytes, k: nat, at: nat)
    requires k < at < k + |needle| && at < |s| && s[at] == CR
    requires forall i :: 0 < i < |needle| ==> needle[i] != CR
    ensures !Occurs(s, needle, k)
  {
    if k + |needle| <= |s| {
      assert s[k..k + |needle|][at - k] == s[at];
    }
  }

  // No place of a delimiter reaches into the delimiter after a part: a boundary holds no CR.
  lemma NoFalseMatch(part: bytes, boundary: bytes, after: bytes)
    requires CR !in boundary
    ensures Find(part + Delimiter(boundary) + after, Delimiter(boundary)) == Some(|part|)
       <==> !Contains(part, Delimiter(boundary))
  {
    var d := Delimiter(boundary);
    var s := part + d + after;
    hide Find;
    FindIsFirst(s, d);
    assert s[|part|..|part| + |d|] == d && s[|part|] == CR;
    forall k: nat | k < |part| ensures Occurs(s, d, k) <==> Occurs(part, d, k) {
      if k + |d| <= |part| {
        assert s[k..k + |d|] == part[k..k + |d|];
      } else {
        NoStraddle(s, d, k, |part|);
      }
    }
    assert Occurs(s, d, |part|);
    if Contains(part, d) {
      var at: nat :| Occurs(part, d, at);
      assert Occurs(s, d, at) && at < |part|;
    } else {
      assert forall k: nat :: k < |part| ==> !Occurs(s, d, k);
    }
  }

  lemma ValidHasNoCr(boundary: bytes)
    requires ValidBoundary(boundary)
    ensures CR !in boundary
  {
  }

  // ---- Splitting ----

  // What the reader cuts a part into.
  datatype RawPart = RawPart(fields: bytes, content: bytes)

  function Raw(part: Part): RawPart { RawPart(Section(part.lines), part.content) }

  // A part's lines and its content. The empty line between them is required.
  function PartOf(s: bytes): Option<Part> {
    match ReadHead(s)
    case None => None
    case Some(h) => if h.emptyLine then Some(Part(h.lines, h.content)) else None
  }

  lemma PartReadsBack(s: bytes, part: Part)
    ensures PartOf(s) == Some(part) <==> IsPart(part) && s == PartBytes(part)
  {
    hide ReadHead, AllFieldLines;
    ReadHeadPrints(s);
    if IsPart(part) && s == PartBytes(part) {
      PrintedHeadReads(Head(part.lines, true, part.content));
      assert s == PrintHead(Head(part.lines, true, part.content));
    }
    if PartOf(s) == Some(part) {
      assert s == Section(part.lines) + (CRLF + part.content);
    }
  }

  method ReadPart(part: bytes) returns (r: Option<RawPart>)
    ensures r == match PartOf(part) case None => None case Some(p) => Some(Raw(p))
  {
    hide FieldLine, NextLine, ReadHead, Section;
    var rest := part;
    ghost var lines: seq<bytes> := [];
    ContinuesFromNothing(ReadHead(rest));
    NothingInSection();
    while true
      invariant part == Section(lines) + rest
      invariant Continues(ReadHead(part), lines, ReadHead(rest))
      decreases |rest|
    {
      HeadSteps(rest);
      NoLineOfNothing();
      assert lines + [] == lines;
      var at := |part| - |rest|;
      var line := NextLine(rest);
      if line == None {
        return None;
      }
      if line.value.text == [] {
        return Some(RawPart(part[..at], line.value.after));
      }
      if FieldLine(line.value.text) == None {
        return None;
      }
      ReadOneMore(ReadHead(part), rest, lines);
      SectionOneMore(lines, line.value.text);
      NextLineIs(rest, line.value.text, line.value.after);
      SectionGrows([], Section(lines), line.value.text, line.value.after);
      lines := lines + [line.value.text];
      rest := line.value.after;
    }
  }

  lemma NoLineOfNothing()
    ensures NextLine([]) == None
  {
  }

  // What follows a delimiter: another part, the end, or a fault.
  datatype After = Next(rest: bytes) | End | Fault

  function AfterDelimiter(after: bytes): After {
    if CRLF <= after then Next(after[2..])
    else if after == DASHES || after == DASHES + CRLF then End
    else Fault
  }

  datatype State = Start | InParts | Done

  // A reader, and the item that it gives next: nothing, a fault or a part.
  datatype Reader = Reader(rest: bytes, state: State)
  datatype Item = Over | Faulty | Got(part: Part)

  function NextItem(r: Reader, boundary: bytes): (Item, Reader) {
    match r.state
    case Done => (Over, r)
    case Start =>
      if FirstDelimiter(boundary) <= r.rest then NextPart(r.rest[|boundary| + 4..], boundary)
      else (Faulty, r.(state := Done))
    case InParts => NextPart(r.rest, boundary)
  }

  function NextPart(rest: bytes, boundary: bytes): (r: (Item, Reader))
    ensures r.0 != Over
  {
    match Find(rest, Delimiter(boundary))
    case None => (Faulty, Reader(rest, Done))
    case Some(end) =>
      var part := PartOf(rest[..end]);
      var item := if part.Some? then Got(part.value) else Faulty;
      match AfterDelimiter(rest[end + 4 + |boundary|..])
      case Fault => (Faulty, Reader(rest, Done))
      case End => (item, Reader([], Done))
      case Next(next) => (item, Reader(next, if part.Some? then InParts else Done))
  }

  function RawItem(item: Item): Option<Option<RawPart>> {
    match item
    case Over => None
    case Faulty => Some(None)
    case Got(part) => Some(Some(Raw(part)))
  }

  /** The parts of a body, one after the other. The first fault ends them. */
  class MultipartParts {
    var rest: bytes
    const boundary: bytes
    var state: State

    constructor (body: bytes, boundary: bytes)
      ensures rest == body && this.boundary == boundary && state == Start
    {
      rest, this.boundary, state := body, boundary, Start;
    }

    method Next() returns (item: Option<Option<RawPart>>)
      modifies this
      ensures RawItem(NextItem(old(Reader(rest, state)), boundary).0) == item
      ensures NextItem(old(Reader(rest, state)), boundary).1 == Reader(rest, state)
    {
      hide Find, PartOf, Delimiter, Raw;
      if state == Done {
        return None;
      }
      if state == Start {
        var begun := Open();
        if !begun {
          state := Done;
          return Some(None);
        }
      }
      var part := NextRaw();
      if part == None {
        state := Done;
      }
      return Some(part);
    }

    // Moves past the delimiter that the body starts with, if it starts with one.
    method Open() returns (ok: bool)
      modifies this
      ensures ok == (FirstDelimiter(boundary) <= old(rest))
      ensures ok ==> rest == old(rest)[|boundary| + 4..] && state == InParts
      ensures !ok ==> rest == old(rest) && state == old(state)
    {
      if FirstDelimiter(boundary) <= rest {
        rest, state := rest[|boundary| + 4..], InParts;
        return true;
      }
      return false;
    }

    // Moves past the next delimiter, and gives what came before it.
    method NextRaw() returns (part: Option<RawPart>)
      requires state == InParts
      modifies this
      ensures RawItem(NextPart(old(rest), boundary).0) == Some(part)
      ensures NextPart(old(rest), boundary).1 == Reader(rest, if part.Some? then state else Done)
    {
      hide Find, PartOf, Raw;
      var end := FindDelimiter(rest, boundary);
      if end == None {
        return None;
      }
      var bytes, after := rest[..end.value], rest[end.value + 4 + |boundary|..];
      match AfterDelimiter(after) {
        case Next(next) => rest := next;
        case End => rest, state := [], Done;
        case Fault => return None;
      }
      part := ReadPart(bytes);
    }
  }

  // ---- All the parts ----

  datatype Parts = Parts(parts: seq<Part>, fault: bool)

  // What a reader still gives.
  function Remaining(r: Reader, boundary: bytes): Parts
    decreases |r.rest|
  {
    var (item, next) := NextItem(r, boundary);
    if item == Over then Parts([], false)
    else if item == Faulty then Parts([], true)
    else if next.state == Done then Parts([item.part], false)
    else
      var more := (NextIsShorter(r, boundary); Remaining(next, boundary));
      Parts([item.part] + more.parts, more.fault)
  }

  lemma NextIsShorter(r: Reader, boundary: bytes)
    ensures NextItem(r, boundary).0.Got? ==>
      var next := NextItem(r, boundary).1;
      (next.state == InParts && |next.rest| < |r.rest|) || next == Reader([], Done)
  {
  }

  function SplitBody(body: bytes, boundary: bytes): Parts {
    Remaining(Reader(body, Start), boundary)
  }

  // Parts that a body can hold: the delimiter is nowhere in them.
  ghost predicate AreClear(parts: seq<Part>, boundary: bytes) {
    forall i :: 0 <= i < |parts| ==> !Contains(PartBytes(parts[i]), Delimiter(boundary))
  }

  predicate AreParts(parts: seq<Part>) {
    forall i :: 0 <= i < |parts| ==> IsPart(parts[i])
  }

  // The rest of a body, with its final CRLF or without.
  predicate IsRest(rest: bytes, parts: seq<Part>, boundary: bytes)
    requires parts != []
  {
    var printed := PrintParts(parts, boundary) + CloseDelimiter(boundary);
    rest == printed || rest + CRLF == printed
  }

  // Where a part ends.
  lemma PartFound(rest: bytes, boundary: bytes) returns (part: bytes, after: bytes)
    requires CR !in boundary && Find(rest, Delimiter(boundary)).Some?
    ensures rest == part + Delimiter(boundary) + after && !Contains(part, Delimiter(boundary))
    ensures var end := Find(rest, Delimiter(boundary)).value;
      part == rest[..end] && end + 4 + |boundary| <= |rest| && after == rest[end + 4 + |boundary|..]
  {
    hide Find, Contains, Delimiter;
    var d := Delimiter(boundary);
    assert |d| == 4 + |boundary| by { Delimiters(boundary); }
    var end := Find(rest, d).value;
    part, after := rest[..end], rest[end + 4 + |boundary|..];
    FoundHere(rest, d);
    NoFalseMatch(part, boundary, after);
  }

  // One part read is one part printed.
  lemma OnePart(rest: bytes, boundary: bytes)
    requires CR !in boundary && NextPart(rest, boundary).0.Got?
    ensures var (item, next) := NextPart(rest, boundary);
      && IsPart(item.part) && !Contains(PartBytes(item.part), Delimiter(boundary))
      && (next.state == InParts ==> rest == PartBytes(item.part) + MiddleDelimiter(boundary) + next.rest)
      && (next.state == Done ==> IsRest(rest, [item.part], boundary))
  {
    hide Find, PartOf, Contains, IsPart, PartBytes, Delimiter, MiddleDelimiter, CloseDelimiter, IsRest,
         AfterDelimiter;
    var part, after := PartFound(rest, boundary);
    PartReadsBack(part, PartOf(part).value);
    if AfterDelimiter(after).Next? {
      MiddlePrinted(PartOf(part).value, boundary, after);
    } else {
      LastPrinted(PartOf(part).value, boundary, after);
    }
  }

  lemma MiddlePrinted(part: Part, boundary: bytes, after: bytes)
    requires AfterDelimiter(after).Next?
    ensures PartBytes(part) + Delimiter(boundary) + after
         == PartBytes(part) + MiddleDelimiter(boundary) + AfterDelimiter(after).rest
  {
    hide PartBytes, Delimiter, MiddleDelimiter;
    assert after == CRLF + after[2..];
    Delimiters(boundary);
  }

  lemma LastPrinted(part: Part, boundary: bytes, after: bytes)
    requires AfterDelimiter(after) == End
    ensures IsRest(PartBytes(part) + Delimiter(boundary) + after, [part], boundary)
  {
    hide PartBytes;
    var rest := PartBytes(part) + Delimiter(boundary) + after;
    if after == DASHES {
      assert rest + CRLF == PartBytes(part) + CloseDelimiter(boundary);
    } else {
      assert rest == PartBytes(part) + CloseDelimiter(boundary);
    }
  }

  lemma FoundHere(s: bytes, needle: bytes)
    ensures Find(s, needle).Some? ==>
      var at := Find(s, needle).value; s == s[..at] + needle + s[at + |needle|..]
  {
    hide Find;
    FindIsFirst(s, needle);
  }

  // One part printed is one part read.
  lemma OnePartPrinted(part: Part, boundary: bytes, after: bytes)
    requires CR !in boundary && IsPart(part) && !Contains(PartBytes(part), Delimiter(boundary))
    ensures NextPart(PartBytes(part) + Delimiter(boundary) + after, boundary)
         == match AfterDelimiter(after)
            case Fault => (Faulty, Reader(PartBytes(part) + Delimiter(boundary) + after, Done))
            case End => (Got(part), Reader([], Done))
            case Next(next) => (Got(part), Reader(next, InParts))
  {
    hide Find, PartOf, Contains, IsPart, PartBytes;
    var bytes := PartBytes(part);
    var rest := bytes + Delimiter(boundary) + after;
    NoFalseMatch(bytes, boundary, after);
    PartReadsBack(bytes, part);
    assert rest[..|bytes|] == bytes && rest[|bytes| + 4 + |boundary|..] == after;
  }

  lemma {:induction false} ReadIsPrinted(rest: bytes, boundary: bytes)
    requires CR !in boundary
    ensures var r := Remaining(Reader(rest, InParts), boundary);
      !r.fault ==> r.parts != [] && AreParts(r.parts) && AreClear(r.parts, boundary) && IsRest(rest, r.parts, boundary)
    decreases |rest|
  {
    hide NextPart, Contains, IsPart, PartBytes, Delimiter, CloseDelimiter, MiddleDelimiter;
    var (item, next) := NextPart(rest, boundary);
    if item.Got? {
      OnePart(rest, boundary);
      NextIsShorter(Reader(rest, InParts), boundary);
      if next.state != Done {
        ReadIsPrinted(next.rest, boundary);
        var more := Remaining(next, boundary);
        if !more.fault {
          assert ([item.part] + more.parts)[1..] == more.parts;
          RestGrows(item.part, next.rest, more.parts, boundary);
        }
      }
    }
  }

  lemma RestGrows(part: Part, rest: bytes, parts: seq<Part>, boundary: bytes)
    requires parts != [] && IsRest(rest, parts, boundary)
    ensures IsRest(PartBytes(part) + MiddleDelimiter(boundary) + rest, [part] + parts, boundary)
  {
    hide PartBytes, CloseDelimiter, MiddleDelimiter;
    var head := PartBytes(part) + MiddleDelimiter(boundary);
    assert ([part] + parts)[1..] == parts;
    assert PrintParts([part] + parts, boundary) == head + PrintParts(parts, boundary);
    assert (head + rest) + CRLF == head + (rest + CRLF);
    assert head + PrintParts(parts, boundary) + CloseDelimiter(boundary)
        == head + (PrintParts(parts, boundary) + CloseDelimiter(boundary));
  }

  lemma {:induction false} PrintedIsRead(rest: bytes, parts: seq<Part>, boundary: bytes)
    requires CR !in boundary && parts != [] && AreParts(parts) && AreClear(parts, boundary)
    requires IsRest(rest, parts, boundary)
    ensures Remaining(Reader(rest, InParts), boundary) == Parts(parts, false)
    decreases |parts|
  {
    hide NextPart, Contains, IsPart, PartBytes, CloseDelimiter, Delimiter, IsRest;
    var part := parts[0];
    if |parts| == 1 {
      assert parts == [part];
      LastIsRead(rest, part, boundary);
    } else {
      assert parts == [part] + parts[1..];
      var next := OneMoreIsRead(rest, part, parts[1..], boundary);
      PrintedIsRead(next, parts[1..], boundary);
    }
  }

  lemma OneMoreIsRead(rest: bytes, part: Part, parts: seq<Part>, boundary: bytes) returns (next: bytes)
    requires CR !in boundary && IsPart(part) && !Contains(PartBytes(part), Delimiter(boundary))
    requires parts != [] && IsRest(rest, [part] + parts, boundary)
    ensures NextPart(rest, boundary) == (Got(part), Reader(next, InParts)) && IsRest(next, parts, boundary)
    ensures |next| < |rest|
  {
    hide NextPart, Contains, IsPart, PartBytes, CloseDelimiter, Delimiter;
    assert ([part] + parts)[1..] == parts;
    var head := PartBytes(part) + MiddleDelimiter(boundary);
    var printed := PrintParts(parts, boundary) + CloseDelimiter(boundary);
    assert PrintParts([part] + parts, boundary) + CloseDelimiter(boundary) == head + printed;
    NextRest(rest, head, printed);
    next := rest[|head|..];
    OnePartPrinted(part, boundary, CRLF + next);
    Delimiters(boundary);
    assert rest == PartBytes(part) + Delimiter(boundary) + (CRLF + next);
    assert (CRLF + next)[2..] == next;
  }

  lemma LastIsRead(rest: bytes, part: Part, boundary: bytes)
    requires CR !in boundary && IsPart(part) && !Contains(PartBytes(part), Delimiter(boundary))
    requires IsRest(rest, [part], boundary)
    ensures NextPart(rest, boundary) == (Got(part), Reader([], Done))
  {
    hide NextPart, Contains, IsPart, PartBytes, Delimiter, CloseDelimiter;
    LastRest(rest, part, boundary);
    var after := if rest == PartBytes(part) + CloseDelimiter(boundary) then DASHES + CRLF else DASHES;
    assert AfterDelimiter(after) == End by {
      assert after[0] != CR;
    }
    OnePartPrinted(part, boundary, after);
  }

  lemma LastRest(rest: bytes, part: Part, boundary: bytes)
    requires IsRest(rest, [part], boundary)
    ensures var bytes := PartBytes(part);
      if rest == bytes + CloseDelimiter(boundary) then rest == bytes + Delimiter(boundary) + (DASHES + CRLF)
      else rest == bytes + Delimiter(boundary) + DASHES
  {
    hide PartBytes;
    var short := PartBytes(part) + Delimiter(boundary) + DASHES;
    assert short + CRLF == PartBytes(part) + CloseDelimiter(boundary);
    if rest + CRLF == short + CRLF {
      assert rest == (rest + CRLF)[..|rest|] && short == (short + CRLF)[..|short|];
    }
  }

  lemma Delimiters(boundary: bytes)
    ensures MiddleDelimiter(boundary) == Delimiter(boundary) + CRLF
    ensures CloseDelimiter(boundary) == Delimiter(boundary) + DASHES + CRLF
    ensures |Delimiter(boundary)| == 4 + |boundary|
  {
  }

  lemma NextRest(rest: bytes, head: bytes, printed: bytes)
    requires (rest == head + printed || rest + CRLF == head + printed) && |printed| >= 2
    ensures |head| <= |rest| && rest == head + rest[|head|..]
    ensures rest[|head|..] == printed || rest[|head|..] + CRLF == printed
  {
    if rest + CRLF == head + printed {
      assert (rest + CRLF)[..|head|] == head && (rest + CRLF)[|head|..] == printed;
      assert rest[..|head|] == head;
    }
  }

  // A body splits into parts without a fault exactly if it prints them, with its final CRLF or
  // without, and no part holds a delimiter.
  lemma SplitIsPrinted(body: bytes, boundary: bytes, parts: seq<Part>)
    requires CR !in boundary && parts != []
    ensures SplitBody(body, boundary) == Parts(parts, false)
       <==> && AreParts(parts) && AreClear(parts, boundary)
            && (body == PrintBody(parts, boundary) || body + CRLF == PrintBody(parts, boundary))
  {
    hide NextPart, AreParts, AreClear, PrintParts, CloseDelimiter;
    var first := FirstDelimiter(boundary);
    if first <= body {
      var rest := body[|first|..];
      assert body == first + rest && rest == body[|boundary| + 4..];
      BodyAndRest(body, rest, parts, boundary);
      StartIsInParts(body, boundary);
      ReadIsPrinted(rest, boundary);
      if AreParts(parts) && AreClear(parts, boundary) && IsRest(rest, parts, boundary) {
        PrintedIsRead(rest, parts, boundary);
      }
    } else {
      NotABody(body, parts, boundary);
    }
  }

  // ---- What is given before a fault ----

  // Parts, each with the delimiter after it that lets another part follow.
  function OpenedParts(parts: seq<Part>, boundary: bytes): bytes {
    if parts == [] then []
    else PartBytes(parts[0]) + MiddleDelimiter(boundary) + OpenedParts(parts[1..], boundary)
  }

  // A body at fault gives exactly the parts that stand at its start, up to the first one that is
  // none or that no delimiter follows.
  lemma FaultyBodyGives(body: bytes, boundary: bytes, parts: seq<Part>)
    requires CR !in boundary && parts != [] && SplitBody(body, boundary).fault
    ensures parts <= SplitBody(body, boundary).parts
       <==> && AreParts(parts) && AreClear(parts, boundary)
            && FirstDelimiter(boundary) + OpenedParts(parts, boundary) <= body
  {
    hide NextPart, AreParts, AreClear, OpenedParts, FirstDelimiter, IsPart, Contains;
    var first, printed := FirstDelimiter(boundary), OpenedParts(parts, boundary);
    if first <= body {
      FirstLength(boundary);
      var rest := body[|boundary| + 4..];
      assert body == first + rest;
      StartIsInParts(body, boundary);
      var given := Remaining(Reader(rest, InParts), boundary).parts;
      HeadIsFirst(first, printed, rest);
      if parts <= given {
        FaultyIsOpened(rest, boundary);
        SomeAreOpened(parts, given, boundary);
      } else if AreParts(parts) && AreClear(parts, boundary) && printed <= rest {
        OpenedAreGiven(rest, parts, boundary);
      }
    } else {
      NothingGiven(body, boundary);
      assert first <= first + printed;
    }
  }

  lemma FirstLength(boundary: bytes)
    ensures |FirstDelimiter(boundary)| == |boundary| + 4
  {
  }

  lemma HeadIsFirst(head: bytes, s: bytes, rest: bytes)
    ensures head + s <= head + rest <==> s <= rest
  {
    if head + s <= head + rest {
      assert (head + rest)[|head|..|head| + |s|] == (head + s)[|head|..];
      assert rest[..|s|] == (head + rest)[|head|..|head| + |s|] && s == (head + s)[|head|..];
    }
  }

  lemma NothingGiven(body: bytes, boundary: bytes)
    requires !(FirstDelimiter(boundary) <= body)
    ensures SplitBody(body, boundary).parts == []
  {
    hide FirstDelimiter;
  }

  // Parts that are opened are given, whatever follows them.
  lemma {:induction false} OpenedAreGiven(rest: bytes, parts: seq<Part>, boundary: bytes)
    requires CR !in boundary && AreParts(parts) && AreClear(parts, boundary)
    requires OpenedParts(parts, boundary) <= rest
    ensures parts <= Remaining(Reader(rest, InParts), boundary).parts
    decreases |parts|
  {
    hide NextPart, Contains, IsPart, PartBytes, MiddleDelimiter, Delimiter;
    if parts != [] {
      var head := PartBytes(parts[0]) + MiddleDelimiter(boundary);
      var next := rest[|head|..];
      assert rest == head + next;
      HeadIsFirst(head, OpenedParts(parts[1..], boundary), next);
      OpenedIsRead(parts[0], boundary, next);
      OpenedAreGiven(next, parts[1..], boundary);
      assert parts == [parts[0]] + parts[1..];
    }
  }

  lemma OpenedIsRead(part: Part, boundary: bytes, next: bytes)
    requires CR !in boundary && IsPart(part) && !Contains(PartBytes(part), Delimiter(boundary))
    ensures NextPart(PartBytes(part) + MiddleDelimiter(boundary) + next, boundary) == (Got(part), Reader(next, InParts))
  {
    hide NextPart, Contains, IsPart, PartBytes, MiddleDelimiter, Delimiter;
    Delimiters(boundary);
    OnePartPrinted(part, boundary, CRLF + next);
    assert (CRLF + next)[2..] == next;
    assert PartBytes(part) + MiddleDelimiter(boundary) + next == PartBytes(part) + Delimiter(boundary) + (CRLF + next);
  }

  // Parts that are given before a fault are opened.
  lemma {:induction false} FaultyIsOpened(rest: bytes, boundary: bytes)
    requires CR !in boundary && Remaining(Reader(rest, InParts), boundary).fault
    ensures
      var parts := Remaining(Reader(rest, InParts), boundary).parts;
      AreParts(parts) && AreClear(parts, boundary) && OpenedParts(parts, boundary) <= rest
    decreases |rest|
  {
    hide NextPart, Contains, IsPart, PartBytes, MiddleDelimiter, Delimiter;
    var (item, next) := NextPart(rest, boundary);
    if item.Got? {
      OnePart(rest, boundary);
      NextIsShorter(Reader(rest, InParts), boundary);
      FaultyIsOpened(next.rest, boundary);
      var more := Remaining(next, boundary).parts;
      assert ([item.part] + more)[1..] == more;
      HeadIsFirst(PartBytes(item.part) + MiddleDelimiter(boundary), OpenedParts(more, boundary), next.rest);
    }
  }

  lemma {:induction false} SomeAreOpened(parts: seq<Part>, all: seq<Part>, boundary: bytes)
    requires parts <= all && AreParts(all) && AreClear(all, boundary)
    ensures AreParts(parts) && AreClear(parts, boundary)
    ensures OpenedParts(parts, boundary) <= OpenedParts(all, boundary)
    decreases |parts|
  {
    hide Contains, IsPart, PartBytes, MiddleDelimiter, Delimiter;
    if parts != [] {
      SomeAreOpened(parts[1..], all[1..], boundary);
      HeadIsFirst(PartBytes(parts[0]) + MiddleDelimiter(boundary), OpenedParts(parts[1..], boundary),
                  OpenedParts(all[1..], boundary));
    }
  }

  lemma StartIsInParts(body: bytes, boundary: bytes)
    requires FirstDelimiter(boundary) <= body
    ensures SplitBody(body, boundary) == Remaining(Reader(body[|boundary| + 4..], InParts), boundary)
  {
    hide NextItem;
    StartIsSkipped(body, boundary);
  }

  lemma StartIsSkipped(body: bytes, boundary: bytes)
    requires FirstDelimiter(boundary) <= body
    ensures NextItem(Reader(body, Start), boundary) == NextItem(Reader(body[|boundary| + 4..], InParts), boundary)
  {
    hide NextPart;
  }

  lemma BodyAndRest(body: bytes, rest: bytes, parts: seq<Part>, boundary: bytes)
    requires parts != [] && body == FirstDelimiter(boundary) + rest
    ensures IsRest(rest, parts, boundary)
       <==> body == PrintBody(parts, boundary) || body + CRLF == PrintBody(parts, boundary)
  {
    hide PrintParts, CloseDelimiter, FirstDelimiter;
    var first, printed := FirstDelimiter(boundary), PrintParts(parts, boundary) + CloseDelimiter(boundary);
    assert PrintBody(parts, boundary) == first + printed;
    assert body + CRLF == first + (rest + CRLF);
    SameHead(first, rest, printed);
    SameHead(first, rest + CRLF, printed);
  }

  lemma SameHead(head: bytes, a: bytes, b: bytes)
    ensures head + a == head + b <==> a == b
  {
    assert (head + a)[|head|..] == a && (head + b)[|head|..] == b;
  }

  lemma NotABody(body: bytes, parts: seq<Part>, boundary: bytes)
    requires parts != [] && !(FirstDelimiter(boundary) <= body)
    ensures body != PrintBody(parts, boundary) && body + CRLF != PrintBody(parts, boundary)
  {
    hide PrintParts, FirstDelimiter;
    var first := FirstDelimiter(boundary);
    var printed := PrintParts(parts, boundary) + CloseDelimiter(boundary);
    assert PrintBody(parts, boundary) == first + printed;
    if body + CRLF == PrintBody(parts, boundary) {
      NextRest(body, first, printed);
    }
  }

  // A reader that reports no fault always gives a part.
  lemma SplitHasParts(body: bytes, boundary: bytes)
    ensures !SplitBody(body, boundary).fault ==> SplitBody(body, boundary).parts != []
  {
    hide NextPart, Find;
  }

  // Reads all the parts, as a caller of the iterator does.
  method ReadAll(body: bytes, boundary: bytes) returns (parts: seq<RawPart>, fault: bool)
    ensures fault == SplitBody(body, boundary).fault
    ensures |parts| == |SplitBody(body, boundary).parts|
    ensures forall i :: 0 <= i < |parts| ==> parts[i] == Raw(SplitBody(body, boundary).parts[i])
  {
    hide Raw, NextItem, Remaining;
    parts := [];
    var reader := new MultipartParts(body, boundary);
    var item := reader.Next();
    ghost var at := Reader(body, Start);
    ghost var given: seq<Part> := [];
    assert [] + SplitBody(body, boundary).parts == SplitBody(body, boundary).parts;
    while item.Some? && item.value.Some?
      invariant fresh(reader) && reader.boundary == boundary
      invariant item == RawItem(NextItem(at, boundary).0)
      invariant Reader(reader.rest, reader.state) == NextItem(at, boundary).1
      invariant |given| == |parts| && forall i :: 0 <= i < |parts| ==> parts[i] == Raw(given[i])
      invariant given + Remaining(at, boundary).parts == SplitBody(body, boundary).parts
      invariant Remaining(at, boundary).fault == SplitBody(body, boundary).fault
      decreases |at.rest|, if at.state == Done then 0 else 1
    {
      ghost var got, next := NextItem(at, boundary).0.part, NextItem(at, boundary).1;
      RemainingSteps(at, boundary);
      assert (given + [got]) + Remaining(next, boundary).parts == given + ([got] + Remaining(next, boundary).parts);
      parts, given := parts + [item.value.value], given + [got];
      at := next;
      item := reader.Next();
    }
    RemainingSteps(at, boundary);
    fault := item.Some?;
    assert given + [] == given;
  }

  // What a reader still gives, by one step.
  lemma RemainingSteps(r: Reader, boundary: bytes)
    ensures var (item, next) := NextItem(r, boundary);
      && (item.Got? ==>
           && Remaining(r, boundary).parts == [item.part] + Remaining(next, boundary).parts
           && Remaining(r, boundary).fault == Remaining(next, boundary).fault
           && (|next.rest| < |r.rest| || (next.rest == r.rest && next.state == Done != r.state)))
      && (!item.Got? ==> Remaining(r, boundary) == Parts([], item.Faulty?))
  {
    hide NextItem;
    NextIsShorter(r, boundary);
    NothingWhenDone(r, boundary);
    var (item, next) := NextItem(r, boundary);
    if item.Got? {
      AfterDone(next, boundary);
      assert [item.part] + [] == [item.part];
    }
  }

  lemma NothingWhenDone(r: Reader, boundary: bytes)
    ensures r.state == Done ==> NextItem(r, boundary).0 == Over
  {
  }

  lemma AfterDone(r: Reader, boundary: bytes)
    ensures r.state == Done ==> Remaining(r, boundary) == Parts([], false)
  {
    hide NextPart;
  }

  // ---- The boundary that a content type names ----

  const SEMICOLON: byte := ';' as int
  const EQUALS: byte := '=' as int
  const QUOTE: byte := '"' as int
  const BACKSLASH: byte := '\\' as int
  const MIXED: bytes := Ascii("multipart/mixed")
  const BOUNDARY: bytes := Ascii("boundary")

  // A parameter's value: a quoted string without escapes, or a token.
  function ParameterValue(value: bytes): Option<bytes> {
    if |value| >= 2 && value[0] == QUOTE && value[|value| - 1] == QUOTE
       && BACKSLASH !in value[1..|value| - 1] && QUOTE !in value[1..|value| - 1] then Some(value[1..|value| - 1])
    else if IsToken(value) then Some(value)
    else None
  }

  function Parameter(piece: bytes): Option<Field> {
    var parameter := Trimmed(piece, BLANKS);
    var equals := FirstByte(parameter, EQUALS);
    if equals == |parameter| || !IsToken(parameter[..equals]) then None
    else
      match ParameterValue(parameter[equals + 1..])
      case None => None
      case Some(value) => Some(Field(parameter[..equals], value))
  }

  // The boundary among parameters, after `found` was: nothing if one is no parameter, or if two
  // are boundaries.
  function BoundaryAmong(pieces: seq<bytes>, found: Option<bytes>): Option<bytes> {
    if pieces == [] then found
    else
      match Parameter(pieces[0])
      case None => None
      case Some(field) =>
        if !Named(field, BOUNDARY) then BoundaryAmong(pieces[1..], found)
        else if found.Some? then None
        else BoundaryAmong(pieces[1..], Some(field.value))
  }

  function BoundaryOf(contentType: bytes): Option<bytes> {
    var pieces := SplitOn(contentType, {SEMICOLON});
    if !SameIgnoringCase(Trimmed(pieces[0], BLANKS), MIXED) then None
    else
      match BoundaryAmong(pieces[1..], None)
      case None => None
      case Some(boundary) => if ValidBoundary(boundary) then Some(boundary) else None
  }

  method ReadBoundary(contentType: bytes) returns (r: Option<bytes>)
    ensures r == BoundaryOf(contentType)
    ensures r.Some? ==> ValidBoundary(r.value) && CR !in r.value
  {
    hide Parameter, SplitOn, Named, SameIgnoringCase, ValidBoundary;
    var pieces := SplitOn(contentType, {SEMICOLON});
    var mediaType := TrimWhitespace(pieces[0]);
    if !SameIgnoringCase(mediaType, MIXED) {
      return None;
    }
    var boundary: Option<bytes> := None;
    for i := 1 to |pieces|
      invariant BoundaryAmong(pieces[i..], boundary) == BoundaryAmong(pieces[1..], None)
    {
      assert pieces[i..][1..] == pieces[i + 1..];
      var field := Parameter(pieces[i]);
      if field == None {
        return None;
      }
      if Named(field.value, BOUNDARY) {
        if boundary.Some? {
          return None;
        }
        boundary := Some(field.value.value);
      }
    }
    if boundary == None || !ValidBoundary(boundary.value) {
      return None;
    }
    ValidHasNoCr(boundary.value);
    return boundary;
  }

  // The content type that a request writes.
  const MIXED_WITH_BOUNDARY: bytes := MIXED + [SEMICOLON, SPACE] + BOUNDARY + [EQUALS]

  function MixedContentType(boundary: bytes): bytes { MIXED_WITH_BOUNDARY + boundary }

  // A boundary is written as it is, without quotes, so the reader takes it back exactly if it is a
  // token; it takes every valid boundary back in quotes.
  lemma BoundaryReadsBack(boundary: bytes)
    requires ValidBoundary(boundary)
    ensures BoundaryOf(MixedContentType(boundary)) == if IsToken(boundary) then Some(boundary) else None
    ensures BoundaryOf(MixedContentType([QUOTE] + boundary + [QUOTE])) == Some(boundary)
  {
    hide BoundaryOf, ParameterValue, MixedContentType, IsToken;
    ValueReads(boundary);
    ValidHasNone(boundary);
    BoundaryIsValue(boundary);
    BoundaryIsValue([QUOTE] + boundary + [QUOTE]);
  }

  lemma ValueReads(boundary: bytes)
    requires ValidBoundary(boundary)
    ensures ParameterValue(boundary) == if IsToken(boundary) then Some(boundary) else None
    ensures ParameterValue([QUOTE] + boundary + [QUOTE]) == Some(boundary)
  {
    ValidHasNone(boundary);
    var quoted := [QUOTE] + boundary + [QUOTE];
    assert quoted[1..|quoted| - 1] == boundary;
  }

  lemma ValidHasNone(boundary: bytes)
    requires ValidBoundary(boundary)
    ensures SEMICOLON !in boundary && QUOTE !in boundary && BACKSLASH !in boundary && TAB !in boundary
  {
  }

  // The reader finds what follows the equals sign.
  lemma BoundaryIsValue(value: bytes)
    requires value != [] && SEMICOLON !in value && !IsBlank(value[|value| - 1])
    ensures BoundaryOf(MixedContentType(value)) == match ParameterValue(value)
      case None => None
      case Some(boundary) => if ValidBoundary(boundary) then Some(boundary) else None
  {
    hide ParameterValue, ValidBoundary, FirstByte, SplitOn, Trimmed, Ascii;
    var piece := [SPACE] + (BOUNDARY + [EQUALS] + value);
    MixedParts();
    assert MixedContentType(value) == MIXED + [SEMICOLON] + piece;
    assert forall i :: 0 <= i < |MIXED| ==> MIXED[i] in MIXED;
    assert forall i :: 0 <= i < |piece| ==> piece[i] in piece;
    SplitAtSeparator(MIXED, SEMICOLON, piece, {SEMICOLON});
    SplitOfOne(piece, {SEMICOLON});
    TrimmedIsSame(MIXED, BLANKS);
    BoundaryParameter(value);
    var pieces := SplitOn(MixedContentType(value), {SEMICOLON});
    assert pieces == [MIXED, piece] && pieces[1..] == [piece];
    OneParameter(piece);
  }

  lemma OneParameter(piece: bytes)
    ensures BoundaryAmong([piece], None) == match Parameter(piece)
      case None => None
      case Some(field) => if Named(field, BOUNDARY) then Some(field.value) else None
  {
    hide Parameter, Named;
    assert [piece][1..] == [];
  }

  lemma MixedContentTypeIs(boundary: bytes)
    ensures MixedContentType(boundary) == Ascii("multipart/mixed; boundary=") + boundary
  {
    hide Ascii;
    MarksAreCharacters();
    AsciiJoins("multipart/mixed", "; ");
    AsciiJoins("multipart/mixed" + "; ", "boundary");
    AsciiJoins("multipart/mixed" + "; " + "boundary", "=");
    assert "multipart/mixed" + "; " + "boundary" + "=" == "multipart/mixed; boundary=";
  }

  lemma MarksAreCharacters()
    ensures Ascii("; ") == [SEMICOLON, SPACE] && Ascii("=") == [EQUALS]
  {
  }

  // A text of small letters and slashes holds no blank and none of the marks.
  predicate IsPlainText(text: string) {
    text != "" && forall i :: 0 <= i < |text| ==> 'a' <= text[i] <= 'z' || text[i] == '/'
  }

  lemma PlainTextHasNone(text: string)
    requires IsPlainText(text)
    ensures var s := Ascii(text);
      s != [] && SEMICOLON !in s && EQUALS !in s && !IsBlank(s[0]) && !IsBlank(s[|s| - 1])
  {
  }

  lemma MixedParts()
    ensures MIXED_WITH_BOUNDARY == MIXED + [SEMICOLON] + [SPACE] + BOUNDARY + [EQUALS]
    ensures MIXED != [] && SEMICOLON !in MIXED && !IsBlank(MIXED[0]) && !IsBlank(MIXED[|MIXED| - 1])
    ensures BOUNDARY != [] && IsToken(BOUNDARY) && EQUALS !in BOUNDARY
    ensures SEMICOLON !in BOUNDARY && !IsBlank(BOUNDARY[0])
  {
    hide Ascii, IsToken;
    PlainTextHasNone("multipart/mixed");
    PlainTextHasNone("boundary");
    BoundaryIsToken("boundary");
  }

  lemma BoundaryIsToken(text: string)
    requires text != "" && forall i :: 0 <= i < |text| ==> 'a' <= text[i] <= 'z'
    ensures IsToken(Ascii(text))
  {
  }

  lemma BoundaryParameter(value: bytes)
    requires value != [] && !IsBlank(value[|value| - 1])
    ensures Parameter([SPACE] + (BOUNDARY + [EQUALS] + value)) == match ParameterValue(value)
      case None => None
      case Some(v) => Some(Field(BOUNDARY, v))
  {
    hide ParameterValue, FirstByte, IsToken, Ascii;
    MixedParts();
    var parameter := BOUNDARY + [EQUALS] + value;
    TrimmedIsSame(parameter, BLANKS);
    assert ([SPACE] + parameter)[1..] == parameter;
    assert Trimmed([SPACE] + parameter, BLANKS) == parameter;
    SplitAtFirst(BOUNDARY, EQUALS, value);
  }

  // A text of small letters, hyphens and underscores is a valid boundary and a token.
  lemma MarkedTextIsToken(text: string)
    requires 1 <= |text| <= MAX_BOUNDARY_LEN
    requires forall i :: 0 <= i < |text| ==> 'a' <= text[i] <= 'z' || text[i] == '-' || text[i] == '_'
    ensures ValidBoundary(Ascii(text)) && IsToken(Ascii(text))
  {
    hide IsAlphanumeric, IsTokenByte;
    forall i | 0 <= i < |text|
      ensures var b := Ascii(text)[i]; IsTokenByte(b) && b != SPACE && (IsAlphanumeric(b) || b in BOUNDARY_MARKS)
    {
      MarkedByte(text[i] as int);
    }
  }

  lemma MarkedByte(b: byte)
    requires 'a' as int <= b <= 'z' as int || b == '-' as int || b == '_' as int
    ensures IsTokenByte(b) && b != SPACE && (IsAlphanumeric(b) || b in BOUNDARY_MARKS)
  {
  }

  // The boundary of the batches that are written is a token, so it is read back.
  lemma BatchBoundaryReadsBack()
    ensures
      var boundary := Ascii("batch_borink-object-storage");
      ValidBoundary(boundary) && BoundaryOf(MixedContentType(boundary)) == Some(boundary)
  {
    hide BoundaryOf, MixedContentType, ValidBoundary, IsToken, Ascii;
    MarkedTextIsToken("batch_borink-object-storage");
    BoundaryReadsBack(Ascii("batch_borink-object-storage"));
  }

  // A boundary with a space is valid, and not read back without quotes.
  lemma SpacedBoundaryIsNotReadBack()
    ensures
      var boundary := Ascii("a b");
      ValidBoundary(boundary) && BoundaryOf(MixedContentType(boundary)) == None
  {
    hide BoundaryOf, MixedContentType;
    assert !IsTokenByte(Ascii("a b")[1]);
    BoundaryReadsBack(Ascii("a b"));
  }

  // A boundary has up to 70 characters, section 5.1.1 of RFC 2046.
  lemma BoundaryLengths(n: nat)
    ensures ValidBoundary(Repeated('b' as int, n)) <==> 1 <= n <= 70
  {
    hide BOUNDARY_MARKS;
  }

  // ---- The reader of content types, exactly ----

  // A parameter is a token, an equals sign and a value, with blanks around them.
  lemma ParameterIs(piece: bytes, field: Field)
    ensures Parameter(piece) == Some(field)
       <==> exists value ::
              && Trimmed(piece, BLANKS) == field.name + [EQUALS] + value
              && IsToken(field.name) && ParameterValue(value) == Some(field.value)
  {
    hide Trimmed, ParameterValue, FirstByte, IsToken;
    var parameter := Trimmed(piece, BLANKS);
    var equals := FirstByte(parameter, EQUALS);
    if Parameter(piece) == Some(field) {
      assert parameter == field.name + [EQUALS] + parameter[equals + 1..];
    }
    forall value | parameter == field.name + [EQUALS] + value && IsToken(field.name)
                   && ParameterValue(value) == Some(field.value)
      ensures Parameter(piece) == Some(field)
    {
      TokenHasNoEquals(field.name);
      SplitAtFirst(field.name, EQUALS, value);
    }
  }

  lemma TokenHasNoEquals(name: bytes)
    requires IsToken(name)
    ensures EQUALS !in name
  {
  }

  // A value is a text in quotes that holds no quote and no escape, or a token.
  lemma ParameterValueIs(value: bytes, text: bytes)
    ensures ParameterValue(value) == Some(text)
       <==> || (value == [QUOTE] + text + [QUOTE] && QUOTE !in text && BACKSLASH !in text)
            || (value == text && IsToken(text))
  {
    if |value| >= 2 {
      assert value[0] == QUOTE && value[|value| - 1] == QUOTE ==> value == [QUOTE] + value[1..|value| - 1] + [QUOTE];
    }
    if value == [QUOTE] + text + [QUOTE] {
      assert value[1..|value| - 1] == text;
      assert !IsTokenByte(value[0]);
    }
    if value == text && IsToken(text) {
      assert IsTokenByte(value[0]) && value[0] != QUOTE;
    }
  }

  // Whether the piece `k` names a boundary.
  predicate IsBoundaryAt(pieces: seq<bytes>, k: nat) {
    k < |pieces| && Parameter(pieces[k]).Some? && Named(Parameter(pieces[k]).value, BOUNDARY)
  }

  predicate AreParameters(pieces: seq<bytes>) {
    forall k :: 0 <= k < |pieces| ==> Parameter(pieces[k]).Some?
  }

  // Every piece is a parameter, and one alone names a boundary.
  ghost predicate OneBoundary(pieces: seq<bytes>, boundary: bytes) {
    && AreParameters(pieces)
    && exists k: nat :: IsBoundaryAt(pieces, k) && Parameter(pieces[k]).value.value == boundary
                        && forall j: nat :: IsBoundaryAt(pieces, j) ==> j == k
  }

  ghost predicate NoBoundary(pieces: seq<bytes>) {
    AreParameters(pieces) && forall k: nat :: !IsBoundaryAt(pieces, k)
  }

  lemma RestOf(pieces: seq<bytes>)
    requires pieces != []
    ensures forall k: nat :: IsBoundaryAt(pieces[1..], k) <==> IsBoundaryAt(pieces, k + 1)
    ensures AreParameters(pieces) <==> Parameter(pieces[0]).Some? && AreParameters(pieces[1..])
  {
    hide Parameter, Named;
    assert forall k :: 0 < k < |pieces| ==> pieces[k] == pieces[1..][k - 1];
  }

  // Once a boundary was found, no other may come.
  lemma {:induction false} NoMoreBoundaries(pieces: seq<bytes>, found: bytes)
    ensures BoundaryAmong(pieces, Some(found)) == if NoBoundary(pieces) then Some(found) else None
  {
    hide Parameter, Named;
    if pieces != [] {
      RestOf(pieces);
      NoMoreBoundaries(pieces[1..], found);
      if Parameter(pieces[0]).Some? && !Named(Parameter(pieces[0]).value, BOUNDARY) {
        assert !IsBoundaryAt(pieces, 0);
        forall k: nat ensures IsBoundaryAt(pieces, k) ==> k > 0 && IsBoundaryAt(pieces[1..], k - 1) {
        }
      } else if Parameter(pieces[0]).Some? {
        assert IsBoundaryAt(pieces, 0);
      }
    }
  }

  // The boundary is read exactly if every piece is a parameter and one alone names it.
  lemma {:induction false} BoundaryAmongIs(pieces: seq<bytes>, boundary: bytes)
    ensures BoundaryAmong(pieces, None) == Some(boundary) <==> OneBoundary(pieces, boundary)
  {
    hide Parameter, Named;
    if pieces != [] {
      RestOf(pieces);
      BoundaryAmongIs(pieces[1..], boundary);
      if Parameter(pieces[0]).Some? {
        if Named(Parameter(pieces[0]).value, BOUNDARY) {
          NoMoreBoundaries(pieces[1..], Parameter(pieces[0]).value.value);
          FirstBoundary(pieces, boundary);
        } else {
          LaterBoundary(pieces, boundary);
        }
      }
    }
  }

  lemma FirstBoundary(pieces: seq<bytes>, boundary: bytes)
    requires IsBoundaryAt(pieces, 0)
    ensures OneBoundary(pieces, boundary)
       <==> NoBoundary(pieces[1..]) && Parameter(pieces[0]).value.value == boundary
  {
    hide Parameter, Named;
    RestOf(pieces);
    if NoBoundary(pieces[1..]) {
      forall j: nat ensures IsBoundaryAt(pieces, j) ==> j == 0 {
        if j > 0 {
          assert IsBoundaryAt(pieces[1..], j - 1) <==> IsBoundaryAt(pieces, j);
        }
      }
    } else if AreParameters(pieces) {
      var k: nat :| IsBoundaryAt(pieces[1..], k);
      assert IsBoundaryAt(pieces, k + 1);
    }
  }

  lemma LaterBoundary(pieces: seq<bytes>, boundary: bytes)
    requires pieces != [] && Parameter(pieces[0]).Some? && !IsBoundaryAt(pieces, 0)
    ensures OneBoundary(pieces, boundary) <==> OneBoundary(pieces[1..], boundary)
  {
    hide Parameter, Named;
    RestOf(pieces);
    forall j: nat | IsBoundaryAt(pieces, j) ensures j > 0 && IsBoundaryAt(pieces[1..], j - 1) {
    }
    if OneBoundary(pieces, boundary) {
      var k: nat :| IsBoundaryAt(pieces, k) && Parameter(pieces[k]).value.value == boundary
                    && forall j: nat :: IsBoundaryAt(pieces, j) ==> j == k;
      assert IsBoundaryAt(pieces[1..], k - 1) && pieces[1..][k - 1] == pieces[k];
      assert forall j: nat :: IsBoundaryAt(pieces[1..], j) ==> IsBoundaryAt(pieces, j + 1);
    }
    if OneBoundary(pieces[1..], boundary) {
      var k: nat :| IsBoundaryAt(pieces[1..], k) && Parameter(pieces[1..][k]).value.value == boundary
                    && forall j: nat :: IsBoundaryAt(pieces[1..], j) ==> j == k;
      assert IsBoundaryAt(pieces, k + 1) && pieces[1..][k] == pieces[k + 1];
    }
  }

  // A content type gives a boundary exactly if it is `multipart/mixed` with one valid boundary among
  // its parameters.
  lemma BoundaryOfIs(contentType: bytes, boundary: bytes)
    ensures BoundaryOf(contentType) == Some(boundary)
       <==> var pieces := SplitOn(contentType, {SEMICOLON});
            && SameIgnoringCase(Trimmed(pieces[0], BLANKS), Ascii("multipart/mixed"))
            && OneBoundary(pieces[1..], boundary) && ValidBoundary(boundary)
  {
    hide SplitOn, Trimmed, SameIgnoringCase, Ascii, OneBoundary, ValidBoundary, BoundaryAmong;
    var pieces := SplitOn(contentType, {SEMICOLON});
    BoundaryAmongIs(pieces[1..], boundary);
    if BoundaryOf(contentType).Some? {
      BoundaryAmongIs(pieces[1..], BoundaryOf(contentType).value);
    }
  }
}
