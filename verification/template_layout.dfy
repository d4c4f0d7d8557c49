/** What an operation's layout says, and the request that it describes.

    A layout is a run of operations. `Rendered` writes the request straight from the layout
    and its values: no template, no table. It is what the engine must agree with. */
module Layouts {
  import opened Bytes
  import opened ChecksumKinds
  import opened Numbers
  import opened Requests
  import Url

  // The sections of a request, in the order it is written.
  const ORIGIN: nat := 0
  const PATH: nat := 1
  const QUERY: nat := 2
  const HEAD: nat := 3
  const CANONICAL: nat := 4
  const BODY: nat := 5
  const SECTIONS: nat := 6

  datatype Hole =
    | Target | Path | Query | Signature | Key | Range | Condition | SignedCondition | Revision
    | IsoTime | HttpTime | Day | ContentLength | PayloadHash | Checksum | Separator | Prefix
    | Marker | StartAfter | VersionMarker | Body | BodyLength | BodyHash | BodyChecksum | BlockId
    | UploadId | PartNumber | SourceKey | SourceRevision | SourceCondition
    | SignedSourceCondition | SourceRange | CopyId | ObjectSize

  const FIRST_HOLES: seq<Hole> := [Target, Path, Query, Signature, Key, Range, Condition, SignedCondition, Revision]
  const SECOND_HOLES: seq<Hole> := [
    IsoTime, HttpTime, Day, ContentLength, PayloadHash, Checksum, Separator, Prefix, Marker
  ]
  const THIRD_HOLES: seq<Hole> := [
    StartAfter, VersionMarker, Body, BodyLength, BodyHash, BodyChecksum, BlockId, UploadId, PartNumber
  ]
  const LAST_HOLES: seq<Hole> := [
    SourceKey, SourceRevision, SourceCondition, SignedSourceCondition, SourceRange, CopyId, ObjectSize
  ]
  const ALL_HOLES: seq<Hole> := FIRST_HOLES + SECOND_HOLES + THIRD_HOLES + LAST_HOLES

  // The number of a hole in a step. No hole is `NO_HOLE`.
  const NO_HOLE: byte := 0

  function HoleId(h: Hole): (id: byte)
    ensures id != NO_HOLE
  {
    match h
    case Target => 1 case Path => 2 case Query => 3 case Signature => 4 case Key => 5
    case Range => 6 case Condition => 7 case SignedCondition => 8 case Revision => 9
    case IsoTime => 10 case HttpTime => 11 case Day => 12 case ContentLength => 13
    case PayloadHash => 14 case Checksum => 15 case Separator => 16 case Prefix => 17
    case Marker => 18 case StartAfter => 19 case VersionMarker => 20 case Body => 21
    case BodyLength => 22 case BodyHash => 23 case BodyChecksum => 24 case BlockId => 25
    case UploadId => 26 case PartNumber => 27 case SourceKey => 28 case SourceRevision => 29
    case SourceCondition => 30 case SignedSourceCondition => 31 case SourceRange => 32
    case CopyId => 33 case ObjectSize => 34
  }

  // The inverse of `HoleId`, by the list.
  function HoleOfId(id: byte): Option<Hole> {
    if 1 <= id <= |ALL_HOLES| then Some(ALL_HOLES[id - 1]) else None
  }

  lemma HoleIdReadsBack(h: Hole)
    ensures HoleOfId(HoleId(h)) == Some(h)
  {
    hide FIRST_HOLES, SECOND_HOLES, THIRD_HOLES, LAST_HOLES, HoleId;
    ListedFirst(h);
    ListedSecond(h);
    ListedThird(h);
    ListedLast(h);
  }

  lemma ListedFirst(h: Hole)
    ensures |FIRST_HOLES| == 9 && 1 <= HoleId(h) <= 34
    ensures HoleId(h) <= 9 ==> FIRST_HOLES[HoleId(h) - 1] == h
  {
  }

  lemma ListedSecond(h: Hole)
    ensures |SECOND_HOLES| == 9
    ensures 9 < HoleId(h) <= 18 ==> SECOND_HOLES[HoleId(h) - 10] == h
  {
  }

  lemma ListedThird(h: Hole)
    ensures |THIRD_HOLES| == 9
    ensures 18 < HoleId(h) <= 27 ==> THIRD_HOLES[HoleId(h) - 19] == h
  {
  }

  lemma ListedLast(h: Hole)
    ensures |LAST_HOLES| == 7
    ensures 27 < HoleId(h) <= 34 ==> LAST_HOLES[HoleId(h) - 28] == h
  {
  }

  // The value of a query parameter: the same in every request, filled by each request, or
  // filled or left out by each request.
  datatype ParamValue = Fixed(text: bytes) | Filled(hole: Hole) | Optional(hole: Hole)

  // One call of a layout on a pass.
  datatype Op =
    | Section(section: nat)
    | Text(text: bytes)
    | Fill(hole: Hole)
    | Fields
    | Param(name: bytes, value: ParamValue)

  // The holes that `Op.Param` alone writes: the separator and the optional parameters.
  predicate IsOptionalHole(h: Hole) {
    h == Prefix || h == Marker || h == StartAfter || h == VersionMarker
  }

  predicate IsParamHole(h: Hole) {
    h == Separator || IsOptionalHole(h)
  }

  // The discipline of a layout in `section`: sections are started in order, the holes of
  // parameters come through parameters, the body holds text and its own hole, the body's
  // length is not written before the head, and the fields are marked at most once.
  predicate WellFormed(ops: seq<Op>, section: nat, marked: bool) {
    ops == [] ||
    match ops[0]
    case Section(s) => section < s < SECTIONS && WellFormed(ops[1..], s, marked)
    case Text(_) => WellFormed(ops[1..], section, marked)
    case Fill(h) => IsFillable(h, section) && WellFormed(ops[1..], section, marked)
    case Fields => !marked && WellFormed(ops[1..], section, true)
    case Param(_, Fixed(_)) => section != BODY && WellFormed(ops[1..], section, marked)
    case Param(_, Filled(h)) => section != BODY && IsFillable(h, section) && WellFormed(ops[1..], section, marked)
    case Param(_, Optional(h)) => section != BODY && IsOptionalHole(h) && WellFormed(ops[1..], section, marked)
  }

  predicate IsFillable(h: Hole, section: nat) {
    !IsParamHole(h) && (section == BODY ==> h == Body) && (h == BodyLength ==> section >= HEAD)
  }

  // What one request fills its holes with: `value` for the holes that the values or the
  // operation's own fill write, `param` for the optional parameters, and what the fill says
  // of the body before it is written.
  datatype Filler = Filler(
    value: Hole -> Option<bytes>,
    param: Hole -> Option<bytes>,
    bodyChecksum: Option<ChecksumKind>,
    writesBody: bool,
    bodyLen: Option<usize>)
  {
    // Whether `h` is sent: an absent value and an empty one are left out alike.
    predicate Sends(h: Hole) {
      param(h).Some? && param(h).value != []
    }

    // The fill's contract: the length it states is the length it writes.
    ghost predicate Honest() {
      bodyLen.Some? && value(Body).Some? ==> bodyLen.value == |value(Body).value|
    }
  }

  type Ends = s: seq<nat> | |s| == SECTIONS witness [0, 0, 0, 0, 0, 0]

  function EndsAt(ends: Ends, from: nat, to: nat, at: nat): (r: Ends)
    ensures forall i :: 0 <= i < SECTIONS ==> r[i] == if from <= i < to then at else ends[i]
  {
    seq<nat>(SECTIONS, i requires 0 <= i < SECTIONS => if from <= i < to then at else ends[i])
  }

  // The placeholders that a request holds.
  datatype Marks = Marks(signature: Option<Span>, bodyHash: seq<Option<Span>>, bodyChecksum: seq<Option<Span>>)

  const NO_MARKS: Marks := Marks(None, [None, None, None], [None, None])

  // Records a span in the first free slot.
  function Recorded(slots: seq<Option<Span>>, span: Span): seq<Option<Span>> {
    if slots == [] then []
    else if slots[0].None? then [Some(span)] + slots[1..]
    else [slots[0]] + Recorded(slots[1..], span)
  }

  // The state of the reference: output, section ends, the count of parameters, and marks.
  datatype Request = Request(out: bytes, ends: Ends, params: nat, marks: Marks)
  {
    function Push(text: bytes): Request {
      this.(out := out + text)
    }

    function Repeat(from: nat, to: nat): Request {
      Push(Slice(out, from, to))
    }

    // Ends the sections from `from` to `to` where the request is.
    function EndSections(from: nat, to: nat): Request {
      this.(ends := EndsAt(ends, from, to, |out|))
    }

    function Separated(): Request {
      Push(if params == 0 then ['?' as int] else ['&' as int]).(params := params + 1)
    }
  }

  function Started(out: bytes, params: nat): Request {
    Request(out, seq<nat>(SECTIONS, i => |out|), params, NO_MARKS)
  }

  const EQUALS: bytes := ['=' as int]

  // Appends what `hole` stands for, by its kind. Only an optional parameter uses `name`. It is
  // undefined exactly where `CanFill` fails.
  function WithHole(q: Request, hole: Hole, name: bytes, fill: Filler, bodyLen: nat): (r: Option<Request>)
    ensures r.Some? ==> r.value.ends == q.ends && |q.out| <= |r.value.out|
  {
    if IsUrlHole(hole) then Some(WithUrl(q, hole))
    else if IsMarkHole(hole) then WithMark(q, hole, fill)
    else if hole == BodyLength then Some(q.Push(Decimal(bodyLen)))
    else if hole == Separator then Some(q.Separated())
    else if IsOptionalHole(hole) then Some(WithParam(q, hole, name, fill))
    else if fill.value(hole).None? then None
    else Some(q.Push(fill.value(hole).value))
  }

  // The holes that repeat the URL, and those that hold a placeholder.
  predicate IsUrlHole(h: Hole) { h == Target || h == Path || h == Query }

  predicate IsMarkHole(h: Hole) { h == Signature || h == BodyHash || h == BodyChecksum }

  // The URL, or a part of it, as the request has written it. A query is repeated without its `?`.
  function WithUrl(q: Request, hole: Hole): (r: Request)
    ensures r.ends == q.ends && r.params == q.params && r.marks == q.marks
    ensures |q.out| <= |r.out| && r.out[..|q.out|] == q.out
  {
    if hole == Target then q.Repeat(q.ends[ORIGIN], q.ends[QUERY])
    else if hole == Path then q.Repeat(q.ends[ORIGIN], q.ends[PATH])
    else if q.ends[QUERY] > q.ends[PATH] then q.Repeat(q.ends[PATH] + 1, q.ends[QUERY])
    else q
  }

  // A placeholder, and where it is.
  function WithMark(q: Request, hole: Hole, fill: Filler): (r: Option<Request>)
    ensures r.Some? ==>
      r.value.ends == q.ends && r.value.params == q.params && |q.out| <= |r.value.out|
      && r.value.out[..|q.out|] == q.out
  {
    if hole == Signature then
      Some(q.Push(Repeated('0' as int, 64)).(marks := q.marks.(signature := Some(Span(|q.out|, 64)))))
    else if hole == BodyHash then
      var hashes := Recorded(q.marks.bodyHash, Span(|q.out|, 64));
      Some(q.Push(Repeated('0' as int, 64)).(marks := q.marks.(bodyHash := hashes)))
    else if fill.bodyChecksum.None? then None
    else
      var len := TextLen(fill.bodyChecksum.value);
      var checksums := Recorded(q.marks.bodyChecksum, Span(|q.out|, len));
      Some(q.Push(Repeated('=' as int, len)).(marks := q.marks.(bodyChecksum := checksums)))
  }

  // The optional parameter `hole`, written whole or left out whole.
  function WithParam(q: Request, hole: Hole, name: bytes, fill: Filler): (r: Request)
    ensures r.ends == q.ends && r.marks == q.marks
    ensures |q.out| <= |r.out| && r.out[..|q.out|] == q.out
  {
    if !fill.Sends(hole) then q
    else
      q.Separated().Push(name).Push(EQUALS)
       .Push(Url.PercentEncoded(fill.param(hole).value, Url.QUERY_VALUE_ESCAPE))
  }

  // Whether the request has a value for `hole`.
  predicate CanFill(hole: Hole, fill: Filler) {
    if hole == BodyChecksum then fill.bodyChecksum.Some?
    else IsUrlHole(hole) || IsMarkHole(hole) || hole == BodyLength || IsParamHole(hole) || fill.value(hole).Some?
  }

  // What each kind of hole writes.
  lemma FilledBy(q: Request, hole: Hole, name: bytes, fill: Filler, n: nat)
    ensures IsUrlHole(hole) ==> WithHole(q, hole, name, fill, n) == Some(WithUrl(q, hole))
    ensures IsMarkHole(hole) ==> WithHole(q, hole, name, fill, n) == WithMark(q, hole, fill)
    ensures IsOptionalHole(hole) ==> WithHole(q, hole, name, fill, n) == Some(WithParam(q, hole, name, fill))
    ensures WithHole(q, Separator, name, fill, n) == Some(q.Separated())
    ensures WithHole(q, BodyLength, name, fill, n) == Some(q.Push(Decimal(n)))
    ensures !IsParamHole(hole) && hole != BodyLength && !IsUrlHole(hole) && !IsMarkHole(hole) ==>
              WithHole(q, hole, name, fill, n)
              == if fill.value(hole).None? then None else Some(q.Push(fill.value(hole).value))
  {
    hide Decimal, WithUrl, WithMark, WithParam, Request.Separated, Request.Push, IsUrlHole, IsMarkHole,
         IsOptionalHole;
    OneKind(hole);
    OneKind(Separator);
    OneKind(BodyLength);
  }

  // A hole is of one kind.
  lemma OneKind(hole: Hole)
    ensures hole == Separator || hole == BodyLength ==> !IsUrlHole(hole) && !IsMarkHole(hole) && !IsOptionalHole(hole)
    ensures IsMarkHole(hole) || IsOptionalHole(hole) ==> !IsUrlHole(hole)
    ensures IsOptionalHole(hole) ==> !IsMarkHole(hole)
  {
  }

  lemma FillsWhenItCan(q: Request, h: Hole, name: bytes, fill: Filler, n: nat)
    ensures WithHole(q, h, name, fill, n).Some? <==> CanFill(h, fill)
  {
    hide WithHole, WithUrl, WithParam, Decimal, Request.Separated, Request.Push, TextLen;
    FilledBy(q, h, name, fill, n);
  }

  // Only one hole reads the length of the body.
  lemma ReadsNoLength(q: Request, h: Hole, name: bytes, fill: Filler, m: nat, n: nat)
    requires h != BodyLength
    ensures WithHole(q, h, name, fill, m) == WithHole(q, h, name, fill, n)
  {
    hide WithHole, WithUrl, WithMark, WithParam, Decimal, Request.Separated, Request.Push;
    FilledBy(q, h, name, fill, m);
    FilledBy(q, h, name, fill, n);
  }

  // ---- The request that a layout describes ----

  // The state of rendering: the request so far, where its field lines start, its section.
  datatype Rendering = Rendering(q: Request, fields: nat, section: nat)

  function Render(r: Rendering, op: Op, fill: Filler, bodyLen: nat): Option<Rendering> {
    match op
    case Section(s) => Some(r.(q := r.q.EndSections(r.section, s), section := s))
    case Text(text) => Some(r.(q := r.q.Push(text)))
    case Fill(h) => RenderHole(r, r.q, h, [], fill, bodyLen)
    case Fields => Some(r.(fields := |r.q.out|))
    case Param(name, Fixed(text)) => Some(r.(q := r.q.Separated().Push(name + EQUALS + text)))
    case Param(name, Filled(h)) => RenderHole(r, r.q.Separated().Push(name + EQUALS), h, [], fill, bodyLen)
    case Param(name, Optional(h)) => RenderHole(r, r.q, h, name, fill, bodyLen)
  }

  function RenderHole(r: Rendering, q: Request, h: Hole, name: bytes, fill: Filler, bodyLen: nat): Option<Rendering> {
    var filled := WithHole(q, h, name, fill, bodyLen);
    if filled.None? then None else Some(r.(q := filled.value))
  }

  function RenderAll(r: Rendering, ops: seq<Op>, fill: Filler, bodyLen: nat): Option<Rendering>
    decreases |ops|
  {
    if ops == [] then Some(r) else
    var next := Render(r, ops[0], fill, bodyLen);
    if next.None? then None else RenderAll(next.value, ops[1..], fill, bodyLen)
  }

  // A request written: its bytes, where each section ends, its placeholders, and where its
  // field lines start.
  datatype Outcome = Outcome(out: bytes, ends: Ends, marks: Marks, fields: nat)

  // The whole request after the bytes `before`, or `None` if a hole has no value.
  function Rendered(before: bytes, ops: seq<Op>, fill: Filler, bodyLen: nat): Option<Outcome> {
    var r := RenderAll(Rendering(Started(before, 0), 0, ORIGIN), ops, fill, bodyLen);
    if r.None? then None
    else
      var q := r.value.q.EndSections(r.value.section, SECTIONS);
      Some(Outcome(q.out, q.ends, q.marks, r.value.fields))
  }

  // ---- The parts of a request ----

  datatype Written = Written(
    url: Span, head: Span, fields: Span, canonical: Span, signature: Option<Span>,
    body: Option<Span>, bodyHash: seq<Option<Span>>, bodyChecksum: seq<Option<Span>>, end: nat)

  function SectionSpan(start: nat, ends: Ends, section: nat): Span
    requires section < SECTIONS
  {
    var from := if section == 0 then start else ends[section - 1];
    Span(from, Monus(ends[section], from))
  }

  function Clamp(n: nat, low: nat, high: nat): nat
    requires low <= high
  {
    if n < low then low else if n > high then high else n
  }

  // The parts for any recorded ends, ascending or not: no span has a negative length.
  function PartsOf(start: nat, ends: Ends, marks: Marks, fieldsAt: nat, hasBody: bool, end: nat): Written {
    var head := SectionSpan(start, ends, HEAD);
    var headEnd := head.start + head.len;
    var fields := Clamp(fieldsAt, head.start, headEnd);
    Written(
      Span(start, Monus(ends[QUERY], start)), head, Span(fields, Monus(Monus(headEnd, 2), fields)),
      SectionSpan(start, ends, CANONICAL), marks.signature,
      if hasBody then Some(SectionSpan(start, ends, BODY)) else None,
      marks.bodyHash, marks.bodyChecksum, end)
  }
}
