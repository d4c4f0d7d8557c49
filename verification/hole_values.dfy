/** The values of one request that both services' layouts fill holes with. */
module HoleValues {
  import opened Bytes
  import opened Numbers
  import opened Requests
  import opened Layouts
  import opened Times
  import ContentRanges
  import Url

  // ---- The values ----

  datatype ConditionValue = ETag(tag: bytes) | Time(seconds: usize)

  type RequestedRange = r: ContentRanges.Range | ContentRanges.IsValidRange(r) witness ContentRanges.Offset(0)

  type Moment = t: Timestamps | |t.rfc1123| == 29 && |t.iso8601| == 16 witness TimestampsOf(0)

  datatype Values = Values(
    now: Option<Moment>, key: Option<bytes>, range: Option<RequestedRange>, condition: Option<ConditionValue>,
    revision: Option<bytes>, contentLength: Option<usize>, checksum: Option<bytes>, payloadHash: Option<bytes>,
    prefix: Option<bytes>, marker: Option<bytes>, startAfter: Option<bytes>, versionMarker: Option<bytes>,
    blockId: Option<bytes>, uploadId: Option<bytes>, partNumber: Option<usize>, sourceKey: Option<bytes>,
    sourceRevision: Option<bytes>, sourceCondition: Option<ConditionValue>, sourceRange: Option<RequestedRange>,
    copyId: Option<bytes>, objectSize: Option<usize>)
  {
    // The text that `h` stands for, before it is percent-encoded.
    function TextOf(h: Hole): Option<bytes> {
      match h
      case Key => key
      case SourceKey => sourceKey
      case Revision => revision
      case Prefix => prefix
      case Marker => marker
      case StartAfter => startAfter
      case VersionMarker => versionMarker
      case BlockId => Or(blockId, uploadId)
      case UploadId => Or(blockId, uploadId)
      case SourceRevision => Or(sourceRevision, copyId)
      case CopyId => Or(sourceRevision, copyId)
      case _ => None
    }

    // What `h` writes, if it is one of these values and no optional parameter.
    function ValueOf(h: Hole): Option<bytes> {
      if IsOptionalHole(h) then None
      else if h == Key || h == SourceKey then EncodedText(TextOf(h), Url.OBJECT_KEY_ESCAPE)
      else if IsEncodedHole(h) then EncodedText(TextOf(h), Url.QUERY_VALUE_ESCAPE)
      else PlainValueOf(h)
    }

    // The values that are written as they are.
    function PlainValueOf(h: Hole): Option<bytes> {
      match h
      case Range => RangeText(range)
      case Condition => ConditionText(condition)
      case IsoTime => if now.Some? then Some(now.value.iso8601) else None
      case HttpTime => if now.Some? then Some(now.value.rfc1123) else None
      case Day => if now.Some? then Some(now.value.iso8601[..8]) else None
      case ContentLength => NumberText(contentLength)
      case Checksum => checksum
      case PayloadHash => payloadHash
      case SourceCondition => ConditionText(sourceCondition)
      case SourceRange => RangeText(sourceRange)
      case ObjectSize => NumberText(objectSize)
      case PartNumber => NumberText(partNumber)
      case _ => None
    }

    // The texts that the bound of a URL counts.
    function Texts(): seq<Option<bytes>> {
      [key, revision, prefix, marker, startAfter, versionMarker, blockId, uploadId, copyId]
    }

    // The room that they take at most, in numbers without bounds.
    function Room(): nat { RoomOfTexts(Texts()) + 25 }
  }

  const NO_VALUES: Values :=
    Values(None, None, None, None, None, None, None, None, None, None, None, None, None, None, None, None, None, None,
           None, None, None)

  predicate IsEncodedHole(h: Hole) {
    h == Revision || h == BlockId || h == UploadId || h == SourceRevision || h == CopyId
  }

  function Or(a: Option<bytes>, b: Option<bytes>): Option<bytes> {
    if a.Some? then a else b
  }

  function EncodedText(text: Option<bytes>, escape: Url.AsciiSet): Option<bytes> {
    if text.Some? then Some(Url.PercentEncoded(text.value, escape)) else None
  }

  function RangeText(range: Option<RequestedRange>): Option<bytes> {
    if range.Some? then Some(ContentRanges.RangeText(range.value)) else None
  }

  function ConditionText(condition: Option<ConditionValue>): Option<bytes> {
    match condition
    case None => None
    case Some(ETag(tag)) => Some(tag)
    case Some(Time(seconds)) => Some(TimestampsOf(seconds).rfc1123)
  }

  function NumberText(n: Option<usize>): Option<bytes> {
    if n.Some? then Some(Decimal(n.value)) else None
  }

  // ---- Writing them ----

  // Refines `ValueOf`: `ok` says whether that is defined.
  method WriteValue(values: Values, h: Hole, out: Writer) returns (ok: bool)
    requires out.Valid()
    modifies out, out.buffer
    ensures out.Valid() && (ok <==> values.ValueOf(h).Some?)
    ensures out.text == old(out.text) + if ok then values.ValueOf(h).value else []
  {
    hide Url.PercentEncoded, Writer.Valid, Values.PlainValueOf, Values.TextOf, IsEncodedHole, IsOptionalHole;
    if IsOptionalHole(h) { return false; }
    if h != Key && h != SourceKey && !IsEncodedHole(h) {
      ok := WritePlain(values, h, out);
      return ok;
    }
    var text := values.TextOf(h);
    if text == None { return false; }
    if h == Key || h == SourceKey {
      Url.WriteKey(out, text.value);
    } else {
      Url.WriteEncoded(out, text.value, Url.QUERY_VALUE_ESCAPE);
    }
    ok := true;
  }

  method WritePlain(values: Values, h: Hole, out: Writer) returns (ok: bool)
    requires out.Valid()
    modifies out, out.buffer
    ensures out.Valid() && (ok <==> values.PlainValueOf(h).Some?)
    ensures out.text == old(out.text) + if ok then values.PlainValueOf(h).value else []
  {
    hide Writer.Valid, RangeText, ConditionText, NumberText;
    match h
    case Range => ok := WriteRange(values.range, out);
    case Condition => ok := WriteCondition(values.condition, out);
    case IsoTime => ok := WriteBytes(if values.now.Some? then Some(values.now.value.iso8601) else None, out);
    case HttpTime => ok := WriteBytes(if values.now.Some? then Some(values.now.value.rfc1123) else None, out);
    case Day => ok := WriteBytes(if values.now.Some? then Some(values.now.value.iso8601[..8]) else None, out);
    case ContentLength => ok := WriteNumber(values.contentLength, out);
    case Checksum => ok := WriteBytes(values.checksum, out);
    case PayloadHash => ok := WriteBytes(values.payloadHash, out);
    case SourceCondition => ok := WriteCondition(values.sourceCondition, out);
    case SourceRange => ok := WriteRange(values.sourceRange, out);
    case ObjectSize => ok := WriteNumber(values.objectSize, out);
    case PartNumber => ok := WriteNumber(values.partNumber, out);
    case _ => ok := false;
  }

  method WriteBytes(value: Option<bytes>, out: Writer) returns (ok: bool)
    requires out.Valid()
    modifies out, out.buffer
    ensures out.Valid() && (ok <==> value.Some?)
    ensures out.text == old(out.text) + if ok then value.value else []
  {
    if value == None { return false; }
    out.Push(value.value);
    ok := true;
  }

  method WriteRange(range: Option<RequestedRange>, out: Writer) returns (ok: bool)
    requires out.Valid()
    modifies out, out.buffer
    ensures out.Valid() && (ok <==> RangeText(range).Some?)
    ensures out.text == old(out.text) + if ok then RangeText(range).value else []
  {
    hide ContentRanges.RangeText;
    if range == None { return false; }
    var text := ContentRanges.WriteRange(range.value);
    out.Push(text);
    ok := true;
  }

  method WriteCondition(condition: Option<ConditionValue>, out: Writer) returns (ok: bool)
    requires out.Valid()
    modifies out, out.buffer
    ensures out.Valid() && (ok <==> ConditionText(condition).Some?)
    ensures out.text == old(out.text) + if ok then ConditionText(condition).value else []
  {
    hide TimestampsOf;
    match condition
    case None => ok := false;
    case Some(ETag(tag)) =>
      out.Push(tag);
      ok := true;
    case Some(Time(seconds)) =>
      var at := FromUnix(seconds);
      out.Push(at.rfc1123);
      ok := true;
  }

  method WriteNumber(n: Option<usize>, out: Writer) returns (ok: bool)
    requires out.Valid()
    modifies out, out.buffer
    ensures out.Valid() && (ok <==> NumberText(n).Some?)
    ensures out.text == old(out.text) + if ok then NumberText(n).value else []
  {
    hide Decimal;
    if n == None { return false; }
    var digits := U64Decimal(n.value);
    out.Push(digits);
    ok := true;
  }

  // ---- The room of a URL ----

  function RoomOfText(text: Option<bytes>): nat {
    if text.Some? then 3 * |text.value| + 25 else 0
  }

  function RoomOfTexts(texts: seq<Option<bytes>>): nat {
    if texts == [] then 0 else RoomOfText(texts[0]) + RoomOfTexts(texts[1..])
  }

  // The same sum in a `usize`, which wraps.
  method UrlBound(values: Values) returns (bound: usize)
    ensures bound == WrappingAdd(0, values.Room())
  {
    hide RoomOfText;
    var texts := values.Texts();
    bound := 0;
    for i := 0 to |texts|
      invariant WrappingAdd(bound, RoomOfTexts(texts[i..]) + 25) == WrappingAdd(0, values.Room())
    {
      RoomFrom(texts, i);
      WrapsMidway(bound, RoomOfText(texts[i]), RoomOfTexts(texts[i + 1..]) + 25);
      bound := WrappingAdd(bound, RoomOfText(texts[i]));
    }
    RoomFrom(texts, |texts| - 1);
    bound := WrappingAdd(bound, 25);
  }

  lemma WrapsMidway(a: nat, b: nat, c: nat)
    ensures WrappingAdd(WrappingAdd(a, b), c) == WrappingAdd(a, b + c)
  {
  }

  lemma RoomSums(values: Values)
    ensures values.Room()
         == RoomOfText(values.key) + RoomOfText(values.revision) + RoomOfText(values.prefix)
          + RoomOfText(values.marker) + RoomOfText(values.startAfter) + RoomOfText(values.versionMarker)
          + RoomOfText(values.blockId) + RoomOfText(values.uploadId) + RoomOfText(values.copyId) + 25
  {
    hide RoomOfText, RoomOfTexts;
    NineRooms(values.Texts());
  }

  lemma NineRooms(t: seq<Option<bytes>>)
    requires |t| == 9
    ensures RoomOfTexts(t)
         == RoomOfText(t[0]) + RoomOfText(t[1]) + RoomOfText(t[2]) + RoomOfText(t[3]) + RoomOfText(t[4])
          + RoomOfText(t[5]) + RoomOfText(t[6]) + RoomOfText(t[7]) + RoomOfText(t[8])
  {
    hide RoomOfText, RoomOfTexts;
    ThreeRooms(t, 0);
    ThreeRooms(t, 3);
    ThreeRooms(t, 6);
    RoomFrom(t, 8);
    assert t[0..] == t;
  }

  lemma ThreeRooms(t: seq<Option<bytes>>, i: nat)
    requires i + 3 <= |t|
    ensures RoomOfTexts(t[i..])
         == RoomOfText(t[i]) + RoomOfText(t[i + 1]) + RoomOfText(t[i + 2]) + RoomOfTexts(t[i + 3..])
  {
    hide RoomOfText, RoomOfTexts;
    RoomFrom(t, i);
    RoomFrom(t, i + 1);
    RoomFrom(t, i + 2);
  }

  lemma RoomFrom(texts: seq<Option<bytes>>, i: nat)
    requires i < |texts|
    ensures RoomOfTexts(texts[i..]) == RoomOfText(texts[i]) + RoomOfTexts(texts[i + 1..])
    ensures RoomOfTexts(texts[|texts|..]) == 0
  {
    assert texts[i..][1..] == texts[i + 1..];
  }

  // No encoding is longer than three times its text.
  lemma {:induction false} EncodedAtMostTriples(s: bytes, escape: Url.AsciiSet)
    ensures |Url.PercentEncoded(s, escape)| <= 3 * |s|
  {
    if s != [] {
      EncodedAtMostTriples(s[1..], escape);
    }
  }

  lemma {:induction false} EncodedIsNoShorter(s: bytes, escape: Url.AsciiSet)
    ensures |Url.PercentEncoded(s, escape)| >= |s|
  {
    if s != [] {
      EncodedIsNoShorter(s[1..], escape);
    }
  }
}
