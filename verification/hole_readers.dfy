/** What the values of a request mean to whoever reads them: each hole's text reads back as its own
    value, and as no other. */
module HoleReaders {
  import opened Bytes
  import opened Calendars
  import opened ContentRanges
  import opened DateReaders
  import opened HoleValues
  import opened Numbers
  import opened Times
  import HttpMessages
  import Layouts
  import Url

  // ---- Readers ----

  // The day that eight digits name.
  function ReadBasicDay(s: bytes): Option<Date> {
    if |s| != 8 then None
    else
      var year, month, day := ParseDigits(s[..4]), ParseDigits(s[4..6]), ParseDigits(s[6..]);
      if year == None || month == None || day == None then None
      else Some(Date(year.value, month.value, day.value))
  }

  // The seconds that a basic date and a time of day name.
  function ReadBasicDate(s: bytes): Option<int> {
    if |s| != 16 || s[8] != 'T' as int || s[15] != 'Z' as int || ReadBasicDay(s[..8]) == None then None
    else
      var hour, minute, second := ParseDigits(s[9..11]), ParseDigits(s[11..13]), ParseDigits(s[13..15]);
      if hour == None || minute == None || second == None then None
      else Some(SecondsOf(ReadBasicDay(s[..8]).value, Clock(hour.value, minute.value, second.value)))
  }

  const SLASH_SET: set<byte> := {'/' as int}

  // The segments of a path.
  function Segments(path: bytes): seq<bytes> { HttpMessages.SplitOn(path, SLASH_SET) }

  function DecodedEach(pieces: seq<bytes>, plusIsSpace: bool): seq<bytes> {
    seq(|pieces|, i requires 0 <= i < |pieces| => Url.Decoded(pieces[i], plusIsSpace))
  }

  // `text` is `key` as a path: decoded it is the key, segment by segment.
  ghost predicate IsPathOf(text: bytes, key: bytes) {
    forall plusIsSpace: bool ::
      Url.Decoded(text, plusIsSpace) == key && DecodedEach(Segments(text), plusIsSpace) == Segments(key)
  }

  // `text` is `value` in a query: decoded it is the value, and nothing in it separates.
  ghost predicate IsQueryOf(text: bytes, value: bytes) {
    && (forall plusIsSpace: bool :: Url.Decoded(text, plusIsSpace) == value)
    && (forall b :: b in text ==> Url.IsUnreserved(b) || b == Url.PERCENT)
  }

  ghost predicate IsConditionOf(text: bytes, condition: ConditionValue) {
    match condition
    case ETag(tag) => text == tag
    case Time(seconds) => HttpDateMs(text) == Some(Min(seconds, MAX_UNIX_SECONDS) * 1000)
  }

  ghost predicate AsksFor(text: bytes, range: RequestedRange) {
    forall total: nat :: Asked(text, total) == Some(Covered(range, total))
  }

  // ---- What each hole means ----

  // `text` is what `h` should write of these values.
  ghost predicate Means(v: Values, h: Layouts.Hole, text: bytes) {
    match h
    case Key => v.key.Some? && IsPathOf(text, v.key.value)
    case SourceKey => v.sourceKey.Some? && IsPathOf(text, v.sourceKey.value)
    case Revision => v.revision.Some? && IsQueryOf(text, v.revision.value)
    case BlockId => IsPart(v, text)
    case UploadId => IsPart(v, text)
    case SourceRevision => IsSource(v, text)
    case CopyId => IsSource(v, text)
    case Range => v.range.Some? && AsksFor(text, v.range.value)
    case SourceRange => v.sourceRange.Some? && AsksFor(text, v.sourceRange.value)
    case Condition => v.condition.Some? && IsConditionOf(text, v.condition.value)
    case SourceCondition => v.sourceCondition.Some? && IsConditionOf(text, v.sourceCondition.value)
    case HttpTime =>
      v.now.Some? && forall t: nat :: v.now.value == TimestampsOf(t) ==>
        HttpDateMs(text) == Some(Min(t, MAX_UNIX_SECONDS) * 1000)
    case IsoTime =>
      v.now.Some? && forall t: nat :: v.now.value == TimestampsOf(t) ==>
        ReadBasicDate(text) == Some(Min(t, MAX_UNIX_SECONDS))
    case Day =>
      v.now.Some? && forall t: nat :: v.now.value == TimestampsOf(t) ==>
        ReadBasicDay(text) == Some(Calendar(Min(t, MAX_UNIX_SECONDS) / DAY))
    case ContentLength => v.contentLength.Some? && ParseDecimal(text) == v.contentLength
    case ObjectSize => v.objectSize.Some? && ParseDecimal(text) == v.objectSize
    case PartNumber => v.partNumber.Some? && ParseDecimal(text) == v.partNumber
    case Checksum => v.checksum == Some(text)
    case PayloadHash => v.payloadHash == Some(text)
    case _ => false
  }

  // One text names a block, or an upload where there is no block.
  ghost predicate IsPart(v: Values, text: bytes) {
    if v.blockId.Some? then IsQueryOf(text, v.blockId.value)
    else v.uploadId.Some? && IsQueryOf(text, v.uploadId.value)
  }

  // One text names the revision of a source, or a copy where there is none.
  ghost predicate IsSource(v: Values, text: bytes) {
    if v.sourceRevision.Some? then IsQueryOf(text, v.sourceRevision.value)
    else v.copyId.Some? && IsQueryOf(text, v.copyId.value)
  }

  // Whether the values have one for `h`.
  predicate HasValue(v: Values, h: Layouts.Hole) {
    match h
    case Key => v.key.Some?
    case SourceKey => v.sourceKey.Some?
    case Revision => v.revision.Some?
    case BlockId => v.blockId.Some? || v.uploadId.Some?
    case UploadId => v.blockId.Some? || v.uploadId.Some?
    case SourceRevision => v.sourceRevision.Some? || v.copyId.Some?
    case CopyId => v.sourceRevision.Some? || v.copyId.Some?
    case Range => v.range.Some?
    case SourceRange => v.sourceRange.Some?
    case Condition => v.condition.Some?
    case SourceCondition => v.sourceCondition.Some?
    case HttpTime => v.now.Some?
    case IsoTime => v.now.Some?
    case Day => v.now.Some?
    case ContentLength => v.contentLength.Some?
    case ObjectSize => v.objectSize.Some?
    case PartNumber => v.partNumber.Some?
    case Checksum => v.checksum.Some?
    case PayloadHash => v.payloadHash.Some?
    case _ => false
  }

  // The values that `h` is about, and no others.
  function Own(v: Values, h: Layouts.Hole): Values {
    match h
    case Key => NO_VALUES.(key := v.key)
    case SourceKey => NO_VALUES.(sourceKey := v.sourceKey)
    case Revision => NO_VALUES.(revision := v.revision)
    case BlockId => NO_VALUES.(blockId := v.blockId, uploadId := v.uploadId)
    case UploadId => NO_VALUES.(blockId := v.blockId, uploadId := v.uploadId)
    case SourceRevision => NO_VALUES.(sourceRevision := v.sourceRevision, copyId := v.copyId)
    case CopyId => NO_VALUES.(sourceRevision := v.sourceRevision, copyId := v.copyId)
    case Range => NO_VALUES.(range := v.range)
    case SourceRange => NO_VALUES.(sourceRange := v.sourceRange)
    case Condition => NO_VALUES.(condition := v.condition)
    case SourceCondition => NO_VALUES.(sourceCondition := v.sourceCondition)
    case HttpTime => NO_VALUES.(now := v.now)
    case IsoTime => NO_VALUES.(now := v.now)
    case Day => NO_VALUES.(now := v.now)
    case ContentLength => NO_VALUES.(contentLength := v.contentLength)
    case ObjectSize => NO_VALUES.(objectSize := v.objectSize)
    case PartNumber => NO_VALUES.(partNumber := v.partNumber)
    case Checksum => NO_VALUES.(checksum := v.checksum)
    case PayloadHash => NO_VALUES.(payloadHash := v.payloadHash)
    case Prefix => NO_VALUES.(prefix := v.prefix)
    case Marker => NO_VALUES.(marker := v.marker)
    case StartAfter => NO_VALUES.(startAfter := v.startAfter)
    case VersionMarker => NO_VALUES.(versionMarker := v.versionMarker)
    case _ => NO_VALUES
  }

  // ---- Paths and queries ----

  lemma {:induction false} Unsplit(e: bytes, r: bytes)
    requires forall i :: 0 <= i < |e| ==> e[i] !in SLASH_SET
    ensures Segments(e + r) == [e + Segments(r)[0]] + Segments(r)[1..]
    decreases |e|
  {
    if e == [] {
      assert e + r == r && [] + Segments(r)[0] == Segments(r)[0];
      assert Segments(r) == [Segments(r)[0]] + Segments(r)[1..];
    } else {
      Unsplit(e[1..], r);
      assert (e + r)[1..] == e[1..] + r;
      assert [e[0]] + (e[1..] + Segments(r)[0]) == e + Segments(r)[0];
    }
  }

  lemma SplitHere(r: bytes)
    ensures Segments(['/' as int] + r) == [[]] + Segments(r)
  {
    assert (['/' as int] + r)[1..] == r;
  }

  // A byte that is no slash, encoded before a piece: it is decoded before the rest of it.
  lemma OneByteDecodes(b: byte, piece: bytes, plusIsSpace: bool)
    ensures
      var e := if b in Url.OBJECT_KEY_ESCAPE then Url.Escape(b) else [b];
      Url.Decoded(e + piece, plusIsSpace) == [b] + Url.Decoded(piece, plusIsSpace)
  {
    Url.EscapeSets(b);
    if b in Url.OBJECT_KEY_ESCAPE {
      Url.EscapeDecodes(b, piece, plusIsSpace);
      assert (Url.Escape(b) + piece)[3..] == piece;
    } else {
      Url.DecodedPlain([b] + piece, plusIsSpace);
      assert ([b] + piece)[1..] == piece;
    }
  }

  lemma NoSlash(b: byte)
    ensures b == '/' as int <==> b !in Url.OBJECT_KEY_ESCAPE && b in SLASH_SET
    ensures '/' as int !in Url.OBJECT_KEY_ESCAPE
    ensures |Url.Escape(b)| == 3 && forall i :: 0 <= i < 3 ==> Url.Escape(b)[i] !in SLASH_SET
  {
    Url.EscapeSets(b);
    Url.EscapeSets('/' as int);
  }

  lemma {:induction false} PathSegments(key: bytes, plusIsSpace: bool)
    ensures DecodedEach(Segments(Url.PercentEncoded(key, Url.OBJECT_KEY_ESCAPE)), plusIsSpace) == Segments(key)
  {
    hide Url.OBJECT_KEY_ESCAPE, Url.Escape, Url.Decoded, Segments;
    if key == [] {
      NoSegments(plusIsSpace);
    } else {
      var b, rest := key[0], Url.PercentEncoded(key[1..], Url.OBJECT_KEY_ESCAPE);
      assert key == [b] + key[1..];
      PathSegments(key[1..], plusIsSpace);
      NoSlash(b);
      if b == '/' as int {
        SplitHere(rest);
        SplitHere(key[1..]);
        EmptyFirst(Segments(rest), plusIsSpace);
      } else {
        var e := if b in Url.OBJECT_KEY_ESCAPE then Url.Escape(b) else [b];
        HasSegments(rest);
        HasSegments(key[1..]);
        Unsplit(e, rest);
        Unsplit([b], key[1..]);
        OneByteDecodes(b, Segments(rest)[0], plusIsSpace);
        FirstDecodes(e, b, Segments(rest), plusIsSpace);
      }
    }
  }

  lemma NoSegments(plusIsSpace: bool)
    ensures Url.PercentEncoded([], Url.OBJECT_KEY_ESCAPE) == [] && Segments([]) == [[]]
    ensures DecodedEach([[]], plusIsSpace) == [[]]
  {
  }

  lemma HasSegments(s: bytes)
    ensures Segments(s) != []
  {
  }

  lemma EmptyFirst(pieces: seq<bytes>, plusIsSpace: bool)
    ensures DecodedEach([[]] + pieces, plusIsSpace) == [[]] + DecodedEach(pieces, plusIsSpace)
  {
  }

  lemma FirstDecodes(e: bytes, b: byte, pieces: seq<bytes>, plusIsSpace: bool)
    requires pieces != []
    requires Url.Decoded(e + pieces[0], plusIsSpace) == [b] + Url.Decoded(pieces[0], plusIsSpace)
    ensures DecodedEach([e + pieces[0]] + pieces[1..], plusIsSpace)
         == [[b] + DecodedEach(pieces, plusIsSpace)[0]] + DecodedEach(pieces, plusIsSpace)[1..]
  {
    hide Url.Decoded;
  }

  lemma KeyIsPath(key: bytes)
    ensures IsPathOf(Url.PercentEncoded(key, Url.OBJECT_KEY_ESCAPE), key)
  {
    hide Url.PercentEncoded, Url.Decoded, Segments;
    forall plusIsSpace: bool
      ensures Url.Decoded(Url.PercentEncoded(key, Url.OBJECT_KEY_ESCAPE), plusIsSpace) == key
      ensures DecodedEach(Segments(Url.PercentEncoded(key, Url.OBJECT_KEY_ESCAPE)), plusIsSpace) == Segments(key)
    {
      Url.DecodingUndoesBothEncodings(key, plusIsSpace);
      PathSegments(key, plusIsSpace);
    }
  }

  lemma TextIsQuery(value: bytes)
    ensures IsQueryOf(Url.PercentEncoded(value, Url.QUERY_VALUE_ESCAPE), value)
  {
    hide Url.PercentEncoded, Url.Decoded, Url.IsUnreserved, Url.QUERY_VALUE_ESCAPE;
    var text := Url.PercentEncoded(value, Url.QUERY_VALUE_ESCAPE);
    forall plusIsSpace: bool ensures Url.Decoded(text, plusIsSpace) == value {
      Url.DecodingUndoesBothEncodings(value, plusIsSpace);
    }
    forall i | 0 <= i < |text| ensures Url.IsUnreserved(text[i]) || text[i] == Url.PERCENT {
      LettersStay();
      Url.EncodedBytes(value, Url.QUERY_VALUE_ESCAPE, i);
      Url.EscapeSets(text[i]);
    }
  }

  lemma LettersStay()
    ensures forall b: byte :: Url.IsAlphanumeric(b) ==> b !in Url.QUERY_VALUE_ESCAPE
  {
    forall b: byte | Url.IsAlphanumeric(b) ensures b !in Url.QUERY_VALUE_ESCAPE {
      Url.EscapeSets(b);
    }
  }

  // ---- Times ----

  lemma BasicDateReads(seconds: nat)
    requires seconds <= MAX_UNIX_SECONDS
    ensures var s := TimestampsOf(seconds).iso8601;
      && |s| == 16 && ReadBasicDay(s[..8]) == Some(Calendar(seconds / DAY))
      && ReadBasicDate(s) == Some(seconds)
  {
    hide ParseDigits, FixedDigits, FieldsOf, TimestampsOf, SecondsOf;
    var f := FieldsOf(seconds);
    FieldsOfInstant(seconds);
    DateOfFields(seconds);
    BasicParts(f);
    PowersOfTen();
    FieldReads(FixedDigits(f.date.year, 4), f.date.year);
    FieldReads(FixedDigits(f.date.month, 2), f.date.month);
    FieldReads(FixedDigits(f.date.day, 2), f.date.day);
    FieldReads(FixedDigits(f.clock.hour, 2), f.clock.hour);
    FieldReads(FixedDigits(f.clock.minute, 2), f.clock.minute);
    FieldReads(FixedDigits(f.clock.second, 2), f.clock.second);
  }

  lemma DateOfFields(seconds: nat)
    requires seconds <= MAX_UNIX_SECONDS
    ensures FieldsOf(seconds).date == Calendar(seconds / DAY)
  {
  }

  lemma BasicParts(f: Fields)
    requires Readable(f)
    ensures var s := BasicDate(f.date, f.clock);
      && s[8] == 'T' as int && s[15] == 'Z' as int
      && s[..8][..4] == FixedDigits(f.date.year, 4) && s[..8][4..6] == FixedDigits(f.date.month, 2)
      && s[..8][6..] == FixedDigits(f.date.day, 2) && s[9..11] == FixedDigits(f.clock.hour, 2)
      && s[11..13] == FixedDigits(f.clock.minute, 2) && s[13..15] == FixedDigits(f.clock.second, 2)
  {
    hide FixedDigits;
  }

  // The texts of one moment read as that instant.
  lemma MomentReads(t: nat)
    ensures var m := TimestampsOf(t);
      && HttpDateMs(m.rfc1123) == Some(Min(t, MAX_UNIX_SECONDS) * 1000)
      && |m.iso8601| == 16 && ReadBasicDate(m.iso8601) == Some(Min(t, MAX_UNIX_SECONDS))
      && ReadBasicDay(m.iso8601[..8]) == Some(Calendar(Min(t, MAX_UNIX_SECONDS) / DAY))
  {
    hide HttpDateMs, ReadBasicDate, ReadBasicDay, TimestampsOf, Calendar;
    HttpDateReadsBack(t);
    ClampedAlike(t);
    BasicDateReads(Min(t, MAX_UNIX_SECONDS));
  }

  lemma ConditionReads(condition: ConditionValue)
    ensures IsConditionOf(ConditionText(Some(condition)).value, condition)
  {
    hide HttpDateMs, TimestampsOf;
    if condition.Time? {
      HttpDateReadsBack(condition.seconds);
    }
  }

  lemma RangeReads(range: RequestedRange)
    ensures AsksFor(HoleValues.RangeText(Some(range)).value, range)
  {
    hide Asked, Covered, ContentRanges.RangeText;
    forall total: nat ensures Asked(ContentRanges.RangeText(range), total) == Some(Covered(range, total)) {
      RangeTextAsks(range, total);
    }
  }

  // ---- Every hole ----

  // What a hole writes of the values of a request reads back as its own value, and it writes
  // something exactly if that is there.
  lemma ValueMeans(v: Values, h: Layouts.Hole)
    ensures v.ValueOf(h).Some? <==> HasValue(v, h)
    ensures v.ValueOf(h).Some? ==> Means(v, h, v.ValueOf(h).value)
  {
    hide IsPathOf, IsQueryOf, AsksFor, IsConditionOf, Url.PercentEncoded, Decimal, ParseDecimal,
         ContentRanges.RangeText, TimestampsOf;
    if Layouts.IsOptionalHole(h) {
      OptionalMeansNothing(v, h);
    } else if h == Layouts.Key || h == Layouts.SourceKey {
      KeyMeans(v, h);
    } else if IsEncodedHole(h) {
      EncodedMeans(v, h);
    } else {
      PlainMeans(v, h);
    }
  }

  lemma OptionalMeansNothing(v: Values, h: Layouts.Hole)
    requires Layouts.IsOptionalHole(h)
    ensures v.ValueOf(h) == None && !HasValue(v, h)
  {
  }

  lemma KeyMeans(v: Values, h: Layouts.Hole)
    requires h == Layouts.Key || h == Layouts.SourceKey
    ensures v.ValueOf(h).Some? <==> HasValue(v, h)
    ensures v.ValueOf(h).Some? ==> Means(v, h, v.ValueOf(h).value)
  {
    hide IsPathOf, Url.PercentEncoded;
    if v.TextOf(h).Some? { KeyIsPath(v.TextOf(h).value); }
  }

  lemma EncodedMeans(v: Values, h: Layouts.Hole)
    requires IsEncodedHole(h)
    ensures v.ValueOf(h).Some? <==> HasValue(v, h)
    ensures v.ValueOf(h).Some? ==> Means(v, h, v.ValueOf(h).value)
  {
    hide IsQueryOf, Url.PercentEncoded, Values.TextOf, Means;
    EncodedIsText(v, h);
    if v.TextOf(h).Some? {
      TextIsQuery(v.TextOf(h).value);
      QueryMeans(v, h, Url.PercentEncoded(v.TextOf(h).value, Url.QUERY_VALUE_ESCAPE));
    }
  }

  lemma EncodedIsText(v: Values, h: Layouts.Hole)
    requires IsEncodedHole(h)
    ensures v.ValueOf(h) == EncodedText(v.TextOf(h), Url.QUERY_VALUE_ESCAPE)
    ensures v.TextOf(h).Some? <==> HasValue(v, h)
  {
    hide EncodedText, Url.QUERY_VALUE_ESCAPE, Url.OBJECT_KEY_ESCAPE;
  }

  lemma QueryMeans(v: Values, h: Layouts.Hole, text: bytes)
    requires IsEncodedHole(h) && v.TextOf(h).Some? && IsQueryOf(text, v.TextOf(h).value)
    ensures Means(v, h, text)
  {
    hide IsQueryOf;
  }

  lemma PlainMeans(v: Values, h: Layouts.Hole)
    requires !Layouts.IsOptionalHole(h) && h != Layouts.Key && h != Layouts.SourceKey && !IsEncodedHole(h)
    ensures v.ValueOf(h).Some? <==> HasValue(v, h)
    ensures v.ValueOf(h).Some? ==> Means(v, h, v.ValueOf(h).value)
  {
    hide Means, HasValue, Values.PlainValueOf, Layouts.IsOptionalHole, IsEncodedHole;
    if h == Layouts.HttpTime || h == Layouts.IsoTime || h == Layouts.Day {
      TimeMeans(v, h);
    } else if h == Layouts.ContentLength || h == Layouts.ObjectSize || h == Layouts.PartNumber {
      NumberMeans(v, h);
    } else {
      OtherMeans(v, h);
    }
  }

  lemma TimeMeans(v: Values, h: Layouts.Hole)
    requires h == Layouts.HttpTime || h == Layouts.IsoTime || h == Layouts.Day
    ensures v.PlainValueOf(h).Some? <==> HasValue(v, h)
    ensures v.PlainValueOf(h).Some? ==> Means(v, h, v.PlainValueOf(h).value)
  {
    hide TimestampsOf, HttpDateMs, ReadBasicDate, ReadBasicDay, Calendar;
    MomentsRead(v.now);
  }

  lemma NumberMeans(v: Values, h: Layouts.Hole)
    requires h == Layouts.ContentLength || h == Layouts.ObjectSize || h == Layouts.PartNumber
    ensures v.PlainValueOf(h).Some? <==> HasValue(v, h)
    ensures v.PlainValueOf(h).Some? ==> Means(v, h, v.PlainValueOf(h).value)
  {
    hide Decimal, ParseDecimal;
    NumberReads(v.contentLength);
    NumberReads(v.objectSize);
    NumberReads(v.partNumber);
  }

  lemma OtherMeans(v: Values, h: Layouts.Hole)
    requires !Layouts.IsOptionalHole(h) && h != Layouts.Key && h != Layouts.SourceKey && !IsEncodedHole(h)
    requires h != Layouts.HttpTime && h != Layouts.IsoTime && h != Layouts.Day
    requires h != Layouts.ContentLength && h != Layouts.ObjectSize && h != Layouts.PartNumber
    ensures v.PlainValueOf(h).Some? <==> HasValue(v, h)
    ensures v.PlainValueOf(h).Some? ==> Means(v, h, v.PlainValueOf(h).value)
  {
    hide AsksFor, IsConditionOf, ContentRanges.RangeText, TimestampsOf;
    if v.range.Some? { RangeReads(v.range.value); }
    if v.sourceRange.Some? { RangeReads(v.sourceRange.value); }
    if v.condition.Some? { ConditionReads(v.condition.value); }
    if v.sourceCondition.Some? { ConditionReads(v.sourceCondition.value); }
  }

  lemma MomentsRead(now: Option<Moment>)
    ensures forall t: nat :: now == Some(TimestampsOf(t)) ==>
      var m := now.value;
      && HttpDateMs(m.rfc1123) == Some(Min(t, MAX_UNIX_SECONDS) * 1000)
      && ReadBasicDate(m.iso8601) == Some(Min(t, MAX_UNIX_SECONDS))
      && ReadBasicDay(m.iso8601[..8]) == Some(Calendar(Min(t, MAX_UNIX_SECONDS) / DAY))
  {
    hide TimestampsOf, HttpDateMs, ReadBasicDate, ReadBasicDay, Calendar;
    forall t: nat | now == Some(TimestampsOf(t))
      ensures
        var m := now.value;
        && HttpDateMs(m.rfc1123) == Some(Min(t, MAX_UNIX_SECONDS) * 1000)
        && ReadBasicDate(m.iso8601) == Some(Min(t, MAX_UNIX_SECONDS))
        && ReadBasicDay(m.iso8601[..8]) == Some(Calendar(Min(t, MAX_UNIX_SECONDS) / DAY))
    {
      MomentReads(t);
    }
  }

  lemma NumberReads(n: Option<usize>)
    ensures n.Some? ==> ParseDecimal(NumberText(n).value) == n
  {
    hide Decimal, ParseDecimal;
    if n.Some? { ParsingUndoesWriting(n.value); }
  }

  // What a hole writes or sends does not depend on the other values.
  lemma OnlyOwnValues(v: Values, h: Layouts.Hole)
    ensures v.ValueOf(h) == Own(v, h).ValueOf(h) && v.TextOf(h) == Own(v, h).TextOf(h)
  {
    hide Own, EncodedText, Values.TextOf, Values.PlainValueOf, IsEncodedHole, Layouts.IsOptionalHole;
    OnlyOwnText(v, h);
    OnlyOwnPlain(v, h);
  }

  lemma OnlyOwnText(v: Values, h: Layouts.Hole)
    ensures v.TextOf(h) == Own(v, h).TextOf(h)
  {
  }

  lemma OnlyOwnPlain(v: Values, h: Layouts.Hole)
    ensures v.PlainValueOf(h) == Own(v, h).PlainValueOf(h)
  {
    hide HoleValues.RangeText, ConditionText, NumberText;
  }

  // Each optional parameter stands for its own text.
  lemma OptionalsAreTheirTexts(v: Values)
    ensures v.TextOf(Layouts.Prefix) == v.prefix && v.TextOf(Layouts.Marker) == v.marker
    ensures v.TextOf(Layouts.StartAfter) == v.startAfter && v.TextOf(Layouts.VersionMarker) == v.versionMarker
  {
  }
}
