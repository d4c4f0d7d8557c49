/** Exactly when the bound of a URL holds, and exactly when the check of its length is right. */
module TemplateUrlLimits {
  import opened Bytes
  import opened ChecksumKinds
  import opened Layouts
  import opened Tables
  import opened Passes
  import opened Engines
  import opened Encoders
  import opened HoleValues
  import opened TemplateHoles
  import opened TemplateLengths
  import opened TemplateTheorems
  import opened TemplateUrls
  import Url

  // ---- Requests that are always written ----

  // A request that is written, and whose URL these values fill.
  ghost predicate IsRequest(table: Table, template: bytes, ops: seq<Op>, fill: Filler, values: Values)
    requires Whole(table)
  {
    (forall h :: h in UrlHoles(ops) ==> Fills(values, h, fill)) && WalkedRequest(table, template, fill).Some?
  }

  ghost function UrlLenOf(table: Table, template: bytes, fill: Filler): nat
    requires Whole(table) && WalkedRequest(table, template, fill).Some?
  {
    WalkedRequest(table, template, fill).value.ends[QUERY]
  }

  // The values, and something for every other hole.
  function FillOf(values: Values): Filler {
    Filler(h => if values.ValueOf(h).Some? then values.ValueOf(h) else Some([]), h => values.TextOf(h), Some(Crc32),
           true, None)
  }

  lemma FillsEveryHole(values: Values, h: Hole)
    ensures CanFill(h, FillOf(values))
  {
    hide Values.ValueOf, Values.TextOf;
  }

  lemma IsWritten(table: Table, template: bytes, values: Values, ops: seq<Op>, stash: bytes)
    requires IsTemplate(table, template, ops, stash) && WellFormed(ops, ORIGIN, false)
    ensures Whole(table) && WalkedRequest(table, template, FillOf(values)).Some?
  {
    hide IsTemplate, WellFormed, WalkedRequest, EncodedIn, FillOf, CanFill, HolesOf, HolesIn, Skeleton, Rendered;
    var fill := FillOf(values);
    forall h ensures CanFill(h, fill) {
      FillsEveryHole(values, h);
    }
    WritesItsBody(values);
    InOrderOf(table, template, ops, stash);
    RefusedExactly(table, template, fill, ops, stash, ops);
    RequestsAreRendered(table, template, fill, ops, stash, ops);
  }

  lemma WritesItsBody(values: Values)
    ensures FillOf(values).writesBody
  {
  }

  lemma InOrderOf(table: Table, template: bytes, ops: seq<Op>, stash: bytes)
    requires IsTemplate(table, template, ops, stash)
    ensures InOrder(ops, ORIGIN)
  {
  }

  // The values fill a URL that they have every text for, and it takes the room of its holes.
  lemma IsFilled(table: Table, template: bytes, values: Values, ops: seq<Op>, stash: bytes)
    requires IsTemplate(table, template, ops, stash) && WellFormed(ops, ORIGIN, false) && IsTextual(UrlHoles(ops))
    requires forall h :: h in UrlHoles(ops) && NeedsText(h) ==> values.TextOf(h).Some?
    ensures Whole(table) && IsRequest(table, template, ops, FillOf(values), values)
    ensures UrlLenOf(table, template, FillOf(values)) >= RoomOfHoles(UrlHoles(ops), FillOf(values))
  {
    hide IsTemplate, WellFormed, WalkedRequest, WalkedIn, UrlHoles, FillOf, Fills, Values.TextOf, RoomOfHoles,
         IsTextHole, NeedsText;
    var fill := FillOf(values);
    IsWritten(table, template, values, ops, stash);
    forall h | h in UrlHoles(ops) ensures Fills(values, h, fill) {
      FilledByText(values, h);
    }
    TextualIsPlain(UrlHoles(ops));
    UrlTakes(table, template, fill, ops, stash);
    SameAsItself(UrlHoles(ops), fill);
    UrlLenIsUrlSpan(table, template, fill, fill, ops, stash);
  }

  lemma FilledByText(values: Values, h: Hole)
    requires (IsTextHole(h) || h == Separator) && (NeedsText(h) ==> values.TextOf(h).Some?)
    ensures Fills(values, h, FillOf(values))
  {
    hide Values.TextOf, Values.ValueOf, Url.PercentEncoded;
    if NeedsText(h) {
      TextIsEncoded(values, h);
    }
  }

  // ---- Texts that are longer than their room ----

  const EMPTY: Option<bytes> := Some([])

  const EMPTY_TEXTS: Values :=
    NO_VALUES.(key := EMPTY, revision := EMPTY, prefix := EMPTY, marker := EMPTY, startAfter := EMPTY,
               versionMarker := EMPTY, blockId := EMPTY, uploadId := EMPTY, copyId := EMPTY)

  // The text `text` for `h`, and empty texts beside it.
  function OneText(h: Hole, text: bytes): Values {
    match h
    case Key => EMPTY_TEXTS.(key := Some(text))
    case Revision => EMPTY_TEXTS.(revision := Some(text))
    case Prefix => EMPTY_TEXTS.(prefix := Some(text))
    case Marker => EMPTY_TEXTS.(marker := Some(text))
    case StartAfter => EMPTY_TEXTS.(startAfter := Some(text))
    case VersionMarker => EMPTY_TEXTS.(versionMarker := Some(text))
    case BlockId => EMPTY_TEXTS.(blockId := Some(text))
    case UploadId => EMPTY_TEXTS.(blockId := None, uploadId := Some(text))
    case CopyId => EMPTY_TEXTS.(sourceRevision := Some(text))
    case _ => EMPTY_TEXTS
  }

  lemma OneTextIs(h: Hole, text: bytes)
    requires IsTextHole(h)
    ensures OneText(h, text).TextOf(h) == Some(text)
    ensures h == BlockId ==> OneText(h, text).TextOf(UploadId) == Some(text)
    ensures forall g :: IsTextHole(g) ==> OneText(h, text).TextOf(g).Some?
  {
    hide OneText, Values.TextOf;
    OneTextHas(h, text);
    forall g | IsTextHole(g) ensures OneText(h, text).TextOf(g).Some? {
      TextHasEach(h, text, g);
    }
  }

  lemma OneTextHas(h: Hole, text: bytes)
    requires IsTextHole(h)
    ensures OneText(h, text).TextOf(h) == Some(text)
    ensures h == BlockId ==> OneText(h, text).TextOf(UploadId) == Some(text)
  {
  }

  // Each text is there, but for a block, in whose place an upload may be.
  lemma TextHasEach(h: Hole, text: bytes, g: Hole)
    requires IsTextHole(g)
    ensures OneText(h, text).TextOf(g).Some?
  {
    hide OneText;
    HasCounted(h, text);
  }

  lemma HasCounted(h: Hole, text: bytes)
    ensures
      var v := OneText(h, text);
      && v.key.Some? && v.revision.Some? && v.prefix.Some? && v.marker.Some? && v.startAfter.Some?
      && v.versionMarker.Some? && v.uploadId.Some? && v.copyId.Some?
  {
  }

  lemma OneTextTakes(h: Hole, text: bytes)
    requires IsTextHole(h)
    ensures OneText(h, text).Room() <= 250 + if h == CopyId then 0 else 3 * |text|
  {
    hide Values.Room;
    RoomSums(OneText(h, text));
  }

  lemma {:induction false} SpacesTriple(n: nat, escape: Url.AsciiSet)
    requires Url.SPACE in escape
    ensures |Url.PercentEncoded(Repeated(Url.SPACE, n), escape)| == 3 * n
    decreases n
  {
    if n > 0 {
      assert Repeated(Url.SPACE, n)[1..] == Repeated(Url.SPACE, n - 1);
      SpacesTriple(n - 1, escape);
    }
  }

  lemma SpaceIsEscaped()
    ensures Url.SPACE in Url.OBJECT_KEY_ESCAPE && Url.SPACE in Url.QUERY_VALUE_ESCAPE
  {
    Url.EscapeSets(Url.SPACE);
  }

  // A hole of spaces takes three bytes for each.
  lemma SpacesTake(values: Values, h: Hole, n: nat)
    requires IsTextHole(h) && n > 0 && values.TextOf(h) == Some(Repeated(Url.SPACE, n))
    ensures RoomOf(h, FillOf(values)) >= 3 * n
  {
    hide Url.PercentEncoded, Values.TextOf, Values.ValueOf, Repeated, IsTextHole, IsOptionalHole, Url.OBJECT_KEY_ESCAPE,
         Url.QUERY_VALUE_ESCAPE;
    TextIsEncoded(values, h);
    TextIsNoSeparator(h);
    SpaceIsEscaped();
    SpacesTriple(n, Url.OBJECT_KEY_ESCAPE);
    SpacesTriple(n, Url.QUERY_VALUE_ESCAPE);
  }

  lemma {:induction false} RoomOfOne(holes: seq<Hole>, i: nat, fill: Filler)
    requires i < |holes|
    ensures RoomOfHoles(holes, fill) >= RoomOf(holes[i], fill)
  {
    hide RoomOf;
    if i < |holes| - 1 {
      RoomOfOne(holes[..|holes| - 1], i, fill);
    }
  }

  lemma {:induction false} RoomOfTwo(holes: seq<Hole>, i: nat, j: nat, fill: Filler)
    requires i < j < |holes|
    ensures RoomOfHoles(holes, fill) >= RoomOf(holes[i], fill) + RoomOf(holes[j], fill)
  {
    hide RoomOf;
    if j < |holes| - 1 {
      RoomOfTwo(holes[..|holes| - 1], i, j, fill);
    } else {
      RoomOfOne(holes[..|holes| - 1], i, fill);
    }
  }

  // Where a URL names a text twice, or one that is not counted, some text takes more than is bounded.
  lemma SomeTextIsLonger(holes: seq<Hole>, more: nat) returns (values: Values)
    requires IsTextual(holes) && !(NamesOnce(holes) && CopyId !in holes)
    ensures forall g :: IsTextHole(g) ==> values.TextOf(g).Some?
    ensures RoomOfHoles(holes, FillOf(values)) > more + values.Room()
  {
    hide RoomOf, RoomOfHoles, Values.Room, Values.TextOf, OneText, FillOf, Separators, IsTextHole, Repeated;
    var n := more + 251;
    var text := Repeated(Url.SPACE, n);
    if CopyId in holes {
      var i :| 0 <= i < |holes| && holes[i] == CopyId;
      values := OneText(CopyId, text);
      TextIsTaken(CopyId, n);
      RoomOfOne(holes, i, FillOf(values));
    } else if BlockId in holes && UploadId in holes {
      var i :| 0 <= i < |holes| && holes[i] == BlockId;
      var j :| 0 <= j < |holes| && holes[j] == UploadId;
      values := OneText(BlockId, text);
      TextIsTaken(BlockId, n);
      RoomOfTwo(holes, if i < j then i else j, if i < j then j else i, FillOf(values));
    } else {
      var i, j :| 0 <= i < j < |holes| && holes[i] == holes[j] && holes[i] != Separator;
      assert holes[i] in holes;
      values := OneText(holes[i], text);
      TextIsTaken(holes[i], n);
      RoomOfTwo(holes, i, j, FillOf(values));
    }
  }

  lemma TextIsTaken(h: Hole, n: nat)
    requires n > 0 && (IsTextHole(h) || h == CopyId || h == BlockId)
    ensures
      var values := OneText(h, Repeated(Url.SPACE, n));
      && RoomOf(h, FillOf(values)) >= 3 * n
      && (h == BlockId ==> RoomOf(UploadId, FillOf(values)) >= 3 * n)
      && values.Room() <= 250 + (if h == CopyId then 0 else 3 * n)
      && forall g :: IsTextHole(g) ==> values.TextOf(g).Some?
  {
    hide RoomOf, Values.Room, Values.TextOf, OneText, FillOf;
    var text := Repeated(Url.SPACE, n);
    OneTextIs(h, text);
    OneTextTakes(h, text);
    SpacesTake(OneText(h, text), h, n);
    if h == BlockId {
      SpacesTake(OneText(h, text), UploadId, n);
    }
  }

  // ---- The bound, exactly ----

  // The bound holds of every request from a template exactly if its URL names each text at most
  // once, and none that is not counted.
  lemma UrlIsBoundedExactly(table: Table, template: bytes, ops: seq<Op>, stash: bytes)
    requires IsTemplate(table, template, ops, stash) && WellFormed(ops, ORIGIN, false) && IsTextual(UrlHoles(ops))
    requires Whole(table)
    ensures (forall fill: Filler, values: Values :: IsRequest(table, template, ops, fill, values) ==>
               UrlLenOf(table, template, fill) <= table.urlFixed + values.Room())
       <==> NamesOnce(UrlHoles(ops)) && CopyId !in UrlHoles(ops)
  {
    hide IsTemplate, WellFormed, WalkedRequest, UrlHoles, Values.Room, Values.TextOf, RoomOfHoles, IsTextHole, Fills,
         FillOf, IsTextual, NamesOnce;
    var holes := UrlHoles(ops);
    if NamesOnce(holes) && CopyId !in holes {
      forall fill: Filler, values: Values | IsRequest(table, template, ops, fill, values)
        ensures UrlLenOf(table, template, fill) <= table.urlFixed + values.Room()
      {
        UrlIsBounded(table, template, fill, values, ops, stash);
      }
    } else {
      var values := SomeTextIsLonger(holes, table.urlFixed);
      TextsAreThere(values, holes);
      IsFilled(table, template, values, ops, stash);
    }
  }

  lemma TextsAreThere(values: Values, holes: seq<Hole>)
    requires forall g :: IsTextHole(g) ==> values.TextOf(g).Some?
    ensures forall h :: h in holes && NeedsText(h) ==> values.TextOf(h).Some?
  {
    hide IsTextHole, Values.TextOf;
  }

  // ---- The check, exactly ----

  // The room that every request of a URL has at least: that of the texts that it needs.
  function LeastRoom(holes: seq<Hole>): nat {
    25 + (if Key in holes then 25 else 0) + (if Revision in holes then 25 else 0)
    + (if BlockId in holes || UploadId in holes then 25 else 0)
  }

  function NeededIf(needed: bool): Option<bytes> {
    if needed then EMPTY else None
  }

  // Empty texts where a URL needs one, and a source revision that is no part of the room.
  function LeastTexts(holes: seq<Hole>, revision: bytes): Values {
    NO_VALUES.(key := NeededIf(Key in holes), revision := NeededIf(Revision in holes),
               blockId := NeededIf(BlockId in holes || UploadId in holes), sourceRevision := Some(revision))
  }

  lemma LeastTextsAre(holes: seq<Hole>, revision: bytes)
    ensures
      var values := LeastTexts(holes, revision);
      && values.Room() == LeastRoom(holes)
      && values.TextOf(CopyId) == Some(revision)
      && forall h :: h in holes && NeedsText(h) ==> values.TextOf(h).Some?
  {
    hide Values.Room;
    RoomSums(LeastTexts(holes, revision));
  }

  lemma RoomIsNeeded(values: Values, holes: seq<Hole>)
    requires forall h :: h in holes && NeedsText(h) ==> values.TextOf(h).Some?
    ensures values.Room() >= LeastRoom(holes)
  {
    hide Values.Room;
    assert NeedsText(Key) && NeedsText(Revision) && NeedsText(BlockId) && NeedsText(UploadId);
    RoomSums(values);
  }

  // A request that is written has the texts that its URL needs.
  lemma RequestHasTexts(table: Table, template: bytes, fill: Filler, values: Values, ops: seq<Op>, stash: bytes)
    requires IsTemplate(table, template, ops, stash) && WellFormed(ops, ORIGIN, false)
    requires Whole(table) && IsRequest(table, template, ops, fill, values)
    ensures forall h :: h in UrlHoles(ops) && NeedsText(h) ==> values.TextOf(h).Some?
  {
    hide IsTemplate, WellFormed, WalkedRequest, EncodedIn, UrlHoles, CanFill, HolesOf, HolesIn, Skeleton, Rendered,
         Fills, Values.TextOf, NeedsText;
    InOrderOf(table, template, ops, stash);
    RefusedExactly(table, template, fill, ops, stash, ops);
    RequestsAreRendered(table, template, fill, ops, stash, ops);
    forall h | h in UrlHoles(ops) && NeedsText(h) ensures values.TextOf(h).Some? {
      UrlHoleIsNamed(ops, h);
      FilledHasText(values, h, fill);
    }
  }

  lemma FilledHasText(values: Values, h: Hole, fill: Filler)
    requires NeedsText(h) && CanFill(h, fill) && Fills(values, h, fill)
    ensures values.TextOf(h).Some?
  {
    hide Values.TextOf, Values.ValueOf, CanFill, IsOptionalHole;
    TextIsEncoded(values, h);
    NeedsValue(h, fill);
  }

  lemma NeedsValue(h: Hole, fill: Filler)
    requires NeedsText(h)
    ensures h != Separator && (CanFill(h, fill) <==> fill.value(h).Some?)
  {
  }

  lemma UrlHoleIsNamed(ops: seq<Op>, h: Hole)
    requires h in UrlHoles(ops) && NeedsText(h)
    ensures h in HolesOf(ops)
  {
    NamedBefore(ops, HEAD, ORIGIN, false, h);
  }

  lemma {:induction false} NamedBefore(ops: seq<Op>, until: nat, at: nat, optional: bool, h: Hole)
    requires h in HolesBefore(ops, until, at, optional) && h != Separator
    ensures h in HolesOf(ops)
    decreases |ops|
  {
    if ops != [] {
      if h in HolesBefore(ops[1..], until, SectionOf(ops[0], at), NowOptionalAfter(ops[0], optional)) {
        NamedBefore(ops[1..], until, SectionOf(ops[0], at), NowOptionalAfter(ops[0], optional), h);
      } else {
        assert h in OpHoles(ops[0], optional);
      }
    }
  }

  // What the check says of a request is right.
  ghost predicate IsRight(table: Table, template: bytes, fill: Filler, measured: Filler, values: Values)
    requires Whole(table) && WalkedRequest(table, template, fill).Some?
  {
    UrlChecked(table, template, values, measured) == Verdict(UrlLenOf(table, template, fill))
  }

  ghost predicate Measures(ops: seq<Op>, fill: Filler, measured: Filler) {
    forall h :: h in UrlHoles(ops) ==> SameValue(h, fill, measured)
  }

  // Over the layouts that the bound is made for, the check is right of every request exactly if no
  // URL names a text that is not counted, or none of the template's is short enough to be waved
  // through.
  lemma LongUrlsAreRefusedExactly(table: Table, template: bytes, ops: seq<Op>, stash: bytes)
    requires IsTemplate(table, template, ops, stash) && WellFormed(ops, ORIGIN, false) && IsBounded(UrlHoles(ops))
    requires Whole(table)
    ensures (forall fill: Filler, measured: Filler, values: Values ::
               (IsRequest(table, template, ops, fill, values) && Measures(ops, fill, measured)
                && values.Room() <= USIZE_MAX) ==> IsRight(table, template, fill, measured, values))
       <==> CopyId !in UrlHoles(ops) || table.urlFixed + LeastRoom(UrlHoles(ops)) > MAX_URL_LEN
  {
    hide IsTemplate, WellFormed, WalkedRequest, UrlHoles, Values.Room, Fills, IsRight, Measures, LeastRoom,
         IsBounded;
    var holes := UrlHoles(ops);
    if CopyId !in holes || table.urlFixed + LeastRoom(holes) > MAX_URL_LEN {
      forall fill: Filler, measured: Filler, values: Values
        | IsRequest(table, template, ops, fill, values) && Measures(ops, fill, measured) && values.Room() <= USIZE_MAX
        ensures IsRight(table, template, fill, measured, values)
      {
        RightWhenCounted(table, template, fill, measured, values, ops, stash);
      }
    } else {
      var values := WavedThrough(table, template, ops, stash);
    }
  }

  lemma RightWhenCounted(table: Table, template: bytes, fill: Filler, measured: Filler, values: Values, ops: seq<Op>,
                         stash: bytes)
    requires IsTemplate(table, template, ops, stash) && WellFormed(ops, ORIGIN, false) && IsBounded(UrlHoles(ops))
    requires CopyId !in UrlHoles(ops)
               || (Whole(table) && table.urlFixed + LeastRoom(UrlHoles(ops)) > MAX_URL_LEN)
    requires Whole(table) && IsRequest(table, template, ops, fill, values) && Measures(ops, fill, measured)
    requires values.Room() <= USIZE_MAX
    ensures IsRight(table, template, fill, measured, values)
  {
    hide IsTemplate, WellFormed, WalkedRequest, UrlHoles, Values.Room, LeastRoom, IsBounded, Fills, SameValue,
         UrlChecked, NeedsText;
    LongUrlsAreRefused(table, template, fill, measured, values, ops, stash);
    if CopyId !in UrlHoles(ops) {
      UrlIsBounded(table, template, fill, values, ops, stash);
    } else {
      RequestHasTexts(table, template, fill, values, ops, stash);
      RoomIsNeeded(values, UrlHoles(ops));
    }
  }

  // A request whose source revision makes its URL too long, with the least room.
  lemma WavedThrough(table: Table, template: bytes, ops: seq<Op>, stash: bytes) returns (values: Values)
    requires IsTemplate(table, template, ops, stash) && WellFormed(ops, ORIGIN, false) && IsBounded(UrlHoles(ops))
    requires Whole(table)
    requires CopyId in UrlHoles(ops) && table.urlFixed + LeastRoom(UrlHoles(ops)) <= MAX_URL_LEN
    ensures IsRequest(table, template, ops, FillOf(values), values) && values.Room() <= USIZE_MAX
    ensures Measures(ops, FillOf(values), FillOf(values))
    ensures !IsRight(table, template, FillOf(values), FillOf(values), values)
  {
    hide IsTemplate, WellFormed, WalkedRequest, UrlHoles, Values.Room, Values.TextOf, LeastRoom, Fills, FillOf,
         LeastTexts, RoomOf, RoomOfHoles, NeedsText, NamesOnce, UrlChecked, Repeated, SameValue;
    var holes := UrlHoles(ops);
    var revision := Repeated(Url.SPACE, MAX_URL_LEN + 1);
    values := LeastTexts(holes, revision);
    LeastTextsAre(holes, revision);
    IsFilled(table, template, values, ops, stash);
    var i :| 0 <= i < |holes| && holes[i] == CopyId;
    SpacesTake(values, CopyId, MAX_URL_LEN + 1);
    RoomOfOne(holes, i, FillOf(values));
    SameAsItself(holes, FillOf(values));
    LongUrlsAreRefused(table, template, FillOf(values), FillOf(values), values, ops, stash);
  }
}
