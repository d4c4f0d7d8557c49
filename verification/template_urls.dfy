/** How long a URL may be: the bound that saves measuring it, and the check before a request is
    written. */
module TemplateUrls {
  import opened Bytes
  import opened Requests
  import opened Layouts
  import opened Tables
  import opened Passes
  import opened Builders
  import opened Engines
  import opened Encoders
  import opened TemplateCorrectness
  import opened TemplateHoles
  import opened TemplateLengths
  import opened TemplateMeaning
  import opened TemplateTheorems
  import opened HoleValues
  import Url

  const MAX_URL_LEN: nat := 32_759

  // The filler writes these values into the hole `h` of a URL.
  predicate Fills(values: Values, h: Hole, fill: Filler) {
    if IsOptionalHole(h) then fill.param(h) == values.TextOf(h)
    else h == Separator || fill.value(h) == values.ValueOf(h)
  }

  // ---- What the holes of a URL take ----

  // A hole that is filled with text alone, or separates parameters.
  predicate IsPlainHole(h: Hole) {
    h == Separator || IsOptionalHole(h) || IsValueHole(h)
  }

  // What such a hole adds to the template's text, its name apart.
  function RoomOf(h: Hole, fill: Filler): nat {
    if h == Separator then 1
    else if IsOptionalHole(h) then if fill.Sends(h) then 2 + |Encoded(fill, h)| else 0
    else if fill.value(h).Some? then |fill.value(h).value|
    else 0
  }

  function Encoded(fill: Filler, h: Hole): bytes
    requires fill.param(h).Some?
  {
    Url.PercentEncoded(fill.param(h).value, Url.QUERY_VALUE_ESCAPE)
  }

  function RoomOfHoles(holes: seq<Hole>, fill: Filler): nat {
    if holes == [] then 0 else RoomOfHoles(holes[..|holes| - 1], fill) + RoomOf(holes[|holes| - 1], fill)
  }

  lemma HoleTakes(q: Request, h: Hole, name: bytes, fill: Filler, n: nat)
    requires IsPlainHole(h) && WithHole(q, h, name, fill, n).Some?
    ensures |q.out| + RoomOf(h, fill) <= |WithHole(q, h, name, fill, n).value.out|
    ensures |WithHole(q, h, name, fill, n).value.out| <= |q.out| + |name| + RoomOf(h, fill)
  {
    hide WithHole, WithUrl, WithMark, Url.PercentEncoded, IsUrlHole, IsMarkHole, IsOptionalHole;
    FilledBy(q, h, name, fill, n);
    PlainIsNeither(h);
  }

  lemma PlainIsNeither(h: Hole)
    requires IsPlainHole(h)
    ensures !IsUrlHole(h) && !IsMarkHole(h) && h != BodyLength
    ensures !IsOptionalHole(h) && h != Separator ==> !IsParamHole(h)
  {
  }

  // The walk over the first steps of a table writes at least what their holes take, and no more than
  // that and their text.
  lemma {:induction false} WalkTakes(w: Walking, k: nat, holes: seq<Hole>, src: Source)
    requires k <= |src.parts.steps| && StepHoles(src.parts.steps[..k]) == Ids(holes)
    requires forall h :: h in holes ==> IsPlainHole(h)
    ensures WalkTo(w, 0, k, src).Some? ==>
              |WalkTo(w, 0, k, src).value.q.out|
              <= |w.q.out| + FixedUrl(src.parts.steps[..k]) + RoomOfHoles(holes, src.fill)
    ensures WalkTo(w, 0, k, src).Some? ==>
              |w.q.out| + RoomOfHoles(holes, src.fill) <= |WalkTo(w, 0, k, src).value.q.out|
    decreases k
  {
    hide WalkStep, Ids, IsPlainHole, RoomOf;
    if k > 0 && WalkTo(w, 0, k, src).Some? {
      var steps, step, v := src.parts.steps[..k], src.parts.steps[k - 1], WalkTo(w, 0, k - 1, src).value;
      assert steps[..k - 1] == src.parts.steps[..k - 1] && steps[k - 1] == step;
      if step.hole == NO_HOLE {
        WalkTakes(w, k - 1, holes, src);
        TextStepTakes(v, k - 1, src);
      } else {
        LastHole(steps, holes);
        var h := holes[|holes| - 1];
        WalkTakes(w, k - 1, holes[..|holes| - 1], src);
        HoleStepTakes(v, k - 1, h, src);
      }
    }
  }

  lemma TextStepTakes(w: Walking, k: nat, src: Source)
    requires k < |src.parts.steps| && src.parts.steps[k].hole == NO_HOLE && WalkStep(w, k, src).Some?
    ensures |WalkStep(w, k, src).value.q.out| == |w.q.out| + src.parts.steps[k].len
  {
    hide WithHole, HoleOfId;
  }

  lemma HoleStepTakes(w: Walking, k: nat, h: Hole, src: Source)
    requires k < |src.parts.steps| && src.parts.steps[k].hole == HoleId(h) && IsPlainHole(h)
    requires WalkStep(w, k, src).Some?
    ensures |w.q.out| + RoomOf(h, src.fill) <= |WalkStep(w, k, src).value.q.out|
    ensures |WalkStep(w, k, src).value.q.out|
         <= |w.q.out| + src.parts.steps[k].len + src.parts.steps[k].name + RoomOf(h, src.fill)
  {
    hide WithHole, HoleOfId, HoleId, RoomOf, IsPlainHole;
    HoleIdReadsBack(h);
    NoHoleHasNoNumber();
    var step, text := src.parts.steps[k], src.parts.text;
    var at := w.cursor + step.len;
    HoleTakes(w.q.Push(text[w.cursor..at]), h, text[at..at + step.name], src.fill, src.bodyLen);
  }

  // The last step's hole is the last of the holes.
  lemma LastHole(steps: seq<Step>, holes: seq<Hole>)
    requires steps != [] && steps[|steps| - 1].hole != NO_HOLE && StepHoles(steps) == Ids(holes)
    ensures holes != [] && steps[|steps| - 1].hole == HoleId(holes[|holes| - 1])
    ensures StepHoles(steps[..|steps| - 1]) == Ids(holes[..|holes| - 1])
  {
    hide HoleId;
    var front := StepHoles(steps[..|steps| - 1]);
    assert StepHoles(steps) == front + [steps[|steps| - 1].hole];
    assert Ids(holes)[..|holes| - 1] == Ids(holes[..|holes| - 1]);
    assert StepHoles(steps)[..|holes| - 1] == front;
  }

  // ---- The bound ----

  function Separators(holes: seq<Hole>): nat {
    if holes == [] then 0
    else Separators(holes[..|holes| - 1]) + if holes[|holes| - 1] == Separator then 1 else 0
  }

  // A URL of the texts that the bound is made for, with few enough parameters after an optional one.
  predicate IsTextual(holes: seq<Hole>) {
    (forall h :: h in holes ==> IsTextHole(h) || h == Separator) && Separators(holes) <= 25
  }

  // Each text is named at most once, and never a block and an upload, which one text fills.
  predicate NamesOnce(holes: seq<Hole>) {
    && (forall i, j :: 0 <= i < j < |holes| && holes[i] == holes[j] ==> holes[i] == Separator)
    && !(BlockId in holes && UploadId in holes)
  }

  predicate IsBounded(holes: seq<Hole>) {
    IsTextual(holes) && NamesOnce(holes)
  }

  predicate IsTextHole(h: Hole) {
    IsOptionalHole(h) || h == Key || h == Revision || h == BlockId || h == UploadId || h == CopyId
  }

  // The text holes that a request must fill.
  predicate NeedsText(h: Hole) {
    IsTextHole(h) && !IsOptionalHole(h)
  }

  // The room of `h`, if it is one of `holes`.
  function Charged(holes: seq<Hole>, h: Hole, fill: Filler): nat {
    if h in holes then RoomOf(h, fill) else 0
  }

  function ChargedAll(holes: seq<Hole>, fill: Filler): nat {
    ChargedValues(holes, fill) + ChargedOptionals(holes, fill)
  }

  function ChargedValues(holes: seq<Hole>, fill: Filler): nat {
    Charged(holes, Key, fill) + Charged(holes, Revision, fill) + Charged(holes, BlockId, fill)
    + Charged(holes, UploadId, fill) + Charged(holes, CopyId, fill)
  }

  function ChargedOptionals(holes: seq<Hole>, fill: Filler): nat {
    Charged(holes, Prefix, fill) + Charged(holes, Marker, fill) + Charged(holes, StartAfter, fill)
    + Charged(holes, VersionMarker, fill)
  }

  lemma ChargedMore(front: seq<Hole>, last: Hole, h: Hole, fill: Filler)
    requires h == last ==> last !in front
    ensures Charged(front + [last], h, fill) == Charged(front, h, fill) + if h == last then RoomOf(last, fill) else 0
  {
    hide RoomOf;
    assert forall g :: g in front + [last] <==> g in front || g == last;
  }

  // Each hole is charged for itself alone.
  lemma ChargedOnce(front: seq<Hole>, last: Hole, fill: Filler)
    requires (IsTextHole(last) && last !in front) || last == Separator
    ensures ChargedAll(front + [last], fill)
         == ChargedAll(front, fill) + if last == Separator then 0 else RoomOf(last, fill)
  {
    hide RoomOf, ChargedValues, ChargedOptionals;
    ValueChargedOnce(front, last, fill);
    OptionalChargedOnce(front, last, fill);
  }

  lemma ValueChargedOnce(front: seq<Hole>, last: Hole, fill: Filler)
    requires last !in front || last == Separator
    ensures ChargedValues(front + [last], fill)
         == ChargedValues(front, fill) + if NeedsText(last) then RoomOf(last, fill) else 0
  {
    hide RoomOf, Charged;
    ChargedMore(front, last, Key, fill);
    ChargedMore(front, last, Revision, fill);
    ChargedMore(front, last, BlockId, fill);
    ChargedMore(front, last, UploadId, fill);
    ChargedMore(front, last, CopyId, fill);
  }

  lemma OptionalChargedOnce(front: seq<Hole>, last: Hole, fill: Filler)
    requires last !in front || last == Separator
    ensures ChargedOptionals(front + [last], fill)
         == ChargedOptionals(front, fill) + if IsOptionalHole(last) then RoomOf(last, fill) else 0
  {
    hide RoomOf, Charged;
    ChargedMore(front, last, Prefix, fill);
    ChargedMore(front, last, Marker, fill);
    ChargedMore(front, last, StartAfter, fill);
    ChargedMore(front, last, VersionMarker, fill);
  }

  lemma {:induction false} RoomIsCharged(holes: seq<Hole>, fill: Filler)
    requires forall h :: h in holes ==> IsTextHole(h) || h == Separator
    requires forall i, j :: 0 <= i < j < |holes| && holes[i] == holes[j] ==> holes[i] == Separator
    ensures RoomOfHoles(holes, fill) == ChargedAll(holes, fill) + Separators(holes)
  {
    hide ChargedAll, IsTextHole;
    if holes == [] {
      NothingCharged(fill);
    } else {
      var front, last := holes[..|holes| - 1], holes[|holes| - 1];
      assert holes == front + [last];
      assert IsTextHole(last) || last == Separator;
      RoomIsCharged(front, fill);
      ChargedOnce(front, last, fill);
    }
  }

  lemma NothingCharged(fill: Filler)
    ensures ChargedAll([], fill) == 0
  {
  }

  // What a text hole writes, beside the optional ones, is its text in one of the two encodings.
  lemma TextIsEncoded(values: Values, h: Hole)
    requires IsTextHole(h)
    ensures !IsOptionalHole(h) ==>
              values.ValueOf(h)
              == EncodedText(values.TextOf(h), if h == Key then Url.OBJECT_KEY_ESCAPE else Url.QUERY_VALUE_ESCAPE)
  {
    hide Values.TextOf, Values.PlainValueOf, EncodedText, Url.OBJECT_KEY_ESCAPE, Url.QUERY_VALUE_ESCAPE;
  }

  lemma TextIsRoomy(values: Values, h: Hole, fill: Filler)
    requires IsTextHole(h) && Fills(values, h, fill)
    ensures RoomOf(h, fill) <= RoomOfText(values.TextOf(h))
  {
    hide Values.TextOf, Values.ValueOf, IsOptionalHole, IsTextHole, RoomOfText, EncodedText;
    if IsOptionalHole(h) {
      if fill.Sends(h) { SentIsRoomy(h, fill); }
      TextIsNoSeparator(h);
    } else {
      TextIsEncoded(values, h);
      EncodedIsRoomy(values.TextOf(h), Url.OBJECT_KEY_ESCAPE);
      EncodedIsRoomy(values.TextOf(h), Url.QUERY_VALUE_ESCAPE);
      TextIsNoSeparator(h);
    }
  }

  lemma SentIsRoomy(h: Hole, fill: Filler)
    requires fill.Sends(h)
    ensures 2 + |Encoded(fill, h)| <= RoomOfText(fill.param(h))
  {
    hide Url.PercentEncoded;
    EncodedAtMostTriples(fill.param(h).value, Url.QUERY_VALUE_ESCAPE);
  }

  lemma EncodedIsRoomy(text: Option<bytes>, escape: Url.AsciiSet)
    ensures var encoded := EncodedText(text, escape);
      (if encoded.Some? then |encoded.value| else 0) <= RoomOfText(text)
  {
    hide Url.PercentEncoded;
    if text.Some? {
      EncodedAtMostTriples(text.value, escape);
    }
  }

  lemma TextIsNoSeparator(h: Hole)
    requires IsTextHole(h)
    ensures h != Separator
  {
  }

  lemma ChargedFits(values: Values, holes: seq<Hole>, h: Hole, fill: Filler)
    requires IsTextHole(h) && (h in holes ==> Fills(values, h, fill))
    ensures Charged(holes, h, fill) <= RoomOfText(values.TextOf(h))
    ensures h !in holes ==> Charged(holes, h, fill) == 0
  {
    hide RoomOf, Fills, Values.TextOf, RoomOfText;
    if h in holes {
      TextIsRoomy(values, h, fill);
    }
  }

  // The texts that fill two holes are both counted.
  lemma PairFits(values: Values, holes: seq<Hole>, fill: Filler)
    requires !(BlockId in holes && UploadId in holes) && forall h :: h in holes ==> Fills(values, h, fill)
    ensures Charged(holes, BlockId, fill) + Charged(holes, UploadId, fill)
         <= RoomOfText(values.blockId) + RoomOfText(values.uploadId)
  {
    hide Charged, Fills;
    ChargedFits(values, holes, BlockId, fill);
    ChargedFits(values, holes, UploadId, fill);
  }

  // The room of a source revision where `CopyId` writes it.
  function Uncounted(values: Values, holes: seq<Hole>): nat {
    if CopyId in holes then RoomOfText(values.sourceRevision) else 0
  }

  lemma CopyFits(values: Values, holes: seq<Hole>, fill: Filler)
    requires CopyId in holes ==> Fills(values, CopyId, fill)
    ensures Charged(holes, CopyId, fill) <= RoomOfText(values.copyId) + Uncounted(values, holes)
  {
    hide Charged, Fills;
    ChargedFits(values, holes, CopyId, fill);
  }

  lemma HolesAreBounded(values: Values, holes: seq<Hole>, fill: Filler)
    requires IsBounded(holes) && forall h :: h in holes ==> Fills(values, h, fill)
    ensures RoomOfHoles(holes, fill) <= values.Room() + Uncounted(values, holes)
  {
    hide RoomOf, Fills, Values.Room, RoomOfText, Charged, ChargedAll, RoomOfHoles, Separators, Uncounted, IsTextHole;
    RoomIsCharged(holes, fill);
    ChargedAllFits(values, holes, fill);
  }

  lemma ChargedAllFits(values: Values, holes: seq<Hole>, fill: Filler)
    requires NamesOnce(holes) && forall h :: h in holes ==> Fills(values, h, fill)
    ensures ChargedAll(holes, fill) + 25 <= values.Room() + Uncounted(values, holes)
  {
    hide Values.Room, RoomOfText, ChargedValues, ChargedOptionals, Uncounted, Fills, NamesOnce;
    RoomSums(values);
    ValuesFit(values, holes, fill);
    OptionalsFit(values, holes, fill);
  }

  lemma ValuesFit(values: Values, holes: seq<Hole>, fill: Filler)
    requires NamesOnce(holes) && forall h :: h in holes ==> Fills(values, h, fill)
    ensures ChargedValues(holes, fill)
         <= RoomOfText(values.key) + RoomOfText(values.revision) + RoomOfText(values.blockId)
          + RoomOfText(values.uploadId) + RoomOfText(values.copyId) + Uncounted(values, holes)
  {
    hide RoomOf, Fills, RoomOfText, Charged, Uncounted;
    ChargedFits(values, holes, Key, fill);
    ChargedFits(values, holes, Revision, fill);
    PairFits(values, holes, fill);
    CopyFits(values, holes, fill);
  }

  lemma OptionalsFit(values: Values, holes: seq<Hole>, fill: Filler)
    requires forall h :: h in holes ==> Fills(values, h, fill)
    ensures ChargedOptionals(holes, fill)
         <= RoomOfText(values.prefix) + RoomOfText(values.marker) + RoomOfText(values.startAfter)
          + RoomOfText(values.versionMarker)
  {
    hide RoomOf, Fills, RoomOfText, Charged;
    ChargedFits(values, holes, Prefix, fill);
    ChargedFits(values, holes, Marker, fill);
    ChargedFits(values, holes, StartAfter, fill);
    ChargedFits(values, holes, VersionMarker, fill);
  }

  // ---- The check of a URL ----

  datatype UrlCheck = Accepted | TooLong | Fault

  // The check before a request is written: the bound first, and a dry walk where that does not do.
  function UrlChecked(table: Table, template: bytes, values: Values, measured: Filler): UrlCheck
    requires Whole(table)
  {
    if SaturatingAdd(table.urlFixed, WrappingAdd(0, values.Room())) <= MAX_URL_LEN then Accepted
    else
      var counted := WalkedIn(table, template, measured, [], ORIGIN, HEAD, 0);
      if counted.None? then Fault else if |counted.value.out| > MAX_URL_LEN then TooLong else Accepted
  }

  method CheckUrl(table: Table, template: bytes, values: Values, measured: Filler) returns (r: UrlCheck)
    requires Whole(table)
    ensures r == UrlChecked(table, template, values, measured)
  {
    hide WalkedIn, Values.Room;
    var bound := UrlBound(values);
    if SaturatingAdd(table.urlFixed, bound) > MAX_URL_LEN {
      var len := UrlLen(table, template, measured);
      if len.Err? { return Fault; }
      if len.value > MAX_URL_LEN { return TooLong; }
    }
    return Accepted;
  }

  // A URL takes at least the room of its holes, and at most that and the template's text for it.
  lemma UrlTakes(table: Table, template: bytes, fill: Filler, ops: seq<Op>, stash: bytes)
    requires IsTemplate(table, template, ops, stash) && forall h :: h in UrlHoles(ops) ==> IsPlainHole(h)
    ensures Whole(table)
    ensures
      var counted := WalkedIn(table, template, fill, [], ORIGIN, HEAD, 0);
      counted.Some? ==>
        && RoomOfHoles(UrlHoles(ops), fill) <= |counted.value.out|
        && |counted.value.out| <= table.urlFixed + RoomOfHoles(UrlHoles(ops), fill)
  {
    hide BuildAll, EndTo, WalkTo, PartsIn, FinishOf, Template, FixedUrl, Fingerprint, EncodeSteps, RoomOfHoles,
         HoldsBody, IsPlainHole, HolesBefore, StepHoles, WalkedFields;
    var f := TemplateReadsBack(table, template, ops, stash);
    FixedIsCounted(f, table);
    StepsHoldTheirHoles(ops, HEAD);
    assert table.counts[..0] == [];
    var src := Source(Parts(f.steps, f.text), table, fill, 0);
    WalkTakes(WalkStart([], table), table.StepsBefore(HEAD), UrlHoles(ops), src);
  }

  lemma FixedIsCounted(f: Building, table: Table)
    requires f.Ok() && |f.steps| <= MAX_STEPS && table == TableOf(f)
    ensures table.counts == f.counts && table.StepsBefore(HEAD) <= |f.steps|
    ensures table.urlFixed == FixedUrl(f.steps[..table.StepsBefore(HEAD)])
  {
    hide Sum, FixedUrl, Fingerprint, EncodeSteps, HoldsBody;
    SumOfPrefix(f.counts, HEAD);
    assert table.counts == f.counts;
  }

  lemma TextualIsPlain(holes: seq<Hole>)
    requires IsTextual(holes)
    ensures forall h :: h in holes ==> IsPlainHole(h)
  {
    forall h | h in holes ensures IsPlainHole(h) {
      assert IsTextHole(h) || h == Separator;
    }
  }

  // The text of the template's URL, the bound of the values, and a source revision where the URL
  // has one, together are at least the URL's length.
  lemma UrlIsBounded(table: Table, template: bytes, fill: Filler, values: Values, ops: seq<Op>, stash: bytes)
    requires IsTemplate(table, template, ops, stash) && WellFormed(ops, ORIGIN, false) && IsBounded(UrlHoles(ops))
    requires forall h :: h in UrlHoles(ops) ==> Fills(values, h, fill)
    requires Whole(table) && WalkedRequest(table, template, fill).Some?
    ensures WalkedRequest(table, template, fill).value.ends[QUERY]
         <= table.urlFixed + values.Room() + Uncounted(values, UrlHoles(ops))
  {
    hide IsTemplate, WellFormed, WalkedIn, WalkedRequest, UrlHoles, IsTextual, NamesOnce, Fills, RoomOfHoles,
         Values.Room, Uncounted;
    TextualIsPlain(UrlHoles(ops));
    UrlTakes(table, template, fill, ops, stash);
    HolesAreBounded(values, UrlHoles(ops), fill);
    SameAsItself(UrlHoles(ops), fill);
    UrlLenIsUrlSpan(table, template, fill, fill, ops, stash);
  }

  lemma SameAsItself(holes: seq<Hole>, fill: Filler)
    ensures forall h :: h in holes ==> SameValue(h, fill, fill)
  {
  }

  // What the check should say of a URL: the service takes 32 759 characters.
  function Verdict(len: nat): UrlCheck {
    if len > 32_759 then TooLong else Accepted
  }

  // The check is right of a request, whatever its layout, exactly if its URL is short enough or the
  // bound does not say so.
  lemma LongUrlsAreRefused(table: Table, template: bytes, fill: Filler, measured: Filler, values: Values,
                           ops: seq<Op>, stash: bytes)
    requires IsTemplate(table, template, ops, stash) && WellFormed(ops, ORIGIN, false)
    requires forall h :: h in UrlHoles(ops) ==> SameValue(h, fill, measured)
    requires Whole(table) && WalkedRequest(table, template, fill).Some?
    ensures
      var len := WalkedRequest(table, template, fill).value.ends[QUERY];
      UrlChecked(table, template, values, measured) == Verdict(len)
      <==> len <= MAX_URL_LEN || SaturatingAdd(table.urlFixed, WrappingAdd(0, values.Room())) > MAX_URL_LEN
  {
    hide IsTemplate, WellFormed, WalkedIn, WalkedRequest, UrlHoles, Values.Room, SameValue;
    UrlLenIsUrlSpan(table, template, fill, measured, ops, stash);
  }

  // A layout of one hole.
  lemma OneHole(h: Hole)
    ensures InOrder(Holes(1, h), ORIGIN) && Holes(1, h) == [Fill(h)] && UrlHoles(Holes(1, h)) == [h]
    ensures HolesOf(Holes(1, h)) == {h} && HolesIn(Holes(1, h), BODY, ORIGIN, false) == 0
  {
    assert Holes(1, h) == [Fill(h)] && [Fill(h)][1..] == [];
    assert HolesBefore([Fill(h)], HEAD, ORIGIN, false) == [h] + [];
  }

  lemma OneHoleIsBounded(h: Hole)
    requires IsTextHole(h)
    ensures IsBounded([h])
  {
    hide IsTextHole;
    assert [h][..0] == [];
    assert Separators([h]) <= 1 by {
      assert Separators([h][..0]) == 0;
    }
  }

  // It writes its value, which is its URL.
  lemma OneHoleRendered(h: Hole, fill: Filler, n: nat)
    requires IsTextHole(h) && !IsOptionalHole(h) && fill.value(h).Some?
    ensures Rendered([], [Fill(h)], fill, n).Some?
    ensures Rendered([], [Fill(h)], fill, n).value.ends[QUERY] == |fill.value(h).value|
  {
    hide WithHole, IsOptionalHole;
    var r := Rendering(Started([], 0), 0, ORIGIN);
    ValueWritten(r.q, h, fill, n);
    assert [Fill(h)][1..] == [];
    assert RenderAll(r, [Fill(h)], fill, n) == Some(r.(q := r.q.Push(fill.value(h).value)));
  }

  lemma ValueWritten(q: Request, h: Hole, fill: Filler, n: nat)
    requires IsTextHole(h) && !IsOptionalHole(h) && fill.value(h).Some?
    ensures WithHole(q, h, [], fill, n) == Some(q.Push(fill.value(h).value))
  {
    hide WithHole, WithUrl, WithMark, WithParam, Request.Push, Request.Separated;
    FilledBy(q, h, [], fill, n);
  }

  lemma OneHoleHasNoText(h: Hole)
    requires InOrder(Holes(1, h), ORIGIN)
    ensures FixedUrl(Template(Holes(1, h)).steps) == 0
  {
    hide BuildAll, EndTo, Sum, FixedUrl;
    NothingBuiltIsOk();
    HolesBuild(NOTHING_BUILT, 1, h);
    NoStepsFixed();
    LayoutMeasured(NOTHING_BUILT, Holes(1, h), false);
    EndedTo(BuildAll(NOTHING_BUILT, Holes(1, h)), SECTIONS);
  }

  lemma NoStepsFixed()
    ensures FixedUrl([]) == 0
  {
  }

  // A template of one hole, and a request that its value alone fills.
  lemma OneHoleTemplate(h: Hole, fill: Filler) returns (table: Table, template: bytes)
    requires IsTextHole(h) && !IsOptionalHole(h) && fill.value(h).Some? && IsFillable(h, ORIGIN)
    ensures IsTemplate(table, template, Holes(1, h), []) && Whole(table) && table.urlFixed == 0
    ensures WalkedRequest(table, template, fill).Some?
    ensures WalkedRequest(table, template, fill).value.ends[QUERY] == |fill.value(h).value|
  {
    hide Prepared, EndTo, WellFormed, FinishOf, Rendered, Template, CanFill, HolesOf, HolesIn, UrlHoles, FixedUrl,
         BuildAll, Sum, Holes, IsTextHole, IsOptionalHole, IsFillable, BodyLenOf, PartsIn, Walked, Encoded, Skeleton,
         EncodeSteps;
    var room, ops := STEP_LEN * (1 + SECTIONS), Holes(1, h);
    HolesFinish(1, h, room);
    table := FinishOf(Prepared(ops, []), room).table;
    template := ImageOf(EndTo(Prepared(ops, []), SECTIONS));
    OneHole(h);
    var f := TemplateReadsBack(table, template, ops, []);
    CanFillText(h, fill);
    RefusedExactly(table, template, fill, ops, [], ops);
    RequestsAreRendered(table, template, fill, ops, [], ops);
    OneHoleRendered(h, fill, SourceIn(table, template, fill).value.bodyLen);
    OneHoleHasNoText(h);
    FixedIsCounted(f, table);
    FixedUrlOfPrefix(f.steps, table.StepsBefore(HEAD));
  }

  lemma CanFillText(h: Hole, fill: Filler)
    requires IsTextHole(h) && fill.value(h).Some?
    ensures CanFill(h, fill)
  {
  }

  // The bound does not count a source revision, which `CopyId` writes before a copy's own ID: with
  // both, a URL that is too long would not be measured.
  lemma SourceRevisionIsNotCounted() returns (table: Table, template: bytes, fill: Filler, values: Values)
    ensures IsTemplate(table, template, Holes(1, CopyId), []) && IsBounded(UrlHoles(Holes(1, CopyId)))
    ensures forall h :: h in UrlHoles(Holes(1, CopyId)) ==> Fills(values, h, fill)
    ensures Whole(table) && WalkedRequest(table, template, fill).Some?
    ensures WalkedRequest(table, template, fill).value.ends[QUERY] > MAX_URL_LEN
    ensures UrlChecked(table, template, values, fill) == Accepted
  {
    hide IsTemplate, WalkedRequest, IsBounded, UrlHoles, Holes, Fills, UrlChecked;
    fill, values := LongRevision();
    table, template := OneHoleTemplate(CopyId, fill);
    OneHole(CopyId);
    OneHoleIsBounded(CopyId);
    ShortIsAccepted(table, template, values, fill);
  }

  lemma LongRevision() returns (fill: Filler, values: Values)
    ensures fill.value(CopyId).Some? && |fill.value(CopyId).value| > MAX_URL_LEN
    ensures Fills(values, CopyId, fill) && values.Room() == 25
  {
    hide Values.Room, Repeated, Values.ValueOf, Values.TextOf, Values.Texts, Fills, Always, NO_VALUES;
    var revision := Repeated('A' as int, 40_000);
    values := NO_VALUES.(sourceRevision := Some(revision));
    fill := Always(values.ValueOf(CopyId));
    OnlyRevision(revision);
    RevisionIsWritten(values, revision);
    AlwaysFills(values);
    OnlySourceRevision(values);
  }

  lemma RevisionIsWritten(values: Values, revision: bytes)
    requires values.TextOf(CopyId) == Some(revision)
    ensures values.ValueOf(CopyId).Some? && |values.ValueOf(CopyId).value| >= |revision|
  {
    hide Values.ValueOf, Values.TextOf, Url.PercentEncoded;
    EncodedIsNoShorter(revision, Url.QUERY_VALUE_ESCAPE);
    TextIsEncoded(values, CopyId);
  }

  // A request with one value for every hole.
  function Always(value: Option<bytes>): Filler {
    Filler(h => value, h => None, None, false, None)
  }

  lemma AlwaysFills(values: Values)
    ensures Always(values.ValueOf(CopyId)).value(CopyId) == values.ValueOf(CopyId)
    ensures Fills(values, CopyId, Always(values.ValueOf(CopyId)))
  {
    hide Values.ValueOf, Values.TextOf;
  }

  lemma OnlyRevision(revision: bytes)
    ensures
      var values := NO_VALUES.(sourceRevision := Some(revision));
      && values.TextOf(CopyId) == Some(revision)
      && forall i :: 0 <= i < |values.Texts()| ==> values.Texts()[i] == None
  {
  }

  lemma ShortIsAccepted(table: Table, template: bytes, values: Values, fill: Filler)
    requires Whole(table) && table.urlFixed + values.Room() <= MAX_URL_LEN
    ensures UrlChecked(table, template, values, fill) == Accepted
  {
    hide WalkedIn, Values.Room;
  }

  lemma OnlySourceRevision(values: Values)
    requires forall i :: 0 <= i < |values.Texts()| ==> values.Texts()[i] == None
    ensures values.Room() == 25
  {
    hide Values.Room;
    var t := values.Texts();
    RoomSums(values);
    assert t[0] == t[1] == t[2] == t[3] == t[4] == t[5] == t[6] == t[7] == t[8] == None;
  }
}
