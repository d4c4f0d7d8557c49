/** Encoding returns spans that name, in its own buffer, what the layout writes. */
module TemplateSpans {
  import opened Bytes
  import opened Numbers
  import opened Requests
  import opened Layouts
  import opened Tables
  import opened Passes
  import opened Builders
  import opened Engines
  import opened Encoders
  import opened TemplateCorrectness
  import opened TemplateHoles
  import opened TemplateMeaning
  import opened TemplateTheorems
  import opened TemplateParts

  // `span` names the bytes `text` of a buffer.
  predicate Names(buffer: bytes, span: Span, text: bytes) {
    span.len == |text| && Stands(buffer, span.start, text)
  }

  // What is rendered for one call of the encoder: the layout from its start.
  function RenderingOf(ops: seq<Op>, fill: Filler, n: nat): Option<Rendering> {
    RenderAll(Beginning([]), ops, fill, n)
  }

  function PartOf(section: nat, ops: seq<Op>, fill: Filler, n: nat): bytes {
    SectionBytes(Beginning([]), ops, section, fill, n)
  }

  function UrlOf(ops: seq<Op>, fill: Filler, n: nat): bytes {
    PartOf(ORIGIN, ops, fill, n) + PartOf(PATH, ops, fill, n) + PartOf(QUERY, ops, fill, n)
  }

  // The parts of a request follow each other and make up all of it.
  ghost predicate PartsNamed(w: Written, buffer: bytes, ops: seq<Op>, fill: Filler, n: nat) {
    && Names(buffer, w.url, UrlOf(ops, fill, n)) && w.url.start == 0
    && Names(buffer, w.head, PartOf(HEAD, ops, fill, n)) && w.head.start == w.url.len
    && Names(buffer, w.canonical, PartOf(CANONICAL, ops, fill, n)) && w.canonical.start == w.head.start + w.head.len
    && w.end == w.canonical.start + w.canonical.len + |PartOf(BODY, ops, fill, n)|
    && (w.body.Some? <==> WritesBody(ops, ORIGIN))
    && (w.body.Some? ==>
          && Names(buffer, w.body.value, PartOf(BODY, ops, fill, n))
          && w.body.value.start == w.canonical.start + w.canonical.len)
  }

  // The placeholders recorded are those of the layout's holes, where they stand.
  ghost predicate MarksNamed(w: Written, buffer: bytes, ops: seq<Op>, fill: Filler, n: nat) {
    && IsLast(w.signature, PlacesOf(Signature, Beginning([]), ops, fill, n), 64)
    && |w.bodyHash| == 3 && AreFirst(w.bodyHash, PlacesOf(BodyHash, Beginning([]), ops, fill, n), 64)
    && |w.bodyChecksum| == 2
    && AreFirst(w.bodyChecksum, PlacesOf(BodyChecksum, Beginning([]), ops, fill, n), |Placeholder(BodyChecksum, fill)|)
    && HolesNamed(Signature, buffer, ops, fill, n) && HolesNamed(BodyHash, buffer, ops, fill, n)
    && HolesNamed(BodyChecksum, buffer, ops, fill, n)
  }

  // At each place of `h` stands its text.
  ghost predicate HolesNamed(h: Hole, buffer: bytes, ops: seq<Op>, fill: Filler, n: nat) {
    forall at :: at in PlacesOf(h, Beginning([]), ops, fill, n) ==> Stands(buffer, at, TextAt(h, fill, n))
  }

  // ---- The spans of a rendering ----

  lemma SectionEnds(ops: seq<Op>, i: nat, fill: Filler, n: nat)
    requires InOrder(ops, ORIGIN) && RenderingOf(ops, fill, n).Some? && i < SECTIONS
    ensures
      var s := RenderingOf(ops, fill, n).value;
      var from := if i == 0 then 0 else EndOf(s, i - 1);
      && from <= EndOf(s, i) <= |s.q.out| && s.q.out[from..EndOf(s, i)] == PartOf(i, ops, fill, n)
      && (i == BODY ==> EndOf(s, i) == |s.q.out|)
  {
    hide RenderAll, SectionBytes;
    SectionIsWritten(Beginning([]), ops, i, fill, n);
    RenderExtends(Beginning([]), ops, fill, n);
  }

  lemma UrlEnds(ops: seq<Op>, fill: Filler, n: nat)
    requires InOrder(ops, ORIGIN) && RenderingOf(ops, fill, n).Some?
    ensures
      var s := RenderingOf(ops, fill, n).value;
      EndOf(s, QUERY) <= |s.q.out| && s.q.out[..EndOf(s, QUERY)] == UrlOf(ops, fill, n)
  {
    hide RenderAll, SectionBytes, EndOf;
    SectionEnds(ops, ORIGIN, fill, n);
    SectionEnds(ops, PATH, fill, n);
    SectionEnds(ops, QUERY, fill, n);
    var s := RenderingOf(ops, fill, n).value;
    ThreeParts(s.q.out, EndOf(s, ORIGIN), EndOf(s, PATH), EndOf(s, QUERY));
  }

  lemma ThreeParts(s: bytes, i: nat, j: nat, k: nat)
    requires i <= j <= k <= |s|
    ensures s[..k] == s[0..i] + s[i..j] + s[j..k]
  {
  }

  // The spans that the passes give for a rendering, in a buffer that starts with it.
  lemma SpansName(ops: seq<Op>, fill: Filler, n: nat, hasBody: bool, buffer: bytes, w: Written)
    requires InOrder(ops, ORIGIN) && Rendered([], ops, fill, n).Some? && (hasBody <==> WritesBody(ops, ORIGIN))
    requires
      var o := Rendered([], ops, fill, n).value;
      && w == PartsOf(0, o.ends, o.marks, o.fields, hasBody, |o.out|)
      && |o.out| <= |buffer| && buffer[..|o.out|] == o.out
    ensures PartsNamed(w, buffer, ops, fill, n)
  {
    hide RenderAll, SectionBytes, WritesBody;
    var o, s := Rendered([], ops, fill, n).value, RenderingOf(ops, fill, n).value;
    UrlEnds(ops, fill, n);
    SectionEnds(ops, HEAD, fill, n);
    SectionEnds(ops, CANONICAL, fill, n);
    SectionEnds(ops, BODY, fill, n);
    SectionEnds(ops, QUERY, fill, n);
    EndsAre(ops, fill, n);
    InBuffer(buffer, o.out, 0, o.ends[QUERY]);
    InBuffer(buffer, o.out, o.ends[QUERY], o.ends[HEAD]);
    InBuffer(buffer, o.out, o.ends[HEAD], o.ends[CANONICAL]);
    InBuffer(buffer, o.out, o.ends[CANONICAL], o.ends[BODY]);
  }

  lemma EndsAre(ops: seq<Op>, fill: Filler, n: nat)
    requires InOrder(ops, ORIGIN) && Rendered([], ops, fill, n).Some?
    ensures RenderingOf(ops, fill, n).Some?
    ensures
      var o, s := Rendered([], ops, fill, n).value, RenderingOf(ops, fill, n).value;
      && o.out == s.q.out && o.marks == s.q.marks && o.fields == s.fields
      && forall i :: 0 <= i < SECTIONS ==> o.ends[i] == EndOf(s, i)
  {
    hide RenderAll;
  }

  lemma InBuffer(buffer: bytes, out: bytes, from: nat, to: nat)
    requires from <= to <= |out| <= |buffer| && buffer[..|out|] == out
    ensures buffer[from..to] == out[from..to] && Stands(buffer, from, out[from..to])
  {
    PrefixSlice(buffer, out, from, to);
  }

  lemma MarksName(ops: seq<Op>, fill: Filler, n: nat, hasBody: bool, buffer: bytes, w: Written)
    requires InOrder(ops, ORIGIN) && Rendered([], ops, fill, n).Some?
    requires
      var o := Rendered([], ops, fill, n).value;
      && w == PartsOf(0, o.ends, o.marks, o.fields, hasBody, |o.out|)
      && |o.out| <= |buffer| && buffer[..|o.out|] == o.out
    ensures MarksNamed(w, buffer, ops, fill, n)
  {
    hide RenderAll, PlacesOf, Placeholder, IsLast, AreFirst, TextAt;
    EndsAre(ops, fill, n);
    NoneYet(fill);
    MarksArePlaces(Beginning([]), ops, fill, n, [], [], []);
    AfterNone(PlacesOf(Signature, Beginning([]), ops, fill, n), PlacesOf(BodyHash, Beginning([]), ops, fill, n),
              PlacesOf(BodyChecksum, Beginning([]), ops, fill, n));
    HolesName(Signature, ops, fill, n, buffer);
    HolesName(BodyHash, ops, fill, n, buffer);
    HolesName(BodyChecksum, ops, fill, n, buffer);
  }

  lemma NoneYet(fill: Filler)
    ensures MarksAre(NO_MARKS, [], [], [], fill)
  {
  }

  lemma AfterNone(a: seq<nat>, b: seq<nat>, c: seq<nat>)
    ensures [] + a == a && [] + b == b && [] + c == c
  {
  }

  lemma HolesName(h: Hole, ops: seq<Op>, fill: Filler, n: nat, buffer: bytes)
    requires !IsUrlHole(h) && !IsParamHole(h)
    requires InOrder(ops, ORIGIN) && Rendered([], ops, fill, n).Some?
    requires
      var out := Rendered([], ops, fill, n).value.out;
      |out| <= |buffer| && buffer[..|out|] == out
    ensures HolesNamed(h, buffer, ops, fill, n)
  {
    hide RenderAll, PlacesOf, TextAt, IsUrlHole, IsParamHole;
    EndsAre(ops, fill, n);
    HolesStand(h, Beginning([]), ops, fill, n);
    var out := Rendered([], ops, fill, n).value.out;
    forall at | at in PlacesOf(h, Beginning([]), ops, fill, n) ensures Stands(buffer, at, TextAt(h, fill, n)) {
      InBuffer(buffer, out, at, at + |TextAt(h, fill, n)|);
    }
  }

  // ---- What encoding returns ----

  // What a pass delivers for a template's request is rendered in the buffer.
  lemma DeliveredIsRendered(table: Table, template: bytes, fill: Filler, ops: seq<Op>, stash: bytes, run: seq<Op>,
                            r: Result<Written>, buffer: bytes)
    requires IsTemplate(table, template, ops, stash) && WellFormed(ops, ORIGIN, false)
    requires InOrder(run, ORIGIN) && Skeleton(run) == Skeleton(ops) && Whole(table)
    requires Delivers(r, EncodedIn(table, template, fill, [], run), table.body, buffer) && r.Ok?
    ensures InOrder(ops, ORIGIN) && SourceIn(table, template, fill).Some?
    ensures
      var n := SourceIn(table, template, fill).value.bodyLen;
      && Rendered([], ops, fill, n).Some? && (table.body <==> WritesBody(ops, ORIGIN))
      && var o := Rendered([], ops, fill, n).value;
         && r.value == PartsOf(0, o.ends, o.marks, o.fields, table.body, |o.out|)
         && |o.out| <= |buffer| && buffer[..|o.out|] == o.out
  {
    hide IsTemplate, WellFormed, EncodedIn, SourceIn, Rendered, PartsOf, WritesBody, Template, HoldsBody, FixedUrl,
         Fingerprint, EncodeSteps, Sum;
    WellFormedIsInOrder(ops, ORIGIN, false);
    RequestsAreRendered(table, template, fill, ops, stash, run);
    EncodedFromSource(table, template, fill, run);
    var f := TemplateReadsBack(table, template, ops, stash);
    TableSays(f, table);
    TemplateHasBody(ops);
    BodyStepsAre(f, table);
  }

  lemma BodyStepsAre(f: Building, table: Table)
    requires f.Ok() && |table.counts| == SECTIONS && table.StepsBefore(BODY) == |f.steps| - f.counts[BODY]
    requires f.section == SECTIONS
    ensures table.StepsBefore(BODY) == Sum(f.counts[..BODY])
  {
    assert f.counts[..SECTIONS - 1] == f.counts[..BODY];
  }

  // Every request delivered from a template: the spans returned name its parts and its placeholders
  // in the buffer, as the layout writes them.
  lemma PartsAreNamed(table: Table, template: bytes, fill: Filler, ops: seq<Op>, stash: bytes, run: seq<Op>,
                      r: Result<Written>, buffer: bytes)
    requires IsTemplate(table, template, ops, stash) && WellFormed(ops, ORIGIN, false)
    requires InOrder(run, ORIGIN) && Skeleton(run) == Skeleton(ops) && Whole(table)
    requires Delivers(r, EncodedIn(table, template, fill, [], run), table.body, buffer) && r.Ok?
    ensures SourceIn(table, template, fill).Some?
    ensures PartsNamed(r.value, buffer, ops, fill, SourceIn(table, template, fill).value.bodyLen)
    ensures MarksNamed(r.value, buffer, ops, fill, SourceIn(table, template, fill).value.bodyLen)
  {
    hide IsTemplate, WellFormed, EncodedIn, SourceIn, Rendered, PartsOf, WritesBody, PartsNamed, MarksNamed, Delivers;
    DeliveredIsRendered(table, template, fill, ops, stash, run, r, buffer);
    var n := SourceIn(table, template, fill).value.bodyLen;
    SpansName(ops, fill, n, table.body, buffer, r.value);
    MarksName(ops, fill, n, table.body, buffer, r.value);
  }

  // And so of every request that the table alone writes.
  lemma WalkedPartsAreNamed(table: Table, template: bytes, fill: Filler, ops: seq<Op>, stash: bytes, r: Result<Written>,
                            buffer: bytes)
    requires IsTemplate(table, template, ops, stash) && WellFormed(ops, ORIGIN, false) && Whole(table)
    requires Delivers(r, WalkedRequest(table, template, fill), table.body, buffer) && r.Ok?
    ensures SourceIn(table, template, fill).Some?
    ensures PartsNamed(r.value, buffer, ops, fill, SourceIn(table, template, fill).value.bodyLen)
    ensures MarksNamed(r.value, buffer, ops, fill, SourceIn(table, template, fill).value.bodyLen)
  {
    hide *;
    WellFormedIsInOrder(ops, ORIGIN, false);
    RequestsAreRendered(table, template, fill, ops, stash, ops);
    PartsAreNamed(table, template, fill, ops, stash, ops, r, buffer);
  }

  // The fields run from their mark to the empty line that ends the head. A mark in another section
  // leaves them at that end of the head, and no mark at its start.
  lemma FieldsAreNamed(table: Table, template: bytes, fill: Filler, a: seq<Op>, b: seq<Op>, stash: bytes, run: seq<Op>,
                       r: Result<Written>, buffer: bytes)
    requires IsTemplate(table, template, a + ([Fields] + b), stash) && WellFormed(a + ([Fields] + b), ORIGIN, false)
    requires InOrder(run, ORIGIN) && Skeleton(run) == Skeleton(a + ([Fields] + b)) && Whole(table)
    requires Delivers(r, EncodedIn(table, template, fill, [], run), table.body, buffer) && r.Ok?
    ensures SourceIn(table, template, fill).Some?
    ensures
      var before, w := RenderingOf(a, fill, SourceIn(table, template, fill).value.bodyLen), r.value;
      && before.Some?
      && w.fields.start ==
           (if SectionAfter(a, ORIGIN) < HEAD then w.head.start
            else if SectionAfter(a, ORIGIN) == HEAD then |before.value.q.out|
            else w.head.start + w.head.len)
      && w.fields.len == Monus(w.head.start + w.head.len, w.fields.start + 2)
  {
    hide IsTemplate, WellFormed, EncodedIn, SourceIn, Delivers, InOrder, WritesBody, Skeleton;
    var ops := a + ([Fields] + b);
    DeliveredIsRendered(table, template, fill, ops, stash, run, r, buffer);
    var n := SourceIn(table, template, fill).value.bodyLen;
    OneMark(a, b, ORIGIN, false);
    FieldsBetween(a, b, fill, n);
  }

  // A well-formed layout marks its fields once.
  lemma {:induction false} OneMark(a: seq<Op>, b: seq<Op>, section: nat, marked: bool)
    requires WellFormed(a + ([Fields] + b), section, marked)
    ensures Fields !in b
    decreases |a|
  {
    hide WellFormed;
    var ops := a + ([Fields] + b);
    WellFormedIsInOrder(ops, section, marked);
    if a == [] {
      assert ops[1..] == b && ops[0] == Fields;
      MarkedOnce(b, section);
    } else {
      assert ops[1..] == a[1..] + ([Fields] + b);
      OneMark(a[1..], b, if ops[0].Section? then ops[0].section else section, marked || ops[0].Fields?);
    }
  }

  lemma FieldsBetween(a: seq<Op>, b: seq<Op>, fill: Filler, n: nat)
    requires InOrder(a + ([Fields] + b), ORIGIN) && Rendered([], a + ([Fields] + b), fill, n).Some? && Fields !in b
    ensures RenderingOf(a, fill, n).Some?
    ensures
      var o, at := Rendered([], a + ([Fields] + b), fill, n).value, |RenderingOf(a, fill, n).value.q.out|;
      && o.fields == at && o.ends[QUERY] <= o.ends[HEAD]
      && (SectionAfter(a, ORIGIN) < HEAD ==> at <= o.ends[QUERY])
      && (SectionAfter(a, ORIGIN) == HEAD ==> o.ends[QUERY] <= at <= o.ends[HEAD])
      && (SectionAfter(a, ORIGIN) > HEAD ==> o.ends[HEAD] <= at)
  {
    hide RenderAll;
    FieldsStand(Beginning([]), a, b, fill, n);
    EndsAre(a + ([Fields] + b), fill, n);
    SectionsFollowEachOther([], a + ([Fields] + b), fill, n);
    var p, s := RenderedThrough([], a, [Fields] + b, fill, n);
  }

  // The length that a request writes before its body, read from the buffer, is that of the body in
  // the buffer.
  lemma LengthIsNamed(table: Table, template: bytes, fill: Filler, ops: seq<Op>, stash: bytes, run: seq<Op>,
                      r: Result<Written>, buffer: bytes, at: nat)
    requires IsTemplate(table, template, ops, stash) && WellFormed(ops, ORIGIN, false)
    requires InOrder(run, ORIGIN) && Skeleton(run) == Skeleton(ops) && Whole(table)
    requires Delivers(r, EncodedIn(table, template, fill, [], run), table.body, buffer) && r.Ok? && fill.Honest()
    requires SourceIn(table, template, fill).Some? && |buffer| <= ISIZE_MAX
    requires at in PlacesOf(BodyLength, Beginning([]), ops, fill, SourceIn(table, template, fill).value.bodyLen)
    ensures exists text :: Stands(buffer, at, text)
                           && ParseDecimal(text) == Some(if r.value.body.Some? then r.value.body.value.len else 0)
  {
    hide *;
    WellFormedIsInOrder(ops, ORIGIN, false);
    DeliveredIsRendered(table, template, fill, ops, stash, run, r, buffer);
    var n := SourceIn(table, template, fill).value.bodyLen;
    BodyIsMeasured(table, template, fill, ops, stash, run, buffer);
    PartsAreNamed(table, template, fill, ops, stash, run, r, buffer);
    BodyOfParts(r.value, buffer, ops, fill, n);
    LengthHolesName(ops, fill, n, buffer, at);
    ParsingUndoesWriting(n);
    assert Stands(buffer, at, Decimal(n));
  }

  lemma LengthHolesName(ops: seq<Op>, fill: Filler, n: nat, buffer: bytes, at: nat)
    requires InOrder(ops, ORIGIN) && Rendered([], ops, fill, n).Some?
    requires
      var out := Rendered([], ops, fill, n).value.out;
      |out| <= |buffer| && buffer[..|out|] == out
    requires at in PlacesOf(BodyLength, Beginning([]), ops, fill, n)
    ensures Stands(buffer, at, Decimal(n))
  {
    hide Rendered, PlacesOf, Decimal, Stands;
    HolesName(BodyLength, ops, fill, n, buffer);
    assert Stands(buffer, at, TextAt(BodyLength, fill, n));
  }

  lemma BodyOfParts(w: Written, buffer: bytes, ops: seq<Op>, fill: Filler, n: nat)
    requires PartsNamed(w, buffer, ops, fill, n) && WellFormed(ops, ORIGIN, false)
    ensures |PartOf(BODY, ops, fill, n)| == if w.body.Some? then w.body.value.len else 0
  {
    hide WellFormed, WritesBody, PartOf, Stands;
    NoBody(ops, fill, n);
  }

  lemma BodyIsMeasured(table: Table, template: bytes, fill: Filler, ops: seq<Op>, stash: bytes, run: seq<Op>,
                       buffer: bytes)
    requires IsTemplate(table, template, ops, stash) && WellFormed(ops, ORIGIN, false) && fill.Honest()
    requires InOrder(run, ORIGIN) && Skeleton(run) == Skeleton(ops) && Whole(table) && InOrder(ops, ORIGIN)
    requires SourceIn(table, template, fill).Some?
    requires
      var o := Rendered([], ops, fill, SourceIn(table, template, fill).value.bodyLen);
      o.Some? && |o.value.out| <= |buffer| <= ISIZE_MAX
    ensures |PartOf(BODY, ops, fill, SourceIn(table, template, fill).value.bodyLen)|
         == SourceIn(table, template, fill).value.bodyLen <= U64_MAX
  {
    hide IsTemplate, WellFormed, EncodedIn, SourceIn, Rendered, Skeleton, PartOf;
    RequestsAreRendered(table, template, fill, ops, stash, run);
    var n := SourceIn(table, template, fill).value.bodyLen;
    EndsAre(ops, fill, n);
    SectionEnds(ops, BODY, fill, n);
  }

  lemma NoBody(ops: seq<Op>, fill: Filler, n: nat)
    requires WellFormed(ops, ORIGIN, false)
    ensures !WritesBody(ops, ORIGIN) ==> PartOf(BODY, ops, fill, n) == []
  {
    hide WritesBody, WellFormed;
    if !WritesBody(ops, ORIGIN) {
      NothingWritten(Beginning([]), ops, false, fill, n);
    }
  }

  lemma {:induction false} NothingWritten(r: Rendering, ops: seq<Op>, marked: bool, fill: Filler, n: nat)
    requires r.section < SECTIONS && WellFormed(ops, r.section, marked) && !WritesBody(ops, r.section)
    ensures SectionBytes(r, ops, BODY, fill, n) == []
    decreases |ops|
  {
    hide Render, WellFormed, Extends;
    if ops != [] && Render(r, ops[0], fill, n).Some? {
      var next := Render(r, ops[0], fill, n).value;
      WellFormedIsInOrder(ops, r.section, marked);
      CallExtends(r, ops[0], fill, n);
      NothingWritten(next, ops[1..], marked || ops[0].Fields?, fill, n);
      if r.section == BODY {
        NothingAdded(r, ops[0], marked, fill, n);
      }
    }
  }

  lemma NothingAdded(r: Rendering, op: Op, marked: bool, fill: Filler, n: nat)
    requires r.section == BODY && Fits(op, BODY, marked) && !IsContent(op) && Render(r, op, fill, n).Some?
    ensures Slice(Render(r, op, fill, n).value.q.out, |r.q.out|, |Render(r, op, fill, n).value.q.out|) == []
  {
    assert r.q.out + [] == r.q.out;
  }

  // ---- Refusals ----

  // A buffer as long as the room that is asked for is enough, and none shorter is.
  lemma RoomIsEnough(o: Option<Outcome>, hasBody: bool, r: Result<Written>, buffer: bytes, s: Result<Written>,
                     other: bytes)
    requires Delivers(r, o, hasBody, buffer) && Delivers(s, o, hasBody, other)
    requires r.Err? && r.error.Capacity?
    ensures s.Ok? <==> |other| >= r.error.required
  {
  }

  // A request is too large only if no slice can hold it.
  lemma TooLargeForAll(o: Option<Outcome>, hasBody: bool, r: Result<Written>, buffer: bytes, s: Result<Written>,
                       other: bytes)
    requires Delivers(r, o, hasBody, buffer) && Delivers(s, o, hasBody, other)
    requires r == Err(RequestTooLarge) && |other| <= 0x7FFF_FFFF_FFFF_FFFF
    ensures s.Err?
  {
  }

  // A request of a template is at fault exactly if it lacks a value or a body.
  lemma FaultsAre(table: Table, template: bytes, fill: Filler, ops: seq<Op>, stash: bytes, run: seq<Op>,
                  r: Result<Written>, buffer: bytes)
    requires IsTemplate(table, template, ops, stash) && WellFormed(ops, ORIGIN, false)
    requires InOrder(run, ORIGIN) && Skeleton(run) == Skeleton(ops) && Whole(table)
    requires Delivers(r, EncodedIn(table, template, fill, [], run), table.body, buffer)
    ensures r == Err(TemplateFault)
       <==> !(&& (forall h :: h in HolesOf(ops) ==> CanFill(h, fill))
              && (HolesIn(ops, BODY, ORIGIN, false) > 0 ==> fill.writesBody))
  {
    hide IsTemplate, WellFormed, EncodedIn, Skeleton, HolesOf, HolesIn, CanFill;
    RefusedExactly(table, template, fill, ops, stash, run);
  }
}
