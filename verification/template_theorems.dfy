/** What the engine promises of every template it writes, and of every request from one. */
module TemplateTheorems {
  import opened Bits
  import opened Bytes
  import opened Layouts
  import opened Tables
  import opened Passes
  import opened Builders
  import opened Engines
  import opened Encoders
  import opened TemplateCorrectness
  import opened TemplateHoles
  import opened TemplateLengths

  // ---- A template, sealed and read back ----

  // `template` starts with the bytes of the template of `ops`, whose table is `table`.
  ghost predicate IsTemplate(table: Table, template: bytes, ops: seq<Op>, stash: bytes) {
    && InOrder(ops, ORIGIN)
    && (exists room :: FinishOf(Prepared(ops, stash), room) == Done(table))
    && table.end <= |template| && template[..table.end] == ImageOf(EndTo(Prepared(ops, stash), SECTIONS))
  }

  // A stash follows the text of every section.
  lemma {:induction false} StashComesLast(b: Building, stash: bytes, until: nat)
    requires b.Ok() && until <= SECTIONS
    ensures EndTo(Stashed(b, stash), until) == Stashed(EndTo(b, until), stash)
    decreases until - b.section
  {
    hide Sum, EndOne, Stashed;
    if b.section < until {
      StashAndEnd(b, stash);
      StashComesLast(EndOne(b), stash, until);
    }
  }

  lemma StashAndEnd(b: Building, stash: bytes)
    requires b.Ok() && b.section < SECTIONS
    ensures EndOne(Stashed(b, stash)) == Stashed(EndOne(b), stash)
  {
    hide Sum;
  }

  lemma DoneSays(b: Building, room: nat, table: Table)
    requires b.Ok() && FinishOf(b, room) == Done(table)
    ensures
      var f := EndTo(b, SECTIONS);
      && |b.steps| <= MAX_STEPS && |f.steps| <= MAX_STEPS && !f.scattered
      && |ImageOf(f)| <= room && |ImageOf(f)| < U32_LIMIT
      && table == TableOf(f)
  {
  }

  lemma TableSays(f: Building, table: Table)
    requires f.Ok() && |f.steps| <= MAX_STEPS && table == TableOf(f) && f.section == SECTIONS
    ensures Whole(table) && table.total == |f.steps|
    ensures table.start == |f.text| && table.end == |ImageOf(f)| && table.fingerprint == Fingerprint(ImageOf(f))
    ensures table.params == Min(f.params, 255) && table.fieldsStep == f.fieldsStep
    ensures table.fieldsOffset == f.fieldsOffset
    ensures forall i :: 0 <= i < SECTIONS ==> table.counts[i] == f.counts[i]
    ensures table.StepsBefore(BODY) == |f.steps| - f.counts[BODY]
    ensures table.body <==> HoldsBody(f.steps, table.StepsBefore(BODY))
  {
    hide FixedUrl, Fingerprint, EncodeSteps, HoldsBody;
    assert table.counts == f.counts;
    assert f.counts[..SECTIONS - 1] == f.counts[..BODY];
    assert Sum(f.counts) == Sum(f.counts[..BODY]) + f.counts[BODY];
  }

  // A built template's table finds its steps and its text in its bytes.
  lemma TemplateReadsBack(table: Table, template: bytes, ops: seq<Op>, stash: bytes) returns (f: Building)
    requires IsTemplate(table, template, ops, stash)
    ensures f == Stashed(Template(ops), stash) && |f.steps| <= MAX_STEPS && table == TableOf(f) && !f.scattered
    ensures |ImageOf(f)| < U32_LIMIT && f.section == SECTIONS
    ensures Whole(table) && Checks(table, template)
    ensures PartsIn(table, template) == Some(Parts(f.steps, f.text))
  {
    hide Sum, BuildAll, EncodeSteps, DecodeSteps, Fingerprint, EndTo, HoldsBody;
    NothingBuiltIsOk();
    var b := Prepared(ops, stash);
    var room :| FinishOf(b, room) == Done(table);
    f := EndTo(b, SECTIONS);
    StashComesLast(BuildAll(NOTHING_BUILT, ops), stash, SECTIONS);
    DoneSays(b, room, table);
    TableSays(f, table);
    var image := ImageOf(f);
    assert template[table.start..table.end] == image[|f.text|..] == EncodeSteps(f.steps);
    assert template[..table.start] == image[..|f.text|] == f.text;
    StepsFitU32(f);
    StepsReadBack(f.steps);
    PartsFound(table, template, f);
  }

  // So each of its requests reads the template that its layout built.
  lemma TemplateSeals(table: Table, template: bytes, ops: seq<Op>, stash: bytes, src: Source)
    requires IsTemplate(table, template, ops, stash) && src.table == table
    requires PartsIn(table, template) == Some(src.parts)
    ensures Sealed(src, Template(ops)) && Whole(table) && KnowsBody(src)
  {
    hide Sum, BuildAll, EndTo, HoldsBody, PartsIn, EncodeSteps, Fingerprint, FixedUrl, FinishOf;
    var f := TemplateReadsBack(table, template, ops, stash);
    TableSays(f, table);
    StashSeals(src, Template(ops), stash);
  }

  lemma StashSeals(src: Source, f: Building, stash: bytes)
    requires f.Ok() && f.section == SECTIONS && !f.scattered && |f.steps| < UNMARKED
    requires src.parts == Parts(f.steps, f.text + stash)
    requires src.table.params == Min(f.params, 255) && |src.table.counts| == SECTIONS
    requires forall i :: 0 <= i < SECTIONS ==> src.table.counts[i] == f.counts[i]
    requires src.table.fieldsStep == f.fieldsStep && src.table.fieldsOffset == f.fieldsOffset
    ensures Sealed(src, f)
  {
    hide Sum;
  }

  lemma StepsFitU32(f: Building)
    requires f.Ok() && |ImageOf(f)| < U32_LIMIT
    ensures forall i :: 0 <= i < |f.steps| ==> f.steps[i].len < U32_LIMIT
  {
    hide Sum, EncodeSteps;
  }

  lemma PartsFound(table: Table, template: bytes, f: Building)
    requires table.start <= table.end <= |template| && table.total == |f.steps|
    requires template[table.start..table.end] == EncodeSteps(f.steps) && template[..table.start] == f.text
    requires DecodeSteps(EncodeSteps(f.steps)) == f.steps
    ensures PartsIn(table, template) == Some(Parts(f.steps, f.text))
  {
    hide DecodeSteps, EncodeSteps;
  }

  // ---- Requests from a template ----

  // Every request from a template, by either interpreter and whatever the text of the
  // request's own layout, is the request that the template's layout describes; its
  // Content-Length is the length of its body.
  lemma RequestsAreRendered(table: Table, template: bytes, fill: Filler, ops: seq<Op>, stash: bytes, run: seq<Op>)
    requires IsTemplate(table, template, ops, stash) && WellFormed(ops, ORIGIN, false)
    requires InOrder(run, ORIGIN) && Skeleton(run) == Skeleton(ops)
    ensures Whole(table)
    ensures EncodedIn(table, template, fill, [], run) == WalkedRequest(table, template, fill)
    ensures
      var src := SourceIn(table, template, fill);
      && (src.Some? ==> EncodedIn(table, template, fill, [], run) == Rendered([], ops, fill, src.value.bodyLen))
      && (src.Some? && fill.Honest() && EncodedIn(table, template, fill, [], run).Some? ==>
            var len := SectionSpan(0, EncodedIn(table, template, fill, [], run).value.ends, BODY).len;
            len <= USIZE_MAX ==> len == src.value.bodyLen)
  {
    hide Sum, BuildAll, EndTo, Walked, Encoded, Rendered, PartsIn, WellFormed, Sealed, KnowsBody, IsTemplate,
         BodyLenOf, Template;
    var f := TemplateReadsBack(table, template, ops, stash);
    var found := SourceIn(table, template, fill);
    if found.Some? {
      var src := found.value;
      SourceSays(table, template, fill);
      TemplateSeals(table, template, ops, stash, src);
      WellFormedIsInOrder(ops, ORIGIN, false);
      CompilerCorrect([], ops, src);
      SameRun(run, ops, src);
      if fill.Honest() && Rendered([], ops, fill, src.bodyLen).Some? {
        ContentLengthIsBodySpan([], ops, src);
      }
    }
  }

  // What the source of a request is made of.
  lemma SourceSays(table: Table, template: bytes, fill: Filler)
    requires Whole(table)
    ensures
      var src := SourceIn(table, template, fill);
      && (src.Some? ==>
            && src.value.table == table && src.value.fill == fill && PartsIn(table, template) == Some(src.value.parts)
            && Sum(table.counts) <= |src.value.parts.steps|
            && BodyLenOf(src.value) == Some(src.value.bodyLen)
            && WalkedRequest(table, template, fill)
               == WalkedIn(table, template, fill, [], ORIGIN, SECTIONS, src.value.bodyLen))
      && (src.None? && PartsIn(table, template).Some? ==>
            BodyLenOf(Source(PartsIn(table, template).value, table, fill, 0)).None?)
  {
    hide Sum, BodyLenOf, PartsIn, Walked;
    StepsFit(table, SECTIONS);
    if PartsIn(table, template).Some? {
      var src := Source(PartsIn(table, template).value, table, fill, 0);
      if BodyLenOf(src).Some? {
        BodyLenReadsNoLength(src, BodyLenOf(src).value);
      }
    }
  }

  lemma BodyLenReadsNoLength(src: Source, n: nat)
    requires |src.table.counts| == SECTIONS && Sum(src.table.counts) <= |src.parts.steps|
    ensures BodyLenOf(src.(bodyLen := n)) == BodyLenOf(src)
  {
    hide Sum, FixedBodyLen, FilledBodyLen;
    FilledReadsNoLength(src, src.table.StepsBefore(BODY), 0, n);
  }

  lemma {:induction false} FilledReadsNoLength(src: Source, at: nat, len: usize, n: nat)
    requires |src.table.counts| == SECTIONS && Sum(src.table.counts) <= |src.parts.steps|
    ensures FilledBodyLen(src.(bodyLen := n), at, len) == FilledBodyLen(src, at, len)
    decreases |src.parts.steps| - at
  {
    hide Walked, Sum;
    if at < |src.parts.steps| {
      var next := WrappingAdd(len, src.parts.steps[at].len + src.parts.steps[at].name);
      FilledReadsNoLength(src, at + 1, next, n);
      if src.fill.bodyLen.Some? {
        FilledReadsNoLength(src, at + 1, WrappingAdd(next, src.fill.bodyLen.value), n);
      }
    }
  }

  lemma SameRun(run: seq<Op>, ops: seq<Op>, src: Source)
    requires Skeleton(run) == Skeleton(ops)
    ensures Encoded([], run, src) == Encoded([], ops, src)
  {
    hide EncodeAll, EncodeEnds;
    EncodingReadsNoText(EncodeStart([], src.table, false), run, src);
    EncodingReadsNoText(EncodeStart([], src.table, false), ops, src);
  }

  // A request is refused exactly when the layout names a hole that it has no value for, or
  // when the layout's body has a hole and the request writes no body.
  lemma RefusedExactly(table: Table, template: bytes, fill: Filler, ops: seq<Op>, stash: bytes, run: seq<Op>)
    requires IsTemplate(table, template, ops, stash) && WellFormed(ops, ORIGIN, false)
    requires InOrder(run, ORIGIN) && Skeleton(run) == Skeleton(ops)
    ensures Whole(table)
    ensures EncodedIn(table, template, fill, [], run).Some? <==>
              && (forall h :: h in HolesOf(ops) ==> CanFill(h, fill))
              && (HolesIn(ops, BODY, ORIGIN, false) > 0 ==> fill.writesBody)
  {
    hide Sum, BuildAll, EndTo, Walked, Encoded, BodyLenOf, PartsIn, WellFormed, Sealed, KnowsBody, IsTemplate,
         RenderAll, HolesOf, CanFill, HolesIn,
         HoldsHole, Template, SourceIn, WalkedRequest;
    var f := TemplateReadsBack(table, template, ops, stash);
    RequestsAreRendered(table, template, fill, ops, stash, run);
    SourceSays(table, template, fill);
    EncodedFromSource(table, template, fill, run);
    var src0, found := Source(PartsIn(table, template).value, table, fill, 0), SourceIn(table, template, fill);
    RendersWhenFilled(Rendering(Started([], 0), 0, ORIGIN), ops, fill, 0);
    if found.Some? {
      RendersWhenFilled(Rendering(Started([], 0), 0, ORIGIN), ops, fill, found.value.bodyLen);
    }
    TemplateSeals(table, template, ops, stash, src0);
    WellFormedIsInOrder(ops, ORIGIN, false);
    BodyOfItsOwn(ops, src0);
    if Rendered([], ops, fill, 0).Some? {
      ContentLengthIsBodySpan([], ops, src0);
      MeasuredWhenFound(table, template, fill);
    }
  }

  // A table's body has a hole exactly if its layout writes one there, and then it is marked as held.
  lemma BodyOfItsOwn(ops: seq<Op>, src: Source)
    requires InOrder(ops, ORIGIN) && Sealed(src, Template(ops)) && |src.table.counts| == SECTIONS && KnowsBody(src)
    ensures src.table.body && HoldsHole(src.parts.steps, src.table.StepsBefore(BODY))
       <==> HolesIn(ops, BODY, ORIGIN, false) > 0
  {
    hide Sealed, Sum, Template, HolesIn;
    StepsOfSealed(src, Template(ops), BODY);
    BodyHoldsHole(ops);
  }

  lemma EncodedFromSource(table: Table, template: bytes, fill: Filler, run: seq<Op>)
    requires Whole(table)
    ensures SourceIn(table, template, fill).None? ==> EncodedIn(table, template, fill, [], run).None?
  {
  }

  lemma MeasuredWhenFound(table: Table, template: bytes, fill: Filler)
    requires Whole(table) && PartsIn(table, template).Some?
    ensures Sum(table.counts) <= |PartsIn(table, template).value.steps|
    ensures SourceIn(table, template, fill).Some? <==>
              BodyLenOf(Source(PartsIn(table, template).value, table, fill, 0)).Some?
  {
    hide Sum, BodyLenOf, PartsIn;
    StepsFit(table, SECTIONS);
  }

  // The holes that a layout names.
  function HolesOf(ops: seq<Op>): set<Hole> {
    if ops == [] then {}
    else
      HolesOf(ops[1..]) +
      match ops[0]
      case Fill(h) => {h}
      case Param(_, Filled(h)) => {h}
      case Param(_, Optional(h)) => {h}
      case _ => {}
  }

  lemma {:induction false} RendersWhenFilled(r: Rendering, ops: seq<Op>, fill: Filler, n: nat)
    ensures RenderAll(r, ops, fill, n).Some? <==> forall h :: h in HolesOf(ops) ==> CanFill(h, fill)
    decreases |ops|
  {
    hide WithHole, CanFill;
    if ops != [] {
      var s := Render(r, ops[0], fill, n);
      match ops[0] {
        case Fill(h) => FillsWhenItCan(r.q, h, [], fill, n);
        case Param(name, Filled(h)) => FillsWhenItCan(r.q.Separated().Push(name + EQUALS), h, [], fill, n);
        case Param(name, Optional(h)) => FillsWhenItCan(r.q, h, name, fill, n);
        case _ =>
      }
      if s.Some? {
        RendersWhenFilled(s.value, ops[1..], fill, n);
      }
    }
  }

  // The length of a URL, measured without writing it, is that of the URL written. The values that
  // it is measured with need only be those of the request at the holes of its URL.
  lemma UrlLenIsUrlSpan(table: Table, template: bytes, fill: Filler, measured: Filler, ops: seq<Op>, stash: bytes)
    requires IsTemplate(table, template, ops, stash) && WellFormed(ops, ORIGIN, false)
    requires forall h :: h in UrlHoles(ops) ==> SameValue(h, fill, measured)
    requires Whole(table) && WalkedRequest(table, template, fill).Some?
    ensures
      var counted := WalkedIn(table, template, measured, [], ORIGIN, HEAD, 0);
      var o := WalkedRequest(table, template, fill).value;
      && counted.Some? && |counted.value.out| == o.ends[QUERY]
      && o.ends[QUERY] == PartsOf(0, o.ends, o.marks, o.fields, table.body, |o.out|).url.len
  {
    hide Sum, BuildAll, EndTo, Walked, Encoded, Rendered, BodyLenOf, PartsIn, WellFormed, Sealed, KnowsBody,
         IsTemplate, Template, SourceIn, UrlHoles, SameValue;
    WellFormedIsInOrder(ops, ORIGIN, false);
    var f := TemplateReadsBack(table, template, ops, stash);
    RequestsAreRendered(table, template, fill, ops, stash, ops);
    SourceSays(table, template, fill);
    var src := SourceIn(table, template, fill).value;
    TemplateSeals(table, template, ops, stash, src);
    UrlLengthIsUrlSpan(ops, src, measured);
  }

  // ---- The table of a template ----

  // The steps that `b` still owes a section: one that ends it, unless that is open.
  function Owed(b: Building, section: nat): int {
    if section < b.section then 0 else if section == b.section && b.open then 0 else 1
  }

  lemma {:induction false} EndToCounts(b: Building, until: nat, s: nat)
    requires b.Ok() && s < SECTIONS && until <= SECTIONS
    ensures Due(EndTo(b, until), s) == Due(b, s)
    decreases until - b.section
  {
    hide Sum;
    if b.section < until {
      EndToCounts(EndOne(b), until, s);
    }
  }

  // The steps of a section, with the one that it is still owed.
  function Due(b: Building, s: nat): int
    requires s < SECTIONS
  {
    b.counts[s] + Owed(b, s)
  }

  lemma TextCounts(b: Building, text: bytes, s: nat)
    requires b.Ok() && b.section < SECTIONS && s < SECTIONS
    ensures Due(PushText(b, text), s) == Due(b, s) && PushText(b, text).optional == b.optional
  {
    hide Sum;
  }

  lemma HoleCounts(b: Building, h: Hole, name: bytes, s: nat)
    requires b.Ok() && b.section < SECTIONS && s < SECTIONS
    ensures Due(PutHole(b, h), s) == Due(b, s) + (if s == b.section then 1 else 0)
    ensures PutHole(b, h).optional == b.optional
    ensures Due(PutNamed(b, h, name), s) == Due(PutHole(b, h), s)
  {
    hide Sum;
  }

  lemma SeparatorCounts(b: Building, s: nat)
    requires b.Ok() && b.section < SECTIONS && s < SECTIONS
    ensures Due(PutSeparator(b), s) == Due(b, s) + (if b.optional && s == b.section then 1 else 0)
    ensures PutSeparator(b).optional == b.optional
  {
    hide Sum, PushText, PutHole;
    HoleCounts(b, Separator, [], s);
    TextCounts(b, if b.params == 0 then ['?' as int] else ['&' as int], s);
  }

  lemma CallCounts(b: Building, op: Op, s: nat)
    requires b.Ok() && b.section < SECTIONS && s < SECTIONS && (op.Section? ==> b.section < op.section < SECTIONS)
    ensures Build(b, op).optional == NowOptionalAfter(op, b.optional)
    ensures Due(Build(b, op), s) == Due(b, s) + if b.section == s then |OpHoles(op, b.optional)| else 0
  {
    hide Sum, EndTo, PushText, PutHole, PutSeparator, PutName, Due, Building.Ok;
    match op
    case Section(until) =>
      EndToCounts(b, until, s);
      EndedTo(b, until);
    case Text(text) => TextCounts(b, text, s);
    case Fill(h) => HoleCounts(b, h, [], s);
    case Fields => MarkCounts(b, s);
    case Param(name, Fixed(text)) =>
      SeparatorCounts(b, s);
      TextCounts(PutSeparator(b), name + EQUALS + text, s);
    case Param(name, Filled(h)) =>
      SeparatorCounts(b, s);
      TextCounts(PutSeparator(b), name + EQUALS, s);
      HoleCounts(PushText(PutSeparator(b), name + EQUALS), h, [], s);
    case Param(name, Optional(h)) =>
      HoleCounts(b, h, name, s);
      OptionalDue(PutNamed(b, h, name), s);
  }

  lemma MarkCounts(b: Building, s: nat)
    requires b.Ok() && s < SECTIONS
    ensures Due(Mark(b), s) == Due(b, s) && Mark(b).optional == b.optional
  {
    hide Sum;
  }

  lemma OptionalDue(b: Building, s: nat)
    requires s < SECTIONS
    ensures Due(b.(optional := true), s) == Due(b, s)
  {
  }

  lemma {:induction false} LayoutCounts(b: Building, ops: seq<Op>, s: nat)
    requires b.Ok() && b.section < SECTIONS && InOrder(ops, b.section) && s < SECTIONS
    ensures EndTo(BuildAll(b, ops), SECTIONS).counts[s] == Due(b, s) + HolesIn(ops, s, b.section, b.optional)
    decreases |ops|
  {
    hide Build, EndTo, Sum, Building.Ok, OpHoles;
    if ops == [] {
      EndToCounts(b, SECTIONS, s);
    } else {
      CallCounts(b, ops[0], s);
      LayoutCounts(Build(b, ops[0]), ops[1..], s);
    }
  }

  // A section's count is that of its layout's holes, plus the step that ends it.
  lemma SectionsOwnTheirHolesAndOne(ops: seq<Op>, s: nat)
    requires InOrder(ops, ORIGIN) && s < SECTIONS
    ensures Template(ops).counts[s] == HolesIn(ops, s, ORIGIN, false) + 1
  {
    NothingBuiltIsOk();
    LayoutCounts(NOTHING_BUILT, ops, s);
  }

  // A finished table survives being stored and loaded exactly when its layout marked the
  // fields.
  lemma StoredTableReadsBack(table: Table, template: bytes, ops: seq<Op>, stash: bytes, rest: bytes)
    requires IsTemplate(table, template, ops, stash) && WellFormed(ops, ORIGIN, false)
    ensures table.Typed()
    ensures Loaded(Stored(table) + rest, 0) == if Fields in ops then Some(table) else None
  {
    hide BuildAll, EncodeSteps, EndTo, Fingerprint, Stored, Loaded;
    var b := Prepared(ops, stash);
    var room :| FinishOf(b, room) == Done(table);
    var f := EndTo(b, SECTIONS);
    DoneSays(b, room, table);
    TableSays(f, table);
    NothingBuiltIsOk();
    StashComesLast(BuildAll(NOTHING_BUILT, ops), stash, SECTIONS);
    assert FixedUrl([]) == 0;
    LayoutMeasured(NOTHING_BUILT, ops, false);
    assert IsMeasured(Template(ops), Fields in ops);
    TypedTable(f, table);
    StoringReadsBack(table, rest);
  }

  lemma TypedTable(f: Building, table: Table)
    requires f.Ok() && |f.steps| <= MAX_STEPS && |ImageOf(f)| < U32_LIMIT
    requires table == TableOf(f) && FixedUrl(f.steps) <= |f.text|
    ensures table.Typed()
    ensures table.Loadable() <==> table.fieldsStep <= table.total
  {
    hide EncodeSteps, Fingerprint, FixedUrl;
    assert table.counts == f.counts;
    FingerprintBound(ImageOf(f));
    SumOfPrefix(f.counts, HEAD);
    FixedUrlOfPrefix(f.steps, Sum(f.counts[..HEAD]));
  }

  lemma FingerprintBound(b: bytes)
    ensures Fingerprint(b) < WORD
  {
    hide Words, Xor;
    Pow2Word();
    XorBound(SEED, |b| % WORD, 64);
    MixedAllBound(Xor(SEED, |b| % WORD), Words(b));
  }

  lemma {:induction false} MixedAllBound(f: nat, words: seq<nat>)
    requires f < WORD
    ensures MixedAll(f, words) < WORD
    decreases |words|
  {
    if words != [] {
      MixedBound(f, words[0]);
      MixedAllBound(Mixed(f, words[0]), words[1..]);
    }
  }

  lemma {:induction false} FixedUrlOfPrefix(steps: seq<Step>, n: nat)
    requires n <= |steps|
    ensures FixedUrl(steps[..n]) <= FixedUrl(steps)
  {
    if n == |steps| {
      assert steps[..n] == steps;
    } else {
      FixedUrlOfPrefix(steps[..|steps| - 1], n);
      assert steps[..|steps| - 1][..n] == steps[..n];
    }
  }

  // The runs and the names of the steps are parts of the text, and a mark is at a step.
  ghost predicate IsMeasured(b: Building, marked: bool) {
    FixedUrl(b.steps) <= |b.text| && (if marked then b.fieldsStep <= |b.steps| else b.fieldsStep == UNMARKED)
  }

  lemma LastChanges(steps: seq<Step>, s: Step)
    requires steps != []
    ensures FixedUrl(steps[|steps| - 1 := s]) == FixedUrl(steps) - steps[|steps| - 1].len - steps[|steps| - 1].name
              + s.len + s.name
  {
    assert steps[|steps| - 1 := s][..|steps| - 1] == steps[..|steps| - 1];
  }

  lemma OneMore(steps: seq<Step>, s: Step)
    ensures FixedUrl(steps + [s]) == FixedUrl(steps) + s.len + s.name
  {
    assert (steps + [s])[..|steps|] == steps;
  }

  lemma PushTextMeasured(b: Building, text: bytes, marked: bool)
    requires b.Ok() && b.section < SECTIONS && IsMeasured(b, marked)
    ensures IsMeasured(PushText(b, text), marked)
  {
    hide Sum, FixedUrl;
    if text != [] {
      OneMore(b.steps, Step(|text|, NO_HOLE, 0, 0));
      if b.open {
        LastChanges(b.steps, b.Last().(len := b.Last().len + |text|));
      }
    }
  }

  lemma PutHoleMeasured(b: Building, h: Hole, marked: bool)
    requires b.Ok() && b.section < SECTIONS && IsMeasured(b, marked)
    ensures IsMeasured(PutHole(b, h), marked) && PutHole(b, h).Last().name == 0
  {
    hide Sum, FixedUrl;
    OneMore(b.steps, Step(0, HoleId(h), 0, 0));
    if b.open {
      LastChanges(b.steps, b.Last().(hole := HoleId(h)));
    }
  }

  lemma PutNamedMeasured(b: Building, h: Hole, name: bytes, marked: bool)
    requires b.Ok() && b.section < SECTIONS && IsMeasured(b, marked)
    ensures IsMeasured(PutHole(b, h), marked) && IsMeasured(PutNamed(b, h, name), marked)
  {
    hide Sum, FixedUrl, PutHole, Building.Ok;
    PutHoleMeasured(b, h, marked);
    var c := PutHole(b, h);
    LastChanges(c.steps, c.Last().(name := |name| % 256));
  }

  lemma {:induction false} EndToMeasured(b: Building, until: nat, marked: bool)
    requires b.Ok() && until <= SECTIONS && IsMeasured(b, marked)
    ensures IsMeasured(EndTo(b, until), marked)
    decreases until - b.section
  {
    hide Sum, FixedUrl;
    if b.section < until {
      var c := if b.open then b else b.PushStep(EMPTY_STEP);
      OneMore(b.steps, EMPTY_STEP);
      LastChanges(c.steps, c.Last().(ends := WithBit(c.Last().ends, b.section)));
      EndToMeasured(EndOne(b), until, marked);
    }
  }

  lemma CallMeasured(b: Building, op: Op, marked: bool)
    requires b.Ok() && b.section < SECTIONS && IsMeasured(b, marked)
               && (op.Section? ==> b.section < op.section < SECTIONS)
    ensures IsMeasured(Build(b, op), marked || op.Fields?)
  {
    hide Sum, FixedUrl, PushText, PutHole, PutName, EndTo, Building.Ok;
    match op
    case Section(s) => EndToMeasured(b, s, marked);
    case Text(text) => PushTextMeasured(b, text, marked);
    case Fill(h) => PutNamedMeasured(b, h, [], marked);
    case Fields => MarkMeasured(b, marked);
    case Param(name, Fixed(text)) =>
      SeparatorMeasured(b, marked);
      PushTextMeasured(PutSeparator(b), name + EQUALS + text, marked);
    case Param(name, Filled(h)) =>
      SeparatorMeasured(b, marked);
      PushTextMeasured(PutSeparator(b), name + EQUALS, marked);
      PutNamedMeasured(PushText(PutSeparator(b), name + EQUALS), h, [], marked);
    case Param(name, Optional(h)) => PutNamedMeasured(b, h, name, marked);
  }

  lemma MarkMeasured(b: Building, marked: bool)
    requires b.Ok() && IsMeasured(b, marked)
    ensures IsMeasured(Mark(b), true)
  {
    hide Sum, FixedUrl;
  }

  lemma SeparatorMeasured(b: Building, marked: bool)
    requires b.Ok() && b.section < SECTIONS && IsMeasured(b, marked)
    ensures IsMeasured(PutSeparator(b), marked)
  {
    hide Sum, FixedUrl, PushText, PutHole;
    PutNamedMeasured(b, Separator, [], marked);
    PushTextMeasured(b, if b.params == 0 then ['?' as int] else ['&' as int], marked);
  }

  lemma {:induction false} LayoutMeasured(b: Building, ops: seq<Op>, marked: bool)
    requires b.Ok() && b.section < SECTIONS && IsMeasured(b, marked) && InOrder(ops, b.section)
    ensures IsMeasured(EndTo(BuildAll(b, ops), SECTIONS), marked || Fields in ops)
    decreases |ops|
  {
    hide Build, EndTo, IsMeasured, Building.Ok;
    if ops == [] {
      EndToMeasured(b, SECTIONS, marked);
    } else {
      CallMeasured(b, ops[0], marked);
      assert ops == [ops[0]] + ops[1..];
      LayoutMeasured(Build(b, ops[0]), ops[1..], marked || ops[0].Fields?);
    }
  }

  // ---- The bound on steps ----

  // `finish` panics exactly for a layout in order whose steps fit the table before its last
  // sections end, and not after: it checks the count before it ends them.
  lemma FinishPanicsExactly(b: Building, room: nat)
    requires b.Ok() && b.section < SECTIONS
    ensures FinishOf(b, room).Panics? <==>
              && !b.scattered
              && |b.steps| <= MAX_STEPS < |b.steps| + SECTIONS - b.section - (if b.open then 1 else 0)
  {
    hide Sum, EncodeSteps, FixedUrl, Fingerprint;
    EndedTo(b, SECTIONS);
    EndToSteps(b, SECTIONS);
  }

  lemma {:induction false} EndToSteps(b: Building, until: nat)
    requires b.Ok() && b.section <= until <= SECTIONS
    ensures |EndTo(b, until).steps| == |b.steps| + until - b.section - (if b.open && b.section < until then 1 else 0)
    decreases until - b.section
  {
    hide Sum;
    if b.section < until {
      EndToSteps(EndOne(b), until);
    }
  }

  // A layout of `n` holes of one kind.
  function Holes(n: nat, h: Hole): seq<Op> {
    seq(n, i => Fill(h))
  }

  lemma {:induction false} HolesBuild(b: Building, n: nat, h: Hole)
    requires b.Ok() && b.section < SECTIONS && !b.open
    ensures InOrder(Holes(n, h), b.section)
    ensures
      var c := BuildAll(b, Holes(n, h));
      && |c.steps| == |b.steps| + n && c.section == b.section && !c.open
      && c.scattered == b.scattered && c.text == b.text
    decreases n
  {
    hide Sum;
    if n > 0 {
      assert Holes(n, h)[0] == Fill(h) && Holes(n, h)[1..] == Holes(n - 1, h);
      HolesBuild(PutHole(b, h), n - 1, h);
    }
  }

  lemma {:induction false} HolesAreWellFormed(n: nat, h: Hole)
    requires IsFillable(h, ORIGIN)
    ensures WellFormed(Holes(n, h), ORIGIN, false)
  {
    if n > 0 {
      assert Holes(n, h)[0] == Fill(h) && Holes(n, h)[1..] == Holes(n - 1, h);
      HolesAreWellFormed(n - 1, h);
    }
  }

  // How a layout of `n` holes ends: as a template of its steps alone, up to 90; refused past 96;
  // and in a panic between.
  lemma HolesFinish(n: nat, h: Hole, room: nat)
    requires IsFillable(h, ORIGIN)
    ensures InOrder(Holes(n, h), ORIGIN) && WellFormed(Holes(n, h), ORIGIN, false)
    ensures
      var r := FinishOf(Prepared(Holes(n, h), []), room);
      if n > 96 then r == Refused(RequestTooLarge)
      else if n > 90 then r.Panics?
      else if room < STEP_LEN * (n + SECTIONS) then r == Refused(CapacityError(STEP_LEN * (n + SECTIONS)))
      else r.Done? && IsTemplate(r.table, ImageOf(EndTo(Prepared(Holes(n, h), []), SECTIONS)), Holes(n, h), [])
  {
    hide Sum, EncodeSteps, FixedUrl, Fingerprint, BuildAll, EndTo;
    NothingBuiltIsOk();
    HolesBuild(NOTHING_BUILT, n, h);
    HolesAreWellFormed(n, h);
    var b := Prepared(Holes(n, h), []);
    assert b.text == [];
    EndToSteps(b, SECTIONS);
    EndedTo(b, SECTIONS);
    var f := EndTo(b, SECTIONS);
    assert |ImageOf(f)| == STEP_LEN * |f.steps|;
    if |f.steps| <= MAX_STEPS && |ImageOf(f)| <= room {
      var image := ImageOf(f);
      assert FinishOf(b, room).Done? && image[..|image|] == image;
    }
  }

  lemma HolesAreUnmarked(n: nat, h: Hole)
    ensures Fields !in Holes(n, h)
  {
  }

  // So a template that marks no fields, a layout of up to 90 holes alone, is not loaded again.
  lemma UnmarkedTableIsRefused(n: nat, h: Hole, rest: bytes) returns (table: Table, template: bytes)
    requires n <= 90 && IsFillable(h, ORIGIN)
    ensures IsTemplate(table, template, Holes(n, h), [])
    ensures table.Typed() && Loaded(Stored(table) + rest, 0) == None
  {
    hide IsTemplate, Prepared, EndTo, Loaded, Stored, WellFormed, FinishOf;
    var room := STEP_LEN * (n + SECTIONS);
    HolesFinish(n, h, room);
    table := FinishOf(Prepared(Holes(n, h), []), room).table;
    template := ImageOf(EndTo(Prepared(Holes(n, h), []), SECTIONS));
    StoredTableReadsBack(table, template, Holes(n, h), [], rest);
    HolesAreUnmarked(n, h);
  }
}
