/** Why the three passes agree: replaying a layout against the template built from it, and
    walking that template's table, write the request that the layout describes. */
module TemplateCorrectness {
  import opened Bytes
  import ChecksumKinds
  import opened Layouts
  import opened Tables
  import opened Passes
  import opened Numbers
  import Url

  // ---- What the builder never takes back ----

  // `c` is built further than `b`: it keeps the text, the closed steps, and the rest of what
  // `b` has settled.
  ghost predicate Leads(b: Building, c: Building) {
    && b.Ok() && c.Ok()
    && b.section <= c.section
    && b.Closed() <= c.Closed()
    && (forall i :: 0 <= i < b.Closed() ==> c.steps[i] == b.steps[i])
    && (b.open ==> b.Closed() < |c.steps| && c.steps[b.Closed()].len >= b.Last().len)
    && |b.text| <= |c.text| && c.text[..|b.text|] == b.text
    && (b.scattered ==> c.scattered)
    && (b.optional ==> c.optional && c.params == b.params)
    && (forall i :: 0 <= i < b.section ==> c.counts[i] == b.counts[i])
  }

  lemma LeadsOn(a: Building, b: Building, c: Building)
    requires Leads(a, b) && Leads(b, c)
    ensures Leads(a, c)
  {
    assert c.text[..|a.text|] == c.text[..|b.text|][..|a.text|];
  }

  function PutNamed(b: Building, h: Hole, name: bytes): (c: Building)
    requires b.Ok() && b.section < SECTIONS
    ensures c.Ok() && c.section == b.section
  {
    PutName(PutHole(b, h), name)
  }

  lemma PushTextLeads(b: Building, text: bytes)
    requires b.Ok() && b.section < SECTIONS
    ensures Leads(b, PushText(b, text))
  {
  }

  lemma PutHoleLeads(b: Building, h: Hole)
    requires b.Ok() && b.section < SECTIONS
    ensures Leads(b, PutHole(b, h))
  {
  }

  lemma PutNamedLeads(b: Building, h: Hole, name: bytes)
    requires b.Ok() && b.section < SECTIONS
    ensures Leads(b, PutNamed(b, h, name))
  {
  }

  lemma EndOneLeads(b: Building)
    requires b.Ok() && b.section < SECTIONS
    ensures Leads(b, EndOne(b))
  {
  }

  lemma {:induction false} EndToLeads(b: Building, until: nat)
    requires b.Ok() && until <= SECTIONS
    ensures Leads(b, EndTo(b, until))
    ensures b.section < until ==> b.Closed() < |EndTo(b, until).steps|
    decreases until - b.section
  {
    if b.section < until {
      EndOneLeads(b);
      EndToLeads(EndOne(b), until);
      LeadsOn(b, EndOne(b), EndTo(b, until));
    }
  }

  lemma PutSeparatorLeads(b: Building)
    requires b.Ok() && b.section < SECTIONS
    ensures Leads(b, PutSeparator(b))
  {
    PutHoleLeads(b, Separator);
    PushTextLeads(b, if b.params == 0 then ['?' as int] else ['&' as int]);
  }

  lemma BuildLeads(b: Building, op: Op)
    requires b.Ok() && b.section < SECTIONS && (op.Section? ==> b.section < op.section < SECTIONS)
    ensures Leads(b, Build(b, op))
  {
    hide Leads, EndTo, PushText, PutHole, PutName, PutSeparator;
    match op
    case Section(s) => EndToLeads(b, s);
    case Text(text) => PushTextLeads(b, text);
    case Fill(h) => PutHoleLeads(b, h);
    case Fields => MarkLeads(b);
    case Param(name, Fixed(text)) =>
      var c := PutSeparator(b);
      PutSeparatorLeads(b);
      PushTextLeads(c, name + EQUALS + text);
      LeadsOn(b, c, PushText(c, name + EQUALS + text));
    case Param(name, Filled(h)) =>
      var c := PutSeparator(b);
      var d := PushText(c, name + EQUALS);
      PutSeparatorLeads(b);
      PushTextLeads(c, name + EQUALS);
      PutHoleLeads(d, h);
      LeadsOn(b, c, d);
      LeadsOn(b, d, PutHole(d, h));
    case Param(name, Optional(h)) =>
      OptionalLeads(b, h, name);
  }

  lemma MarkLeads(b: Building)
    requires b.Ok()
    ensures Leads(b, Mark(b))
  {
  }

  lemma OptionalLeads(b: Building, h: Hole, name: bytes)
    requires b.Ok() && b.section < SECTIONS
    ensures Leads(b, PutNamed(b, h, name).(optional := true))
  {
    PutNamedLeads(b, h, name);
  }

  lemma {:induction false} BuildAllLeads(b: Building, ops: seq<Op>)
    requires b.Ok() && b.section < SECTIONS && InOrder(ops, b.section)
    ensures Leads(b, BuildAll(b, ops))
    decreases |ops|
  {
    if ops != [] {
      BuildLeads(b, ops[0]);
      BuildAllLeads(Build(b, ops[0]), ops[1..]);
      LeadsOn(b, Build(b, ops[0]), BuildAll(b, ops));
    }
  }

  // ---- The simulation ----

  // `src` reads the template that `f` is built as.
  ghost predicate Sealed(src: Source, f: Building) {
    && f.Ok() && f.section == SECTIONS && !f.scattered
    && src.parts.steps == f.steps
    && |f.text| <= |src.parts.text| && src.parts.text[..|f.text|] == f.text
    && src.table.params == Min(f.params, 255)
    && |src.table.counts| == SECTIONS
    && (forall i :: 0 <= i < SECTIONS ==> src.table.counts[i] == f.counts[i])
    && src.table.fieldsStep == f.fieldsStep && src.table.fieldsOffset == f.fieldsOffset
    && |f.steps| < UNMARKED
  }

  // Where the walk over the first `k` steps is.
  ghost function WalkAt(k: nat, src: Source, before: bytes): Option<Walking>
    requires k <= |src.parts.steps|
  {
    WalkTo(WalkStart(before, src.table), 0, k, src)
  }

  // The three passes after the same calls: the replay lags behind the rendering by the text
  // of the open step, and the walk is where the replay is.
  ghost predicate InStep(b: Building, r: Rendering, e: Encoding, src: Source, before: bytes) {
    && b.Ok() && !e.failed
    && e.section == b.section == r.section && e.optional == b.optional
    && e.at == b.Closed() <= |src.parts.steps|
    && e.cursor + (if b.open then b.Last().len else 0) == |b.text| == b.textEnd
    && r.q.out == e.q.out + b.text[e.cursor..]
    && r.q.ends == e.q.ends && r.q.marks == e.q.marks
    && ParamsAgree(b, r, e, src)
    && WalkAt(e.at, src, before) == Some(Walking(e.q, e.cursor))
  }

  ghost predicate ParamsAgree(b: Building, r: Rendering, e: Encoding, src: Source) {
    if b.optional then e.q.params == 0 <==> r.q.params == 0
    else r.q.params == b.params && e.q.params == src.table.params
  }

  lemma PushTextStep(b: Building, text: bytes)
    requires b.Ok() && b.section < SECTIONS && b.textEnd == |b.text|
    ensures
      var c := PushText(b, text);
      && c.Closed() == b.Closed() && c.text == b.text + text && c.textEnd == |c.text|
      && c.optional == b.optional && c.params == b.params && c.section == b.section
      && (if c.open then c.Last().len else 0) == (if b.open then b.Last().len else 0) + |text|
  {
  }

  lemma SimulateText(b: Building, text: bytes, r: Rendering, e: Encoding, src: Source, before: bytes)
    requires InStep(b, r, e, src, before) && b.section < SECTIONS
    ensures InStep(PushText(b, text), r.(q := r.q.Push(text)), e, src, before)
  {
    hide WalkTo, Sum, PushText;
    PushTextStep(b, text);
    TextFollows(r.q.out, e.q.out, b.text, e.cursor, text);
  }

  lemma TextFollows(ahead: bytes, behind: bytes, text: bytes, cursor: nat, more: bytes)
    requires cursor <= |text| && ahead == behind + text[cursor..]
    ensures ahead + more == behind + (text + more)[cursor..]
  {
    assert (text + more)[cursor..] == text[cursor..] + more;
  }

  // ---- One step: its run, and what follows it ----

  // The run of the next step is the text that the rendering is ahead by.
  lemma TakeRun(b: Building, c: Building, r: Rendering, e: Encoding, src: Source, f: Building, before: bytes)
    requires InStep(b, r, e, src, before) && Sealed(src, f) && Leads(c, f)
    requires c.Ok() && c.Closed() == b.Closed() + 1 && |c.text| >= |b.text| && c.text[..|b.text|] == b.text
    requires c.steps[b.Closed()].len == if b.open then b.Last().len else 0
    ensures e.at < |src.parts.steps| && src.parts.steps[e.at] == c.steps[b.Closed()]
    ensures |b.text| == e.cursor + src.parts.steps[e.at].len && |c.text| <= |src.parts.text|
    ensures src.parts.text[e.cursor..|b.text|] == b.text[e.cursor..]
    ensures src.parts.text[|b.text|..|c.text|] == c.text[|b.text|..]
    ensures Taken(e, src.parts) == e.(q := e.q.Push(b.text[e.cursor..]), at := e.at + 1, cursor := |b.text|)
  {
    hide WalkTo, Sum;
    var text := src.parts.text;
    assert text[..|c.text|] == text[..|f.text|][..|c.text|] == c.text;
    assert text[..|b.text|] == c.text[..|b.text|];
    assert text[e.cursor..|b.text|] == text[..|b.text|][e.cursor..];
    assert text[|b.text|..|c.text|] == text[..|c.text|][|b.text|..];
  }

  // Two requests that differ at most in how many parameters they counted.
  ghost predicate Alike(q: Request, r: Request) {
    q.out == r.out && q.ends == r.ends && q.marks == r.marks
  }

  // The same hole, filled in two such requests.
  lemma FillAlike(q: Request, r: Request, h: Hole, name: bytes, fill: Filler, bodyLen: nat)
    requires Alike(q, r) && (IsParamHole(h) ==> (q.params == 0 <==> r.params == 0))
    ensures
      var q', r' := WithHole(q, h, name, fill, bodyLen), WithHole(r, h, name, fill, bodyLen);
      && (q'.None? <==> r'.None?)
      && (q'.Some? ==> Alike(q'.value, r'.value))
      && (q'.Some? && !IsParamHole(h) ==> q'.value.params == q.params && r'.value.params == r.params)
      && (q'.Some? && IsParamHole(h) ==> (q'.value.params == 0 <==> r'.value.params == 0))
  {
    hide Decimal, WithHole, WithUrl, WithMark, WithParam;
    FilledBy(q, h, name, fill, bodyLen);
    FilledBy(r, h, name, fill, bodyLen);
    if IsUrlHole(h) {
      UrlAlike(q, r, h);
    } else if IsMarkHole(h) {
      MarkAlike(q, r, h, fill);
    } else if IsOptionalHole(h) {
      ParamAlike(q, r, h, name, fill);
    }
  }

  lemma UrlAlike(q: Request, r: Request, h: Hole)
    requires Alike(q, r)
    ensures Alike(WithUrl(q, h), WithUrl(r, h))
  {
  }

  lemma MarkAlike(q: Request, r: Request, h: Hole, fill: Filler)
    requires Alike(q, r)
    ensures WithMark(q, h, fill).Some? <==> WithMark(r, h, fill).Some?
    ensures WithMark(q, h, fill).Some? ==> Alike(WithMark(q, h, fill).value, WithMark(r, h, fill).value)
  {
    hide Recorded, ChecksumKinds.TextLen, Repeated;
  }

  lemma ParamAlike(q: Request, r: Request, h: Hole, name: bytes, fill: Filler)
    requires Alike(q, r) && (q.params == 0 <==> r.params == 0)
    ensures
      var p, s := WithParam(q, h, name, fill), WithParam(r, h, name, fill);
      Alike(p, s) && (p.params == 0 <==> s.params == 0)
  {
    hide Url.PercentEncoded;
  }

  lemma NoEnds(q: Request)
    ensures WithEnds(q, 0) == q
  {
    assert WithEnds(q, 0).ends == q.ends;
  }

  lemma OneEnd(q: Request, section: nat)
    requires section < SECTIONS
    ensures WithEnds(q, BitOf(section)) == q.EndSections(section, section + 1)
  {
    OneBit(section);
    assert WithEnds(q, BitOf(section)).ends == q.EndSections(section, section + 1).ends;
  }

  // A step whose run the replay has taken, walked.
  lemma WalkTaken(e: Encoding, src: Source, before: bytes)
    requires e.at < |src.parts.steps| && WalkAt(e.at, src, before) == Some(Walking(e.q, e.cursor))
    ensures WalkAt(e.at + 1, src, before) == WalkStep(Walking(e.q, e.cursor), e.at, src)
  {
    hide WalkStep;
  }

  lemma WalkedHole(w: Walking, k: nat, src: Source, h: Hole, name: bytes, run: bytes)
    requires |name| <= 255 && k < |src.parts.steps| && src.parts.steps[k] == Step(|run|, HoleId(h), |name|, 0)
    requires w.cursor + |run| + |name| <= |src.parts.text|
    requires src.parts.text[w.cursor..w.cursor + |run|] == run
    requires src.parts.text[w.cursor + |run|..w.cursor + |run| + |name|] == name
    ensures
      var q := WithHole(w.q.Push(run), h, name, src.fill, src.bodyLen);
      WalkStep(w, k, src) == if q.None? then None else Some(Walking(q.value, w.cursor + |run| + |name|))
  {
    hide WithHole;
    HoleIdReadsBack(h);
    var q := WithHole(w.q.Push(run), h, name, src.fill, src.bodyLen);
    if q.Some? {
      NoEnds(q.value);
    }
  }

  lemma PutNamedStep(b: Building, h: Hole, name: bytes)
    requires b.Ok() && b.section < SECTIONS && b.textEnd == |b.text|
    ensures
      var c := PutNamed(b, h, name);
      && c.Closed() == b.Closed() + 1 && c.text == b.text + name && c.textEnd == |c.text|
      && c.steps[b.Closed()] == Step(if b.open then b.Last().len else 0, HoleId(h), |name| % 256, 0)
      && (|name| > 255 ==> c.scattered)
      && c.optional == b.optional && c.params == b.params && !c.open && c.section == b.section
  {
  }

  lemma NameFits(b: Building, h: Hole, name: bytes, src: Source, f: Building)
    requires b.Ok() && b.section < SECTIONS && Leads(PutNamed(b, h, name), f) && Sealed(src, f)
    ensures |name| <= 255
  {
  }

  // The hole, filled by the replay once it has taken the run, and by the rendering.
  lemma HoleAlike(b: Building, h: Hole, name: bytes, r: Rendering, e: Encoding, run: bytes, src: Source)
    requires ParamsAgree(b, r, e, src) && (IsParamHole(h) ==> b.optional)
    requires r.q.out == e.q.out + run && r.q.ends == e.q.ends && r.q.marks == e.q.marks
    ensures
      var q := WithHole(r.q, h, name, src.fill, src.bodyLen);
      var p := WithHole(e.q.Push(run), h, name, src.fill, src.bodyLen);
      && (q.None? <==> p.None?)
      && (q.Some? ==> Alike(p.value, q.value) && ParamsAgree(b, r.(q := q.value), e.(q := p.value), src))
  {
    hide WithHole;
    FillAlike(e.q.Push(run), r.q, h, name, src.fill, src.bodyLen);
  }

  lemma SimulateHole(b: Building, h: Hole, name: bytes, r: Rendering, e: Encoding, src: Source, f: Building,
                     before: bytes)
    requires InStep(b, r, e, src, before) && Sealed(src, f) && b.section < SECTIONS
    requires Leads(PutNamed(b, h, name), f) && (IsParamHole(h) ==> b.optional)
    ensures
      var q, e' := WithHole(r.q, h, name, src.fill, src.bodyLen), EncodeNamed(e, h, name, src);
      && e.at < |src.parts.steps|
      && (q.None? ==> e'.failed && WalkAt(e.at + 1, src, before).None?)
      && (q.Some? ==> InStep(PutNamed(b, h, name), r.(q := q.value), e', src, before))
  {
    hide WalkTo, WalkStep, WithHole, Sum, PutNamed, Leads, Sealed;
    var c := PutNamed(b, h, name);
    PutNamedStep(b, h, name);
    NameFits(b, h, name, src, f);
    TakeRun(b, c, r, e, src, f, before);
    var run := b.text[e.cursor..];
    assert c.text[|b.text|..] == name;
    WalkTaken(e, src, before);
    WalkedHole(Walking(e.q, e.cursor), e.at, src, h, name, run);
    var q, e' := WithHole(r.q, h, name, src.fill, src.bodyLen), EncodeNamed(e, h, name, src);
    HoleAlike(b, h, name, r, e, run, src);
    if q.Some? {
      assert e'.cursor == |c.text| && c.text[e'.cursor..] == [];
      assert WalkAt(e'.at, src, before) == Some(Walking(e'.q, e'.cursor));
      assert q.value.out == e'.q.out + c.text[e'.cursor..];
    }
  }

  lemma EndOneStep(b: Building)
    requires b.Ok() && b.section < SECTIONS
    ensures
      var c := EndOne(b);
      && c.Closed() == b.Closed() + 1 && c.text == b.text && c.textEnd == b.textEnd && !c.open
      && c.steps[b.Closed()] == Step(if b.open then b.Last().len else 0, NO_HOLE, 0, BitOf(b.section))
      && c.optional == b.optional && c.params == b.params && c.section == b.section + 1
  {
    OneBit(b.section);
  }

  lemma WalkedEnd(w: Walking, k: nat, src: Source, section: nat, run: bytes)
    requires section < SECTIONS
    requires k < |src.parts.steps| && src.parts.steps[k] == Step(|run|, NO_HOLE, 0, BitOf(section))
    requires w.cursor + |run| <= |src.parts.text| && src.parts.text[w.cursor..w.cursor + |run|] == run
    ensures WalkStep(w, k, src) == Some(Walking(w.q.Push(run).EndSections(section, section + 1), w.cursor + |run|))
  {
    hide WithHole, HoleOfId, WithEnds, BitOf, Request.EndSections;
    OneEnd(w.q.Push(run), section);
  }

  lemma SimulateEnd(b: Building, r: Rendering, e: Encoding, src: Source, f: Building, before: bytes)
    requires InStep(b, r, e, src, before) && Sealed(src, f) && b.section < SECTIONS && Leads(EndOne(b), f)
    ensures e.at < |src.parts.steps|
    ensures InStep(EndOne(b), r.(q := r.q.EndSections(r.section, r.section + 1), section := r.section + 1),
                   EncodeEnd(e, src.parts), src, before)
  {
    hide WalkTo, WalkStep, Sum, EndOne, Leads, Sealed;
    var c := EndOne(b);
    EndOneStep(b);
    TakeRun(b, c, r, e, src, f, before);
    var run := b.text[e.cursor..];
    WalkTaken(e, src, before);
    WalkedEnd(Walking(e.q, e.cursor), e.at, src, b.section, run);
    assert c.text[|c.text|..] == [];
    var s, e' := r.q.EndSections(r.section, r.section + 1), EncodeEnd(e, src.parts);
    assert s.ends == e'.q.ends;
  }

  // ---- A hole without a name ----

  lemma PutHoleIsNameless(b: Building, h: Hole)
    requires b.Ok() && b.section < SECTIONS && b.textEnd == |b.text|
    ensures PutHole(b, h) == PutNamed(b, h, [])
  {
    hide Sum, HoleId;
    var c := PutHole(b, h);
    assert c.Last().name == 0;
    assert c.steps[|c.steps| - 1 := c.Last().(name := 0)] == c.steps;
    assert c.text + [] == c.text;
  }

  lemma SimulatePlain(b: Building, h: Hole, r: Rendering, e: Encoding, src: Source, f: Building, before: bytes)
    requires InStep(b, r, e, src, before) && Sealed(src, f) && b.section < SECTIONS
    requires Leads(PutHole(b, h), f) && (IsParamHole(h) ==> b.optional)
    ensures
      var q, e' := WithHole(r.q, h, [], src.fill, src.bodyLen), EncodeHole(e, h, src);
      && e.at < |src.parts.steps|
      && (q.None? ==> e'.failed && WalkAt(e.at + 1, src, before).None?)
      && (q.Some? ==> InStep(PutHole(b, h), r.(q := q.value), e', src, before))
  {
    hide WalkTo, WithHole, Sum, PutHole, Leads, Sealed, Taken;
    PutHoleIsNameless(b, h);
    SimulateHole(b, h, [], r, e, src, f, before);
    PutNamedStep(b, h, []);
    LedStep(b, h, src, f);
    assert EncodeNamed(e, h, [], src) == EncodeHole(e, h, src);
  }

  lemma LedStep(b: Building, h: Hole, src: Source, f: Building)
    requires b.Ok() && b.section < SECTIONS && Leads(PutHole(b, h), f) && Sealed(src, f)
    ensures NameAt(b.Closed(), src.parts) == 0
  {
    assert f.steps[b.Closed()] == PutHole(b, h).steps[b.Closed()];
  }

  // ---- Where sections end and field lines start ----

  // The replay records each end where the walk is after the section's last step.
  ghost predicate EndsRecorded(e: Encoding, src: Source, before: bytes)
    requires |src.table.counts| == SECTIONS
  {
    e.section <= SECTIONS &&
    forall i :: 0 <= i < e.section ==> EndRecorded(e.q.ends[i], i + 1, src, before)
  }

  ghost predicate EndRecorded(end: nat, section: nat, src: Source, before: bytes)
    requires section <= |src.table.counts|
  {
    var k := src.table.StepsBefore(section);
    k <= |src.parts.steps| && WalkAt(k, src, before).Some? && end == |WalkAt(k, src, before).value.q.out|
  }

  ghost predicate FieldsAgree(marked: bool, r: Rendering, e: Encoding, src: Source, before: bytes) {
    if !marked then r.fields == 0 && e.fields == 0
    else
      var k := src.table.fieldsStep;
      && k < |src.parts.steps| && WalkAt(k, src, before).Some?
      && r.fields == e.fields
      && e.fields == |WalkAt(k, src, before).value.q.out| + Min(src.parts.steps[k].len, src.table.fieldsOffset)
  }

  ghost predicate Agree(b: Building, marked: bool, r: Rendering, e: Encoding, src: Source, before: bytes) {
    && |src.table.counts| == SECTIONS
    && InStep(b, r, e, src, before)
    && EndsRecorded(e, src, before)
    && FieldsAgree(marked, r, e, src, before)
  }

  // The steps of a section that has ended are those of the sealed table.
  lemma StepsOfEnded(b: Building, src: Source, f: Building)
    requires b.Ok() && !b.open && 0 < b.section && Leads(b, f) && Sealed(src, f)
    requires b.section < SECTIONS ==> b.counts[b.section] == 0
    ensures src.table.StepsBefore(b.section) == |b.steps|
  {
    SumOfZeros(b.counts, b.section);
    assert src.table.counts[..b.section] == b.counts[..b.section];
  }

  lemma AgreeAtEnd(b: Building, marked: bool, r: Rendering, e: Encoding, src: Source, f: Building, before: bytes)
    requires Agree(b, marked, r, e, src, before) && Sealed(src, f) && b.section < SECTIONS && Leads(EndOne(b), f)
    ensures Agree(EndOne(b), marked, r.(q := r.q.EndSections(r.section, r.section + 1), section := r.section + 1),
                  EncodeEnd(e, src.parts), src, before)
  {
    hide WalkTo, Sum, EndOne, Leads, Sealed, WithHole;
    SimulateEnd(b, r, e, src, f, before);
    var c, e' := EndOne(b), EncodeEnd(e, src.parts);
    StepsAfterEnd(b, src, f);
    forall i | 0 <= i < e'.section
      ensures EndRecorded(e'.q.ends[i], i + 1, src, before)
    {
      if i < e.section {
        assert EndRecorded(e.q.ends[i], i + 1, src, before);
      }
    }
  }

  lemma StepsAfterEnd(b: Building, src: Source, f: Building)
    requires b.Ok() && b.section < SECTIONS && Sealed(src, f) && Leads(EndOne(b), f)
    ensures EndOne(b).section == b.section + 1 && EndOne(b).Closed() == src.table.StepsBefore(b.section + 1)
  {
    StepsOfEnded(EndOne(b), src, f);
  }

  lemma {:induction false} AgreeAtEnds(b: Building, until: nat, marked: bool, r: Rendering, e: Encoding,
                                       src: Source, f: Building, before: bytes)
    requires Agree(b, marked, r, e, src, before) && Sealed(src, f)
    requires b.section <= until <= SECTIONS && Leads(EndTo(b, until), f)
    ensures Agree(EndTo(b, until), marked, r.(q := r.q.EndSections(r.section, until), section := until),
                  EncodeEnds(e, src.parts, until), src, before)
    decreases until - b.section
  {
    hide InStep, FieldsAgree, EndsRecorded, Sealed, Leads, EndOne, EncodeEnd, Request.EndSections;
    SameSection(b, r, e, src, before);
    EndsInTwo(r.q, r.section, until);
    if b.section < until {
      var r' := r.(q := r.q.EndSections(r.section, r.section + 1), section := r.section + 1);
      EndToLeads(EndOne(b), until);
      LeadsOn(EndOne(b), EndTo(b, until), f);
      AgreeAtEnd(b, marked, r, e, src, f, before);
      AgreeAtEnds(EndOne(b), until, marked, r', EncodeEnd(e, src.parts), src, f, before);
    }
  }

  lemma EndsInTwo(q: Request, from: nat, until: nat)
    requires from <= until
    ensures from == until ==> q.EndSections(from, until) == q
    ensures from < until ==> q.EndSections(from, from + 1).EndSections(from + 1, until) == q.EndSections(from, until)
  {
    assert from == until ==> q.EndSections(from, until).ends == q.ends;
    assert from < until ==>
        q.EndSections(from, from + 1).EndSections(from + 1, until).ends == q.EndSections(from, until).ends;
  }

  lemma SameSection(b: Building, r: Rendering, e: Encoding, src: Source, before: bytes)
    requires InStep(b, r, e, src, before)
    ensures b.Ok() && b.section == r.section == e.section && e.optional == b.optional && e.at <= |src.parts.steps|
  {
  }

  // ---- Each call of a layout ----

  lemma SimulateSeparator(b: Building, r: Rendering, e: Encoding, src: Source, f: Building, before: bytes)
    requires InStep(b, r, e, src, before) && Sealed(src, f) && b.section < SECTIONS && Leads(PutSeparator(b), f)
    ensures InStep(PutSeparator(b), r.(q := r.q.Separated()),
                   if e.optional then EncodeHole(e, Separator, src) else e, src, before)
  {
    hide WalkTo, Sum, PushText, PutHole, Leads, Sealed, InStep, EncodeHole, WithHole, Request.Separated;
    SameSection(b, r, e, src, before);
    SeparatorFilled(r.q, src.fill, src.bodyLen);
    if b.optional {
      SimulatePlain(b, Separator, r, e, src, f, before);
    } else {
      SeparatorAsText(b, r, e, src, before);
    }
  }

  lemma SeparatorFilled(q: Request, fill: Filler, n: nat)
    ensures WithHole(q, Separator, [], fill, n) == Some(q.Separated())
  {
    hide WithHole, Request.Separated;
    FilledBy(q, Separator, [], fill, n);
  }

  lemma SeparatorAsText(b: Building, r: Rendering, e: Encoding, src: Source, before: bytes)
    requires InStep(b, r, e, src, before) && b.section < SECTIONS && !b.optional
    ensures InStep(PutSeparator(b), r.(q := r.q.Separated()), e, src, before)
  {
    hide WalkTo, Sum, PushText;
    var separator := if b.params == 0 then ['?' as int] else ['&' as int];
    PushTextStep(b, separator);
    TextFollows(r.q.out, e.q.out, b.text, e.cursor, separator);
  }

  // What a call changes neither of: the ends and the fields recorded so far.
  lemma KeepsRecords(b: Building, marked: bool, r: Rendering, e: Encoding, src: Source, before: bytes,
                     c: Building, s: Rendering, g: Encoding)
    requires Agree(b, marked, r, e, src, before) && InStep(c, s, g, src, before)
    requires g.section == e.section && g.q.ends == e.q.ends && g.fields == e.fields && s.fields == r.fields
    ensures Agree(c, marked, s, g, src, before)
  {
    hide InStep, EndRecorded;
  }

  // The outcome of a call: both go on in step, or the request has no value and both fail.
  ghost predicate BothGoOn(c: Building, marked: bool, s: Option<Rendering>, g: Encoding, src: Source, before: bytes) {
    if s.None? then g.failed && WalkAt(|src.parts.steps|, src, before).None?
    else Agree(c, marked, s.value, g, src, before)
  }

  lemma {:induction false} WalkStops(k: nat, n: nat, src: Source, before: bytes)
    requires k <= n <= |src.parts.steps| && WalkAt(k, src, before).None?
    ensures WalkAt(n, src, before).None?
    decreases n - k
  {
    hide WalkStep;
    if k < n {
      WalkStops(k, n - 1, src, before);
    }
  }

  lemma HoleGoesOn(b: Building, h: Hole, marked: bool, r: Rendering, e: Encoding, src: Source, f: Building,
                   before: bytes)
    requires Agree(b, marked, r, e, src, before) && Sealed(src, f) && b.section < SECTIONS
    requires Leads(PutHole(b, h), f) && (IsParamHole(h) ==> b.optional)
    ensures BothGoOn(PutHole(b, h), marked, RenderHole(r, r.q, h, [], src.fill, src.bodyLen), EncodeHole(e, h, src),
                     src, before)
  {
    hide WalkTo, WithHole, Sum, PutHole, Leads, Sealed, InStep, EndsRecorded, FieldsAgree;
    SameSection(b, r, e, src, before);
    SimulatePlain(b, h, r, e, src, f, before);
    var q := WithHole(r.q, h, [], src.fill, src.bodyLen);
    if q.None? {
      WalkStops(e.at + 1, |src.parts.steps|, src, before);
    } else {
      var g := EncodeHole(e, h, src);
      EncodeHoleKeeps(e, h, src);
      KeepsRecords(b, marked, r, e, src, before, PutHole(b, h), r.(q := q.value), g);
    }
  }

  lemma EncodeHoleKeeps(e: Encoding, h: Hole, src: Source)
    ensures
      var g := EncodeHole(e, h, src);
      g.section == e.section && g.q.ends == e.q.ends && g.fields == e.fields && g.optional == e.optional
  {
    hide WithHole;
  }

  lemma OptionalGoesOn(b: Building, h: Hole, name: bytes, marked: bool, r: Rendering, e: Encoding, src: Source,
                       f: Building, before: bytes)
    requires Agree(b, marked, r, e, src, before) && Sealed(src, f) && b.section < SECTIONS && IsOptionalHole(h)
    requires Leads(PutNamed(b, h, name).(optional := true), f)
    ensures BothGoOn(PutNamed(b, h, name).(optional := true), marked,
                     RenderHole(r, r.q, h, name, src.fill, src.bodyLen),
                     EncodeNamed(e.(optional := true), h, name, src), src, before)
  {
    hide WalkTo, WithHole, Sum, EndsRecorded, FieldsAgree, InStep, Leads, Sealed, PutNamed;
    var b', e' := b.(optional := true), e.(optional := true);
    SameSection(b, r, e, src, before);
    OptionalCommutes(b, h, name);
    NowOptional(b, h, name, r, e, src, f, before);
    SimulateHole(b', h, name, r, e', src, f, before);
    var q := WithHole(r.q, h, name, src.fill, src.bodyLen);
    if q.None? {
      WalkStops(e.at + 1, |src.parts.steps|, src, before);
    } else {
      EncodeHoleKeeps(e', h, src);
      KeepsRecords(b, marked, r, e, src, before, PutNamed(b', h, name), r.(q := q.value),
                   EncodeNamed(e', h, name, src));
    }
  }

  lemma OptionalCommutes(b: Building, h: Hole, name: bytes)
    requires b.Ok() && b.section < SECTIONS
    ensures b.(optional := true).Ok()
    ensures PutNamed(b.(optional := true), h, name) == PutNamed(b, h, name).(optional := true)
  {
    hide Sum;
    assert b.(optional := true).Ok();
    assert PutHole(b.(optional := true), h) == PutHole(b, h).(optional := true);
  }

  // The first optional parameter: from here on the request counts the parameters itself.
  lemma NowOptional(b: Building, h: Hole, name: bytes, r: Rendering, e: Encoding, src: Source, f: Building,
                    before: bytes)
    requires InStep(b, r, e, src, before) && Sealed(src, f) && b.section < SECTIONS
    requires Leads(PutNamed(b, h, name).(optional := true), f)
    ensures InStep(b.(optional := true), r, e.(optional := true), src, before)
  {
    hide WalkTo, Sum;
    assert f.params == PutNamed(b, h, name).params == b.params;
  }

  lemma MarkGoesOn(b: Building, r: Rendering, e: Encoding, src: Source, f: Building, before: bytes)
    requires Agree(b, false, r, e, src, before) && Sealed(src, f) && b.section < SECTIONS
    requires Leads(Mark(b), f) && b.Closed() < |f.steps|
    requires f.fieldsStep == Mark(b).fieldsStep && f.fieldsOffset == Mark(b).fieldsOffset
    ensures Agree(Mark(b), true, r.(fields := |r.q.out|), EncodeMark(e, src), src, before)
  {
    hide WalkTo, Sum, EndsRecorded, InStep, FieldsAgree, Leads, Sealed, Mark;
    SameSectionOfAgree(b, false, r, e, src, before);
    MarkStep(b, r, e, src, f, before);
    var s, g := r.(fields := |r.q.out|), EncodeMark(e, src);
    RecordsMark(b, r, e, src, before, Mark(b), s, g);
  }

  lemma MarkStep(b: Building, r: Rendering, e: Encoding, src: Source, f: Building, before: bytes)
    requires InStep(b, r, e, src, before) && Sealed(src, f) && b.section < SECTIONS
    requires Leads(Mark(b), f) && b.Closed() < |f.steps|
    requires f.fieldsStep == Mark(b).fieldsStep && f.fieldsOffset == Mark(b).fieldsOffset
    ensures
      var s, g := r.(fields := |r.q.out|), EncodeMark(e, src);
      InStep(Mark(b), s, g, src, before) && FieldsAgree(true, s, g, src, before) && g.q == e.q && g.section == e.section
  {
    hide WalkTo, Sum;
  }

  lemma RecordsMark(b: Building, r: Rendering, e: Encoding, src: Source, before: bytes, c: Building, s: Rendering,
                    g: Encoding)
    requires Agree(b, false, r, e, src, before) && InStep(c, s, g, src, before) && FieldsAgree(true, s, g, src, before)
    requires g.q == e.q && g.section == e.section
    ensures Agree(c, true, s, g, src, before)
  {
    hide InStep, FieldsAgree, EndRecorded;
  }

  // What a well-formed layout asks of one call.
  predicate Fits(op: Op, section: nat, marked: bool) {
    match op
    case Section(s) => section < s < SECTIONS
    case Text(_) => true
    case Fill(h) => IsFillable(h, section)
    case Fields => !marked
    case Param(_, Fixed(_)) => section != BODY
    case Param(_, Filled(h)) => section != BODY && IsFillable(h, section)
    case Param(_, Optional(h)) => section != BODY && IsOptionalHole(h)
  }

  lemma CallGoesOn(b: Building, op: Op, marked: bool, r: Rendering, e: Encoding, src: Source, f: Building,
                   before: bytes)
    requires Agree(b, marked, r, e, src, before) && Sealed(src, f)
    requires b.section < SECTIONS && Fits(op, b.section, marked)
    requires Leads(Build(b, op), f) && b.Closed() < |f.steps|
    requires op.Fields? ==> f.fieldsStep == Build(b, op).fieldsStep && f.fieldsOffset == Build(b, op).fieldsOffset
    ensures BothGoOn(Build(b, op), marked || op.Fields?, Render(r, op, src.fill, src.bodyLen), Encode(e, op, src), src,
                     before)
  {
    hide WalkTo, WithHole, Sum, Leads, Sealed, EndsRecorded, FieldsAgree, PutHole, PutName, PushText,
         PutSeparator, EndTo, Mark, InStep;
    hide EncodeHole, EncodeNamed;
    SameSection(b, r, e, src, before);
    match op
    case Section(s) => AgreeAtEnds(b, s, marked, r, e, src, f, before);
    case Text(text) =>
      SimulateText(b, text, r, e, src, before);
      KeepsRecords(b, marked, r, e, src, before, PushText(b, text), r.(q := r.q.Push(text)), e);
    case Fill(h) => HoleGoesOn(b, h, marked, r, e, src, f, before);
    case Fields => MarkGoesOn(b, r, e, src, f, before);
    case Param(name, Fixed(text)) => FixedGoesOn(b, name, text, marked, r, e, src, f, before);
    case Param(name, Filled(h)) => FilledGoesOn(b, name, h, marked, r, e, src, f, before);
    case Param(name, Optional(h)) => OptionalGoesOn(b, h, name, marked, r, e, src, f, before);
  }

  // The separator and the name of a parameter, written as text.
  lemma NameGoesOn(b: Building, text: bytes, marked: bool, r: Rendering, e: Encoding, src: Source, f: Building,
                   before: bytes)
    requires Agree(b, marked, r, e, src, before) && Sealed(src, f) && b.section < SECTIONS
    requires Leads(PushText(PutSeparator(b), text), f)
    ensures Agree(PushText(PutSeparator(b), text), marked, r.(q := r.q.Separated().Push(text)),
                  if e.optional then EncodeHole(e, Separator, src) else e, src, before)
  {
    hide WalkTo, WithHole, Sum, Leads, Sealed, EndsRecorded, FieldsAgree, PutHole, PutName, PushText,
         PutSeparator, InStep;
    hide EncodeHole;
    SameSection(b, r, e, src, before);
    var c := PutSeparator(b);
    PushTextLeads(c, text);
    LeadsOn(c, PushText(c, text), f);
    SimulateSeparator(b, r, e, src, f, before);
    var g, s := if e.optional then EncodeHole(e, Separator, src) else e, r.(q := r.q.Separated());
    SimulateText(c, text, s, g, src, before);
    EncodeHoleKeeps(e, Separator, src);
    KeepsRecords(b, marked, r, e, src, before, PushText(c, text), s.(q := s.q.Push(text)), g);
  }

  lemma FixedGoesOn(b: Building, name: bytes, text: bytes, marked: bool, r: Rendering, e: Encoding, src: Source,
                    f: Building, before: bytes)
    requires Agree(b, marked, r, e, src, before) && Sealed(src, f) && b.section < SECTIONS
    requires Leads(Build(b, Param(name, Fixed(text))), f)
    ensures BothGoOn(Build(b, Param(name, Fixed(text))), marked,
                     Render(r, Param(name, Fixed(text)), src.fill, src.bodyLen),
                     Encode(e, Param(name, Fixed(text)), src), src, before)
  {
    hide Agree, Sealed, Leads, PushText, PutSeparator, EncodeHole, WalkTo, WithHole, Request.Separated, Request.Push;
    SameSectionOfAgree(b, marked, r, e, src, before);
    NameGoesOn(b, name + EQUALS + text, marked, r, e, src, f, before);
  }

  lemma FilledGoesOn(b: Building, name: bytes, h: Hole, marked: bool, r: Rendering, e: Encoding, src: Source,
                     f: Building, before: bytes)
    requires Agree(b, marked, r, e, src, before) && Sealed(src, f) && b.section < SECTIONS && !IsParamHole(h)
    requires Leads(Build(b, Param(name, Filled(h))), f)
    ensures BothGoOn(Build(b, Param(name, Filled(h))), marked, Render(r, Param(name, Filled(h)), src.fill, src.bodyLen),
                     Encode(e, Param(name, Filled(h)), src), src, before)
  {
    hide Agree, Sealed, Leads, PushText, PutSeparator, PutHole, EncodeHole, BothGoOn, WithHole;
    SameSectionOfAgree(b, marked, r, e, src, before);
    var c := PushText(PutSeparator(b), name + EQUALS);
    PutHoleLeads(c, h);
    LeadsOn(c, PutHole(c, h), f);
    NameGoesOn(b, name + EQUALS, marked, r, e, src, f, before);
    HoleGoesOn(c, h, marked, r.(q := r.q.Separated().Push(name + EQUALS)),
               if e.optional then EncodeHole(e, Separator, src) else e, src, f, before);
  }

  lemma SameSectionOfAgree(b: Building, marked: bool, r: Rendering, e: Encoding, src: Source, before: bytes)
    requires Agree(b, marked, r, e, src, before)
    ensures b.Ok() && b.section == r.section == e.section
  {
    SameSection(b, r, e, src, before);
  }

  // ---- Whole layouts ----

  lemma {:induction false} FailureStays(e: Encoding, ops: seq<Op>, src: Source)
    requires e.failed
    ensures EncodeAll(e, ops, src).failed
    decreases |ops|
  {
    if ops != [] {
      CallStaysFailed(e, ops[0], src);
      FailureStays(Encode(e, ops[0], src), ops[1..], src);
    }
  }

  lemma CallStaysFailed(e: Encoding, op: Op, src: Source)
    requires e.failed
    ensures Encode(e, op, src).failed
  {
    hide WithHole;
    if op.Section? {
      EndsStayFailed(e, src.parts, op.section);
    }
  }

  lemma {:induction false} EndsStayFailed(e: Encoding, parts: Parts, until: nat)
    requires e.failed
    ensures EncodeEnds(e, parts, until).failed
    decreases until - e.section
  {
    if e.section < until {
      EndsStayFailed(EncodeEnd(e, parts), parts, until);
    }
  }

  lemma {:induction false} WellFormedIsInOrder(ops: seq<Op>, section: nat, marked: bool)
    requires WellFormed(ops, section, marked)
    ensures InOrder(ops, section)
    ensures ops != [] ==> Fits(ops[0], section, marked)
    ensures ops != [] ==>
              WellFormed(ops[1..], if ops[0].Section? then ops[0].section else section, marked || ops[0].Fields?)
    decreases |ops|
  {
    if ops != [] {
      WellFormedIsInOrder(ops[1..], if ops[0].Section? then ops[0].section else section, marked || ops[0].Fields?);
    }
  }

  // Once the fields are marked, nothing moves the mark.
  lemma {:induction false} EndToKeepsMark(b: Building, until: nat)
    requires b.Ok() && until <= SECTIONS
    ensures EndTo(b, until).fieldsStep == b.fieldsStep && EndTo(b, until).fieldsOffset == b.fieldsOffset
    decreases until - b.section
  {
    if b.section < until {
      EndToKeepsMark(EndOne(b), until);
    }
  }

  lemma BuildKeepsMark(b: Building, op: Op)
    requires b.Ok() && b.section < SECTIONS && (op.Section? ==> b.section < op.section < SECTIONS) && !op.Fields?
    ensures Build(b, op).fieldsStep == b.fieldsStep && Build(b, op).fieldsOffset == b.fieldsOffset
  {
    hide Sum, Building.Ok, EndTo;
    if op.Section? {
      EndToKeepsMark(b, op.section);
    }
  }

  lemma {:induction false} MarkKept(b: Building, ops: seq<Op>)
    requires b.Ok() && b.section < SECTIONS && InOrder(ops, b.section) && Fields !in ops
    ensures
      var f := EndTo(BuildAll(b, ops), SECTIONS);
      f.fieldsStep == b.fieldsStep && f.fieldsOffset == b.fieldsOffset
    decreases |ops|
  {
    hide EndTo, Build;
    if ops == [] {
      EndToKeepsMark(b, SECTIONS);
    } else {
      BuildKeepsMark(b, ops[0]);
      MarkKept(Build(b, ops[0]), ops[1..]);
    }
  }

  lemma {:induction false} MarkedOnce(ops: seq<Op>, section: nat)
    requires WellFormed(ops, section, true)
    ensures Fields !in ops
    decreases |ops|
  {
    if ops != [] {
      WellFormedIsInOrder(ops, section, true);
      MarkedOnce(ops[1..], if ops[0].Section? then ops[0].section else section);
      assert ops == [ops[0]] + ops[1..];
    }
  }

  lemma FinalLeads(b: Building, op: Op, ops: seq<Op>, f: Building)
    requires b.Ok() && b.section < SECTIONS && (op.Section? ==> b.section < op.section < SECTIONS)
    requires InOrder(ops, Build(b, op).section) && f == EndTo(BuildAll(Build(b, op), ops), SECTIONS)
    ensures Leads(Build(b, op), f) && b.Closed() < |f.steps|
  {
    hide Build, BuildAll, EndTo, Leads;
    var c := Build(b, op);
    BuildLeads(b, op);
    BuildAllLeads(c, ops);
    EndToLeads(BuildAll(c, ops), SECTIONS);
    LeadsOn(c, BuildAll(c, ops), f);
    LeadsOn(b, c, BuildAll(c, ops));
    ClosedGrows(b, BuildAll(c, ops));
  }

  lemma ClosedGrows(b: Building, c: Building)
    requires Leads(b, c)
    ensures b.Closed() <= c.Closed()
  {
  }

  ghost predicate MarkedAfter(ops: seq<Op>, marked: bool) {
    marked || Fields in ops
  }

  lemma {:induction false} SimulateAll(b: Building, ops: seq<Op>, marked: bool, r: Rendering, e: Encoding,
                                       src: Source, f: Building, before: bytes)
    requires Agree(b, marked, r, e, src, before) && Sealed(src, f) && b.section < SECTIONS
    requires WellFormed(ops, b.section, marked) && InOrder(ops, b.section)
    requires f == EndTo(BuildAll(b, ops), SECTIONS)
    ensures BothGoOn(BuildAll(b, ops), MarkedAfter(ops, marked), RenderAll(r, ops, src.fill, src.bodyLen),
                     EncodeAll(e, ops, src), src, before)
    decreases |ops|
  {
    hide Agree, Sealed, Leads, Build, Render, Encode, EndTo, WellFormed, WalkTo;
    if ops != [] {
      var op, rest := ops[0], ops[1..];
      assert ops == [op] + rest;
      WellFormedIsInOrder(ops, b.section, marked);
      SameSectionOfAgree(b, marked, r, e, src, before);
      var c, s, g := Build(b, op), Render(r, op, src.fill, src.bodyLen), Encode(e, op, src);
      FinalLeads(b, op, rest, f);
      if op.Fields? {
        MarkedOnce(rest, c.section);
        MarkKept(c, rest);
      }
      CallGoesOn(b, op, marked, r, e, src, f, before);
      if s.None? {
        FailureStays(g, rest, src);
      } else {
        SimulateAll(c, rest, marked || op.Fields?, s.value, g, src, f, before);
      }
    }
  }

  // ---- The main results ----

  // The template that `ops` builds, all its sections ended.
  function Template(ops: seq<Op>): (f: Building)
    requires InOrder(ops, ORIGIN)
    ensures f.Ok() && f.section == SECTIONS
  {
    NothingBuiltIsOk();
    EndTo(BuildAll(NOTHING_BUILT, ops), SECTIONS)
  }

  lemma AgreeAtStart(src: Source, f: Building, before: bytes)
    requires Sealed(src, f)
    ensures Agree(NOTHING_BUILT, false, Rendering(Started(before, 0), 0, ORIGIN), EncodeStart(before, src.table, false),
                  src, before)
  {
    NothingBuiltIsOk();
  }

  // The outcome of the request that `ops` describe, written by any of the three passes.
  ghost predicate PassesAgree(before: bytes, ops: seq<Op>, src: Source)
    requires |src.table.counts| == SECTIONS && src.table.StepsBefore(SECTIONS) == |src.parts.steps|
  {
    && Encoded(before, ops, src) == Rendered(before, ops, src.fill, src.bodyLen)
    && Walked(before, ORIGIN, SECTIONS, src) == Rendered(before, ops, src.fill, src.bodyLen)
  }

  // Replaying a well-formed layout against its template, and walking its table, write the
  // request that the layout describes, and refuse the values that it refuses.
  lemma CompilerCorrect(before: bytes, ops: seq<Op>, src: Source)
    requires WellFormed(ops, ORIGIN, false) && InOrder(ops, ORIGIN) && Sealed(src, Template(ops))
    ensures |src.table.counts| == SECTIONS && src.table.StepsBefore(SECTIONS) == |src.parts.steps|
    ensures PassesAgree(before, ops, src)
    ensures
      var o := Rendered(before, ops, src.fill, src.bodyLen);
      o.Some? ==> forall i :: 0 <= i < SECTIONS ==> EndRecorded(o.value.ends[i], i + 1, src, before)
  {
    hide Agree, Sealed, Leads, BuildAll, RenderAll, EncodeAll, EndTo, WalkTo, EncodeEnds;
    NothingBuiltIsOk();
    var f, b := Template(ops), BuildAll(NOTHING_BUILT, ops);
    var r, e := Rendering(Started(before, 0), 0, ORIGIN), EncodeStart(before, src.table, false);
    StepsAll(src, f);
    AgreeAtStart(src, f, before);
    SimulateAll(NOTHING_BUILT, ops, false, r, e, src, f, before);
    var s, g := RenderAll(r, ops, src.fill, src.bodyLen), EncodeAll(e, ops, src);
    if s.None? {
      EndsStayFailed(g, src.parts, SECTIONS);
      WalkedWhole(before, src);
    } else {
      if Fields !in ops {
        MarkKept(NOTHING_BUILT, ops);
      }
      LeadsItself(f);
      EndsAgree(b, MarkedAfter(ops, false), s.value, g, src, f, before);
      Outcomes(f, MarkedAfter(ops, false),
               s.value.(q := s.value.q.EndSections(s.value.section, SECTIONS), section := SECTIONS),
               EncodeEnds(g, src.parts, SECTIONS), src, before);
      WalkedWhole(before, src);
    }
  }

  lemma LeadsItself(f: Building)
    requires f.Ok() && !f.open
    ensures Leads(f, f)
  {
  }

  lemma EndsAgree(b: Building, marked: bool, r: Rendering, e: Encoding, src: Source, f: Building, before: bytes)
    requires Agree(b, marked, r, e, src, before) && Sealed(src, f) && f == EndTo(b, SECTIONS) && Leads(f, f)
    ensures Agree(f, marked, r.(q := r.q.EndSections(r.section, SECTIONS), section := SECTIONS),
                  EncodeEnds(e, src.parts, SECTIONS), src, before)
  {
    SameSectionOfAgree(b, marked, r, e, src, before);
    AgreeAtEnds(b, SECTIONS, marked, r, e, src, f, before);
  }

  // A sealed table accounts for all of its steps, and nothing of it is open.
  lemma StepsAll(src: Source, f: Building)
    requires Sealed(src, f)
    ensures |src.table.counts| == SECTIONS && src.table.StepsBefore(SECTIONS) == |src.parts.steps| < UNMARKED
    ensures !f.open && f.Ok() && src.parts.steps == f.steps && src.table.fieldsStep == f.fieldsStep
  {
    assert src.table.counts[..SECTIONS] == f.counts;
  }

  // What walking the whole table gives, without the text it passes over.
  lemma WalkedWhole(before: bytes, src: Source)
    requires |src.table.counts| == SECTIONS && src.table.StepsBefore(SECTIONS) == |src.parts.steps|
    ensures
      var w := WalkAt(|src.parts.steps|, src, before);
      Walked(before, ORIGIN, SECTIONS, src) ==
        if w.None? then None
        else Some(Outcome(w.value.q.out, w.value.q.ends, w.value.q.marks,
                          WalkedFields(WalkStart(before, src.table), 0, |src.parts.steps|, src)))
  {
    hide WalkTo, WalkedFields;
    assert src.table.counts[..0] == [];
    var w := WalkAt(|src.parts.steps|, src, before);
    if w.Some? {
      assert w.value.q.EndSections(SECTIONS, SECTIONS).ends == w.value.q.ends;
    }
  }

  lemma Outcomes(f: Building, marked: bool, r: Rendering, e: Encoding, src: Source, before: bytes)
    requires Agree(f, marked, r, e, src, before) && !f.open && src.parts.steps == f.steps && |f.steps| < UNMARKED
    requires f.section == SECTIONS && (!marked ==> src.table.fieldsStep == UNMARKED)
    ensures !e.failed && e.at == |src.parts.steps|
    ensures e.q.out == r.q.out && e.q.ends == r.q.ends && e.q.marks == r.q.marks && e.fields == r.fields
    ensures WalkAt(|src.parts.steps|, src, before) == Some(Walking(e.q, e.cursor))
    ensures WalkedFields(WalkStart(before, src.table), 0, |src.parts.steps|, src) == e.fields
    ensures forall i :: 0 <= i < SECTIONS ==> EndRecorded(e.q.ends[i], i + 1, src, before)
  {
    hide WalkTo, Sum;
    assert f.text[e.cursor..] == [];
    assert r.q.out == e.q.out + [];
  }
}
