/** The three passes over a template, as functions: the pass that builds it from a layout,
    the pass that replays the layout against it, and the walk over its table alone. */
module Passes {
  import opened Bytes
  import opened Layouts
  import opened Tables

  // ---- Building a template ----

  type Counts = s: seq<nat> | |s| == SECTIONS witness [0, 0, 0, 0, 0, 0]

  const UNMARKED: nat := 255

  // The builder's state in unbounded numbers. While `open`, text still extends the last step.
  datatype Building = Building(
    text: bytes, steps: seq<Step>, counts: Counts, section: nat, open: bool, textEnd: nat,
    scattered: bool, fieldsStep: nat, fieldsOffset: nat, params: nat, optional: bool)
  {
    predicate Ok() {
      && section <= SECTIONS
      && (open ==> steps != [] && section < SECTIONS && counts[section] > 0)
      && Sum(counts) == |steps|
      && (forall i :: section < i < SECTIONS ==> counts[i] == 0)
      && (forall i :: 0 <= i < |steps| ==> steps[i].len <= |text|)
      && (open ==> steps[|steps| - 1] == Step(steps[|steps| - 1].len, NO_HOLE, 0, 0))
      && (fieldsStep <= |steps| || fieldsStep == UNMARKED) && fieldsOffset <= |text|
    }

    // The steps that no later call changes.
    function Closed(): int {
      if open then |steps| - 1 else |steps|
    }

    function PushStep(step: Step): Building
      requires section < SECTIONS
    {
      this.(steps := steps + [step], counts := counts[section := counts[section] + 1])
    }

    function WithLast(step: Step): Building
      requires steps != []
    {
      this.(steps := steps[|steps| - 1 := step])
    }

    function Last(): Step
      requires steps != []
    {
      steps[|steps| - 1]
    }
  }

  const NOTHING_BUILT: Building :=
    Building([], [], [0, 0, 0, 0, 0, 0], ORIGIN, false, 0, false, UNMARKED, 0, 0, false)

  lemma NothingBuiltIsOk()
    ensures NOTHING_BUILT.Ok()
  {
    SumOfZeros([0, 0, 0, 0, 0, 0], 0);
  }

  lemma {:induction false} SumUpdate(counts: seq<nat>, k: nat, n: nat)
    requires k < |counts|
    ensures Sum(counts[k := n]) == Sum(counts) - counts[k] + n
  {
    if k < |counts| - 1 {
      SumUpdate(counts[..|counts| - 1], k, n);
      assert counts[k := n][..|counts| - 1] == counts[..|counts| - 1][k := n];
    } else {
      assert counts[k := n][..|counts| - 1] == counts[..|counts| - 1];
    }
  }

  // The text alone, in no step yet.
  function WithText(b: Building, text: bytes): Building {
    b.(text := b.text + text, scattered := b.scattered || |b.text| != b.textEnd, textEnd := |b.text| + |text|)
  }

  function PushText(b: Building, text: bytes): (c: Building)
    requires b.Ok() && b.section < SECTIONS
    ensures c.Ok() && c.section == b.section
  {
    if text == [] then b else
    SumUpdate(b.counts, b.section, b.counts[b.section] + 1);
    var c := WithText(b, text);
    if b.open then c.WithLast(c.Last().(len := c.Last().len + |text|))
    else c.PushStep(Step(|text|, NO_HOLE, 0, 0)).(open := true)
  }

  function PutHole(b: Building, h: Hole): (c: Building)
    requires b.Ok() && b.section < SECTIONS
    ensures c.Ok() && c.section == b.section && !c.open && c.steps != []
  {
    SumUpdate(b.counts, b.section, b.counts[b.section] + 1);
    (if b.open then b.WithLast(b.Last().(hole := HoleId(h))) else b.PushStep(Step(0, HoleId(h), 0, 0))).(open := false)
  }

  // Stores a parameter's name in the text, and its length in the last step.
  function PutName(b: Building, name: bytes): (c: Building)
    requires b.Ok() && b.steps != [] && !b.open
    ensures c.Ok() && c.section == b.section
  {
    b.(text := b.text + name,
       scattered := b.scattered || |b.text| != b.textEnd || |name| > 255,
       textEnd := |b.text| + |name|)
     .WithLast(b.Last().(name := |name| % 256))
  }

  // Closes the current section: the open step takes its bit, or an empty one is added.
  function EndOne(b: Building): (c: Building)
    requires b.Ok() && b.section < SECTIONS
    ensures c.Ok() && c.section == b.section + 1 && !c.open
  {
    SumUpdate(b.counts, b.section, b.counts[b.section] + 1);
    var c := if b.open then b else b.PushStep(EMPTY_STEP);
    c.WithLast(c.Last().(ends := WithBit(c.Last().ends, b.section))).(open := false, section := b.section + 1)
  }

  function EndTo(b: Building, until: nat): (c: Building)
    requires b.Ok() && until <= SECTIONS
    ensures c.Ok() && c.section == if b.section < until then until else b.section
    decreases until - b.section
  {
    if b.section < until then EndTo(EndOne(b), until) else b
  }

  // What separates a parameter: a fixed byte while the count of parameters is known, and else a
  // hole.
  function PutSeparator(b: Building): (c: Building)
    requires b.Ok() && b.section < SECTIONS
    ensures c.Ok() && c.section == b.section
  {
    if b.optional then PutHole(b, Separator)
    else PushText(b, if b.params == 0 then ['?' as int] else ['&' as int]).(params := b.params + 1)
  }

  function Mark(b: Building): (c: Building)
    requires b.Ok()
    ensures c.Ok() && c.section == b.section
  {
    if b.open then b.(fieldsStep := |b.steps| - 1, fieldsOffset := b.Last().len)
    else b.(fieldsStep := |b.steps|, fieldsOffset := 0)
  }

  // One call of a layout on the builder.
  function Build(b: Building, op: Op): (c: Building)
    requires b.Ok() && b.section < SECTIONS && (op.Section? ==> b.section < op.section < SECTIONS)
    ensures c.Ok() && c.section == if op.Section? then op.section else b.section
  {
    match op
    case Section(s) => EndTo(b, s)
    case Text(text) => PushText(b, text)
    case Fill(h) => PutHole(b, h)
    case Fields => Mark(b)
    case Param(name, Fixed(text)) => PushText(PutSeparator(b), name + EQUALS + text)
    case Param(name, Filled(h)) => PutHole(PushText(PutSeparator(b), name + EQUALS), h)
    case Param(name, Optional(h)) => PutName(PutHole(b, h), name).(optional := true)
  }

  // Whether the sections of a layout are started in order, as every pass requires.
  predicate InOrder(ops: seq<Op>, section: nat) {
    ops == [] ||
    (match ops[0]
     case Section(s) => section < s < SECTIONS && InOrder(ops[1..], s)
     case _ => InOrder(ops[1..], section))
  }

  function BuildAll(b: Building, ops: seq<Op>): (c: Building)
    requires b.Ok() && b.section < SECTIONS && InOrder(ops, b.section)
    ensures c.Ok() && c.section < SECTIONS
    decreases |ops|
  {
    if ops == [] then b else BuildAll(Build(b, ops[0]), ops[1..])
  }

  // ---- Replaying a layout against a template ----

  // What a request's passes read: the template's parts, its table, the values, and the length
  // of the body.
  datatype Source = Source(parts: Parts, table: Table, fill: Filler, bodyLen: nat)

  datatype Encoding = Encoding(
    q: Request, fields: nat, at: nat, cursor: nat, section: nat, optional: bool, failed: bool)

  // Appends the next run. A step or a run that is missing makes the replay fail, not stop.
  function Taken(e: Encoding, parts: Parts): (f: Encoding)
    ensures f.section == e.section && f.optional == e.optional && |e.q.out| <= |f.q.out|
  {
    if e.at >= |parts.steps| then e.(at := e.at + 1, failed := true)
    else
      var step := parts.steps[e.at];
      e.(q := e.q.Push(Slice(parts.text, e.cursor, e.cursor + step.len)),
         at := e.at + 1,
         cursor := e.cursor + step.len,
         failed := e.failed || e.cursor + step.len > |parts.text|)
  }

  // The length of the name that the step at `at` holds.
  function NameAt(at: nat, parts: Parts): nat {
    if at < |parts.steps| then parts.steps[at].name else 0
  }

  function WithValue(e: Encoding, h: Hole, name: bytes, src: Source): (f: Encoding)
    ensures f.section == e.section && f.optional == e.optional && |e.q.out| <= |f.q.out|
  {
    var q := WithHole(e.q, h, name, src.fill, src.bodyLen);
    if q.None? then e.(failed := true) else e.(q := q.value)
  }

  function EncodeHole(e: Encoding, h: Hole, src: Source): (f: Encoding)
    ensures f.section == e.section && f.optional == e.optional && |e.q.out| <= |f.q.out|
  {
    WithValue(Taken(e, src.parts), h, [], src)
  }

  function EncodeNamed(e: Encoding, h: Hole, name: bytes, src: Source): (f: Encoding)
    ensures f.section == e.section && f.optional == e.optional && |e.q.out| <= |f.q.out|
  {
    var f := WithValue(Taken(e, src.parts), h, name, src);
    f.(cursor := f.cursor + NameAt(e.at, src.parts))
  }

  function EncodeEnd(e: Encoding, parts: Parts): (f: Encoding)
    ensures f.section == e.section + 1 && |e.q.out| <= |f.q.out|
  {
    var f := Taken(e, parts);
    f.(q := f.q.EndSections(f.section, f.section + 1), section := f.section + 1)
  }

  function EncodeEnds(e: Encoding, parts: Parts, until: nat): (f: Encoding)
    ensures f.section == if e.section < until then until else e.section
    decreases until - e.section
  {
    if e.section < until then EncodeEnds(EncodeEnd(e, parts), parts, until) else e
  }

  function EncodeMark(e: Encoding, src: Source): Encoding {
    var len := if e.at < |src.parts.steps| then src.parts.steps[e.at].len else 0;
    e.(fields := |e.q.out| + Min(len, src.table.fieldsOffset), failed := e.failed || src.table.fieldsStep != e.at)
  }

  function Encode(e: Encoding, op: Op, src: Source): Encoding {
    match op
    case Section(s) => EncodeEnds(e, src.parts, s)
    case Text(_) => e
    case Fill(h) => EncodeHole(e, h, src)
    case Fields => EncodeMark(e, src)
    case Param(_, Fixed(_)) => if e.optional then EncodeHole(e, Separator, src) else e
    case Param(_, Filled(h)) => EncodeHole(if e.optional then EncodeHole(e, Separator, src) else e, h, src)
    case Param(name, Optional(h)) => EncodeNamed(e.(optional := true), h, name, src)
  }

  function EncodeAll(e: Encoding, ops: seq<Op>, src: Source): Encoding
    decreases |ops|
  {
    if ops == [] then e else EncodeAll(Encode(e, ops[0], src), ops[1..], src)
  }

  function EncodeStart(before: bytes, table: Table, failed: bool): Encoding {
    Encoding(Started(before, table.params), 0, 0, 0, ORIGIN, false, failed)
  }

  // The request that replaying `ops` writes after the bytes `before`, or `None` if it fails.
  function Encoded(before: bytes, ops: seq<Op>, src: Source): Option<Outcome> {
    var e := EncodeEnds(EncodeAll(EncodeStart(before, src.table, false), ops, src), src.parts, SECTIONS);
    if e.failed || e.at != |src.parts.steps| then None else Some(Outcome(e.q.out, e.q.ends, e.q.marks, e.fields))
  }

  // A request's pass reads no text of its layout: it may be run without any.
  function Skeleton(ops: seq<Op>): seq<Op> {
    if ops == [] then []
    else if ops[0].Text? then Skeleton(ops[1..])
    else [WithoutText(ops[0])] + Skeleton(ops[1..])
  }

  function WithoutText(op: Op): Op {
    match op
    case Param(_, Fixed(_)) => Param([], Fixed([]))
    case Param(_, Filled(h)) => Param([], Filled(h))
    case _ => op
  }

  lemma {:induction false} EncodingReadsNoText(e: Encoding, ops: seq<Op>, src: Source)
    ensures EncodeAll(e, ops, src) == EncodeAll(e, Skeleton(ops), src)
    decreases |ops|
  {
    hide Encode, WithoutText;
    if ops != [] {
      var f := Encode(e, ops[0], src);
      EncodingReadsNoText(f, ops[1..], src);
      if ops[0].Text? {
        TextIsNotRead(e, ops[0], src);
      } else {
        CallReadsNoText(e, ops[0], src);
        assert ([WithoutText(ops[0])] + Skeleton(ops[1..]))[1..] == Skeleton(ops[1..]);
      }
    }
  }

  lemma TextIsNotRead(e: Encoding, op: Op, src: Source)
    requires op.Text?
    ensures Encode(e, op, src) == e
  {
  }

  lemma CallReadsNoText(e: Encoding, op: Op, src: Source)
    ensures Encode(e, WithoutText(op), src) == Encode(e, op, src)
  {
    hide EncodeHole, EncodeNamed, EncodeEnds, EncodeMark;
  }

  // ---- Walking the table ----

  datatype Walking = Walking(q: Request, cursor: nat)

  // The request with the ends that the bits of `ends` name.
  function WithEnds(q: Request, ends: byte): Request {
    q.(ends := seq<nat>(SECTIONS, i requires 0 <= i < SECTIONS => if HasBit(ends, i) then |q.out| else q.ends[i]))
  }

  // Copies the run of the step `k`, fills its hole, and ends the sections that end after it.
  function WalkStep(w: Walking, k: nat, src: Source): Option<Walking>
    requires k < |src.parts.steps|
  {
    var step, text := src.parts.steps[k], src.parts.text;
    var hole := w.cursor + step.len;
    if hole > |text| then None
    else
      var q := w.q.Push(text[w.cursor..hole]);
      var filled :=
        if step.hole == NO_HOLE then Some(q)
        else if hole + step.name > |text| || HoleOfId(step.hole).None? then None
        else WithHole(q, HoleOfId(step.hole).value, text[hole..hole + step.name], src.fill, src.bodyLen);
      if filled.None? then None
      else Some(Walking(WithEnds(filled.value, step.ends), hole + step.name))
  }

  // The walk over the steps from `first` to `last`.
  function WalkTo(w: Walking, first: nat, last: nat, src: Source): Option<Walking>
    requires first <= last <= |src.parts.steps|
    decreases last - first
  {
    if first == last then Some(w)
    else
      var v := WalkTo(w, first, last - 1, src);
      if v.None? then None else WalkStep(v.value, last - 1, src)
  }

  // Where the text of the step `k` starts.
  function TextBefore(steps: seq<Step>, k: nat): nat
    requires k <= |steps|
  {
    if k == 0 then 0 else TextBefore(steps, k - 1) + steps[k - 1].len + steps[k - 1].name
  }

  function WalkStart(before: bytes, table: Table): Walking {
    Walking(Started(before, table.params), 0)
  }

  // Where the walk over the steps from `first` finds that the field lines start.
  function WalkedFields(w: Walking, first: nat, last: nat, src: Source): nat
    requires first <= last <= |src.parts.steps|
  {
    var k := src.table.fieldsStep;
    if !(first <= k < last) || WalkTo(w, first, k, src).None? then 0
    else |WalkTo(w, first, k, src).value.q.out| + Min(src.parts.steps[k].len, src.table.fieldsOffset)
  }

  // The request that walking the table writes for the sections `from..to`, after the bytes
  // `before`, with where its field lines start. Sections after those end where it does.
  function Walked(before: bytes, from: nat, to: nat, src: Source): Option<Outcome>
    requires from <= to <= SECTIONS == |src.table.counts| && src.table.StepsBefore(to) <= |src.parts.steps|
  {
    SumOfPrefix(src.table.counts[..to], from);
    assert src.table.counts[..to][..from] == src.table.counts[..from];
    var first, last := src.table.StepsBefore(from), src.table.StepsBefore(to);
    var w := Walking(Started(before, src.table.params), TextBefore(src.parts.steps, first));
    var done := WalkTo(w, first, last, src);
    if done.None? then None
    else
      var q := done.value.q.EndSections(to, SECTIONS);
      Some(Outcome(q.out, q.ends, q.marks, WalkedFields(w, first, last, src)))
  }

  // ---- The length of a body, before it is written ----

  // Whether the steps that end the table, those of the body, hold text or a hole.
  predicate HoldsBody(steps: seq<Step>, first: nat) {
    exists i :: first <= i < |steps| && (steps[i].len > 0 || steps[i].hole != NO_HOLE)
  }

  // The sum of the runs of steps without holes.
  function FixedBodyLen(steps: seq<Step>, at: nat): Option<nat>
    decreases |steps| - at
  {
    if at >= |steps| then Some(0)
    else if steps[at].hole != NO_HOLE then None
    else
      var rest := FixedBodyLen(steps, at + 1);
      if rest.None? then None else Some(steps[at].len + rest.value)
  }

  // The sum, which wraps, of the runs and the stated lengths from `at` on. The first hole without
  // a stated length makes the whole body counted by a dry walk instead.
  function FilledBodyLen(src: Source, at: nat, len: usize): Option<usize>
    requires |src.table.counts| == SECTIONS && Sum(src.table.counts) <= |src.parts.steps|
    decreases |src.parts.steps| - at
  {
    if at >= |src.parts.steps| then Some(len)
    else
      var step := src.parts.steps[at];
      var next := WrappingAdd(len, step.len + step.name);
      if step.hole == NO_HOLE then FilledBodyLen(src, at + 1, next)
      else if step.hole != HoleId(Body) then None
      else if src.fill.bodyLen.Some? then FilledBodyLen(src, at + 1, WrappingAdd(next, src.fill.bodyLen.value))
      else
        WholeTable(src.table);
        var counted := Walked([], BODY, SECTIONS, src.(bodyLen := 0));
        if counted.None? then None else Some(Min(|counted.value.out|, USIZE_MAX))
  }

  lemma WholeTable(t: Table)
    requires |t.counts| == SECTIONS
    ensures t.StepsBefore(SECTIONS) == Sum(t.counts)
  {
    assert t.counts[..SECTIONS] == t.counts;
  }

  // `src.bodyLen` is not known yet, and not read.
  function BodyLenOf(src: Source): Option<nat>
    requires |src.table.counts| == SECTIONS && Sum(src.table.counts) <= |src.parts.steps|
  {
    if !src.table.body then Some(0)
    else if !src.fill.writesBody then FixedBodyLen(src.parts.steps, src.table.StepsBefore(BODY))
    else FilledBodyLen(src, src.table.StepsBefore(BODY), 0)
  }
}
