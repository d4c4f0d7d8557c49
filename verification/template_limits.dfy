/** How building a layout ends: what `finish` counts before and after it ends the last sections. */
module TemplateLimits {
  import opened Bytes
  import opened Layouts
  import opened Tables
  import opened Passes
  import opened Builders
  import opened Encoders
  import opened TemplateHoles
  import opened TemplateMeaning
  import opened TemplateTheorems

  // ---- What a layout leaves open ----

  // Whether a call leaves its step open, where `open` says whether one was before it.
  function OpenAfter(op: Op, open: bool): bool {
    match op
    case Section(_) => false
    case Text(text) => open || text != []
    case Fill(_) => false
    case Fields => open
    case Param(_, Fixed(_)) => true
    case Param(_, _) => false
  }

  function EndsOpen(ops: seq<Op>, open: bool): bool
    decreases |ops|
  {
    if ops == [] then open else EndsOpen(ops[1..], OpenAfter(ops[0], open))
  }

  // Whether a step can hold the length of the call's name.
  predicate NameFits(op: Op) {
    op.Param? && op.value.Optional? ==> |op.name| <= 255
  }

  // ---- What each call counts ----

  // A builder that has written every text where the last one ended.
  ghost predicate IsTight(b: Building) {
    b.Ok() && b.textEnd == |b.text|
  }

  // From `b` to `c`, `n` holes and the steps that end sections were added, and nothing else closed.
  ghost predicate Counts(b: Building, c: Building, n: int) {
    && IsTight(c) && c.Closed() - c.section == b.Closed() - b.section + n
  }

  lemma CountsOn(a: Building, b: Building, c: Building, m: int, n: int)
    requires Counts(a, b, m) && Counts(b, c, n)
    ensures Counts(a, c, m + n)
  {
  }

  lemma TextIsCounted(b: Building, text: bytes)
    requires IsTight(b) && b.section < SECTIONS
    ensures
      var c := PushText(b, text);
      Counts(b, c, 0) && c.open == (b.open || text != []) && c.scattered == b.scattered && c.optional == b.optional
  {
    hide Sum;
  }

  lemma HoleIsCounted(b: Building, h: Hole)
    requires IsTight(b) && b.section < SECTIONS
    ensures
      var c := PutHole(b, h);
      Counts(b, c, 1) && c.scattered == b.scattered && c.optional == b.optional && !c.open
  {
    hide Sum, HoleId;
  }

  lemma NameIsCounted(b: Building, name: bytes)
    requires IsTight(b) && b.steps != [] && !b.open
    ensures
      var c := PutName(b, name);
      Counts(b, c, 0) && c.scattered == (b.scattered || |name| > 255) && !c.open
  {
    hide Sum;
  }

  lemma EndIsCounted(b: Building)
    requires IsTight(b) && b.section < SECTIONS
    ensures Counts(b, EndOne(b), 0) && EndOne(b).scattered == b.scattered && EndOne(b).optional == b.optional
  {
    hide Sum;
  }

  lemma {:induction false} EndsAreCounted(b: Building, until: nat)
    requires IsTight(b) && until <= SECTIONS
    ensures Counts(b, EndTo(b, until), 0) && EndTo(b, until).scattered == b.scattered
    ensures EndTo(b, until).optional == b.optional
    decreases until - b.section
  {
    hide Sum;
    if b.section < until {
      EndIsCounted(b);
      EndsAreCounted(EndOne(b), until);
      CountsOn(b, EndOne(b), EndTo(b, until), 0, 0);
    }
  }

  lemma MarkIsCounted(b: Building)
    requires IsTight(b)
    ensures Counts(b, Mark(b), 0) && Mark(b).open == b.open && Mark(b).scattered == b.scattered
    ensures Mark(b).optional == b.optional
  {
    hide Sum;
  }

  lemma SeparatorIsCounted(b: Building)
    requires IsTight(b) && b.section < SECTIONS
    ensures
      var c := PutSeparator(b);
      Counts(b, c, if b.optional then 1 else 0) && c.scattered == b.scattered && c.optional == b.optional
  {
    hide Sum, PushText, PutHole;
    var separator := if b.params == 0 then ['?' as int] else ['&' as int];
    if b.optional {
      HoleIsCounted(b, Separator);
    } else {
      TextIsCounted(b, separator);
      ParamsAreNoSteps(b, PushText(b, separator), b.params + 1);
    }
  }

  lemma ParamsAreNoSteps(b: Building, c: Building, params: nat)
    requires Counts(b, c, 0)
    ensures Counts(b, c.(params := params), 0)
  {
    hide Sum;
  }

  lemma OptionalIsNoStep(b: Building, c: Building, n: int)
    requires Counts(b, c, n)
    ensures Counts(b, c.(optional := true), n)
  {
    hide Sum;
  }

  lemma CallIsCounted(b: Building, op: Op)
    requires IsTight(b) && b.section < SECTIONS && (op.Section? ==> b.section < op.section < SECTIONS)
    ensures
      var c := Build(b, op);
      && Counts(b, c, |OpHoles(op, b.optional)|) && c.open == OpenAfter(op, b.open)
      && c.scattered == (b.scattered || !NameFits(op)) && c.optional == NowOptionalAfter(op, b.optional)
  {
    hide Sum, EndTo, PushText, PutHole, PutSeparator, PutName, Mark, Building.Ok, Counts, IsTight;
    TightIsOk(b);
    match op
    case Section(s) =>
      EndsAreCounted(b, s);
      EndedTo(b, s);
    case Text(text) => TextIsCounted(b, text);
    case Fill(h) => HoleIsCounted(b, h);
    case Fields => MarkIsCounted(b);
    case Param(name, Fixed(text)) =>
      var c := PutSeparator(b);
      SeparatorIsCounted(b);
      CountsTight(b, c, if b.optional then 1 else 0);
      TextIsCounted(c, name + EQUALS + text);
      CountsOn(b, c, PushText(c, name + EQUALS + text), if b.optional then 1 else 0, 0);
    case Param(name, Filled(h)) =>
      FilledIsCounted(b, name, h);
    case Param(name, Optional(h)) =>
      var c := PutHole(b, h);
      HoleIsCounted(b, h);
      CountsTight(b, c, 1);
      NameIsCounted(c, name);
      CountsOn(b, c, PutName(c, name), 1, 0);
      OptionalIsNoStep(b, PutName(c, name), 1);
  }

  lemma FilledIsCounted(b: Building, name: bytes, h: Hole)
    requires IsTight(b) && b.section < SECTIONS
    ensures
      var c := Build(b, Param(name, Filled(h)));
      && Counts(b, c, |OpHoles(Param(name, Filled(h)), b.optional)|) && !c.open
      && c.scattered == b.scattered && c.optional == b.optional
  {
    hide Sum, PushText, PutHole, PutSeparator, Building.Ok, Counts, IsTight;
    TightIsOk(b);
    var n := if b.optional then 1 else 0;
    var c := PutSeparator(b);
    SeparatorIsCounted(b);
    CountsTight(b, c, n);
    var d := PushText(c, name + EQUALS);
    TextIsCounted(c, name + EQUALS);
    CountsTight(c, d, 0);
    HoleIsCounted(d, h);
    CountsOn(b, c, d, n, 0);
    CountsOn(b, d, PutHole(d, h), n, 1);
  }

  lemma TightIsOk(b: Building)
    requires IsTight(b)
    ensures b.Ok()
  {
  }

  lemma CountsTight(b: Building, c: Building, n: int)
    requires Counts(b, c, n)
    ensures IsTight(c) && c.Ok()
  {
  }

  // ---- Whole layouts ----

  lemma {:induction false} LayoutIsCounted(b: Building, ops: seq<Op>)
    requires IsTight(b) && b.section < SECTIONS && InOrder(ops, b.section)
    ensures
      var c := BuildAll(b, ops);
      && Counts(b, c, |HolesBefore(ops, SECTIONS, b.section, b.optional)|) && c.open == EndsOpen(ops, b.open)
      && c.scattered == (b.scattered || exists op :: op in ops && !NameFits(op))
      && c.section == SectionAfter(ops, b.section)
    decreases |ops|
  {
    hide Build, Sum, Building.Ok, Counts, IsTight, OpHoles, OpenAfter, NameFits;
    if ops == [] {
      NothingCounted(b);
    } else {
      TightIsOk(b);
      var c := Build(b, ops[0]);
      CallIsCounted(b, ops[0]);
      CountsTight(b, c, |OpHoles(ops[0], b.optional)|);
      LayoutIsCounted(c, ops[1..]);
      CountsOn(b, c, BuildAll(b, ops), |OpHoles(ops[0], b.optional)|,
               |HolesBefore(ops[1..], SECTIONS, c.section, c.optional)|);
      assert ops == [ops[0]] + ops[1..];
    }
  }

  lemma NothingCounted(b: Building)
    requires IsTight(b)
    ensures Counts(b, b, 0)
  {
  }

  // The number of holes of a layout.
  function HoleCount(ops: seq<Op>): nat { |HolesBefore(ops, SECTIONS, ORIGIN, false)| }

  // The steps of a layout before its last sections end.
  function StepCount(ops: seq<Op>): nat {
    HoleCount(ops) + SectionAfter(ops, ORIGIN) + if EndsOpen(ops, false) then 1 else 0
  }

  lemma StepsAreCounted(ops: seq<Op>, stash: bytes)
    requires InOrder(ops, ORIGIN)
    ensures
      var b := Prepared(ops, stash);
      && |b.steps| == StepCount(ops) && b.section == SectionAfter(ops, ORIGIN) && b.open == EndsOpen(ops, false)
      && (b.scattered <==> exists op :: op in ops && !NameFits(op))
  {
    hide BuildAll, Sum, NameFits, HolesBefore, SectionAfter, EndsOpen;
    NothingBuiltIsOk();
    LayoutIsCounted(NOTHING_BUILT, ops);
  }

  // `finish` indexes past its table exactly for a layout whose names fit and whose steps fit the
  // table before its last sections end, but not with one step more for each section than it has
  // holes. It refuses a layout that has too many steps before that, and one with a longer name.
  lemma LayoutPanicsExactly(ops: seq<Op>, stash: bytes, room: nat)
    requires InOrder(ops, ORIGIN)
    ensures
      var r := FinishOf(Prepared(ops, stash), room);
      && (r.Panics? <==>
           (forall op :: op in ops ==> NameFits(op)) && StepCount(ops) <= MAX_STEPS < HoleCount(ops) + SECTIONS)
      && (StepCount(ops) > MAX_STEPS ==> r == Refused(RequestTooLarge))
      && (StepCount(ops) <= MAX_STEPS && (exists op :: op in ops && !NameFits(op)) ==> r == Refused(TemplateFault))
  {
    hide Sum, Prepared, EndTo, NameFits, HoleCount, EndsOpen, SectionAfter, EncodeSteps, FixedUrl, Fingerprint;
    StepsAreCounted(ops, stash);
    FinishPanicsExactly(Prepared(ops, stash), room);
    EndedTo(Prepared(ops, stash), SECTIONS);
  }

  // A buffer as long as the room that preparing asks for is enough for the template.
  lemma PreparingRoomIsEnough(b: Building, room: nat, other: nat)
    requires b.Ok() && FinishOf(b, room).Refused? && FinishOf(b, room).error.Capacity?
    ensures
      var required := FinishOf(b, room).error.required;
      && room < required
      && (other >= required ==> FinishOf(b, other).Done? || FinishOf(b, other) == Refused(RequestTooLarge))
      && (other < required ==> FinishOf(b, other) == FinishOf(b, room))
  {
    hide EndTo, Sum, EncodeSteps, FixedUrl, Fingerprint;
  }
}
