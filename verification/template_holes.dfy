/** The holes of a template's steps are those of its layout, section by section. */
module TemplateHoles {
  import opened Bytes
  import opened Layouts
  import opened Tables
  import opened Passes
  import opened TemplateCorrectness

  // ---- The holes of a layout ----

  // The holes that one call writes, with its separator once an optional parameter has come.
  function OpHoles(op: Op, optional: bool): seq<Hole> {
    match op
    case Fill(h) => [h]
    case Param(_, Fixed(_)) => if optional then [Separator] else []
    case Param(_, Filled(h)) => (if optional then [Separator] else []) + [h]
    case Param(_, Optional(h)) => [h]
    case _ => []
  }

  predicate NowOptionalAfter(op: Op, optional: bool) {
    optional || (op.Param? && op.value.Optional?)
  }

  function SectionOf(op: Op, at: nat): nat {
    if op.Section? then op.section else at
  }

  // The holes that a layout writes in the sections before `until`, in order, where `at` is its
  // section and `optional` says whether an optional parameter has come.
  function HolesBefore(ops: seq<Op>, until: nat, at: nat, optional: bool): seq<Hole>
    decreases |ops|
  {
    if ops == [] then []
    else
      (if at < until then OpHoles(ops[0], optional) else [])
      + HolesBefore(ops[1..], until, SectionOf(ops[0], at), NowOptionalAfter(ops[0], optional))
  }

  // The number of holes that it writes in `section`.
  function HolesIn(ops: seq<Op>, section: nat, at: nat, optional: bool): nat
    decreases |ops|
  {
    if ops == [] then 0
    else
      (if at == section then |OpHoles(ops[0], optional)| else 0)
      + HolesIn(ops[1..], section, SectionOf(ops[0], at), NowOptionalAfter(ops[0], optional))
  }

  lemma {:induction false} HolesOfOneMore(ops: seq<Op>, section: nat, at: nat, optional: bool)
    ensures |HolesBefore(ops, section + 1, at, optional)|
         == |HolesBefore(ops, section, at, optional)| + HolesIn(ops, section, at, optional)
    decreases |ops|
  {
    hide OpHoles;
    if ops != [] {
      HolesOfOneMore(ops[1..], section, SectionOf(ops[0], at), NowOptionalAfter(ops[0], optional));
    }
  }

  // ---- The holes of steps ----

  function HoleOf(s: Step): seq<byte> {
    if s.hole == NO_HOLE then [] else [s.hole]
  }

  // The numbers of the holes after a run of steps.
  function StepHoles(steps: seq<Step>): seq<byte> {
    if steps == [] then [] else StepHoles(steps[..|steps| - 1]) + HoleOf(steps[|steps| - 1])
  }

  function Ids(holes: seq<Hole>): (ids: seq<byte>)
    ensures |ids| == |holes|
  {
    seq(|holes|, i requires 0 <= i < |holes| => HoleId(holes[i]))
  }

  lemma IdsJoin(a: seq<Hole>, b: seq<Hole>)
    ensures Ids(a + b) == Ids(a) + Ids(b)
  {
    hide HoleId;
  }

  lemma OneStepMore(steps: seq<Step>, s: Step)
    ensures StepHoles(steps + [s]) == StepHoles(steps) + HoleOf(s)
  {
    assert (steps + [s])[..|steps|] == steps;
  }

  // Only the holes of the steps matter.
  lemma {:induction false} SameHoles(a: seq<Step>, b: seq<Step>)
    requires |a| == |b| && forall i :: 0 <= i < |a| ==> a[i].hole == b[i].hole
    ensures StepHoles(a) == StepHoles(b)
  {
    if a != [] {
      SameHoles(a[..|a| - 1], b[..|b| - 1]);
    }
  }

  // Steps from `n` on hold a hole exactly if they add one.
  lemma {:induction false} HolesFrom(steps: seq<Step>, n: nat)
    requires n <= |steps|
    ensures |StepHoles(steps)| >= |StepHoles(steps[..n])|
    ensures |StepHoles(steps)| > |StepHoles(steps[..n])| <==> exists k :: n <= k < |steps| && steps[k].hole != NO_HOLE
  {
    if n == |steps| {
      assert steps[..n] == steps;
    } else {
      var front, last := steps[..|steps| - 1], |steps| - 1;
      HolesFrom(front, n);
      assert front[..n] == steps[..n];
      assert forall k :: n <= k < last ==> front[k] == steps[k];
      if steps[last].hole == NO_HOLE {
        assert (exists k :: n <= k < last && front[k].hole != NO_HOLE)
          <==> exists k :: n <= k < |steps| && steps[k].hole != NO_HOLE;
      }
    }
  }

  // A hole after a step is one of theirs.
  lemma {:induction false} HoleIsListed(steps: seq<Step>, k: nat)
    requires k < |steps| && steps[k].hole != NO_HOLE
    ensures steps[k].hole in StepHoles(steps)
  {
    if k < |steps| - 1 {
      HoleIsListed(steps[..|steps| - 1], k);
    }
  }

  // ---- What each call adds ----

  // How many steps come before the section `until`.
  function StepsOf(b: Building, until: nat): nat
    requires until <= SECTIONS
  {
    Sum(b.counts[..until])
  }

  lemma StepsAreBuilt(b: Building, until: nat)
    requires b.Ok() && until <= SECTIONS
    ensures StepsOf(b, until) <= |b.steps|
    ensures b.section < until ==> StepsOf(b, until) == |b.steps|
  {
    SumOfPrefix(b.counts, until);
    if b.section < until {
      SumOfZeros(b.counts, until);
    }
  }

  // The numbers of the holes in the sections before `until`.
  function Before(b: Building, until: nat): seq<byte>
    requires b.Ok() && until <= SECTIONS
  {
    StepsAreBuilt(b, until);
    StepHoles(b.steps[..StepsOf(b, until)])
  }

  // `c` has the steps of `b` and then `s`, in the section of `b`.
  ghost predicate Adds(b: Building, c: Building, s: Step) {
    && b.section < SECTIONS && c.section == b.section && c.steps == b.steps + [s]
    && c.counts == b.counts[b.section := b.counts[b.section] + 1]
  }

  lemma AddedHoles(b: Building, c: Building, s: Step, until: nat)
    requires b.Ok() && c.Ok() && until <= SECTIONS && Adds(b, c, s)
    ensures Before(c, until) == Before(b, until) + (if b.section < until then HoleOf(s) else [])
  {
    hide Sum, StepHoles;
    StepsAreBuilt(b, until);
    StepsAreBuilt(c, until);
    if b.section < until {
      assert b.steps[..StepsOf(b, until)] == b.steps && c.steps[..StepsOf(c, until)] == c.steps;
      OneStepMore(b.steps, s);
    } else {
      assert c.counts[..until] == b.counts[..until];
      assert c.steps[..StepsOf(c, until)] == b.steps[..StepsOf(b, until)];
    }
  }

  // Two that differ in no hole.
  lemma SameBefore(b: Building, c: Building, until: nat)
    requires b.Ok() && c.Ok() && until <= SECTIONS && c.counts == b.counts && |c.steps| == |b.steps|
    requires forall i :: 0 <= i < |b.steps| ==> c.steps[i].hole == b.steps[i].hole
    ensures Before(c, until) == Before(b, until)
  {
    hide Sum, StepHoles;
    StepsAreBuilt(b, until);
    SameHoles(c.steps[..StepsOf(c, until)], b.steps[..StepsOf(b, until)]);
  }

  lemma TextAddsNoHole(b: Building, text: bytes, until: nat)
    requires b.Ok() && b.section < SECTIONS && until <= SECTIONS
    ensures Before(PushText(b, text), until) == Before(b, until) && PushText(b, text).optional == b.optional
  {
    hide Sum, StepHoles, Before;
    var c := PushText(b, text);
    if text == [] || b.open {
      SameBefore(b, c, until);
    } else {
      AddedHoles(b, c, Step(|text|, NO_HOLE, 0, 0), until);
    }
  }

  lemma HoleAddsItself(b: Building, h: Hole, until: nat)
    requires b.Ok() && b.section < SECTIONS && until <= SECTIONS
    ensures Before(PutHole(b, h), until) == Before(b, until) + (if b.section < until then [HoleId(h)] else [])
    ensures PutHole(b, h).optional == b.optional
  {
    hide Sum, StepHoles, HoleId, Before;
    var c := PutHole(b, h);
    if b.open {
      FilledLast(b, c, h, until);
    } else {
      AddedHoles(b, c, Step(0, HoleId(h), 0, 0), until);
    }
  }

  // The open step is the last one of the current section.
  lemma FilledLast(b: Building, c: Building, h: Hole, until: nat)
    requires b.Ok() && c.Ok() && b.open && until <= SECTIONS && c.counts == b.counts && c.section == b.section
    requires c.steps == b.steps[|b.steps| - 1 := b.Last().(hole := HoleId(h))]
    ensures Before(c, until) == Before(b, until) + (if b.section < until then [HoleId(h)] else [])
  {
    hide Sum, StepHoles, HoleId;
    var front := b.steps[..|b.steps| - 1];
    StepsAreBuilt(b, until);
    StepsAreBuilt(c, until);
    if b.section < until {
      assert b.steps == front + [b.Last()] && c.steps == front + [c.Last()];
      assert b.steps[..StepsOf(b, until)] == b.steps && c.steps[..StepsOf(c, until)] == c.steps;
      OneStepMore(front, b.Last());
      OneStepMore(front, c.Last());
    } else {
      OpenIsLater(b, until);
      assert c.steps[..StepsOf(c, until)] == b.steps[..StepsOf(b, until)];
    }
  }

  lemma OpenIsLater(b: Building, until: nat)
    requires b.Ok() && b.open && until <= b.section
    ensures StepsOf(b, until) < |b.steps|
  {
    SumOfZeros(b.counts, b.section + 1);
    SumOfPrefix(b.counts[..b.section], until);
    assert b.counts[..b.section][..until] == b.counts[..until];
    assert b.counts[..b.section + 1][..b.section] == b.counts[..b.section];
  }

  lemma NameAddsNoHole(b: Building, name: bytes, until: nat)
    requires b.Ok() && b.steps != [] && !b.open && until <= SECTIONS
    ensures Before(PutName(b, name), until) == Before(b, until)
  {
    hide Sum, StepHoles, Before;
    SameBefore(b, PutName(b, name), until);
  }

  lemma EndAddsNoHole(b: Building, until: nat)
    requires b.Ok() && b.section < SECTIONS && until <= SECTIONS
    ensures Before(EndOne(b), until) == Before(b, until)
  {
    hide Sum, StepHoles;
    var c := EndOne(b);
    if b.open {
      SameBefore(b, c, until);
    } else {
      StepsAreBuilt(b, until);
      StepsAreBuilt(c, until);
      EndedSteps(b, until);
      SameHoles(c.steps[..StepsOf(c, until)], (b.steps + [EMPTY_STEP])[..StepsOf(c, until)]);
      OneStepMore(b.steps, EMPTY_STEP);
      assert (b.steps + [EMPTY_STEP])[..StepsOf(b, until)] == b.steps[..StepsOf(b, until)];
      assert b.section < until ==> (b.steps + [EMPTY_STEP])[..StepsOf(c, until)] == b.steps + [EMPTY_STEP];
      assert b.section < until ==> b.steps[..StepsOf(b, until)] == b.steps;
    }
  }

  lemma EndedSteps(b: Building, until: nat)
    requires b.Ok() && b.section < SECTIONS && until <= SECTIONS && !b.open
    ensures StepsOf(EndOne(b), until) == StepsOf(b, until) + (if b.section < until then 1 else 0)
    ensures b.section < until ==> StepsOf(b, until) == |b.steps|
    ensures |EndOne(b).steps| == |b.steps| + 1
    ensures forall i :: 0 <= i < |b.steps| ==> EndOne(b).steps[i].hole == b.steps[i].hole
    ensures EndOne(b).steps[|b.steps|].hole == NO_HOLE
  {
    StepsAreBuilt(b, until);
    if b.section < until {
      assert EndOne(b).counts[..until] == b.counts[..until][b.section := b.counts[b.section] + 1];
      SumUpdate(b.counts[..until], b.section, b.counts[b.section] + 1);
    } else {
      assert EndOne(b).counts[..until] == b.counts[..until];
    }
  }

  lemma {:induction false} EndsAddNoHole(b: Building, end: nat, until: nat)
    requires b.Ok() && end <= SECTIONS && until <= SECTIONS
    ensures Before(EndTo(b, end), until) == Before(b, until) && EndTo(b, end).optional == b.optional
    decreases end - b.section
  {
    hide Sum, Before;
    if b.section < end {
      EndAddsNoHole(b, until);
      EndKeepsOptional(b);
      EndsAddNoHole(EndOne(b), end, until);
    }
  }

  lemma EndKeepsOptional(b: Building)
    requires b.Ok() && b.section < SECTIONS
    ensures EndOne(b).optional == b.optional
  {
  }

  lemma SeparatorAdds(b: Building, until: nat)
    requires b.Ok() && b.section < SECTIONS && until <= SECTIONS
    ensures Before(PutSeparator(b), until)
         == Before(b, until) + (if b.section < until && b.optional then [HoleId(Separator)] else [])
    ensures PutSeparator(b).optional == b.optional
  {
    hide Sum, Before, PushText, PutHole, HoleId;
    if b.optional {
      HoleAddsItself(b, Separator, until);
    } else {
      var separator := if b.params == 0 then ['?' as int] else ['&' as int];
      TextAddsNoHole(b, separator, until);
      CountsAddNoHole(PushText(b, separator), b.params + 1, b.optional, until);
    }
  }

  lemma CountsAddNoHole(b: Building, params: nat, optional: bool, until: nat)
    requires b.Ok() && until <= SECTIONS
    ensures b.(params := params).Ok() && Before(b.(params := params), until) == Before(b, until)
    ensures b.(optional := optional).Ok() && Before(b.(optional := optional), until) == Before(b, until)
  {
    hide Sum, StepHoles;
  }

  lemma MarkAddsNoHole(b: Building, until: nat)
    requires b.Ok() && until <= SECTIONS
    ensures Before(Mark(b), until) == Before(b, until) && Mark(b).optional == b.optional
  {
    hide Sum, StepHoles;
  }

  // What a call adds in numbers.
  function Numbers(op: Op, optional: bool): seq<byte> { Ids(OpHoles(op, optional)) }

  lemma NumbersOf(op: Op, optional: bool)
    ensures Numbers(op, optional) ==
      match op
      case Fill(h) => [HoleId(h)]
      case Param(_, Fixed(_)) => if optional then [HoleId(Separator)] else []
      case Param(_, Filled(h)) => (if optional then [HoleId(Separator)] else []) + [HoleId(h)]
      case Param(_, Optional(h)) => [HoleId(h)]
      case _ => []
  {
    hide HoleId;
  }

  lemma CallAddsItsHoles(b: Building, op: Op, until: nat)
    requires b.Ok() && b.section < SECTIONS && (op.Section? ==> b.section < op.section < SECTIONS) && until <= SECTIONS
    ensures Before(Build(b, op), until)
         == Before(b, until) + (if b.section < until then Numbers(op, b.optional) else [])
    ensures Build(b, op).optional == NowOptionalAfter(op, b.optional)
  {
    hide Sum, Before, EndTo, PushText, PutHole, PutSeparator, PutName, Mark, Building.Ok, HoleId, Numbers;
    NumbersOf(op, b.optional);
    match op
    case Section(s) => EndsAddNoHole(b, s, until);
    case Text(text) => TextAddsNoHole(b, text, until);
    case Fill(h) => HoleAddsItself(b, h, until);
    case Fields => MarkAddsNoHole(b, until);
    case Param(name, Fixed(text)) =>
      SeparatorAdds(b, until);
      TextAddsNoHole(PutSeparator(b), name + EQUALS + text, until);
    case Param(name, Filled(h)) =>
      SeparatorAdds(b, until);
      TextAddsNoHole(PutSeparator(b), name + EQUALS, until);
      HoleAddsItself(PushText(PutSeparator(b), name + EQUALS), h, until);
    case Param(name, Optional(h)) =>
      HoleAddsItself(b, h, until);
      NameAddsNoHole(PutHole(b, h), name, until);
      CountsAddNoHole(PutNamed(b, h, name), 0, true, until);
  }

  lemma {:induction false} LayoutAddsItsHoles(b: Building, ops: seq<Op>, until: nat)
    requires b.Ok() && b.section < SECTIONS && InOrder(ops, b.section) && until <= SECTIONS
    ensures Before(EndTo(BuildAll(b, ops), SECTIONS), until)
         == Before(b, until) + Ids(HolesBefore(ops, until, b.section, b.optional))
    decreases |ops|
  {
    hide Build, EndTo, Sum, Building.Ok, Before, OpHoles, Ids;
    if ops == [] {
      EndsAddNoHole(b, SECTIONS, until);
      NoIds();
    } else {
      CallAddsItsHoles(b, ops[0], until);
      LayoutAddsItsHoles(Build(b, ops[0]), ops[1..], until);
      var here := if b.section < until then OpHoles(ops[0], b.optional) else [];
      NoIds();
      IdsJoin(here, HolesBefore(ops[1..], until, SectionOf(ops[0], b.section), NowOptionalAfter(ops[0], b.optional)));
    }
  }

  lemma NoIds()
    ensures Ids([]) == []
  {
  }

  // The steps of a template's sections before `until` hold the layout's holes, in order.
  lemma StepsHoldTheirHoles(ops: seq<Op>, until: nat)
    requires InOrder(ops, ORIGIN) && until <= SECTIONS
    ensures Sum(Template(ops).counts[..until]) <= |Template(ops).steps|
    ensures StepHoles(Template(ops).steps[..Sum(Template(ops).counts[..until])])
         == Ids(HolesBefore(ops, until, ORIGIN, false))
  {
    NothingBuiltIsOk();
    StepsAreBuilt(NOTHING_BUILT, until);
    LayoutAddsItsHoles(NOTHING_BUILT, ops, until);
    StepsAreBuilt(Template(ops), until);
    assert Before(NOTHING_BUILT, until) == [];
  }

  // The steps of the body hold a hole exactly if its layout writes one there.
  lemma BodyHoldsHole(ops: seq<Op>)
    requires InOrder(ops, ORIGIN)
    ensures
      var f := Template(ops);
      (exists k :: Sum(f.counts[..BODY]) <= k < |f.steps| && f.steps[k].hole != NO_HOLE)
      <==> HolesIn(ops, BODY, ORIGIN, false) > 0
  {
    hide Sum, Template, HolesBefore, Ids, StepHoles;
    var f := Template(ops);
    StepsHoldTheirHoles(ops, BODY);
    StepsHoldTheirHoles(ops, SECTIONS);
    HolesOfOneMore(ops, BODY, ORIGIN, false);
    HolesFrom(f.steps, Sum(f.counts[..BODY]));
    assert f.counts[..SECTIONS] == f.counts;
    assert f.steps[..|f.steps|] == f.steps;
  }
}
