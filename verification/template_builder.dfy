/** The class that compiles a layout, and what `finish` makes of it. */
module Builders {
  import opened Bytes
  import opened Layouts
  import opened Tables
  import opened Passes
  import opened Requests

  datatype Error = RequestTooLarge | TemplateFault | Capacity(required: nat)

  datatype Result<+T> = Ok(value: T) | Err(error: Error)

  // Asks for the room required, where a slice can have it.
  function CapacityError(required: nat): Error {
    if required > ISIZE_MAX then RequestTooLarge else Capacity(required)
  }

  // How `finish` ends. `Panics` is an index past the table of steps: the count of steps is
  // checked before the last sections end, and each of those adds a step.
  datatype Finished = Done(table: Table) | Refused(error: Error) | Panics

  // A step as the table holds it: lengths are of 32 bits.
  function Wrapped(s: Step): Step {
    s.(len := s.len % U32_LIMIT)
  }

  lemma {:induction false} AtMostSum(counts: seq<nat>, k: nat)
    requires k < |counts|
    ensures counts[k] <= Sum(counts)
  {
    if k < |counts| - 1 {
      AtMostSum(counts[..|counts| - 1], k);
    }
  }

  // ---- What a template holds ----

  function FixedUrl(steps: seq<Step>): nat {
    if steps == [] then 0 else FixedUrl(steps[..|steps| - 1]) + steps[|steps| - 1].len + steps[|steps| - 1].name
  }

  // The bytes of the template that `f` is built as: its text, then its table.
  function ImageOf(f: Building): (image: bytes)
    ensures |image| == |f.text| + STEP_LEN * |f.steps|
  {
    f.text + EncodeSteps(f.steps)
  }

  function TableOf(f: Building): Table
    requires f.Ok() && |f.steps| <= MAX_STEPS
  {
    SumOfPrefix(f.counts, HEAD);
    SumOfPrefix(f.counts, BODY);
    CountsFit(f);
    Table(
      |f.text|, f.counts, |f.steps|, Min(f.params, 255), |ImageOf(f)|,
      FixedUrl(f.steps[..Sum(f.counts[..HEAD])]), f.fieldsStep, f.fieldsOffset,
      HoldsBody(f.steps, |f.steps| - f.counts[BODY]), Fingerprint(ImageOf(f)))
  }

  lemma CountsFit(f: Building)
    requires f.Ok()
    ensures forall i :: 0 <= i < SECTIONS ==> f.counts[i] <= |f.steps|
  {
    forall i | 0 <= i < SECTIONS ensures f.counts[i] <= |f.steps| {
      AtMostSum(f.counts, i);
    }
  }

  // How `finish` ends for what `b` holds, in a buffer of `room` bytes.
  function FinishOf(b: Building, room: nat): Finished
    requires b.Ok()
  {
    var f := EndTo(b, SECTIONS);
    if |b.steps| > MAX_STEPS then Refused(RequestTooLarge)
    else if f.scattered then Refused(TemplateFault)
    else if |f.steps| > MAX_STEPS then Panics
    else if |ImageOf(f)| > room then Refused(CapacityError(|ImageOf(f)|))
    else if |ImageOf(f)| >= U32_LIMIT then Refused(RequestTooLarge)
    else Done(TableOf(f))
  }

  // ---- The pass ----

  lemma WrapsOnce(m: nat, n: nat)
    ensures (m % U32_LIMIT + n % U32_LIMIT) % U32_LIMIT == (m + n) % U32_LIMIT
  {
  }

  // What adding text leaves as it is.
  lemma PushedText(b: Building, text: bytes)
    requires b.Ok() && b.section < SECTIONS
    ensures
      var d := PushText(b, text);
      && d.Ok() && d.text == b.text + text && d.section == b.section && d.optional == b.optional && d.params == b.params
      && (text == [] ==> d == b)
  {
    hide Sum;
  }

  lemma HoldsName(b: Building, name: bytes, count: nat, steps: seq<Step>, counts: seq<byte>, textEnd: nat,
                  scattered: bool, fieldsStep: byte, fieldsOffset: nat)
    requires b.Ok() && b.steps != [] && !b.open && count > 0
    requires Holds(b, count, steps, counts, textEnd, scattered, fieldsStep, fieldsOffset)
    ensures
      var named := if count <= |steps| then steps[count - 1 := steps[count - 1].(name := |name| % 256)] else steps;
      Holds(PutName(b, name), count, named, counts, |b.text| + |name|, scattered || |b.text| != textEnd || |name| > 255,
            fieldsStep, fieldsOffset)
  {
    hide Sum;
  }

  // What adding a name leaves as it is.
  lemma NameKeeps(b: Building, name: bytes)
    requires b.Ok() && b.steps != [] && !b.open
    ensures
      var c := PutName(b, name);
      && c.Ok() && !c.open && c.text == b.text + name
      && c.section == b.section && c.optional == b.optional && c.params == b.params
  {
    hide Sum;
  }

  lemma HoldsMark(b: Building, count: nat, steps: seq<Step>, counts: seq<byte>, textEnd: nat, scattered: bool,
                  fieldsStep: byte, fieldsOffset: nat)
    requires b.Ok() && count <= MAX_STEPS
    requires Holds(b, count, steps, counts, textEnd, scattered, fieldsStep, fieldsOffset)
    ensures b.open ==> count > 0
    ensures Holds(Mark(b), count, steps, counts, textEnd, scattered,
                  if b.open then count - 1 else count, if b.open then steps[count - 1].len else 0)
  {
    hide Sum;
  }

  // Past the table's bound, only the count is left.
  lemma HoldsPast(b: Building, count: nat, steps: seq<Step>, counts: seq<byte>, textEnd: nat, scattered: bool,
                  fieldsStep: byte, fieldsOffset: nat)
    requires b.Ok() && count > MAX_STEPS && Holds(b, count, steps, counts, textEnd, scattered, fieldsStep, fieldsOffset)
    ensures forall step: byte, offset: nat :: Holds(Mark(b), count, steps, counts, textEnd, scattered, step, offset)
  {
    hide Sum;
  }

  // What marking the fields leaves as it is.
  lemma MarkKeeps(b: Building)
    requires b.Ok()
    ensures
      var c := Mark(b);
      && c.Ok() && c.open == b.open && c.text == b.text
      && c.section == b.section && c.optional == b.optional && c.params == b.params
  {
    hide Sum;
  }

  // What adding a hole leaves as it is.
  lemma HoleKeeps(b: Building, h: Hole)
    requires b.Ok() && b.section < SECTIONS
    ensures
      var c := PutHole(b, h);
      && c.Ok() && !c.open && c.steps != []
      && c.text == b.text && c.section == b.section && c.optional == b.optional && c.params == b.params
  {
    hide Sum;
  }

  // What the builder's fields say of `m` while its steps are not too many for the table.
  ghost predicate Holds(m: Building, count: nat, steps: seq<Step>, counts: seq<byte>, textEnd: nat, scattered: bool,
                        fieldsStep: byte, fieldsOffset: nat)
  {
    && |steps| == MAX_STEPS && |counts| == SECTIONS
    && (count > MAX_STEPS ==> |m.steps| > MAX_STEPS)
    && (count <= MAX_STEPS ==>
         && count == |m.steps|
         && (forall i :: 0 <= i < count ==> steps[i] == Wrapped(m.steps[i]))
         && (forall i :: 0 <= i < SECTIONS ==> counts[i] == m.counts[i])
         && textEnd == m.textEnd && scattered == m.scattered
         && fieldsStep == m.fieldsStep && fieldsOffset == m.fieldsOffset % U32_LIMIT)
  }

  lemma HoldsText(b: Building, text: bytes, count: nat, steps: seq<Step>, counts: seq<byte>, textEnd: nat,
                  scattered: bool,
                  fieldsStep: byte, fieldsOffset: nat)
    requires Holds(b, count, steps, counts, textEnd, scattered, fieldsStep, fieldsOffset)
    ensures Holds(WithText(b, text), count, steps, counts, |b.text| + |text|, scattered || |b.text| != textEnd,
                  fieldsStep, fieldsOffset)
  {
  }

  class Builder {
    const out: Writer
    const steps: array<Step>
    var count: nat
    var counts: seq<byte>
    var section: nat
    var open: bool
    var textEnd: nat
    var scattered: bool
    var fieldsStep: byte
    var fieldsOffset: nat
    var params: byte
    var optional: bool
    // What the calls so far build, in numbers without bounds.
    ghost var model: Building

    // The fields hold what `m` holds. `open` and `section` are left to the caller.
    ghost predicate Tracks(m: Building)
      reads this, steps
    {
      Holds(m, count, steps[..], counts, textEnd, scattered, fieldsStep, fieldsOffset)
    }

    ghost predicate Valid()
      reads this, steps, out, out.buffer
    {
      && out.Valid() && model.Ok() && out.text == model.text
      && section == model.section < SECTIONS && optional == model.optional && params == Min(model.params, 255)
      && steps.Length == MAX_STEPS && |counts| == SECTIONS && (open ==> count > 0)
      && (out.position < USIZE_MAX ==> Tracks(model) && (count <= MAX_STEPS ==> open == model.open))
    }

    constructor (buffer: array<byte>)
      requires buffer.Length <= ISIZE_MAX
      ensures Valid() && fresh(out) && fresh(steps) && out.buffer == buffer && model == NOTHING_BUILT
    {
      out := new Writer(buffer);
      steps := new Step[MAX_STEPS](i => EMPTY_STEP);
      count, counts, section, open := 0, [0, 0, 0, 0, 0, 0], ORIGIN, false;
      textEnd, scattered, fieldsStep, fieldsOffset := 0, false, 255, 0;
      params, optional := 0, false;
      model := NOTHING_BUILT;
      new;
      NothingBuiltIsOk();
    }

    // The count of parameters is none of what `Tracks` holds.
    lemma TracksParams(m: Building, n: nat)
      ensures Tracks(m) <==> Tracks(m.(params := n))
      ensures m.Ok() <==> m.(params := n).Ok()
    {
    }

    // Adds a step to a section. A step past the table's bound is only counted.
    method PushIn(s: nat, step: Step, ghost m: Building, ghost exact: Step)
      requires s < SECTIONS && steps.Length == MAX_STEPS && |counts| == SECTIONS
      requires out.position < USIZE_MAX ==> m.Ok() && Tracks(m) && step == Wrapped(exact)
      modifies this`count, this`counts, steps
      ensures count == old(count) + 1 && |counts| == SECTIONS
      ensures out.position < USIZE_MAX && s == m.section ==> Tracks(m.PushStep(exact))
    {
      if count < steps.Length {
        steps[count] := step;
      }
      count := count + 1;
      if out.position < USIZE_MAX && count <= MAX_STEPS {
        AtMostSum(m.counts, s);
      }
      counts := counts[s := if counts[s] < 255 then counts[s] + 1 else 255];
    }

    // Makes the run of the last step longer.
    method ExtendLast(len: nat, ghost m: Building)
      requires steps.Length == MAX_STEPS && count > 0
      requires out.position < USIZE_MAX ==> m.Ok() && Tracks(m)
      modifies steps
      ensures out.position < USIZE_MAX && m.steps != [] ==> Tracks(m.WithLast(m.Last().(len := m.Last().len + len)))
    {
      hide Sum;
      if count <= steps.Length {
        var last := steps[count - 1];
        steps[count - 1] := last.(len := (last.len + len % U32_LIMIT) % U32_LIMIT);
        if m.steps != [] {
          WrapsOnce(m.Last().len, len);
        }
      }
    }

    // The step of a text that the builder has written and counted.
    method AddRun(len: nat, ghost b: Building, ghost text: bytes)
      requires steps.Length == MAX_STEPS && |counts| == SECTIONS && section < SECTIONS && (open ==> count > 0)
      requires b.Ok() && section == b.section && text != []
      requires out.position < USIZE_MAX ==>
                 len == |text| && Tracks(WithText(b, text)) && (count <= MAX_STEPS ==> open == b.open)
      modifies this`count, this`counts, this`open, steps
      ensures |counts| == SECTIONS && count > 0 && open
      ensures out.position < USIZE_MAX ==> Tracks(PushText(b, text)) && PushText(b, text).open
    {
      hide Sum;
      if open {
        ExtendLast(len, WithText(b, text));
      } else {
        PushIn(section, Step(len % U32_LIMIT, NO_HOLE, 0, 0), WithText(b, text), Step(len, NO_HOLE, 0, 0));
        open := true;
      }
    }

    // Appends text, and returns where it starts and how much of it was counted.
    method Append(text: bytes) returns (start: nat, len: nat)
      requires out.Valid()
      modifies out, out.buffer
      ensures out.Valid() && out.text == old(out.text) + text
      ensures start == old(out.position) && out.position == start + len && len <= |text|
      ensures out.position < USIZE_MAX ==> start == |old(out.text)| && len == |text|
    {
      start := out.position;
      out.Push(text);
      len := out.position - start;
    }

    // Text extends the last step while that is open, and else starts a step.
    method AddText(text: bytes)
      requires Valid()
      modifies this, steps, out, out.buffer
      ensures Valid() && model == PushText(old(model), text)
    {
      hide Sum, PushText, Holds, Building.Ok, Writer.Valid;
      ghost var b := model;
      var start, len := Append(text);
      model := PushText(b, text);
      PushedText(b, text);
      if len == 0 { return; }
      scattered := scattered || start != textEnd;
      textEnd := start + len;
      if out.position < USIZE_MAX {
        HoldsText(b, text, count, steps[..], counts, old(textEnd), old(scattered), fieldsStep, fieldsOffset);
      }
      AddRun(len, b, text);
    }

    // Puts a hole after the run of the last step.
    method FillLast(h: Hole, ghost m: Building)
      requires 0 < count <= steps.Length == MAX_STEPS
      requires out.position < USIZE_MAX ==> m.Ok() && Tracks(m) && m.open
      modifies steps
      ensures out.position < USIZE_MAX ==> Tracks(m.WithLast(m.Last().(hole := HoleId(h))))
    {
      hide Sum, HoleId;
      steps[count - 1] := steps[count - 1].(hole := HoleId(h));
    }

    // The step of a hole.
    method AddHoleStep(h: Hole, ghost b: Building)
      requires steps.Length == MAX_STEPS && |counts| == SECTIONS && section < SECTIONS && (open ==> count > 0)
      requires b.Ok() && section == b.section
      requires out.position < USIZE_MAX ==> Tracks(b) && (count <= MAX_STEPS ==> open == b.open)
      modifies this`count, this`counts, steps
      ensures |counts| == SECTIONS && count > 0
      ensures out.position < USIZE_MAX ==> Tracks(PutHole(b, h))
    {
      hide Sum, Building.Ok, HoleId;
      if open && count <= steps.Length {
        FillLast(h, b);
      } else {
        PushIn(section, Step(0, HoleId(h), 0, 0), b, Step(0, HoleId(h), 0, 0));
      }
    }

    method AddHole(h: Hole)
      requires Valid()
      modifies this, steps
      ensures Valid() && model == PutHole(old(model), h) && count > 0 && !open
    {
      hide Sum, Building.Ok, Holds, PutHole;
      ghost var b := model;
      AddHoleStep(h, b);
      open := false;
      model := PutHole(b, h);
      HoleKeeps(b, h);
    }

    // Records where the text is, as a step and an offset into its run.
    method MarkFields()
      requires Valid()
      modifies this
      ensures Valid() && model == Mark(old(model))
    {
      hide Sum, Mark, Holds, Building.Ok;
      MarkKeeps(model);
      if out.position < USIZE_MAX && count <= MAX_STEPS {
        HoldsMark(model, count, steps[..], counts, textEnd, scattered, fieldsStep, fieldsOffset);
      } else if out.position < USIZE_MAX {
        HoldsPast(model, count, steps[..], counts, textEnd, scattered, fieldsStep, fieldsOffset);
      }
      if open && count <= steps.Length {
        fieldsStep, fieldsOffset := (count - 1) % 256, steps[count - 1].len;
      } else {
        fieldsStep, fieldsOffset := count % 256, 0;
      }
      model := Mark(model);
    }

    method AddSeparator()
      requires Valid()
      modifies this, steps, out, out.buffer
      ensures Valid() && model == PutSeparator(old(model))
    {
      hide Sum, PutHole, PushText, Holds, Building.Ok;
      if optional {
        AddHole(Hole.Separator);
      } else {
        ghost var b := model;
        PushedText(b, if b.params == 0 then ['?' as int] else ['&' as int]);
        AddText(if params == 0 then ['?' as int] else ['&' as int]);
        params := if params < 255 then params + 1 else 255;
        TracksParams(model, b.params + 1);
        model := model.(params := b.params + 1);
      }
    }

    // Stores the name in the image and its length in the last step.
    method AddName(name: bytes)
      requires Valid() && count > 0 && model.steps != [] && !model.open && !open
      modifies this, steps, out, out.buffer
      ensures Valid() && model == PutName(old(model), name)
    {
      hide Sum, Building.Ok, Holds, PutName, Writer.Valid;
      ghost var b := model;
      var start, len := Append(name);
      if out.position < USIZE_MAX {
        HoldsName(b, name, count, steps[..], counts, textEnd, scattered, fieldsStep, fieldsOffset);
      }
      scattered := scattered || start != textEnd || len > 255;
      textEnd := start + len;
      if count <= steps.Length {
        steps[count - 1] := steps[count - 1].(name := len % 256);
        assert steps[..] == old(steps[..])[count - 1 := old(steps[..])[count - 1].(name := len % 256)];
      }
      model := PutName(b, name);
      NameKeeps(b, name);
    }

    method Param(name: bytes, value: ParamValue)
      requires Valid()
      modifies this, steps, out, out.buffer
      ensures Valid() && model == Build(old(model), Op.Param(name, value))
    {
      hide Sum, PutHole, PushText, PutName, PutSeparator, Holds, Building.Ok;
      match value
      case Fixed(text) =>
        AddSeparator();
        AddText(name + EQUALS + text);
      case Filled(h) =>
        AddSeparator();
        AddText(name + EQUALS);
        AddHole(h);
      case Optional(h) =>
        AddHole(h);
        AddName(name);
        optional := true;
        TracksOptional(model);
        model := model.(optional := true);
    }

    lemma TracksOptional(m: Building)
      ensures Tracks(m) <==> Tracks(m.(optional := true))
      ensures m.Ok() <==> m.(optional := true).Ok()
    {
    }

    // Ends one section, the current one or a later one.
    method EndSection(s: nat, ghost m: Building)
      requires s < SECTIONS && steps.Length == MAX_STEPS && |counts| == SECTIONS && section <= s && (open ==> count > 0)
      requires out.position < USIZE_MAX ==>
                 m.Ok() && m.section == s && Tracks(m) && (count <= MAX_STEPS ==> m.open == (open && s == section))
      modifies this`count, this`counts, steps
      ensures |counts| == SECTIONS && count > 0
      ensures out.position < USIZE_MAX ==> Tracks(EndOne(m))
    {
      hide Sum;
      if !(open && s == section) {
        PushIn(s, EMPTY_STEP, m, EMPTY_STEP);
      }
      if count <= steps.Length {
        var last := steps[count - 1];
        steps[count - 1] := last.(ends := WithBit(last.ends, s));
      }
    }

    method EndSections(until: nat)
      requires Valid() && section <= until <= SECTIONS
      modifies this`count, this`counts, steps
      ensures |counts| == SECTIONS && (open ==> count > 0)
      ensures out.position < USIZE_MAX ==> Tracks(EndTo(model, until))
    {
      hide Sum, Building.Ok, EndOne, Holds;
      ghost var m := model;
      for s := section to until
        invariant |counts| == SECTIONS && (open ==> count > 0)
        invariant m.Ok() && m.section == s && EndTo(m, until) == EndTo(model, until)
        invariant out.position < USIZE_MAX ==> Tracks(m) && (count <= MAX_STEPS ==> m.open == (open && s == section))
      {
        EndSection(s, m);
        m := EndOne(m);
      }
    }

    // Starts a section. Starting the current one again only closes its open step.
    method Section(s: nat)
      requires Valid() && section <= s < SECTIONS
      modifies this, steps
      ensures Valid() && model == EndTo(old(model), s).(open := false)
      ensures old(section) < s ==> model == EndTo(old(model), s)
    {
      hide Sum, Building.Ok, Holds;
      EndedTo(model, s);
      EndSections(s);
      ClosedIsOk(EndTo(model, s));
      TracksClosed(EndTo(model, s));
      section := s;
      open := false;
      model := EndTo(model, s).(open := false);
    }

    lemma TracksClosed(m: Building)
      ensures Tracks(m) <==> Tracks(m.(open := false))
    {
    }

    // Appends text outside every section, and gives its place.
    method Stash(text: bytes) returns (span: Span)
      requires Valid()
      modifies this, out, out.buffer
      ensures Valid() && model == Stashed(old(model), text)
      ensures out.position < USIZE_MAX ==> span == Span(|old(model).text|, |text|)
    {
      hide Sum, Building.Ok;
      var start := out.position;
      out.Push(text);
      model := Stashed(model, text);
      span := Span(start, out.position - start);
    }

    // Runs the pass over a layout.
    method Run(ops: seq<Op>)
      requires Valid() && InOrder(ops, section)
      modifies this, steps, out, out.buffer
      ensures Valid() && model == BuildAll(old(model), ops)
    {
      hide Sum, Building.Ok, Holds, PutHole, PushText, PutName, PutSeparator, EndTo, Mark;
      for i := 0 to |ops|
        invariant Valid() && InOrder(ops[i..], section)
        invariant BuildAll(model, ops[i..]) == BuildAll(old(model), ops)
      {
        assert ops[i..][0] == ops[i] && ops[i..][1..] == ops[i + 1..];
        match ops[i]
        case Section(s) => Section(s);
        case Text(text) => AddText(text);
        case Fill(h) => AddHole(h);
        case Fields => MarkFields();
        case Param(name, value) => Param(name, value);
      }
    }

    // Appends the steps after the text.
    method WriteSteps()
      requires out.Valid() && steps.Length == MAX_STEPS && count <= MAX_STEPS
      modifies out, out.buffer
      ensures out.Valid() && out.text == old(out.text) + EncodeSteps(steps[..count])
    {
      hide EncodeStep;
      for i := 0 to count
        invariant out.Valid() && out.text == old(out.text) + EncodeSteps(steps[..i])
      {
        out.Push(EncodeStep(steps[i]));
        StepsAppend(steps[..i], steps[i]);
        assert steps[..i + 1] == steps[..i] + [steps[i]];
      }
    }

    // Ends what is open, writes the steps out, and seals the table over both.
    method Finish() returns (r: Finished)
      requires Valid()
      modifies this, steps, out, out.buffer
      ensures |old(model).text| < USIZE_MAX ==> r == FinishOf(old(model), out.buffer.Length)
      ensures r.Done? ==> r == FinishOf(old(model), out.buffer.Length)
      ensures r.Done? ==> out.buffer[..r.table.end] == ImageOf(EndTo(old(model), SECTIONS))
    {
      hide Sum, Building.Ok, EndTo, EncodeSteps, FixedUrl, Fingerprint;
      ghost var f := EndTo(model, SECTIONS);
      EndedTo(model, SECTIONS);
      if count > MAX_STEPS { return Refused(RequestTooLarge); }
      EndSections(SECTIONS);
      if scattered { return Refused(TemplateFault); }
      var start := out.position;
      if count > MAX_STEPS { return Panics; }
      WriteSteps();
      var end := out.position;
      if !out.Fits() { return Refused(CapacityError(end)); }
      var fingerprint := Fingerprint(out.buffer[..end]);
      if start >= U32_LIMIT || end >= U32_LIMIT { return Refused(RequestTooLarge); }
      SealedSteps(f, steps[..count]);
      var table := Seal(start, end, fingerprint, f);
      r := Done(table);
    }

    // The table of what the fields hold.
    method Seal(start: nat, end: nat, fingerprint: nat, ghost f: Building) returns (t: Table)
      requires f.Ok() && steps.Length == MAX_STEPS && count <= MAX_STEPS && Tracks(f) && steps[..count] == f.steps
      requires start == |f.text| && end == |ImageOf(f)| && fingerprint == Fingerprint(ImageOf(f))
      requires params == Min(f.params, 255) && |f.text| < U32_LIMIT
      ensures t == TableOf(f)
    {
      hide Sum, EncodeSteps, Fingerprint;
      SumOfPrefix(f.counts, HEAD);
      SumOfPrefix(f.counts, BODY);
      CountsFit(f);
      var urlSteps := Sum(counts[..HEAD]);
      assert counts[..HEAD] == f.counts[..HEAD] && counts == f.counts;
      var urlFixed := FixedUrl(steps[..urlSteps]);
      assert steps[..urlSteps] == f.steps[..urlSteps];
      var body := HoldsBody(steps[..count], count - counts[BODY]);
      t := Table(start, counts, count, params, end, urlFixed, fieldsStep, fieldsOffset, body, fingerprint);
    }
  }

  lemma {:induction false} StepsAppend(steps: seq<Step>, s: Step)
    ensures EncodeSteps(steps + [s]) == EncodeSteps(steps) + EncodeStep(s)
  {
    hide EncodeStep;
    if steps == [] {
      assert [s][1..] == [];
    } else {
      StepsAppend(steps[1..], s);
      assert (steps + [s])[1..] == steps[1..] + [s];
    }
  }

  // Lengths of 32 bits hold every length of a text that is no longer.
  lemma SealedSteps(f: Building, steps: seq<Step>)
    requires f.Ok() && |steps| == |f.steps| && |f.text| < U32_LIMIT
    requires forall i :: 0 <= i < |steps| ==> steps[i] == Wrapped(f.steps[i])
    ensures steps == f.steps
  {
    hide Sum;
  }

  lemma ClosedIsOk(b: Building)
    requires b.Ok()
    ensures b.(open := false).Ok()
  {
    hide Sum;
  }

  // Ending sections writes no text and counts no parameter.
  lemma {:induction false} EndedTo(b: Building, until: nat)
    requires b.Ok() && until <= SECTIONS
    ensures
      var c := EndTo(b, until);
      && c.Ok() && c.text == b.text && c.optional == b.optional && c.params == b.params && c.scattered == b.scattered
      && (b.section < until ==> !c.open)
    decreases until - b.section
  {
    hide Sum;
    if b.section < until {
      EndedTo(EndOne(b), until);
    }
  }

  function Stashed(b: Building, text: bytes): (c: Building)
    requires b.Ok()
    ensures c.Ok() && c.section == b.section
  {
    b.(text := b.text + text)
  }
}
