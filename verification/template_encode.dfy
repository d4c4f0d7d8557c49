/** A request's pass, which replays its layout, and the two calls that an operation makes: to
    prepare a template, and to encode a request from one. */
module Encoders {
  import opened Bytes
  import opened Requests
  import opened Layouts
  import opened Tables
  import opened Passes
  import opened Builders
  import opened Engines
  import opened TemplateCorrectness

  // ---- Measuring the body ----

  method FixedBodyLength(steps: seq<Step>, first: nat) returns (len: Option<nat>)
    requires first <= |steps|
    ensures len == FixedBodyLen(steps, first)
  {
    var sum := 0;
    for at := first to |steps|
      invariant FixedBodyLen(steps, first)
             == var rest := FixedBodyLen(steps, at); if rest.None? then None else Some(sum + rest.value)
    {
      if steps[at].hole != NO_HOLE { return None; }
      sum := sum + steps[at].len;
    }
    return Some(sum);
  }

  method FilledBodyLength(src: Source, template: bytes, first: nat) returns (len: Option<nat>)
    requires Whole(src.table) && PartsIn(src.table, template) == Some(src.parts) && first <= |src.parts.steps|
    ensures len == FilledBodyLen(src, first, 0)
  {
    hide Walked, PartsIn;
    var sum: usize := 0;
    for at := first to |src.parts.steps|
      invariant FilledBodyLen(src, first, 0) == FilledBodyLen(src, at, sum)
    {
      var step := src.parts.steps[at];
      sum := WrappingAdd(sum, step.len + step.name);
      if step.hole != NO_HOLE {
        if step.hole != HoleId(Body) { return None; }
        if src.fill.bodyLen.None? {
          len := CountedBody(src, template);
          return len;
        }
        sum := WrappingAdd(sum, src.fill.bodyLen.value);
      }
    }
    return Some(sum);
  }

  // Counts a body by a walk whose writer has no room.
  method CountedBody(src: Source, template: bytes) returns (len: Option<nat>)
    requires Whole(src.table) && PartsIn(src.table, template) == Some(src.parts)
    ensures (
      WholeTable(src.table);
      var counted := Walked([], BODY, SECTIONS, src.(bodyLen := 0));
      len == if counted.None? then None else Some(Min(|counted.value.out|, USIZE_MAX)))
  {
    hide Walked, PartsIn;
    StepsFit(src.table, SECTIONS);
    WholeTable(src.table);
    var nothing := new byte[0];
    var counted := new Writer(nothing);
    var written := WalkTable(src.table, template, src.fill, counted, BODY, SECTIONS, 0);
    return if written.Ok? then Some(counted.position) else None;
  }

  method MeasureBody(src: Source, template: bytes) returns (len: Option<nat>)
    requires Whole(src.table) && PartsIn(src.table, template) == Some(src.parts)
    ensures len == BodyLenOf(src)
  {
    hide Walked, PartsIn, Sum, FilledBodyLen, FixedBodyLen;
    StepsFit(src.table, BODY);
    var first := src.table.StepsBefore(BODY);
    if !src.table.body { return Some(0); }
    if src.fill.writesBody {
      len := FilledBodyLength(src, template, first);
    } else {
      len := FixedBodyLength(src.parts.steps, first);
    }
  }

  // ---- What encoding from these bytes gives ----

  // The source that a request reads, once its body is measured.
  function SourceIn(table: Table, template: bytes, fill: Filler): (src: Option<Source>)
    requires Whole(table)
    ensures src.Some? ==> |src.value.parts.steps| == table.total
  {
    StepsFit(table, SECTIONS);
    var parts := PartsIn(table, template);
    if parts.None? then None
    else
      var src := Source(parts.value, table, fill, 0);
      var len := BodyLenOf(src);
      if len.None? then None else Some(src.(bodyLen := len.value))
  }

  function EncodedIn(table: Table, template: bytes, fill: Filler, before: bytes, ops: seq<Op>): Option<Outcome>
    requires Whole(table)
  {
    var src := SourceIn(table, template, fill);
    if src.None? then None else Encoded(before, ops, src.value)
  }

  // Whatever the template's bytes are, the length of the body is one that a `usize` counts.
  lemma BodyLenFits(src: Source)
    requires Whole(src.table) && |src.parts.steps| == src.table.total
    requires forall i :: 0 <= i < |src.parts.steps| ==> src.parts.steps[i].len < U32_LIMIT
    ensures BodyLenOf(src).Some? ==> BodyLenOf(src).value <= USIZE_MAX
  {
    hide Sum, FixedBodyLen, FilledBodyLen;
    StepsFit(src.table, BODY);
    FixedFits(src.parts.steps, src.table.StepsBefore(BODY));
  }

  lemma {:induction false} FixedFits(steps: seq<Step>, at: nat)
    requires at <= |steps| && forall i :: 0 <= i < |steps| ==> steps[i].len < U32_LIMIT
    ensures FixedBodyLen(steps, at).Some? ==> FixedBodyLen(steps, at).value <= (|steps| - at) * U32_LIMIT
    decreases |steps| - at
  {
    if at < |steps| {
      FixedFits(steps, at + 1);
    }
  }

  lemma {:induction false} DecodedLengths(b: bytes)
    ensures forall i :: 0 <= i < |DecodeSteps(b)| ==> DecodeSteps(b)[i].len < U32_LIMIT
  {
    if |b| >= STEP_LEN {
      FromLittleEndianBound(b[..STEP_LEN][..4]);
      Pow256Values();
      DecodedLengths(b[STEP_LEN..]);
    }
  }

  // ---- The pass ----

  class EncodePass {
    const src: Source
    const out: Writer
    const state: WriteState
    // The place of the replay: in the table, in the text, and in the layout.
    var at: nat
    var cursor: nat
    var section: nat
    var optional: bool
    var failed: bool
    ghost var e: Encoding

    ghost predicate Valid()
      reads this, out, out.buffer, state
    {
      && out.Valid() && state.Follows(out, e.q) && state.bodyLen == src.bodyLen <= USIZE_MAX
      && at == e.at && cursor == e.cursor && section == e.section <= SECTIONS
      && optional == e.optional && failed == e.failed
      && (|e.q.out| < USIZE_MAX ==> state.fields == e.fields)
    }

    constructor (table: Table, template: bytes, fill: Filler, out: Writer)
      requires out.Valid() && Whole(table)
      ensures Valid() && this.out == out && fresh(state) && state.start == out.position && src.table == table
      ensures
        var s := SourceIn(table, template, fill);
        && (s.Some? ==> src == s.value)
        && e == EncodeStart(out.text, table, s.None?)
    {
      hide BodyLenOf, Sum, DecodeSteps;
      StepsFit(table, SECTIONS);
      var parts := PartsIn(table, template);
      var len: Option<nat> := None;
      if parts.Some? {
        len := MeasureBody(Source(parts.value, table, fill, 0), template);
        DecodedLengths(template[table.start..table.end]);
        BodyLenFits(Source(parts.value, table, fill, 0));
      }
      var s := if len.Some? then Source(parts.value, table, fill, len.value) else Source(NO_PARTS, table, fill, 0);
      src, this.out := s, out;
      state := new WriteState(table, out, s.bodyLen);
      at, cursor, section, optional, failed := 0, 0, ORIGIN, false, len.None?;
      e := EncodeStart(out.text, table, len.None?);
    }

    // Moves on by one step as `Taken` does.
    method Take() returns (name: nat)
      requires Valid()
      modifies this, out, out.buffer
      ensures Valid() && e == Taken(old(e), src.parts) && name == NameAt(old(e).at, src.parts)
    {
      hide WriteState.Follows, Writer.Valid, Request.Push, Slice;
      ghost var q := e.q;
      e := Taken(e, src.parts);
      if at >= |src.parts.steps| {
        at, failed := at + 1, true;
        return 0;
      }
      var step := src.parts.steps[at];
      var run := Slice(src.parts.text, cursor, cursor + step.len);
      PushInto(state, out, run, q);
      at, cursor, failed, name := at + 1, cursor + step.len, failed || cursor + step.len > |src.parts.text|, step.name;
    }

    // Moves on to `until` as `EncodeEnds` does.
    method EndUntil(until: nat)
      requires Valid() && until <= SECTIONS
      modifies this, state, out, out.buffer
      ensures Valid() && e == EncodeEnds(old(e), src.parts, until) && state.start == old(state.start)
    {
      hide Taken;
      while section < until
        invariant Valid() && EncodeEnds(e, src.parts, until) == EncodeEnds(old(e), src.parts, until)
        invariant state.start == old(state.start)
        decreases until - section
      {
        EndOneSection();
      }
    }

    method EndOneSection()
      requires Valid() && section < SECTIONS
      modifies this, state, out, out.buffer
      ensures Valid() && e == EncodeEnd(old(e), src.parts) && state.start == old(state.start)
    {
      hide Taken;
      ghost var before := e;
      var name := Take();
      state.ends := state.ends[section := out.position];
      section := section + 1;
      assert state.ends == EndsAt(old(state.ends), section - 1, section, out.position);
      ghost var f := e;
      e := EncodeEnd(before, src.parts);
      SameEnds(f.q, f.section, out.position, old(state.ends));
    }

    lemma SameEnds(q: Request, s: nat, position: nat, ends: Ends)
      requires s < SECTIONS
      ensures position == |q.out| && ends == q.ends ==> EndsAt(ends, s, s + 1, position) == q.EndSections(s, s + 1).ends
    {
    }

    method AddHole(h: Hole, name: bytes)
      requires Valid()
      modifies this, state, out, out.buffer
      ensures Valid() && e == WithValue(old(e), h, name, src) && state.start == old(state.start)
    {
      hide WithHole, WriteState.Follows;
      var ok := WriteHole(state, h, name, src.fill, out, e.q);
      failed := failed || !ok;
      ghost var before := e;
      e := WithValue(e, h, name, src);
      Grows(before, h, name);
    }

    lemma Grows(b: Encoding, h: Hole, name: bytes)
      ensures |b.q.out| <= |WithValue(b, h, name, src).q.out| && WithValue(b, h, name, src).fields == b.fields
    {
      hide WithHole;
    }

    method TakeHole(h: Hole)
      requires Valid()
      modifies this, state, out, out.buffer
      ensures Valid() && e == EncodeHole(old(e), h, src) && state.start == old(state.start)
    {
      hide Taken, WithHole;
      var name := Take();
      AddHole(h, []);
    }

    // Finds the fields from the step that comes next, and checks that the table means that one.
    method MarkFields()
      requires Valid()
      modifies this, state
      ensures Valid() && e == EncodeMark(old(e), src) && state.start == old(state.start)
    {
      failed := failed || src.table.fieldsStep != at;
      var len := if at < |src.parts.steps| then src.parts.steps[at].len else 0;
      state.fields := out.position + Min(len, src.table.fieldsOffset);
      e := EncodeMark(e, src);
    }

    method Param(name: bytes, value: ParamValue)
      requires Valid()
      modifies this, state, out, out.buffer
      ensures Valid() && e == Encode(old(e), Op.Param(name, value), src) && state.start == old(state.start)
    {
      hide Taken, WithHole, EncodeHole, EncodeNamed, WriteState.Follows, Writer.Valid;
      match value
      case Fixed(_) => if optional { TakeHole(Separator); }
      case Filled(h) =>
        if optional { TakeHole(Separator); }
        TakeHole(h);
      case Optional(h) => TakeNamed(h, name);
    }

    // An optional parameter, whose name is in the template.
    method TakeNamed(h: Hole, name: bytes)
      requires Valid()
      modifies this, state, out, out.buffer
      ensures Valid() && e == EncodeNamed(old(e).(optional := true), h, name, src) && state.start == old(state.start)
    {
      hide Taken, WithHole, WriteState.Follows, Writer.Valid;
      optional := true;
      e := e.(optional := true);
      var len := Take();
      AddHole(h, name);
      cursor := cursor + len;
      e := e.(cursor := e.cursor + len);
    }

    // Runs the pass over a layout, of whose text it reads none.
    method Run(ops: seq<Op>)
      requires Valid() && InOrder(ops, section)
      modifies this, state, out, out.buffer
      ensures Valid() && e == EncodeAll(old(e), ops, src) && state.start == old(state.start)
    {
      hide Taken, WithHole, EncodeHole, EncodeNamed;
      for i := 0 to |ops|
        invariant Valid() && InOrder(ops[i..], section) && state.start == old(state.start)
        invariant EncodeAll(e, ops[i..], src) == EncodeAll(old(e), ops, src)
      {
        assert ops[i..][0] == ops[i] && ops[i..][1..] == ops[i + 1..];
        match ops[i]
        case Section(s) => EndUntil(s);
        case Text(_) =>
        case Fill(h) => TakeHole(h);
        case Fields => MarkFields();
        case Param(name, value) => Param(name, value);
      }
    }

    // Ends every section, and says where the request's parts are.
    method Finish(ghost before: bytes) returns (r: Result<Written>)
      requires Valid() && state.start == Min(|before|, USIZE_MAX) && |before| <= |e.q.out|
      modifies this, state, out, out.buffer
      ensures Valid() && (r.Err? ==> r.error == TemplateFault)
      ensures
        var f := EncodeEnds(old(e), src.parts, SECTIONS);
        && (r.Err? <==> f.failed || f.at != |src.parts.steps|)
        && (r.Ok? ==> Wrote(out, |before|, Outcome(f.q.out, f.q.ends, f.q.marks, f.fields), src.table.body, r.value))
    {
      hide Taken, EncodeEnds;
      EndUntil(SECTIONS);
      if failed || at != |src.parts.steps| { return Err(TemplateFault); }
      EndsGrow(old(e), src.parts, SECTIONS);
      var end := out.position;
      PartsKeepFieldsInHead(state.start, state.ends, state.marks, state.fields, src.table.body, end);
      return Ok(PartsOf(state.start, state.ends, state.marks, state.fields, src.table.body, end));
    }
  }

  lemma {:induction false} EndsGrow(e: Encoding, parts: Parts, until: nat)
    ensures |e.q.out| <= |EncodeEnds(e, parts, until).q.out|
    decreases until - e.section
  {
    if e.section < until {
      EndsGrow(EncodeEnd(e, parts), parts, until);
    }
  }

  lemma {:induction false} EncodingGrows(e: Encoding, ops: seq<Op>, src: Source)
    ensures |e.q.out| <= |EncodeAll(e, ops, src).q.out|
    decreases |ops|
  {
    hide EncodeHole, EncodeNamed;
    if ops != [] {
      if ops[0].Section? { EndsGrow(e, src.parts, ops[0].section); }
      EncodingGrows(Encode(e, ops[0], src), ops[1..], src);
    }
  }

  // ---- The calls of an operation ----

  // Writes the template of `ops` into `buffer`, with `stash` after the text of its sections.
  method PrepareTemplate(ops: seq<Op>, stash: bytes, buffer: array<byte>) returns (r: Finished)
    requires buffer.Length <= ISIZE_MAX && InOrder(ops, ORIGIN)
    modifies buffer
    ensures |Prepared(ops, stash).text| < USIZE_MAX ==> r == FinishOf(Prepared(ops, stash), buffer.Length)
    ensures r.Done? ==> r == FinishOf(Prepared(ops, stash), buffer.Length)
    ensures r.Done? ==> buffer[..r.table.end] == ImageOf(EndTo(Prepared(ops, stash), SECTIONS))
  {
    hide BuildAll, EndTo, FinishOf;
    var b := new Builder(buffer);
    b.Run(ops);
    var span := b.Stash(stash);
    r := b.Finish();
  }

  // What the builder holds before it finishes.
  function Prepared(ops: seq<Op>, stash: bytes): (b: Building)
    requires InOrder(ops, ORIGIN)
    ensures b.Ok() && b.section < SECTIONS
  {
    NothingBuiltIsOk();
    Stashed(BuildAll(NOTHING_BUILT, ops), stash)
  }

  // What a pass returns for its outcome, in a buffer of `room` bytes: the request whole, or
  // exactly the room that it needs.
  ghost predicate Delivers(r: Result<Written>, o: Option<Outcome>, hasBody: bool, buffer: bytes) {
    match o
    case None => r == Err(TemplateFault)
    case Some(o) =>
      if |o.out| > |buffer| then r == Err(CapacityError(|o.out|))
      else r == Ok(PartsOf(0, o.ends, o.marks, o.fields, hasBody, |o.out|)) && buffer[..|o.out|] == o.out
  }

  // Writes a request from the template into `buffer`, with the values of `fill`.
  method EncodeTemplate(table: Table, template: bytes, fill: Filler, ops: seq<Op>,
                        buffer: array<byte>) returns (r: Result<Written>)
    requires buffer.Length <= ISIZE_MAX && InOrder(ops, ORIGIN) && Whole(table)
    modifies buffer
    ensures Delivers(r, EncodedIn(table, template, fill, [], ops), table.body, buffer[..])
    ensures r.Ok? ==> FieldsInHead(r.value)
  {
    hide EncodeAll, EncodeEnds, PartsIn, BodyLenOf, Sum, WriteState.Follows, SourceIn;
    var out := new Writer(buffer);
    var pass := new EncodePass(table, template, fill, out);
    ghost var src, start := pass.src, pass.e;
    pass.Run(ops);
    EncodingGrows(start, ops, src);
    r := pass.Finish([]);
    FailsFromTheStart(start, ops, src);
    r := Fitted(out, r);
  }

  // A pass whose template could not be read fails, whatever it goes on to do.
  lemma FailsFromTheStart(e: Encoding, ops: seq<Op>, src: Source)
    ensures e.failed ==> EncodeEnds(EncodeAll(e, ops, src), src.parts, SECTIONS).failed
  {
    if e.failed {
      FailureStays(e, ops, src);
      EndsStayFailed(EncodeAll(e, ops, src), src.parts, SECTIONS);
    }
  }

  // Turns a request that overran its buffer into the error that states its room.
  method Fitted(out: Writer, r: Result<Written>) returns (s: Result<Written>)
    requires out.Valid() && (r.Ok? ==> r.value.end == out.position)
    ensures s == if r.Err? || out.position <= out.buffer.Length then r else Err(CapacityError(out.position))
  {
    if r.Ok? && !out.Fits() { return Err(CapacityError(r.value.end)); }
    return r;
  }

  // Writes a request by walking the table, one method for every operation.
  method WalkTemplate(table: Table, template: bytes, fill: Filler, buffer: array<byte>) returns (r: Result<Written>)
    requires buffer.Length <= ISIZE_MAX && Whole(table)
    modifies buffer
    ensures Delivers(r, WalkedRequest(table, template, fill), table.body, buffer[..])
    ensures r.Ok? ==> FieldsInHead(r.value)
  {
    hide BodyLenOf, Sum, Walked, DecodeSteps;
    StepsFit(table, SECTIONS);
    var parts := PartsIn(table, template);
    if parts.None? { return Err(TemplateFault); }
    var len := MeasureBody(Source(parts.value, table, fill, 0), template);
    if len.None? { return Err(TemplateFault); }
    DecodedLengths(template[table.start..table.end]);
    BodyLenFits(Source(parts.value, table, fill, 0));
    var out := new Writer(buffer);
    r := WalkTable(table, template, fill, out, ORIGIN, SECTIONS, len.value);
    r := Fitted(out, r);
  }

  // What walking the whole table of these bytes gives, once the body is measured.
  function WalkedRequest(table: Table, template: bytes, fill: Filler): Option<Outcome>
    requires Whole(table)
  {
    var src := SourceIn(table, template, fill);
    if src.None? then None else WalkedIn(table, template, fill, [], ORIGIN, SECTIONS, src.value.bodyLen)
  }

  // Counts the sections before the head by a dry walk.
  method UrlLen(table: Table, template: bytes, fill: Filler) returns (r: Result<nat>)
    requires Whole(table)
    ensures
      var counted := WalkedIn(table, template, fill, [], ORIGIN, HEAD, 0);
      r == if counted.None? then Err(TemplateFault) else Ok(Min(|counted.value.out|, USIZE_MAX))
  {
    hide PartsIn, Sum, Walked;
    var nothing := new byte[0];
    var counted := new Writer(nothing);
    var written := WalkTable(table, template, fill, counted, ORIGIN, HEAD, 0);
    return if written.Ok? then Ok(counted.position) else Err(TemplateFault);
  }
}
