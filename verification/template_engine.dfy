/** A request's passes over a template: the replay of its layout, and the walk over its table. */
module Engines {
  import opened Bytes
  import opened Numbers
  import opened Requests
  import opened Layouts
  import opened Tables
  import opened Passes
  import opened Builders
  import ChecksumKinds
  import Url

  // The record that both interpreters keep beside the writer.
  class WriteState {
    var start: nat
    var ends: Ends
    var marks: Marks
    var fields: nat
    var params: nat
    var bodyLen: nat

    // The state is that of the request `q`, while its bytes can be counted. Whatever the
    // template's bytes are, no section ends after the position.
    ghost predicate Follows(out: Writer, q: Request)
      reads this, out
    {
      && params == q.params
      && (forall i :: 0 <= i < SECTIONS ==> ends[i] <= out.position)
      && (out.position < USIZE_MAX ==> out.text == q.out && ends == q.ends && marks == q.marks)
      && out.position == Min(|q.out|, USIZE_MAX)
    }

    constructor (table: Table, out: Writer, bodyLen: nat)
      requires out.Valid() && bodyLen <= USIZE_MAX
      ensures start == out.position && fields == 0 && this.bodyLen == bodyLen
      ensures Follows(out, Started(out.text, table.params))
    {
      var at := out.position;
      start, ends, marks, fields := at, [at, at, at, at, at, at], NO_MARKS, 0;
      params, this.bodyLen := table.params, bodyLen;
    }

    // Sets the end of every section in `bits`, and of no other.
    method End(bits: byte, position: nat)
      modifies this`ends
      ensures forall i :: 0 <= i < SECTIONS ==> ends[i] == if HasBit(bits, i) then position else old(ends[i])
    {
      for section := 0 to SECTIONS
        invariant forall i :: 0 <= i < SECTIONS ==>
                    ends[i] == if i < section && HasBit(bits, i) then position else old(ends[i])
      {
        if HasBit(bits, section) {
          ends := ends[section := position];
        }
      }
    }
  }

  // Writes text that goes straight into the request.
  method PushInto(state: WriteState, out: Writer, text: bytes, ghost q: Request)
    requires out.Valid() && state.Follows(out, q)
    modifies out, out.buffer
    ensures out.Valid() && state.Follows(out, q.Push(text)) && old(out.position) <= out.position
  {
    out.Push(text);
  }

  method RepeatInto(state: WriteState, out: Writer, from: nat, to: nat, ghost q: Request, ghost a: nat, ghost b: nat)
    requires out.Valid() && state.Follows(out, q) && from <= out.position && to <= out.position
    requires out.position < USIZE_MAX ==> from == a && to == b
    modifies out, out.buffer
    ensures out.Valid() && state.Follows(out, q.Repeat(a, b))
  {
    out.Repeat(Span(from, Monus(to, from)));
  }

  method SeparateInto(state: WriteState, out: Writer, ghost q: Request)
    requires out.Valid() && state.Follows(out, q)
    modifies state, out, out.buffer
    ensures out.Valid() && state.Follows(out, q.Separated()) && state.bodyLen == old(state.bodyLen)
    ensures state.start == old(state.start) && state.fields == old(state.fields)
  {
    out.Push(if state.params == 0 then ['?' as int] else ['&' as int]);
    state.params := state.params + 1;
  }

  // The optional parameter `hole`, written whole or left out whole.
  method ParamInto(state: WriteState, out: Writer, hole: Hole, name: bytes, fill: Filler, ghost q: Request)
    requires out.Valid() && state.Follows(out, q)
    modifies state, out, out.buffer
    ensures out.Valid() && state.Follows(out, WithParam(q, hole, name, fill))
    ensures state.bodyLen == old(state.bodyLen) && state.start == old(state.start) && state.fields == old(state.fields)
  {
    hide Url.PercentEncoded;
    if fill.Sends(hole) {
      SeparateInto(state, out, q);
      ghost var p := q.Separated();
      PushInto(state, out, name, p);
      PushInto(state, out, EQUALS, p.Push(name));
      Url.WriteEncoded(out, fill.param(hole).value, Url.QUERY_VALUE_ESCAPE);
    }
  }

  // What the holes of a request leave as it is in its state.
  twostate predicate Kept(state: WriteState)
    reads state
  {
    state.bodyLen == old(state.bodyLen) && state.start == old(state.start) && state.fields == old(state.fields)
  }

  // The URL, or a part of it, as the request has written it.
  method UrlInto(state: WriteState, hole: Hole, out: Writer, ghost q: Request)
    requires out.Valid() && state.Follows(out, q) && IsUrlHole(hole)
    modifies out, out.buffer
    ensures out.Valid() && state.Follows(out, WithUrl(q, hole))
  {
    hide WriteState.Follows, Writer.Valid, Request.Repeat;
    EndsFollow(state, out, q);
    var origin, path, query := state.ends[ORIGIN], state.ends[PATH], state.ends[QUERY];
    if hole == Target {
      RepeatInto(state, out, origin, query, q, q.ends[ORIGIN], q.ends[QUERY]);
    } else if hole == Path {
      RepeatInto(state, out, origin, path, q, q.ends[ORIGIN], q.ends[PATH]);
    } else {
      QueryInto(state, path, query, out, q);
    }
  }

  lemma EndsFollow(state: WriteState, out: Writer, q: Request)
    requires state.Follows(out, q)
    ensures forall i :: 0 <= i < SECTIONS ==> state.ends[i] <= out.position
    ensures out.position < USIZE_MAX ==> state.ends == q.ends
  {
  }

  // The query without its `?`.
  method QueryInto(state: WriteState, path: nat, query: nat, out: Writer, ghost q: Request)
    requires out.Valid() && state.Follows(out, q) && path == state.ends[PATH] && query == state.ends[QUERY]
    modifies out, out.buffer
    ensures out.Valid()
    ensures state.Follows(out, if q.ends[QUERY] > q.ends[PATH] then q.Repeat(q.ends[PATH] + 1, q.ends[QUERY]) else q)
  {
    if query > path {
      RepeatInto(state, out, path + 1, query, q, q.ends[PATH] + 1, q.ends[QUERY]);
    }
  }

  // Writes a placeholder, and returns where it is.
  method PlaceholderInto(state: WriteState, b: byte, len: nat, out: Writer, ghost q: Request) returns (span: Span)
    requires out.Valid() && state.Follows(out, q)
    modifies out, out.buffer
    ensures out.Valid() && state.Follows(out, q.Push(Repeated(b, len)))
    ensures out.position < USIZE_MAX ==> span == Span(|q.out|, len)
  {
    var at := out.position;
    PushInto(state, out, Repeated(b, len), q);
    span := Span(at, out.position - at);
  }

  method MarkInto(state: WriteState, hole: Hole, fill: Filler, out: Writer, ghost q: Request) returns (ok: bool)
    requires out.Valid() && state.Follows(out, q) && IsMarkHole(hole)
    modifies state, out, out.buffer
    ensures out.Valid() && Kept(state) && (ok <==> WithMark(q, hole, fill).Some?)
    ensures state.Follows(out, if ok then WithMark(q, hole, fill).value else q)
  {
    hide Recorded, ChecksumKinds.TextLen, Repeated, Writer.Valid;
    if hole == Signature {
      var span := PlaceholderInto(state, '0' as int, 64, out, q);
      state.marks := state.marks.(signature := Some(span));
    } else if hole == BodyHash {
      var span := PlaceholderInto(state, '0' as int, 64, out, q);
      state.marks := state.marks.(bodyHash := Recorded(state.marks.bodyHash, span));
    } else {
      if fill.bodyChecksum.None? { return false; }
      var span := PlaceholderInto(state, '=' as int, ChecksumKinds.TextLen(fill.bodyChecksum.value), out, q);
      state.marks := state.marks.(bodyChecksum := Recorded(state.marks.bodyChecksum, span));
    }
    ok := true;
  }

  // Refines `WithHole`: `ok` says whether that is defined.
  method WriteHole(state: WriteState, hole: Hole, name: bytes, fill: Filler, out: Writer,
                   ghost q: Request) returns (ok: bool)
    requires out.Valid() && state.Follows(out, q) && state.bodyLen <= USIZE_MAX
    modifies state, out, out.buffer
    ensures out.Valid() && Kept(state)
    ensures ok <==> WithHole(q, hole, name, fill, state.bodyLen).Some?
    ensures state.Follows(out, if ok then WithHole(q, hole, name, fill, state.bodyLen).value else q)
  {
    hide WithHole, WithParam, WithUrl, WithMark, WriteState.Follows, Decimal, Writer.Valid, IsUrlHole, IsMarkHole;
    FilledBy(q, hole, name, fill, state.bodyLen);
    ok := true;
    if IsUrlHole(hole) {
      UrlInto(state, hole, out, q);
    } else if IsMarkHole(hole) {
      ok := MarkInto(state, hole, fill, out, q);
    } else if hole == BodyLength {
      var digits := U64Decimal(state.bodyLen);
      PushInto(state, out, digits, q);
    } else if hole == Separator {
      SeparateInto(state, out, q);
    } else if IsOptionalHole(hole) {
      ParamInto(state, out, hole, name, fill, q);
    } else {
      if fill.value(hole).None? { return false; }
      PushInto(state, out, fill.value(hole).value, q);
    }
  }

  // ---- The walk over the table ----

  // The fields never leave the head, whatever the template's bytes are.
  predicate FieldsInHead(w: Written) {
    w.head.start <= w.fields.start && w.fields.start + w.fields.len <= w.head.start + w.head.len
  }

  lemma PartsKeepFieldsInHead(start: nat, ends: Ends, marks: Marks, fieldsAt: nat, hasBody: bool, end: nat)
    ensures FieldsInHead(PartsOf(start, ends, marks, fieldsAt, hasBody, end))
  {
  }

  // What a pass leaves in the writer, and returns, for the outcome `o`.
  ghost predicate Wrote(out: Writer, start: nat, o: Outcome, hasBody: bool, w: Written)
    reads out
  {
    && out.position == Min(|o.out|, USIZE_MAX) == w.end && FieldsInHead(w)
    && (|o.out| < USIZE_MAX ==> out.text == o.out && w == PartsOf(start, o.ends, o.marks, o.fields, hasBody, |o.out|))
  }

  // Copies the run of the step `k`, fills its hole, and ends the sections that end after it.
  method WalkOne(state: WriteState, k: nat, cursor: nat, out: Writer, src: Source,
                 ghost w: Walking) returns (ok: bool, next: nat)
    requires out.Valid() && state.Follows(out, w.q) && cursor == w.cursor && k < |src.parts.steps|
    requires state.bodyLen == src.bodyLen <= USIZE_MAX
    modifies state, out, out.buffer
    ensures out.Valid() && Kept(state) && (ok <==> WalkStep(w, k, src).Some?)
    ensures ok ==> next == WalkStep(w, k, src).value.cursor && state.Follows(out, WalkStep(w, k, src).value.q)
  {
    hide WithHole, WriteState.Follows, Writer.Valid;
    var step, text := src.parts.steps[k], src.parts.text;
    next := cursor + step.len;
    if next > |text| { return false, 0; }
    PushInto(state, out, text[cursor..next], w.q);
    ghost var q := w.q.Push(text[cursor..next]);
    if step.hole != NO_HOLE {
      if next + step.name > |text| { return false, 0; }
      var hole := HoleOfId(step.hole);
      if hole.None? { return false, 0; }
      ghost var filled := WithHole(q, hole.value, text[next..next + step.name], src.fill, src.bodyLen);
      ok := WriteHole(state, hole.value, text[next..next + step.name], src.fill, out, q);
      if !ok { return false, 0; }
      q := filled.value;
    }
    next := next + step.name;
    EndInto(state, step.ends, out, q);
    ok := true;
  }

  method EndInto(state: WriteState, bits: byte, out: Writer, ghost q: Request)
    requires out.Valid() && state.Follows(out, q)
    modifies state
    ensures state.Follows(out, WithEnds(q, bits)) && Kept(state)
  {
    if bits != 0 {
      state.End(bits, out.position);
    } else {
      assert WithEnds(q, 0).ends == q.ends;
    }
  }

  // Where the text of the steps of a range starts.
  method SkipTo(steps: seq<Step>, first: nat) returns (cursor: nat)
    requires first <= |steps|
    ensures cursor == TextBefore(steps, first)
  {
    cursor := 0;
    for k := 0 to first
      invariant cursor == TextBefore(steps, k)
    {
      cursor := cursor + steps[k].len + steps[k].name;
    }
  }

  // A table whose steps are those of its sections, as `finish` makes and `load` accepts.
  predicate Whole(table: Table) {
    |table.counts| == SECTIONS && Sum(table.counts) == table.total
  }

  lemma StepsFit(table: Table, to: nat)
    requires Whole(table) && to <= SECTIONS
    ensures table.StepsBefore(to) <= table.total && Sum(table.counts) <= table.total
  {
    SumOfPrefix(table.counts, to);
  }

  // What walking the table of these bytes gives.
  function WalkedIn(table: Table, template: bytes, fill: Filler, before: bytes, from: nat, to: nat,
                    bodyLen: nat): Option<Outcome>
    requires Whole(table) && from <= to <= SECTIONS
  {
    var parts := PartsIn(table, template);
    StepsFit(table, to);
    if parts.None? then None else Walked(before, from, to, Source(parts.value, table, fill, bodyLen))
  }

  lemma {:induction false} WalkStopped(w: Walking, first: nat, k: nat, last: nat, src: Source)
    requires first <= k <= last <= |src.parts.steps| && WalkTo(w, first, k, src).None?
    ensures WalkTo(w, first, last, src).None?
    decreases last - k
  {
    hide WalkStep;
    if k < last {
      WalkStopped(w, first, k + 1, last, src);
    }
  }

  // The step `k` of a walk, and where it finds that the field lines start.
  lemma WalkGoesOn(start: Walking, first: nat, k: nat, src: Source, w: Walking)
    requires first <= k < |src.parts.steps| && WalkTo(start, first, k, src) == Some(w)
    ensures WalkTo(start, first, k + 1, src) == WalkStep(w, k, src)
    ensures WalkStep(w, k, src).Some? ==> |w.q.out| <= |WalkStep(w, k, src).value.q.out|
    ensures WalkedFields(start, first, k + 1, src)
         == if k == src.table.fieldsStep then |w.q.out| + Min(src.parts.steps[k].len, src.table.fieldsOffset)
            else WalkedFields(start, first, k, src)
  {
    hide WithHole;
    assert WalkTo(start, first, k + 1, src) == WalkStep(w, k, src);
  }

  lemma WalkBegins(start: Walking, first: nat, src: Source)
    requires first <= |src.parts.steps|
    ensures WalkTo(start, first, first, src) == Some(start) && WalkedFields(start, first, first, src) == 0
  {
  }

  method MarkFields(state: WriteState, at: nat, out: Writer, ghost q: Request)
    requires state.Follows(out, q)
    modifies state`fields
    ensures state.Follows(out, q) && state.fields == at
  {
    state.fields := at;
  }

  lemma PositionFollows(state: WriteState, out: Writer, q: Request)
    requires state.Follows(out, q)
    ensures out.position == Min(|q.out|, USIZE_MAX)
  {
  }

  // Ends the sections after the range where the request ends, and says where its parts are.
  method FinishWalk(state: WriteState, out: Writer, to: nat, hasBody: bool, ghost q: Request, ghost fields: nat,
                    ghost before: bytes)
    returns (w: Written)
    requires out.Valid() && state.Follows(out, q) && to <= SECTIONS
    requires state.start == Min(|before|, USIZE_MAX) && |before| <= |q.out|
    requires |q.out| < USIZE_MAX ==> state.fields == fields
    ensures Wrote(out, |before|, Outcome(q.out, q.EndSections(to, SECTIONS).ends, q.marks, fields), hasBody, w)
  {
    var end := out.position;
    var ends := EndsAt(state.ends, to, SECTIONS, end);
    PartsKeepFieldsInHead(state.start, ends, state.marks, state.fields, hasBody, end);
    assert |q.out| < USIZE_MAX ==> ends == q.EndSections(to, SECTIONS).ends;
    w := PartsOf(state.start, ends, state.marks, state.fields, hasBody, end);
  }

  method WalkTable(table: Table, template: bytes, fill: Filler, out: Writer, from: nat, to: nat, bodyLen: nat)
    returns (r: Result<Written>)
    requires out.Valid() && Whole(table) && from <= to <= SECTIONS && bodyLen <= USIZE_MAX
    modifies out, out.buffer
    ensures out.Valid() && (r.Err? ==> r.error == TemplateFault)
    ensures r.Ok? <==> WalkedIn(table, template, fill, old(out.text), from, to, bodyLen).Some?
    ensures r.Ok? ==>
              Wrote(out, |old(out.text)|, WalkedIn(table, template, fill, old(out.text), from, to, bodyLen).value,
                    table.body, r.value)
  {
    hide WalkStep, WalkTo, WalkedFields, DecodeSteps, TextBefore, Sum, WriteState.Follows, Writer.Valid, PartsIn;
    ghost var before := out.text;
    var parts := PartsIn(table, template);
    if parts.None? { return Err(TemplateFault); }
    var src := Source(parts.value, table, fill, bodyLen);
    StepsFit(table, to);
    SumOfPrefix(table.counts[..to], from);
    assert table.counts[..to][..from] == table.counts[..from];
    var first, last := table.StepsBefore(from), table.StepsBefore(to);
    var cursor := SkipTo(parts.value.steps, first);
    ghost var start := Walking(Started(before, table.params), cursor);
    ghost var w := start;
    WalkBegins(start, first, src);
    var state := new WriteState(table, out, bodyLen);
    for k := first to last
      invariant out.Valid() && fresh(state) && state.bodyLen == bodyLen && state.start == Min(|before|, USIZE_MAX)
      invariant WalkTo(start, first, k, src) == Some(w) && cursor == w.cursor && state.Follows(out, w.q)
      invariant |before| <= |w.q.out| && (|w.q.out| < USIZE_MAX ==> state.fields == WalkedFields(start, first, k, src))
    {
      WalkGoesOn(start, first, k, src, w);
      if k == table.fieldsStep {
        PositionFollows(state, out, w.q);
        MarkFields(state, out.position + Min(parts.value.steps[k].len, table.fieldsOffset), out, w.q);
      }
      var ok, next := WalkOne(state, k, cursor, out, src, w);
      if !ok {
        WalkStopped(start, first, k + 1, last, src);
        return Err(TemplateFault);
      }
      w, cursor := WalkStep(w, k, src).value, next;
    }
    var written := FinishWalk(state, out, to, table.body, w.q, WalkedFields(start, first, last, src), before);
    r := Ok(written);
  }
}
