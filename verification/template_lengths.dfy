/** What the engine measures before it writes: the length of a URL, and of a body. */
module TemplateLengths {
  import opened Bytes
  import opened Numbers
  import opened Layouts
  import opened Tables
  import opened Passes
  import opened TemplateCorrectness
  import opened TemplateHoles
  import Url

  // ---- The URL ----

  // Up to the head, a rendering does not depend on the length of the body.
  lemma {:induction false} UrlWithoutBody(r: Rendering, s: Rendering, ops: seq<Op>, fill: Filler, m: nat, n: nat,
                                          marked: bool)
    requires WellFormed(ops, r.section, marked) && s.section == r.section < SECTIONS
    requires if r.section < HEAD then r == s else r.q.ends[QUERY] == s.q.ends[QUERY]
    ensures
      var r', s' := RenderAll(r, ops, fill, m), RenderAll(s, ops, fill, n);
      r'.Some? && s'.Some? ==>
        s'.value.section == r'.value.section
        && if r'.value.section < HEAD then r'.value == s'.value else r'.value.q.ends[QUERY] == s'.value.q.ends[QUERY]
    ensures RenderAll(r, ops, fill, m).Some? <==> RenderAll(s, ops, fill, n).Some?
    decreases |ops|
  {
    hide WellFormed;
    if ops != [] {
      WellFormedIsInOrder(ops, r.section, marked);
      OneCallWithoutBody(r, s, ops[0], fill, m, n, marked);
      var r', s' := Render(r, ops[0], fill, m), Render(s, ops[0], fill, n);
      if r'.Some? {
        UrlWithoutBody(r'.value, s'.value, ops[1..], fill, m, n, marked || ops[0].Fields?);
      }
    }
  }

  lemma OneCallWithoutBody(r: Rendering, s: Rendering, op: Op, fill: Filler, m: nat, n: nat, marked: bool)
    requires Fits(op, r.section, marked) && s.section == r.section < SECTIONS
    requires if r.section < HEAD then r == s else r.q.ends[QUERY] == s.q.ends[QUERY]
    ensures
      var r', s' := Render(r, op, fill, m), Render(s, op, fill, n);
      && (r'.Some? <==> s'.Some?)
      && (r'.Some? ==>
           && s'.value.section == r'.value.section == (if op.Section? then op.section else r.section)
           && if r'.value.section < HEAD then r'.value == s'.value
              else r'.value.q.ends[QUERY] == s'.value.q.ends[QUERY])
  {
    hide WithHole, CanFill;
    if op.Fill? {
      OneHoleWithoutBody(r.q, s.q, op.hole, [], fill, m, n);
    } else if op.Param? && op.value.Filled? {
      OneHoleWithoutBody(r.q.Separated().Push(op.name + EQUALS), s.q.Separated().Push(op.name + EQUALS),
                         op.value.hole, [], fill, m, n);
    } else if op.Param? && op.value.Optional? {
      OneHoleWithoutBody(r.q, s.q, op.value.hole, op.name, fill, m, n);
    }
  }

  lemma OneHoleWithoutBody(q: Request, p: Request, h: Hole, name: bytes, fill: Filler, m: nat, n: nat)
    ensures WithHole(q, h, name, fill, m).Some? <==> WithHole(p, h, name, fill, n).Some?
    ensures h != BodyLength && q == p ==> WithHole(q, h, name, fill, m) == WithHole(p, h, name, fill, n)
  {
    hide WithHole, CanFill;
    FillsWhenItCan(q, h, name, fill, m);
    FillsWhenItCan(p, h, name, fill, n);
    if h != BodyLength {
      ReadsNoLength(q, h, name, fill, m, n);
    }
  }

  // What two requests agree on where they fill `h` alike.
  predicate SameValue(h: Hole, f: Filler, g: Filler) {
    f.value(h) == g.value(h) && f.param(h) == g.param(h) && (h == BodyChecksum ==> f.bodyChecksum == g.bodyChecksum)
  }

  lemma SameValueFills(q: Request, h: Hole, name: bytes, f: Filler, g: Filler, n: nat)
    requires SameValue(h, f, g)
    ensures WithHole(q, h, name, f, n) == WithHole(q, h, name, g, n)
  {
    hide WithHole, WithUrl, Decimal, Request.Separated, Request.Push, Url.PercentEncoded;
    FilledBy(q, h, name, f, n);
    FilledBy(q, h, name, g, n);
  }

  // A walk reads no more of what fills it than the holes of its steps.
  lemma {:induction false} WalksAlike(w: Walking, i: nat, j: nat, src: Source, other: Filler)
    requires i <= j <= |src.parts.steps|
    requires forall k :: i <= k < j && HoleOfId(src.parts.steps[k].hole).Some? ==>
                           SameValue(HoleOfId(src.parts.steps[k].hole).value, src.fill, other)
    ensures WalkTo(w, i, j, src.(fill := other)) == WalkTo(w, i, j, src)
    decreases j - i
  {
    hide WalkStep, HoleOfId, SameValue;
    if i < j {
      WalksAlike(w, i, j - 1, src, other);
      var v := WalkTo(w, i, j - 1, src);
      if v.Some? {
        StepsAlike(v.value, j - 1, src, other);
      }
    }
  }

  lemma StepsAlike(w: Walking, k: nat, src: Source, other: Filler)
    requires k < |src.parts.steps|
    requires HoleOfId(src.parts.steps[k].hole).Some? ==>
               SameValue(HoleOfId(src.parts.steps[k].hole).value, src.fill, other)
    ensures WalkStep(w, k, src.(fill := other)) == WalkStep(w, k, src)
  {
    hide HoleOfId, SameValue, WithHole, WithEnds;
    var step, text, hole := src.parts.steps[k], src.parts.text, HoleOfId(src.parts.steps[k].hole);
    var end := w.cursor + step.len;
    if hole.Some? && end + step.name <= |text| {
      SameValueFills(w.q.Push(text[w.cursor..end]), hole.value, text[end..end + step.name], src.fill, other,
                     src.bodyLen);
    }
  }

  // The holes of a URL: those that its layout writes before the head.
  function UrlHoles(ops: seq<Op>): seq<Hole> { HolesBefore(ops, HEAD, ORIGIN, false) }

  lemma UrlStepsAlike(ops: seq<Op>, src: Source, other: Filler)
    requires InOrder(ops, ORIGIN) && src.parts.steps == Template(ops).steps
    requires forall h :: h in UrlHoles(ops) ==> SameValue(h, src.fill, other)
    ensures
      var last := Sum(Template(ops).counts[..HEAD]);
      && last <= |src.parts.steps|
      && forall k :: 0 <= k < last && HoleOfId(src.parts.steps[k].hole).Some? ==>
                       SameValue(HoleOfId(src.parts.steps[k].hole).value, src.fill, other)
  {
    hide SameValue, Sum, Template, StepHoles, HoleId, HolesBefore, HoleOfId;
    var last := Sum(Template(ops).counts[..HEAD]);
    StepsHoldTheirHoles(ops, HEAD);
    forall k | 0 <= k < last && HoleOfId(src.parts.steps[k].hole).Some?
      ensures SameValue(HoleOfId(src.parts.steps[k].hole).value, src.fill, other)
    {
      NoHoleHasNoNumber();
      var steps := src.parts.steps[..last];
      HoleIsListed(steps, k);
      assert steps[k].hole in Ids(UrlHoles(ops));
      var i :| 0 <= i < |UrlHoles(ops)| && HoleId(UrlHoles(ops)[i]) == steps[k].hole;
      HoleIdReadsBack(UrlHoles(ops)[i]);
    }
  }

  lemma NoHoleHasNoNumber()
    ensures HoleOfId(NO_HOLE).None?
  {
  }

  // `url_len` is the length of the URL that the request writes, whatever its body, measured with
  // any values that agree with the request's at the holes of its URL.
  lemma UrlLengthIsUrlSpan(ops: seq<Op>, src: Source, measured: Filler)
    requires WellFormed(ops, ORIGIN, false) && InOrder(ops, ORIGIN) && Sealed(src, Template(ops))
    requires forall h :: h in UrlHoles(ops) ==> SameValue(h, src.fill, measured)
    requires Rendered([], ops, src.fill, src.bodyLen).Some?
    ensures |src.table.counts| == SECTIONS && src.table.StepsBefore(HEAD) <= |src.parts.steps|
    ensures
      var counted := Walked([], ORIGIN, HEAD, src.(fill := measured, bodyLen := 0));
      counted.Some? && |counted.value.out| == Rendered([], ops, src.fill, src.bodyLen).value.ends[QUERY]
  {
    hide Sealed, Walked, Rendered, WellFormed, Template, UrlHoles, Sum, SameValue;
    var src0 := src.(bodyLen := 0);
    UrlIsCounted(ops, src);
    StepsOfSealed(src, Template(ops), HEAD);
    UrlStepsAlike(ops, src0, measured);
    WalkedAlike(src0, measured);
  }

  lemma UrlIsCounted(ops: seq<Op>, src: Source)
    requires WellFormed(ops, ORIGIN, false) && InOrder(ops, ORIGIN) && Sealed(src, Template(ops))
    requires Rendered([], ops, src.fill, src.bodyLen).Some?
    ensures |src.table.counts| == SECTIONS && src.table.StepsBefore(HEAD) <= |src.parts.steps|
    ensures
      var counted := Walked([], ORIGIN, HEAD, src.(bodyLen := 0));
      counted.Some? && |counted.value.out| == Rendered([], ops, src.fill, src.bodyLen).value.ends[QUERY]
  {
    hide Sealed, WalkTo, RenderAll, EndTo, WellFormed;
    var src0, r := src.(bodyLen := 0), Rendering(Started([], 0), 0, ORIGIN);
    SealedWithoutBody(src, Template(ops));
    CompilerCorrect([], ops, src0);
    UrlWithoutBody(r, r, ops, src.fill, 0, src.bodyLen, false);
    var o := Rendered([], ops, src.fill, 0).value;
    assert EndRecorded(o.ends[QUERY], HEAD, src0, []);
    assert src.table.counts[..0] == [];
  }

  lemma WalkedAlike(src: Source, other: Filler)
    requires |src.table.counts| == SECTIONS && src.table.StepsBefore(HEAD) <= |src.parts.steps|
    requires forall k :: 0 <= k < src.table.StepsBefore(HEAD) && HoleOfId(src.parts.steps[k].hole).Some? ==>
                           SameValue(HoleOfId(src.parts.steps[k].hole).value, src.fill, other)
    ensures
      var mine, others := Walked([], ORIGIN, HEAD, src), Walked([], ORIGIN, HEAD, src.(fill := other));
      (mine.Some? <==> others.Some?) && (mine.Some? ==> others.value.out == mine.value.out)
  {
    hide WalkTo, WalkedFields, HoleOfId, SameValue;
    assert src.table.counts[..0] == [];
    WalksAlike(WalkStart([], src.table), 0, src.table.StepsBefore(HEAD), src, other);
  }

  lemma StepsOfSealed(src: Source, f: Building, section: nat)
    requires Sealed(src, f) && section <= SECTIONS
    ensures src.parts.steps == f.steps && |src.table.counts| == SECTIONS
    ensures src.table.StepsBefore(section) == Sum(f.counts[..section])
  {
    hide Sum;
    assert src.table.counts[..section] == f.counts[..section];
  }

  lemma SealedWithoutBody(src: Source, f: Building)
    requires Sealed(src, f)
    ensures Sealed(src.(bodyLen := 0), f)
  {
  }

  // ---- The body ----

  // A step of the body section: text, and no hole but the body's own.
  ghost predicate IsBodyStep(s: Step) {
    s.name == 0 && (s.hole == NO_HOLE || s.hole == HoleId(Body))
  }

  ghost predicate BodyIsPlain(b: Building) {
    forall i :: Sum(b.counts[..BODY]) <= i < |b.steps| ==> IsBodyStep(b.steps[i])
  }

  lemma NoBodyYet(b: Building)
    requires b.Ok() && b.section <= BODY && b.counts[BODY] == 0
    ensures BodyIsPlain(b)
  {
    SumOfZeros(b.counts, BODY);
  }

  lemma {:induction false} NoBodyBeforeIt(b: Building, until: nat)
    requires b.Ok() && b.section < until <= BODY && b.counts[BODY] == 0
    ensures EndTo(b, until).counts[BODY] == 0
    decreases until - b.section
  {
    hide Sum;
    if b.section + 1 < until {
      NoBodyBeforeIt(EndOne(b), until);
    } else {
      assert EndTo(b, until) == EndOne(b);
    }
  }

  lemma CallKeepsBodyPlain(b: Building, op: Op, marked: bool)
    requires b.Ok() && b.section < SECTIONS && Fits(op, b.section, marked) && BodyIsPlain(b)
    ensures BodyIsPlain(Build(b, op))
  {
    var c := Build(b, op);
    if b.section < BODY {
      assert b.counts[BODY] == 0;
      if op.Section? {
        if op.section == BODY { NoBodyBeforeIt(b, BODY); }
      }
      NoBodyYet(c);
    } else {
      InBody(b, op, marked);
    }
  }

  lemma InBody(b: Building, op: Op, marked: bool)
    requires b.Ok() && b.section == BODY && Fits(op, b.section, marked) && BodyIsPlain(b)
    ensures BodyIsPlain(Build(b, op))
  {
    hide Sum;
    var c := Build(b, op);
    assert c.counts[..BODY] == b.counts[..BODY];
  }

  lemma EndKeepsBodyPlain(b: Building)
    requires b.Ok() && b.section == BODY && BodyIsPlain(b)
    ensures BodyIsPlain(EndOne(b))
  {
    hide Sum;
    assert EndOne(b).counts[..BODY] == b.counts[..BODY];
  }

  lemma {:induction false} TemplateBodyIsPlain(b: Building, ops: seq<Op>, marked: bool)
    requires b.Ok() && b.section < SECTIONS && BodyIsPlain(b)
    requires WellFormed(ops, b.section, marked) && InOrder(ops, b.section)
    ensures BodyIsPlain(EndTo(BuildAll(b, ops), SECTIONS))
    decreases |ops|
  {
    hide Build, EndTo, BodyIsPlain, WellFormed;
    if ops == [] {
      EndedBodyIsPlain(b);
    } else {
      WellFormedIsInOrder(ops, b.section, marked);
      CallKeepsBodyPlain(b, ops[0], marked);
      TemplateBodyIsPlain(Build(b, ops[0]), ops[1..], marked || ops[0].Fields?);
    }
  }

  lemma {:induction false} EndedBodyIsPlain(b: Building)
    requires b.Ok() && b.section <= BODY && BodyIsPlain(b)
    ensures BodyIsPlain(EndTo(b, SECTIONS))
    decreases BODY - b.section
  {
    hide Sum;
    if b.section == BODY {
      EndKeepsBodyPlain(b);
      assert EndTo(b, SECTIONS) == EndOne(b);
    } else {
      assert EndOne(b).counts[BODY] == 0;
      NoBodyYet(EndOne(b));
      EndedBodyIsPlain(EndOne(b));
    }
  }

  // What the steps from `i` to `j` write into a body.
  function BodyBytes(steps: seq<Step>, fill: Filler, i: nat, j: nat): nat
    requires i <= j <= |steps|
    decreases j - i
  {
    if i == j then 0
    else
      BodyBytes(steps, fill, i, j - 1) + steps[j - 1].len
      + (if steps[j - 1].hole == HoleId(Body) && fill.value(Body).Some? then |fill.value(Body).value| else 0)
  }

  lemma BodyStepWalks(w: Walking, k: nat, src: Source)
    requires k < |src.parts.steps| && IsBodyStep(src.parts.steps[k])
    ensures
      var step, v := src.parts.steps[k], WalkStep(w, k, src);
      && (v.Some? <==> w.cursor + step.len <= |src.parts.text| && (step.hole == NO_HOLE || src.fill.value(Body).Some?))
      && (v.Some? ==> |v.value.q.out| == |w.q.out| + BodyBytes(src.parts.steps, src.fill, k, k + 1))
      && (v.Some? ==> v.value.cursor == w.cursor + step.len)
  {
    hide WalkStep;
    assert BodyBytes(src.parts.steps, src.fill, k, k) == 0;
    NoHoleId();
    if src.parts.steps[k].hole == NO_HOLE {
      PlainStepWalks(w, k, src);
    } else {
      HoleStepWalks(w, k, src);
    }
  }

  lemma PlainStepWalks(w: Walking, k: nat, src: Source)
    requires k < |src.parts.steps| && src.parts.steps[k].hole == NO_HOLE && src.parts.steps[k].name == 0
    ensures
      var step, v := src.parts.steps[k], WalkStep(w, k, src);
      && (v.Some? <==> w.cursor + step.len <= |src.parts.text|)
      && (v.Some? ==> |v.value.q.out| == |w.q.out| + step.len && v.value.cursor == w.cursor + step.len)
  {
    hide WithHole, HoleOfId;
  }

  lemma HoleStepWalks(w: Walking, k: nat, src: Source)
    requires k < |src.parts.steps| && src.parts.steps[k].hole == HoleId(Body) && src.parts.steps[k].name == 0
    ensures
      var step, v, body := src.parts.steps[k], WalkStep(w, k, src), src.fill.value(Body);
      && (v.Some? <==> w.cursor + step.len <= |src.parts.text| && body.Some?)
      && (v.Some? ==> |v.value.q.out| == |w.q.out| + step.len + |body.value| && v.value.cursor == w.cursor + step.len)
  {
    hide WithHole, HoleOfId, HoleId;
    HoleIdReadsBack(Body);
    NoHoleId();
    var step := src.parts.steps[k];
    if w.cursor + step.len <= |src.parts.text| {
      BodyFilled(w.q.Push(src.parts.text[w.cursor..w.cursor + step.len]),
                 src.parts.text[w.cursor + step.len..w.cursor + step.len + step.name], src.fill, src.bodyLen);
    }
  }

  lemma BodyFilled(q: Request, name: bytes, fill: Filler, n: nat)
    ensures WithHole(q, Body, name, fill, n)
         == if fill.value(Body).None? then None else Some(q.Push(fill.value(Body).value))
  {
    hide WithHole;
    FilledBy(q, Body, name, fill, n);
  }

  lemma NoHoleId()
    ensures HoleId(Body) != NO_HOLE
  {
  }

  // Walks of the body from two requests, with the text at one place, write as many bytes.
  lemma {:induction false} BodyWalks(w: Walking, v: Walking, i: nat, j: nat, src: Source, src': Source)
    requires i <= j <= |src.parts.steps| && src'.parts == src.parts && src'.fill == src.fill && w.cursor == v.cursor
    requires forall k :: i <= k < j ==> IsBodyStep(src.parts.steps[k])
    ensures
      var w', v' := WalkTo(w, i, j, src), WalkTo(v, i, j, src');
      && (w'.Some? <==> v'.Some?)
      && (w'.Some? ==> w'.value.cursor == v'.value.cursor)
      && (w'.Some? ==> |w'.value.q.out| == |w.q.out| + BodyBytes(src.parts.steps, src.fill, i, j))
      && (w'.Some? ==> |v'.value.q.out| == |v.q.out| + BodyBytes(src.parts.steps, src.fill, i, j))
      && (w'.Some? ==> forall k :: i <= k < j && src.parts.steps[k].hole == HoleId(Body) ==> src.fill.value(Body).Some?)
    decreases j - i
  {
    hide WalkStep;
    if i < j {
      BodyWalks(w, v, i, j - 1, src, src');
      var w', v' := WalkTo(w, i, j - 1, src), WalkTo(v, i, j - 1, src');
      if w'.Some? {
        BodyStepWalks(w'.value, j - 1, src);
        BodyStepWalks(v'.value, j - 1, src');
      }
      assert BodyBytes(src.parts.steps, src.fill, j - 1, j - 1) == 0;
    }
  }

  lemma {:induction false} WalkSplits(w: Walking, i: nat, j: nat, k: nat, src: Source)
    requires i <= j <= k <= |src.parts.steps|
    ensures
      var v := WalkTo(w, i, j, src);
      WalkTo(w, i, k, src) == if v.None? then None else WalkTo(v.value, j, k, src)
    decreases k - j
  {
    hide WalkStep;
    if j < k {
      WalkSplits(w, i, j, k - 1, src);
    }
  }

  lemma {:induction false} WalkCursor(w: Walking, k: nat, src: Source)
    requires k <= |src.parts.steps| && w.cursor == 0
    ensures WalkTo(w, 0, k, src).Some? ==> WalkTo(w, 0, k, src).value.cursor == TextBefore(src.parts.steps, k)
  {
    hide WalkStep;
    if k > 0 {
      WalkCursor(w, k - 1, src);
      if WalkTo(w, 0, k, src).Some? {
        StepCursor(WalkTo(w, 0, k - 1, src).value, k - 1, src);
      }
    }
  }

  lemma StepCursor(w: Walking, k: nat, src: Source)
    requires k < |src.parts.steps| && WalkStep(w, k, src).Some?
    ensures WalkStep(w, k, src).value.cursor == w.cursor + src.parts.steps[k].len + src.parts.steps[k].name
  {
    hide WithHole;
  }

  lemma {:induction false} FixedBody(steps: seq<Step>, fill: Filler, at: nat, first: nat)
    requires first <= at <= |steps| && FixedBodyLen(steps, at).Some?
    ensures FixedBodyLen(steps, at).value + BodyBytes(steps, fill, first, at) == BodyBytes(steps, fill, first, |steps|)
    decreases |steps| - at
  {
    if at < |steps| {
      FixedBody(steps, fill, at + 1, first);
    }
  }

  lemma {:induction false} EmptyBody(steps: seq<Step>, fill: Filler, first: nat, j: nat)
    requires first <= j <= |steps| && !HoldsBody(steps, first)
    ensures BodyBytes(steps, fill, first, j) == 0
    decreases j
  {
    if first < j {
      EmptyBody(steps, fill, first, j - 1);
    }
  }

  // A length counted by a dry walk saturates, and a sum wraps.
  function Counted(src: Source, first: nat, n: nat): (len: usize)
    ensures n <= USIZE_MAX ==> len == n
  {
    if src.fill.bodyLen.None? && HoldsHole(src.parts.steps, first) then Min(n, USIZE_MAX) else WrappingAdd(0, n)
  }

  lemma WrapsOn(a: nat, b: nat)
    ensures WrappingAdd(WrappingAdd(0, a), b) == WrappingAdd(0, a + b)
  {
  }

  // A filled body is measured, whatever the fill says of its length, and rightly if that is right.
  lemma {:induction false} FilledBody(src: Source, at: nat, first: nat, len: usize)
    requires |src.table.counts| == SECTIONS && Sum(src.table.counts) <= |src.parts.steps|
    requires first <= at <= |src.parts.steps|
    requires forall k :: first <= k < |src.parts.steps| ==> IsBodyStep(src.parts.steps[k])
    requires forall k :: first <= k < |src.parts.steps| && src.parts.steps[k].hole == HoleId(Body) ==>
               src.fill.value(Body).Some?
    requires src.fill.bodyLen.None? && HoldsHole(src.parts.steps, first) ==>
               (WholeTable(src.table); var c := Walked([], BODY, SECTIONS, src.(bodyLen := 0));
                c.Some? && |c.value.out| == BodyBytes(src.parts.steps, src.fill, first, |src.parts.steps|))
    requires src.fill.bodyLen.None? ==> forall k :: first <= k < at ==> src.parts.steps[k].hole == NO_HOLE
    ensures FilledBodyLen(src, at, len).Some?
    ensures src.fill.Honest() && len == WrappingAdd(0, BodyBytes(src.parts.steps, src.fill, first, at)) ==>
              FilledBodyLen(src, at, len).value
              == Counted(src, first, BodyBytes(src.parts.steps, src.fill, first, |src.parts.steps|))
    decreases |src.parts.steps| - at
  {
    hide Walked, Sum, WrappingAdd;
    if at < |src.parts.steps| {
      var step := src.parts.steps[at];
      var before, next := BodyBytes(src.parts.steps, src.fill, first, at), WrappingAdd(len, step.len + step.name);
      WrapsOn(before, step.len + step.name);
      if step.hole == NO_HOLE {
        FilledBody(src, at + 1, first, next);
      } else if src.fill.bodyLen.Some? {
        WrapsOn(before + step.len, src.fill.bodyLen.value);
        FilledBody(src, at + 1, first, WrappingAdd(next, src.fill.bodyLen.value));
      } else {
        assert HoldsHole(src.parts.steps, first);
      }
    }
  }

  predicate HoldsHole(steps: seq<Step>, first: nat) {
    exists k :: first <= k < |steps| && steps[k].hole != NO_HOLE
  }

  // The mark in the table tells whether the body's steps hold anything.
  ghost predicate KnowsBody(src: Source)
    requires |src.table.counts| == SECTIONS
  {
    src.table.body <==> HoldsBody(src.parts.steps, src.table.StepsBefore(BODY))
  }

  // The length that a request writes before its body is the length of the body it writes:
  // fixed text, text of a known length, or text counted by a dry walk.
  lemma ContentLengthIsBodySpan(before: bytes, ops: seq<Op>, src: Source)
    requires WellFormed(ops, ORIGIN, false) && InOrder(ops, ORIGIN) && Sealed(src, Template(ops))
    requires |src.table.counts| == SECTIONS ==> KnowsBody(src)
    requires Rendered(before, ops, src.fill, src.bodyLen).Some?
    ensures |src.table.counts| == SECTIONS && Sum(src.table.counts) == |src.parts.steps|
    ensures
      var o := Rendered(before, ops, src.fill, src.bodyLen).value;
      && o.ends[CANONICAL] <= o.ends[BODY]
      && (BodyLenOf(src).None? <==>
            src.table.body && !src.fill.writesBody && HoldsHole(src.parts.steps, src.table.StepsBefore(BODY)))
      && (BodyLenOf(src).Some? && src.fill.Honest() && SectionSpan(|before|, o.ends, BODY).len <= USIZE_MAX ==>
            BodyLenOf(src).value == SectionSpan(|before|, o.ends, BODY).len)
  {
    hide WalkTo, WalkAt, EndTo, RenderAll, WellFormed, Sealed, BodyLenOf, Sum, BodyBytes, Template, Walked,
         Encoded, HoldsBody, HoldsHole;
    var f, o := Template(ops), Rendered(before, ops, src.fill, src.bodyLen).value;
    StepsAll(src, f);
    CompilerCorrect(before, ops, src);
    WholeTable(src.table);
    PlainBody(ops, src, f);
    var first, total := src.table.StepsBefore(BODY), |src.parts.steps|;
    assert EndRecorded(o.ends[CANONICAL], BODY, src, before) && EndRecorded(o.ends[BODY], SECTIONS, src, before);
    BodyWalked(before, src, first, total);
    Measured(src, first);
  }

  // The walk of the body, and the dry walk that counts it.
  lemma BodyWalked(before: bytes, src: Source, first: nat, total: nat)
    requires first <= total == |src.parts.steps|
    requires forall k :: first <= k < total ==> IsBodyStep(src.parts.steps[k])
    requires WalkAt(first, src, before).Some? && WalkAt(total, src, before).Some?
    ensures |WalkAt(total, src, before).value.q.out| - |WalkAt(first, src, before).value.q.out|
         == BodyBytes(src.parts.steps, src.fill, first, total)
    ensures
      var v := WalkTo(Walking(Started([], src.table.params), TextBefore(src.parts.steps, first)), first, total,
                      src.(bodyLen := 0));
      v.Some? && |v.value.q.out| == BodyBytes(src.parts.steps, src.fill, first, total)
    ensures forall k :: first <= k < total && src.parts.steps[k].hole == HoleId(Body) ==> src.fill.value(Body).Some?
  {
    hide WalkTo, TextBefore, BodyBytes;
    WalkSplits(WalkStart(before, src.table), 0, first, total, src);
    WalkCursor(WalkStart(before, src.table), first, src);
    var v := Walking(Started([], src.table.params), TextBefore(src.parts.steps, first));
    BodyWalks(WalkAt(first, src, before).value, v, first, total, src, src.(bodyLen := 0));
  }

  lemma PlainBody(ops: seq<Op>, src: Source, f: Building)
    requires WellFormed(ops, ORIGIN, false) && InOrder(ops, ORIGIN) && f == Template(ops) && Sealed(src, f)
    ensures |src.table.counts| == SECTIONS && src.table.StepsBefore(BODY) <= |src.parts.steps|
    ensures forall k :: src.table.StepsBefore(BODY) <= k < |src.parts.steps| ==> IsBodyStep(src.parts.steps[k])
  {
    hide WellFormed, EndTo, BuildAll;
    NothingBuiltIsOk();
    NoBodyYet(NOTHING_BUILT);
    TemplateBodyIsPlain(NOTHING_BUILT, ops, false);
    SealedBody(src, f);
  }

  lemma SealedBody(src: Source, f: Building)
    requires Sealed(src, f) && BodyIsPlain(f)
    ensures |src.table.counts| == SECTIONS && src.table.StepsBefore(BODY) <= |src.parts.steps|
    ensures forall k :: src.table.StepsBefore(BODY) <= k < |src.parts.steps| ==> IsBodyStep(src.parts.steps[k])
  {
    assert src.table.counts[..BODY] == f.counts[..BODY];
    SumOfPrefix(f.counts, BODY);
  }

  lemma Measured(src: Source, first: nat)
    requires |src.table.counts| == SECTIONS && Sum(src.table.counts) == |src.parts.steps|
    requires first == src.table.StepsBefore(BODY) <= |src.parts.steps| && KnowsBody(src)
    requires forall k :: first <= k < |src.parts.steps| ==> IsBodyStep(src.parts.steps[k])
    requires forall k :: first <= k < |src.parts.steps| && src.parts.steps[k].hole == HoleId(Body) ==>
               src.fill.value(Body).Some?
    requires
      var v := WalkTo(Walking(Started([], src.table.params), TextBefore(src.parts.steps, first)), first,
                      |src.parts.steps|, src.(bodyLen := 0));
      v.Some? && |v.value.q.out| == BodyBytes(src.parts.steps, src.fill, first, |src.parts.steps|)
    ensures BodyLenOf(src).None? <==> src.table.body && !src.fill.writesBody && HoldsHole(src.parts.steps, first)
    ensures
      var n := BodyBytes(src.parts.steps, src.fill, first, |src.parts.steps|);
      BodyLenOf(src).Some? && src.fill.Honest() ==>
        BodyLenOf(src).value == if src.table.body && src.fill.writesBody then Counted(src, first, n) else n
  {
    hide WalkTo, Sum;
    var total := |src.parts.steps|;
    WholeTable(src.table);
    assert BodyBytes(src.parts.steps, src.fill, first, first) == 0;
    if !src.table.body {
      EmptyBody(src.parts.steps, src.fill, first, total);
    } else if !src.fill.writesBody {
      FixedOrRefused(src.parts.steps, first);
      if FixedBodyLen(src.parts.steps, first).Some? {
        FixedBody(src.parts.steps, src.fill, first, first);
      }
    } else {
      FilledBody(src, first, first, 0);
    }
  }

  lemma {:induction false} FixedOrRefused(steps: seq<Step>, at: nat)
    requires at <= |steps|
    ensures FixedBodyLen(steps, at).None? <==> HoldsHole(steps, at)
    decreases |steps| - at
  {
    if at < |steps| {
      FixedOrRefused(steps, at + 1);
    }
  }
}
