/** What the spans that encoding returns name in its buffer: the sections, the fields, the
    placeholders and the body, each where the layout writes it. */
module TemplateParts {
  import opened Bytes
  import opened ChecksumKinds
  import opened Numbers
  import opened Requests
  import opened Layouts
  import opened Tables
  import opened Passes
  import opened TemplateCorrectness
  import opened TemplateHoles
  import opened TemplateLengths
  import opened TemplateMeaning
  import Url

  // ---- The bytes of a section ----

  // What the calls `ops` write while their section is `section`.
  function SectionBytes(r: Rendering, ops: seq<Op>, section: nat, fill: Filler, n: nat): bytes
    decreases |ops|
  {
    if ops == [] then []
    else
      match Render(r, ops[0], fill, n)
      case None => []
      case Some(next) =>
        (if r.section == section then Slice(next.q.out, |r.q.out|, |next.q.out|) else [])
        + SectionBytes(next, ops[1..], section, fill, n)
  }

  // Where the section `i` starts and ends, once the calls after `r` are rendered as `s`.
  function StartOf(r: Rendering, s: Rendering, i: nat): nat
    requires i < SECTIONS
  {
    if i <= r.section then |r.q.out| else EndOf(s, i - 1)
  }

  function EndOf(s: Rendering, i: nat): nat
    requires i < SECTIONS
  {
    s.q.EndSections(s.section, SECTIONS).ends[i]
  }

  lemma {:induction false} NothingBefore(r: Rendering, ops: seq<Op>, section: nat, fill: Filler, n: nat)
    requires r.section < SECTIONS && InOrder(ops, r.section) && section < r.section
    ensures SectionBytes(r, ops, section, fill, n) == []
    decreases |ops|
  {
    hide Render;
    if ops != [] && Render(r, ops[0], fill, n).Some? {
      CallExtends(r, ops[0], fill, n);
      NothingBefore(Render(r, ops[0], fill, n).value, ops[1..], section, fill, n);
    }
  }

  lemma {:induction false} SectionIsWritten(r: Rendering, ops: seq<Op>, i: nat, fill: Filler, n: nat)
    requires r.section <= i < SECTIONS && InOrder(ops, r.section) && RenderAll(r, ops, fill, n).Some?
    ensures
      var s := RenderAll(r, ops, fill, n).value;
      && StartOf(r, s, i) <= EndOf(s, i) <= |s.q.out|
      && s.q.out[StartOf(r, s, i)..EndOf(s, i)] == SectionBytes(r, ops, i, fill, n)
    decreases |ops|
  {
    hide Render, Extends;
    if ops != [] {
      var next := Render(r, ops[0], fill, n).value;
      CallExtends(r, ops[0], fill, n);
      RenderExtends(next, ops[1..], fill, n);
      if next.section <= i {
        SectionIsWritten(next, ops[1..], i, fill, n);
      } else {
        NothingBefore(next, ops[1..], i, fill, n);
      }
      SectionGoesOn(r, next, RenderAll(next, ops[1..], fill, n).value, ops[0], i, fill, n,
                    SectionBytes(next, ops[1..], i, fill, n));
    }
  }

  // One call, before the others.
  lemma SectionGoesOn(r: Rendering, next: Rendering, s: Rendering, op: Op, i: nat, fill: Filler, n: nat, more: bytes)
    requires r.section <= i < SECTIONS && Render(r, op, fill, n) == Some(next) && Extends(r, next) && Extends(next, s)
    requires next.section == if op.Section? then op.section else r.section
    requires op.Section? ==> r.section < op.section
    requires next.section <= i ==>
               StartOf(next, s, i) <= EndOf(s, i) <= |s.q.out| && s.q.out[StartOf(next, s, i)..EndOf(s, i)] == more
    requires next.section > i ==> more == []
    ensures StartOf(r, s, i) <= EndOf(s, i) <= |s.q.out|
    ensures s.q.out[StartOf(r, s, i)..EndOf(s, i)]
         == (if r.section == i then Slice(next.q.out, |r.q.out|, |next.q.out|) else []) + more
  {
    hide WithHole;
    if op.Section? {
      assert next.q.out == r.q.out;
      assert forall k :: r.section <= k < next.section ==> s.q.ends[k] == |r.q.out|;
    } else if r.section == i {
      var to := EndOf(s, i);
      assert s.q.out[|r.q.out|..to] == s.q.out[|r.q.out|..|next.q.out|] + s.q.out[|next.q.out|..to];
      PrefixSlice(s.q.out, next.q.out, |r.q.out|, |next.q.out|);
    }
  }

  // Calls that start no section.
  predicate StartsNone(ops: seq<Op>) {
    forall op :: op in ops ==> !op.Section?
  }

  lemma {:induction false} StaysIn(ops: seq<Op>, section: nat)
    requires StartsNone(ops)
    ensures SectionAfter(ops, section) == section
    decreases |ops|
  {
    if ops != [] {
      assert ops[0] in ops;
      StaysIn(ops[1..], section);
    }
  }

  lemma {:induction false} SectionInTwo(r: Rendering, a: seq<Op>, b: seq<Op>, i: nat, fill: Filler, n: nat)
    requires RenderAll(r, a, fill, n).Some?
    ensures SectionBytes(r, a + b, i, fill, n)
         == SectionBytes(r, a, i, fill, n) + SectionBytes(RenderAll(r, a, fill, n).value, b, i, fill, n)
    decreases |a|
  {
    hide Render;
    if a == [] {
      assert a + b == b;
    } else {
      assert (a + b)[1..] == a[1..] + b;
      var next := Render(r, a[0], fill, n).value;
      SectionInTwo(next, a[1..], b, i, fill, n);
      var here := if r.section == i then Slice(next.q.out, |r.q.out|, |next.q.out|) else [];
      Associates(here, SectionBytes(next, a[1..], i, fill, n),
                 SectionBytes(RenderAll(next, a[1..], fill, n).value, b, i, fill, n));
    }
  }

  lemma Associates(a: bytes, b: bytes, c: bytes)
    ensures a + b + c == a + (b + c)
  {
  }

  // Calls that start no section write all of what they write into theirs.
  lemma {:induction false} OneSection(r: Rendering, c: seq<Op>, fill: Filler, n: nat)
    requires StartsNone(c) && r.section < SECTIONS && InOrder(c, r.section) && RenderAll(r, c, fill, n).Some?
    ensures
      var s := RenderAll(r, c, fill, n).value;
      |r.q.out| <= |s.q.out| && SectionBytes(r, c, r.section, fill, n) == s.q.out[|r.q.out|..]
    decreases |c|
  {
    hide Render, Extends;
    RenderExtends(r, c, fill, n);
    ExtendedOut(r, RenderAll(r, c, fill, n).value);
    if c != [] {
      assert c[0] in c;
      var next := Render(r, c[0], fill, n).value;
      CallExtends(r, c[0], fill, n);
      ExtendedOut(r, next);
      OneSection(next, c[1..], fill, n);
      RenderExtends(next, c[1..], fill, n);
      ExtendedOut(next, RenderAll(next, c[1..], fill, n).value);
      InTwo(r.q.out, next.q.out, RenderAll(r, c, fill, n).value.q.out);
    }
  }

  lemma ExtendedOut(r: Rendering, s: Rendering)
    requires Extends(r, s)
    ensures |r.q.out| <= |s.q.out| && s.q.out[..|r.q.out|] == r.q.out
  {
  }

  lemma InTwo(a: bytes, b: bytes, c: bytes)
    requires |a| <= |b| <= |c| && c[..|b|] == b
    ensures c[|a|..] == Slice(b, |a|, |b|) + c[|b|..]
  {
    PrefixSlice(c, b, |a|, |b|);
    assert c[|a|..] == c[|a|..|b|] + c[|b|..];
  }

  // In the other sections, such calls write nothing.
  lemma {:induction false} OtherSections(r: Rendering, c: seq<Op>, i: nat, fill: Filler, n: nat)
    requires StartsNone(c) && r.section < SECTIONS && InOrder(c, r.section) && i != r.section
    ensures SectionBytes(r, c, i, fill, n) == []
    decreases |c|
  {
    hide Render, Extends;
    if c != [] && Render(r, c[0], fill, n).Some? {
      assert c[0] in c;
      CallExtends(r, c[0], fill, n);
      OtherSections(Render(r, c[0], fill, n).value, c[1..], i, fill, n);
    }
  }

  lemma {:induction false} NothingAfter(r: Rendering, ops: seq<Op>, i: nat, fill: Filler, n: nat)
    requires r.section < SECTIONS && InOrder(ops, r.section) && SectionAfter(ops, r.section) < i
    ensures SectionBytes(r, ops, i, fill, n) == []
    decreases |ops|
  {
    hide Render, Extends;
    AfterIsLater(ops, r.section);
    if ops != [] && Render(r, ops[0], fill, n).Some? {
      CallExtends(r, ops[0], fill, n);
      NothingAfter(Render(r, ops[0], fill, n).value, ops[1..], i, fill, n);
    }
  }

  lemma {:induction false} AfterIsLater(ops: seq<Op>, section: nat)
    requires InOrder(ops, section)
    ensures section <= SectionAfter(ops, section)
    decreases |ops|
  {
    if ops != [] {
      AfterIsLater(ops[1..], if ops[0].Section? then ops[0].section else section);
    }
  }

  // A section is what the calls between its start and the next section's write.
  lemma SectionIsBetween(r: Rendering, a: seq<Op>, section: nat, c: seq<Op>, d: seq<Op>, fill: Filler, n: nat)
    requires r.section < SECTIONS && InOrder(a + ([Section(section)] + (c + d)), r.section) && StartsNone(c)
    requires d == [] || d[0].Section?
    requires RenderAll(r, a + ([Section(section)] + (c + d)), fill, n).Some?
    ensures
      var before, after := RenderAll(r, a, fill, n), RenderAll(r, a + ([Section(section)] + c), fill, n);
      && before.Some? && after.Some? && |before.value.q.out| <= |after.value.q.out|
      && SectionBytes(r, a + ([Section(section)] + (c + d)), section, fill, n)
         == after.value.q.out[|before.value.q.out|..]
  {
    hide RenderAll, Render, SectionBytes, Extends, InOrder, SectionAfter, StartsNone;
    var rest := [Section(section)] + (c + d);
    InOrderInParts(a, rest, r.section);
    RenderInParts(r, a, rest, fill, n);
    RenderInParts(r, a, [Section(section)] + c, fill, n);
    var p := RenderAll(r, a, fill, n).value;
    RenderExtends(r, a, fill, n);
    InOrderWithout(section, c, d, p.section);
    SectionFirst(p, section, c + d, fill, n);
    SectionFirst(p, section, c, fill, n);
    var q := Render(p, Section(section), fill, n).value;
    SectionInTwo(r, a, rest, section, fill, n);
    NothingAfter(r, a, section, fill, n);
    StartedSection(q, c, d, fill, n);
    Alone(SectionBytes(q, c + d, section, fill, n));
  }

  lemma InOrderWithout(section: nat, c: seq<Op>, d: seq<Op>, at: nat)
    requires InOrder([Section(section)] + (c + d), at)
    ensures InOrder([Section(section)] + c, at) && InOrder(c + d, section)
  {
    assert ([Section(section)] + (c + d))[1..] == c + d && ([Section(section)] + c)[1..] == c;
    InOrderInParts(c, d, section);
  }

  // Once a section has started, the calls up to the next one's write all of it.
  lemma StartedSection(q: Rendering, c: seq<Op>, d: seq<Op>, fill: Filler, n: nat)
    requires q.section < SECTIONS && InOrder(c + d, q.section) && StartsNone(c) && (d == [] || d[0].Section?)
    requires RenderAll(q, c + d, fill, n).Some?
    ensures RenderAll(q, c, fill, n).Some?
    ensures
      var s := RenderAll(q, c, fill, n).value;
      |q.q.out| <= |s.q.out| && SectionBytes(q, c + d, q.section, fill, n) == s.q.out[|q.q.out|..]
  {
    hide RenderAll, SectionBytes, Extends, InOrder, SectionAfter, StartsNone;
    InOrderInParts(c, d, q.section);
    StaysIn(c, q.section);
    RenderInParts(q, c, d, fill, n);
    RenderExtends(q, c, fill, n);
    SectionInTwo(q, c, d, q.section, fill, n);
    OneSection(q, c, fill, n);
    NextIsOther(RenderAll(q, c, fill, n).value, d, q.section, fill, n);
    Alone(SectionBytes(q, c, q.section, fill, n));
  }

  lemma Alone(s: bytes)
    ensures [] + s == s && s + [] == s
  {
  }

  // The first call of these starts a section, and writes nothing.
  lemma SectionFirst(p: Rendering, section: nat, rest: seq<Op>, fill: Filler, n: nat)
    requires InOrder([Section(section)] + rest, p.section)
    ensures p.section < section < SECTIONS && InOrder(rest, section)
    ensures Render(p, Section(section), fill, n).Some?
    ensures
      var q := Render(p, Section(section), fill, n).value;
      && q.q.out == p.q.out && q.section == section
      && RenderAll(p, [Section(section)] + rest, fill, n) == RenderAll(q, rest, fill, n)
      && SectionBytes(p, [Section(section)] + rest, section, fill, n) == SectionBytes(q, rest, section, fill, n)
  {
    assert ([Section(section)] + rest)[1..] == rest;
    var q := Render(p, Section(section), fill, n).value;
    Alone(SectionBytes(q, rest, section, fill, n));
  }

  lemma NextIsOther(q: Rendering, d: seq<Op>, section: nat, fill: Filler, n: nat)
    requires q.section == section < SECTIONS && InOrder(d, section) && (d == [] || d[0].Section?)
    ensures SectionBytes(q, d, section, fill, n) == []
  {
    if d != [] {
      var t := Render(q, d[0], fill, n).value;
      NothingBefore(t, d[1..], section, fill, n);
    }
  }

  // ---- Where holes stand ----

  // Where the calls write the hole `h`: the place of each, in the order of the layout.
  function PlacesOf(h: Hole, r: Rendering, ops: seq<Op>, fill: Filler, n: nat): seq<nat>
    decreases |ops|
  {
    if ops == [] then []
    else
      match Render(r, ops[0], fill, n)
      case None => []
      case Some(next) => PlaceIn(h, r, ops[0]) + PlacesOf(h, next, ops[1..], fill, n)
  }

  // The place of `h` in one call: where that starts, or after the name of its parameter.
  function PlaceIn(h: Hole, r: Rendering, op: Op): seq<nat> {
    match op
    case Fill(g) => if g == h then [|r.q.out|] else []
    case Param(name, Filled(g)) => if g == h then [|r.q.Separated().Push(name + EQUALS).out|] else []
    case Param(_, Optional(g)) => if g == h then [|r.q.out|] else []
    case _ => []
  }

  lemma {:induction false} PlacesInTwo(h: Hole, r: Rendering, a: seq<Op>, b: seq<Op>, fill: Filler, n: nat)
    requires RenderAll(r, a, fill, n).Some?
    ensures PlacesOf(h, r, a + b, fill, n)
         == PlacesOf(h, r, a, fill, n) + PlacesOf(h, RenderAll(r, a, fill, n).value, b, fill, n)
    decreases |a|
  {
    hide Render, PlaceIn;
    if a == [] {
      assert a + b == b;
    } else {
      assert (a + b)[1..] == a[1..] + b;
      PlacesInTwo(h, Render(r, a[0], fill, n).value, a[1..], b, fill, n);
    }
  }

  // A hole that stands alone stands where the calls before it end.
  lemma PlaceIsWhereCallsEnd(h: Hole, r: Rendering, a: seq<Op>, b: seq<Op>, fill: Filler, n: nat)
    requires RenderAll(r, a + ([Fill(h)] + b), fill, n).Some?
    ensures RenderAll(r, a, fill, n).Some?
    ensures
      var k, places := |PlacesOf(h, r, a, fill, n)|, PlacesOf(h, r, a + ([Fill(h)] + b), fill, n);
      k < |places| && places[k] == |RenderAll(r, a, fill, n).value.q.out|
  {
    hide RenderAll, PlacesOf;
    RenderInParts(r, a, [Fill(h)] + b, fill, n);
    PlacesInTwo(h, r, a, [Fill(h)] + b, fill, n);
    FirstPlace(h, RenderAll(r, a, fill, n).value, b, fill, n);
  }

  lemma FirstPlace(h: Hole, r: Rendering, b: seq<Op>, fill: Filler, n: nat)
    requires RenderAll(r, [Fill(h)] + b, fill, n).Some?
    ensures PlacesOf(h, r, [Fill(h)] + b, fill, n) != [] && PlacesOf(h, r, [Fill(h)] + b, fill, n)[0] == |r.q.out|
  {
    hide WithHole;
  }

  // ---- Placeholders ----

  // What stands for a hash or a signature until it is known, and for a checksum: zeros, and the
  // padding character.
  function Placeholder(h: Hole, fill: Filler): bytes {
    if h != BodyChecksum then Repeated('0' as int, 64)
    else if fill.bodyChecksum.Some? then Repeated('=' as int, TextLen(fill.bodyChecksum.value))
    else []
  }

  // A span is recorded at the last of the places.
  predicate IsLast(mark: Option<Span>, places: seq<nat>, len: nat) {
    mark == if places == [] then None else Some(Span(places[|places| - 1], len))
  }

  // The first places have the slots, in order, until those are full.
  predicate AreFirst(slots: seq<Option<Span>>, places: seq<nat>, len: nat) {
    forall k :: 0 <= k < |slots| ==> slots[k] == if k < |places| then Some(Span(places[k], len)) else None
  }

  // The placeholders recorded are those at these places.
  ghost predicate MarksAre(marks: Marks, signature: seq<nat>, hash: seq<nat>, checksum: seq<nat>, fill: Filler) {
    && IsLast(marks.signature, signature, 64)
    && |marks.bodyHash| == 3 && AreFirst(marks.bodyHash, hash, 64)
    && |marks.bodyChecksum| == 2 && AreFirst(marks.bodyChecksum, checksum, |Placeholder(BodyChecksum, fill)|)
  }

  lemma {:induction false} RecordedNext(slots: seq<Option<Span>>, span: Span, k: nat)
    requires forall i :: 0 <= i < |slots| ==> (slots[i].Some? <==> i < k)
    ensures Recorded(slots, span) == if k < |slots| then slots[k := Some(span)] else slots
  {
    if slots != [] && slots[0].Some? {
      RecordedNext(slots[1..], span, k - 1);
      assert slots == [slots[0]] + slots[1..];
    }
  }

  lemma RecordsFirst(slots: seq<Option<Span>>, places: seq<nat>, at: nat, len: nat)
    requires AreFirst(slots, places, len)
    ensures |Recorded(slots, Span(at, len))| == |slots|
    ensures AreFirst(Recorded(slots, Span(at, len)), places + [at], len)
  {
    RecordedNext(slots, Span(at, len), |places|);
    var recorded, more := Recorded(slots, Span(at, len)), places + [at];
    forall k | 0 <= k < |slots| ensures recorded[k] == if k < |more| then Some(Span(more[k], len)) else None {
      assert k < |places| ==> more[k] == places[k];
    }
  }

  // One hole: its placeholder is written where it stands, and recorded there.
  lemma MarkIsWritten(q: Request, h: Hole, name: bytes, fill: Filler, n: nat, signature: seq<nat>, hash: seq<nat>,
                      checksum: seq<nat>)
    requires MarksAre(q.marks, signature, hash, checksum, fill) && WithHole(q, h, name, fill, n).Some?
    ensures
      var p, at := WithHole(q, h, name, fill, n).value, [|q.out|];
      && MarksAre(p.marks, signature + (if h == Signature then at else []), hash + (if h == BodyHash then at else []),
                  checksum + (if h == BodyChecksum then at else []), fill)
      && (IsMarkHole(h) ==> p.out == q.out + Placeholder(h, fill))
  {
    hide WithHole, WithUrl, WithParam, Request.Separated, Recorded, TextLen, Decimal, AreFirst;
    NoMore(signature, hash, checksum);
    if IsMarkHole(h) {
      FilledBy(q, h, name, fill, n);
      RecordsFirst(q.marks.bodyHash, hash, |q.out|, 64);
      RecordsFirst(q.marks.bodyChecksum, checksum, |q.out|, |Placeholder(BodyChecksum, fill)|);
    } else {
      OthersKeepMarks(q, h, name, fill, n);
    }
  }

  lemma OthersKeepMarks(q: Request, h: Hole, name: bytes, fill: Filler, n: nat)
    requires !IsMarkHole(h) && WithHole(q, h, name, fill, n).Some?
    ensures WithHole(q, h, name, fill, n).value.marks == q.marks
  {
    hide WithHole, Url.PercentEncoded, Decimal;
    FilledBy(q, h, name, fill, n);
    OneKind(h);
  }

  lemma NoMore(signature: seq<nat>, hash: seq<nat>, checksum: seq<nat>)
    ensures signature + [] == signature && hash + [] == hash && checksum + [] == checksum
  {
  }

  lemma CallMarks(r: Rendering, op: Op, fill: Filler, n: nat, signature: seq<nat>, hash: seq<nat>, checksum: seq<nat>)
    requires MarksAre(r.q.marks, signature, hash, checksum, fill) && Render(r, op, fill, n).Some?
    ensures MarksAre(Render(r, op, fill, n).value.q.marks, signature + PlaceIn(Signature, r, op),
                     hash + PlaceIn(BodyHash, r, op), checksum + PlaceIn(BodyChecksum, r, op), fill)
  {
    hide WithHole, MarksAre;
    NoMore(signature, hash, checksum);
    match op
    case Fill(h) => MarkIsWritten(r.q, h, [], fill, n, signature, hash, checksum);
    case Param(name, Filled(h)) =>
      MarkIsWritten(r.q.Separated().Push(name + EQUALS), h, [], fill, n, signature, hash, checksum);
    case Param(name, Optional(h)) => MarkIsWritten(r.q, h, name, fill, n, signature, hash, checksum);
    case _ =>
  }

  // A request records exactly the places of its placeholders.
  lemma {:induction false} MarksArePlaces(r: Rendering, ops: seq<Op>, fill: Filler, n: nat, signature: seq<nat>,
                                          hash: seq<nat>, checksum: seq<nat>)
    requires MarksAre(r.q.marks, signature, hash, checksum, fill) && RenderAll(r, ops, fill, n).Some?
    ensures MarksAre(RenderAll(r, ops, fill, n).value.q.marks, signature + PlacesOf(Signature, r, ops, fill, n),
                     hash + PlacesOf(BodyHash, r, ops, fill, n),
                     checksum + PlacesOf(BodyChecksum, r, ops, fill, n), fill)
    decreases |ops|
  {
    hide Render, MarksAre, PlaceIn;
    if ops == [] {
      NoMore(signature, hash, checksum);
    } else {
      var next := Render(r, ops[0], fill, n).value;
      CallMarks(r, ops[0], fill, n, signature, hash, checksum);
      MarksArePlaces(next, ops[1..], fill, n, signature + PlaceIn(Signature, r, ops[0]),
                     hash + PlaceIn(BodyHash, r, ops[0]), checksum + PlaceIn(BodyChecksum, r, ops[0]));
      MoreInTurn(signature, PlaceIn(Signature, r, ops[0]), PlacesOf(Signature, next, ops[1..], fill, n));
      MoreInTurn(hash, PlaceIn(BodyHash, r, ops[0]), PlacesOf(BodyHash, next, ops[1..], fill, n));
      MoreInTurn(checksum, PlaceIn(BodyChecksum, r, ops[0]), PlacesOf(BodyChecksum, next, ops[1..], fill, n));
    }
  }

  lemma MoreInTurn(a: seq<nat>, b: seq<nat>, c: seq<nat>)
    ensures a + b + c == a + (b + c)
  {
  }

  // ---- What stands there ----

  // The text that stands where the hole `h` does: a placeholder, the length of the body, or the
  // request's own value.
  function TextAt(h: Hole, fill: Filler, n: nat): bytes {
    if IsMarkHole(h) then Placeholder(h, fill)
    else if h == BodyLength then Decimal(n)
    else if fill.value(h).Some? then fill.value(h).value
    else []
  }

  // `text` stands at `at`.
  predicate Stands(out: bytes, at: nat, text: bytes) {
    at + |text| <= |out| && out[at..at + |text|] == text
  }

  lemma StandsOn(r: Rendering, s: Rendering, at: nat, text: bytes)
    requires Extends(r, s) && Stands(r.q.out, at, text)
    ensures Stands(s.q.out, at, text)
  {
    PrefixSlice(s.q.out, r.q.out, at, at + |text|);
  }

  lemma HoleStands(q: Request, h: Hole, name: bytes, fill: Filler, n: nat)
    requires !IsUrlHole(h) && !IsParamHole(h) && WithHole(q, h, name, fill, n).Some?
    ensures Stands(WithHole(q, h, name, fill, n).value.out, |q.out|, TextAt(h, fill, n))
  {
    hide WithHole, Decimal, WithUrl, WithParam, TextLen;
    FilledBy(q, h, name, fill, n);
  }

  lemma CallStands(h: Hole, r: Rendering, op: Op, fill: Filler, n: nat)
    requires !IsUrlHole(h) && !IsParamHole(h) && Render(r, op, fill, n).Some?
    ensures forall at :: at in PlaceIn(h, r, op) ==>
              Stands(Render(r, op, fill, n).value.q.out, at, TextAt(h, fill, n))
  {
    hide WithHole, TextAt, IsUrlHole, IsParamHole, Stands;
    match op
    case Fill(g) => if g == h { HoleStands(r.q, h, [], fill, n); }
    case Param(name, Filled(g)) =>
      if g == h { HoleStands(r.q.Separated().Push(name + EQUALS), h, [], fill, n); }
    case Param(name, Optional(g)) => if g == h { HoleStands(r.q, h, name, fill, n); }
    case _ =>
  }

  // At each place of a hole stands its text, whatever is written after it.
  lemma {:induction false} HolesStand(h: Hole, r: Rendering, ops: seq<Op>, fill: Filler, n: nat)
    requires !IsUrlHole(h) && !IsParamHole(h)
    requires r.section < SECTIONS && InOrder(ops, r.section) && RenderAll(r, ops, fill, n).Some?
    ensures forall at :: at in PlacesOf(h, r, ops, fill, n) ==>
              Stands(RenderAll(r, ops, fill, n).value.q.out, at, TextAt(h, fill, n))
    decreases |ops|
  {
    hide Render, Extends, Stands, PlaceIn, TextAt, IsUrlHole, IsParamHole;
    if ops != [] {
      var next, s := Render(r, ops[0], fill, n).value, RenderAll(r, ops, fill, n).value;
      CallExtends(r, ops[0], fill, n);
      RenderExtends(next, ops[1..], fill, n);
      CallStands(h, r, ops[0], fill, n);
      HolesStand(h, next, ops[1..], fill, n);
      forall at | at in PlaceIn(h, r, ops[0]) ensures Stands(s.q.out, at, TextAt(h, fill, n)) {
        StandsOn(next, s, at, TextAt(h, fill, n));
      }
    }
  }

  // A text stands where the calls before it end.
  lemma TextStands(r: Rendering, a: seq<Op>, text: bytes, b: seq<Op>, fill: Filler, n: nat)
    requires r.section < SECTIONS && InOrder(a + ([Text(text)] + b), r.section)
    requires RenderAll(r, a + ([Text(text)] + b), fill, n).Some?
    ensures RenderAll(r, a, fill, n).Some?
    ensures Stands(RenderAll(r, a + ([Text(text)] + b), fill, n).value.q.out,
                   |RenderAll(r, a, fill, n).value.q.out|, text)
  {
    hide RenderAll, Extends, InOrder;
    InOrderInParts(a, [Text(text)] + b, r.section);
    RenderInParts(r, a, [Text(text)] + b, fill, n);
    RenderExtends(r, a, fill, n);
    FirstText(RenderAll(r, a, fill, n).value, text, b, fill, n);
  }

  lemma FirstText(p: Rendering, text: bytes, b: seq<Op>, fill: Filler, n: nat)
    requires p.section < SECTIONS && InOrder([Text(text)] + b, p.section)
    requires RenderAll(p, [Text(text)] + b, fill, n).Some?
    ensures Stands(RenderAll(p, [Text(text)] + b, fill, n).value.q.out, |p.q.out|, text)
  {
    hide Extends;
    assert ([Text(text)] + b)[1..] == b;
    var q := p.(q := p.q.Push(text));
    RenderExtends(q, b, fill, n);
    StandsOn(q, RenderAll(q, b, fill, n).value, |p.q.out|, text);
  }

  // ---- The field lines ----

  lemma {:induction false} FieldsKept(r: Rendering, ops: seq<Op>, fill: Filler, n: nat)
    requires Fields !in ops && RenderAll(r, ops, fill, n).Some?
    ensures RenderAll(r, ops, fill, n).value.fields == r.fields
    decreases |ops|
  {
    hide WithHole;
    if ops != [] {
      assert ops == [ops[0]] + ops[1..];
      FieldsKept(Render(r, ops[0], fill, n).value, ops[1..], fill, n);
    }
  }

  // The field lines start where the calls before their mark end.
  lemma FieldsStand(r: Rendering, a: seq<Op>, b: seq<Op>, fill: Filler, n: nat)
    requires Fields !in b && RenderAll(r, a + ([Fields] + b), fill, n).Some?
    ensures RenderAll(r, a, fill, n).Some?
    ensures RenderAll(r, a + ([Fields] + b), fill, n).value.fields == |RenderAll(r, a, fill, n).value.q.out|
  {
    hide RenderAll;
    RenderInParts(r, a, [Fields] + b, fill, n);
    FieldsFirst(RenderAll(r, a, fill, n).value, b, fill, n);
  }

  lemma FieldsFirst(p: Rendering, b: seq<Op>, fill: Filler, n: nat)
    requires Fields !in b && RenderAll(p, [Fields] + b, fill, n).Some?
    ensures RenderAll(p, [Fields] + b, fill, n).value.fields == |p.q.out|
  {
    assert ([Fields] + b)[1..] == b;
    FieldsKept(p.(fields := |p.q.out|), b, fill, n);
  }

  // ---- The body ----

  // Whether the calls write a body: text or a hole in its section.
  predicate WritesBody(ops: seq<Op>, at: nat)
    decreases |ops|
  {
    ops != [] && ((at == BODY && IsContent(ops[0])) || WritesBody(ops[1..], SectionOf(ops[0], at)))
  }

  predicate IsContent(op: Op) {
    op.Fill? || (op.Text? && op.text != [])
  }

  // Whether the builder has text or a hole in the body.
  predicate HasBody(b: Building) {
    HoldsBody(b.steps, Sum(b.counts[..BODY]))
  }

  lemma NoBodySteps(b: Building)
    requires b.Ok() && b.section <= BODY && b.counts[BODY] == 0
    ensures !HasBody(b)
  {
    SumOfZeros(b.counts, BODY);
  }

  lemma CallBody(b: Building, op: Op, marked: bool)
    requires b.Ok() && b.section < SECTIONS && Fits(op, b.section, marked)
    ensures HasBody(Build(b, op)) <==> HasBody(b) || (b.section == BODY && IsContent(op))
  {
    hide HasBody, Building.Ok, EndTo, PushText, PutHole, PutName, PutSeparator, Mark;
    if b.section < BODY {
      BodyComesLater(b, op, marked);
    } else {
      match op
      case Text(text) => TextBody(b, text);
      case Fill(h) => HoleBody(b, h);
      case Fields => MarkBody(b);
    }
  }

  lemma BodyComesLater(b: Building, op: Op, marked: bool)
    requires b.Ok() && b.section < BODY && Fits(op, b.section, marked)
    ensures !HasBody(b) && !HasBody(Build(b, op))
  {
    NoBodySteps(b);
    if op.Section? && op.section == BODY {
      NoBodyBeforeIt(b, BODY);
    }
    NoBodySteps(Build(b, op));
  }

  lemma TextBody(b: Building, text: bytes)
    requires b.Ok() && b.section == BODY
    ensures HasBody(PushText(b, text)) <==> HasBody(b) || text != []
  {
    hide Sum;
    BodySteps(b);
    var c, first := PushText(b, text), Sum(b.counts[..BODY]);
    if text != [] {
      assert c.counts[..BODY] == b.counts[..BODY];
      assert first <= |c.steps| - 1 && c.steps[|c.steps| - 1].len > 0;
    }
  }

  lemma HoleBody(b: Building, h: Hole)
    requires b.Ok() && b.section == BODY
    ensures HasBody(PutHole(b, h))
  {
    hide Sum, HoleId;
    BodySteps(b);
    var c, first := PutHole(b, h), Sum(b.counts[..BODY]);
    assert c.counts[..BODY] == b.counts[..BODY];
    assert first <= |c.steps| - 1 && c.steps[|c.steps| - 1].hole == HoleId(h);
  }

  lemma MarkBody(b: Building)
    requires b.Ok()
    ensures HasBody(Mark(b)) <==> HasBody(b)
  {
    hide Sum;
  }

  lemma BodySteps(b: Building)
    requires b.Ok() && b.section == BODY
    ensures Sum(b.counts[..BODY]) <= |b.steps|
    ensures b.open ==> Sum(b.counts[..BODY]) < |b.steps|
  {
    SumOfPrefix(b.counts, BODY);
    if b.open {
      OpenIsLater(b, BODY);
    }
  }

  lemma EndBody(b: Building)
    requires b.Ok() && b.section < SECTIONS
    ensures HasBody(EndOne(b)) <==> HasBody(b)
  {
    if b.section < BODY {
      NoBodySteps(b);
      assert EndOne(b).counts[BODY] == 0;
      NoBodySteps(EndOne(b));
    } else {
      EndsBody(b);
    }
  }

  lemma EndsBody(b: Building)
    requires b.Ok() && b.section == BODY
    ensures HasBody(EndOne(b)) <==> HasBody(b)
  {
    hide Sum;
    BodySteps(b);
    var c, first := EndOne(b), Sum(b.counts[..BODY]);
    assert c.counts[..BODY] == b.counts[..BODY];
    forall i | first <= i < |b.steps|
      ensures c.steps[i].len == b.steps[i].len && c.steps[i].hole == b.steps[i].hole
    {
    }
  }

  lemma {:induction false} EndsKeepBody(b: Building, until: nat)
    requires b.Ok() && until <= SECTIONS
    ensures HasBody(EndTo(b, until)) <==> HasBody(b)
    decreases until - b.section
  {
    hide HasBody, Sum;
    if b.section < until {
      EndBody(b);
      EndsKeepBody(EndOne(b), until);
    }
  }

  lemma {:induction false} LayoutBody(b: Building, ops: seq<Op>, marked: bool)
    requires b.Ok() && b.section < SECTIONS && InOrder(ops, b.section) && WellFormed(ops, b.section, marked)
    ensures HasBody(EndTo(BuildAll(b, ops), SECTIONS)) <==> HasBody(b) || WritesBody(ops, b.section)
    decreases |ops|
  {
    hide HasBody, Build, EndTo, WellFormed, Building.Ok, Sum, IsContent;
    if ops == [] {
      EndsKeepBody(b, SECTIONS);
    } else {
      WellFormedIsInOrder(ops, b.section, marked);
      CallBody(b, ops[0], marked);
      LayoutBody(Build(b, ops[0]), ops[1..], marked || ops[0].Fields?);
    }
  }

  // A template holds a body exactly if its layout writes one.
  lemma TemplateHasBody(ops: seq<Op>)
    requires InOrder(ops, ORIGIN) && WellFormed(ops, ORIGIN, false)
    ensures HoldsBody(Template(ops).steps, Sum(Template(ops).counts[..BODY])) <==> WritesBody(ops, ORIGIN)
  {
    hide BuildAll, EndTo, WellFormed, WritesBody;
    NothingBuiltIsOk();
    NoBodySteps(NOTHING_BUILT);
    LayoutBody(NOTHING_BUILT, ops, false);
  }

  // An optional parameter is sent whole, its text encoded, or left out if it has no text.
  lemma OptionalIsSent(r: Rendering, name: bytes, h: Hole, fill: Filler, n: nat)
    requires IsOptionalHole(h)
    ensures Render(r, Param(name, Optional(h)), fill, n).Some?
    ensures
      var out, text := Render(r, Param(name, Optional(h)), fill, n).value.q.out, fill.param(h);
      if text == None || text.value == [] then out == r.q.out
      else
        out == r.q.out + (if r.q.params == 0 then ['?' as int] else ['&' as int]) + name + ['=' as int]
             + Url.PercentEncoded(text.value, Url.QUERY_VALUE_ESCAPE)
  {
    hide *;
    ParamIsRendered(r, name, h, fill, n);
    ParamIsSent(r.q, h, name, fill);
  }

  lemma ParamIsRendered(r: Rendering, name: bytes, h: Hole, fill: Filler, n: nat)
    requires IsOptionalHole(h)
    ensures Render(r, Param(name, Optional(h)), fill, n) == Some(r.(q := WithParam(r.q, h, name, fill)))
  {
    hide WithHole, WithParam, WithUrl, WithMark, Decimal, Request.Separated, Request.Push, IsUrlHole, IsMarkHole,
         IsParamHole, IsOptionalHole;
    FilledBy(r.q, h, name, fill, n);
  }

  lemma ParamIsSent(q: Request, h: Hole, name: bytes, fill: Filler)
    ensures
      var out, text := WithParam(q, h, name, fill).out, fill.param(h);
      if text == None || text.value == [] then out == q.out
      else
        out == q.out + (if q.params == 0 then ['?' as int] else ['&' as int]) + name + ['=' as int]
             + Url.PercentEncoded(text.value, Url.QUERY_VALUE_ESCAPE)
  {
    hide Url.PercentEncoded;
  }
}
