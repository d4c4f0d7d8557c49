/** What the request that a layout describes holds: its sections one after another, its query,
    and its own URL repeated where the request line and the canonical request need it. */
module TemplateMeaning {
  import opened Bytes
  import opened Layouts
  import opened Passes
  import Url

  // ---- Rendering in parts ----

  lemma {:induction false} RenderInParts(r: Rendering, a: seq<Op>, b: seq<Op>, fill: Filler, n: nat)
    ensures
      var s := RenderAll(r, a, fill, n);
      RenderAll(r, a + b, fill, n) == if s.None? then None else RenderAll(s.value, b, fill, n)
    decreases |a|
  {
    hide Render;
    if a == [] {
      assert a + b == b;
    } else {
      assert (a + b)[1..] == a[1..] + b;
      var s := Render(r, a[0], fill, n);
      if s.Some? {
        RenderInParts(s.value, a[1..], b, fill, n);
      }
    }
  }

  // `s` is rendered further than `r`: it keeps what is written and where sections ended.
  ghost predicate Extends(r: Rendering, s: Rendering) {
    && r.section <= s.section <= SECTIONS
    && |r.q.out| <= |s.q.out| && s.q.out[..|r.q.out|] == r.q.out
    && (forall i :: 0 <= i < r.section ==> s.q.ends[i] == r.q.ends[i])
    && (forall i :: r.section <= i < s.section ==> |r.q.out| <= s.q.ends[i] <= |s.q.out|)
    && (forall i, j :: r.section <= i <= j < s.section ==> s.q.ends[i] <= s.q.ends[j])
  }

  lemma HoleExtends(q: Request, h: Hole, name: bytes, fill: Filler, n: nat)
    requires WithHole(q, h, name, fill, n).Some?
    ensures
      var p := WithHole(q, h, name, fill, n).value;
      |q.out| <= |p.out| && p.out[..|q.out|] == q.out && p.ends == q.ends
  {
    hide WithHole, WithUrl, WithMark, WithParam;
    FilledBy(q, h, name, fill, n);
  }

  lemma CallExtends(r: Rendering, op: Op, fill: Filler, n: nat)
    requires r.section < SECTIONS && (op.Section? ==> r.section < op.section < SECTIONS)
    ensures Render(r, op, fill, n).Some? ==> Extends(r, Render(r, op, fill, n).value)
    ensures Render(r, op, fill, n).Some? ==>
              Render(r, op, fill, n).value.section == if op.Section? then op.section else r.section
  {
    hide WithHole;
    if Render(r, op, fill, n).Some? {
      match op
      case Fill(h) => HoleExtends(r.q, h, [], fill, n);
      case Param(name, Filled(h)) =>
        var q := r.q.Separated().Push(name + EQUALS);
        HoleExtends(q, h, [], fill, n);
        var p := WithHole(q, h, [], fill, n).value;
        assert p.out[..|r.q.out|] == p.out[..|q.out|][..|r.q.out|];
      case Param(name, Optional(h)) => HoleExtends(r.q, h, name, fill, n);
      case _ =>
    }
  }

  lemma ExtendsOn(r: Rendering, s: Rendering, t: Rendering)
    requires Extends(r, s) && Extends(s, t)
    ensures Extends(r, t)
  {
    assert t.q.out[..|r.q.out|] == t.q.out[..|s.q.out|][..|r.q.out|];
    forall i, j | r.section <= i <= j < t.section ensures t.q.ends[i] <= t.q.ends[j] {
      if i < s.section <= j {
        assert t.q.ends[i] == s.q.ends[i] <= |s.q.out| <= t.q.ends[j];
      }
    }
  }

  function SectionAfter(ops: seq<Op>, section: nat): nat
    decreases |ops|
  {
    if ops == [] then section
    else SectionAfter(ops[1..], if ops[0].Section? then ops[0].section else section)
  }

  lemma {:induction false} RenderExtends(r: Rendering, ops: seq<Op>, fill: Filler, n: nat)
    requires r.section < SECTIONS && InOrder(ops, r.section) && RenderAll(r, ops, fill, n).Some?
    ensures
      var s := RenderAll(r, ops, fill, n).value;
      Extends(r, s) && s.section == SectionAfter(ops, r.section) < SECTIONS
    decreases |ops|
  {
    hide Render, Extends;
    if ops == [] {
      ExtendsItself(r);
    } else {
      CallExtends(r, ops[0], fill, n);
      var s := Render(r, ops[0], fill, n).value;
      RenderExtends(s, ops[1..], fill, n);
      ExtendsOn(r, s, RenderAll(r, ops, fill, n).value);
    }
  }

  lemma ExtendsItself(r: Rendering)
    requires r.section <= SECTIONS
    ensures Extends(r, r)
  {
  }

  lemma {:induction false} InOrderInParts(a: seq<Op>, b: seq<Op>, section: nat)
    requires InOrder(a + b, section)
    ensures InOrder(a, section) && InOrder(b, SectionAfter(a, section))
    decreases |a|
  {
    if a == [] {
      assert a + b == b;
    } else {
      assert (a + b)[1..] == a[1..] + b;
      InOrderInParts(a[1..], b, if a[0].Section? then a[0].section else section);
    }
  }

  function Beginning(before: bytes): Rendering {
    Rendering(Started(before, 0), 0, ORIGIN)
  }

  // The request after the calls `a` of a layout `a + b`, and after all of them.
  lemma RenderedThrough(before: bytes, a: seq<Op>, b: seq<Op>, fill: Filler, n: nat) returns (r: Rendering,
                        s: Rendering)
    requires InOrder(a + b, ORIGIN) && Rendered(before, a + b, fill, n).Some?
    ensures RenderAll(Beginning(before), a, fill, n) == Some(r) && RenderAll(r, b, fill, n) == Some(s)
    ensures Extends(Beginning(before), r) && Extends(r, s) && Extends(Beginning(before), s)
    ensures r.section == SectionAfter(a, ORIGIN) && s.section == SectionAfter(a + b, ORIGIN) < SECTIONS
    ensures
      var o := Rendered(before, a + b, fill, n).value;
      o.out == s.q.out && o.ends == s.q.EndSections(s.section, SECTIONS).ends
  {
    hide Extends;
    RenderInParts(Beginning(before), a, b, fill, n);
    InOrderInParts(a, b, ORIGIN);
    r := RenderAll(Beginning(before), a, fill, n).value;
    RenderExtends(Beginning(before), a, fill, n);
    RenderExtends(r, b, fill, n);
    s := RenderAll(r, b, fill, n).value;
    RenderExtends(Beginning(before), a + b, fill, n);
  }

  // ---- The sections follow each other, and nothing is between them ----

  lemma SectionsFollowEachOther(before: bytes, ops: seq<Op>, fill: Filler, n: nat)
    requires InOrder(ops, ORIGIN) && Rendered(before, ops, fill, n).Some?
    ensures
      var o := Rendered(before, ops, fill, n).value;
      && |before| <= o.ends[ORIGIN] <= o.ends[PATH] <= o.ends[QUERY] <= o.ends[HEAD] <= o.ends[CANONICAL]
          <= o.ends[BODY] == |o.out|
      && o.out[..|before|] == before
  {
    hide RenderAll;
    assert ops + [] == ops;
    var r, s := RenderedThrough(before, ops, [], fill, n);
    var o := Rendered(before, ops, fill, n).value;
    assert forall i :: 0 <= i < s.section ==> |before| <= o.ends[i] <= |o.out|;
    assert forall i :: s.section <= i < SECTIONS ==> o.ends[i] == |o.out|;
  }

  // ---- The query ----

  // The parameters of a query: fixed, filled with a value of the request, or optional.
  predicate IsQueryParam(op: Op) {
    op.Param? &&
    match op.value
    case Fixed(_) => true
    case Filled(h) => IsValueHole(h)
    case Optional(h) => IsOptionalHole(h)
  }

  // The holes that a value of the request alone fills.
  predicate IsValueHole(h: Hole) {
    !IsParamHole(h) && !IsUrlHole(h) && !IsMarkHole(h) && h != BodyLength
  }

  // What one parameter adds to the query, if the request sends it.
  function Piece(op: Op, fill: Filler): Option<bytes> {
    match op
    case Param(name, Fixed(text)) => Some(name + EQUALS + text)
    case Param(name, Filled(h)) => if fill.value(h).None? then None else Some(name + EQUALS + fill.value(h).value)
    case Param(name, Optional(h)) =>
      if fill.Sends(h) then Some(name + EQUALS + Url.PercentEncoded(fill.param(h).value, Url.QUERY_VALUE_ESCAPE))
          else None
    case _ => None
  }

  // The parameters that the request sends, in order.
  function Pieces(params: seq<Op>, fill: Filler): seq<bytes> {
    if params == [] then []
    else (if Piece(params[0], fill).Some? then [Piece(params[0], fill).value] else []) + Pieces(params[1..], fill)
  }

  const AMPERSAND: bytes := ['&' as int]
  const QUESTION: bytes := ['?' as int]

  function Join(pieces: seq<bytes>, separator: bytes): bytes {
    if pieces == [] then []
    else if |pieces| == 1 then pieces[0]
    else pieces[0] + separator + Join(pieces[1..], separator)
  }

  // The query of a URL: nothing without parameters, and otherwise `?` and the parameters
  // joined by `&`.
  function QueryText(pieces: seq<bytes>): bytes {
    if pieces == [] then [] else QUESTION + Join(pieces, AMPERSAND)
  }

  // The same text, a parameter at a time, after `count` parameters.
  function Separately(pieces: seq<bytes>, count: nat): bytes {
    if pieces == [] then []
    else (if count == 0 then QUESTION else AMPERSAND) + pieces[0] + Separately(pieces[1..], count + 1)
  }

  lemma {:induction false} SeparatelyJoins(pieces: seq<bytes>, count: nat)
    requires pieces != []
    ensures Separately(pieces, count) == (if count == 0 then QUESTION else AMPERSAND) + Join(pieces, AMPERSAND)
    decreases |pieces|
  {
    if |pieces| > 1 {
      SeparatelyJoins(pieces[1..], count + 1);
    } else {
      assert Separately(pieces[1..], count + 1) == [];
    }
  }

  // What a separator before the parameter, and the parameter, add to a request.
  function Added(piece: Option<bytes>, count: nat): bytes {
    if piece.None? then [] else (if count == 0 then QUESTION else AMPERSAND) + piece.value
  }

  lemma ParamRendered(r: Rendering, op: Op, fill: Filler, n: nat)
    requires IsQueryParam(op) && Render(r, op, fill, n).Some?
    ensures
      var s, piece := Render(r, op, fill, n).value, Piece(op, fill);
      && s.q.ends == r.q.ends && s.section == r.section
      && s.q.params == r.q.params + (if piece.Some? then 1 else 0)
      && s.q.out == r.q.out + Added(piece, r.q.params)
  {
    hide Url.PercentEncoded, WithHole;
    var q, separator := r.q.Separated(), if r.q.params == 0 then QUESTION else AMPERSAND;
    match op.value
    case Fixed(text) => Regrouped(r.q.out, separator, op.name + EQUALS, text);
    case Filled(h) =>
      FilledBy(q.Push(op.name + EQUALS), h, [], fill, n);
      Regrouped(r.q.out, separator, op.name + EQUALS, fill.value(h).value);
    case Optional(h) =>
      FilledBy(r.q, h, op.name, fill, n);
      if fill.Sends(h) {
        Regrouped(r.q.out, separator, op.name + EQUALS,
                  Url.PercentEncoded(fill.param(h).value, Url.QUERY_VALUE_ESCAPE));
        assert q.out + op.name + EQUALS == q.out + (op.name + EQUALS);
      }
  }

  lemma Regrouped(a: bytes, b: bytes, c: bytes, d: bytes)
    ensures a + b + (c + d) == a + (b + (c + d)) && a + b + c + d == a + (b + (c + d))
  {
  }

  lemma {:induction false} ParamsRendered(r: Rendering, params: seq<Op>, fill: Filler, n: nat)
    requires (forall op :: op in params ==> IsQueryParam(op)) && RenderAll(r, params, fill, n).Some?
    ensures
      var s := RenderAll(r, params, fill, n).value;
      && s.q.out == r.q.out + Separately(Pieces(params, fill), r.q.params)
      && s.q.ends == r.q.ends && s.section == r.section
    decreases |params|
  {
    hide Render, Piece, IsQueryParam, Separately, Added;
    if params == [] {
      assert Separately([], r.q.params) == [] && r.q.out + [] == r.q.out by { SeparatelyNothing(r.q.params); }
    } else {
      var op, s := params[0], Render(r, params[0], fill, n).value;
      ParamRendered(r, op, fill, n);
      ParamsRendered(s, params[1..], fill, n);
      var piece, rest := Piece(op, fill), Pieces(params[1..], fill);
      SeparatelyAdds(piece, rest, r.q.params);
      assert Pieces(params, fill) == (if piece.Some? then [piece.value] else []) + rest;
      assert r.q.out + Added(piece, r.q.params) + Separately(rest, s.q.params)
          == r.q.out + (Added(piece, r.q.params) + Separately(rest, s.q.params));
    }
  }

  lemma SeparatelyNothing(count: nat)
    ensures Separately([], count) == []
  {
  }

  lemma SeparatelyAdds(piece: Option<bytes>, rest: seq<bytes>, count: nat)
    ensures Separately((if piece.Some? then [piece.value] else []) + rest, count)
         == Added(piece, count) + Separately(rest, count + if piece.Some? then 1 else 0)
  {
    if piece.Some? {
      assert ([piece.value] + rest)[1..] == rest;
    } else {
      assert [] + rest == rest;
    }
  }

  // A call that writes no parameter.
  predicate WritesNoParam(op: Op) {
    !op.Param? && (op.Fill? ==> !IsParamHole(op.hole))
  }

  lemma {:induction false} NoParamsRendered(r: Rendering, ops: seq<Op>, fill: Filler, n: nat)
    requires (forall op :: op in ops ==> WritesNoParam(op)) && RenderAll(r, ops, fill, n).Some?
    ensures RenderAll(r, ops, fill, n).value.q.params == r.q.params
    decreases |ops|
  {
    hide Render, WritesNoParam;
    if ops != [] {
      assert WritesNoParam(ops[0]);
      NoParamRendered(r, ops[0], fill, n);
      NoParamsRendered(Render(r, ops[0], fill, n).value, ops[1..], fill, n);
    }
  }

  lemma NoParamRendered(r: Rendering, op: Op, fill: Filler, n: nat)
    requires WritesNoParam(op) && Render(r, op, fill, n).Some?
    ensures Render(r, op, fill, n).value.q.params == r.q.params
  {
    hide WithHole, WithUrl, WithMark, WithParam;
    if op.Fill? {
      FilledBy(r.q, op.hole, [], fill, n);
    }
  }

  lemma SeparatelyStarts(pieces: seq<bytes>)
    ensures Separately(pieces, 0) == QueryText(pieces)
  {
    if pieces != [] {
      SeparatelyJoins(pieces, 0);
    }
  }

  // Where the section before `section` ends, once `section` has started.
  lemma SectionStarts(r: Rendering, section: nat, rest: seq<Op>, fill: Filler, n: nat)
    requires r.section < section < SECTIONS && InOrder(rest, section)
    requires RenderAll(r, [Section(section)] + rest, fill, n).Some?
    ensures
      var s := RenderAll(r, [Section(section)] + rest, fill, n).value;
      s.section >= section && forall i :: r.section <= i < section ==> s.q.ends[i] == |r.q.out|
    ensures rest == [] ==> RenderAll(r, [Section(section)] + rest, fill, n).value.q.out == r.q.out
    ensures rest == [] ==> RenderAll(r, [Section(section)] + rest, fill, n).value.q.params == r.q.params
  {
    assert ([Section(section)] + rest)[1..] == rest;
    var t := Render(r, Section(section), fill, n).value;
    RenderExtends(t, rest, fill, n);
  }

  // The query of every request is `?` and the `&`-join of exactly the parameters that the
  // request sends, whichever optional ones it leaves out.
  lemma QueryIsJoined(before: bytes, head: seq<Op>, params: seq<Op>, next: nat, rest: seq<Op>, fill: Filler, n: nat)
    requires InOrder((head + [Section(QUERY)]) + (params + ([Section(next)] + rest)), ORIGIN)
    requires forall op :: op in head ==> WritesNoParam(op)
    requires forall op :: op in params ==> IsQueryParam(op)
    requires Rendered(before, (head + [Section(QUERY)]) + (params + ([Section(next)] + rest)), fill, n).Some?
    ensures
      var o := Rendered(before, (head + [Section(QUERY)]) + (params + ([Section(next)] + rest)), fill, n).value;
      o.ends[PATH] <= o.ends[QUERY] <= |o.out| && o.out[o.ends[PATH]..o.ends[QUERY]] == QueryText(Pieces(params, fill))
  {
    hide RenderAll, IsQueryParam, WritesNoParam, Separately, QueryText, Pieces, InOrder, SectionAfter, Rendered,
         Extends;
    var c := [Section(next)] + rest;
    var q, s := RenderedThrough(before, head + [Section(QUERY)], params + c, fill, n);
    RenderInParts(q, params, c, fill, n);
    var r := RenderAll(q, params, fill, n).value;
    SectionsOfQuery(head, params, next, rest);
    RenderInParts(Beginning(before), head, [Section(QUERY)], fill, n);
    var h := RenderAll(Beginning(before), head, fill, n).value;
    RenderExtends(Beginning(before), head, fill, n);
    NoParamsRendered(Beginning(before), head, fill, n);
    assert [Section(QUERY)] + [] == [Section(QUERY)];
    SectionStarts(h, QUERY, [], fill, n);
    ParamsRendered(q, params, fill, n);
    SeparatelyStarts(Pieces(params, fill));
    SectionStarts(r, next, rest, fill, n);
    RenderExtends(r, c, fill, n);
    QueryBetween(q, r, s, QueryText(Pieces(params, fill)));
  }

  lemma QueryBetween(q: Rendering, r: Rendering, s: Rendering, text: bytes)
    requires Extends(q, s) && Extends(r, s) && q.section == QUERY && r.q.out == q.q.out + text && s.section > QUERY
    requires q.q.ends[PATH] == |q.q.out| && s.q.ends[QUERY] == |r.q.out|
    ensures
      var ends := s.q.EndSections(s.section, SECTIONS).ends;
      ends[PATH] <= ends[QUERY] <= |s.q.out| && s.q.out[ends[PATH]..ends[QUERY]] == text
  {
    PrefixSlice(s.q.out, r.q.out, |q.q.out|, |r.q.out|);
  }

  lemma SectionsOfQuery(head: seq<Op>, params: seq<Op>, next: nat, rest: seq<Op>)
    requires InOrder((head + [Section(QUERY)]) + (params + ([Section(next)] + rest)), ORIGIN)
    requires forall op :: op in params ==> IsQueryParam(op)
    ensures InOrder(head, ORIGIN) && SectionAfter(head, ORIGIN) < QUERY
    ensures SectionAfter(head + [Section(QUERY)], ORIGIN) == QUERY
    ensures QUERY < next < SECTIONS && InOrder(rest, next) && InOrder([Section(next)] + rest, QUERY)
  {
    var a, c := head + [Section(QUERY)], [Section(next)] + rest;
    InOrderInParts(a, params + c, ORIGIN);
    InOrderInParts(head, [Section(QUERY)], ORIGIN);
    SectionInParts(head, [Section(QUERY)], ORIGIN);
    assert SectionAfter([Section(QUERY)], SectionAfter(head, ORIGIN)) == QUERY by {
      assert [Section(QUERY)][1..] == [];
    }
    InOrderInParts(params, c, QUERY);
    ParamsKeepSection(params, QUERY);
    assert c[1..] == rest;
  }

  lemma {:induction false} SectionInParts(a: seq<Op>, b: seq<Op>, section: nat)
    ensures SectionAfter(a + b, section) == SectionAfter(b, SectionAfter(a, section))
    decreases |a|
  {
    if a == [] {
      assert a + b == b;
    } else {
      assert (a + b)[1..] == a[1..] + b;
      SectionInParts(a[1..], b, if a[0].Section? then a[0].section else section);
    }
  }

  lemma {:induction false} ParamsKeepSection(params: seq<Op>, section: nat)
    requires forall op :: op in params ==> IsQueryParam(op)
    ensures SectionAfter(params, section) == section
    decreases |params|
  {
    if params != [] {
      assert IsQueryParam(params[0]);
      ParamsKeepSection(params[1..], section);
    }
  }

  // ---- The URL, repeated ----

  // The bytes that `hole` writes after the calls `a` of a layout.
  ghost predicate Writes(before: bytes, a: seq<Op>, hole: Hole, b: seq<Op>, fill: Filler, n: nat, text: bytes)
    requires Rendered(before, a + ([Fill(hole)] + b), fill, n).Some?
  {
    var o, r := Rendered(before, a + ([Fill(hole)] + b), fill, n).value, RenderAll(Beginning(before), a, fill, n);
    r.Some? && |r.value.q.out| + |text| <= |o.out| && o.out[|r.value.q.out|..|r.value.q.out| + |text|] == text
  }

  lemma HoleWrites(before: bytes, a: seq<Op>, hole: Hole, b: seq<Op>, fill: Filler, n: nat, text: bytes)
    requires InOrder(a + ([Fill(hole)] + b), ORIGIN) && Rendered(before, a + ([Fill(hole)] + b), fill, n).Some?
    requires RenderAll(Beginning(before), a, fill, n).Some? ==>
               WithHole(RenderAll(Beginning(before), a, fill, n).value.q, hole, [], fill, n)
               == Some(RenderAll(Beginning(before), a, fill, n).value.q.Push(text))
    ensures Writes(before, a, hole, b, fill, n, text)
  {
    hide RenderAll, WithHole;
    var r, s := RenderedThrough(before, a, [Fill(hole)] + b, fill, n);
    HoleFirst(r, hole, b, fill, n);
    InOrderInParts(a, [Fill(hole)] + b, ORIGIN);
    assert ([Fill(hole)] + b)[1..] == b;
    var t := Render(r, Fill(hole), fill, n).value;
    RenderExtends(t, b, fill, n);
    assert t.q.out == r.q.out + text;
    assert s.q.out[|r.q.out|..|t.q.out|] == s.q.out[..|t.q.out|][|r.q.out|..] == text;
  }

  lemma HoleFirst(r: Rendering, hole: Hole, b: seq<Op>, fill: Filler, n: nat)
    requires RenderAll(r, [Fill(hole)] + b, fill, n).Some?
    ensures Render(r, Fill(hole), fill, n).Some?
    ensures RenderAll(r, [Fill(hole)] + b, fill, n) == RenderAll(Render(r, Fill(hole), fill, n).value, b, fill, n)
  {
    assert ([Fill(hole)] + b)[1..] == b;
  }

  // A hole that repeats the URL, anywhere from the head on, writes the very bytes that the path
  // and query sections hold.
  lemma UrlIsRepeated(before: bytes, a: seq<Op>, hole: Hole, b: seq<Op>, fill: Filler, n: nat)
    requires InOrder(a + ([Fill(hole)] + b), ORIGIN) && Rendered(before, a + ([Fill(hole)] + b), fill, n).Some?
    requires SectionAfter(a, ORIGIN) >= HEAD && (hole == Target || hole == Path || hole == Query)
    ensures
      var o := Rendered(before, a + ([Fill(hole)] + b), fill, n).value;
      && o.ends[ORIGIN] <= o.ends[PATH] <= o.ends[QUERY] <= |o.out|
      && var path, query := o.out[o.ends[ORIGIN]..o.ends[PATH]], o.out[o.ends[PATH]..o.ends[QUERY]];
         Writes(before, a, hole, b, fill, n, UrlText(hole, path, query))
  {
    hide RenderAll, Writes, Extends, WithHole, InOrder, SectionAfter, Rendered;
    var ops := a + ([Fill(hole)] + b);
    SectionsFollowEachOther(before, ops, fill, n);
    var o := Rendered(before, ops, fill, n).value;
    var r, s := RenderedThrough(before, a, [Fill(hole)] + b, fill, n);
    UrlIsWritten(before, r, s, o.ends);
    var origin, path, query := o.ends[ORIGIN], o.ends[PATH], o.ends[QUERY];
    PrefixSlice(o.out, r.q.out, origin, path);
    PrefixSlice(o.out, r.q.out, path, query);
    UrlHole(r.q, hole, fill, n);
    HoleWrites(before, a, hole, b, fill, n, UrlText(hole, o.out[origin..path], o.out[path..query]));
  }

  // What a hole that repeats the URL writes.
  function UrlText(hole: Hole, path: bytes, query: bytes): bytes {
    if hole == Target then path + query else if hole == Path then path else if query == [] then [] else query[1..]
  }

  lemma UrlHole(q: Request, hole: Hole, fill: Filler, n: nat)
    requires hole == Target || hole == Path || hole == Query
    requires q.ends[ORIGIN] <= q.ends[PATH] <= q.ends[QUERY] <= |q.out|
    ensures WithHole(q, hole, [], fill, n)
         == Some(q.Push(UrlText(hole, q.out[q.ends[ORIGIN]..q.ends[PATH]], q.out[q.ends[PATH]..q.ends[QUERY]])))
  {
    hide WithHole, WithUrl, WithMark, WithParam, UrlText;
    FilledBy(q, hole, [], fill, n);
    UrlRepeated(q, hole);
  }

  lemma UrlRepeated(q: Request, hole: Hole)
    requires IsUrlHole(hole) && q.ends[ORIGIN] <= q.ends[PATH] <= q.ends[QUERY] <= |q.out|
    ensures WithUrl(q, hole)
         == q.Push(UrlText(hole, q.out[q.ends[ORIGIN]..q.ends[PATH]], q.out[q.ends[PATH]..q.ends[QUERY]]))
  {
    var origin, path, query := q.ends[ORIGIN], q.ends[PATH], q.ends[QUERY];
    if hole == Target {
      assert q.out[origin..query] == q.out[origin..path] + q.out[path..query];
    } else if hole == Query {
      if query > path {
        assert q.out[path..query][1..] == q.out[path + 1..query];
      } else {
        assert q.out + [] == q.out;
      }
    }
  }

  lemma PrefixSlice(s: bytes, t: bytes, i: nat, j: nat)
    requires i <= j <= |t| <= |s| && s[..|t|] == t
    ensures s[i..j] == t[i..j]
  {
    assert forall k :: 0 <= k < |t| ==> t[k] == s[..|t|][k] == s[k];
  }

  lemma UrlIsWritten(before: bytes, r: Rendering, s: Rendering, ends: Ends)
    requires Extends(Beginning(before), r) && Extends(r, s) && HEAD <= r.section && s.section < SECTIONS
    requires ends == s.q.EndSections(s.section, SECTIONS).ends
    ensures forall i :: 0 <= i <= QUERY ==> ends[i] == r.q.ends[i] == s.q.ends[i] <= |r.q.out|
    ensures |r.q.out| <= |s.q.out| && s.q.out[..|r.q.out|] == r.q.out
  {
  }
}
