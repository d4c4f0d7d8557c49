/** The query that a request writes, read back: its parameters are exactly those sent. */
module TemplateQueries {
  import opened Bytes
  import opened Layouts
  import opened Passes
  import opened TemplateMeaning
  import HttpMessages
  import Url

  datatype Pair = Pair(name: bytes, value: bytes)

  const AND: byte := '&' as int
  const IS: byte := '=' as int

  // ---- Reading ----

  // A parameter of a query: its name up to the first `=`, and its value, both decoded.
  function ReadPair(piece: bytes, plusIsSpace: bool): Pair {
    var at := HttpMessages.FirstByte(piece, IS);
    Pair(Url.Decoded(piece[..at], plusIsSpace), Url.Decoded(if at < |piece| then piece[at + 1..] else [], plusIsSpace))
  }

  function ReadPairs(pieces: seq<bytes>, plusIsSpace: bool): seq<Pair> {
    if pieces == [] then [] else [ReadPair(pieces[0], plusIsSpace)] + ReadPairs(pieces[1..], plusIsSpace)
  }

  // The parameters of a query, with its `?`.
  function ReadQuery(query: bytes, plusIsSpace: bool): seq<Pair> {
    if query == [] then [] else ReadPairs(HttpMessages.SplitOn(query[1..], {AND}), plusIsSpace)
  }

  // ---- What a request sends ----

  // What a parameter means: its text where the request encodes it, and else what it decodes to.
  function Meaning(op: Op, fill: Filler, plusIsSpace: bool): Option<Pair> {
    match op
    case Param(name, Fixed(text)) => Some(Pair(name, Url.Decoded(text, plusIsSpace)))
    case Param(name, Filled(h)) =>
      if fill.value(h).None? then None else Some(Pair(name, Url.Decoded(fill.value(h).value, plusIsSpace)))
    case Param(name, Optional(h)) => if fill.Sends(h) then Some(Pair(name, fill.param(h).value)) else None
    case _ => None
  }

  function Sent(params: seq<Op>, fill: Filler, plusIsSpace: bool): seq<Pair> {
    if params == [] then []
    else
      var first := Meaning(params[0], fill, plusIsSpace);
      (if first.Some? then [first.value] else []) + Sent(params[1..], fill, plusIsSpace)
  }

  // A name that no reader takes apart or decodes.
  predicate IsPlainName(name: bytes) {
    forall b :: b in name ==> b != AND && b != IS && b != Url.PERCENT && b != Url.PLUS
  }

  // A parameter with such a name, whose text, where the request does not encode it, holds no `&`.
  predicate IsReadable(op: Op, fill: Filler) {
    op.Param? && IsPlainName(op.name) &&
    match op.value
    case Fixed(text) => AND !in text
    case Filled(h) => fill.value(h).Some? ==> AND !in fill.value(h).value
    case Optional(_) => true
  }

  // ---- Reading undoes writing ----

  // A percent-encoded text holds no separator and decodes to itself.
  lemma EncodedValueReads(text: bytes, plusIsSpace: bool)
    ensures AND !in Url.PercentEncoded(text, Url.QUERY_VALUE_ESCAPE)
    ensures AND !in Url.PercentEncoded(text, Url.OBJECT_KEY_ESCAPE)
    ensures Url.Decoded(Url.PercentEncoded(text, Url.QUERY_VALUE_ESCAPE), plusIsSpace) == text
    ensures Url.Decoded(Url.PercentEncoded(text, Url.OBJECT_KEY_ESCAPE), plusIsSpace) == text
  {
    Url.DecodingUndoesBothEncodings(text, plusIsSpace);
    HoldsNoAnd(text, Url.QUERY_VALUE_ESCAPE);
    HoldsNoAnd(text, Url.OBJECT_KEY_ESCAPE);
  }

  lemma HoldsNoAnd(text: bytes, escape: Url.AsciiSet)
    requires escape == Url.QUERY_VALUE_ESCAPE || escape == Url.OBJECT_KEY_ESCAPE
    ensures AND !in Url.PercentEncoded(text, escape)
  {
    hide Url.PercentEncoded;
    var s := Url.PercentEncoded(text, escape);
    forall b: byte | Url.IsAlphanumeric(b) ensures b !in escape {
      Url.EscapeSets(b);
    }
    Url.EscapeSets(AND);
    forall i | 0 <= i < |s| ensures s[i] != AND {
      Url.EncodedBytes(text, escape, i);
    }
  }

  lemma NameReads(name: bytes, plusIsSpace: bool)
    requires IsPlainName(name)
    ensures Url.Decoded(name, plusIsSpace) == name
  {
    hide Url.Decoded;
    forall i | 0 <= i < |name| ensures !Url.Decodes(name[i], plusIsSpace) {
      assert name[i] in name;
    }
    Url.DecodedRun(name, |name|, plusIsSpace);
    NothingDecodes(plusIsSpace);
    assert name[..|name|] == name && name[|name|..] == [];
    assert name + [] == name;
  }

  lemma NothingDecodes(plusIsSpace: bool)
    ensures Url.Decoded([], plusIsSpace) == []
  {
  }

  lemma PairReads(name: bytes, value: bytes, plusIsSpace: bool)
    requires IsPlainName(name)
    ensures ReadPair(name + EQUALS + value, plusIsSpace) == Pair(name, Url.Decoded(value, plusIsSpace))
  {
    hide Url.Decoded, HttpMessages.FirstByte, IsPlainName;
    NameReads(name, plusIsSpace);
    NameEnds(name, value);
  }

  lemma NameEnds(name: bytes, value: bytes)
    requires IsPlainName(name)
    ensures
      var piece := name + EQUALS + value;
      var at := HttpMessages.FirstByte(piece, IS);
      at < |piece| && piece[..at] == name && piece[at + 1..] == value
  {
    hide HttpMessages.FirstByte;
    HttpMessages.SplitAtFirst(name, IS, value);
    assert (name + [IS] + value)[|name| + 1..] == value;
  }

  lemma ValueReads(name: bytes, value: bytes, plusIsSpace: bool)
    requires IsPlainName(name) && AND !in value
    ensures AND !in name + EQUALS + value
    ensures ReadPair(name + EQUALS + value, plusIsSpace) == Pair(name, Url.Decoded(value, plusIsSpace))
  {
    hide Url.Decoded, ReadPair;
    PairReads(name, value, plusIsSpace);
  }

  // What a parameter writes reads as what it means, and holds no separator.
  lemma PieceReads(op: Op, fill: Filler, plusIsSpace: bool)
    requires IsReadable(op, fill)
    ensures Piece(op, fill).Some? <==> Meaning(op, fill, plusIsSpace).Some?
    ensures Piece(op, fill).Some? ==>
              && AND !in Piece(op, fill).value
              && ReadPair(Piece(op, fill).value, plusIsSpace) == Meaning(op, fill, plusIsSpace).value
  {
    hide Url.Decoded, Url.PercentEncoded, ReadPair, IsPlainName;
    match op.value
    case Fixed(text) => ValueReads(op.name, text, plusIsSpace);
    case Filled(h) =>
      if fill.value(h).Some? {
        ValueReads(op.name, fill.value(h).value, plusIsSpace);
      }
    case Optional(h) =>
      if fill.Sends(h) {
        EncodedValueReads(fill.param(h).value, plusIsSpace);
        ValueReads(op.name, Url.PercentEncoded(fill.param(h).value, Url.QUERY_VALUE_ESCAPE), plusIsSpace);
      }
  }

  lemma {:induction false} PiecesRead(params: seq<Op>, fill: Filler, plusIsSpace: bool)
    requires forall op :: op in params ==> IsReadable(op, fill)
    ensures forall piece :: piece in Pieces(params, fill) ==> AND !in piece
    ensures ReadPairs(Pieces(params, fill), plusIsSpace) == Sent(params, fill, plusIsSpace)
  {
    hide Piece, Meaning, ReadPair, IsReadable;
    if params != [] {
      assert IsReadable(params[0], fill);
      PieceReads(params[0], fill, plusIsSpace);
      PiecesRead(params[1..], fill, plusIsSpace);
      var first, rest := Piece(params[0], fill), Pieces(params[1..], fill);
      if first.Some? {
        assert ([first.value] + rest)[1..] == rest;
      } else {
        assert [] + rest == rest;
      }
    }
  }

  // Splitting a join gives the pieces.
  lemma {:induction false} SplitUndoesJoin(pieces: seq<bytes>)
    requires pieces != [] && forall piece :: piece in pieces ==> AND !in piece
    ensures HttpMessages.SplitOn(Join(pieces, AMPERSAND), {AND}) == pieces
    decreases |pieces|
  {
    hide HttpMessages.SplitOn;
    assert forall i :: 0 <= i < |pieces[0]| ==> pieces[0][i] in pieces[0];
    if |pieces| == 1 {
      HttpMessages.SplitOfOne(pieces[0], {AND});
    } else {
      SplitUndoesJoin(pieces[1..]);
      HttpMessages.SplitAtSeparator(pieces[0], AND, Join(pieces[1..], AMPERSAND), {AND});
      assert pieces == [pieces[0]] + pieces[1..];
    }
  }

  // A query read at its separators gives exactly the parameters that the request sends.
  lemma QueryReads(params: seq<Op>, fill: Filler, plusIsSpace: bool)
    requires forall op :: op in params ==> IsReadable(op, fill)
    ensures ReadQuery(QueryText(Pieces(params, fill)), plusIsSpace) == Sent(params, fill, plusIsSpace)
  {
    hide Pieces, ReadPair, IsReadable, Join;
    var pieces := Pieces(params, fill);
    PiecesRead(params, fill, plusIsSpace);
    if pieces != [] {
      SplitUndoesJoin(pieces);
      assert QueryText(pieces)[1..] == Join(pieces, AMPERSAND);
    }
  }

  // So does the query of every request that has one, in either way of decoding.
  lemma WrittenQueryReads(before: bytes, head: seq<Op>, params: seq<Op>, next: nat, rest: seq<Op>, fill: Filler, n: nat,
                          plusIsSpace: bool)
    requires InOrder((head + [Section(QUERY)]) + (params + ([Section(next)] + rest)), ORIGIN)
    requires forall op :: op in head ==> WritesNoParam(op)
    requires forall op :: op in params ==> IsQueryParam(op) && IsReadable(op, fill)
    requires Rendered(before, (head + [Section(QUERY)]) + (params + ([Section(next)] + rest)), fill, n).Some?
    ensures
      var o := Rendered(before, (head + [Section(QUERY)]) + (params + ([Section(next)] + rest)), fill, n).value;
      && o.ends[PATH] <= o.ends[QUERY] <= |o.out|
      && ReadQuery(o.out[o.ends[PATH]..o.ends[QUERY]], plusIsSpace) == Sent(params, fill, plusIsSpace)
  {
    hide Rendered, InOrder, IsReadable, IsQueryParam, WritesNoParam, ReadQuery, Sent;
    QueryIsJoined(before, head, params, next, rest, fill, n);
    QueryReads(params, fill, plusIsSpace);
  }
}
