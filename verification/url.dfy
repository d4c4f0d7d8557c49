/** Percent-encoding of keys and query values, and its undoing in place. */
module Url {
  import opened Bytes
  import opened Requests

  const PERCENT: byte := '%' as int
  const PLUS: byte := '+' as int
  const SPACE: byte := ' ' as int

  // A set of bytes that the encoder escapes.
  type AsciiSet = set<byte>

  const CONTROLS: AsciiSet := set b: byte | b < 0x20 || b >= 0x7F

  // What `OBJECT_KEY_ESCAPE` adds to the controls, and what `NON_ALPHANUMERIC` adds beside that.
  const KEY_PUNCTUATION: AsciiSet := {
    ' ' as int, '!' as int, '"' as int, '#' as int, '$' as int, '%' as int, '&' as int, '\'' as int,
    '(' as int, ')' as int, '*' as int, '+' as int, ',' as int, ':' as int, ';' as int, '<' as int,
    '=' as int, '>' as int, '?' as int, '@' as int, '[' as int, '\\' as int, ']' as int, '^' as int,
    '`' as int, '{' as int, '|' as int, '}' as int
  }
  const UNRESERVED_MARKS: AsciiSet := {'-' as int, '.' as int, '_' as int, '~' as int}

  const NON_ALPHANUMERIC: AsciiSet := CONTROLS + KEY_PUNCTUATION + UNRESERVED_MARKS + {'/' as int}
  const OBJECT_KEY_ESCAPE: AsciiSet := CONTROLS + KEY_PUNCTUATION
  const QUERY_VALUE_ESCAPE: AsciiSet := NON_ALPHANUMERIC - UNRESERVED_MARKS

  predicate IsAlphanumeric(b: byte) {
    '0' as int <= b <= '9' as int || 'A' as int <= b <= 'Z' as int || 'a' as int <= b <= 'z' as int
  }

  // RFC 3986, section 2.3: the unreserved characters.
  predicate IsUnreserved(b: byte) {
    IsAlphanumeric(b) || b in UNRESERVED_MARKS
  }

  predicate IsPlainKeyByte(b: byte) {
    IsAlphanumeric(b) || b == '-' as int || b == '.' as int || b == '/' as int || b == '_' as int || b == '~' as int
  }

  lemma EscapeSets(b: byte)
    ensures b !in QUERY_VALUE_ESCAPE <==> IsUnreserved(b)
    ensures b !in OBJECT_KEY_ESCAPE <==> IsUnreserved(b) || b == '/' as int
    ensures b !in OBJECT_KEY_ESCAPE <==> IsPlainKeyByte(b)
  {
    hide KEY_PUNCTUATION, UNRESERVED_MARKS, CONTROLS, IsAlphanumeric;
    Controls(b);
    Marks(b);
    Punctuation(b);
  }

  lemma Controls(b: byte)
    ensures b in CONTROLS <==> b < 0x20 || b >= 0x7F
    ensures b in CONTROLS ==> !IsAlphanumeric(b) && b != '/' as int
  {
  }

  lemma Marks(b: byte)
    ensures b in UNRESERVED_MARKS <==> b == '-' as int || b == '.' as int || b == '_' as int || b == '~' as int
    ensures b in UNRESERVED_MARKS ==> b !in CONTROLS && !IsAlphanumeric(b)
    ensures !IsAlphanumeric('/' as int)
  {
  }

  // Of the bytes that are no controls, the punctuation is what a key does not hold.
  lemma Punctuation(b: byte)
    ensures b !in CONTROLS ==>
              (b in KEY_PUNCTUATION <==> !IsAlphanumeric(b) && b !in UNRESERVED_MARKS && b != '/' as int)
    ensures b in CONTROLS ==> b !in KEY_PUNCTUATION
  {
  }

  // ---- Encoding ----

  function UpperHexDigit(v: nat): (d: byte)
    requires v < 16
  {
    if v < 10 then '0' as int + v else 'A' as int + (v - 10)
  }

  function Escape(b: byte): bytes {
    [PERCENT, UpperHexDigit(b / 16), UpperHexDigit(b % 16)]
  }

  const UPPER_HEX: string := "0123456789ABCDEF"

  predicate IsUpperHex(d: byte) { '0' as int <= d <= '9' as int || 'A' as int <= d <= 'F' as int }

  // An escape is the percent sign and the two digits of its byte, in capitals.
  lemma EscapeIsUppercase(b: byte)
    ensures Escape(b) == [PERCENT, UPPER_HEX[b / 16] as int, UPPER_HEX[b % 16] as int]
    ensures IsUpperHex(Escape(b)[1]) && IsUpperHex(Escape(b)[2])
  {
    UpperDigit(b / 16);
    UpperDigit(b % 16);
  }

  lemma UpperDigit(v: nat)
    requires v < 16
    ensures UpperHexDigit(v) == UPPER_HEX[v] as int && IsUpperHex(UpperHexDigit(v))
  {
  }

  // The encoding byte by byte, which the chunked encoder below refines.
  function PercentEncoded(s: bytes, escape: AsciiSet): bytes {
    if s == [] then []
    else (if s[0] in escape then Escape(s[0]) else [s[0]]) + PercentEncoded(s[1..], escape)
  }

  lemma {:induction false} PercentEncodedRun(s: bytes, n: nat, escape: AsciiSet)
    requires n <= |s| && forall i :: 0 <= i < n ==> s[i] !in escape
    ensures PercentEncoded(s, escape) == s[..n] + PercentEncoded(s[n..], escape)
  {
    if n > 0 {
      PercentEncodedRun(s[1..], n - 1, escape);
      assert s[1..][n - 1..] == s[n..] && [s[0]] + s[1..][..n - 1] == s[..n];
    }
  }

  // The length of the run at the start of `s` that needs no escape: whole chunks of
  // sixteen bytes first, then byte by byte.
  method Unescaped(s: bytes, escape: AsciiSet) returns (n: nat)
    ensures n <= |s| && forall i :: 0 <= i < n ==> s[i] !in escape
    ensures n < |s| ==> s[n] in escape
  {
    var clean := 0;
    var found := false;
    while clean < |s| / 16 && !found
      invariant clean <= |s| / 16
      invariant forall i :: 0 <= i < clean * 16 ==> s[i] !in escape
      decreases |s| / 16 - clean, !found
    {
      var any := false;
      for k := 0 to 16
        invariant any <==> exists i :: clean * 16 <= i < clean * 16 + k && s[i] in escape
      {
        any := any || s[clean * 16 + k] in escape;
      }
      if any { found := true; } else { clean := clean + 1; }
    }
    n := clean * 16;
    while n < |s| && s[n] !in escape
      invariant n <= |s| && forall i :: 0 <= i < n ==> s[i] !in escape
    {
      n := n + 1;
    }
  }

  // `run` is the longest start of `s` without a byte to escape, and `rest` is what follows it.
  predicate IsLongestRun(run: bytes, rest: bytes, s: bytes, escape: AsciiSet) {
    s == run + rest && (forall b :: b in run ==> b !in escape) && (rest != [] ==> rest[0] in escape)
  }

  // An iterator over the pieces of an encoding.
  class PercentEncode {
    var rest: bytes
    const escape: AsciiSet

    constructor (value: bytes, escape: AsciiSet)
      ensures rest == value && this.escape == escape
    {
      rest, this.escape := value, escape;
    }

    method Next() returns (part: Option<bytes>)
      modifies this
      ensures part.None? <==> old(rest) == []
      ensures part.None? ==> rest == []
      ensures part.Some? ==> |rest| < |old(rest)|
      ensures part.Some? ==> PercentEncoded(old(rest), escape) == part.value + PercentEncoded(rest, escape)
      ensures part.Some? && old(rest)[0] in escape ==> part.value == Escape(old(rest)[0]) && rest == old(rest)[1..]
      ensures part.Some? && old(rest)[0] !in escape ==> IsLongestRun(part.value, rest, old(rest), escape)
    {
      if rest == [] { return None; }
      var first, remaining := rest[0], rest[1..];
      if first in escape {
        rest := remaining;
        return Some(Escape(first));
      }
      var run := Unescaped(remaining, escape);
      PercentEncodedRun(rest, 1 + run, escape);
      part := Some(rest[..1 + run]);
      rest := rest[1 + run..];
    }
  }

  lemma NothingEncoded(escape: AsciiSet)
    ensures PercentEncoded([], escape) == []
  {
  }

  // Writes `value` percent-encoded, one piece after another.
  method WriteEncoded(out: Writer, value: bytes, escape: AsciiSet)
    requires out.Valid()
    modifies out, out.buffer
    ensures out.Valid() && out.text == old(out.text) + PercentEncoded(value, escape)
  {
    hide IsLongestRun, Escape, PercentEncoded, Writer.Valid;
    NothingEncoded(escape);
    var parts := new PercentEncode(value, escape);
    var part := parts.Next();
    while part.Some?
      invariant out.Valid() && fresh(parts) && parts.escape == escape
      invariant part.None? ==> parts.rest == []
      invariant out.text + (if part.Some? then part.value else []) + PercentEncoded(parts.rest, escape)
             == old(out.text) + PercentEncoded(value, escape)
      decreases part.Some?, |parts.rest|
    {
      out.Push(part.value);
      part := parts.Next();
    }
  }

  // Whether no byte of `key` needs an escape, in one pass without an early exit.
  method KeyIsPlain(key: bytes) returns (plain: bool)
    ensures plain <==> forall i :: 0 <= i < |key| ==> key[i] !in OBJECT_KEY_ESCAPE
  {
    hide OBJECT_KEY_ESCAPE, QUERY_VALUE_ESCAPE, IsPlainKeyByte, IsUnreserved;
    plain := true;
    for i := 0 to |key|
      invariant plain <==> forall k :: 0 <= k < i ==> key[k] !in OBJECT_KEY_ESCAPE
    {
      EscapeSets(key[i]);
      plain := plain && IsPlainKeyByte(key[i]);
    }
  }

  // Appends the encoding of a key. A key that is its own encoding is pushed in one piece.
  method WriteKey(out: Writer, key: bytes)
    requires out.Valid()
    modifies out, out.buffer
    ensures out.Valid() && out.text == old(out.text) + PercentEncoded(key, OBJECT_KEY_ESCAPE)
  {
    var plain := KeyIsPlain(key);
    if plain {
      PercentEncodedRun(key, |key|, OBJECT_KEY_ESCAPE);
      assert key[..|key|] == key && PercentEncoded(key[|key|..], OBJECT_KEY_ESCAPE) == [];
      out.Push(key);
    } else {
      WriteEncoded(out, key, OBJECT_KEY_ESCAPE);
    }
  }

  // ---- Decoding ----

  function HexDigit(c: byte): Option<nat> {
    if '0' as int <= c <= '9' as int then Some(c - '0' as int)
    else if 'a' as int <= c <= 'f' as int then Some(c - 'a' as int + 10)
    else if 'A' as int <= c <= 'F' as int then Some(c - 'A' as int + 10)
    else None
  }

  // Reads two hexadecimal digits, in either case.
  function AfterPercentSign(rest: bytes): (r: Option<byte>)
    ensures r.Some? ==> |rest| >= 2
  {
    if |rest| < 2 || HexDigit(rest[0]).None? || HexDigit(rest[1]).None? then None
    else HexDigitBound(rest[0]); HexDigitBound(rest[1]); Some(HexDigit(rest[0]).value * 16 + HexDigit(rest[1]).value)
  }

  lemma HexDigitBound(c: byte)
    ensures HexDigit(c).Some? ==> HexDigit(c).value < 16
  {
  }

  predicate Decodes(b: byte, plusIsSpace: bool) {
    b == PERCENT || (plusIsSpace && b == PLUS)
  }

  // What the character at the start of `s` decodes to, and how many bytes that takes.
  function DecodeOne(s: bytes, plusIsSpace: bool): (r: (byte, nat))
    requires s != []
    ensures 1 <= r.1 <= |s|
  {
    if s[0] == PERCENT then
      match AfterPercentSign(s[1..])
      case Some(b) => (b, 3)
      case None => (PERCENT, 1)
    else if plusIsSpace && s[0] == PLUS then (SPACE, 1)
    else (s[0], 1)
  }

  // The sequential decoder: it reads the text once, from its start, and writes elsewhere.
  function Decoded(s: bytes, plusIsSpace: bool): (t: bytes)
    ensures |t| <= |s|
    decreases |s|
  {
    if s == [] then []
    else
      var (b, read) := DecodeOne(s, plusIsSpace);
      [b] + Decoded(s[read..], plusIsSpace)
  }

  // A character that decodes to itself.
  lemma DecodedPlain(s: bytes, plusIsSpace: bool)
    requires s != [] && !Decodes(s[0], plusIsSpace)
    ensures Decoded(s, plusIsSpace) == [s[0]] + Decoded(s[1..], plusIsSpace)
  {
    assert DecodeOne(s, plusIsSpace) == (s[0], 1);
  }

  lemma {:induction false} DecodedRun(s: bytes, n: nat, plusIsSpace: bool)
    requires n <= |s| && forall i :: 0 <= i < n ==> !Decodes(s[i], plusIsSpace)
    ensures Decoded(s, plusIsSpace) == s[..n] + Decoded(s[n..], plusIsSpace)
  {
    hide Decoded;
    if n > 0 {
      DecodedPlain(s, plusIsSpace);
      DecodedRun(s[1..], n - 1, plusIsSpace);
      assert s[1..][n - 1..] == s[n..] && [s[0]] + s[1..][..n - 1] == s[..n];
    } else {
      assert s[..0] == [] && s[0..] == s;
    }
  }

  // Moves `b[from..from + len]` down to `b[to..to + len]`.
  method CopyWithin(b: array<byte>, from: nat, len: nat, to: nat)
    requires to <= from && from + len <= b.Length
    modifies b
    ensures b[..to + len] == old(b[..to] + b[from..from + len])
    ensures b[from + len..] == old(b[from + len..])
  {
    ghost var was := b[..];
    for k := 0 to len
      invariant forall i :: 0 <= i < to || to + k <= i < b.Length ==> b[i] == was[i]
      invariant forall i :: to <= i < to + k ==> b[i] == was[i + (from - to)]
    {
      b[to + k] := b[from + k];
    }
    Moved(was, b[..], from, len, to);
    assert b[..][..to + len] == b[..to + len] && b[..][from + len..] == b[from + len..];
    assert was[..to] + was[from..from + len] == old(b[..to] + b[from..from + len]);
  }

  lemma Moved(was: bytes, now: bytes, from: nat, len: nat, to: nat)
    requires to <= from && from + len <= |was| == |now|
    requires forall i :: 0 <= i < to || to + len <= i < |was| ==> now[i] == was[i]
    requires forall i :: to <= i < to + len ==> now[i] == was[i + (from - to)]
    ensures now[..to + len] == was[..to] + was[from..from + len]
    ensures now[from + len..] == was[from + len..]
  {
    var moved := was[..to] + was[from..from + len];
    assert forall i :: 0 <= i < to + len ==> now[i] == moved[i];
  }

  // The length of the run at `b[r..]` that decodes to itself.
  method PlainRun(b: array<byte>, r: nat, plusIsSpace: bool) returns (run: nat)
    requires r <= b.Length
    ensures r + run <= b.Length
    ensures Decoded(b[..][r..], plusIsSpace) == b[..][r..r + run] + Decoded(b[..][r + run..], plusIsSpace)
    ensures r + run < b.Length ==> Decodes(b[r + run], plusIsSpace)
  {
    hide Decoded;
    run := 0;
    while r + run < b.Length && !Decodes(b[r + run], plusIsSpace)
      invariant r + run <= b.Length
      invariant forall i :: r <= i < r + run ==> !Decodes(b[i], plusIsSpace)
    {
      run := run + 1;
    }
    DecodedRun(b[r..], run, plusIsSpace);
    assert b[r..][..run] == b[r..r + run] && b[r..][run..] == b[r + run..];
  }

  // What the character at `b[r]`, one that decodes, decodes to, and how many bytes it takes.
  method DecodeAt(b: array<byte>, r: nat, plusIsSpace: bool) returns (decoded: byte, read: nat)
    requires r < b.Length && Decodes(b[r], plusIsSpace)
    ensures r + read <= b.Length
    ensures Decoded(b[..][r..], plusIsSpace) == [decoded] + Decoded(b[..][r + read..], plusIsSpace)
    ensures read >= 1 && ([decoded] != b[..][r..r + read] <==> read != 1 || b[r] == PLUS)
  {
    decoded, read := SPACE, 1;
    assert b[r..][1..] == b[r + 1..];
    if b[r] != PLUS {
      var named := AfterPercentSign(b[r + 1..]);
      if named.Some? { decoded, read := named.value, 3; } else { decoded := PERCENT; }
    }
    assert DecodeOne(b[r..], plusIsSpace) == (decoded, read);
    assert b[r..][read..] == b[r + read..];
  }

  // `b[..w]` holds what `text[..r]` decodes to: with `left`, what is still to come, it is `all`.
  ghost predicate Decoding(text: bytes, b: bytes, r: nat, w: nat, changed: bool, left: bytes, all: bytes) {
    && w <= r <= |b| == |text|
    && b[r..] == text[r..]
    && b[..w] + left == all
    && (changed <==> b[..w] != text[..r])
  }

  lemma DecodingKeepsRun(text: bytes, b: bytes, b': bytes, r: nat, w: nat, run: nat, changed: bool, left: bytes,
                         all: bytes)
    requires r + run <= |b| == |b'| && Decoding(text, b, r, w, changed, b[r..r + run] + left, all)
    requires b'[..w + run] == b[..w] + b[r..r + run] && b'[r + run..] == b[r + run..]
    ensures Decoding(text, b', r + run, w + run, changed, left, all)
  {
    var t := b[r..r + run];
    assert t == b[r..][..run] == text[r..][..run];
    assert b[r + run..] == b[r..][run..] == text[r..][run..] == text[r + run..];
    SameEnd(b[..w], text[..r], t);
    assert text[..r + run] == text[..r] + t;
  }

  lemma DecodingTakesOne(text: bytes, b: bytes, r: nat, w: nat, decoded: byte, read: nat, changed: bool,
                         left: bytes, all: bytes)
    requires read >= 1 && r + read <= |b| && Decoding(text, b, r, w, changed, [decoded] + left, all)
    ensures Decoding(text, b[w := decoded], r + read, w + 1, changed || [decoded] != b[r..r + read], left, all)
  {
    var b', t := b[w := decoded], b[r..r + read];
    assert b'[..w + 1] == b[..w] + [decoded] && b'[r + read..] == b[r + read..];
    assert t == b[r..][..read] == text[r..][..read];
    assert b[r + read..] == b[r..][read..] == text[r..][read..] == text[r + read..];
    Differs(b[..w], text[..r], decoded, t);
    assert text[..r + read] == text[..r] + t;
  }

  lemma Differs(a: bytes, b: bytes, x: byte, t: bytes)
    requires |a| <= |b| && |t| >= 1
    ensures a + [x] == b + t <==> a == b && t == [x]
  {
    if a + [x] == b + t {
      assert |a| == |b| && |t| == 1;
      assert a == (a + [x])[..|a|] == b;
      assert t[0] == (a + [x])[|a|] == x;
    }
  }

  lemma SameEnd(a: bytes, b: bytes, t: bytes)
    ensures a + t == b + t <==> a == b
  {
    if a + t == b + t {
      assert a == (a + t)[..|a|] && b == (b + t)[..|b|];
    }
  }

  // Whether `b` holds a byte that decoding looks at.
  method HoldsEscapes(b: array<byte>, plusIsSpace: bool) returns (found: bool)
    ensures !found ==> Decoded(b[..], plusIsSpace) == b[..]
  {
    hide Decoded;
    found := false;
    for i := 0 to b.Length
      invariant found <==> exists k :: 0 <= k < i && Decodes(b[k], plusIsSpace)
    {
      found := found || Decodes(b[i], plusIsSpace);
    }
    if !found {
      DecodedRun(b[..], b.Length, plusIsSpace);
      assert b[..][..b.Length] == b[..] && b[..][b.Length..] == [];
    }
  }

  // The state of the decoder of `text` between two characters, when its buffer holds `now`.
  ghost predicate Reading(text: bytes, now: bytes, r: nat, w: nat, changed: bool, plusIsSpace: bool) {
    r <= |now| && Decoding(text, now, r, w, changed, Decoded(now[r..], plusIsSpace), Decoded(text, plusIsSpace))
  }

  lemma ReadingStarts(text: bytes, plusIsSpace: bool)
    ensures Reading(text, text, 0, 0, false, plusIsSpace)
  {
    assert text[0..] == text;
  }

  lemma ReadingEnds(text: bytes, now: bytes, w: nat, changed: bool, plusIsSpace: bool)
    requires Reading(text, now, |now|, w, changed, plusIsSpace)
    ensures w <= |now| == |text| && now[..w] == Decoded(text, plusIsSpace)
    ensures changed <==> Decoded(text, plusIsSpace) != text
  {
    assert text[..|now|] == text && now[|now|..] == [];
    assert now[..w] + [] == now[..w];
  }

  // Moves the run that decodes to itself down to where it is written.
  method KeepRun(b: array<byte>, r: nat, w: nat, plusIsSpace: bool, ghost text: bytes, ghost changed: bool)
    returns (run: nat)
    requires Reading(text, b[..], r, w, changed, plusIsSpace)
    modifies b
    ensures r + run <= b.Length && Reading(text, b[..], r + run, w + run, changed, plusIsSpace)
    ensures r + run < b.Length ==> Decodes(b[r + run], plusIsSpace)
  {
    hide Decoded;
    ghost var before := b[..];
    run := PlainRun(b, r, plusIsSpace);
    ghost var next := before[r + run..];
    if w != r {
      CopyWithin(b, r, run, w);
    }
    assert b[..][r + run..] == next && b[..][..w + run] == before[..w] + before[r..r + run];
    DecodingKeepsRun(text, before, b[..], r, w, run, changed, Decoded(next, plusIsSpace), Decoded(text, plusIsSpace));
    assert r + run < b.Length ==> b[r + run] == next[0] == before[r + run];
  }

  // Writes what the character at `b[r]` decodes to.
  method TakeOne(b: array<byte>, r: nat, w: nat, plusIsSpace: bool, ghost text: bytes, changed: bool)
    returns (read: nat, changes: bool)
    requires r < b.Length && Decodes(b[r], plusIsSpace) && Reading(text, b[..], r, w, changed, plusIsSpace)
    modifies b
    ensures read >= 1 && r + read <= b.Length && Reading(text, b[..], r + read, w + 1, changes, plusIsSpace)
  {
    ghost var before := b[..];
    var decoded;
    decoded, read := DecodeAt(b, r, plusIsSpace);
    ghost var next := before[r + read..];
    DecodingTakesOne(text, before, r, w, decoded, read, changed, Decoded(next, plusIsSpace),
                     Decoded(text, plusIsSpace));
    changes := changed || read != 1 || b[r] == PLUS;
    b[w] := decoded;
    assert b[..] == before[w := decoded] && b[..][r + read..] == next;
  }

  // Decodes `b` in place. `r` reads and `w` writes, and `w` never passes `r`.
  method DecodeInPlace(b: array<byte>, plusIsSpace: bool) returns (len: nat, changed: bool)
    modifies b
    ensures len <= b.Length && b[..len] == Decoded(old(b[..]), plusIsSpace)
    ensures changed <==> Decoded(old(b[..]), plusIsSpace) != old(b[..])
  {
    hide Decoded, Decoding;
    ghost var text := b[..];
    var escapes := HoldsEscapes(b, plusIsSpace);
    if !escapes {
      return b.Length, false;
    }
    var r, w := 0, 0;
    changed := false;
    ReadingStarts(text, plusIsSpace);
    while r < b.Length
      invariant r <= b.Length && Reading(text, b[..], r, w, changed, plusIsSpace)
    {
      var run := KeepRun(b, r, w, plusIsSpace, text, changed);
      r, w := r + run, w + run;
      if r == b.Length { break; }
      var read, changes := TakeOne(b, r, w, plusIsSpace, text, changed);
      r, w, changed := r + read, w + 1, changes;
    }
    len := w;
    ReadingEnds(text, b[..], w, changed, plusIsSpace);
  }

  // ---- The encoder and the decoder undo each other ----

  lemma EscapeDecodes(b: byte, rest: bytes, plusIsSpace: bool)
    ensures DecodeOne(Escape(b) + rest, plusIsSpace) == (b, 3)
  {
    var s := Escape(b) + rest;
    assert s[1..][0] == UpperHexDigit(b / 16) && s[1..][1] == UpperHexDigit(b % 16);
  }

  lemma {:induction false} DecodingUndoesEncoding(s: bytes, escape: AsciiSet, plusIsSpace: bool)
    requires PERCENT in escape && (plusIsSpace ==> PLUS in escape)
    ensures Decoded(PercentEncoded(s, escape), plusIsSpace) == s
  {
    if s != [] {
      var rest := PercentEncoded(s[1..], escape);
      DecodingUndoesEncoding(s[1..], escape, plusIsSpace);
      if s[0] in escape {
        EscapeDecodes(s[0], rest, plusIsSpace);
        assert (Escape(s[0]) + rest)[3..] == rest;
      } else {
        assert ([s[0]] + rest)[1..] == rest;
      }
      assert s == [s[0]] + s[1..];
    }
  }

  // Both sets that the source encodes with are undone by both ways of decoding.
  lemma DecodingUndoesBothEncodings(s: bytes, plusIsSpace: bool)
    ensures Decoded(PercentEncoded(s, OBJECT_KEY_ESCAPE), plusIsSpace) == s
    ensures Decoded(PercentEncoded(s, QUERY_VALUE_ESCAPE), plusIsSpace) == s
  {
    EscapeSets(PERCENT);
    EscapeSets(PLUS);
    DecodingUndoesEncoding(s, OBJECT_KEY_ESCAPE, plusIsSpace);
    DecodingUndoesEncoding(s, QUERY_VALUE_ESCAPE, plusIsSpace);
  }

  // What an encoded value holds: a query value holds unreserved characters and escapes alone.
  lemma {:induction false} EncodedBytes(s: bytes, escape: AsciiSet, i: nat)
    requires i < |PercentEncoded(s, escape)| && forall b: byte :: IsAlphanumeric(b) ==> b !in escape
    ensures PercentEncoded(s, escape)[i] == PERCENT || PercentEncoded(s, escape)[i] !in escape
  {
    var first := if s[0] in escape then Escape(s[0]) else [s[0]];
    if i >= |first| {
      EncodedBytes(s[1..], escape, i - |first|);
    } else if s[0] in escape {
      assert IsAlphanumeric(UpperHexDigit(s[0] / 16)) && IsAlphanumeric(UpperHexDigit(s[0] % 16));
    }
  }

  // Form decoding is replacing every `+`, then percent-decoding.
  function PlusReplaced(s: bytes): (t: bytes)
    ensures |t| == |s| && forall i :: 0 <= i < |s| ==> t[i] == if s[i] == PLUS then SPACE else s[i]
  {
    seq(|s|, i requires 0 <= i < |s| => if s[i] == PLUS then SPACE else s[i])
  }

  lemma {:induction false} FormDecodingReplacesPlusFirst(s: bytes)
    ensures Decoded(s, true) == Decoded(PlusReplaced(s), false)
    decreases |s|
  {
    if s != [] {
      var t := PlusReplaced(s);
      assert AfterPercentSign(s[1..]) == AfterPercentSign(t[1..]);
      var (b, read) := DecodeOne(s, true);
      assert DecodeOne(t, false) == (b, read);
      assert t[read..] == PlusReplaced(s[read..]);
      FormDecodingReplacesPlusFirst(s[read..]);
    }
  }

  // In a form, a plus sign is a space.
  lemma {:induction false} PlusIsSpace(s: bytes, i: nat)
    requires PERCENT !in s && i < |s|
    ensures |Decoded(s, true)| == |s| == |Decoded(s, false)| && Decoded(s, false)[i] == s[i]
    ensures Decoded(s, true)[i] == if s[i] == '+' as int then ' ' as int else s[i]
  {
    if i > 0 {
      PlusIsSpace(s[1..], i - 1);
    } else if |s| > 1 {
      PlusIsSpace(s[1..], 0);
    }
  }

  const LOWER_HEX: string := "0123456789abcdef"

  lemma HexDigitIs(c: byte, v: nat)
    requires v < 16
    ensures HexDigit(c) == Some(v) <==> c == LOWER_HEX[v] as int || c == UPPER_HEX[v] as int
  {
  }

  // An escape is read in capitals, in small letters, or in both.
  lemma EscapeIsRead(high: nat, low: nat, capitalFirst: bool, capitalThen: bool, rest: bytes)
    requires high < 16 && low < 16
    ensures
      var first := (if capitalFirst then UPPER_HEX else LOWER_HEX)[high] as int;
      var second := (if capitalThen then UPPER_HEX else LOWER_HEX)[low] as int;
      AfterPercentSign([first, second] + rest) == Some(high * 16 + low)
  {
    hide HexDigit;
    var first := (if capitalFirst then UPPER_HEX else LOWER_HEX)[high] as int;
    var second := (if capitalThen then UPPER_HEX else LOWER_HEX)[low] as int;
    HexDigitIs(first, high);
    HexDigitIs(second, low);
  }

  // So every percent sign of an encoding starts an escape in capitals, as a signed URL needs.
  lemma {:induction false} EscapesAreUppercase(s: bytes, escape: AsciiSet, i: nat)
    requires PERCENT in escape
    requires i < |PercentEncoded(s, escape)| && PercentEncoded(s, escape)[i] == PERCENT
    ensures i + 2 < |PercentEncoded(s, escape)|
    ensures IsUpperHex(PercentEncoded(s, escape)[i + 1]) && IsUpperHex(PercentEncoded(s, escape)[i + 2])
  {
    hide Escape, IsUpperHex;
    var first, rest := if s[0] in escape then Escape(s[0]) else [s[0]], PercentEncoded(s[1..], escape);
    EscapeParts(s[0]);
    if i >= |first| {
      EscapesAreUppercase(s[1..], escape, i - |first|);
      assert PercentEncoded(s, escape)[i + 1] == rest[i - |first| + 1];
      assert PercentEncoded(s, escape)[i + 2] == rest[i - |first| + 2];
    }
  }

  lemma EscapeParts(b: byte)
    ensures |Escape(b)| == 3 && Escape(b)[0] == PERCENT
    ensures Escape(b)[1] != PERCENT && Escape(b)[2] != PERCENT
    ensures IsUpperHex(Escape(b)[1]) && IsUpperHex(Escape(b)[2])
  {
    EscapeIsUppercase(b);
  }
}
