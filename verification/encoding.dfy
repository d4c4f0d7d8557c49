/** Base64, and the encoded words of RFC 2047. */
module Encodings {
  import opened Bytes

  const PAD: byte := '=' as int

  // ---- Digits ----

  // A run of `n` bytes, each one more than the one before.
  function Run(first: byte, n: nat): bytes
    requires first + n <= 256
  {
    seq(n, i requires 0 <= i < n => first + i)
  }

  const BASE64: bytes := Run('A' as int, 26) + Run('a' as int, 26) + Run('0' as int, 10) + ['+' as int, '/' as int]

  // The base64 digit of a value below 64.
  function Digit(v: nat): (d: byte)
    requires v < 64
    ensures d != PAD
  {
    if v < 26 then 'A' as int + v
    else if v < 52 then 'a' as int + (v - 26)
    else if v < 62 then '0' as int + (v - 52)
    else if v == 62 then '+' as int
    else '/' as int
  }

  // What a byte stands for among the 64 digits. The number past them marks every other byte.
  function Sextet(b: byte): (v: nat)
    ensures v <= 64
    ensures v < 64 ==> Digit(v) == b
  {
    if 'A' as int <= b <= 'Z' as int then b - 'A' as int
    else if 'a' as int <= b <= 'z' as int then b - 'a' as int + 26
    else if '0' as int <= b <= '9' as int then b - '0' as int + 52
    else if b == '+' as int then 62
    else if b == '/' as int then 63
    else 64
  }

  lemma DigitReads(v: nat)
    requires v < 64
    ensures Sextet(Digit(v)) == v
  {
  }

  lemma Alphabet(v: nat)
    requires v < 64
    ensures |BASE64| == 64 && BASE64[v] == Digit(v)
  {
  }

  // Fills the table of digit values from the alphabet.
  method BuildSextets() returns (values: array<byte>)
    ensures fresh(values) && values.Length == 256
    ensures forall b: byte :: values[b] == Sextet(b)
  {
    hide Run;
    values := new byte[256](i => 64);
    Alphabet(0);
    for value := 0 to 64
      invariant forall b: byte :: values[b] == if Sextet(b) < value then Sextet(b) else 64
    {
      Alphabet(value);
      DigitReads(value);
      values[BASE64[value]] := value;
    }
  }

  // ---- Encoding, section 4 of RFC 4648 ----

  // Up to three bytes as a number of 24 bits; missing ones are zero.
  function Bits(group: bytes): nat
    requires 1 <= |group| <= 3
  {
    group[0] as int * 0x1_0000 + (if |group| > 1 then group[1] as int * 0x100 else 0)
        + (if |group| > 2 then group[2] else 0)
  }

  function Shifted(bits: nat, i: nat): nat
    requires i < 4
  {
    if i == 0 then bits / 0x4_0000 else if i == 1 then bits / 0x1000 else if i == 2 then bits / 0x40 else bits
  }

  function EncodedByte(group: bytes, i: nat): byte
    requires 1 <= |group| <= 3 && i < 4
  {
    if i <= |group| then Digit(Shifted(Bits(group), i) % 64) else PAD
  }

  function EncodeGroup(group: bytes): (text: bytes)
    requires 1 <= |group| <= 3
    ensures |text| == 4
  {
    [EncodedByte(group, 0), EncodedByte(group, 1), EncodedByte(group, 2), EncodedByte(group, 3)]
  }

  function Encode(s: bytes): (text: bytes)
    ensures |text| == (|s| + 2) / 3 * 4
    decreases |s|
  {
    if s == [] then [] else EncodeGroup(s[..Min(3, |s|)]) + Encode(s[Min(3, |s|)..])
  }

  // Writes the base64 of a string into a buffer that holds exactly that.
  method Base64Into(s: bytes, into: array<byte>)
    requires into.Length == (|s| + 2) / 3 * 4
    modifies into
    ensures into[..] == Encode(s)
  {
    hide EncodeGroup, Encode;
    var rest, out := s, 0;
    assert into[..0] == [];
    while rest != []
      invariant out + (|rest| + 2) / 3 * 4 == into.Length
      invariant into[..out] + Encode(rest) == Encode(s)
      decreases |rest|
    {
      var n := Min(3, |rest|);
      ghost var done := into[..out];
      WriteGroup(rest[..n], into, out);
      NextGroup(rest);
      assert done + Encode(rest) == (done + EncodeGroup(rest[..n])) + Encode(rest[n..]);
      rest, out := rest[n..], out + 4;
    }
    NextGroup(rest);
    assert into[..out] + [] == into[..];
  }

  method WriteGroup(group: bytes, into: array<byte>, out: nat)
    requires 1 <= |group| <= 3 && out + 4 <= into.Length
    modifies into
    ensures into[..out + 4] == old(into[..out]) + EncodeGroup(group)
  {
    hide EncodedByte;
    for i := 0 to 4
      invariant into[..out] == old(into[..out])
      invariant forall j :: 0 <= j < i ==> into[out + j] == EncodedByte(group, j)
    {
      into[out + i] := EncodedByte(group, i);
    }
  }

  lemma NextGroup(s: bytes)
    ensures Encode(s) == if s == [] then [] else EncodeGroup(s[..Min(3, |s|)]) + Encode(s[Min(3, |s|)..])
  {
  }

  // ---- Decoding ----

  // How many of the last bytes of a group are padding.
  function PaddingOf(group: bytes): (n: nat)
    ensures n <= |group|
    ensures forall i :: |group| - n <= i < |group| ==> group[i] == PAD
    ensures n < |group| ==> group[|group| - n - 1] != PAD
  {
    if group == [] || group[|group| - 1] != PAD then 0 else 1 + PaddingOf(group[..|group| - 1])
  }

  // The bits of some digits, after others.
  function FoldSextets(digits: bytes, bits: nat): Option<nat> {
    if digits == [] then Some(bits)
    else if Sextet(digits[0]) == 64 then None
    else FoldSextets(digits[1..], bits * 64 + Sextet(digits[0]))
  }

  // The first `count` of the three bytes of 24 bits.
  function BytesOfBits(bits: nat, count: nat): (s: bytes)
    requires count <= 3
    ensures |s| == count
  {
    [bits / 0x1_0000 % 256, bits / 0x100 % 256, bits % 256][..count]
  }

  function Pow64(n: nat): nat
    requires n <= 2
  {
    if n == 0 then 1 else if n == 1 then 64 else 4096
  }

  function DecodeGroup(group: bytes, last: bool): Option<bytes>
    requires |group| == 4
  {
    var padding := PaddingOf(group);
    if padding > 2 || (padding > 0 && !last) then None
    else
      match FoldSextets(group[..4 - padding], 0)
      case None => None
      case Some(bits) => Some(BytesOfBits(bits * Pow64(padding), 3 - padding))
  }

  function DecodeGroups(text: bytes): Option<bytes>
    requires |text| % 4 == 0
    decreases |text|
  {
    if text == [] then Some([])
    else
      match DecodeGroup(text[..4], |text| == 4)
      case None => None
      case Some(first) =>
        match DecodeGroups(text[4..]) case None => None case Some(rest) => Some(first + rest)
  }

  function Decode(text: bytes): Option<bytes> {
    if |text| % 4 == 0 then DecodeGroups(text) else None
  }

  // Writes the bytes of a text from `start` on. A byte after those is as it was.
  method DecodeBase64(text: bytes, into: array<byte>, start: nat) returns (r: Option<nat>)
    requires start <= into.Length
    modifies into
    ensures r == match Decode(text)
      case None => None
      case Some(s) => if start + |s| <= into.Length then Some(|s|) else None
    ensures into[..start] == old(into[..start])
    ensures r.Some? ==>
      Decode(text).Some? && into[..] == old(into[..start]) + Decode(text).value + old(into[start + r.value..])
  {
    hide DecodeGroup, DecodeGroups, IsFilled;
    if |text| % 4 != 0 {
      return None;
    }
    var len, rest := 0, text;
    ghost var whole, done: bytes, before, after := DecodeGroups(text), [], into[..start], into[start..];
    NothingFilled(into[..], start);
    NothingDecoded(whole);
    while rest != []
      invariant |rest| % 4 == 0 && start + len <= into.Length
      invariant len == |done| && IsFilled(into[..], before, done, after)
      invariant Joins(whole, done, DecodeGroups(rest))
      decreases |rest|
    {
      FilledParts(into[..], before, done, after);
      DecodeNext(whole, done, rest);
      var group := ReadGroup(rest[..4], |rest| == 4);
      if group == None {
        return None;
      }
      var piece := group.value;
      if start + len + |piece| > into.Length {
        return None;
      }
      PasteAfter(into, start + len, piece, before, done, after);
      len, done, rest := len + |piece|, done + piece, rest[4..];
    }
    NothingDecoded(whole);
    assert done + [] == done;
    FilledParts(into[..], before, done, after);
    return Some(len);
  }

  // What is done stands before the rest of what was there.
  predicate IsFilled(a: bytes, before: bytes, done: bytes, after: bytes) {
    |done| <= |after| && a == before + done + after[|done|..]
  }

  lemma NothingFilled(a: bytes, start: nat)
    requires start <= |a|
    ensures IsFilled(a, a[..start], [], a[start..])
  {
  }

  lemma FilledParts(a: bytes, before: bytes, done: bytes, after: bytes)
    requires IsFilled(a, before, done, after)
    ensures |a| == |before| + |after| && |done| <= |after| && a[..|before|] == before
    ensures a == before + done + after[|done|..]
  {
  }

  // Reads one group of four as `DecodeGroup` does: padding is refused before the last.
  method ReadGroup(group: bytes, last: bool) returns (r: Option<bytes>)
    requires |group| == 4
    ensures r == DecodeGroup(group, last)
  {
    hide PaddingOf, FoldSextets, BytesOfBits, Pow64;
    var padding := PaddingOf(group);
    if padding > 2 || (padding > 0 && !last) {
      return None;
    }
    var bits := FoldDigits(group[..4 - padding]);
    if bits == None {
      return None;
    }
    return Some(BytesOfBits(bits.value * Pow64(padding), 3 - padding));
  }

  method FoldDigits(digits: bytes) returns (bits: Option<nat>)
    ensures bits == FoldSextets(digits, 0)
  {
    var value: nat := 0;
    assert digits[0..] == digits;
    for i := 0 to |digits|
      invariant FoldSextets(digits[i..], value) == FoldSextets(digits, 0)
    {
      if Sextet(digits[i]) == 64 {
        return None;
      }
      assert digits[i..][1..] == digits[i + 1..];
      value := value * 64 + Sextet(digits[i]);
    }
    return Some(value);
  }

  // The whole, from what is done and what is left.
  predicate Joins(whole: Option<bytes>, done: bytes, rest: Option<bytes>) {
    match rest
    case None => whole == None
    case Some(s) => whole == Some(done + s)
  }

  lemma NothingDecoded(whole: Option<bytes>)
    ensures DecodeGroups([]) == Some([]) && Joins(whole, [], whole)
  {
    if whole.Some? {
      assert [] + whole.value == whole.value;
    }
  }

  lemma DecodeNext(whole: Option<bytes>, done: bytes, rest: bytes)
    requires rest != [] && |rest| % 4 == 0 && Joins(whole, done, DecodeGroups(rest))
    ensures var group := DecodeGroup(rest[..4], |rest| == 4);
      if group == None then whole == None else Joins(whole, done + group.value, DecodeGroups(rest[4..]))
  {
    hide DecodeGroup, DecodeGroups;
    OneGroup(rest);
    var group, more := DecodeGroup(rest[..4], |rest| == 4), DecodeGroups(rest[4..]);
    if group.Some? && more.Some? {
      assert (done + group.value) + more.value == done + (group.value + more.value);
    }
  }

  lemma OneGroup(text: bytes)
    requires text != [] && |text| % 4 == 0
    ensures DecodeGroups(text) == match DecodeGroup(text[..4], |text| == 4)
      case None => None
      case Some(first) =>
        match DecodeGroups(text[4..]) case None => None case Some(rest) => Some(first + rest)
  {
    hide DecodeGroup;
  }

  // Writes a piece after what is done.
  method PasteAfter(a: array<byte>, at: nat, piece: bytes, ghost before: bytes, ghost done: bytes, ghost after: bytes)
    requires at == |before| + |done| && at + |piece| <= a.Length && IsFilled(a[..], before, done, after)
    modifies a
    ensures IsFilled(a[..], before, done + piece, after)
  {
    Paste(a, at, piece);
  }

  // ---- Decoding undoes encoding ----

  // A number of 24 bits is its four digits.
  lemma FourDigits(bits: nat)
    requires bits < 0x100_0000
    ensures var d := (i: int) requires 0 <= i < 4 => Shifted(bits, i) % 64;
      d(0) * 0x4_0000 + d(1) * 0x1000 + d(2) * 0x40 + d(3) == bits
  {
    var x := bits / 64;
    var y := x / 64;
    assert bits / 0x1000 == y && bits / 0x4_0000 == y / 64 && y / 64 < 64;
    assert bits == 64 * x + bits % 64 && x == 64 * y + x % 64 && y == 64 * (y / 64) + y % 64;
  }

  lemma BitsAndBytes(group: bytes)
    requires 1 <= |group| <= 3
    ensures Bits(group) < 0x100_0000 && BytesOfBits(Bits(group), |group|) == group
    ensures |group| < 3 ==> Shifted(Bits(group), 3) % 64 == 0
    ensures |group| < 2 ==> Shifted(Bits(group), 2) % 64 == 0
  {
    var a: int, b: int, c: int := group[0], if |group| > 1 then group[1] else 0, if |group| > 2 then group[2] else 0;
    BytesInBits(a, b, c);
    assert [a, b, c][..|group|] == group;
  }

  lemma BytesInBits(a: nat, b: nat, c: nat)
    requires a < 256 && b < 256 && c < 256
    ensures var bits := a * 0x1_0000 + b * 0x100 + c;
      && bits < 0x100_0000 && bits / 0x1_0000 % 256 == a && bits / 0x100 % 256 == b && bits % 256 == c
      && (c == 0 ==> bits % 64 == 0) && (b == 0 && c == 0 ==> bits / 0x40 % 64 == 0)
  {
    var bits := a * 0x1_0000 + b * 0x100 + c;
    assert bits / 0x1_0000 == a && bits / 0x100 == a * 256 + b;
  }

  lemma FoldFour(digits: bytes)
    requires 2 <= |digits| <= 4 && forall i :: 0 <= i < |digits| ==> Sextet(digits[i]) < 64
    ensures var v := (i: int) requires 0 <= i < |digits| => Sextet(digits[i]);
      FoldSextets(digits, 0) == Some(
        if |digits| == 2 then v(0) * 64 + v(1)
        else if |digits| == 3 then (v(0) * 64 + v(1)) * 64 + v(2)
        else ((v(0) * 64 + v(1)) * 64 + v(2)) * 64 + v(3))
  {
    hide Sextet;
    var a, b := Sextet(digits[0]), Sextet(digits[1]);
    assert FoldSextets(digits, 0) == FoldSextets(digits[1..], a);
    assert FoldSextets(digits[1..], a) == FoldSextets(digits[1..][1..], a * 64 + b);
    assert digits[1..][1..] == digits[2..];
    if |digits| > 2 {
      var c := Sextet(digits[2]);
      assert FoldSextets(digits[2..], a * 64 + b) == FoldSextets(digits[2..][1..], (a * 64 + b) * 64 + c);
      assert digits[2..][1..] == digits[3..];
      if |digits| > 3 {
        var d := Sextet(digits[3]);
        assert FoldSextets(digits[3..], ((a * 64 + b) * 64 + c))
            == FoldSextets(digits[3..][1..], ((a * 64 + b) * 64 + c) * 64 + d);
        assert digits[3..][1..] == [];
      }
    }
  }

  lemma {:induction false} FoldNeedsDigits(digits: bytes, bits: nat)
    ensures FoldSextets(digits, bits).Some? <==> forall i :: 0 <= i < |digits| ==> Sextet(digits[i]) < 64
    decreases |digits|
  {
    hide Sextet;
    if digits != [] && Sextet(digits[0]) != 64 {
      FoldNeedsDigits(digits[1..], bits * 64 + Sextet(digits[0]));
      assert forall i :: 0 < i < |digits| ==> digits[i] == digits[1..][i - 1];
    }
  }

  lemma EncodedIsPadded(group: bytes)
    requires 1 <= |group| <= 3
    ensures PaddingOf(EncodeGroup(group)) == 3 - |group|
    ensures forall i :: 0 <= i <= |group| ==> Sextet(EncodeGroup(group)[i]) == Shifted(Bits(group), i) % 64
  {
    hide Bits, Shifted, Sextet, Digit;
    var text := EncodeGroup(group);
    forall i | 0 <= i <= |group| ensures Sextet(text[i]) == Shifted(Bits(group), i) % 64 && text[i] != PAD {
      DigitReads(Shifted(Bits(group), i) % 64);
    }
    PaddingIs(text, 3 - |group|);
  }

  lemma PaddingIs(group: bytes, n: nat)
    requires n < |group| && group[|group| - n - 1] != PAD
    requires forall i :: |group| - n <= i < |group| ==> group[i] == PAD
    ensures PaddingOf(group) == n
  {
  }

  lemma GroupReadsBack(group: bytes, last: bool)
    requires 1 <= |group| <= 3 && (last || |group| == 3)
    ensures DecodeGroup(EncodeGroup(group), last) == Some(group)
  {
    hide Bits, Shifted, Sextet, PaddingOf, FoldSextets, BytesOfBits, EncodedByte;
    var text := EncodeGroup(group);
    EncodedIsPadded(group);
    BitsAndBytes(group);
    FourDigits(Bits(group));
    forall i | 0 <= i <= |group| ensures Sextet(text[i]) < 64 {
      assert Sextet(text[i]) == Shifted(Bits(group), i) % 64;
    }
    FoldFour(text[..|group| + 1]);
  }

  lemma {:induction false} GroupsReadBack(s: bytes)
    ensures |Encode(s)| % 4 == 0 && DecodeGroups(Encode(s)) == Some(s)
    decreases |s|
  {
    hide DecodeGroup, EncodeGroup, DecodeGroups;
    if s == [] {
      NothingDecoded(None);
    } else {
      var n := Min(3, |s|);
      var first, rest := EncodeGroup(s[..n]), Encode(s[n..]);
      assert Encode(s) == first + rest && Encode(s)[..4] == first && Encode(s)[4..] == rest;
      GroupsReadBack(s[n..]);
      OneGroup(Encode(s));
      assert |first + rest| == 4 || n == 3;
      GroupReadsBack(s[..n], |first + rest| == 4);
      assert s[..n] + s[n..] == s;
    }
  }

  // Every string of bytes is decoded from its base64.
  lemma DecodingUndoesEncoding(s: bytes)
    ensures Decode(Encode(s)) == Some(s)
  {
    hide Encode, DecodeGroups;
    GroupsReadBack(s);
  }

  // ---- The length that a text states ----

  // A text without the padding at its end.
  function DataOf(text: bytes): bytes {
    var n := |text|;
    if n >= 2 && text[n - 2] == PAD && text[n - 1] == PAD then text[..n - 2]
    else if n >= 1 && text[n - 1] == PAD then text[..n - 1]
    else text
  }

  predicate AreDigits(data: bytes) {
    forall i :: 0 <= i < |data| ==> Sextet(data[i]) < 64
  }

  // How many bytes a text holds, without decoding it.
  function Base64Len(text: bytes): Option<int> {
    var data := DataOf(text);
    if AreDigits(data) && |text| % 4 == 0 then Some(|text| / 4 * 3 - (|text| - |data|)) else None
  }

  lemma GroupLen(group: bytes)
    requires |group| == 4
    ensures DecodeGroup(group, true).Some? <==> AreDigits(DataOf(group))
    ensures DecodeGroup(group, true).Some? ==>
      |DecodeGroup(group, true).value| == |DataOf(group)| - 1 == 3 - PaddingOf(group)
  {
    hide FoldSextets, Sextet;
    PadIsNoDigit();
    var padding := PaddingOf(group);
    FoldNeedsDigits(group[..4 - padding], 0);
    if padding <= 2 {
      assert DataOf(group) == group[..4 - padding];
    } else {
      assert DataOf(group)[1] == PAD;
    }
  }

  lemma PadIsNoDigit()
    ensures Sextet(PAD) == 64
  {
  }

  lemma MiddleGroup(group: bytes)
    requires |group| == 4
    ensures DecodeGroup(group, false).Some? <==> AreDigits(group)
    ensures DecodeGroup(group, false).Some? ==> |DecodeGroup(group, false).value| == 3
  {
    hide FoldSextets, Sextet;
    PadIsNoDigit();
    FoldNeedsDigits(group, 0);
    assert group[..4] == group;
  }

  lemma {:induction false} GroupsLen(text: bytes)
    requires |text| % 4 == 0
    ensures DecodeGroups(text).Some? <==> AreDigits(DataOf(text))
    ensures DecodeGroups(text).Some? ==>
      |DecodeGroups(text).value| == |text| / 4 * 3 - (|text| - |DataOf(text)|)
    decreases |text|
  {
    hide DecodeGroup, Sextet, AreDigits, DataOf;
    if |text| == 4 {
      GroupLen(text);
      assert text[..4] == text && text[4..] == [];
    } else if text == [] {
      assert DataOf(text) == [] && AreDigits([]) by { NoData(); }
    } else {
      var first, rest := text[..4], text[4..];
      MiddleGroup(first);
      GroupsLen(rest);
      DataOfRest(text);
      DigitsInTwo(first, DataOf(rest));
    }
  }

  lemma NoData()
    ensures DataOf([]) == [] && AreDigits([])
  {
  }

  // The padding of a longer text is that of what follows its first group.
  lemma DataOfRest(text: bytes)
    requires |text| >= 8
    ensures DataOf(text) == text[..4] + DataOf(text[4..]) && |DataOf(text[4..])| >= 2
  {
    var rest := text[4..];
    assert rest[|rest| - 1] == text[|text| - 1] && rest[|rest| - 2] == text[|text| - 2];
  }

  lemma DigitsInTwo(a: bytes, b: bytes)
    ensures AreDigits(a + b) <==> AreDigits(a) && AreDigits(b)
  {
    hide Sextet;
    assert forall i :: 0 <= i < |a| ==> (a + b)[i] == a[i];
    assert forall i :: 0 <= i < |b| ==> (a + b)[|a| + i] == b[i];
  }

  // The length is stated exactly for the texts that decode, and is that of what they decode to.
  lemma LenIsDecodedLen(text: bytes)
    ensures Base64Len(text) == match Decode(text) case None => None case Some(s) => Some(|s|)
  {
    hide DecodeGroups, AreDigits, DataOf;
    if |text| % 4 == 0 {
      GroupsLen(text);
    }
  }

  // ---- Texts that encoding does not write ----

  // The bits of the last digit that no byte takes are zero.
  predicate IsCanonical(text: bytes) {
    var data := DataOf(text);
    data != [] ==>
      var last := Sextet(data[|data| - 1]);
      (|text| - |data| == 1 ==> last % 4 == 0) && (|text| - |data| == 2 ==> last % 16 == 0)
  }

  // Four digits make a number of 24 bits, and are found in it.
  lemma DigitsInBits(a: nat, b: nat, c: nat, d: nat)
    requires a < 64 && b < 64 && c < 64 && d < 64
    ensures var bits := ((a * 64 + b) * 64 + c) * 64 + d;
      && bits < 0x100_0000 && Shifted(bits, 0) % 64 == a && Shifted(bits, 1) % 64 == b
      && Shifted(bits, 2) % 64 == c && Shifted(bits, 3) % 64 == d
  {
    var bits := ((a * 64 + b) * 64 + c) * 64 + d;
    assert bits / 0x40 == (a * 64 + b) * 64 + c && bits / 0x1000 == a * 64 + b && bits / 0x4_0000 == a;
  }

  // The bits that the bytes of a group keep.
  lemma KeptBits(bits: nat, count: nat)
    requires bits < 0x100_0000 && 1 <= count <= 3
    ensures Bits(BytesOfBits(bits, count))
         == if count == 3 then bits else if count == 2 then bits / 0x100 * 0x100 else bits / 0x1_0000 * 0x1_0000
  {
    var a, b, c := bits / 0x1_0000 % 256, bits / 0x100 % 256, bits % 256;
    assert bits == bits / 0x1_0000 * 0x1_0000 + b * 0x100 + c && a == bits / 0x1_0000;
    var s := BytesOfBits(bits, count);
    assert s[0] == a && (count > 1 ==> s[1] == b) && (count > 2 ==> s[2] == c);
  }

  lemma LowBits(a: nat, b: nat, c: nat)
    requires a < 64 && b < 64 && c < 64
    ensures var bits := ((a * 64 + b) * 64 + c) * 64; c % 4 == 0 ==> bits / 0x100 * 0x100 == bits
    ensures var bits := (a * 64 + b) * 4096; b % 16 == 0 ==> bits / 0x1_0000 * 0x1_0000 == bits
  {
    if c % 4 == 0 {
      var k := (a * 64 + b) * 16 + c / 4;
      assert ((a * 64 + b) * 64 + c) * 64 == k * 0x100;
    }
    if b % 16 == 0 {
      var k := a * 4 + b / 16;
      assert (a * 64 + b) * 4096 == k * 0x1_0000;
    }
  }

  lemma LowBitsOfEncoded(group: bytes)
    requires 1 <= |group| <= 3
    ensures |group| == 2 ==> Shifted(Bits(group), 2) % 64 % 4 == 0
    ensures |group| == 1 ==> Shifted(Bits(group), 1) % 64 % 16 == 0
  {
    var a: nat, b: nat := group[0], if |group| > 1 then group[1] else 0;
    if |group| == 2 {
      MultipleOf(a * 256 + b, 4);
      assert Bits(group) == (a * 256 + b) * 4 * 64;
    } else if |group| == 1 {
      MultipleOf(a, 16);
      assert Bits(group) == a * 16 * 4096;
    }
  }

  lemma MultipleOf(k: nat, m: nat)
    requires m == 4 || m == 16
    ensures k * m % 64 % m == 0
  {
    if m == 4 {
      MultipleOf4(k / 16, k % 16);
    } else {
      MultipleOf16(k / 4, k % 4);
    }
  }

  lemma MultipleOf4(q: nat, r: nat)
    requires r < 16
    ensures (16 * q + r) * 4 % 64 == 4 * r && 4 * r % 4 == 0
  {
  }

  lemma MultipleOf16(q: nat, r: nat)
    requires r < 4
    ensures (4 * q + r) * 16 % 64 == 16 * r && 16 * r % 16 == 0
  {
  }

  // Nothing is lost of four digits whose unused bits are zero.
  lemma KeptDigits(a: nat, b: nat, c: nat, d: nat, padding: nat)
    requires a < 64 && b < 64 && c < 64 && d < 64 && padding <= 2
    requires padding >= 1 ==> d == 0 && c % 4 == 0
    requires padding == 2 ==> c == 0 && b % 16 == 0
    ensures var s := BytesOfBits(((a * 64 + b) * 64 + c) * 64 + d, 3 - padding);
      && Shifted(Bits(s), 0) % 64 == a && Shifted(Bits(s), 1) % 64 == b
      && Shifted(Bits(s), 2) % 64 == c && Shifted(Bits(s), 3) % 64 == d
  {
    hide Bits, Shifted, BytesOfBits;
    DigitsInBits(a, b, c, d);
    KeptBits(((a * 64 + b) * 64 + c) * 64 + d, 3 - padding);
    LowBits(a, b, c);
  }

  // The value of a digit, and zero for padding.
  function DigitValue(b: byte): (v: nat)
    ensures v < 64
  {
    if Sextet(b) < 64 then Sextet(b) else 0
  }

  // What a group decodes to, by its digits.
  lemma GroupDecodes(group: bytes)
    requires |group| == 4 && DecodeGroup(group, true).Some?
    ensures PaddingOf(group) <= 2 && forall i :: 0 <= i < 4 - PaddingOf(group) ==> Sextet(group[i]) < 64
    ensures var v := (i: int) requires 0 <= i < 4 => DigitValue(group[i]);
      DecodeGroup(group, true).value
      == BytesOfBits(((v(0) * 64 + v(1)) * 64 + v(2)) * 64 + v(3), 3 - PaddingOf(group))
  {
    hide Sextet, PaddingOf, FoldSextets, BytesOfBits;
    PadIsNoDigit();
    var padding := PaddingOf(group);
    var digits := group[..4 - padding];
    FoldNeedsDigits(digits, 0);
    FoldFour(digits);
    assert forall i :: 0 <= i < |digits| ==> digits[i] == group[i];
    var a, b, c := DigitValue(group[0]), DigitValue(group[1]), DigitValue(group[2]);
    if padding == 2 {
      assert (a * 64 + b) * 4096 == ((a * 64 + b) * 64 + 0) * 64 + 0;
    }
  }

  lemma GroupBits(group: bytes)
    requires |group| == 4 && DecodeGroup(group, true).Some?
    ensures var s, n := DecodeGroup(group, true).value, 4 - PaddingOf(group);
      && |s| == n - 1 && 2 <= n
      && (forall i :: 0 <= i < n ==> Sextet(group[i]) < 64)
      && (IsCanonical(group) ==> forall i :: 0 <= i < n ==> Shifted(Bits(s), i) % 64 == Sextet(group[i]))
  {
    hide Bits, Shifted, Sextet, PaddingOf, BytesOfBits, DecodeGroup;
    GroupDecodes(group);
    GroupData(group);
    PadIsNoDigit();
    if IsCanonical(group) {
      KeptDigits(DigitValue(group[0]), DigitValue(group[1]), DigitValue(group[2]), DigitValue(group[3]),
                 PaddingOf(group));
    }
  }

  // A group is what encodes its bytes exactly if no bits that are set go to no byte.
  lemma GroupIsCanonical(group: bytes)
    requires |group| == 4 && DecodeGroup(group, true).Some?
    ensures 1 <= |DecodeGroup(group, true).value| <= 3
    ensures EncodeGroup(DecodeGroup(group, true).value) == group <==> IsCanonical(group)
  {
    hide Bits, Shifted, Sextet, PaddingOf, EncodedByte, EncodeGroup, DecodeGroup;
    GroupBits(group);
    var s := DecodeGroup(group, true).value;
    EncodedIsPadded(s);
    LowBitsOfEncoded(s);
    GroupData(group);
    if IsCanonical(group) {
      SameDigits(EncodeGroup(s), group);
    }
  }

  lemma GroupData(group: bytes)
    requires |group| == 4 && PaddingOf(group) <= 2
    ensures DataOf(group) == group[..4 - PaddingOf(group)]
  {
  }

  lemma SameDigits(a: bytes, b: bytes)
    requires |a| == |b| == 4 && PaddingOf(a) == PaddingOf(b)
    requires forall i :: 0 <= i < 4 - PaddingOf(a) ==> Sextet(a[i]) == Sextet(b[i]) < 64
    ensures a == b
  {
    hide Sextet, PaddingOf;
    forall i | 0 <= i < 4 ensures a[i] == b[i] {
      if i < 4 - PaddingOf(a) {
        assert Digit(Sextet(a[i])) == a[i] && Digit(Sextet(b[i])) == b[i];
      }
    }
  }

  lemma FullGroupIsCanonical(group: bytes)
    requires |group| == 4 && DecodeGroup(group, false).Some?
    ensures |DecodeGroup(group, false).value| == 3 && EncodeGroup(DecodeGroup(group, false).value) == group
  {
    hide FoldSextets, Sextet;
    MiddleGroup(group);
    PadIsNoDigit();
    assert DecodeGroup(group, true) == DecodeGroup(group, false);
    GroupIsCanonical(group);
  }

  lemma {:induction false} GroupsAreCanonical(text: bytes)
    requires |text| % 4 == 0 && DecodeGroups(text).Some?
    ensures Encode(DecodeGroups(text).value) == text <==> IsCanonical(text)
    decreases |text|
  {
    hide DecodeGroup, EncodeGroup, Sextet, IsCanonical, DecodeGroups, Encode;
    if text == [] {
      NothingDecoded(None);
      NothingIsCanonical();
    } else {
      var first, rest := text[..4], text[4..];
      OneGroup(text);
      assert text == first + rest;
      if rest == [] {
        NothingDecoded(None);
        assert first == text;
        GroupIsCanonical(text);
        var s := DecodeGroup(text, true).value;
        assert s + [] == s;
        EncodeOne(s);
      } else {
        FullGroupIsCanonical(first);
        GroupsAreCanonical(rest);
        EncodeMore(DecodeGroup(first, false).value, DecodeGroups(rest).value);
        RestIsCanonical(text);
        SameRest(first, Encode(DecodeGroups(rest).value), rest);
      }
    }
  }

  lemma SameRest(head: bytes, a: bytes, b: bytes)
    ensures head + a == head + b <==> a == b
  {
    assert (head + a)[|head|..] == a && (head + b)[|head|..] == b;
  }

  lemma NothingIsCanonical()
    ensures IsCanonical([]) && Encode([]) == []
  {
  }

  lemma RestIsCanonical(text: bytes)
    requires |text| % 4 == 0 && |text| > 4
    ensures IsCanonical(text) <==> IsCanonical(text[4..])
  {
    hide DataOf, Sextet;
    DataOfRest(text);
  }

  lemma EncodeOne(group: bytes)
    requires 1 <= |group| <= 3
    ensures Encode(group) == EncodeGroup(group)
  {
    assert group[..|group|] == group && group[|group|..] == [];
    assert EncodeGroup(group) + [] == EncodeGroup(group);
  }

  lemma EncodeMore(group: bytes, rest: bytes)
    requires |group| == 3
    ensures Encode(group + rest) == EncodeGroup(group) + Encode(rest)
  {
    assert (group + rest)[..3] == group && (group + rest)[3..] == rest;
  }

  // A text that decodes is the one that encodes its bytes exactly if it is canonical.
  lemma EncodingUndoesDecoding(text: bytes)
    requires Decode(text).Some?
    ensures Encode(Decode(text).value) == text <==> IsCanonical(text)
  {
    hide DecodeGroups, IsCanonical;
    GroupsAreCanonical(text);
  }

  const ONE_LETTER: bytes := ['Q' as int, 'R' as int, PAD, PAD]

  lemma OneLetterIsRead()
    ensures DecodeGroup(ONE_LETTER, true) == Some(['A' as int])
  {
    var data := ONE_LETTER[..2];
    assert data[1..] == ['R' as int] && ['R' as int][1..] == [];
    assert FoldSextets(['R' as int], 16) == FoldSextets([], 16 * 64 + 17);
    assert FoldSextets([], 16 * 64 + 17) == Some(16 * 64 + 17);
    assert PaddingOf(ONE_LETTER) == 2;
    assert BytesOfBits((16 * 64 + 17) * 4096, 1) == ['A' as int];
  }

  // A text that is read though nothing is encoded as it: the last of its unused bits is set.
  lemma NotCanonicalIsRead()
    ensures ONE_LETTER == Ascii("QR==") && Decode(ONE_LETTER) == Some(['A' as int]) && !IsCanonical(ONE_LETTER)
  {
    hide DecodeGroup;
    OneLetterIsRead();
    assert ONE_LETTER[..4] == ONE_LETTER && DecodeGroups(ONE_LETTER[4..]) == Some([]);
    assert ['A' as int] + [] == ['A' as int];
    assert DataOf(ONE_LETTER) == ONE_LETTER[..2];
  }
}
