/** The encoded words of RFC 2047, which carry the metadata that a header cannot. */
module EncodedWords {
  import opened Bytes
  import opened Encodings
  import opened HttpMessages
  import opened Url

  const QUESTION: byte := '?' as int
  const WORD_START: bytes := ['=' as int, '?' as int]
  const WORD_END: bytes := ['?' as int, '=' as int]
  const UTF_8: bytes := ['U' as int, 'T' as int, 'F' as int, '-' as int, '8' as int]
  const WORD_PREFIX: bytes := WORD_START + UTF_8 + [QUESTION, 'B' as int, QUESTION]

  // One word of a text, in base64.
  function WordOf(text: bytes): bytes { WORD_PREFIX + Encode(text) + WORD_END }

  method WriteWord(text: bytes) returns (out: bytes)
    ensures out == WordOf(text)
  {
    hide Encode, EncodeGroup;
    out := WORD_PREFIX;
    var rest := text;
    while rest != []
      invariant out + Encode(rest) == WORD_PREFIX + Encode(text)
      decreases |rest|
    {
      var n := Min(3, |rest|);
      var encoded := new byte[4](i => 0);
      Base64Into(rest[..n], encoded);
      EncodeOne(rest[..n]);
      NextGroup(rest);
      assert out + Encode(rest) == (out + encoded[..]) + Encode(rest[n..]);
      out, rest := out + encoded[..], rest[n..];
    }
    NextGroup(rest);
    assert out + [] == out;
    out := out + WORD_END;
  }

  // ---- Reading ----

  predicate IsGraphic(b: byte) { 0x21 <= b <= 0x7E }

  // The reference decoder of Q words, one character at a time, which `ReadQ` refines.
  function DecodeQ(text: bytes): Option<bytes> {
    if text == [] then Some([])
    else if text[0] == PAD then
      if |text| < 3 || HexDigit(text[1]) == None || HexDigit(text[2]) == None then None
      else (HexDigitBound(text[1]); HexDigitBound(text[2]);
        Prepend(HexDigit(text[1]).value * 16 + HexDigit(text[2]).value, DecodeQ(text[3..])))
    else if text[0] == '_' as int then Prepend(SPACE, DecodeQ(text[1..]))
    else if IsGraphic(text[0]) then Prepend(text[0], DecodeQ(text[1..]))
    else None
  }

  function Prepend(b: byte, rest: Option<bytes>): Option<bytes> {
    match rest case None => None case Some(s) => Some([b] + s)
  }

  lemma {:induction false} DecodeQShrinks(text: bytes)
    ensures DecodeQ(text).Some? ==> |DecodeQ(text).value| <= |text|
    decreases |text|
  {
    if text != [] {
      DecodeQShrinks(text[1..]);
      if |text| >= 3 {
        DecodeQShrinks(text[3..]);
      }
    }
  }

  lemma GroupsShrink(text: bytes)
    requires |text| % 4 == 0
    ensures DecodeGroups(text).Some? ==> |DecodeGroups(text).value| <= |text|
    decreases |text|
  {
    hide DecodeGroup;
    LenIsDecodedLen(text);
  }

  // The words of a value: its pieces between blanks, without the empty ones.
  function NonEmpty(pieces: seq<bytes>): seq<bytes> {
    if pieces == [] then []
    else if pieces[0] == [] then NonEmpty(pieces[1..])
    else [pieces[0]] + NonEmpty(pieces[1..])
  }

  function WordsIn(value: bytes): seq<bytes> { NonEmpty(SplitOn(value, BLANKS)) }

  function DecodeWord(word: bytes): Option<bytes> {
    if !(WORD_START <= word) || |word| < 4 || word[|word| - 2..] != WORD_END then None
    else
      var parts := SplitOn(word[2..|word| - 2], {QUESTION});
      if |parts| != 3 || !SameIgnoringCase(parts[0], UTF_8) then None
      else if parts[1] == ['B' as int] || parts[1] == ['b' as int] then Decode(parts[2])
      else if parts[1] == ['Q' as int] || parts[1] == ['q' as int] then DecodeQ(parts[2])
      else None
  }

  function DecodeWords(words: seq<bytes>): Option<bytes> {
    if words == [] then Some([])
    else
      match DecodeWord(words[0])
      case None => None
      case Some(first) =>
        match DecodeWords(words[1..]) case None => None case Some(rest) => Some(first + rest)
  }

  // The text of a value of one or more words, whose bytes must be text by `utf8`.
  function TextOf(value: bytes, utf8: bytes -> bool): Option<bytes> {
    if WordsIn(value) == [] then None
    else
      match DecodeWords(WordsIn(value))
      case None => None
      case Some(text) => if utf8(text) then Some(text) else None
  }

  method ReadQ(text: bytes, into: array<byte>, start: nat) returns (r: Option<nat>)
    requires start <= into.Length
    modifies into
    ensures r == match DecodeQ(text)
      case None => None
      case Some(s) => if start + |s| <= into.Length then Some(|s|) else None
    ensures into[..start] == old(into[..start])
    ensures r.Some? ==> into[..start + r.value] == old(into[..start]) + DecodeQ(text).value
  {
    hide HexDigit, IsGraphic;
    var len, at := 0, 0;
    ghost var done: bytes, before := [], into[..start];
    assert text[0..] == text;
    NothingInQ(DecodeQ(text));
    while at < |text|
      invariant 0 <= at <= |text| && len == |done| && start + len <= into.Length
      invariant into[..start + len] == before + done
      invariant Joins(DecodeQ(text), done, DecodeQ(text[at..]))
    {
      var b := text[at];
      var width := 1;
      QSteps(text, at);
      if b == '_' as int {
        b := SPACE;
      } else if b == PAD {
        if at + 1 >= |text| || HexDigit(text[at + 1]) == None || at + 2 >= |text| || HexDigit(text[at + 2]) == None {
          return None;
        }
        HexDigitBound(text[at + 1]);
        HexDigitBound(text[at + 2]);
        b := HexDigit(text[at + 1]).value * 16 + HexDigit(text[at + 2]).value;
        width := 3;
      } else if !IsGraphic(b) {
        return None;
      }
      JoinsOneMore(DecodeQ(text), done, b, DecodeQ(text[at + width..]));
      if start + len >= into.Length {
        return None;
      }
      into[start + len] := b;
      assert into[..start + len + 1] == before + done + [b];
      assert before + done + [b] == before + (done + [b]);
      len, done := len + 1, done + [b];
      at := at + width;
    }
    NothingInQ(DecodeQ(text));
    assert text[at..] == [] && done + [] == done;
    assert into[..start] == before by {
      assert into[..start] == into[..start + len][..start];
    }
    return Some(len);
  }

  lemma NothingInQ(whole: Option<bytes>)
    ensures DecodeQ([]) == Some([]) && Joins(whole, [], whole)
  {
    NothingDecoded(whole);
  }

  lemma JoinsOneMore(whole: Option<bytes>, done: bytes, b: byte, rest: Option<bytes>)
    requires Joins(whole, done, Prepend(b, rest))
    ensures Joins(whole, done + [b], rest)
  {
    if rest.Some? {
      assert done + ([b] + rest.value) == (done + [b]) + rest.value;
    }
  }

  // One step of the Q encoding.
  lemma QSteps(text: bytes, at: nat)
    requires at < |text|
    ensures var rest := DecodeQ(text[at..]);
      if text[at] == PAD then
        if at + 2 >= |text| || HexDigit(text[at + 1]) == None || HexDigit(text[at + 2]) == None then rest == None
        else (HexDigitBound(text[at + 1]); HexDigitBound(text[at + 2]);
          rest == Prepend(HexDigit(text[at + 1]).value * 16 + HexDigit(text[at + 2]).value, DecodeQ(text[at + 3..])))
      else if text[at] == '_' as int then rest == Prepend(SPACE, DecodeQ(text[at + 1..]))
      else if IsGraphic(text[at]) then rest == Prepend(text[at], DecodeQ(text[at + 1..]))
      else rest == None
  {
    assert text[at..][1..] == text[at + 1..];
    if at + 3 <= |text| {
      assert text[at..][3..] == text[at + 3..];
    }
  }

  method ReadWord(word: bytes, into: array<byte>, start: nat) returns (r: Option<nat>)
    requires start <= into.Length
    modifies into
    ensures r == match DecodeWord(word)
      case None => None
      case Some(s) => if start + |s| <= into.Length then Some(|s|) else None
    ensures into[..start] == old(into[..start])
    ensures r.Some? ==> into[..start + r.value] == old(into[..start]) + DecodeWord(word).value
  {
    hide DecodeQ, Decode, SplitOn;
    if !(WORD_START <= word) || |word| < 4 || word[|word| - 2..] != WORD_END {
      return None;
    }
    var parts := SplitOn(word[2..|word| - 2], {QUESTION});
    if |parts| != 3 || !SameIgnoringCase(parts[0], UTF_8) {
      return None;
    }
    if parts[1] == ['B' as int] || parts[1] == ['b' as int] {
      r := DecodeBase64(parts[2], into, start);
    } else if parts[1] == ['Q' as int] || parts[1] == ['q' as int] {
      r := ReadQ(parts[2], into, start);
    } else {
      return None;
    }
  }

  // Writes the text of a value into a buffer at least as long as the value.
  method ReadText(value: bytes, into: array<byte>, utf8: bytes -> bool) returns (r: Option<nat>)
    requires into.Length >= |value|
    modifies into
    ensures r == match TextOf(value, utf8) case None => None case Some(text) => Some(|text|)
    ensures r.Some? ==> TextOf(value, utf8).Some? && r.value <= into.Length
    ensures r.Some? ==> into[..r.value] == TextOf(value, utf8).value
  {
    hide DecodeWord, WordsIn, DecodeWords;
    var words := WordsIn(value);
    if words == [] {
      return None;
    }
    var len := 0;
    ghost var done: bytes := [];
    assert words[0..] == words;
    NoWordsLeft(DecodeWords(words));
    WordsFit(value);
    for i := 0 to |words|
      invariant len == |done| && len + Total(words[i..]) <= |value|
      invariant into[..len] == done
      invariant Joins(DecodeWords(words), done, DecodeWords(words[i..]))
    {
      WordSteps(words, i);
      WordShrinks(words[i]);
      var read := ReadWord(words[i], into, len);
      if read == None {
        return None;
      }
      JoinsMore(DecodeWords(words), done, DecodeWord(words[i]).value, DecodeWords(words[i + 1..]));
      len, done := len + read.value, done + DecodeWord(words[i]).value;
    }
    NoWordsLeft(DecodeWords(words));
    assert done + [] == done;
    if !utf8(into[..len]) {
      return None;
    }
    return Some(len);
  }

  lemma NoWordsLeft(whole: Option<bytes>)
    ensures DecodeWords([]) == Some([]) && Joins(whole, [], whole)
  {
    NothingDecoded(whole);
  }

  lemma JoinsMore(whole: Option<bytes>, done: bytes, piece: bytes, rest: Option<bytes>)
    requires Joins(whole, done, match rest case None => None case Some(s) => Some(piece + s))
    ensures Joins(whole, done + piece, rest)
  {
    if rest.Some? {
      assert done + (piece + rest.value) == (done + piece) + rest.value;
    }
  }

  lemma WordSteps(words: seq<bytes>, i: nat)
    requires i < |words|
    ensures DecodeWords(words[i..]) == match DecodeWord(words[i])
      case None => None
      case Some(first) =>
        match DecodeWords(words[i + 1..]) case None => None case Some(rest) => Some(first + rest)
    ensures Total(words[i..]) == |words[i]| + Total(words[i + 1..])
  {
    hide DecodeWord;
    assert words[i..][1..] == words[i + 1..];
  }

  // ---- Room for the text ----

  function Total(words: seq<bytes>): nat {
    if words == [] then 0 else |words[0]| + Total(words[1..])
  }

  lemma {:induction false} PiecesFit(s: bytes, separators: set<byte>)
    ensures Total(SplitOn(s, separators)) <= |s|
  {
    if s != [] {
      PiecesFit(s[1..], separators);
      var pieces := SplitOn(s[1..], separators);
      assert ([[]] + pieces)[1..] == pieces;
      assert ([[s[0]] + pieces[0]] + pieces[1..])[1..] == pieces[1..];
    }
  }

  lemma {:induction false} NonEmptyFit(pieces: seq<bytes>)
    ensures Total(NonEmpty(pieces)) <= Total(pieces)
  {
    if pieces != [] {
      NonEmptyFit(pieces[1..]);
      assert ([pieces[0]] + NonEmpty(pieces[1..]))[1..] == NonEmpty(pieces[1..]);
    }
  }

  lemma WordsFit(value: bytes)
    ensures Total(WordsIn(value)) <= |value|
  {
    PiecesFit(value, BLANKS);
    NonEmptyFit(SplitOn(value, BLANKS));
  }

  lemma {:induction false} PieceFits(pieces: seq<bytes>, i: nat)
    requires i < |pieces|
    ensures |pieces[i]| <= Total(pieces)
  {
    if i > 0 {
      PieceFits(pieces[1..], i - 1);
    }
  }

  // The text of a word is not longer than the word.
  lemma WordShrinks(word: bytes)
    ensures DecodeWord(word).Some? ==> |DecodeWord(word).value| <= |word|
  {
    hide SplitOn, DecodeQ, DecodeGroups;
    if DecodeWord(word).Some? {
      var inner := word[2..|word| - 2];
      var parts := SplitOn(inner, {QUESTION});
      PiecesFit(inner, {QUESTION});
      PieceFits(parts, 2);
      DecodeQShrinks(parts[2]);
      if |parts[2]| % 4 == 0 {
        GroupsShrink(parts[2]);
      }
    }
  }

  // ---- Reading undoes writing ----

  // Words with one space between them.
  function JoinedWords(texts: seq<bytes>): bytes
    requires texts != []
  {
    if |texts| == 1 then WordOf(texts[0]) else WordOf(texts[0]) + [SPACE] + JoinedWords(texts[1..])
  }

  function Concatenated(texts: seq<bytes>): bytes {
    if texts == [] then [] else texts[0] + Concatenated(texts[1..])
  }

  predicate IsBase64Byte(b: byte) { Sextet(b) < 64 || b == PAD }

  lemma {:induction false} EncodedAlphabet(s: bytes)
    ensures forall i :: 0 <= i < |Encode(s)| ==> IsBase64Byte(Encode(s)[i])
    decreases |s|
  {
    if s != [] {
      var n := Min(3, |s|);
      GroupAlphabet(s[..n]);
      hide EncodeGroup, IsBase64Byte;
      EncodedAlphabet(s[n..]);
    }
  }

  lemma GroupAlphabet(group: bytes)
    requires 1 <= |group| <= 3
    ensures forall i :: 0 <= i < 4 ==> IsBase64Byte(EncodeGroup(group)[i])
  {
    hide Bits, Shifted, Sextet, EncodedByte, PaddingOf;
    EncodedIsPadded(group);
    var text := EncodeGroup(group);
    forall i | 0 <= i < 4 ensures IsBase64Byte(text[i]) {
      if i <= |group| {
        assert Sextet(text[i]) == Shifted(Bits(group), i) % 64;
      }
    }
  }

  lemma WordReadsBack(text: bytes)
    ensures DecodeWord(WordOf(text)) == Some(text)
  {
    hide Encode, Decode, DecodeQ, SplitOn;
    var word, encoded := WordOf(text), Encode(text);
    EncodedAlphabet(text);
    var inner := word[2..|word| - 2];
    assert inner == UTF_8 + [QUESTION] + (['B' as int] + [QUESTION] + encoded);
    SplitAtSeparator(UTF_8, QUESTION, ['B' as int] + [QUESTION] + encoded, {QUESTION});
    SplitAtSeparator(['B' as int], QUESTION, encoded, {QUESTION});
    SplitOfOne(encoded, {QUESTION});
    assert SplitOn(inner, {QUESTION}) == [UTF_8, ['B' as int], encoded];
    Encodings.DecodingUndoesEncoding(text);
  }

  lemma WordHasNoBlank(text: bytes)
    ensures forall i :: 0 <= i < |WordOf(text)| ==> WordOf(text)[i] !in BLANKS
    ensures WordOf(text) != []
  {
    hide Encode;
    EncodedAlphabet(text);
  }

  function WordsOf(texts: seq<bytes>): (words: seq<bytes>)
    ensures |words| == |texts|
  {
    seq(|texts|, i requires 0 <= i < |texts| => WordOf(texts[i]))
  }

  lemma {:induction false} WordsOfJoined(texts: seq<bytes>)
    requires texts != []
    ensures WordsIn(JoinedWords(texts)) == WordsOf(texts)
    decreases |texts|
  {
    hide SplitOn, WordOf;
    WordHasNoBlank(texts[0]);
    if |texts| == 1 {
      SplitOfOne(WordOf(texts[0]), BLANKS);
      assert [WordOf(texts[0])][1..] == [] && NonEmpty([]) == [];
      assert NonEmpty([WordOf(texts[0])]) == [WordOf(texts[0])] + [];
      assert WordsOf(texts) == [WordOf(texts[0])];
    } else {
      var rest := JoinedWords(texts[1..]);
      SplitAtSeparator(WordOf(texts[0]), SPACE, rest, BLANKS);
      WordsOfJoined(texts[1..]);
      assert ([WordOf(texts[0])] + SplitOn(rest, BLANKS))[1..] == SplitOn(rest, BLANKS);
      assert WordsOf(texts) == [WordOf(texts[0])] + WordsOf(texts[1..]);
    }
  }

  lemma {:induction false} WordsReadBack(texts: seq<bytes>)
    ensures DecodeWords(WordsOf(texts)) == Some(Concatenated(texts))
  {
    hide WordOf, DecodeWord;
    if texts != [] {
      WordReadsBack(texts[0]);
      WordsReadBack(texts[1..]);
      assert WordsOf(texts)[1..] == WordsOf(texts[1..]);
    }
  }

  // Words that were written read as their texts, one after the other, if that is text.
  lemma ReadingUndoesWriting(texts: seq<bytes>, utf8: bytes -> bool)
    requires texts != []
    ensures TextOf(JoinedWords(texts), utf8)
         == if utf8(Concatenated(texts)) then Some(Concatenated(texts)) else None
  {
    hide WordsIn, DecodeWords, WordOf;
    WordsOfJoined(texts);
    WordsReadBack(texts);
  }

  // One written word reads as its text.
  lemma OneWordReadsBack(text: bytes, utf8: bytes -> bool)
    requires utf8(text)
    ensures TextOf(WordOf(text), utf8) == Some(text)
  {
    hide TextOf, WordOf;
    ReadingUndoesWriting([text], utf8);
    assert Concatenated([text]) == text + Concatenated([]);
    assert text + [] == text;
  }

  // ---- Words in the Q encoding ----

  // A text in the Q encoding, section 4.2 of RFC 2047: a space is `_`, and every byte but letters
  // and digits is written as its number.
  function EncodeQ(s: bytes): bytes {
    if s == [] then [] else QOf(s[0]) + EncodeQ(s[1..])
  }

  function QOf(b: byte): bytes {
    if b == SPACE then ['_' as int]
    else if IsAlphanumeric(b) then [b]
    else [PAD, UpperHexDigit(b / 16), UpperHexDigit(b % 16)]
  }

  lemma HexDigitsRead(v: nat)
    requires v < 16
    ensures HexDigit(UpperHexDigit(v)) == Some(v)
  {
  }

  // One byte is read back from what encodes it, before any other text.
  lemma OneByteReads(b: byte, rest: bytes)
    ensures DecodeQ(QOf(b) + rest) == Prepend(b, DecodeQ(rest))
  {
    hide HexDigit, UpperHexDigit;
    var text := QOf(b) + rest;
    if b == SPACE || IsAlphanumeric(b) {
      assert text[1..] == rest;
    } else {
      HexDigitsRead(b / 16);
      HexDigitsRead(b % 16);
      assert text[3..] == rest && text[1] == UpperHexDigit(b / 16) && text[2] == UpperHexDigit(b % 16);
    }
  }

  lemma QHoldsNoMark(b: byte)
    ensures forall c :: c in QOf(b) ==> c != QUESTION && c !in BLANKS
  {
  }

  lemma {:induction false} QReadsBack(s: bytes)
    ensures DecodeQ(EncodeQ(s)) == Some(s)
    ensures forall c :: c in EncodeQ(s) ==> c != QUESTION && c !in BLANKS
  {
    hide QOf, DecodeQ;
    if s == [] {
      NothingReads();
    } else {
      QReadsBack(s[1..]);
      OneByteReads(s[0], EncodeQ(s[1..]));
      QHoldsNoMark(s[0]);
      assert s == [s[0]] + s[1..];
    }
  }

  lemma NothingReads()
    ensures DecodeQ([]) == Some([])
  {
  }

  const SMALL_UTF_8: bytes := ['u' as int, 't' as int, 'f' as int, '-' as int, '8' as int]

  // A word in the Q encoding, in letters of either case.
  function QWord(text: bytes, small: bool): bytes {
    var charset := if small then SMALL_UTF_8 else UTF_8;
    var letter := if small then ['q' as int] else ['Q' as int];
    WORD_START + (charset + [QUESTION] + (letter + [QUESTION] + EncodeQ(text))) + WORD_END
  }

  lemma QWordReadsBack(text: bytes, utf8: bytes -> bool, small: bool)
    requires utf8(text)
    ensures TextOf(QWord(text, small), utf8) == Some(text)
  {
    hide EncodeQ, DecodeQ, SplitOn, Decode, NonEmpty;
    var charset := if small then SMALL_UTF_8 else UTF_8;
    var letter := if small then ['q' as int] else ['Q' as int];
    var encoded := EncodeQ(text);
    QReadsBack(text);
    assert forall i :: 0 <= i < |encoded| ==> encoded[i] in encoded;
    var inner := charset + [QUESTION] + (letter + [QUESTION] + encoded);
    var word := WORD_START + inner + WORD_END;
    SplitAtSeparator(charset, QUESTION, letter + [QUESTION] + encoded, {QUESTION});
    SplitAtSeparator(letter, QUESTION, encoded, {QUESTION});
    SplitOfOne(encoded, {QUESTION});
    assert word[2..|word| - 2] == inner;
    assert DecodeWord(word) == Some(text);
    OneWordIsRead(word, text, utf8);
  }

  lemma OneWordIsRead(word: bytes, text: bytes, utf8: bytes -> bool)
    requires word != [] && forall i :: 0 <= i < |word| ==> word[i] !in BLANKS
    requires DecodeWord(word) == Some(text) && utf8(text)
    ensures TextOf(word, utf8) == Some(text)
  {
    hide DecodeWord;
    SplitOfOne(word, BLANKS);
    assert [word][1..] == [] && NonEmpty([]) == [];
    assert NonEmpty([word]) == [word] + [] == [word];
    assert text + [] == text;
    assert DecodeWords([]) == Some([]);
    assert DecodeWords([word]) == Some(text + []);
  }

  // A word in the Q encoding is of printable characters.
  lemma {:induction false} QIsPrintable(text: bytes)
    requires DecodeQ(text).Some?
    ensures forall c :: c in text ==> 0x21 <= c <= 0x7E
    decreases |text|
  {
    if text != [] {
      if text[0] == PAD {
        DigitsArePrintable(text[1]);
        DigitsArePrintable(text[2]);
        QIsPrintable(text[3..]);
        assert text == [text[0], text[1], text[2]] + text[3..];
      } else {
        QIsPrintable(text[1..]);
        assert text == [text[0]] + text[1..];
      }
    }
  }

  // Printable characters that mark nothing stand for themselves.
  lemma {:induction false} PrintableReads(text: bytes)
    requires forall c :: c in text ==> 0x21 <= c <= 0x7E && c != '=' as int && c != '_' as int
    ensures DecodeQ(text) == Some(text)
  {
    if text != [] {
      assert text[0] in text && text == [text[0]] + text[1..];
      assert forall c :: c in text[1..] ==> c in text;
      PrintableReads(text[1..]);
    }
  }

  lemma DigitsArePrintable(c: byte)
    ensures HexDigit(c).Some? ==> 0x21 <= c <= 0x7E
  {
  }

  // A word is read only if it names UTF-8, and one of the two encodings.
  lemma ReadWordIs(word: bytes)
    requires DecodeWord(word).Some?
    ensures exists charset, letter, encoded ::
              && word == Ascii("=?") + charset + Ascii("?") + letter + Ascii("?") + encoded + Ascii("?=")
              && SameIgnoringCase(charset, Ascii("utf-8"))
              && ((SameIgnoringCase(letter, Ascii("b")) && Decode(encoded) == DecodeWord(word))
                  || (SameIgnoringCase(letter, Ascii("q")) && DecodeQ(encoded) == DecodeWord(word)))
  {
    hide SplitOn, Decode, DecodeQ, Ascii, SameIgnoringCase, WORD_START, WORD_END, UTF_8, DecodeWord;
    WordMarks();
    var charset, letter, encoded := WordInParts(word);
    CharsetIs(charset);
    assert word == Ascii("=?") + charset + Ascii("?") + letter + Ascii("?") + encoded + Ascii("?=");
  }

  lemma WordInParts(word: bytes) returns (charset: bytes, letter: bytes, encoded: bytes)
    requires DecodeWord(word).Some?
    ensures word == WORD_START + charset + [QUESTION] + letter + [QUESTION] + encoded + WORD_END
    ensures SameIgnoringCase(charset, UTF_8)
    ensures ((letter == ['B' as int] || letter == ['b' as int]) && Decode(encoded) == DecodeWord(word))
         || ((letter == ['Q' as int] || letter == ['q' as int]) && DecodeQ(encoded) == DecodeWord(word))
  {
    hide SplitOn, Decode, DecodeQ, SameIgnoringCase;
    var inner := word[2..|word| - 2];
    var parts := SplitOn(inner, {QUESTION});
    JoinOfThree(inner, QUESTION);
    charset, letter, encoded := parts[0], parts[1], parts[2];
    assert word == word[..2] + inner + word[|word| - 2..];
  }

  lemma WordMarks()
    ensures Ascii("=?") == WORD_START && Ascii("?=") == WORD_END && Ascii("?") == [QUESTION]
    ensures SameIgnoringCase(['B' as int], Ascii("b")) && SameIgnoringCase(['b' as int], Ascii("b"))
    ensures SameIgnoringCase(['Q' as int], Ascii("q")) && SameIgnoringCase(['q' as int], Ascii("q"))
  {
  }

  lemma CharsetIs(charset: bytes)
    ensures SameIgnoringCase(charset, UTF_8) <==> SameIgnoringCase(charset, Ascii("utf-8"))
  {
    var small := Ascii("utf-8");
    assert small == SMALL_UTF_8;
    assert forall i :: 0 <= i < 5 ==> ToLower(small[i]) == ToLower(UTF_8[i]);
  }

  // Three pieces and the marks between them make up what was split.
  lemma JoinOfThree(s: bytes, b: byte)
    ensures |SplitOn(s, {b})| == 3 ==>
              s == SplitOn(s, {b})[0] + [b] + SplitOn(s, {b})[1] + [b] + SplitOn(s, {b})[2]
  {
    hide SplitOn;
    SplitJoins(s, b);
    var p := SplitOn(s, {b});
    if |p| == 3 {
      assert p[1..] == [p[1], p[2]] && [p[1], p[2]][1..] == [p[2]];
      assert JoinedBy([p[2]], b) == p[2];
      assert JoinedBy([p[1], p[2]], b) == p[1] + [b] + p[2];
      assert p[0] + [b] + (p[1] + [b] + p[2]) == p[0] + [b] + p[1] + [b] + p[2];
    }
  }

  // The pieces, joined again.
  function JoinedBy(pieces: seq<bytes>, b: byte): bytes
    requires pieces != []
  {
    if |pieces| == 1 then pieces[0] else pieces[0] + [b] + JoinedBy(pieces[1..], b)
  }

  lemma {:induction false} SplitJoins(s: bytes, b: byte)
    ensures JoinedBy(SplitOn(s, {b}), b) == s
  {
    if s != [] {
      SplitJoins(s[1..], b);
      var rest := SplitOn(s[1..], {b});
      if s[0] == b {
        assert ([[]] + rest)[1..] == rest;
      } else if |rest| > 1 {
        assert ([[s[0]] + rest[0]] + rest[1..])[1..] == rest[1..];
      }
    }
  }

  // A value is read only as text.
  lemma ReadTextIsText(value: bytes, utf8: bytes -> bool)
    ensures TextOf(value, utf8).Some? ==> utf8(TextOf(value, utf8).value) && WordsIn(value) != []
  {
  }
}
