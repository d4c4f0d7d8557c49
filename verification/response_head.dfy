/** Which headers of a response are kept, by their names in any case. */
module ResponseHeads {
  import opened Bits
  import opened Bytes
  import opened HttpMessages

  const CASE_BIT: byte := 0x20

  predicate IsLowerCase(b: byte) { 'a' as int <= b <= 'z' as int }

  predicate IsUpperCase(b: byte) { 'A' as int <= b <= 'Z' as int }

  // The case bit of each byte that is a lowercase letter.
  function CaseBits(name: bytes): (bits: bytes)
    ensures |bits| == |name|
  {
    seq(|name|, i requires 0 <= i < |name| => if IsLowerCase(name[i]) then CASE_BIT else 0)
  }

  // ---- Words of a name ----

  // Builds the word of `width` bytes from `at`, and the word of their case bits.
  method KeptWord(name: bytes, at: nat, width: nat) returns (word: nat, fold: nat)
    requires at + width <= |name|
    ensures word == FromLittleEndian(name[at..at + width])
    ensures fold == FromLittleEndian(CaseBits(name[at..at + width]))
  {
    hide Or, FromLittleEndian;
    word, fold := 0, 0;
    NoBytes();
    assert name[at..at] == [] && CaseBits([]) == [];
    for i := 0 to width
      invariant word == FromLittleEndian(name[at..at + i])
      invariant fold == FromLittleEndian(CaseBits(name[at..at + i]))
    {
      var b := name[at + i];
      var low := name[at..at + i];
      assert name[at..at + i + 1] == low + [b];
      HigherByte(low, b);
      word := Or(word, b * Pow256(i));
      if IsLowerCase(b) {
        assert CaseBits(low + [b]) == CaseBits(low) + [CASE_BIT];
        HigherByte(CaseBits(low), CASE_BIT);
        fold := Or(fold, CASE_BIT * Pow256(i));
      } else {
        assert CaseBits(low + [b]) == CaseBits(low) + [0];
        HigherByte(CaseBits(low), 0);
        OrZero(fold);
      }
    }
  }

  lemma NoBytes()
    ensures FromLittleEndian([]) == 0
  {
  }

  lemma {:induction false} PowersAgree(k: nat)
    ensures Pow256(k) == Pow2(8 * k)
  {
    if k > 0 {
      PowersAgree(k - 1);
      EightBits(8 * (k - 1));
    }
  }

  lemma EightBits(k: nat)
    ensures Pow2(k + 8) == 256 * Pow2(k)
  {
    assert Pow2(k + 2) == 4 * Pow2(k) && Pow2(k + 4) == 4 * Pow2(k + 2);
    assert Pow2(k + 6) == 4 * Pow2(k + 4);
  }

  // A byte above those of a word.
  lemma HigherByte(low: bytes, b: byte)
    ensures Or(FromLittleEndian(low), b * Pow256(|low|)) == FromLittleEndian(low + [b])
  {
    hide Or;
    var k := 8 * |low|;
    PowersAgree(|low|);
    FromLittleEndianBound(low);
    assert 0 < Pow2(k);
    OrBelowAbove(FromLittleEndian(low), 0, 0, b, k);
    OrZero(FromLittleEndian(low));
    OrZero(b);
    OrCommutes(0, b);
    AppendedByte(low, b);
  }

  lemma {:induction false} OrCommutes(a: nat, b: nat)
    ensures Or(a, b) == Or(b, a)
    decreases a + b
  {
    if a + b > 0 {
      OrCommutes(a / 2, b / 2);
    }
  }

  lemma {:induction false} AppendedByte(low: bytes, b: byte)
    ensures FromLittleEndian(low + [b]) == FromLittleEndian(low) + b * Pow256(|low|)
  {
    if low != [] {
      AppendedByte(low[1..], b);
      assert (low + [b])[1..] == low[1..] + [b];
      var p := b * Pow256(|low| - 1);
      assert b * Pow256(|low|) == 256 * p;
    } else {
      assert (low + [b])[1..] == [];
    }
  }

  // ---- Comparing ----

  /** A name that a head keeps, as the words at its start, in its middle and at its end. */
  datatype KeptHeader = KeptHeader(len: nat, first: (nat, nat), middle: (nat, nat), last: (nat, nat))

  function WidthOf(len: nat): nat { if len < 8 then 4 else 8 }

  function MiddleOf(len: nat): nat { if len > 16 then 8 else 0 }

  predicate IsKept(known: bytes) { 4 <= |known| <= 24 }

  function KeptPair(name: bytes, at: nat, width: nat): (nat, nat)
    requires at + width <= |name|
  {
    (FromLittleEndian(name[at..at + width]), FromLittleEndian(CaseBits(name[at..at + width])))
  }

  function Kept(known: bytes): KeptHeader
    requires IsKept(known)
  {
    var width := WidthOf(|known|);
    KeptHeader(|known|, KeptPair(known, 0, width), KeptPair(known, MiddleOf(|known|), width),
               KeptPair(known, |known| - width, width))
  }

  method NewKeptHeader(known: bytes) returns (kept: KeptHeader)
    requires IsKept(known)
    ensures kept == Kept(known)
  {
    hide FromLittleEndian;
    var width := WidthOf(|known|);
    var word, fold := KeptWord(known, 0, width);
    var middleWord, middleFold := KeptWord(known, MiddleOf(|known|), width);
    var lastWord, lastFold := KeptWord(known, |known| - width, width);
    kept := KeptHeader(|known|, (word, fold), (middleWord, middleFold), (lastWord, lastFold));
  }

  // Whether a name as long as a kept one is that one in any case.
  predicate Is(kept: KeptHeader, name: bytes)
    requires |name| == kept.len && 4 <= kept.len <= 24
  {
    var width, middle := WidthOf(kept.len), MiddleOf(kept.len);
    && Or(FromLittleEndian(name[0..width]), kept.first.1) == kept.first.0
    && Or(FromLittleEndian(name[middle..middle + width]), kept.middle.1) == kept.middle.0
    && Or(FromLittleEndian(name[kept.len - width..kept.len]), kept.last.1) == kept.last.0
  }

  // The case bit of a byte is set or is not.
  lemma WithCaseBit(b: byte)
    ensures OrByte(b, CASE_BIT) == if b / 32 % 2 == 1 then b else b + 32
  {
    hide Or;
    OrBelowAbove(b % 32, 0, b / 32, 1, 5);
    assert Pow2(5) == 32;
    OrZero(b % 32);
    OrOne(b / 32);
  }

  lemma OrOne(a: nat)
    ensures Or(a, 1) == if a % 2 == 1 then a else a + 1
  {
    OrZero(a / 2);
  }

  // A byte compares as the masked compare does.
  predicate SameByte(known: byte, b: byte) {
    OrByte(b, if IsLowerCase(known) then CASE_BIT else 0) == known
  }

  lemma SameByteIs(known: byte, b: byte)
    ensures SameByte(known, b) <==> if IsLowerCase(known) then ToLower(b) == known else b == known
    ensures !IsUpperCase(known) ==> (SameByte(known, b) <==> ToLower(b) == ToLower(known))
  {
    hide OrByte;
    if IsLowerCase(known) {
      WithCaseBit(b);
      assert b / 32 % 2 == 1 <==> 32 <= b < 64 || 96 <= b < 128 || 160 <= b < 192 || b >= 224;
    } else {
      OrByteZero(b);
    }
  }

  lemma OrByteZero(b: byte)
    ensures OrByte(b, 0) == b
  {
    OrZero(b);
  }

  // The masked compare of a word compares each of its bytes.
  lemma WordCompares(known: bytes, name: bytes)
    requires |known| == |name|
    ensures Or(FromLittleEndian(name), FromLittleEndian(CaseBits(known))) == FromLittleEndian(known)
       <==> forall i :: 0 <= i < |known| ==> SameByte(known[i], name[i])
  {
    hide Or, FromLittleEndian, OrByte;
    var masked := OrEach(name, CaseBits(known));
    OrOfWords(name, CaseBits(known));
    if FromLittleEndian(masked) == FromLittleEndian(known) {
      FromLittleEndianIsInjective(masked, known);
    }
    forall i | 0 <= i < |known| ensures SameByte(known[i], name[i]) <==> masked[i] == known[i] {
    }
    assert masked == known <==> forall i :: 0 <= i < |known| ==> masked[i] == known[i];
  }

  // The overlapping words compare every byte of the name.
  lemma IsComparesBytes(known: bytes, name: bytes)
    requires IsKept(known) && |name| == |known|
    ensures Is(Kept(known), name) <==> forall i :: 0 <= i < |known| ==> SameByte(known[i], name[i])
  {
    hide Or, FromLittleEndian, SameByte;
    var len := |known|;
    var width, middle := WidthOf(len), MiddleOf(len);
    WordCompares(known[0..width], name[0..width]);
    WordCompares(known[middle..middle + width], name[middle..middle + width]);
    WordCompares(known[len - width..len], name[len - width..len]);
    SliceCompares(known, name, 0, width);
    SliceCompares(known, name, middle, middle + width);
    SliceCompares(known, name, len - width, len);
  }

  lemma SliceCompares(known: bytes, name: bytes, from: nat, to: nat)
    requires |known| == |name| && from <= to <= |known|
    ensures (forall i :: 0 <= i < to - from ==> SameByte(known[from..to][i], name[from..to][i]))
       <==> forall i :: from <= i < to ==> SameByte(known[i], name[i])
  {
    hide SameByte;
    if forall i :: 0 <= i < to - from ==> SameByte(known[from..to][i], name[from..to][i]) {
      forall i | from <= i < to ensures SameByte(known[i], name[i]) {
        assert SameByte(known[from..to][i - from], name[from..to][i - from]);
      }
    }
  }

  // A name is matched exactly if it is the same in any case, for every known name without an
  // uppercase letter; and a known name with one does not match its own lower case.
  lemma IsIgnoresCase(known: bytes, name: bytes)
    requires IsKept(known) && |name| == |known|
    requires forall i :: 0 <= i < |known| ==> !IsUpperCase(known[i])
    ensures Is(Kept(known), name) <==> SameIgnoringCase(name, known)
  {
    hide Is, Kept, SameByte;
    IsComparesBytes(known, name);
    forall i | 0 <= i < |known| ensures SameByte(known[i], name[i]) <==> ToLower(name[i]) == ToLower(known[i]) {
      SameByteIs(known[i], name[i]);
    }
  }

  lemma UppercaseIsNotMatched(known: bytes, i: nat)
    requires IsKept(known) && i < |known| && IsUpperCase(known[i])
    ensures var lower := known[i := ToLower(known[i])];
      SameIgnoringCase(lower, known) && !Is(Kept(known), lower)
  {
    hide Is, Kept, SameByte;
    var lower := known[i := ToLower(known[i])];
    IsComparesBytes(known, lower);
    SameByteIs(known[i], lower[i]);
  }

  // ---- The headers that a head keeps ----

  datatype Slot =
    | ContentLength | ContentRange | ContentEncoding | ContentType | ContentMd5 | ContentLanguage
    | ContentDisposition | CacheControl | StorageClass | ETag | LastModified | Version | Snapshot
    | CopyId | CopyStatus | RestoreStatus | ErrorCode | RequestId | ExtendedRequestId

  datatype Known = Known(name: bytes, slot: Slot)

  // Every name that a head keeps, from the shortest to the longest.
  const UP_TO_12: seq<Known> := [
    Known(Ascii("etag"), ETag),
    Known(Ascii("x-amz-id-2"), ExtendedRequestId),
    Known(Ascii("content-md5"), ContentMd5),
    Known(Ascii("content-type"), ContentType),
    Known(Ascii("x-ms-copy-id"), CopyId)
  ]
  const OF_13: seq<Known> := [
    Known(Ascii("content-range"), ContentRange),
    Known(Ascii("cache-control"), CacheControl),
    Known(Ascii("last-modified"), LastModified),
    Known(Ascii("x-ms-snapshot"), Snapshot),
    Known(Ascii("x-amz-restore"), RestoreStatus)
  ]
  const OF_14_AND_15: seq<Known> := [
    Known(Ascii("content-length"), ContentLength),
    Known(Ascii("x-ms-version-id"), Version),
    Known(Ascii("x-ms-error-code"), ErrorCode),
    Known(Ascii("x-ms-request-id"), RequestId)
  ]
  const OF_16: seq<Known> := [
    Known(Ascii("content-encoding"), ContentEncoding),
    Known(Ascii("content-language"), ContentLanguage),
    Known(Ascii("x-ms-access-tier"), StorageClass),
    Known(Ascii("x-amz-version-id"), Version),
    Known(Ascii("x-ms-copy-status"), CopyStatus),
    Known(Ascii("x-amz-request-id"), RequestId)
  ]
  const OF_19: seq<Known> := [
    Known(Ascii("content-disposition"), ContentDisposition),
    Known(Ascii("x-amz-storage-class"), StorageClass),
    Known(Ascii("x-ms-archive-status"), RestoreStatus)
  ]
  const KNOWN: seq<Known> := UP_TO_12 + OF_13 + OF_14_AND_15 + OF_16 + OF_19

  // A name that can be kept, and that the masked compare matches in any case.
  predicate IsKnown(known: Known) {
    IsKept(known.name) && forall i :: 0 <= i < |known.name| ==> !IsUpperCase(known.name[i])
  }

  predicate AreKnown(table: seq<Known>) {
    forall k :: 0 <= k < |table| ==> IsKnown(table[k])
  }

  predicate IsLowerText(text: string) {
    4 <= |text| <= 24 && forall i :: 0 <= i < |text| ==> !('A' <= text[i] <= 'Z') && text[i] < 256 as char
  }

  lemma LowerTextIsKnown(text: string, slot: Slot)
    requires IsLowerText(text)
    ensures IsKnown(Known(Ascii(text), slot))
  {
  }

  lemma ShortNames()
    ensures AreKnown(UP_TO_12)
  {
    hide Ascii, IsKnown;
    LowerTextIsKnown("etag", ETag);
    LowerTextIsKnown("x-amz-id-2", ExtendedRequestId);
    LowerTextIsKnown("content-md5", ContentMd5);
    LowerTextIsKnown("content-type", ContentType);
    LowerTextIsKnown("x-ms-copy-id", CopyId);
  }

  lemma NamesOf13()
    ensures AreKnown(OF_13)
  {
    hide Ascii, IsKnown;
    LowerTextIsKnown("content-range", ContentRange);
    LowerTextIsKnown("cache-control", CacheControl);
    LowerTextIsKnown("last-modified", LastModified);
    LowerTextIsKnown("x-ms-snapshot", Snapshot);
    LowerTextIsKnown("x-amz-restore", RestoreStatus);
  }

  lemma NamesOf14And15()
    ensures AreKnown(OF_14_AND_15)
  {
    hide Ascii, IsKnown;
    LowerTextIsKnown("content-length", ContentLength);
    LowerTextIsKnown("x-ms-version-id", Version);
    LowerTextIsKnown("x-ms-error-code", ErrorCode);
    LowerTextIsKnown("x-ms-request-id", RequestId);
  }

  lemma NamesOf16()
    ensures AreKnown(OF_16)
  {
    hide Ascii, IsKnown;
    LowerTextIsKnown("content-encoding", ContentEncoding);
    LowerTextIsKnown("content-language", ContentLanguage);
    LowerTextIsKnown("x-ms-access-tier", StorageClass);
    LowerTextIsKnown("x-amz-version-id", Version);
    LowerTextIsKnown("x-ms-copy-status", CopyStatus);
    LowerTextIsKnown("x-amz-request-id", RequestId);
  }

  lemma NamesOf19()
    ensures AreKnown(OF_19)
  {
    hide Ascii, IsKnown;
    LowerTextIsKnown("content-disposition", ContentDisposition);
    LowerTextIsKnown("x-amz-storage-class", StorageClass);
    LowerTextIsKnown("x-ms-archive-status", RestoreStatus);
  }

  lemma AllNames()
    ensures AreKnown(KNOWN)
  {
    hide IsKnown;
    ShortNames();
    NamesOf13();
    NamesOf14And15();
    NamesOf16();
    NamesOf19();
  }

  // The field that a name fills: the first whose known name is as long and matches.
  function SlotIn(name: bytes, table: seq<Known>): Option<Slot>
    requires AreKnown(table)
  {
    if table == [] then None
    else if |name| == |table[0].name| && Is(Kept(table[0].name), name) then Some(table[0].slot)
    else SlotIn(name, table[1..])
  }

  function SlotOf(name: bytes): Option<Slot> {
    AllNames();
    SlotIn(name, KNOWN)
  }

  // The same by names in any case.
  function SlotNamed(name: bytes, table: seq<Known>): Option<Slot> {
    if table == [] then None
    else if SameIgnoringCase(name, table[0].name) then Some(table[0].slot)
    else SlotNamed(name, table[1..])
  }

  lemma {:induction false} SlotsAreNamed(name: bytes, table: seq<Known>)
    requires AreKnown(table)
    ensures SlotIn(name, table) == SlotNamed(name, table)
  {
    hide Is, Kept;
    if table != [] {
      if |name| == |table[0].name| {
        IsIgnoresCase(table[0].name, name);
      }
      SlotsAreNamed(name, table[1..]);
    }
  }

  datatype Header = Header(name: bytes, value: bytes)

  // The value of the first header, of all of them, whose name fills a field.
  function FirstValue(headers: seq<Header>, slot: Slot): Option<bytes> {
    if headers == [] then None
    else if SlotNamed(headers[0].name, KNOWN) == Some(slot) then Some(headers[0].value)
    else FirstValue(headers[1..], slot)
  }

  lemma {:induction false} FirstValueThenMore(headers: seq<Header>, header: Header, slot: Slot)
    ensures FirstValue(headers + [header], slot)
         == if FirstValue(headers, slot).Some? then FirstValue(headers, slot)
            else if SlotNamed(header.name, KNOWN) == Some(slot) then Some(header.value)
            else None
  {
    hide SlotNamed;
    if headers == [] {
      assert ([] + [header])[1..] == [];
    } else {
      FirstValueThenMore(headers[1..], header, slot);
      assert (headers + [header])[1..] == headers[1..] + [header];
    }
  }

  /** The headers of a response that are kept. */
  class ResponseHead {
    const status: nat
    var fields: map<Slot, bytes>

    constructor (status: nat)
      ensures this.status == status && fields == map[]
    {
      this.status, fields := status, map[];
    }

    // The first value wins.
    method Insert(header: Header)
      modifies this
      ensures var slot := SlotNamed(header.name, KNOWN);
        fields
        == if slot.Some? && slot.value !in old(fields) then old(fields)[slot.value := header.value] else old(fields)
    {
      hide SlotIn, SlotNamed;
      AllNames();
      SlotsAreNamed(header.name, KNOWN);
      var slot := SlotOf(header.name);
      if slot.Some? && slot.value !in fields {
        fields := fields[slot.value := header.value];
      }
    }
  }

  // A head of headers holds, in each field, the value of the first header that names it.
  method FromHeaders(status: nat, headers: seq<Header>) returns (head: ResponseHead)
    ensures fresh(head) && head.status == status
    ensures forall slot: Slot ::
      FirstValue(headers, slot) == if slot in head.fields then Some(head.fields[slot]) else None
  {
    hide SlotNamed, FirstValue;
    head := new ResponseHead(status);
    forall slot: Slot ensures FirstValue(headers[..0], slot) == None {
      NoHeaders(slot);
    }
    for i := 0 to |headers|
      invariant fresh(head) && head.status == status
      invariant forall slot: Slot ::
        FirstValue(headers[..i], slot) == if slot in head.fields then Some(head.fields[slot]) else None
    {
      forall slot: Slot {
        FirstValueThenMore(headers[..i], headers[i], slot);
      }
      assert headers[..i + 1] == headers[..i] + [headers[i]];
      head.Insert(headers[i]);
    }
    assert headers[..|headers|] == headers;
  }

  lemma NoHeaders(slot: Slot)
    ensures FirstValue([], slot) == None
  {
  }
}
