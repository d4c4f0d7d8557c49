/** The checksums of content, as the base64 that headers carry. */
module Checksums {
  import opened Bytes
  import opened ChecksumKinds
  import opened Encodings

  // How many digits encode `len` bytes, and how many padding characters make their groups whole.
  function Base64Shape(len: nat): (nat, nat) {
    var groups, rest := len / 3, len % 3;
    if rest == 0 then (groups * 4, 0) else (groups * 4 + rest + 1, 3 - rest)
  }

  lemma ShapeIsOfEncoded(s: bytes)
    ensures var (chars, padding) := Base64Shape(|s|);
      && |Encode(s)| == chars + padding && DataOf(Encode(s)) == Encode(s)[..chars]
      && forall i :: chars <= i < chars + padding ==> Encode(s)[i] == PAD
  {
    hide Encode, DecodeGroups;
    var (chars, padding) := Base64Shape(|s|);
    Encodings.DecodingUndoesEncoding(s);
    LenIsDecodedLen(Encode(s));
    assert |DataOf(Encode(s))| == chars;
  }

  // Whether a text is the base64 of a digest of a kind.
  predicate CheckBase64(kind: ChecksumKind, text: bytes) {
    Base64Len(text) == Some(DigestLen(kind))
  }

  const BASE64_LEN: nat := 44

  // A finished checksum: as many of the bytes as its kind has.
  datatype Digest = Digest(kind: ChecksumKind, bytes: bytes)

  predicate IsDigest(d: Digest) { |d.bytes| == 32 }

  function AsBytes(d: Digest): (s: bytes)
    requires IsDigest(d)
    ensures |s| == DigestLen(d.kind)
  {
    d.bytes[..DigestLen(d.kind)]
  }

  method DigestOf(kind: ChecksumKind, digest: bytes) returns (d: Digest)
    requires |digest| == DigestLen(kind)
    ensures IsDigest(d) && d.kind == kind && AsBytes(d) == digest
  {
    var bytes := new byte[32](i => 0);
    for index := 0 to |digest|
      invariant bytes[..index] == digest[..index]
    {
      bytes[index] := digest[index];
    }
    d := Digest(kind, bytes[..]);
    assert d.bytes[..|digest|] == bytes[..|digest|] == digest;
  }

  // The digest of a CRC-64, in the order that Azure reads.
  method Crc64Digest(value: nat) returns (d: Digest)
    requires value <= U64_MAX
    ensures IsDigest(d) && d.kind == Crc64 && AsBytes(d) == LittleEndian(value, 8)
  {
    d := DigestOf(Crc64, LittleEndian(value, 8));
  }

  // Writes a digest's base64 to the start of a buffer.
  method Base64(d: Digest, into: array<byte>) returns (text: bytes)
    requires IsDigest(d) && into.Length == BASE64_LEN
    modifies into
    ensures text == Encode(AsBytes(d))
  {
    hide Encode;
    var (chars, padding) := Base64Shape(DigestLen(d.kind));
    var part := new byte[chars + padding](i => 0);
    ShapeIsOfEncoded(AsBytes(d));
    Base64Into(AsBytes(d), part);
    Paste(into, 0, part[..]);
    text := into[..chars + padding];
  }

  function Reversed(s: bytes): (r: bytes)
    ensures |r| == |s|
  {
    if s == [] then [] else Reversed(s[1..]) + [s[0]]
  }

  lemma {:induction false} ReversedAt(s: bytes, i: nat)
    requires i < |s|
    ensures Reversed(s)[i] == s[|s| - 1 - i]
  {
    if i < |s| - 1 {
      ReversedAt(s[1..], i);
    }
  }

  method ReverseInPlace(a: array<byte>, n: nat)
    requires n <= a.Length
    modifies a
    ensures a[..] == Reversed(old(a[..n])) + old(a[n..])
  {
    var i := 0;
    while i < n / 2
      invariant 0 <= i <= n / 2
      invariant forall k :: 0 <= k < i ==> a[k] == old(a[n - 1 - k]) && a[n - 1 - k] == old(a[k])
      invariant forall k :: i <= k < n - i ==> a[k] == old(a[k])
      invariant forall k :: n <= k < a.Length ==> a[k] == old(a[k])
    {
      a[i], a[n - 1 - i] := a[n - 1 - i], a[i];
      i := i + 1;
    }
    ghost var was := old(a[..n]);
    forall k | 0 <= k < n ensures a[k] == Reversed(was)[k] {
      ReversedAt(was, k);
    }
  }

  // The bytes of a digest in the order that a service reads.
  function InOrder(d: Digest, bigEndian: bool): (s: bytes)
    requires IsDigest(d)
    ensures |s| == DigestLen(d.kind)
  {
    if bigEndian && d.kind == Crc64 then Reversed(AsBytes(d)) else AsBytes(d)
  }

  method Base64For(d: Digest, into: array<byte>, bigEndian: bool) returns (text: bytes)
    requires IsDigest(d) && into.Length == BASE64_LEN
    modifies into
    ensures text == Encode(InOrder(d, bigEndian))
  {
    hide Encode, Reversed;
    var copy := d;
    if bigEndian && d.kind == Crc64 {
      var bytes := new byte[32](i => 0);
      Paste(bytes, 0, d.bytes);
      assert bytes[..8] == d.bytes[..8];
      ReverseInPlace(bytes, 8);
      copy := d.(bytes := bytes[..]);
      assert copy.bytes[..8] == Reversed(d.bytes[..8]);
    }
    text := Base64(copy, into);
  }

  // A digest's text, in either order, passes the check of its kind and holds the digest.
  lemma DigestTextChecks(d: Digest, bigEndian: bool)
    requires IsDigest(d)
    ensures CheckBase64(d.kind, Encode(InOrder(d, bigEndian)))
    ensures Decode(Encode(InOrder(d, bigEndian))) == Some(InOrder(d, bigEndian))
    ensures |Encode(InOrder(d, bigEndian))| <= BASE64_LEN
  {
    hide Encode, Decode, InOrder, Base64Len;
    var s := InOrder(d, bigEndian);
    Encodings.DecodingUndoesEncoding(s);
    LenIsDecodedLen(Encode(s));
  }

  // What the text of a digest holds: its bytes in turn, of a CRC-64 for S3 alone from the last.
  lemma DigestTextHolds(d: Digest, bigEndian: bool, i: nat)
    requires IsDigest(d) && i < DigestLen(d.kind)
    ensures
      var text := Encode(InOrder(d, bigEndian));
      |text| == TextLen(d.kind) && Decode(text).Some? && |Decode(text).value| == DigestLen(d.kind)
      && Decode(text).value[i] == d.bytes[if bigEndian && d.kind == Crc64 then 7 - i else i]
  {
    hide Encode, Decode, Base64Len, Reversed;
    DigestTextChecks(d, bigEndian);
    ShapeIsOfEncoded(InOrder(d, bigEndian));
    ReversedAt(AsBytes(d), i);
  }

  // The text of a digest passes the checks of those kinds alone that have as many bytes.
  lemma CheckTellsLengths(d: Digest, kind: ChecksumKind, bigEndian: bool)
    requires IsDigest(d)
    ensures CheckBase64(kind, Encode(InOrder(d, bigEndian))) <==> DigestLen(kind) == DigestLen(d.kind)
  {
    hide Encode, Decode, InOrder, Base64Len;
    DigestTextChecks(d, bigEndian);
  }

  // Big-endian order is little-endian order reversed.
  lemma {:induction false} ReversedOrder(n: nat, width: nat)
    ensures Reversed(LittleEndian(n, width)) == BigEndian(n, width)
  {
    if width > 0 {
      ReversedOrder(n / 256, width - 1);
      assert LittleEndian(n, width)[1..] == LittleEndian(n / 256, width - 1);
    }
  }

  // The CRC-64 that S3 reads is the same number as the one that Azure reads.
  method Crc64Text(value: nat, into: array<byte>, bigEndian: bool) returns (text: bytes)
    requires value <= U64_MAX && into.Length == BASE64_LEN
    modifies into
    ensures Decode(text) == Some(if bigEndian then BigEndian(value, 8) else LittleEndian(value, 8))
  {
    hide Encode, Decode, Reversed;
    var d := Crc64Digest(value);
    text := Base64For(d, into, bigEndian);
    ReversedOrder(value, 8);
    DigestTextChecks(d, bigEndian);
  }
}
