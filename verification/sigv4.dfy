/** HMAC-SHA256 from copies of a hash, and the signatures of requests. */
module Sigv4 {
  import opened Bits
  import opened Bytes
  import opened Sha256

  // ---- The definition, section 2 of RFC 2104 ----

  function XorEach(s: bytes, b: byte): (r: bytes)
    ensures |r| == |s|
  {
    seq(|s|, i requires 0 <= i < |s| => XorByte(s[i], b))
  }

  // The key of one block: zeros after a short one, and after the hash of a long one.
  function BlockKey(compress: Compression, key: bytes): (k: bytes)
    ensures |k| == BLOCK
  {
    var short := if |key| > BLOCK then Hash(compress, key) else key;
    short + Repeated(0, BLOCK - |short|)
  }

  function Hmac(compress: Compression, key: bytes, message: bytes): (mac: bytes)
    ensures |mac| == 32
  {
    var k := BlockKey(compress, key);
    Hash(compress, XorEach(k, 0x5c) + Hash(compress, XorEach(k, 0x36) + message))
  }

  // ---- The key, absorbed ----

  method HashOf(compress: Compression, message: bytes) returns (out: bytes)
    ensures out == Hash(compress, message)
  {
    hide Hash;
    var sum := new Hasher(compress);
    sum.Add(message);
    assert [] + message == message;
    out := sum.Digest();
  }

  method XorInPlace(pad: array<byte>, b: byte)
    modifies pad
    ensures pad[..] == XorEach(old(pad[..]), b)
  {
    hide XorByte;
    for i := 0 to pad.Length
      invariant forall j :: 0 <= j < i ==> pad[j] == XorByte(old(pad[j]), b)
      invariant forall j :: i <= j < pad.Length ==> pad[j] == old(pad[j])
    {
      pad[i] := XorByte(pad[i], b);
    }
  }

  /** The hash after the inner padding of a key, and the one after the outer. */
  class HmacKey {
    const inner: Hasher
    const outer: Hasher
    ghost const key: bytes

    ghost predicate Valid()
      reads this, inner, inner.block, outer, outer.block
    {
      && inner.Valid() && outer.Valid() && inner.compress == outer.compress
      && inner.message == XorEach(BlockKey(inner.compress, key), 0x36)
      && outer.message == XorEach(BlockKey(inner.compress, key), 0x5c)
    }

    constructor (compress: Compression, key: bytes)
      ensures Valid() && this.key == key && inner.compress == compress
      ensures fresh(inner) && fresh(inner.block) && fresh(outer) && fresh(outer.block)
    {
      hide Hash, XorByte, Hasher.Holds, Hasher.Valid;
      var pad := new byte[BLOCK](i => 0);
      if |key| > BLOCK {
        var hash := HashOf(compress, key);
        Paste(pad, 0, hash);
      } else {
        Paste(pad, 0, key);
      }
      ghost var k := BlockKey(compress, key);
      assert pad[..] == k;
      XorInPlace(pad, 0x36);
      var inside := new Hasher(compress);
      inside.Add(pad[..]);
      assert [] + pad[..] == pad[..];
      XorInPlace(pad, XorByte(0x36, 0x5c));
      PadsTurn(k);
      var outside := new Hasher(compress);
      outside.Add(pad[..]);
      assert [] + pad[..] == pad[..];
      inner, outer, this.key := inside, outside, key;
    }

    // The code of a message, from copies of both hashes.
    method Mac(message: bytes) returns (mac: bytes)
      requires Valid()
      ensures mac == Hmac(inner.compress, key, message)
    {
      mac := FinishMac(inner, outer, message);
    }
  }

  // The inner padding, turned into the outer one.
  lemma PadsTurn(k: bytes)
    ensures XorEach(XorEach(k, 0x36), XorByte(0x36, 0x5c)) == XorEach(k, 0x5c)
  {
    hide Xor;
    forall i | 0 <= i < |k| ensures XorByte(XorByte(k[i], 0x36), XorByte(0x36, 0x5c)) == XorByte(k[i], 0x5c) {
      XorAssociates(k[i], 0x36, XorByte(0x36, 0x5c));
      XorCommutes(0x36, 0x5c);
      XorCommutes(0x36, Xor(0x5c, 0x36));
      XorCancels(0x5c, 0x36);
    }
  }

  // The outer hash of the inner one, after `text` was added to that.
  method FinishMac(inner: Hasher, outer: Hasher, text: bytes) returns (mac: bytes)
    requires inner.Valid() && outer.Valid()
    ensures mac == Hash(outer.compress, outer.message + Hash(inner.compress, inner.message + text))
  {
    hide Hash, Hasher.Valid;
    var inside := new Hasher.Copy(inner);
    inside.Add(text);
    var hash := inside.Digest();
    var outside := new Hasher.Copy(outer);
    outside.Add(hash);
    mac := outside.Digest();
  }

  // ---- Signatures ----

  function LowerDigit(d: nat): byte
    requires d < 16
  {
    if d < 10 then '0' as int + d else 'a' as int + d - 10
  }

  function Hex(s: bytes): (h: bytes)
    ensures |h| == 2 * |s|
  {
    if s == [] then [] else [LowerDigit(s[0] / 16), LowerDigit(s[0] % 16)] + Hex(s[1..])
  }

  const HEX_DIGITS: string := "0123456789abcdef"

  // The value of a lowercase hexadecimal digit: its place among them.
  function HexValue(c: byte): (v: Option<nat>)
    ensures v.Some? ==> v.value < 16 && HEX_DIGITS[v.value] as int == c
  {
    HexFrom(c, 0)
  }

  function HexFrom(c: byte, v: nat): (r: Option<nat>)
    requires v <= 16
    ensures r.Some? ==> v <= r.value < 16 && HEX_DIGITS[r.value] as int == c
    decreases 16 - v
  {
    if v == 16 then None else if HEX_DIGITS[v] as int == c then Some(v) else HexFrom(c, v + 1)
  }

  // A reader of hexadecimal: two digits a byte, the high half first, in small letters alone.
  function ReadHex(h: bytes): Option<bytes> {
    if h == [] then Some([])
    else if |h| == 1 || ReadPair(h[0], h[1]) == None then None
    else
      match ReadHex(h[2..])
      case None => None
      case Some(rest) => Some([ReadPair(h[0], h[1]).value] + rest)
  }

  function ReadPair(high: byte, low: byte): Option<byte> {
    if HexValue(high) == None || HexValue(low) == None then None
    else Some(HexValue(high).value * 16 + HexValue(low).value)
  }

  lemma DigitIsListed(d: nat)
    requires d < 16
    ensures LowerDigit(d) == HEX_DIGITS[d] as int && HexValue(LowerDigit(d)) == Some(d)
  {
    assert HEX_DIGITS[0] == '0' && HEX_DIGITS[10] == 'a';
    FoundAt(d, 0);
  }

  lemma {:induction false} FoundAt(d: nat, v: nat)
    requires v <= d < 16
    ensures HexFrom(HEX_DIGITS[d] as int, v) == Some(d)
    decreases d - v
  {
    if v < d {
      FoundAt(d, v + 1);
    }
  }

  // The text signed of a hash reads as the hash.
  lemma {:induction false} HexReadsBack(s: bytes)
    ensures ReadHex(Hex(s)) == Some(s)
  {
    hide LowerDigit, HexValue, ReadHex;
    if s == [] {
      NothingReads();
    } else {
      HexReadsBack(s[1..]);
      DigitIsListed(s[0] / 16);
      DigitIsListed(s[0] % 16);
      OneByteReads(LowerDigit(s[0] / 16), LowerDigit(s[0] % 16), Hex(s[1..]));
      assert s == [s[0]] + s[1..];
    }
  }

  lemma NothingReads()
    ensures ReadHex([]) == Some([])
  {
  }

  lemma OneByteReads(high: byte, low: byte, rest: bytes)
    requires ReadPair(high, low).Some? && ReadHex(rest).Some?
    ensures ReadHex([high, low] + rest) == Some([ReadPair(high, low).value] + ReadHex(rest).value)
  {
    hide ReadPair;
    assert ([high, low] + rest)[2..] == rest;
  }

  // It holds digits and small letters alone.
  lemma {:induction false} HexIsSmall(s: bytes)
    ensures forall c :: c in Hex(s) ==> '0' as int <= c <= '9' as int || 'a' as int <= c <= 'f' as int
  {
    hide LowerDigit;
    if s != [] {
      HexIsSmall(s[1..]);
      DigitsOrLetters(s[0] / 16);
      DigitsOrLetters(s[0] % 16);
    }
  }

  lemma DigitsOrLetters(d: nat)
    requires d < 16
    ensures '0' as int <= LowerDigit(d) <= '9' as int || 'a' as int <= LowerDigit(d) <= 'f' as int
  {
  }

  // The reference for a signature: HMAC over the prefix and the hexadecimal of the hash.
  function Signature(compress: Compression, key: bytes, prefix: bytes, canonical: bytes): bytes {
    Hmac(compress, key, prefix + Hex(Hash(compress, canonical)))
  }

  // What is signed ends with a text that reads as the hash of the canonical request.
  lemma SignedTextReads(compress: Compression, key: bytes, prefix: bytes, canonical: bytes)
    ensures exists text ::
              && Signature(compress, key, prefix, canonical) == Hmac(compress, key, prefix + text)
              && ReadHex(text) == Some(Hash(compress, canonical))
              && forall c :: c in text ==> '0' as int <= c <= '9' as int || 'a' as int <= c <= 'f' as int
  {
    hide Hmac, Hash, Hex, ReadHex;
    HexReadsBack(Hash(compress, canonical));
    HexIsSmall(Hash(compress, canonical));
  }

  /** Both HMAC hashes, with a common prefix already added to the inner one. */
  class Stamp {
    const inner: Hasher
    const outer: Hasher
    ghost const key: bytes
    ghost const prefix: bytes

    ghost predicate Valid()
      reads this, inner, inner.block, outer, outer.block
    {
      && inner.Valid() && outer.Valid() && inner.compress == outer.compress
      && inner.message == XorEach(BlockKey(inner.compress, key), 0x36) + prefix
      && outer.message == XorEach(BlockKey(inner.compress, key), 0x5c)
    }

    constructor (key: HmacKey, prefix: bytes)
      requires key.Valid()
      ensures Valid() && this.key == key.key && this.prefix == prefix && inner.compress == key.inner.compress
    {
      hide Hasher.Valid, Hasher.Holds, BlockKey;
      var inside := new Hasher.Copy(key.inner);
      inside.Add(prefix);
      inner, outer, this.key, this.prefix := inside, key.outer, key.key, prefix;
    }

    // Gives `Signature` of that hash, and leaves the stamp as it was.
    method Sign(canonical: bytes) returns (mac: bytes)
      requires Valid() && |canonical| == 32
      ensures mac == Hmac(inner.compress, key, prefix + Hex(canonical))
    {
      hide Hasher.Valid, Hasher.Holds, BlockKey, Hash, Hex;
      var hex := new byte[64](i => 0);
      HexNothing(canonical);
      for i := 0 to 32
        invariant hex[..2 * i] == Hex(canonical[..i])
      {
        HexOneMore(canonical, i);
        hex[2 * i] := LowerDigit(canonical[i] / 16);
        hex[2 * i + 1] := LowerDigit(canonical[i] % 16);
        assert hex[..2 * (i + 1)] == hex[..2 * i] + [hex[2 * i], hex[2 * i + 1]];
      }
      assert canonical[..32] == canonical && hex[..64] == hex[..];
      var ipad := XorEach(BlockKey(inner.compress, key), 0x36);
      assert (ipad + prefix) + hex[..] == ipad + (prefix + hex[..]);
      mac := FinishMac(inner, outer, hex[..]);
    }
  }

  lemma HexNothing(s: bytes)
    ensures Hex(s[..0]) == []
  {
  }

  lemma {:induction false} HexOneMore(s: bytes, i: nat)
    requires i < |s|
    ensures Hex(s[..i + 1]) == Hex(s[..i]) + [LowerDigit(s[i] / 16), LowerDigit(s[i] % 16)]
    decreases |s|
  {
    if i == 0 {
      assert s[..1][1..] == [];
    } else {
      assert s[..i + 1][1..] == s[1..][..i] && s[..i][1..] == s[1..][..i - 1];
      HexOneMore(s[1..], i - 1);
    }
  }

  // Fills each code with the signature of its own hash, step by step over the whole batch.
  method SignBatch(stamp: Stamp, canonicals: seq<bytes>, macs: array<bytes>)
    requires stamp.Valid()
    modifies macs
    ensures forall i :: 0 <= i < Min(|canonicals|, macs.Length) ==>
      macs[i] == Signature(stamp.inner.compress, stamp.key, stamp.prefix, canonicals[i])
    ensures forall i :: Min(|canonicals|, macs.Length) <= i < macs.Length ==> macs[i] == old(macs[i])
  {
    hide Hash, Hmac;
    var n := Min(|canonicals|, macs.Length);
    var compress := stamp.inner.compress;
    for i := 0 to n
      invariant forall j :: 0 <= j < i ==> macs[j] == Hash(compress, canonicals[j])
      invariant forall j :: n <= j < macs.Length ==> macs[j] == old(macs[j])
    {
      macs[i] := HashOf(compress, canonicals[i]);
    }
    for i := 0 to n
      invariant forall j :: 0 <= j < i ==> macs[j] == Signature(compress, stamp.key, stamp.prefix, canonicals[j])
      invariant forall j :: i <= j < n ==> macs[j] == Hash(compress, canonicals[j])
      invariant forall j :: n <= j < macs.Length ==> macs[j] == old(macs[j])
    {
      macs[i] := stamp.Sign(macs[i]);
    }
  }

  // Signs one request, as the batch does each.
  method SignOne(stamp: Stamp, canonical: bytes) returns (mac: bytes)
    requires stamp.Valid()
    ensures mac == Signature(stamp.inner.compress, stamp.key, stamp.prefix, canonical)
  {
    hide Hash, Hmac;
    var hash := HashOf(stamp.inner.compress, canonical);
    mac := stamp.Sign(hash);
  }

  // A key of one block stands as it is, and only a longer one is hashed.
  lemma KeysOfOneBlock(compress: Compression, key: bytes)
    ensures |key| == 64 ==> BlockKey(compress, key) == key
    ensures |key| == 65 ==> BlockKey(compress, key)[..32] == Hash(compress, key)
    ensures |key| <= 64 ==> BlockKey(compress, key)[..|key|] == key
    ensures forall i :: (if |key| <= 64 then |key| else 32) <= i < 64 ==> BlockKey(compress, key)[i] == 0
  {
    hide Hash;
  }

  // Without a key, the paddings are the constants of RFC 2104 alone.
  lemma NoKey(compress: Compression, message: bytes)
    ensures Hmac(compress, [], message)
         == Hash(compress, Repeated(0x5c, 64) + Hash(compress, Repeated(0x36, 64) + message))
  {
    hide Hash, XorByte;
    var k := BlockKey(compress, []);
    KeysOfOneBlock(compress, []);
    ZeroTurns();
    assert XorEach(k, 0x36) == Repeated(0x36, 64) && XorEach(k, 0x5c) == Repeated(0x5c, 64);
  }

  lemma ZeroTurns()
    ensures XorByte(0, 0x36) == 0x36 && XorByte(0, 0x5c) == 0x5c
  {
    XorCancels(0x36, 0);
    XorCancels(0x5c, 0);
    XorZero(0x36);
    XorZero(0x5c);
  }

  lemma {:induction false} XorZero(a: nat)
    ensures Xor(0, a) == a
    decreases a
  {
    if a > 0 {
      XorZero(a / 2);
    }
  }
}
