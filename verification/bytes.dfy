/** Bytes, byte strings and the little-endian integers that a stored template holds. */
module Bytes {
  type byte = b: int | 0 <= b < 256
  type bytes = seq<byte>

  // The bounds of a 64-bit target: `usize` and `u64`, the longest slice, and `u32`.
  const U64_MAX: nat := 0xFFFF_FFFF_FFFF_FFFF
  const USIZE_MAX: nat := U64_MAX
  const ISIZE_MAX: nat := 0x7FFF_FFFF_FFFF_FFFF
  const U32_LIMIT: nat := 0x1_0000_0000

  type usize = n: nat | n <= USIZE_MAX

  function WrappingAdd(a: nat, b: nat): usize { (a + b) % (USIZE_MAX + 1) }

  datatype Option<+T> = None | Some(value: T)

  function Min(a: nat, b: nat): nat { if a <= b then a else b }

  function Monus(a: nat, b: nat): nat { if a >= b then a - b else 0 }

  // A range of a byte string, or nothing for one that is out of order or out of bounds.
  function Slice<T>(s: seq<T>, from: int, to: int): seq<T> {
    if 0 <= from <= to <= |s| then s[from..to] else []
  }

  // The bytes of a text of ASCII characters.
  function Ascii(text: string): bytes {
    seq(|text|, i requires 0 <= i < |text| => text[i] as int % 256)
  }

  lemma AsciiJoins(a: string, b: string)
    ensures Ascii(a + b) == Ascii(a) + Ascii(b)
  {
  }

  function Repeated(b: byte, n: nat): (s: bytes)
    ensures |s| == n && forall i :: 0 <= i < n ==> s[i] == b
  {
    seq(n, i => b)
  }

  function Pow256(width: nat): (p: nat)
    ensures p > 0
  {
    if width == 0 then 1 else 256 * Pow256(width - 1)
  }

  function LittleEndian(n: nat, width: nat): (s: bytes)
    ensures |s| == width
  {
    if width == 0 then [] else [n % 256] + LittleEndian(n / 256, width - 1)
  }

  function BigEndian(n: nat, width: nat): (s: bytes)
    ensures |s| == width
    decreases width
  {
    if width == 0 then [] else BigEndian(n / 256, width - 1) + [n % 256]
  }

  function FromLittleEndian(s: bytes): nat {
    if s == [] then 0 else s[0] + 256 * FromLittleEndian(s[1..])
  }

  lemma {:induction false} LittleEndianReadsBack(n: nat, width: nat)
    requires n < Pow256(width)
    ensures FromLittleEndian(LittleEndian(n, width)) == n
  {
    if width > 0 {
      LittleEndianReadsBack(n / 256, width - 1);
      assert LittleEndian(n, width)[1..] == LittleEndian(n / 256, width - 1);
    }
  }

  lemma {:induction false} FromLittleEndianIsInjective(a: bytes, b: bytes)
    requires |a| == |b| && FromLittleEndian(a) == FromLittleEndian(b)
    ensures a == b
  {
    if a != [] {
      assert a[0] == FromLittleEndian(a) % 256 == b[0];
      FromLittleEndianIsInjective(a[1..], b[1..]);
      assert a == [a[0]] + a[1..] && b == [b[0]] + b[1..];
    }
  }

  lemma {:induction false} FromLittleEndianBound(s: bytes)
    ensures FromLittleEndian(s) < Pow256(|s|)
  {
    if s != [] {
      FromLittleEndianBound(s[1..]);
    }
  }

  lemma Pow256Values()
    ensures Pow256(4) == U32_LIMIT && Pow256(8) == U64_MAX + 1
  {
    assert Pow256(1) == 256 && Pow256(2) == 0x1_0000 && Pow256(3) == 0x100_0000;
    assert Pow256(5) == 0x100_0000_0000 && Pow256(6) == 0x1_0000_0000_0000;
    assert Pow256(7) == 0x100_0000_0000_0000;
  }

  // Copies `s` into an array from index `at` on.
  method Paste(a: array<byte>, at: nat, s: bytes)
    requires at + |s| <= a.Length
    modifies a
    ensures a[..] == old(a[..at]) + s + old(a[at + |s|..])
  {
    forall i | 0 <= i < |s| {
      a[at + i] := s[i];
    }
  }
}
