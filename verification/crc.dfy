/** The cyclic redundancy checks of content, read byte by byte through a table. */
module Crc {
  import opened Arithmetic
  import opened Bits
  import opened Bytes

  // The reflected polynomials of CRC-64/NVME, CRC-32 and CRC-32C.
  const POLYNOMIAL_64: nat := 0x9a6c_9329_ac4b_c9b5
  const POLYNOMIAL_32: nat := 0xedb8_8320
  const POLYNOMIAL_32C: nat := 0x82f6_3b78

  const U32_MAX: nat := 0xFFFF_FFFF

  // ---- The definition, a bit at a time ----

  // The register takes one bit of the message: it shifts right, and takes the polynomial in
  // when the bit that falls out differs from the message's.
  function Feed(register: nat, bit: nat, polynomial: nat): nat {
    Xor(register / 2, if register % 2 == bit then 0 else polynomial)
  }

  // The lowest `n` bits of `bits`, from the lowest up.
  function FeedBits(register: nat, bits: nat, n: nat, polynomial: nat): nat
    decreases n
  {
    if n == 0 then register else FeedBits(Feed(register, bits % 2, polynomial), bits / 2, n - 1, polynomial)
  }

  function FeedAll(register: nat, message: bytes, polynomial: nat): nat
    decreases |message|
  {
    if message == [] then register else FeedAll(FeedBits(register, message[0], 8, polynomial), message[1..], polynomial)
  }

  // The check of a message: the register starts from all ones and ends inverted.
  function Check(message: bytes, ones: nat, polynomial: nat): nat {
    Xor(FeedAll(ones, message, polynomial), ones)
  }

  // ---- The table ----

  // One step of the table's construction.
  function Shifted(value: nat, polynomial: nat): nat {
    if value % 2 == 1 then Xor(value / 2, polynomial) else value / 2
  }

  function ShiftedTimes(value: nat, n: nat, polynomial: nat): nat
    decreases n
  {
    if n == 0 then value else ShiftedTimes(Shifted(value, polynomial), n - 1, polynomial)
  }

  ghost predicate IsTable(table: seq<nat>, polynomial: nat) {
    |table| == 256 && forall i :: 0 <= i < 256 ==> table[i] == ShiftedTimes(i, 8, polynomial)
  }

  method BuildTable(polynomial: nat) returns (table: array<nat>)
    ensures fresh(table) && IsTable(table[..], polynomial)
  {
    hide ShiftedTimes, Shifted;
    table := new nat[256](i => 0);
    var index := 0;
    while index < 256
      invariant 0 <= index <= 256
      invariant forall i :: 0 <= i < index ==> table[i] == ShiftedTimes(i, 8, polynomial)
    {
      var value, bit := index, 0;
      while bit < 8
        modifies {}
        invariant 0 <= bit <= 8
        invariant ShiftedTimes(value, 8 - bit, polynomial) == ShiftedTimes(index, 8, polynomial)
      {
        ShiftedOnce(value, 8 - bit, polynomial);
        value := Shifted(value, polynomial);
        bit := bit + 1;
      }
      assert bit == 8;
      ShiftedNever(value, polynomial);
      assert value == ShiftedTimes(index, 8, polynomial);
      table[index] := value;
      index := index + 1;
    }
  }

  lemma ShiftedOnce(value: nat, n: nat, polynomial: nat)
    requires n > 0
    ensures ShiftedTimes(value, n, polynomial) == ShiftedTimes(Shifted(value, polynomial), n - 1, polynomial)
  {
  }

  lemma ShiftedNever(value: nat, polynomial: nat)
    ensures ShiftedTimes(value, 0, polynomial) == value
  {
  }

  // ---- Why the table gives the definition ----

  // A shift is linear over exclusive or.
  lemma ShiftIsLinear(a: nat, b: nat, p: nat)
    ensures Shifted(Xor(a, b), p) == Xor(Shifted(a, p), Shifted(b, p))
  {
    hide Xor;
    XorParts(a, b);
    XorAssociates(a / 2, b / 2, p);
    XorAssociates(a / 2, p, b / 2);
    XorCommutes(p, b / 2);
    XorAssociates(Xor(a / 2, p), b / 2, p);
    XorAssociates(Xor(a / 2, b / 2), p, p);
    XorCancels(Xor(a / 2, b / 2), p);
  }

  lemma {:induction false} ShiftsAreLinear(a: nat, b: nat, n: nat, p: nat)
    ensures ShiftedTimes(Xor(a, b), n, p) == Xor(ShiftedTimes(a, n, p), ShiftedTimes(b, n, p))
    decreases n
  {
    hide Xor, Shifted;
    if n > 0 {
      ShiftIsLinear(a, b, p);
      ShiftsAreLinear(Shifted(a, p), Shifted(b, p), n - 1, p);
    }
  }

  // Bits above the lowest `n` only move down in `n` shifts.
  lemma {:induction false} HighBitsMove(high: nat, n: nat, p: nat)
    ensures ShiftedTimes(high * Pow2(n), n, p) == high
    decreases n
  {
    hide Shifted, Pow2;
    if n == 0 {
      assert Pow2(0) == 1 by { NoPower(); }
    } else {
      Doubled(high, n);
      EvenShifts(high * Pow2(n - 1), p);
      HighBitsMove(high, n - 1, p);
    }
  }

  lemma NoPower()
    ensures Pow2(0) == 1
  {
  }

  lemma EvenShifts(k: nat, p: nat)
    ensures Shifted(2 * k, p) == k
  {
  }

  // Eight shifts are a look in the table, and a shift by eight.
  lemma ShiftsByTable(value: nat, p: nat)
    ensures ShiftedTimes(value, 8, p) == Xor(ShiftedTimes(value % 256, 8, p), value / 256)
  {
    hide Xor, ShiftedTimes;
    assert Pow2(8) == 256;
    XorDisjoint(value % 256, value / 256, 8);
    ShiftsAreLinear(value % 256, value / 256 * 256, 8, p);
    HighBitsMove(value / 256, 8, p);
  }

  // Feeding bits is taking them in at once, and then shifting.
  lemma FeedIsShift(register: nat, bits: nat, p: nat)
    ensures Shifted(Xor(register, bits), p) == Xor(Feed(register, bits % 2, p), bits / 2)
  {
    hide Xor;
    XorParts(register, bits);
    XorZero(register / 2);
    XorAssociates(register / 2, bits / 2, p);
    XorCommutes(bits / 2, p);
    XorAssociates(register / 2, p, bits / 2);
  }

  lemma {:induction false} FeedingIsShifting(register: nat, bits: nat, n: nat, p: nat)
    ensures ShiftedTimes(Xor(register, bits), n, p) == Xor(FeedBits(register, bits, n, p), Above(bits, n))
    decreases n
  {
    hide Xor, Shifted, Feed, Above;
    NoneAbove(bits);
    if n > 0 {
      FeedIsShift(register, bits, p);
      FeedingIsShifting(Feed(register, bits % 2, p), bits / 2, n - 1, p);
      AboveHalf(bits, n);
    }
  }

  // A number without its lowest `n` bits.
  function Above(bits: nat, n: nat): nat { Divided(bits, Pow2(n)) }

  lemma NoneAbove(bits: nat)
    ensures Above(bits, 0) == bits
  {
  }

  lemma AboveHalf(bits: nat, n: nat)
    requires n > 0
    ensures Above(bits / 2, n - 1) == Above(bits, n)
  {
    DivideByDouble(bits, Pow2(n - 1));
  }

  lemma AboveByte(bits: nat)
    ensures Above(bits, 8) == bits / 256
  {
    assert Pow2(8) == 256;
  }

  // One byte through the table is eight bits of the definition.
  lemma OneByte(table: seq<nat>, register: nat, b: byte, p: nat)
    requires IsTable(table, p)
    ensures Xor(table[Xor(register, b) % 256], register / 256) == FeedBits(register, b, 8, p)
  {
    hide Xor, ShiftedTimes, FeedBits, Above;
    var value := Xor(register, b);
    FeedingIsShifting(register, b, 8, p);
    AboveByte(b);
    XorZero(FeedBits(register, b, 8, p));
    ShiftsByTable(value, p);
    AboveByte(value);
    AboveByte(register);
    assert b < Pow2(8);
    BitsAbove(register, b, 8);
  }

  lemma {:induction false} BitsAbove(a: nat, b: nat, n: nat)
    requires b < Pow2(n)
    ensures Above(Xor(a, b), n) == Above(a, n)
    decreases n
  {
    hide Xor, Above;
    if n == 0 {
      XorZero(a);
    } else {
      BitsAbove(a / 2, b / 2, n - 1);
      XorParts(a, b);
      AboveHalf(Xor(a, b), n);
      AboveHalf(a, n);
    }
  }

  // ---- The checks ----

  // Takes each byte in through the table.
  method Advance(table: array<nat>, register: nat, message: bytes, ghost polynomial: nat) returns (state: nat)
    requires IsTable(table[..], polynomial)
    ensures state == FeedAll(register, message, polynomial)
  {
    hide Xor, FeedBits, ShiftedTimes;
    state := register;
    for i := 0 to |message|
      invariant FeedAll(state, message[i..], polynomial) == FeedAll(register, message, polynomial)
    {
      OneByte(table[..], state, message[i], polynomial);
      assert message[i..][1..] == message[i + 1..];
      state := Xor(table[Xor(state, message[i]) % 256], state / 256);
    }
  }

  // A checksum of a message that comes in pieces. `ones` is as wide as its register.
  class Checksum {
    const table: array<nat>
    const ones: nat
    var state: nat
    ghost const polynomial: nat
    ghost var message: bytes

    ghost predicate Valid()
      reads this, table
    {
      IsTable(table[..], polynomial) && state == FeedAll(ones, message, polynomial)
    }

    constructor (polynomial: nat, ones: nat)
      ensures Valid() && message == [] && this.ones == ones && this.polynomial == polynomial && fresh(table)
    {
      var built := BuildTable(polynomial);
      table, this.ones, state, this.polynomial, message := built, ones, ones, polynomial, [];
    }

    method Update(piece: bytes)
      requires Valid()
      modifies this
      ensures Valid() && message == old(message) + piece
    {
      state := Advance(table, state, piece, polynomial);
      FedInPieces(ones, message, piece, polynomial);
      message := message + piece;
    }

    method Finish() returns (check: nat)
      requires Valid()
      ensures check == Check(message, ones, polynomial)
    {
      check := Xor(state, ones);
    }
  }

  lemma {:induction false} FedInPieces(register: nat, a: bytes, b: bytes, p: nat)
    ensures FeedAll(register, a + b, p) == FeedAll(FeedAll(register, a, p), b, p)
    decreases |a|
  {
    if a == [] {
      assert a + b == b;
    } else {
      assert (a + b)[1..] == a[1..] + b;
      FedInPieces(FeedBits(register, a[0], 8, p), a[1..], b, p);
    }
  }

  // However a message is cut into pieces, its check is the same, and is that of its bits.
  method CheckInPieces(pieces: seq<bytes>, polynomial: nat, ones: nat) returns (check: nat)
    ensures check == Check(Joined(pieces), ones, polynomial)
  {
    hide FeedAll, IsTable;
    var sum := new Checksum(polynomial, ones);
    assert pieces[0..] == pieces;
    for i := 0 to |pieces|
      invariant sum.Valid() && fresh(sum) && sum.ones == ones && sum.polynomial == polynomial
      invariant sum.message + Joined(pieces[i..]) == Joined(pieces)
    {
      assert pieces[i..][1..] == pieces[i + 1..];
      assert (sum.message + pieces[i]) + Joined(pieces[i + 1..]) == sum.message + (pieces[i] + Joined(pieces[i + 1..]));
      sum.Update(pieces[i]);
    }
    assert pieces[|pieces|..] == [] && sum.message + [] == sum.message;
    check := sum.Finish();
  }

  function Joined(pieces: seq<bytes>): bytes {
    if pieces == [] then [] else pieces[0] + Joined(pieces[1..])
  }

  // A register of `n` bits keeps to them, so the widths of the source never cut it.
  lemma {:induction false} RegisterKeepsWidth(register: nat, message: bytes, p: nat, n: nat)
    requires register < Pow2(n) && p < Pow2(n)
    ensures FeedAll(register, message, p) < Pow2(n)
    decreases |message|
  {
    if message != [] {
      BitsKeepWidth(register, message[0], 8, p, n);
      RegisterKeepsWidth(FeedBits(register, message[0], 8, p), message[1..], p, n);
    }
  }

  lemma {:induction false} BitsKeepWidth(register: nat, bits: nat, k: nat, p: nat, n: nat)
    requires register < Pow2(n) && p < Pow2(n)
    ensures FeedBits(register, bits, k, p) < Pow2(n)
    decreases k
  {
    if k > 0 {
      XorBound(register / 2, if register % 2 == bits % 2 then 0 else p, n);
      BitsKeepWidth(Feed(register, bits % 2, p), bits / 2, k - 1, p, n);
    }
  }

  // ---- The catalogue's form, which shifts left ----

  // The lowest `n` bits, the other way round.
  function Reflected(x: nat, n: nat): (r: nat)
    ensures r < Pow2(n)
  {
    if n == 0 then 0 else x % 2 * Pow2(n - 1) + Reflected(x / 2, n - 1)
  }

  // The same by appending bits to those already turned round.
  function ReflectedOnto(x: nat, n: nat, turned: nat): nat
    decreases n
  {
    if n == 0 then turned else ReflectedOnto(x / 2, n - 1, 2 * turned + x % 2)
  }

  lemma {:induction false} ReflectedByAppending(x: nat, n: nat, turned: nat)
    ensures ReflectedOnto(x, n, turned) == turned * Pow2(n) + Reflected(x, n)
    decreases n
  {
    if n > 0 {
      ReflectedByAppending(x / 2, n - 1, 2 * turned + x % 2);
      Appended(turned, x % 2, Pow2(n - 1));
    }
  }

  lemma Appended(turned: nat, bit: nat, p: nat)
    ensures (2 * turned + bit) * p == turned * (2 * p) + bit * p
  {
  }

  lemma NextBit(rest: nat, bit: nat, n: nat, turned: nat)
    requires n > 0 && bit < 2
    ensures ReflectedOnto(2 * rest + bit, n, turned) == ReflectedOnto(rest, n - 1, 2 * turned + bit)
  {
  }

  // Four bits, from the highest to the lowest.
  lemma NextBits(rest: nat, d: nat, c: nat, b: nat, a: nat, n: nat, turned: nat)
    requires n >= 4 && a < 2 && b < 2 && c < 2 && d < 2
    ensures ReflectedOnto(16 * rest + 8 * d + 4 * c + 2 * b + a, n, turned)
         == ReflectedOnto(rest, n - 4, 16 * turned + 8 * a + 4 * b + 2 * c + d)
  {
    hide ReflectedOnto;
    NextBit(8 * rest + 4 * d + 2 * c + b, a, n, turned);
    NextBit(4 * rest + 2 * d + c, b, n - 1, 2 * turned + a);
    NextBit(2 * rest + d, c, n - 2, 4 * turned + 2 * a + b);
    NextBit(rest, d, n - 3, 8 * turned + 4 * a + 2 * b + c);
  }

  // The polynomials as the catalogue prints them.
  lemma Polynomial64IsReflection()
    ensures Reflected(POLYNOMIAL_64, 64) == 0xad93_d235_94c9_3659
  {
    hide Reflected, Pow2, ReflectedOnto;
    ReflectedByAppending(POLYNOMIAL_64, 64, 0);
    NextBits(0x9a6c9329ac4bc9b, 0, 1, 0, 1, 64, 0x0);
    NextBits(0x9a6c9329ac4bc9, 1, 0, 1, 1, 60, 0xa);
    NextBits(0x9a6c9329ac4bc, 1, 0, 0, 1, 56, 0xad);
    NextBits(0x9a6c9329ac4b, 1, 1, 0, 0, 52, 0xad9);
    NextBits(0x9a6c9329ac4, 1, 0, 1, 1, 48, 0xad93);
    NextBits(0x9a6c9329ac, 0, 1, 0, 0, 44, 0xad93d);
    NextBits(0x9a6c9329a, 1, 1, 0, 0, 40, 0xad93d2);
    NextBits(0x9a6c9329, 1, 0, 1, 0, 36, 0xad93d23);
    NextBits(0x9a6c932, 1, 0, 0, 1, 32, 0xad93d235);
    NextBits(0x9a6c93, 0, 0, 1, 0, 28, 0xad93d2359);
    NextBits(0x9a6c9, 0, 0, 1, 1, 24, 0xad93d23594);
    NextBits(0x9a6c, 1, 0, 0, 1, 20, 0xad93d23594c);
    NextBits(0x9a6, 1, 1, 0, 0, 16, 0xad93d23594c9);
    NextBits(0x9a, 0, 1, 1, 0, 12, 0xad93d23594c93);
    NextBits(0x9, 1, 0, 1, 0, 8, 0xad93d23594c936);
    NextBits(0x0, 1, 0, 0, 1, 4, 0xad93d23594c9365);
    NothingLeft(0xad93_d235_94c9_3659);
  }

  lemma Polynomial32IsReflection()
    ensures Reflected(POLYNOMIAL_32, 32) == 0x04c1_1db7
  {
    hide Reflected, Pow2, ReflectedOnto;
    ReflectedByAppending(POLYNOMIAL_32, 32, 0);
    NextBits(0xedb8832, 0, 0, 0, 0, 32, 0x0);
    NextBits(0xedb883, 0, 0, 1, 0, 28, 0x0);
    NextBits(0xedb88, 0, 0, 1, 1, 24, 0x4);
    NextBits(0xedb8, 1, 0, 0, 0, 20, 0x4c);
    NextBits(0xedb, 1, 0, 0, 0, 16, 0x4c1);
    NextBits(0xed, 1, 0, 1, 1, 12, 0x4c11);
    NextBits(0xe, 1, 1, 0, 1, 8, 0x4c11d);
    NextBits(0x0, 1, 1, 1, 0, 4, 0x4c11db);
    NothingLeft(0x04c1_1db7);
  }

  lemma Polynomial32CIsReflection()
    ensures Reflected(POLYNOMIAL_32C, 32) == 0x1edc_6f41
  {
    hide Reflected, Pow2, ReflectedOnto;
    ReflectedByAppending(POLYNOMIAL_32C, 32, 0);
    NextBits(0x82f63b7, 1, 0, 0, 0, 32, 0x0);
    NextBits(0x82f63b, 0, 1, 1, 1, 28, 0x1);
    NextBits(0x82f63, 1, 0, 1, 1, 24, 0x1e);
    NextBits(0x82f6, 0, 0, 1, 1, 20, 0x1ed);
    NextBits(0x82f, 0, 1, 1, 0, 16, 0x1edc);
    NextBits(0x82, 1, 1, 1, 1, 12, 0x1edc6);
    NextBits(0x8, 0, 0, 1, 0, 8, 0x1edc6f);
    NextBits(0x0, 1, 0, 0, 0, 4, 0x1edc6f4);
    NothingLeft(0x1edc_6f41);
  }

  lemma NothingLeft(turned: nat)
    ensures ReflectedOnto(0, 0, turned) == turned
  {
  }

  // A register of `n` bits that shifts left takes one bit of the message.
  function FeedLeft(register: nat, bit: nat, polynomial: nat, n: nat): nat
    requires n > 0
  {
    Xor(2 * register % Pow2(n), if register / Pow2(n - 1) == bit then 0 else polynomial)
  }

  // The highest bit becomes the lowest.
  lemma {:induction false} HighIsLow(high: nat, low: nat, n: nat)
    requires n > 0 && low < Pow2(n - 1) && high < 2
    ensures Reflected(high * Pow2(n - 1) + low, n) == 2 * Reflected(low, n - 1) + high
    decreases n
  {
    if n > 1 {
      var k := high * Pow2(n - 2);
      assert high * Pow2(n - 1) == 2 * k;
      assert (2 * k + low) / 2 == k + low / 2 && (2 * k + low) % 2 == low % 2;
      HighIsLow(high, low / 2, n - 1);
      Doubled(low % 2, n - 1);
    }
  }

  lemma {:induction false} ReflectedTwice(x: nat, n: nat)
    requires x < Pow2(n)
    ensures Reflected(Reflected(x, n), n) == x
    decreases n
  {
    if n > 0 {
      ReflectedTwice(x / 2, n - 1);
      HighIsLow(x % 2, Reflected(x / 2, n - 1), n);
    }
  }

  lemma {:induction false} ReflectionIsLinear(a: nat, b: nat, n: nat)
    ensures Reflected(Xor(a, b), n) == Xor(Reflected(a, n), Reflected(b, n))
    decreases n
  {
    hide Xor;
    if n == 0 {
      XorZero(0);
    } else {
      XorParts(a, b);
      ReflectionIsLinear(a / 2, b / 2, n - 1);
      XorBelowAbove(Reflected(a / 2, n - 1), Reflected(b / 2, n - 1), a % 2, b % 2, n - 1);
      XorOfBits(a % 2, b % 2);
    }
  }

  lemma XorOfBits(a: nat, b: nat)
    requires a < 2 && b < 2
    ensures Xor(a, b) == (a + b) % 2
  {
  }

  // Both registers take a bit alike.
  lemma FeedsAreReflections(register: nat, bit: nat, p: nat, n: nat)
    requires n > 0 && register < Pow2(n) && bit < 2
    ensures Reflected(Feed(register, bit, p), n) == FeedLeft(Reflected(register, n), bit, Reflected(p, n), n)
  {
    hide Xor, Pow2, Reflected;
    ReflectionIsLinear(register / 2, if register % 2 == bit then 0 else p, n);
    ReflectedZero(n);
    TopBit(register, n);
  }

  lemma TopBit(register: nat, n: nat)
    requires n > 0 && register < Pow2(n)
    ensures Reflected(register, n) / Pow2(n - 1) == register % 2
    ensures 2 * Reflected(register, n) % Pow2(n) == Reflected(register / 2, n)
  {
    hide Reflected, Pow2;
    OneStep(register, n);
    HighIsLow(0, register / 2, n);
    TopOf(Reflected(register, n), register % 2, Pow2(n - 1), Reflected(register / 2, n - 1), Pow2(n));
  }

  lemma OneStep(x: nat, n: nat)
    requires n > 0
    ensures Reflected(x, n) == x % 2 * Pow2(n - 1) + Reflected(x / 2, n - 1)
    ensures Pow2(n) == 2 * Pow2(n - 1) && (x < Pow2(n) ==> x / 2 < Pow2(n - 1))
  {
  }

  lemma TopOf(x: nat, top: nat, p: nat, low: nat, double: nat)
    requires x == top * p + low && low < p && double == 2 * p
    ensures x / p == top && 2 * x % double == 2 * low
  {
    Quotient(x, p, top, low);
    assert top * double == 2 * (top * p);
    Remainder(2 * x, double, top, 2 * low);
  }

  lemma ReflectedZero(n: nat)
    ensures Reflected(0, n) == 0
  {
  }

  function FeedBitsLeft(register: nat, bits: nat, k: nat, polynomial: nat, n: nat): nat
    requires n > 0
    decreases k
  {
    if k == 0 then register
    else FeedBitsLeft(FeedLeft(register, bits % 2, polynomial, n), bits / 2, k - 1, polynomial, n)
  }

  function FeedAllLeft(register: nat, message: bytes, polynomial: nat, n: nat): nat
    requires n > 0
    decreases |message|
  {
    if message == [] then register
    else FeedAllLeft(FeedBitsLeft(register, message[0], 8, polynomial, n), message[1..], polynomial, n)
  }

  // The check of `n` bits as the catalogue defines it: a register that starts from all ones and
  // shifts left, each byte of the message from its lowest bit, and the result turned round and
  // inverted.
  function CatalogueCheck(message: bytes, polynomial: nat, n: nat): nat
    requires n > 0
  {
    Xor(Reflected(FeedAllLeft(Pow2(n) - 1, message, polynomial, n), n), Pow2(n) - 1)
  }

  lemma CheckIsTheCatalogues(message: bytes, p: nat, n: nat)
    requires n > 0 && p < Pow2(n)
    ensures Check(message, Pow2(n) - 1, p) == CatalogueCheck(message, Reflected(p, n), n)
  {
    hide FeedAll, FeedAllLeft, Reflected, Xor;
    var ones := Pow2(n) - 1;
    OnesReflected(n);
    MessagesAreReflections(ones, message, p, n);
    RegisterKeepsWidth(ones, message, p, n);
    ReflectedTwice(FeedAll(ones, message, p), n);
  }

  lemma {:induction false} OnesReflected(n: nat)
    ensures Reflected(Pow2(n) - 1, n) == Pow2(n) - 1
  {
    if n > 0 {
      HalfOfOnes(Pow2(n - 1));
      OnesReflected(n - 1);
    }
  }

  lemma HalfOfOnes(p: nat)
    requires p > 0
    ensures (2 * p - 1) % 2 == 1 && (2 * p - 1) / 2 == p - 1
  {
  }

  lemma {:induction false} BitsAreReflections(register: nat, bits: nat, k: nat, p: nat, n: nat)
    requires n > 0 && register < Pow2(n) && p < Pow2(n)
    ensures Reflected(FeedBits(register, bits, k, p), n)
         == FeedBitsLeft(Reflected(register, n), bits, k, Reflected(p, n), n)
    decreases k
  {
    hide FeedLeft, Feed, Reflected, Pow2;
    if k > 0 {
      FeedsAreReflections(register, bits % 2, p, n);
      BitsKeepWidth(register, bits, 1, p, n);
      assert FeedBits(register, bits, 1, p) == FeedBits(Feed(register, bits % 2, p), bits / 2, 0, p);
      BitsAreReflections(Feed(register, bits % 2, p), bits / 2, k - 1, p, n);
    }
  }

  lemma {:induction false} MessagesAreReflections(register: nat, message: bytes, p: nat, n: nat)
    requires n > 0 && register < Pow2(n) && p < Pow2(n)
    ensures Reflected(FeedAll(register, message, p), n)
         == FeedAllLeft(Reflected(register, n), message, Reflected(p, n), n)
    decreases |message|
  {
    hide FeedBits, FeedBitsLeft, Reflected, Pow2;
    if message != [] {
      BitsAreReflections(register, message[0], 8, p, n);
      BitsKeepWidth(register, message[0], 8, p, n);
      MessagesAreReflections(FeedBits(register, message[0], 8, p), message[1..], p, n);
    }
  }

  lemma Pow2HalfWord()
    ensures Pow2(32) == U32_MAX + 1
  {
    assert Pow2(8) == 0x100 && Pow2(16) == 0x1_0000 && Pow2(24) == 0x100_0000;
  }

  // The three checks of the source are those of the catalogue.
  lemma ChecksAreTheCatalogues(message: bytes)
    ensures Check(message, U64_MAX, POLYNOMIAL_64) == CatalogueCheck(message, 0xad93_d235_94c9_3659, 64)
    ensures Check(message, U32_MAX, POLYNOMIAL_32) == CatalogueCheck(message, 0x04c1_1db7, 32)
    ensures Check(message, U32_MAX, POLYNOMIAL_32C) == CatalogueCheck(message, 0x1edc_6f41, 32)
  {
    hide Check, CatalogueCheck, Pow2, Reflected;
    Pow2Word();
    Pow2HalfWord();
    Polynomial64IsReflection();
    Polynomial32IsReflection();
    Polynomial32CIsReflection();
    CheckIsTheCatalogues(message, POLYNOMIAL_64, 64);
    CheckIsTheCatalogues(message, POLYNOMIAL_32, 32);
    CheckIsTheCatalogues(message, POLYNOMIAL_32C, 32);
  }
}
