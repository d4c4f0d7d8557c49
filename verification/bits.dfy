/** Exclusive or, on numbers of any width. */
module Bits {
  import opened Bytes

  const WORD: nat := U64_MAX + 1

  function Xor(a: nat, b: nat): nat {
    if a == 0 && b == 0 then 0 else (a % 2 + b % 2) % 2 + 2 * Xor(a / 2, b / 2)
  }

  lemma {:induction false} XorCommutes(a: nat, b: nat)
    ensures Xor(a, b) == Xor(b, a)
    decreases a + b
  {
    if a + b > 0 {
      XorCommutes(a / 2, b / 2);
    }
  }

  function Pow2(k: nat): (p: nat)
    ensures p > 0
  {
    if k == 0 then 1 else 2 * Pow2(k - 1)
  }

  lemma {:induction false} XorBound(a: nat, b: nat, k: nat)
    requires a < Pow2(k) && b < Pow2(k)
    ensures Xor(a, b) < Pow2(k)
    decreases k
  {
    if k > 0 {
      XorBound(a / 2, b / 2, k - 1);
    }
  }

  // The halves and the lowest bit of an exclusive or.
  lemma XorParts(a: nat, b: nat)
    ensures Xor(a, b) / 2 == Xor(a / 2, b / 2) && Xor(a, b) % 2 == (a % 2 + b % 2) % 2
  {
  }

  lemma {:induction false} XorAssociates(a: nat, b: nat, c: nat)
    ensures Xor(Xor(a, b), c) == Xor(a, Xor(b, c))
    decreases a + b + c
  {
    if a + b + c == 0 {
      assert Xor(0, 0) == 0;
    } else {
      hide Xor;
      XorAssociates(a / 2, b / 2, c / 2);
      LeftBit(a, b, c);
      RightBit(a, b, c);
      SameNumber(Xor(Xor(a, b), c), Xor(a, Xor(b, c)));
    }
  }

  lemma LeftBit(a: nat, b: nat, c: nat)
    ensures Xor(Xor(a, b), c) % 2 == (a % 2 + b % 2 + c % 2) % 2
    ensures Xor(Xor(a, b), c) / 2 == Xor(Xor(a / 2, b / 2), c / 2)
  {
    hide Xor;
    XorParts(a, b);
    XorParts(Xor(a, b), c);
  }

  lemma RightBit(a: nat, b: nat, c: nat)
    ensures Xor(a, Xor(b, c)) % 2 == (a % 2 + b % 2 + c % 2) % 2
    ensures Xor(a, Xor(b, c)) / 2 == Xor(a / 2, Xor(b / 2, c / 2))
  {
    hide Xor;
    XorParts(b, c);
    XorParts(a, Xor(b, c));
  }

  lemma SameNumber(x: nat, y: nat)
    requires x / 2 == y / 2 && x % 2 == y % 2
    ensures x == y
  {
  }

  lemma {:induction false} XorZero(a: nat)
    ensures Xor(a, 0) == a
  {
    if a > 0 {
      XorZero(a / 2);
    }
  }

  lemma {:induction false} XorSelf(a: nat)
    ensures Xor(a, a) == 0
  {
    if a > 0 {
      XorSelf(a / 2);
    }
  }

  lemma XorCancels(a: nat, b: nat)
    ensures Xor(Xor(a, b), b) == a
  {
    hide Xor;
    XorAssociates(a, b, b);
    XorSelf(b);
    XorZero(a);
  }

  // The parts of an exclusive or above and below a bit.
  lemma {:induction false} XorBelowAbove(a: nat, b: nat, c: nat, d: nat, n: nat)
    requires a < Pow2(n) && b < Pow2(n)
    ensures Xor(a + c * Pow2(n), b + d * Pow2(n)) == Xor(a, b) + Xor(c, d) * Pow2(n)
    decreases n
  {
    hide Xor;
    if n == 0 {
      XorZero(0);
    } else {
      XorBelowAbove(a / 2, b / 2, c, d, n - 1);
      OneBitBelow(a, b, c * Pow2(n - 1), d * Pow2(n - 1), Xor(c, d) * Pow2(n - 1));
      Doubled(c, n);
      Doubled(d, n);
      Doubled(Xor(c, d), n);
    }
  }

  lemma OneBitBelow(a: nat, b: nat, k: nat, l: nat, m: nat)
    requires Xor(a / 2 + k, b / 2 + l) == Xor(a / 2, b / 2) + m
    ensures Xor(a + 2 * k, b + 2 * l) == Xor(a, b) + 2 * m
  {
    hide Xor;
    XorParts(a + 2 * k, b + 2 * l);
    XorParts(a, b);
  }

  lemma Doubled(c: nat, n: nat)
    requires n > 0
    ensures c * Pow2(n) == 2 * (c * Pow2(n - 1))
  {
  }

  // Bits that do not overlap add up.
  lemma XorDisjoint(low: nat, high: nat, n: nat)
    requires low < Pow2(n)
    ensures Xor(low, high * Pow2(n)) == low + high * Pow2(n)
  {
    hide Xor;
    XorBelowAbove(low, 0, 0, high, n);
    XorZero(low);
    XorZero(high);
    XorCommutes(0, high);
  }

  lemma Pow2Word()
    ensures Pow2(64) == WORD
  {
    assert Pow2(8) == 0x100 && Pow2(16) == 0x1_0000 && Pow2(24) == 0x100_0000 && Pow2(32) == 0x1_0000_0000;
    assert Pow2(40) == 0x100_0000_0000 && Pow2(48) == 0x1_0000_0000_0000 && Pow2(56) == 0x100_0000_0000_0000;
  }

  // A byte with another, bit by bit.
  function XorByte(a: byte, b: byte): byte {
    assert Pow2(8) == 256;
    XorBound(a, b, 8);
    Xor(a, b)
  }

  // ---- Inclusive or ----

  function Or(a: nat, b: nat): nat {
    if a == 0 && b == 0 then 0 else (if a % 2 == 1 || b % 2 == 1 then 1 else 0) + 2 * Or(a / 2, b / 2)
  }

  lemma OrParts(a: nat, b: nat)
    ensures Or(a, b) / 2 == Or(a / 2, b / 2)
    ensures Or(a, b) % 2 == if a % 2 == 1 || b % 2 == 1 then 1 else 0
  {
  }

  lemma {:induction false} OrZero(a: nat)
    ensures Or(a, 0) == a
  {
    if a > 0 {
      OrZero(a / 2);
    }
  }

  lemma {:induction false} OrBound(a: nat, b: nat, k: nat)
    requires a < Pow2(k) && b < Pow2(k)
    ensures Or(a, b) < Pow2(k)
    decreases k
  {
    if k > 0 {
      OrBound(a / 2, b / 2, k - 1);
    }
  }

  // The parts of an inclusive or below and above a bit.
  lemma {:induction false} OrBelowAbove(a: nat, b: nat, c: nat, d: nat, n: nat)
    requires a < Pow2(n) && b < Pow2(n)
    ensures Or(a + c * Pow2(n), b + d * Pow2(n)) == Or(a, b) + Or(c, d) * Pow2(n)
    decreases n
  {
    hide Or;
    if n == 0 {
      OrZero(0);
    } else {
      OrBelowAbove(a / 2, b / 2, c, d, n - 1);
      OneBitBelowOr(a, b, c * Pow2(n - 1), d * Pow2(n - 1), Or(c, d) * Pow2(n - 1));
      Doubled(c, n);
      Doubled(d, n);
      Doubled(Or(c, d), n);
    }
  }

  lemma OneBitBelowOr(a: nat, b: nat, k: nat, l: nat, m: nat)
    requires Or(a / 2 + k, b / 2 + l) == Or(a / 2, b / 2) + m
    ensures Or(a + 2 * k, b + 2 * l) == Or(a, b) + 2 * m
  {
    hide Or;
    OrParts(a + 2 * k, b + 2 * l);
    OrParts(a, b);
  }

  function OrByte(a: byte, b: byte): byte {
    assert Pow2(8) == 256;
    OrBound(a, b, 8);
    Or(a, b)
  }

  // Each byte of two little-endian words, with the other's.
  function OrEach(s: bytes, t: bytes): (r: bytes)
    requires |s| == |t|
    ensures |r| == |s|
  {
    seq(|s|, i requires 0 <= i < |s| => OrByte(s[i], t[i]))
  }

  lemma {:induction false} OrOfWords(s: bytes, t: bytes)
    requires |s| == |t|
    ensures Or(FromLittleEndian(s), FromLittleEndian(t)) == FromLittleEndian(OrEach(s, t))
  {
    if s == [] {
      OrZero(0);
    } else {
      hide Or;
      assert Pow2(8) == 256;
      OrOfWords(s[1..], t[1..]);
      OrBelowAbove(s[0], t[0], FromLittleEndian(s[1..]), FromLittleEndian(t[1..]), 8);
      assert OrEach(s, t)[1..] == OrEach(s[1..], t[1..]);
    }
  }
}
