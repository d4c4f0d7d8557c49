/** Decimal numbers, as headers, ranges and lengths carry them. */
module Numbers {
  import opened Bytes

  const ZERO: byte := '0' as int

  predicate IsDigit(b: byte) { ZERO <= b <= ZERO + 9 }

  predicate AllDigits(s: bytes) {
    forall i :: 0 <= i < |s| ==> IsDigit(s[i])
  }

  // The shortest decimal text of `n`.
  function Decimal(n: nat): (s: bytes)
    ensures s != [] && AllDigits(s)
    ensures n > 0 ==> s[0] != ZERO
  {
    if n < 10 then [ZERO + n] else Decimal(n / 10) + [ZERO + n % 10]
  }

  // The value of a text of digits, read from its end.
  function Value(s: bytes): nat
    requires AllDigits(s)
  {
    if s == [] then 0 else 10 * Value(s[..|s| - 1]) + (s[|s| - 1] - ZERO)
  }

  lemma OneDigitMore(digits: bytes, d: byte)
    requires AllDigits(digits) && IsDigit(d)
    ensures Value(digits + [d]) == 10 * Value(digits) + (d - ZERO)
  {
    assert (digits + [d])[..|digits|] == digits;
  }

  lemma {:induction false} DecimalValue(n: nat)
    ensures Value(Decimal(n)) == n
  {
    if n >= 10 {
      DecimalValue(n / 10);
      assert Decimal(n)[..|Decimal(n)| - 1] == Decimal(n / 10);
    }
  }

  function Pow10(k: nat): (p: nat)
    ensures p > 0
  {
    if k == 0 then 1 else 10 * Pow10(k - 1)
  }

  lemma {:induction false} DecimalLength(n: nat, k: nat)
    requires k > 0 && n < Pow10(k)
    ensures |Decimal(n)| <= k
  {
    if n >= 10 {
      assert Pow10(1) == 10;
      DecimalLength(n / 10, k - 1);
    }
  }

  lemma Pow10Of20()
    ensures Pow10(19) == 10_000_000_000_000_000_000 && U64_MAX < Pow10(20)
  {
    assert Pow10(4) == 10_000 && Pow10(8) == 100_000_000;
    assert Pow10(12) == 1_000_000_000_000 && Pow10(16) == 10_000_000_000_000_000;
  }

  // The two decimal digits of a number below 100.
  function DigitPair(n: nat): bytes
    requires n < 100
  {
    [ZERO + n / 10, ZERO + n % 10]
  }

  lemma DecimalByPairs(n: nat)
    requires n >= 100
    ensures Decimal(n) == Decimal(n / 100) + DigitPair(n % 100)
  {
    assert Decimal(n) == Decimal(n / 10) + [ZERO + n % 10];
    assert n / 10 / 10 == n / 100 && n / 10 % 10 == n % 100 / 10 && n % 10 == n % 100 % 10;
  }

  // Writes `pair` before what `digits[start..]` holds.
  method PutPair(digits: array<byte>, start: nat, pair: bytes)
    requires |pair| == 2 && 2 <= start <= digits.Length
    modifies digits
    ensures digits[start - 2..] == pair + old(digits[start..])
  {
    digits[start - 2], digits[start - 1] := pair[0], pair[1];
  }

  // Fills an array of 20 bytes from its end, two digits a division.
  method U64Decimal(number: nat) returns (text: bytes)
    requires number <= U64_MAX
    ensures text == Decimal(number)
  {
    hide Decimal;
    DecimalLength(number, 20) by { Pow10Of20(); }
    var digits := new byte[20](i => 0);
    var value, start := number, 20;
    while value >= 100
      invariant 0 <= start <= 20
      invariant Decimal(value) + digits[start..] == Decimal(number)
    {
      DecimalByPairs(value);
      assert |Decimal(value / 100)| >= 1;
      ghost var rest := digits[start..];
      PutPair(digits, start, DigitPair(value % 100));
      assert Decimal(value / 100) + (DigitPair(value % 100) + rest) == Decimal(value) + rest;
      start := start - 2;
      value := value / 100;
    }
    DecimalBelow100(value);
    ghost var rest := digits[start..];
    if value >= 10 {
      PutPair(digits, start, DigitPair(value));
      start := start - 2;
    } else {
      start := start - 1;
      digits[start] := ZERO + value;
      assert digits[start..] == [ZERO + value] + rest;
    }
    text := digits[start..];
  }

  lemma DecimalBelow100(n: nat)
    requires n < 100
    ensures Decimal(n) == if n < 10 then [ZERO + n] else DigitPair(n)
  {
    if n >= 10 {
      assert Decimal(n / 10) == [ZERO + n / 10];
    }
  }

  // ---- Reading ----

  // The fold of `parse_decimal`: `checked` refuses a value past the range of a `u64`, and
  // without it the value wraps around.
  function FoldDigits(s: bytes, value: nat, checked: bool): Option<nat> {
    if s == [] then Some(value)
    else if !IsDigit(s[0]) then None
    else
      var next := value * 10 + (s[0] - ZERO);
      if checked && next > U64_MAX then None
      else FoldDigits(s[1..], next % (U64_MAX + 1), checked)
  }

  // The reader's fold: texts of up to 19 digits take the unchecked branch.
  function ParseDecimal(s: bytes): Option<nat> {
    if s == [] then None else FoldDigits(s, 0, |s| > 19)
  }

  // The value of `s` after digits of the value `acc`.
  function ValueAfter(acc: nat, s: bytes): nat
    requires AllDigits(s)
    decreases s
  {
    if s == [] then acc else ValueAfter(acc * 10 + (s[0] - ZERO), s[1..])
  }

  lemma {:induction false} ValueAfterLast(acc: nat, s: bytes)
    requires AllDigits(s) && s != []
    ensures ValueAfter(acc, s) == 10 * ValueAfter(acc, s[..|s| - 1]) + (s[|s| - 1] - ZERO)
    decreases s
  {
    if |s| > 1 {
      ValueAfterLast(acc * 10 + (s[0] - ZERO), s[1..]);
      assert s[1..][..|s| - 2] == s[..|s| - 1][1..];
    }
  }

  lemma {:induction false} ValueFromTheLeft(s: bytes)
    requires AllDigits(s)
    ensures ValueAfter(0, s) == Value(s)
  {
    if s != [] {
      ValueAfterLast(0, s);
      ValueFromTheLeft(s[..|s| - 1]);
    }
  }

  lemma {:induction false} ValueAfterGrows(acc: nat, s: bytes)
    requires AllDigits(s)
    ensures ValueAfter(acc, s) >= acc
    decreases s
  {
    if s != [] {
      ValueAfterGrows(acc * 10 + (s[0] - ZERO), s[1..]);
    }
  }

  lemma AllDigitsStep(s: bytes)
    requires s != []
    ensures AllDigits(s) <==> IsDigit(s[0]) && AllDigits(s[1..])
  {
    assert s == [s[0]] + s[1..];
  }

  lemma {:induction false} FoldReads(s: bytes, value: nat, checked: bool)
    requires value <= U64_MAX && (checked || (AllDigits(s) && ValueAfter(value, s) <= U64_MAX))
    ensures FoldDigits(s, value, checked)
         == if AllDigits(s) && ValueAfter(value, s) <= U64_MAX then Some(ValueAfter(value, s)) else None
    decreases s
  {
    if s != [] && IsDigit(s[0]) {
      var next := value * 10 + (s[0] - ZERO);
      AllDigitsStep(s);
      if AllDigits(s) {
        assert ValueAfter(value, s) == ValueAfter(next, s[1..]);
        ValueAfterGrows(next, s[1..]);
      }
      if next <= U64_MAX {
        assert next % (U64_MAX + 1) == next;
        FoldReads(s[1..], next, checked);
        assert FoldDigits(s, value, checked) == FoldDigits(s[1..], next, checked);
      } else {
        assert FoldDigits(s, value, checked) == None;
      }
    }
  }

  // Text that is not all digits is refused, whatever the value wraps to.
  lemma {:induction false} FoldRefuses(s: bytes, value: nat)
    requires !AllDigits(s)
    ensures FoldDigits(s, value, false).None?
  {
    if IsDigit(s[0]) {
      assert s == [s[0]] + s[1..];
      FoldRefuses(s[1..], (value * 10 + (s[0] - ZERO)) % (U64_MAX + 1));
    }
  }

  lemma {:induction false} ValueBound(s: bytes)
    requires AllDigits(s)
    ensures Value(s) < Pow10(|s|)
  {
    if s != [] {
      ValueBound(s[..|s| - 1]);
    }
  }

  // What `parse_decimal` reads: text of one or more digits whose value fits a `u64`.
  lemma ParseDecimalReads(s: bytes)
    ensures ParseDecimal(s) == if s != [] && AllDigits(s) && Value(s) <= U64_MAX then Some(Value(s)) else None
  {
    if s != [] {
      if AllDigits(s) {
        ValueFromTheLeft(s);
        if |s| <= 19 {
          ValueBound(s);
          Pow10Of20();
          Pow10Grows(|s|, 19);
        }
        FoldReads(s, 0, |s| > 19);
      } else if |s| <= 19 {
        FoldRefuses(s, 0);
      } else {
        FoldReads(s, 0, true);
      }
    }
  }

  lemma {:induction false} Pow10Grows(j: nat, k: nat)
    requires j <= k
    ensures Pow10(j) <= Pow10(k)
  {
    if j < k {
      Pow10Grows(j, k - 1);
    }
  }

  // `parse_decimal` reads back every number that `U64Decimal` writes.
  lemma ParsingUndoesWriting(n: nat)
    requires n <= U64_MAX
    ensures ParseDecimal(Decimal(n)) == Some(n)
  {
    DecimalValue(n);
    ParseDecimalReads(Decimal(n));
  }
}
