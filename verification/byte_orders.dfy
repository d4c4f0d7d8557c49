/** The order of bytes in the integers that are written: which byte of a number stands where. */
module ByteOrders {
  import opened Arithmetic
  import opened Bytes

  lemma DivideBy256(n: nat, i: nat)
    ensures n / 256 / Pow256(i) == n / Pow256(i + 1)
  {
    DivideBytes(n, Pow256(i));
  }

  // The lowest byte comes first.
  lemma {:induction false} LittleEndianAt(n: nat, width: nat, i: nat)
    requires i < width
    ensures LittleEndian(n, width)[i] == n / Pow256(i) % 256
    decreases width
  {
    if i > 0 {
      LittleEndianAt(n / 256, width - 1, i - 1);
      DivideBy256(n, i - 1);
    }
  }

  // The highest byte comes first.
  lemma {:induction false} BigEndianAt(n: nat, width: nat, i: nat)
    requires i < width
    ensures BigEndian(n, width)[i] == n / Pow256(width - 1 - i) % 256
    decreases width
  {
    if i < width - 1 {
      BigEndianAt(n / 256, width - 1, i);
      DivideBy256(n, width - 2 - i);
    }
  }
}
