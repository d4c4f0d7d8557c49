/** SHA-256 of a message that comes in pieces, over a compression function. */
module Sha256 {
  import opened Arithmetic
  import opened Bytes
  import opened ByteOrders

  const BLOCK: nat := 64

  type word = w: int | 0 <= w < U32_LIMIT
  type Block = b: bytes | |b| == BLOCK witness seq(BLOCK, i => 0)
  type State = s: seq<word> | |s| == 8 witness seq(8, i => 0)
  type Compression = (State, Block) -> State

  // The initial hash value, section 5.3.3 of FIPS 180-4.
  const INITIAL: State := [
    0x6a09_e667, 0xbb67_ae85, 0x3c6e_f372, 0xa54f_f53a, 0x510e_527f, 0x9b05_688c, 0x1f83_d9ab, 0x5be0_cd19
  ]

  // ---- The definition, sections 5.1.1, 5.2.1 and 6.2.2 of FIPS 180-4 ----

  // The zero bytes between the end mark of a message of `n` bytes and its length.
  function ZerosAfter(n: nat): nat {
    (55 - n) % BLOCK
  }

  // They are the fewest that leave eight bytes of the last block.
  lemma ZerosAreFewest(n: nat, k: nat)
    ensures (n + 1 + ZerosAfter(n) + 8) % BLOCK == 0
    ensures (n + 1 + k + 8) % BLOCK == 0 ==> ZerosAfter(n) <= k
  {
  }

  function Padding(n: nat): bytes {
    [0x80] + Repeated(0, ZerosAfter(n)) + BigEndian(8 * n, 8)
  }

  function Padded(message: bytes): (p: bytes)
    ensures |p| % BLOCK == 0
  {
    ZerosAreFewest(|message|, 0);
    message + Padding(|message|)
  }

  function Folded(compress: Compression, state: State, blocks: bytes): State
    requires |blocks| % BLOCK == 0
    decreases |blocks|
  {
    if blocks == [] then state else Folded(compress, compress(state, blocks[..BLOCK]), blocks[BLOCK..])
  }

  function StateBytes(state: seq<word>): (s: bytes)
    ensures |s| == 4 * |state|
  {
    if state == [] then [] else BigEndian(state[0], 4) + StateBytes(state[1..])
  }

  function Hash(compress: Compression, message: bytes): (h: bytes)
    ensures |h| == 32
  {
    StateBytes(Folded(compress, INITIAL, Padded(message)))
  }

  lemma {:induction false} FoldedInTwo(compress: Compression, state: State, a: bytes, b: bytes)
    requires |a| % BLOCK == 0 && |b| % BLOCK == 0
    ensures |a + b| % BLOCK == 0
    ensures Folded(compress, state, a + b) == Folded(compress, Folded(compress, state, a), b)
    decreases |a|
  {
    if a == [] {
      assert a + b == b;
    } else {
      assert (a + b)[..BLOCK] == a[..BLOCK] && (a + b)[BLOCK..] == a[BLOCK..] + b;
      FoldedInTwo(compress, compress(state, a[..BLOCK]), a[BLOCK..], b);
    }
  }

  lemma FoldedOne(compress: Compression, state: State, block: Block)
    ensures Folded(compress, state, block) == compress(state, block)
  {
    assert block[..BLOCK] == block && block[BLOCK..] == [];
    assert Folded(compress, compress(state, block), []) == compress(state, block);
  }

  // The compression of whole blocks, one after the other.
  method Compress(compress: Compression, state: State, blocks: bytes) returns (after: State)
    requires |blocks| % BLOCK == 0
    ensures after == Folded(compress, state, blocks)
  {
    hide Folded;
    after := state;
    var at := 0;
    FoldedNone(compress, state);
    while at < |blocks|
      invariant 0 <= at <= |blocks| && at % BLOCK == 0
      invariant after == Folded(compress, state, blocks[..at])
    {
      FoldedInTwo(compress, state, blocks[..at], blocks[at..at + BLOCK]);
      FoldedOne(compress, after, blocks[at..at + BLOCK]);
      assert blocks[..at] + blocks[at..at + BLOCK] == blocks[..at + BLOCK];
      after := compress(after, blocks[at..at + BLOCK]);
      at := at + BLOCK;
    }
    assert blocks[..at] == blocks;
  }

  // The bytes of a message that fill no block yet, and those before them.
  function Rest(message: bytes): bytes { message[|message| - |message| % BLOCK..] }

  function Full(message: bytes): bytes { message[..|message| - |message| % BLOCK] }

  /** A hash of a message so far. The copy that a value of the source makes is `Copy` here. */
  class Hasher {
    const compress: Compression
    var state: State
    // `block[..filled]` is what follows the last whole block of the message.
    const block: array<byte>
    var filled: nat
    // The bytes added so far, as 64 bits count them.
    var len: nat
    ghost var message: bytes

    ghost predicate Valid()
      reads this, block
    {
      len == |message| % (U64_MAX + 1) && Holds(message)
    }

    // The state and the block are those after `done`.
    ghost predicate Holds(done: bytes)
      reads `state, `filled, block
      ensures Holds(done) ==> filled < BLOCK
    {
      && block.Length == BLOCK
      && filled == |done| % BLOCK
      && block[..filled] == Rest(done)
      && |Full(done)| % BLOCK == 0
      && state == Folded(compress, INITIAL, Full(done))
    }

    constructor (compress: Compression)
      ensures Valid() && message == [] && this.compress == compress && fresh(block)
    {
      this.compress, state, block, filled, len := compress, INITIAL, new byte[BLOCK](i => 0), 0, 0;
      message := [];
    }

    constructor Copy(from: Hasher)
      requires from.Valid()
      ensures Valid() && message == from.message && compress == from.compress && fresh(block)
    {
      compress, state, filled, len := from.compress, from.state, from.filled, from.len;
      block, message := new byte[BLOCK](i => 0), from.message;
      new;
      Paste(block, 0, from.block[..]);
      assert block[..] == from.block[..];
      assert block[..filled] == from.block[..filled];
    }

    method Add(piece: bytes)
      requires Valid()
      modifies this, block
      ensures Valid() && message == old(message) + piece
    {
      hide Folded, Hasher.Holds;
      ghost var done := message;
      LengthAdds(|message|, |piece|);
      len := (len + |piece|) % (U64_MAX + 1);
      message := message + piece;
      var bytes := piece;
      if filled > 0 {
        var take := Min(|bytes|, BLOCK - filled);
        var full := Fill(bytes[..take], done);
        done, bytes := done + bytes[..take], bytes[take..];
        assert done + bytes == message;
        if !full {
          assert bytes == [] && done == message;
          return;
        }
      }
      AddBlocks(bytes, done);
    }

    // Adds what the block still takes, and compresses it once it is full.
    method Fill(piece: bytes, ghost done: bytes) returns (full: bool)
      requires Holds(done) && |piece| <= BLOCK - filled
      modifies `state, `filled, block
      ensures Holds(done + piece)
      ensures full == (old(filled) + |piece| == BLOCK) && (full ==> filled == 0)
    {
      hide Folded;
      Paste(block, filled, piece);
      filled := filled + |piece|;
      assert block[..filled] == Rest(done) + piece;
      if filled < BLOCK {
        StillFilling(done, piece);
        return false;
      }
      assert block[..] == block[..filled];
      OneBlockMore(compress, done, piece);
      state := compress(state, block[..]);
      filled := 0;
      assert Full(done + piece) == done + piece;
      return true;
    }

    // Adds what follows an empty block.
    method AddBlocks(piece: bytes, ghost done: bytes)
      requires Holds(done) && filled == 0
      modifies `state, `filled, block
      ensures Holds(done + piece)
    {
      hide Folded;
      assert Full(done) == done;
      var whole := |piece| - |piece| % BLOCK;
      if whole > 0 {
        state := Compress(compress, state, piece[..whole]);
      } else {
        FoldedNone(compress, state);
      }
      FoldedInTwo(compress, INITIAL, done, piece[..whole]);
      WholeBlocks(done, piece);
      Paste(block, 0, piece[whole..]);
      filled := |piece| - whole;
    }

    // Pads the message and returns the state as bytes. It works on a copy.
    method Digest() returns (out: bytes)
      requires Valid()
      ensures out == Hash(compress, message)
    {
      hide Folded, StateBytes, Hash;
      var self := new Hasher.Copy(this);
      out := self.Finished();
    }

    method Finished() returns (out: bytes)
      requires Valid()
      modifies this, block
      ensures out == Hash(compress, old(message))
    {
      hide Folded, StateBytes, BigEndian, Hash, Repeated;
      ghost var rest := Rest(message);
      var bits := len * 8 % (U64_MAX + 1);
      SameLength(|message|);
      block[filled] := 0x80;
      Paste(block, filled + 1, Repeated(0, BLOCK - filled - 1));
      ghost var first := block[..];
      assert first == rest + [0x80] + Repeated(0, BLOCK - filled - 1);
      if filled >= 56 {
        state := compress(state, block[..]);
        Paste(block, 0, Repeated(0, BLOCK));
        Paste(block, 56, BigEndian(bits, 8));
        assert block[..] == Repeated(0, 56) + BigEndian(bits, 8) by { ZerosStart(56, BLOCK); }
        TwoBlocks(compress, message, first, block[..]);
      } else {
        Paste(block, 56, BigEndian(bits, 8));
        assert block[..] == rest + [0x80] + Repeated(0, 55 - filled) + BigEndian(bits, 8) by {
          ZerosStart(55 - filled, BLOCK - filled - 1);
        }
        OneBlock(compress, message, block[..]);
      }
      state := compress(state, block[..]);
      out := BytesOf(state);
    }
  }

  method BytesOf(state: State) returns (out: bytes)
    ensures out == StateBytes(state)
  {
    hide StateBytes, BigEndian;
    out := [];
    for i := 0 to |state|
      invariant out + StateBytes(state[i..]) == StateBytes(state)
    {
      NextWord(state, i);
      assert (out + BigEndian(state[i], 4)) + StateBytes(state[i + 1..]) == out + StateBytes(state[i..]);
      out := out + BigEndian(state[i], 4);
    }
    NoWords(state);
    assert out + [] == out;
  }

  lemma ZerosStart(m: nat, n: nat)
    requires m <= n
    ensures Repeated(0, n)[..m] == Repeated(0, m)
  {
  }

  lemma FoldedNone(compress: Compression, state: State)
    ensures Folded(compress, state, []) == state
  {
  }

  lemma NextWord(state: seq<word>, i: nat)
    requires i < |state|
    ensures StateBytes(state[i..]) == BigEndian(state[i], 4) + StateBytes(state[i + 1..])
  {
    assert state[i..][1..] == state[i + 1..];
  }

  lemma NoWords(state: seq<word>)
    ensures StateBytes(state[|state|..]) == []
  {
  }

  lemma LengthAdds(n: nat, k: nat)
    ensures (n % (U64_MAX + 1) + k) % (U64_MAX + 1) == (n + k) % (U64_MAX + 1)
  {
  }

  lemma StillFilling(before: bytes, piece: bytes)
    requires |before| % BLOCK + |piece| < BLOCK
    ensures Full(before + piece) == Full(before) && Rest(before + piece) == Rest(before) + piece
  {
    assert |before + piece| % BLOCK == |before| % BLOCK + |piece|;
  }

  lemma OneBlockMore(compress: Compression, before: bytes, piece: bytes)
    requires |before| % BLOCK + |piece| == BLOCK
    ensures |before + piece| % BLOCK == 0 && |Full(before)| % BLOCK == 0 && |Rest(before) + piece| == BLOCK
    ensures Folded(compress, INITIAL, before + piece)
         == compress(Folded(compress, INITIAL, Full(before)), Rest(before) + piece)
  {
    hide Folded;
    assert before + piece == Full(before) + (Rest(before) + piece);
    FoldedInTwo(compress, INITIAL, Full(before), Rest(before) + piece);
    FoldedOne(compress, Folded(compress, INITIAL, Full(before)), Rest(before) + piece);
  }

  lemma WholeBlocks(done: bytes, s: bytes)
    requires |done| % BLOCK == 0
    ensures |done + s| % BLOCK == |s| % BLOCK
    ensures Full(done + s) == done + s[..|s| - |s| % BLOCK]
    ensures Rest(done + s) == s[|s| - |s| % BLOCK..]
  {
    assert |done + s| % BLOCK == |s| % BLOCK;
  }

  // The length in bits that 64 bits hold is the one that the padding writes.
  lemma SameLength(n: nat)
    ensures BigEndian(n % (U64_MAX + 1) * 8 % (U64_MAX + 1), 8) == BigEndian(8 * n, 8)
  {
    hide BigEndian;
    var word := U64_MAX + 1;
    assert n == n % word + n / word * word;
    assert 8 * n == n % word * 8 + 8 * (n / word) * word;
    WrappedTwice(n % word * 8, 8 * (n / word));
    Pow256Values();
    BigEndianWraps(8 * n, 8);
    BigEndianWraps(n % word * 8, 8);
  }

  lemma WrappedTwice(a: nat, k: nat)
    ensures (a + k * (U64_MAX + 1)) % (U64_MAX + 1) == a % (U64_MAX + 1)
  {
  }

  lemma {:induction false} BigEndianWraps(n: nat, width: nat)
    ensures BigEndian(n % Pow256(width), width) == BigEndian(n, width)
    decreases width
  {
    if width > 0 {
      var p := Pow256(width - 1);
      BigEndianWraps(n / 256, width - 1);
      BigEndianWraps(n % (256 * p) / 256, width - 1);
      LowAndHigh(n, p);
    }
  }

  lemma LowAndHigh(n: nat, p: nat)
    requires p > 0
    ensures n % (256 * p) % 256 == n % 256
    ensures n % (256 * p) / 256 % p == n / 256 % p
  {
    var q, r := n / (256 * p), n % (256 * p);
    assert n == q * (256 * p) + r == 256 * (q * p) + r;
    assert n / 256 == q * p + r / 256;
    MultipleAdded(r / 256, q, p);
  }

  // The padding after a block that leaves room for the length.
  lemma OneBlock(compress: Compression, message: bytes, last: bytes)
    requires |Rest(message)| < 56 && |Full(message)| % BLOCK == 0
    requires last == Rest(message) + [0x80] + Repeated(0, 55 - |Rest(message)|) + BigEndian(8 * |message|, 8)
    ensures |last| == BLOCK
    ensures Hash(compress, message) == StateBytes(compress(Folded(compress, INITIAL, Full(message)), last))
  {
    hide Folded, StateBytes, BigEndian;
    assert ZerosAfter(|message|) == 55 - |Rest(message)|;
    assert Padded(message) == Full(message) + last;
    FoldedInTwo(compress, INITIAL, Full(message), last);
    FoldedOne(compress, Folded(compress, INITIAL, Full(message)), last);
  }

  // The padding after one that does not.
  lemma TwoBlocks(compress: Compression, message: bytes, first: bytes, last: bytes)
    requires |Rest(message)| >= 56 && |Full(message)| % BLOCK == 0
    requires first == Rest(message) + [0x80] + Repeated(0, 63 - |Rest(message)|)
    requires last == Repeated(0, 56) + BigEndian(8 * |message|, 8)
    ensures |first| == |last| == BLOCK
    ensures Hash(compress, message)
         == StateBytes(compress(compress(Folded(compress, INITIAL, Full(message)), first), last))
  {
    hide Folded, StateBytes, BigEndian;
    assert ZerosAfter(|message|) == 119 - |Rest(message)|;
    assert Repeated(0, ZerosAfter(|message|)) == Repeated(0, 63 - |Rest(message)|) + Repeated(0, 56);
    assert Padded(message) == Full(message) + (first + last);
    var state := Folded(compress, INITIAL, Full(message));
    FoldedInTwo(compress, INITIAL, Full(message), first + last);
    FoldedInTwo(compress, state, first, last);
    FoldedOne(compress, state, first);
    FoldedOne(compress, compress(state, first), last);
  }

  // ---- The constants and the order of bytes ----

  // The first primes, and the whole parts of their square roots.
  const PRIMES: seq<nat> := [2, 3, 5, 7, 11, 13, 17, 19]
  const ROOTS: seq<nat> := [1, 1, 2, 2, 3, 3, 4, 4]

  // Each word of the initial value is the first 32 bits after the point of the square root of its
  // prime, section 5.3.3 of FIPS 180-4.
  lemma InitialIsOfRoots(i: nat)
    requires i < 8
    ensures
      var root := ROOTS[i] * 0x1_0000_0000 + INITIAL[i];
      root * root <= PRIMES[i] * 0x1_0000_0000_0000_0000 < (root + 1) * (root + 1)
  {
  }

  // The bytes of a state are those of its words in turn, the highest of each first.
  lemma {:induction false} StateByteAt(state: seq<word>, i: nat, j: nat)
    requires i < |state| && j < 4
    ensures StateBytes(state)[4 * i + j] == state[i] / Pow256(3 - j) % 256
  {
    hide BigEndian, Pow256;
    if i == 0 {
      BigEndianAt(state[0], 4, j);
    } else {
      StateByteAt(state[1..], i - 1, j);
    }
  }
}
