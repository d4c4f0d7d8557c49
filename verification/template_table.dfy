/** The table of steps that follows a template's text, its stored form and its fingerprint. */
module Tables {
  import opened Bits
  import opened ByteOrders
  import opened Bytes
  import opened Layouts

  const MAX_STEPS: nat := 96
  const STEP_LEN: nat := 8

  // One step of a walk: `len` bytes to copy, a hole or none, `name` bytes to pass over, and the
  // sections that it ends as bits.
  datatype Step = Step(len: nat, hole: byte, name: byte, ends: byte)

  const EMPTY_STEP: Step := Step(0, NO_HOLE, 0, 0)

  function EncodeStep(s: Step): (b: bytes)
    ensures |b| == STEP_LEN
  {
    LittleEndian(s.len, 4) + [s.hole, s.name, s.ends, 0]
  }

  function DecodeStep(b: bytes): Step
    requires |b| == STEP_LEN
  {
    Step(FromLittleEndian(b[..4]), b[4], b[5], b[6])
  }

  lemma StepReadsBack(s: Step)
    requires s.len < U32_LIMIT
    ensures DecodeStep(EncodeStep(s)) == s && EncodeStep(s)[7] == 0
  {
    Pow256Values();
    LittleEndianReadsBack(s.len, 4);
    assert EncodeStep(s)[..4] == LittleEndian(s.len, 4);
  }

  function EncodeSteps(steps: seq<Step>): (b: bytes)
    ensures |b| == STEP_LEN * |steps|
  {
    if steps == [] then [] else EncodeStep(steps[0]) + EncodeSteps(steps[1..])
  }

  function DecodeSteps(b: bytes): (steps: seq<Step>)
    ensures |steps| == |b| / STEP_LEN
  {
    if |b| < STEP_LEN then [] else [DecodeStep(b[..STEP_LEN])] + DecodeSteps(b[STEP_LEN..])
  }

  lemma {:induction false} StepsReadBack(steps: seq<Step>)
    requires forall i :: 0 <= i < |steps| ==> steps[i].len < U32_LIMIT
    ensures DecodeSteps(EncodeSteps(steps)) == steps
  {
    if steps != [] {
      StepReadsBack(steps[0]);
      StepsReadBack(steps[1..]);
      var b := EncodeSteps(steps);
      assert b[..STEP_LEN] == EncodeStep(steps[0]) && b[STEP_LEN..] == EncodeSteps(steps[1..]);
    }
  }

  // `ends` with the bit of `section`, and whether it has that bit.
  function BitOf(section: nat): (b: byte)
    requires section < SECTIONS
    ensures b > 0
  {
    [1, 2, 4, 8, 16, 32][section]
  }

  predicate HasBit(ends: byte, section: nat)
    requires section < SECTIONS
  {
    ends / BitOf(section) % 2 == 1
  }

  function WithBit(ends: byte, section: nat): (b: byte)
    requires section < SECTIONS
  {
    if HasBit(ends, section) then ends else (ends + BitOf(section)) % 256
  }

  lemma OneBit(section: nat)
    requires section < SECTIONS
    ensures WithBit(0, section) == BitOf(section)
    ensures forall i :: 0 <= i < SECTIONS ==> (HasBit(BitOf(section), i) <==> i == section)
  {
    forall i | 0 <= i < SECTIONS ensures HasBit(BitOf(section), i) <==> i == section {
      if section == 0 {} else if section == 1 {} else if section == 2 {} else if section == 3 {} else if section == 4 {}
    }
  }

  function Sum(counts: seq<nat>): nat {
    if counts == [] then 0 else Sum(counts[..|counts| - 1]) + counts[|counts| - 1]
  }

  lemma {:induction false} SumOfPrefix(counts: seq<nat>, n: nat)
    requires n <= |counts|
    ensures Sum(counts[..n]) <= Sum(counts)
  {
    if n == |counts| {
      assert counts[..n] == counts;
    } else {
      SumOfPrefix(counts[..|counts| - 1], n);
      assert counts[..|counts| - 1][..n] == counts[..n];
    }
  }

  lemma {:induction false} SumOfZeros(counts: seq<nat>, k: nat)
    requires k <= |counts| && forall i :: k <= i < |counts| ==> counts[i] == 0
    ensures Sum(counts[..k]) == Sum(counts)
  {
    if k == |counts| {
      assert counts[..k] == counts;
    } else {
      SumOfZeros(counts[..|counts| - 1], k);
      assert counts[..|counts| - 1][..k] == counts[..k];
    }
  }

  datatype Table = Table(
    start: nat, counts: seq<byte>, total: byte, params: byte, end: nat, urlFixed: nat,
    fieldsStep: byte, fieldsOffset: nat, body: bool, fingerprint: nat)
  {
    // The ranges of the fields' types.
    predicate Typed() {
      && start < U32_LIMIT && end < U32_LIMIT && urlFixed < U32_LIMIT && fieldsOffset < U32_LIMIT
      && |counts| == SECTIONS && fingerprint <= U64_MAX
    }

    // What `load` checks of a table, beside the byte that holds `body`.
    predicate Loadable() {
      && Sum(counts) == total <= MAX_STEPS
      && end == start + STEP_LEN * total
      && fieldsStep <= total
    }

    // How many steps come before those of `section`.
    function StepsBefore(section: nat): (n: nat)
      requires section <= |counts|
    {
      Sum(counts[..section])
    }
  }

  // ---- The stored form ----

  const STORED_LEN: nat := 34

  function Stored(t: Table): (b: bytes)
    requires t.Typed()
    ensures |b| == STORED_LEN
  {
    LittleEndian(t.start, 4) + t.counts + [t.total, t.params] + LittleEndian(t.end, 4)
    + LittleEndian(t.urlFixed, 4) + [t.fieldsStep] + LittleEndian(t.fieldsOffset, 4)
    + [if t.body then 1 else 0] + LittleEndian(t.fingerprint, 8)
  }

  // Where the values stand, the numbers from their lowest byte.
  lemma StoredPlaces(t: Table, i: nat)
    requires t.Typed()
    ensures
      var b := Stored(t);
      && b[4..10] == t.counts && b[10] == t.total && b[11] == t.params && b[20] == t.fieldsStep
      && b[25] == (if t.body then 1 else 0)
      && (i < 4 ==> b[i] == t.start / Pow256(i) % 256 && b[12 + i] == t.end / Pow256(i) % 256)
      && (i < 4 ==> b[16 + i] == t.urlFixed / Pow256(i) % 256 && b[21 + i] == t.fieldsOffset / Pow256(i) % 256)
      && (i < 8 ==> b[26 + i] == t.fingerprint / Pow256(i) % 256)
  {
    hide LittleEndian, Pow256;
    if i < 8 {
      LittleEndianAt(t.fingerprint, 8, i);
      if i < 4 {
        LittleEndianAt(t.start, 4, i);
        LittleEndianAt(t.end, 4, i);
        LittleEndianAt(t.urlFixed, 4, i);
        LittleEndianAt(t.fieldsOffset, 4, i);
      }
    }
  }

  // Writes values one after another, and counts those that do not fit.
  class StoredWriter {
    const buffer: array<byte>
    var at: nat
    ghost var stored: bytes

    ghost predicate Valid()
      reads this, buffer
    {
      at == |stored| && (at <= buffer.Length ==> buffer[..at] == stored)
    }

    constructor (buffer: array<byte>)
      ensures Valid() && this.buffer == buffer && stored == []
    {
      this.buffer, at, stored := buffer, 0, [];
    }

    method Put(part: bytes)
      requires Valid()
      modifies this, buffer
      ensures Valid() && stored == old(stored) + part
    {
      if at + |part| <= buffer.Length {
        forall i | 0 <= i < |part| {
          buffer[at + i] := part[i];
        }
        assert buffer[..at + |part|] == stored + part;
      }
      at := at + |part|;
      stored := stored + part;
    }
  }

  method Store(t: Table, into: StoredWriter)
    requires into.Valid() && t.Typed()
    modifies into, into.buffer
    ensures into.Valid() && into.stored == old(into.stored) + Stored(t)
  {
    hide LittleEndian;
    into.Put(LittleEndian(t.start, 4));
    into.Put(t.counts);
    into.Put([t.total, t.params]);
    into.Put(LittleEndian(t.end, 4));
    into.Put(LittleEndian(t.urlFixed, 4));
    into.Put([t.fieldsStep]);
    into.Put(LittleEndian(t.fieldsOffset, 4));
    into.Put([if t.body then 1 else 0]);
    into.Put(LittleEndian(t.fingerprint, 8));
  }

  // Reads values back one after another, and zeros past the end.
  class StoredReader {
    const stored: bytes
    var at: nat

    constructor (stored: bytes)
      ensures this.stored == stored && at == 0
    {
      this.stored, at := stored, 0;
    }

    method Take(n: nat) returns (part: bytes)
      modifies this`at
      ensures at == old(at) + n && part == TakenAt(stored, old(at), n)
    {
      part := if at + n <= |stored| then stored[at..at + n] else Repeated(0, n);
      at := at + n;
    }
  }

  function TakenAt(stored: bytes, at: nat, n: nat): (part: bytes)
    ensures |part| == n
  {
    if at + n <= |stored| then stored[at..at + n] else Repeated(0, n)
  }

  // Reads the fields from `at` on, and refuses values that `Loadable` excludes.
  function Loaded(stored: bytes, at: nat): (t: Option<Table>)
    ensures t.Some? ==> t.value.Typed() && t.value.Loadable()
  {
    FromLittleEndianBound(TakenAt(stored, at, 4));
    FromLittleEndianBound(TakenAt(stored, at + 12, 4));
    FromLittleEndianBound(TakenAt(stored, at + 16, 4));
    FromLittleEndianBound(TakenAt(stored, at + 21, 4));
    FromLittleEndianBound(TakenAt(stored, at + 26, 8));
    Pow256Values();
    var body := TakenAt(stored, at + 25, 1)[0];
    var t := Table(
      FromLittleEndian(TakenAt(stored, at, 4)), TakenAt(stored, at + 4, 6),
      TakenAt(stored, at + 10, 2)[0], TakenAt(stored, at + 10, 2)[1],
      FromLittleEndian(TakenAt(stored, at + 12, 4)), FromLittleEndian(TakenAt(stored, at + 16, 4)),
      TakenAt(stored, at + 20, 1)[0], FromLittleEndian(TakenAt(stored, at + 21, 4)),
      body == 1, FromLittleEndian(TakenAt(stored, at + 26, 8)));
    if body <= 1 && t.Loadable() then Some(t) else None
  }

  method StepsOf(counts: seq<byte>) returns (steps: nat)
    ensures steps == Sum(counts)
  {
    steps := 0;
    for i := 0 to |counts|
      invariant steps == Sum(counts[..i])
    {
      assert counts[..i + 1][..i] == counts[..i];
      steps := steps + counts[i];
    }
    assert counts[..|counts|] == counts;
  }

  method Load(from: StoredReader) returns (t: Option<Table>)
    modifies from`at
    ensures t == Loaded(from.stored, old(from.at))
  {
    hide FromLittleEndian, Sum, TakenAt;
    var b0 := from.Take(4);
    var start := FromLittleEndian(b0);
    var counts := from.Take(6);
    var b1 := from.Take(2);
    var total, params := b1[0], b1[1];
    var b2 := from.Take(4);
    var end := FromLittleEndian(b2);
    var b3 := from.Take(4);
    var urlFixed := FromLittleEndian(b3);
    var b4 := from.Take(1);
    var fieldsStep := b4[0];
    var b5 := from.Take(4);
    var fieldsOffset := FromLittleEndian(b5);
    var b6 := from.Take(1);
    if b6[0] > 1 { return None; }
    var body := b6[0] == 1;
    var b7 := from.Take(8);
    var fingerprint := FromLittleEndian(b7);
    var steps := StepsOf(counts);
    if steps != total || steps > MAX_STEPS || end < start || fieldsStep > total {
      return None;
    }
    if end - start != total as int * STEP_LEN { return None; }
    return Some(Table(start, counts, total, params, end, urlFixed, fieldsStep, fieldsOffset, body, fingerprint));
  }

  // A table that `store` wrote reads back as itself exactly when `load` takes its values.
  lemma StoringReadsBack(t: Table, rest: bytes)
    requires t.Typed()
    ensures Loaded(Stored(t) + rest, 0) == if t.Loadable() then Some(t) else None
  {
    var b := Stored(t) + rest;
    Pow256Values();
    LittleEndianReadsBack(t.start, 4);
    LittleEndianReadsBack(t.end, 4);
    LittleEndianReadsBack(t.urlFixed, 4);
    LittleEndianReadsBack(t.fieldsOffset, 4);
    LittleEndianReadsBack(t.fingerprint, 8);
    assert b[0..4] == LittleEndian(t.start, 4) && b[4..10] == t.counts;
    assert b[12..16] == LittleEndian(t.end, 4) && b[16..20] == LittleEndian(t.urlFixed, 4);
    assert b[21..25] == LittleEndian(t.fieldsOffset, 4) && b[26..34] == LittleEndian(t.fingerprint, 8);
  }

  // ---- The fingerprint ----

  const MULTIPLIER: nat := 0x9E37_79B9_7F4A_7C15
  const SEED: nat := 0x243F_6A88_85A3_08D3

  function Multiplied(x: nat): nat { x * MULTIPLIER % WORD }

  function RotatedLeft23(x: nat): nat { x * 0x80_0000 % WORD + x / 0x200_0000_0000 }

  // One word of the template taken into its fingerprint.
  function Mixed(fingerprint: nat, word: nat): nat {
    RotatedLeft23(Multiplied(Xor(fingerprint, word)))
  }

  function MixedAll(fingerprint: nat, words: seq<nat>): nat
    decreases |words|
  {
    if words == [] then fingerprint else MixedAll(Mixed(fingerprint, words[0]), words[1..])
  }

  // The little-endian words of `b`, the last one short and filled with zeros.
  function Words(b: bytes): (w: seq<nat>)
    ensures |w| == |b| / 8 + 1
  {
    if |b| < 8 then [FromLittleEndian(b + Repeated(0, 8 - |b|))]
    else [FromLittleEndian(b[..8])] + Words(b[8..])
  }

  function Fingerprint(b: bytes): nat {
    MixedAll(Xor(SEED, |b| % WORD), Words(b))
  }

  // The multiplier is odd, so it has an inverse modulo a word.
  const INVERSE: nat := 0xF1DE_83E1_9937_733D
  const CARRY: nat := (MULTIPLIER * INVERSE - 1) / WORD

  lemma MultiplyingIsInjective(x: nat, y: nat)
    requires x < WORD && y < WORD && Multiplied(x) == Multiplied(y)
    ensures x == y
  {
    UndoMultiplying(x);
    UndoMultiplying(y);
  }

  lemma UndoMultiplying(x: nat)
    requires x < WORD
    ensures Multiplied(x) * INVERSE % WORD == x
  {
    var c, d := Multiplied(x), x * MULTIPLIER / WORD;
    assert MULTIPLIER * INVERSE == CARRY * WORD + 1;
    assert x * MULTIPLIER == d * WORD + c;
    assert c * INVERSE == x + (x * CARRY - d * INVERSE) * WORD;
    RemainderOf(x, x * CARRY - d * INVERSE, c * INVERSE);
  }

  lemma RemainderOf(r: nat, q: int, n: int)
    requires r < WORD && n == r + q * WORD
    ensures n % WORD == r
  {
  }

  lemma RotatingIsInjective(x: nat, y: nat)
    requires x < WORD && y < WORD && RotatedLeft23(x) == RotatedLeft23(y)
    ensures x == y
  {
    RotatedParts(x);
    RotatedParts(y);
  }

  lemma RotatedParts(x: nat)
    requires x < WORD
    ensures RotatedLeft23(x) == x % 0x200_0000_0000 * 0x80_0000 + x / 0x200_0000_0000
    ensures x / 0x200_0000_0000 == RotatedLeft23(x) % 0x80_0000
    ensures x % 0x200_0000_0000 == RotatedLeft23(x) / 0x80_0000
    ensures RotatedLeft23(x) < WORD
  {
    var q, r := x / 0x200_0000_0000, x % 0x200_0000_0000;
    assert x * 0x80_0000 == r * 0x80_0000 + q * WORD;
    RemainderOf(r * 0x80_0000, q, x * 0x80_0000);
  }

  // A mixing step loses nothing: neither of the word nor of what was mixed before it.
  lemma MixingIsInjective(f: nat, g: nat, v: nat, w: nat)
    requires f < WORD && g < WORD && v < WORD && w < WORD
    requires Mixed(f, v) == Mixed(g, w)
    ensures Mixed(f, v) < WORD && (f == g <==> v == w)
  {
    Pow2Word();
    XorBound(f, v, 64);
    XorBound(g, w, 64);
    RotatedParts(Multiplied(Xor(f, v)));
    RotatingIsInjective(Multiplied(Xor(f, v)), Multiplied(Xor(g, w)));
    MultiplyingIsInjective(Xor(f, v), Xor(g, w));
    XorCancels(f, v);
    XorCancels(g, w);
    XorCommutes(f, v);
    XorCommutes(g, w);
    XorCancels(v, f);
    XorCancels(w, g);
  }

  lemma MixedBound(f: nat, w: nat)
    ensures Mixed(f, w) < WORD
  {
    RotatedParts(Multiplied(Xor(f, w)));
  }

  lemma {:induction false} MixingAllIsInjective(f: nat, g: nat, words: seq<nat>)
    requires f < WORD && g < WORD && f != g && forall i :: 0 <= i < |words| ==> words[i] < WORD
    ensures MixedAll(f, words) != MixedAll(g, words)
    decreases |words|
  {
    if words != [] {
      if Mixed(f, words[0]) == Mixed(g, words[0]) {
        MixingIsInjective(f, g, words[0], words[0]);
      }
      MixedBound(f, words[0]);
      MixedBound(g, words[0]);
      MixingAllIsInjective(Mixed(f, words[0]), Mixed(g, words[0]), words[1..]);
    }
  }

  lemma {:induction false} OneWordChanges(f: nat, v: seq<nat>, w: seq<nat>, k: nat)
    requires f < WORD && |v| == |w| && k < |v| && v[k] != w[k]
    requires forall i :: 0 <= i < |v| ==> v[i] < WORD && w[i] < WORD && (i != k ==> v[i] == w[i])
    ensures MixedAll(f, v) != MixedAll(f, w)
    decreases |v|
  {
    MixedBound(f, v[0]);
    MixedBound(f, w[0]);
    if k == 0 {
      assert v[1..] == w[1..];
      if Mixed(f, v[0]) == Mixed(f, w[0]) {
        MixingIsInjective(f, f, v[0], w[0]);
      }
      MixingAllIsInjective(Mixed(f, v[0]), Mixed(f, w[0]), v[1..]);
    } else {
      OneWordChanges(Mixed(f, v[0]), v[1..], w[1..], k - 1);
    }
  }

  // The bytes of the word `i` of `b`, filled with zeros.
  function WordBytes(b: bytes, i: nat): (w: bytes)
    requires i <= |b| / 8
    ensures |w| == 8
  {
    if 8 * i + 8 <= |b| then b[8 * i..8 * i + 8] else b[8 * i..] + Repeated(0, 8 * i + 8 - |b|)
  }

  lemma {:induction false} WordOf(b: bytes, i: nat)
    requires i <= |b| / 8
    ensures Words(b)[i] == FromLittleEndian(WordBytes(b, i)) < WORD
  {
    FromLittleEndianBound(WordBytes(b, i));
    Pow256Values();
    if i > 0 {
      WordOf(b[8..], i - 1);
      assert WordBytes(b[8..], i - 1) == WordBytes(b, i);
    } else if |b| < 8 {
      assert b[0..] == b;
    }
  }

  // Where two texts differ within the word `k` alone, so do their words.
  lemma WordsDiffer(a: bytes, b: bytes, i: nat, j: nat)
    requires |a| == |b| && i < |a| && a[i] != b[i] && j <= |a| / 8
    requires forall l :: 0 <= l < |a| && l / 8 != i / 8 ==> a[l] == b[l]
    ensures Words(a)[j] < WORD && Words(b)[j] < WORD
    ensures Words(a)[j] == Words(b)[j] <==> j != i / 8
  {
    hide Words, FromLittleEndian;
    WordOf(a, j);
    WordOf(b, j);
    var u, v := WordBytes(a, j), WordBytes(b, j);
    if j != i / 8 {
      assert forall l :: 8 * j <= l < 8 * j + 8 ==> l / 8 == j;
      assert u == v;
    } else {
      assert u[i - 8 * j] == a[i] && v[i - 8 * j] == b[i];
      if FromLittleEndian(u) == FromLittleEndian(v) {
        FromLittleEndianIsInjective(u, v);
      }
    }
  }

  // Any change within one aligned word of a template changes its fingerprint.
  lemma OneWordChangesFingerprint(a: bytes, b: bytes, k: nat)
    requires |a| == |b| && a != b
    requires forall i :: 0 <= i < |a| && i / 8 != k ==> a[i] == b[i]
    ensures Fingerprint(a) != Fingerprint(b)
  {
    hide Words, MixedAll, Xor;
    var i :| 0 <= i < |a| && a[i] != b[i];
    forall j | 0 <= j <= |a| / 8
      ensures Words(a)[j] < WORD && Words(b)[j] < WORD && (Words(a)[j] == Words(b)[j] <==> j != k)
    {
      WordsDiffer(a, b, i, j);
    }
    Pow2Word();
    XorBound(SEED, |a| % WORD, 64);
    OneWordChanges(Xor(SEED, |a| % WORD), Words(a), Words(b), k);
  }

  // Zeros that fill up the last word change it as well: the seed holds the length.
  lemma ZerosChangeFingerprint(a: bytes, n: nat)
    requires 1 <= n < 8 - |a| % 8 && |a| + n < WORD
    ensures Fingerprint(a + Repeated(0, n)) != Fingerprint(a)
  {
    hide Words, MixedAll, Xor, Fingerprint;
    var b := a + Repeated(0, n);
    FilledWords(a, n);
    SeedsDiffer(|a|, |b|);
    ShortFingerprint(a);
    ShortFingerprint(b);
    MixingAllIsInjective(Xor(SEED, |a|), Xor(SEED, |b|), Words(a));
  }

  lemma ShortFingerprint(b: bytes)
    requires |b| < WORD
    ensures Fingerprint(b) == MixedAll(Xor(SEED, |b|), Words(b))
  {
    hide Words, MixedAll, Xor;
  }

  lemma FilledWords(a: bytes, n: nat)
    requires n < 8 - |a| % 8
    ensures Words(a + Repeated(0, n)) == Words(a)
    ensures forall j :: 0 <= j < |Words(a)| ==> Words(a)[j] < WORD
  {
    hide Words, FromLittleEndian;
    var b := a + Repeated(0, n);
    forall j | 0 <= j <= |a| / 8
      ensures Words(a)[j] == Words(b)[j] < WORD
    {
      WordOf(a, j);
      WordOf(b, j);
      assert WordBytes(a, j) == WordBytes(b, j);
    }
  }

  lemma SeedsDiffer(m: nat, n: nat)
    requires m != n && m < WORD && n < WORD
    ensures Xor(SEED, m) != Xor(SEED, n) && Xor(SEED, m) < WORD && Xor(SEED, n) < WORD
  {
    hide Xor;
    Pow2Word();
    XorBound(SEED, m, 64);
    XorBound(SEED, n, 64);
    XorCommutes(SEED, m);
    XorCommutes(SEED, n);
    XorCancels(m, SEED);
    XorCancels(n, SEED);
  }

  lemma EmptyFingerprint()
    ensures Fingerprint([]) == 0xF514_51F6_A7FB_F13D
  {
    hide Xor, Words, Multiplied, RotatedLeft23, MixedAll, SEED;
    XorZero(SEED);
    NoWords();
    OneMixed(SEED, 0);
    SeedMixed();
  }

  lemma OneMixed(fingerprint: nat, word: nat)
    ensures MixedAll(fingerprint, [word]) == Mixed(fingerprint, word)
  {
    hide Mixed;
  }

  lemma SeedMixed()
    ensures RotatedLeft23(Multiplied(SEED)) == 0xF514_51F6_A7FB_F13D
  {
    hide *;
    SeedMultiplied();
    SeedRotated();
  }

  lemma SeedMultiplied()
    ensures Multiplied(SEED) == 0xF7E2_7BEA_28A3_ED4F
  {
  }

  lemma SeedRotated()
    ensures RotatedLeft23(0xF7E2_7BEA_28A3_ED4F) == 0xF514_51F6_A7FB_F13D
  {
  }

  lemma NoWords()
    ensures Words([]) == [0]
  {
    hide FromLittleEndian;
    var zeros := [0, 0, 0, 0, 0, 0, 0, 0];
    assert [] + Repeated(0, 8) == zeros;
    ZeroIsRead();
  }

  lemma ZeroIsRead()
    ensures FromLittleEndian([0, 0, 0, 0, 0, 0, 0, 0]) == 0
  {
  }

  // ---- A template's bytes, read through its table ----

  // The steps and the text that a table finds in a template's bytes.
  datatype Parts = Parts(steps: seq<Step>, text: bytes)

  const NO_PARTS: Parts := Parts([], [])

  function PartsIn(t: Table, template: bytes): (p: Option<Parts>)
    ensures p.Some? ==> |p.value.steps| == t.total && |p.value.text| <= |template|
  {
    if !(t.start <= t.end <= |template|) then None
    else
      var table := template[t.start..t.end];
      if |table| % STEP_LEN != 0 || |table| / STEP_LEN != t.total then None
      else Some(Parts(DecodeSteps(table), template[..t.start]))
  }

  // Whether `template` holds the bytes that the table sealed.
  predicate Checks(t: Table, template: bytes) {
    t.end <= |template| && Fingerprint(template[..t.end]) == t.fingerprint
  }

  // `check` refuses a template of which one aligned word was changed.
  lemma CheckCatchesOneWord(t: Table, template: bytes, changed: bytes, k: nat)
    requires Checks(t, template) && t.end <= |changed|
    requires template[..t.end] != changed[..t.end]
    requires forall i :: 0 <= i < t.end && i / 8 != k ==> template[i] == changed[i]
    ensures !Checks(t, changed)
  {
    OneWordChangesFingerprint(template[..t.end], changed[..t.end], k);
  }

  // A table that was loaded has at most 96 steps, those of its sections, and finds them in every
  // template that is long enough.
  lemma LoadedTableFits(stored: bytes, at: nat, template: bytes)
    requires Loaded(stored, at).Some? && Loaded(stored, at).value.end <= |template|
    ensures
      var t := Loaded(stored, at).value;
      && PartsIn(t, template).Some? && |PartsIn(t, template).value.steps| == Sum(t.counts) <= 96
      && t.fieldsStep <= t.total && |t.counts| == SECTIONS
  {
    hide Loaded, Sum, DecodeSteps;
    LoadedIsLoadable(stored, at);
  }

  lemma LoadedIsLoadable(stored: bytes, at: nat)
    ensures Loaded(stored, at).Some? ==> Loaded(stored, at).value.Typed() && Loaded(stored, at).value.Loadable()
  {
  }
}
