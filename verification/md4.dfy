/** MD4: the padding, and the rotating registers against the named registers of RFC 1320. */
module Md4Digest {
  type Byte = n: nat | n < 256

  const BLOCK_BYTES := 64
  const LENGTH_BYTES := 8

  datatype Registers<W> = Registers(a: W, b: W, c: W, d: W)

  const INITIAL: Registers<bv32> := Registers(0x6745_2301, 0xefcd_ab89, 0x98ba_dcfe, 0x1032_5476)

  /** The `k` and `s` of one operation: a word of the block, and a rotation. */
  datatype Step = Step(index: nat, turn: nat)

  predicate IsSchedule(steps: seq<Step>) {
    |steps| == 16 && forall i | 0 <= i < 16 :: steps[i].index < 16 && steps[i].turn < 32
  }

  datatype Round = Round(schedule: seq<Step>, mix: (bv32, bv32, bv32) -> bv32, added: bv32)

  function ScheduleOf(words: seq<nat>, shifts: seq<nat>): (steps: seq<Step>)
    requires |words| == 16 && |shifts| == 4
    ensures |steps| == 16
  {
    seq(16, i requires 0 <= i < 16 => Step(words[i], shifts[i % 4]))
  }

  const ROUND_ONE := ScheduleOf([0, 1, 2, 3, 4, 5, 6, 7, 8, 9, 10, 11, 12, 13, 14, 15], [3, 7, 11, 19])
  const ROUND_TWO := ScheduleOf([0, 4, 8, 12, 1, 5, 9, 13, 2, 6, 10, 14, 3, 7, 11, 15], [3, 5, 9, 13])
  const ROUND_THREE := ScheduleOf([0, 8, 4, 12, 2, 10, 6, 14, 1, 9, 5, 13, 3, 11, 7, 15], [3, 9, 11, 15])

  const ROUNDS: seq<Round> := [
    Round(ROUND_ONE, (x: bv32, y: bv32, z: bv32) => (x & y) | (!x & z), 0),
    Round(ROUND_TWO, (x: bv32, y: bv32, z: bv32) => (x & y) | (x & z) | (y & z), 0x5a82_7999),
    Round(ROUND_THREE, (x: bv32, y: bv32, z: bv32) => x ^ y ^ z, 0x6ed9_eba1)
  ]

  function Rotate(value: bv32, turn: nat): bv32
    requires turn <= 32
  {
    (value << turn) | (value >> (32 - turn))
  }

  /** The value one operation gives the register it names first. */
  function Operation(a: bv32, b: bv32, c: bv32, d: bv32, word: bv32, turn: nat, spec: Round): bv32 {
    if turn <= 32 then Rotate(a + spec.mix(b, c, d) + word + spec.added, turn) else 0
  }

  // ---------- the registers by name ----------

  type Phase = n: nat | n < 4

  function PhaseOf(i: nat): Phase {
    i % 4
  }

  function NextPhase(phase: Phase): Phase {
    if phase == 3 then 0 else phase + 1
  }

  /** One operation in the notation of section 3.4 of RFC 1320: [ABCD k s], [DABC k s], [CDAB k s], [BCDA k s]. */
  function NamedAt<W>(r: Registers<W>, phase: Phase, operation: (W, W, W, W) -> W): Registers<W> {
    match phase
    case 0 => r.(a := operation(r.a, r.b, r.c, r.d))
    case 1 => r.(d := operation(r.d, r.a, r.b, r.c))
    case 2 => r.(c := operation(r.c, r.d, r.a, r.b))
    case _ => r.(b := operation(r.b, r.c, r.d, r.a))
  }

  /** What operation `i` of a round makes of the register it names first. */
  function OperationAt(i: nat, words: seq<bv32>, spec: Round): (bv32, bv32, bv32, bv32) -> bv32
    requires i < |spec.schedule| && spec.schedule[i].index < |words|
  {
    var word, turn := words[spec.schedule[i].index], spec.schedule[i].turn;
    (a: bv32, b: bv32, c: bv32, d: bv32) => Operation(a, b, c, d, word, turn, spec)
  }

  /** Operation `i` of a round, the four forms taken in turn. */
  function Named(r: Registers<bv32>, i: nat, words: seq<bv32>, spec: Round): Registers<bv32>
    requires i < |spec.schedule| && spec.schedule[i].index < |words|
  {
    NamedAt(r, PhaseOf(i), OperationAt(i, words, spec))
  }

  predicate Suits(words: seq<bv32>, spec: Round) {
    |words| == 16 && IsSchedule(spec.schedule)
  }

  function NamedSteps(r: Registers<bv32>, n: nat, words: seq<bv32>, spec: Round): Registers<bv32>
    requires Suits(words, spec) && n <= 16
  {
    if n == 0 then r else Named(NamedSteps(r, n - 1, words, spec), n - 1, words, spec)
  }

  function NamedRounds(r: Registers<bv32>, n: nat, words: seq<bv32>): Registers<bv32>
    requires |words| == 16 && n <= 3
  {
    if n == 0 then r
    else
      SchedulesSuit(words);
      NamedSteps(NamedRounds(r, n - 1, words), 16, words, ROUNDS[n - 1])
  }

  lemma SchedulesSuit(words: seq<bv32>)
    requires |words| == 16
    ensures Suits(words, ROUNDS[0]) && Suits(words, ROUNDS[1]) && Suits(words, ROUNDS[2])
  {
  }

  function Plus(r: Registers<bv32>, s: Registers<bv32>): Registers<bv32> {
    Registers(r.a + s.a, r.b + s.b, r.c + s.c, r.d + s.d)
  }

  function NamedCompress(r: Registers<bv32>, words: seq<bv32>): Registers<bv32>
    requires |words| == 16
  {
    Plus(r, NamedRounds(r, 3, words))
  }

  // ---------- the registers as a rotating tuple ----------

  /** The tuple at a phase: the named registers, turned. */
  function Turned<W>(r: Registers<W>, phase: Phase): Registers<W> {
    match phase
    case 0 => r
    case 1 => Registers(r.d, r.a, r.b, r.c)
    case 2 => Registers(r.c, r.d, r.a, r.b)
    case _ => Registers(r.b, r.c, r.d, r.a)
  }

  lemma TurnOnce<W>(r: Registers<W>, phase: Phase, operation: (W, W, W, W) -> W)
    ensures var t := Turned(r, phase);
            Turned(NamedAt(r, phase, operation), NextPhase(phase))
            == Registers(t.d, operation(t.a, t.b, t.c, t.d), t.b, t.c)
  {
  }

  lemma NextTurn(i: nat)
    ensures PhaseOf(i + 1) == NextPhase(PhaseOf(i)) && PhaseOf(0) == 0 && PhaseOf(16) == 0
  {
  }

  /** The loop never names a register; after sixteen turns of the tuple every register is back under its own name. */
  method DoRound(state: Registers<bv32>, words: seq<bv32>, spec: Round) returns (after: Registers<bv32>)
    requires Suits(words, spec)
    ensures after == NamedSteps(state, 16, words, spec)
  {
    hide Operation, NamedAt, PhaseOf;
    NextTurn(0);
    var a, b, c, d := state.a, state.b, state.c, state.d;
    for i := 0 to |spec.schedule|
      invariant Registers(a, b, c, d) == Turned(NamedSteps(state, i, words, spec), PhaseOf(i))
    {
      var step := spec.schedule[i];
      TurnOnce(NamedSteps(state, i, words, spec), PhaseOf(i), OperationAt(i, words, spec));
      NextTurn(i);
      a, b, c, d := d, Operation(a, b, c, d, words[step.index], step.turn, spec), b, c;
    }
    after := Registers(a, b, c, d);
  }

  method Compress(state: Registers<bv32>, words: seq<bv32>) returns (after: Registers<bv32>)
    requires |words| == 16
    ensures after == NamedCompress(state, words)
  {
    hide Suits, NamedSteps;
    SchedulesSuit(words);
    var mixed := state;
    for n := 0 to 3
      invariant mixed == NamedRounds(state, n, words)
    {
      assert Suits(words, ROUNDS[n]);
      mixed := DoRound(mixed, words, ROUNDS[n]);
    }
    after := Plus(state, mixed);
  }

  // ---------- padding ----------

  function Zeroes(n: nat): (bytes: seq<Byte>)
    ensures |bytes| == n
  {
    seq(n, _ => 0)
  }

  /** A number in `n` bytes, least significant first. */
  function LittleEndian(number: nat, n: nat): (bytes: seq<Byte>)
    ensures |bytes| == n
  {
    if n == 0 then [] else [number % 256] + LittleEndian(number / 256, n - 1)
  }

  function FromLittleEndian(bytes: seq<Byte>): nat {
    if bytes == [] then 0 else bytes[0] + 256 * FromLittleEndian(bytes[1..])
  }

  function Power256(n: nat): nat {
    if n == 0 then 1 else 256 * Power256(n - 1)
  }

  lemma {:induction false} ReadsBack(number: nat, n: nat)
    requires number < Power256(n)
    ensures FromLittleEndian(LittleEndian(number, n)) == number
  {
    if n > 0 {
      ReadsBack(number / 256, n - 1);
      assert LittleEndian(number, n)[1..] == LittleEndian(number / 256, n - 1);
    }
  }

  /** The zeroes that bring a message and its marker to eight bytes short of a block: fewer than a block of them. */
  function ZeroCount(length: nat): (n: nat)
    ensures n < BLOCK_BYTES
  {
    var tail := length % BLOCK_BYTES;
    if tail < BLOCK_BYTES - LENGTH_BYTES then 55 - tail else 119 - tail
  }

  function BlockCount(length: nat): (n: nat)
    ensures n > 0
  {
    length / BLOCK_BYTES + if length % BLOCK_BYTES < BLOCK_BYTES - LENGTH_BYTES then 1 else 2
  }

  lemma WholeBlocks(length: nat)
    ensures length + 1 + ZeroCount(length) + LENGTH_BYTES == BlockCount(length) * BLOCK_BYTES
  {
    var q, tail := length / BLOCK_BYTES, length % BLOCK_BYTES;
    assert length == q * BLOCK_BYTES + tail;
  }

  lemma FullBlocksOf(length: nat)
    ensures (length - length % BLOCK_BYTES) / BLOCK_BYTES == length / BLOCK_BYTES
  {
    Exactly(length / BLOCK_BYTES);
    assert length - length % BLOCK_BYTES == length / BLOCK_BYTES * BLOCK_BYTES;
  }

  lemma Exactly(n: nat)
    ensures n * BLOCK_BYTES / BLOCK_BYTES == n && n * BLOCK_BYTES % BLOCK_BYTES == 0
  {
  }

  /** Section 3.1 and 3.2 of RFC 1320. */
  function Padded(data: seq<Byte>): seq<Byte> {
    data + [0x80] + Zeroes(ZeroCount(|data|)) + LittleEndian(8 * |data|, LENGTH_BYTES)
  }

  /** Whole blocks, with the fewest zeroes that make them so. */
  lemma PaddedLength(data: seq<Byte>)
    ensures |Padded(data)| == BlockCount(|data|) * BLOCK_BYTES && |Padded(data)| % BLOCK_BYTES == 0
    ensures |Padded(data)| / BLOCK_BYTES == BlockCount(|data|)
  {
    hide LittleEndian, ZeroCount, BlockCount;
    WholeBlocks(|data|);
    Exactly(BlockCount(|data|));
  }

  /** No two messages pad to the same blocks. */
  lemma PaddingIsInjective(a: seq<Byte>, b: seq<Byte>)
    requires Padded(a) == Padded(b) && 8 * |a| < Power256(LENGTH_BYTES) && 8 * |b| < Power256(LENGTH_BYTES)
    ensures a == b
  {
    hide LittleEndian, FromLittleEndian, Power256, ZeroCount, BlockCount;
    LengthAtEnd(a);
    LengthAtEnd(b);
    ReadsBack(8 * |a|, LENGTH_BYTES);
    ReadsBack(8 * |b|, LENGTH_BYTES);
    assert Padded(a)[..|a|] == a && Padded(b)[..|b|] == b;
  }

  lemma LengthAtEnd(data: seq<Byte>)
    ensures |Padded(data)| >= LENGTH_BYTES
    ensures Padded(data)[|Padded(data)| - LENGTH_BYTES..] == LittleEndian(8 * |data|, LENGTH_BYTES)
  {
  }

  /** A zeroed buffer of whole blocks, the message copied in, the marker and the length written over it. */
  method Pad(data: seq<Byte>) returns (padded: array<Byte>)
    ensures fresh(padded) && padded[..] == Padded(data)
  {
    hide ZeroCount, LittleEndian;
    var tail := |data| % BLOCK_BYTES;
    var blocks := (|data| - tail) / BLOCK_BYTES + if tail < BLOCK_BYTES - LENGTH_BYTES then 1 else 2;
    FullBlocksOf(|data|);
    WholeBlocks(|data|);
    assert blocks == BlockCount(|data|);
    hide BlockCount;
    padded := new Byte[blocks * BLOCK_BYTES](_ => 0);
    for i := 0 to |data|
      invariant padded[..i] == data[..i] && forall j | i <= j < padded.Length :: padded[j] == 0
    {
      padded[i] := data[i];
    }
    padded[|data|] := 0x80;
    var length := LittleEndian(8 * |data|, LENGTH_BYTES);
    var from := padded.Length - LENGTH_BYTES;
    for i := 0 to LENGTH_BYTES
      invariant forall j | 0 <= j < |data| :: padded[j] == data[j]
      invariant padded[|data|] == 0x80
      invariant forall j | |data| < j < from :: padded[j] == 0
      invariant forall j | 0 <= j < i :: padded[from + j] == length[j]
    {
      padded[from + i] := length[i];
    }
  }

  // ---------- the digest ----------

  /** Four bytes as one number, least significant first. */
  function NumberAt(padded: seq<Byte>, at: nat): (number: nat)
    requires at + 4 <= |padded|
    ensures number < 0x1_0000_0000
  {
    var (b0: nat, b1: nat, b2: nat, b3: nat) := (padded[at], padded[at + 1], padded[at + 2], padded[at + 3]);
    b0 + 256 * (b1 + 256 * (b2 + 256 * b3))
  }

  function WordAt(padded: seq<Byte>, at: nat): bv32
    requires at + 4 <= |padded|
  {
    WordOf(NumberAt(padded, at))
  }

  function WordOf(number: nat): bv32
    requires number < 0x1_0000_0000
  {
    number as bv32
  }

  function WordsOf(padded: seq<Byte>, at: nat): (words: seq<bv32>)
    requires at + BLOCK_BYTES <= |padded|
    ensures |words| == 16
  {
    seq(16, i requires 0 <= i < 16 => WordAt(padded, at + i * 4))
  }

  function NamedBlocks(padded: seq<Byte>, n: nat): Registers<bv32>
    requires n * BLOCK_BYTES <= |padded|
  {
    if n == 0 then INITIAL else NamedCompress(NamedBlocks(padded, n - 1), WordsOf(padded, (n - 1) * BLOCK_BYTES))
  }

  function DigestOf(r: Registers<bv32>): seq<Byte> {
    LittleEndian(r.a as nat, 4) + LittleEndian(r.b as nat, 4) + LittleEndian(r.c as nat, 4)
    + LittleEndian(r.d as nat, 4)
  }

  /** The digest of the standard's named registers over the padded message. */
  method Md4(data: seq<Byte>) returns (digest: seq<Byte>)
    ensures digest == DigestOf(NamedBlocks(Padded(data), |Padded(data)| / BLOCK_BYTES))
  {
    hide Padded, NamedCompress, WordsOf, DigestOf, BlockCount;
    var buffer := Pad(data);
    var padded := buffer[..];
    PaddedLength(data);
    var state := INITIAL;
    var at := 0;
    ghost var n := 0;
    while at < |padded|
      invariant n <= BlockCount(|data|) && at == n * BLOCK_BYTES <= |padded| && state == NamedBlocks(padded, n)
      decreases |padded| - at
    {
      state := Compress(state, WordsOf(padded, at));
      at := at + BLOCK_BYTES;
      n := n + 1;
    }
    digest := DigestOf(state);
  }
}
