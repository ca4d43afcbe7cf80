/** What MD4's tables are, told otherwise, and a digest of RFC 1320's test suite. */
module Md4Known {
  import opened Md4Digest

  // ---------- the tables ----------

  /** The first round takes the words in order. */
  lemma FirstSchedule(i: nat)
    requires i < 16
    ensures |ROUND_ONE| == 16 && ROUND_ONE[i] == Md4Digest.Step(i, [3, 7, 11, 19][i % 4])
  {
    Enumerated(i);
  }

  /** The second takes them by the columns of a four-by-four square. */
  lemma SecondSchedule(i: nat)
    requires i < 16
    ensures |ROUND_TWO| == 16 && ROUND_TWO[i] == Md4Digest.Step(4 * (i % 4) + i / 4, [3, 5, 9, 13][i % 4])
  {
    Enumerated(i);
  }

  /** The third takes each at the place whose four bits are its own reversed. */
  lemma ThirdSchedule(i: nat)
    requires i < 16
    ensures |ROUND_THREE| == 16
    ensures ROUND_THREE[i]
            == Md4Digest.Step(8 * (i % 2) + 4 * (i / 2 % 2) + 2 * (i / 4 % 2) + i / 8, [3, 9, 11, 15][i % 4])
  {
    Enumerated(i);
  }

  lemma Enumerated(i: nat)
    requires i < 16
    ensures i == 0 || i == 1 || i == 2 || i == 3 || i == 4 || i == 5 || i == 6 || i == 7 || i == 8 || i == 9 || i == 10
            || i == 11 || i == 12 || i == 13 || i == 14 || i == 15
  {
  }

  /** The added constants are the square roots of two and three, to thirty binary places. */
  lemma ConstantLaws()
    ensures ROUNDS[0].added == 0
    ensures var k := ROUNDS[1].added as nat; k * k <= 0x2000_0000_0000_0000 < (k + 1) * (k + 1)
    ensures var k := ROUNDS[2].added as nat; k * k <= 0x3000_0000_0000_0000 < (k + 1) * (k + 1)
  {
  }

  /** Bit by bit, the first round mixes by choice, the second by majority, the third by parity. */
  lemma FirstChooses(x: bv32, y: bv32, z: bv32)
    ensures ROUNDS[0].mix(x, y, z) == Choice(x, y, z) && Choice(x, y, y) == y
  {
    hide Choice;
    ChoiceLaw(x, y, z);
    ChoiceLaw(x, y, y);
  }

  lemma SecondTakesMajority(x: bv32, y: bv32, z: bv32)
    ensures ROUNDS[1].mix(x, y, z) == Majority(x, y, z) && Majority(x, x, z) == x && Majority(x, z, x) == x
  {
    hide Majority;
    MajorityLaw(x, y, z);
  }

  lemma ThirdTakesParity(x: bv32, y: bv32, z: bv32)
    ensures ROUNDS[2].mix(x, y, z) == x ^ y ^ z && x ^ y ^ z ^ x ^ y == z
  {
    ParityLaw(x, y, z);
  }

  function Choice(x: bv32, y: bv32, z: bv32): bv32 {
    (x & y) ^ (!x & z)
  }

  function Majority(x: bv32, y: bv32, z: bv32): bv32 {
    (x & y) ^ (x & z) ^ (y & z)
  }

  lemma ChoiceLaw(x: bv32, y: bv32, z: bv32)
    ensures (x & y) | (!x & z) == Choice(x, y, z) && Choice(x, y, y) == y
  {
  }

  lemma MajorityLaw(x: bv32, y: bv32, z: bv32)
    ensures (x & y) | (x & z) | (y & z) == Majority(x, y, z) && Majority(x, x, z) == x && Majority(x, z, x) == x
  {
  }

  lemma ParityLaw(x: bv32, y: bv32, z: bv32)
    ensures x ^ y ^ z ^ x ^ y == z
  {
  }

  // ---------- a known answer ----------

  /** Four operations, with the words and rotations they take. */
  function Four(r: Registers<bv32>, w: (bv32, bv32, bv32, bv32), s: (nat, nat, nat, nat), spec: Round)
    : Registers<bv32>
  {
    var a := Operation(r.a, r.b, r.c, r.d, w.0, s.0, spec);
    var d := Operation(r.d, a, r.b, r.c, w.1, s.1, spec);
    var c := Operation(r.c, d, a, r.b, w.2, s.2, spec);
    Registers(a, Operation(r.b, c, d, a, w.3, s.3, spec), c, d)
  }

  lemma FourSteps(r: Registers<bv32>, n: nat, words: seq<bv32>, spec: Round)
    requires Suits(words, spec) && n < 4
    ensures var k := spec.schedule;
            NamedSteps(r, 4 * n + 4, words, spec)
            == Four(NamedSteps(r, 4 * n, words, spec),
                    (words[k[4 * n].index], words[k[4 * n + 1].index],
                     words[k[4 * n + 2].index], words[k[4 * n + 3].index]),
                    (k[4 * n].turn, k[4 * n + 1].turn, k[4 * n + 2].turn, k[4 * n + 3].turn), spec)
  {
    hide Operation;
    Phases(n);
    var r1 := NamedSteps(r, 4 * n + 1, words, spec);
    var r2 := NamedSteps(r, 4 * n + 2, words, spec);
    var r3 := NamedSteps(r, 4 * n + 3, words, spec);
    assert r1 == Named(NamedSteps(r, 4 * n, words, spec), 4 * n, words, spec);
    assert r2 == Named(r1, 4 * n + 1, words, spec) && r3 == Named(r2, 4 * n + 2, words, spec);
  }

  lemma Phases(n: nat)
    ensures PhaseOf(4 * n) == 0 && PhaseOf(4 * n + 1) == 1 && PhaseOf(4 * n + 2) == 2 && PhaseOf(4 * n + 3) == 3
  {
  }

  /** The 62 bytes of "ABCDEFGHIJKLMNOPQRSTUVWXYZabcdefghijklmnopqrstuvwxyz0123456789". */
  const LETTERS: seq<Byte> := seq(62, i requires 0 <= i < 62 => LetterAt(i))

  function LetterAt(i: nat): Byte
    requires i < 62
  {
    if i < 26 then 65 + i else if i < 52 then 97 + (i - 26) else 48 + (i - 52)
  }

  /** Its two padded blocks read as words. */
  const FIRST_WORDS: seq<bv32> := seq(16, i requires 0 <= i < 16 => FirstWord(i))
  const SECOND_WORDS: seq<bv32> := seq(16, i requires 0 <= i < 16 => SecondWord(i))

  function FirstWord(i: nat): bv32 {
    if i == 0 then 0x4443_4241 else if i == 1 then 0x4847_4645 else if i == 2 then 0x4c4b_4a49 else
    if i == 3 then 0x504f_4e4d else if i == 4 then 0x5453_5251 else if i == 5 then 0x5857_5655 else
    if i == 6 then 0x6261_5a59 else if i == 7 then 0x6665_6463 else if i == 8 then 0x6a69_6867 else
    if i == 9 then 0x6e6d_6c6b else if i == 10 then 0x7271_706f else if i == 11 then 0x7675_7473 else
    if i == 12 then 0x7a79_7877 else if i == 13 then 0x3332_3130 else if i == 14 then 0x3736_3534 else 0x0080_3938
  }

  function FirstNumber(i: nat): (number: nat)
    ensures number < 0x1_0000_0000
  {
    if i == 0 then 0x4443_4241 else if i == 1 then 0x4847_4645 else if i == 2 then 0x4c4b_4a49 else
    if i == 3 then 0x504f_4e4d else if i == 4 then 0x5453_5251 else if i == 5 then 0x5857_5655 else
    if i == 6 then 0x6261_5a59 else if i == 7 then 0x6665_6463 else if i == 8 then 0x6a69_6867 else
    if i == 9 then 0x6e6d_6c6b else if i == 10 then 0x7271_706f else if i == 11 then 0x7675_7473 else
    if i == 12 then 0x7a79_7877 else if i == 13 then 0x3332_3130 else if i == 14 then 0x3736_3534 else 0x0080_3938
  }

  function SecondWord(i: nat): bv32 {
    if i == 14 then 496 else 0
  }

  lemma FirstWordsKnown()
    ensures WordOf(0x4443_4241) == 0x4443_4241 && WordOf(0x4847_4645) == 0x4847_4645
    ensures WordOf(0x4c4b_4a49) == 0x4c4b_4a49 && WordOf(0x504f_4e4d) == 0x504f_4e4d
    ensures WordOf(0x5453_5251) == 0x5453_5251 && WordOf(0x5857_5655) == 0x5857_5655
    ensures WordOf(0x6261_5a59) == 0x6261_5a59 && WordOf(0x6665_6463) == 0x6665_6463
    ensures WordOf(0x6a69_6867) == 0x6a69_6867 && WordOf(0x6e6d_6c6b) == 0x6e6d_6c6b
    ensures WordOf(0x7271_706f) == 0x7271_706f && WordOf(0x7675_7473) == 0x7675_7473
    ensures WordOf(0x7a79_7877) == 0x7a79_7877 && WordOf(0x3332_3130) == 0x3332_3130
    ensures WordOf(0x3736_3534) == 0x3736_3534 && WordOf(0x0080_3938) == 0x0080_3938
  {
  }

  lemma FirstWordIs(i: nat)
    requires i < 16
    ensures WordOf(FirstNumber(i)) == FirstWord(i)
  {
    hide WordOf;
    FirstWordsKnown();
  }

  lemma SecondWordIs(i: nat)
    ensures WordOf(if i == 14 then 496 else 0) == SecondWord(i)
  {
  }

  /** The registers after every four operations on either block. */
  const FIRST_STATES: seq<Registers<bv32>> := [
    Registers(0x6745_2301, 0xefcd_ab89, 0x98ba_dcfe, 0x1032_5476),
    Registers(0x221a_1202, 0xa2f6_8168, 0xfaca_3a9e, 0x9134_db89),
    Registers(0x517d_f6e1, 0xa59a_55ca, 0x59e2_ba09, 0x415d_2e4a),
    Registers(0xed74_ca87, 0x2e18_5725, 0x97aa_13cb, 0xae85_9fb2),
    Registers(0x73de_f48f, 0x3741_0d7b, 0xe4ed_3227, 0xf814_13c3),
    Registers(0x374e_1e60, 0x88b9_ac51, 0x5045_45c2, 0xc6df_c21b),
    Registers(0xd7ad_148c, 0xbe94_7e7f, 0xdd8f_9fcb, 0x4cd2_d929),
    Registers(0xd88d_beca, 0x5583_431b, 0x2211_6306, 0xc88d_7cdc),
    Registers(0x1f07_4e76, 0x3a4c_19f1, 0x1940_d024, 0x0f13_bdd4),
    Registers(0xf21f_82cf, 0x7b40_0312, 0xc423_17ca, 0xd4b9_ed72),
    Registers(0xc8fd_9318, 0xef77_c30f, 0xeb90_ac4b, 0x47a2_845b),
    Registers(0x1b25_80ee, 0x64a1_d922, 0x627d_4b04, 0x5998_2289),
    Registers(0xcc9b_5c59, 0x759a_067b, 0xaac3_8972, 0x5ea2_3812)]

  const SECOND_STATES: seq<Registers<bv32>> := [
    Registers(0x33e0_7f5a, 0x6567_b204, 0x437e_6670, 0x6ed4_8c88),
    Registers(0xfeb5_6f13, 0x82b7_11f9, 0xa263_b541, 0x21d7_746a),
    Registers(0x10c7_22b5, 0xacf4_d3e1, 0xd72f_d198, 0x3f85_2de2),
    Registers(0x3f69_01bd, 0xabf5_5310, 0xc72c_68a4, 0xf5ff_c195),
    Registers(0xb4be_1210, 0x1f45_209c, 0x5ded_23c9, 0xda1e_24ec),
    Registers(0x746d_63ab, 0x9f7a_1d78, 0xb9fd_f81b, 0x41b8_41d2),
    Registers(0x4741_b4f3, 0x527d_0a09, 0x965d_4ed7, 0x768e_fcc7),
    Registers(0xc10b_ea9f, 0x3410_c1d1, 0x71a6_1a64, 0x6dd8_1ff4),
    Registers(0x88f4_0164, 0xb01c_e610, 0xf1aa_e5d9, 0x21d3_5e3f),
    Registers(0xc19a_57da, 0xb549_4170, 0x114b_291a, 0xb33b_e621),
    Registers(0x3d6e_8e32, 0x3517_fa46, 0xe877_806b, 0x0570_3577),
    Registers(0x22c6_496c, 0x0bf2_1a79, 0x536e_ca76, 0xe0a8_b2e7),
    Registers(0x4ea4_bfaa, 0xd073_8fee, 0x9da9_7fac, 0x761c_5acb)]

  function TurnsOf(round: nat): (nat, nat, nat, nat) {
    if round == 0 then (3, 7, 11, 19) else if round == 1 then (3, 5, 9, 13) else (3, 9, 11, 15)
  }

  lemma TurnAt(round: nat, n: nat, j: nat)
    requires round < 3 && n < 4 && j < 4
    ensures ROUNDS[round].schedule[4 * n + j].turn
            == var turns := TurnsOf(round);
               if j == 0 then turns.0 else if j == 1 then turns.1 else if j == 2 then turns.2 else turns.3
  {
    assert (4 * n + j) % 4 == j;
    assert j == 0 || j == 1 || j == 2 || j == 3;
  }

  lemma FourKnown(r: Registers<bv32>, n: nat, round: nat, words: seq<bv32>, w: (bv32, bv32, bv32, bv32))
    requires n < 4 && round < 3 && Suits(words, ROUNDS[round])
    requires var k := ROUNDS[round].schedule;
             w == (words[k[4 * n].index], words[k[4 * n + 1].index], words[k[4 * n + 2].index],
                   words[k[4 * n + 3].index])
    ensures NamedSteps(r, 4 * n + 4, words, ROUNDS[round])
            == Four(NamedSteps(r, 4 * n, words, ROUNDS[round]), w, TurnsOf(round), ROUNDS[round])
  {
    hide Four, NamedSteps, TurnsOf;
    var spec := ROUNDS[round];
    FourSteps(r, n, words, spec);
    TurnAt(round, n, 0);
    TurnAt(round, n, 1);
    TurnAt(round, n, 2);
    TurnAt(round, n, 3);
  }

  lemma FirstRoundOne()
    ensures Suits(FIRST_WORDS, ROUNDS[0])
    ensures NamedSteps(FIRST_STATES[0], 16, FIRST_WORDS, ROUNDS[0]) == FIRST_STATES[4]
  {
    SchedulesSuit(FIRST_WORDS);
    FourKnown(FIRST_STATES[0], 0, 0, FIRST_WORDS, (0x4443_4241, 0x4847_4645, 0x4c4b_4a49, 0x504f_4e4d));
    assert NamedSteps(FIRST_STATES[0], 4, FIRST_WORDS, ROUNDS[0]) == FIRST_STATES[1];
    FourKnown(FIRST_STATES[0], 1, 0, FIRST_WORDS, (0x5453_5251, 0x5857_5655, 0x6261_5a59, 0x6665_6463));
    assert NamedSteps(FIRST_STATES[0], 8, FIRST_WORDS, ROUNDS[0]) == FIRST_STATES[2];
    FourKnown(FIRST_STATES[0], 2, 0, FIRST_WORDS, (0x6a69_6867, 0x6e6d_6c6b, 0x7271_706f, 0x7675_7473));
    assert NamedSteps(FIRST_STATES[0], 12, FIRST_WORDS, ROUNDS[0]) == FIRST_STATES[3];
    FourKnown(FIRST_STATES[0], 3, 0, FIRST_WORDS, (0x7a79_7877, 0x3332_3130, 0x3736_3534, 0x0080_3938));
    assert NamedSteps(FIRST_STATES[0], 16, FIRST_WORDS, ROUNDS[0]) == FIRST_STATES[4];
  }

  lemma FirstRoundTwo()
    ensures Suits(FIRST_WORDS, ROUNDS[1])
    ensures NamedSteps(FIRST_STATES[4], 16, FIRST_WORDS, ROUNDS[1]) == FIRST_STATES[8]
  {
    SchedulesSuit(FIRST_WORDS);
    FourKnown(FIRST_STATES[4], 0, 1, FIRST_WORDS, (0x4443_4241, 0x5453_5251, 0x6a69_6867, 0x7a79_7877));
    assert NamedSteps(FIRST_STATES[4], 4, FIRST_WORDS, ROUNDS[1]) == FIRST_STATES[5];
    FourKnown(FIRST_STATES[4], 1, 1, FIRST_WORDS, (0x4847_4645, 0x5857_5655, 0x6e6d_6c6b, 0x3332_3130));
    assert NamedSteps(FIRST_STATES[4], 8, FIRST_WORDS, ROUNDS[1]) == FIRST_STATES[6];
    FourKnown(FIRST_STATES[4], 2, 1, FIRST_WORDS, (0x4c4b_4a49, 0x6261_5a59, 0x7271_706f, 0x3736_3534));
    assert NamedSteps(FIRST_STATES[4], 12, FIRST_WORDS, ROUNDS[1]) == FIRST_STATES[7];
    FourKnown(FIRST_STATES[4], 3, 1, FIRST_WORDS, (0x504f_4e4d, 0x6665_6463, 0x7675_7473, 0x0080_3938));
    assert NamedSteps(FIRST_STATES[4], 16, FIRST_WORDS, ROUNDS[1]) == FIRST_STATES[8];
  }

  lemma FirstRoundThree()
    ensures Suits(FIRST_WORDS, ROUNDS[2])
    ensures NamedSteps(FIRST_STATES[8], 16, FIRST_WORDS, ROUNDS[2]) == FIRST_STATES[12]
  {
    SchedulesSuit(FIRST_WORDS);
    FourKnown(FIRST_STATES[8], 0, 2, FIRST_WORDS, (0x4443_4241, 0x6a69_6867, 0x5453_5251, 0x7a79_7877));
    assert NamedSteps(FIRST_STATES[8], 4, FIRST_WORDS, ROUNDS[2]) == FIRST_STATES[9];
    FourKnown(FIRST_STATES[8], 1, 2, FIRST_WORDS, (0x4c4b_4a49, 0x7271_706f, 0x6261_5a59, 0x3736_3534));
    assert NamedSteps(FIRST_STATES[8], 8, FIRST_WORDS, ROUNDS[2]) == FIRST_STATES[10];
    FourKnown(FIRST_STATES[8], 2, 2, FIRST_WORDS, (0x4847_4645, 0x6e6d_6c6b, 0x5857_5655, 0x3332_3130));
    assert NamedSteps(FIRST_STATES[8], 12, FIRST_WORDS, ROUNDS[2]) == FIRST_STATES[11];
    FourKnown(FIRST_STATES[8], 3, 2, FIRST_WORDS, (0x504f_4e4d, 0x7675_7473, 0x6665_6463, 0x0080_3938));
    assert NamedSteps(FIRST_STATES[8], 16, FIRST_WORDS, ROUNDS[2]) == FIRST_STATES[12];
  }

  lemma SecondRoundOne()
    ensures Suits(SECOND_WORDS, ROUNDS[0])
    ensures NamedSteps(SECOND_STATES[0], 16, SECOND_WORDS, ROUNDS[0]) == SECOND_STATES[4]
  {
    SchedulesSuit(SECOND_WORDS);
    FourKnown(SECOND_STATES[0], 0, 0, SECOND_WORDS, (0, 0, 0, 0));
    assert NamedSteps(SECOND_STATES[0], 4, SECOND_WORDS, ROUNDS[0]) == SECOND_STATES[1];
    FourKnown(SECOND_STATES[0], 1, 0, SECOND_WORDS, (0, 0, 0, 0));
    assert NamedSteps(SECOND_STATES[0], 8, SECOND_WORDS, ROUNDS[0]) == SECOND_STATES[2];
    FourKnown(SECOND_STATES[0], 2, 0, SECOND_WORDS, (0, 0, 0, 0));
    assert NamedSteps(SECOND_STATES[0], 12, SECOND_WORDS, ROUNDS[0]) == SECOND_STATES[3];
    FourKnown(SECOND_STATES[0], 3, 0, SECOND_WORDS, (0, 0, 496, 0));
    assert NamedSteps(SECOND_STATES[0], 16, SECOND_WORDS, ROUNDS[0]) == SECOND_STATES[4];
  }

  lemma SecondRoundTwo()
    ensures Suits(SECOND_WORDS, ROUNDS[1])
    ensures NamedSteps(SECOND_STATES[4], 16, SECOND_WORDS, ROUNDS[1]) == SECOND_STATES[8]
  {
    SchedulesSuit(SECOND_WORDS);
    FourKnown(SECOND_STATES[4], 0, 1, SECOND_WORDS, (0, 0, 0, 0));
    assert NamedSteps(SECOND_STATES[4], 4, SECOND_WORDS, ROUNDS[1]) == SECOND_STATES[5];
    FourKnown(SECOND_STATES[4], 1, 1, SECOND_WORDS, (0, 0, 0, 0));
    assert NamedSteps(SECOND_STATES[4], 8, SECOND_WORDS, ROUNDS[1]) == SECOND_STATES[6];
    FourKnown(SECOND_STATES[4], 2, 1, SECOND_WORDS, (0, 0, 0, 496));
    assert NamedSteps(SECOND_STATES[4], 12, SECOND_WORDS, ROUNDS[1]) == SECOND_STATES[7];
    FourKnown(SECOND_STATES[4], 3, 1, SECOND_WORDS, (0, 0, 0, 0));
    assert NamedSteps(SECOND_STATES[4], 16, SECOND_WORDS, ROUNDS[1]) == SECOND_STATES[8];
  }

  lemma SecondRoundThree()
    ensures Suits(SECOND_WORDS, ROUNDS[2])
    ensures NamedSteps(SECOND_STATES[8], 16, SECOND_WORDS, ROUNDS[2]) == SECOND_STATES[12]
  {
    SchedulesSuit(SECOND_WORDS);
    FourKnown(SECOND_STATES[8], 0, 2, SECOND_WORDS, (0, 0, 0, 0));
    assert NamedSteps(SECOND_STATES[8], 4, SECOND_WORDS, ROUNDS[2]) == SECOND_STATES[9];
    FourKnown(SECOND_STATES[8], 1, 2, SECOND_WORDS, (0, 0, 0, 496));
    assert NamedSteps(SECOND_STATES[8], 8, SECOND_WORDS, ROUNDS[2]) == SECOND_STATES[10];
    FourKnown(SECOND_STATES[8], 2, 2, SECOND_WORDS, (0, 0, 0, 0));
    assert NamedSteps(SECOND_STATES[8], 12, SECOND_WORDS, ROUNDS[2]) == SECOND_STATES[11];
    FourKnown(SECOND_STATES[8], 3, 2, SECOND_WORDS, (0, 0, 0, 0));
    assert NamedSteps(SECOND_STATES[8], 16, SECOND_WORDS, ROUNDS[2]) == SECOND_STATES[12];
  }

  const BETWEEN: Registers<bv32> := Registers(0x33e0_7f5a, 0x6567_b204, 0x437e_6670, 0x6ed4_8c88)

  lemma FirstCompresses()
    ensures NamedCompress(INITIAL, FIRST_WORDS) == BETWEEN
  {
    hide NamedSteps;
    FirstRoundOne();
    FirstRoundTwo();
    FirstRoundThree();
    assert NamedRounds(INITIAL, 1, FIRST_WORDS) == FIRST_STATES[4];
    assert NamedRounds(INITIAL, 2, FIRST_WORDS) == FIRST_STATES[8];
    assert NamedRounds(INITIAL, 3, FIRST_WORDS) == FIRST_STATES[12];
  }

  lemma SecondCompresses()
    ensures NamedCompress(BETWEEN, SECOND_WORDS) == Registers(0x8285_3f04, 0x35db_41f2, 0xe127_e61c, 0xe4f0_e753)
  {
    hide NamedSteps;
    SecondRoundOne();
    SecondRoundTwo();
    SecondRoundThree();
    assert NamedRounds(BETWEEN, 1, SECOND_WORDS) == SECOND_STATES[4];
    assert NamedRounds(BETWEEN, 2, SECOND_WORDS) == SECOND_STATES[8];
    assert NamedRounds(BETWEEN, 3, SECOND_WORDS) == SECOND_STATES[12];
  }

  lemma LettersEnd()
    ensures LittleEndian(496, 8) == [240, 1, 0, 0, 0, 0, 0, 0] && ZeroCount(62) == 57
  {
  }

  lemma LettersPad()
    ensures |Padded(LETTERS)| == 128
    ensures forall j | 0 <= j < 128 ::
              Padded(LETTERS)[j] == if j < 62 then LetterAt(j) else if j == 62 then 128
                                    else if j == 120 then 240 else if j == 121 then 1 else 0
  {
    hide LittleEndian, ZeroCount, LetterAt;
    LettersEnd();
  }

  lemma NumberIs(padded: seq<Byte>, at: nat, b0: Byte, b1: Byte, b2: Byte, b3: Byte)
    requires at + 4 <= |padded|
    requires padded[at] == b0 && padded[at + 1] == b1 && padded[at + 2] == b2 && padded[at + 3] == b3
    ensures NumberAt(padded, at) == b0 + 256 * (b1 + 256 * (b2 + 256 * b3))
  {
  }

  lemma FirstNumberIs(p: seq<Byte>, i: nat)
    requires i < 16 && |p| == 128 && p == Padded(LETTERS)
    ensures NumberAt(p, i * 4) == FirstNumber(i)
  {
    hide Padded, NumberAt;
    LettersPad();
    if i == 0 {
      NumberIs(p, 0, 65, 66, 67, 68);
    } else if i == 1 {
      NumberIs(p, 4, 69, 70, 71, 72);
    } else if i == 2 {
      NumberIs(p, 8, 73, 74, 75, 76);
    } else if i == 3 {
      NumberIs(p, 12, 77, 78, 79, 80);
    } else if i == 4 {
      NumberIs(p, 16, 81, 82, 83, 84);
    } else if i == 5 {
      NumberIs(p, 20, 85, 86, 87, 88);
    } else if i == 6 {
      NumberIs(p, 24, 89, 90, 97, 98);
    } else if i == 7 {
      NumberIs(p, 28, 99, 100, 101, 102);
    } else if i == 8 {
      NumberIs(p, 32, 103, 104, 105, 106);
    } else if i == 9 {
      NumberIs(p, 36, 107, 108, 109, 110);
    } else if i == 10 {
      NumberIs(p, 40, 111, 112, 113, 114);
    } else if i == 11 {
      NumberIs(p, 44, 115, 116, 117, 118);
    } else if i == 12 {
      NumberIs(p, 48, 119, 120, 121, 122);
    } else if i == 13 {
      NumberIs(p, 52, 48, 49, 50, 51);
    } else if i == 14 {
      NumberIs(p, 56, 52, 53, 54, 55);
    } else {
      NumberIs(p, 60, 56, 57, 128, 0);
    }
  }

  lemma SecondNumberIs(p: seq<Byte>, i: nat)
    requires i < 16 && |p| == 128 && p == Padded(LETTERS)
    ensures NumberAt(p, 64 + i * 4) == if i == 14 then 496 else 0
  {
    hide Padded, NumberAt;
    LettersPad();
    if i == 14 {
      NumberIs(p, 120, 240, 1, 0, 0);
    } else {
      NumberIs(p, 64 + i * 4, 0, 0, 0, 0);
    }
  }

  lemma LettersRead()
    ensures |Padded(LETTERS)| == 128
    ensures WordsOf(Padded(LETTERS), 0) == FIRST_WORDS && WordsOf(Padded(LETTERS), 64) == SECOND_WORDS
  {
    hide Padded, NumberAt, FirstNumber, FirstWord, SecondWord, WordOf;
    LettersPad();
    forall i | 0 <= i < 16
      ensures WordAt(Padded(LETTERS), i * 4) == FirstWord(i) && WordAt(Padded(LETTERS), 64 + i * 4) == SecondWord(i)
    {
      FirstNumberIs(Padded(LETTERS), i);
      SecondNumberIs(Padded(LETTERS), i);
      FirstWordIs(i);
      SecondWordIs(i);
    }
  }

  lemma FourBytes(b0: Byte, b1: Byte, b2: Byte, b3: Byte)
    ensures LittleEndian(b0 + 256 * (b1 + 256 * (b2 + 256 * b3)), 4) == [b0, b1, b2, b3]
  {
    assert LittleEndian(b3, 1) == [b3];
    assert LittleEndian(b2 + 256 * b3, 2) == [b2, b3];
    assert LittleEndian(b1 + 256 * (b2 + 256 * b3), 3) == [b1, b2, b3];
  }

  lemma LettersSpell()
    ensures DigestOf(Registers(0x8285_3f04, 0x35db_41f2, 0xe127_e61c, 0xe4f0_e753))
            == [0x04, 0x3f, 0x85, 0x82, 0xf2, 0x41, 0xdb, 0x35, 0x1c, 0xe6, 0x27, 0xe1, 0x53, 0xe7, 0xf0, 0xe4]
  {
    hide LittleEndian;
    FourBytes(0x04, 0x3f, 0x85, 0x82);
    FourBytes(0xf2, 0x41, 0xdb, 0x35);
    FourBytes(0x1c, 0xe6, 0x27, 0xe1);
    FourBytes(0x53, 0xe7, 0xf0, 0xe4);
  }

  /** The digest RFC 1320 lists for them, through two blocks. */
  lemma LettersDigest()
    ensures |Padded(LETTERS)| == 128
    ensures DigestOf(NamedBlocks(Padded(LETTERS), 2))
            == [0x04, 0x3f, 0x85, 0x82, 0xf2, 0x41, 0xdb, 0x35, 0x1c, 0xe6, 0x27, 0xe1, 0x53, 0xe7, 0xf0, 0xe4]
  {
    hide NamedCompress, WordsOf, Padded, DigestOf;
    LettersRead();
    FirstCompresses();
    SecondCompresses();
    LettersSpell();
    assert NamedBlocks(Padded(LETTERS), 0) == INITIAL;
    assert NamedBlocks(Padded(LETTERS), 1) == BETWEEN;
  }
}
