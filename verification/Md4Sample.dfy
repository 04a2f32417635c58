/** The longest of the sample digests in appendix A.5 of RFC 1320, derived from the definition: eighty digits, which
    take two blocks. It holds every table and constant in place. */
module Md4Sample {
  import opened Basics
  import opened Md4

  /** The digit at a position: 1 to 9 and 0, over and over. */
  function Digit(i: nat): Byte {
    0x30 + (i + 1) % 10
  }

  const DIGITS: seq<Byte> := seq(80, i requires 0 <= i < 80 => Digit(i))

  const TAIL: seq<Byte> := [0x80] + Zeros(39) + [0x80, 0x02, 0, 0, 0, 0, 0, 0]

  /** The word that four digits make, from an even position. */
  function DigitWord(at: nat): Word {
    match at % 10
    case 0 => 0x34333231
    case 2 => 0x36353433
    case 4 => 0x38373635
    case 6 => 0x30393837
    case _ => 0x32313039
  }

  const FIRST: seq<Word> := seq(16, i requires 0 <= i < 16 => DigitWord(4 * i))

  const SECOND: seq<Word> :=
    seq(16, i requires 0 <= i < 16 =>
      if i < 4 then DigitWord(64 + 4 * i) else if i == 4 then 0x80 else if i == 14 then 0x280 else 0)

  // The states the rows lead through, block by block.
  const A0 := State(0x67452301, 0xefcdab89, 0x98badcfe, 0x10325476)
  const A1 := State(0xa1999181, 0xa5e98d03, 0xae460585, 0x0aac5501)
  const A2 := State(0x00b8f5cc, 0xb997f266, 0x368bff3b, 0xe70619f6)
  const A3 := State(0x6b912d8d, 0xb252ebfa, 0xa8a9c322, 0x6da231aa)
  const A4 := State(0x5b198744, 0x69c1d515, 0xaf154e59, 0x44149fab)
  const A5 := State(0xb728913a, 0xc214b62f, 0x1b9a89f6, 0xba44d28f)
  const A6 := State(0x1fb69dbf, 0x7de70dce, 0x19a5ea71, 0x9223830c)
  const A7 := State(0x308e96ee, 0x5a393b25, 0xd3681231, 0xd098390b)
  const A8 := State(0x9bf3fedc, 0x5226907c, 0xaaf88901, 0x18a3a247)
  const A9 := State(0xfbf6bf40, 0x34ef9156, 0x625cb348, 0xb6d0b181)
  const A10 := State(0xeb2b75cb, 0x30984b97, 0xc44e89e7, 0xec4e502e)
  const A11 := State(0x56a94ffd, 0x52b2e846, 0x6e4f505c, 0xc203265b)
  const A12 := State(0xd5b87097, 0x2e1fa46e, 0x32855a14, 0xb4217ca4)
  const B0 := State(0x3cfd9398, 0x1ded4ff7, 0xcb403712, 0xc453d11a)
  const B1 := State(0xf43b0739, 0x59c22afc, 0x73da17f3, 0xf71c430a)
  const B2 := State(0x60ca5d5f, 0x31dde444, 0xe20e86e4, 0x77270325)
  const B3 := State(0x37c72626, 0x574565aa, 0xed5a40ae, 0x7a53f4b4)
  const B4 := State(0x28cfb725, 0xa6bb5e94, 0x3d569f89, 0xd4ad2f1f)
  const B5 := State(0x82443483, 0x498c146b, 0x231f6875, 0xb0b8f73a)
  const B6 := State(0x84a29681, 0xe490a517, 0x84f11e0e, 0x9930a681)
  const B7 := State(0xd05752a4, 0x4eaa89f5, 0x14b77d60, 0x1086c417)
  const B8 := State(0x7dce8f4b, 0x3d5cc4df, 0x4904e5dc, 0xf6f96238)
  const B9 := State(0x3c07a2e5, 0x3aefcd9b, 0xb75b18e6, 0x65a37f5c)
  const B10 := State(0x497366d6, 0xe16b0f3f, 0xb7f830fe, 0x8a3d5132)
  const B11 := State(0x39678d1e, 0xbcacb774, 0x301c97b5, 0x17df64d2)
  const B12 := State(0x9f4fa84b, 0xfc04e8a5, 0x4b3b078a, 0x71b1fb35)

  const LAST := State(0xdc4d3be3, 0x19f2389c, 0x167b3e9c, 0x3605cc4f)

  /** Four calls of a round's closure, on the words they read. */
  function RowOn(round: Round, p: State, w: (Word, Word, Word, Word), ss: (Shift, Shift, Shift, Shift)): State
    requires 0 < ss.0 < 32 && 0 < ss.1 < 32 && 0 < ss.2 < 32 && 0 < ss.3 < 32
  {
    var a := Rounded(round, p.a, p.b, p.c, p.d, w.0, ss.0);
    var d := Rounded(round, p.d, a, p.b, p.c, w.1, ss.1);
    var c := Rounded(round, p.c, d, a, p.b, w.2, ss.2);
    var b := Rounded(round, p.b, c, d, a, w.3, ss.3);
    State(a, b, c, d)
  }

  /** A row of the table, from a state that the rows before it lead to. */
  lemma NextRow(
      ops: seq<Op>, n: nat, round: Round, ks: (nat, nat, nat, nat), ss: (Shift, Shift, Shift, Shift), st: State,
      x: seq<Word>, p: State)
    requires |x| == 16 && AllValid(ops) && IsRow(ops, n, round, ks, ss) && Run(ops[..n], st, x) == p
    requires ks.0 < 16 && ks.1 < 16 && ks.2 < 16 && ks.3 < 16
    requires 0 < ss.0 < 32 && 0 < ss.1 < 32 && 0 < ss.2 < 32 && 0 < ss.3 < 32
    ensures Run(ops[..n + 4], st, x) == RowOn(round, p, (x[ks.0], x[ks.1], x[ks.2], x[ks.3]), ss)
  {
    hide Run, Rounded, IsRow;
    RunRow(ops, n, round, ks, ss, st, x);
  }

  lemma RowA1()
    ensures RowOn(One, A0, (0x34333231, 0x38373635, 0x32313039, 0x36353433), (3, 7, 11, 19)) == A1
  {}

  lemma RowA2()
    ensures RowOn(One, A1, (0x30393837, 0x34333231, 0x38373635, 0x32313039), (3, 7, 11, 19)) == A2
  {}

  lemma RowA3()
    ensures RowOn(One, A2, (0x36353433, 0x30393837, 0x34333231, 0x38373635), (3, 7, 11, 19)) == A3
  {}

  lemma RowA4()
    ensures RowOn(One, A3, (0x32313039, 0x36353433, 0x30393837, 0x34333231), (3, 7, 11, 19)) == A4
  {}

  lemma FirstOne()
    ensures AllValid(ROUND_ONE) && |FIRST| == 16 && Run(ROUND_ONE, A0, FIRST) == A4
  {
    hide Run, RowOn, IsRow, FIRST, ROUND_ONE, A0, A1, A2, A3, A4;
    TableValid();
    FirstWords();
    NothingRun(ROUND_ONE, A0, FIRST);
    Rows(0);
    RowA1();
    NextRow(ROUND_ONE, 0, One, (0, 1, 2, 3), (3, 7, 11, 19), A0, FIRST, A0);
    Rows(1);
    RowA2();
    NextRow(ROUND_ONE, 4, One, (4, 5, 6, 7), (3, 7, 11, 19), A0, FIRST, A1);
    Rows(2);
    RowA3();
    NextRow(ROUND_ONE, 8, One, (8, 9, 10, 11), (3, 7, 11, 19), A0, FIRST, A2);
    Rows(3);
    RowA4();
    NextRow(ROUND_ONE, 12, One, (12, 13, 14, 15), (3, 7, 11, 19), A0, FIRST, A3);
    assert ROUND_ONE[..16] == ROUND_ONE;
  }

  lemma RowA5()
    ensures RowOn(Two, A4, (0x34333231, 0x30393837, 0x36353433, 0x32313039), (3, 5, 9, 13)) == A5
  {}

  lemma RowA6()
    ensures RowOn(Two, A5, (0x38373635, 0x34333231, 0x30393837, 0x36353433), (3, 5, 9, 13)) == A6
  {}

  lemma RowA7()
    ensures RowOn(Two, A6, (0x32313039, 0x38373635, 0x34333231, 0x30393837), (3, 5, 9, 13)) == A7
  {}

  lemma RowA8()
    ensures RowOn(Two, A7, (0x36353433, 0x32313039, 0x38373635, 0x34333231), (3, 5, 9, 13)) == A8
  {}

  lemma FirstTwo()
    ensures AllValid(ROUND_TWO) && |FIRST| == 16 && Run(ROUND_TWO, A4, FIRST) == A8
  {
    hide Run, RowOn, IsRow, FIRST, ROUND_TWO, A4, A5, A6, A7, A8;
    TableValid();
    FirstWords();
    NothingRun(ROUND_TWO, A4, FIRST);
    Rows(0);
    RowA5();
    NextRow(ROUND_TWO, 0, Two, (0, 4, 8, 12), (3, 5, 9, 13), A4, FIRST, A4);
    Rows(1);
    RowA6();
    NextRow(ROUND_TWO, 4, Two, (1, 5, 9, 13), (3, 5, 9, 13), A4, FIRST, A5);
    Rows(2);
    RowA7();
    NextRow(ROUND_TWO, 8, Two, (2, 6, 10, 14), (3, 5, 9, 13), A4, FIRST, A6);
    Rows(3);
    RowA8();
    NextRow(ROUND_TWO, 12, Two, (3, 7, 11, 15), (3, 5, 9, 13), A4, FIRST, A7);
    assert ROUND_TWO[..16] == ROUND_TWO;
  }

  lemma RowA9()
    ensures RowOn(Three, A8, (0x34333231, 0x36353433, 0x30393837, 0x32313039), (3, 9, 11, 15)) == A9
  {}

  lemma RowA10()
    ensures RowOn(Three, A9, (0x32313039, 0x34333231, 0x38373635, 0x30393837), (3, 9, 11, 15)) == A10
  {}

  lemma RowA11()
    ensures RowOn(Three, A10, (0x38373635, 0x30393837, 0x34333231, 0x36353433), (3, 9, 11, 15)) == A11
  {}

  lemma RowA12()
    ensures RowOn(Three, A11, (0x36353433, 0x38373635, 0x32313039, 0x34333231), (3, 9, 11, 15)) == A12
  {}

  lemma FirstThree()
    ensures AllValid(ROUND_THREE) && |FIRST| == 16 && Run(ROUND_THREE, A8, FIRST) == A12
  {
    hide Run, RowOn, IsRow, FIRST, ROUND_THREE, A8, A9, A10, A11, A12;
    TableValid();
    FirstWords();
    NothingRun(ROUND_THREE, A8, FIRST);
    Rows(0);
    RowA9();
    NextRow(ROUND_THREE, 0, Three, (0, 8, 4, 12), (3, 9, 11, 15), A8, FIRST, A8);
    Rows(1);
    RowA10();
    NextRow(ROUND_THREE, 4, Three, (2, 10, 6, 14), (3, 9, 11, 15), A8, FIRST, A9);
    Rows(2);
    RowA11();
    NextRow(ROUND_THREE, 8, Three, (1, 9, 5, 13), (3, 9, 11, 15), A8, FIRST, A10);
    Rows(3);
    RowA12();
    NextRow(ROUND_THREE, 12, Three, (3, 11, 7, 15), (3, 9, 11, 15), A8, FIRST, A11);
    assert ROUND_THREE[..16] == ROUND_THREE;
  }

  lemma FirstWords()
    ensures |FIRST| == 16
    ensures FIRST[0] == 0x34333231 && FIRST[1] == 0x38373635 && FIRST[2] == 0x32313039 && FIRST[3] == 0x36353433
    ensures FIRST[4] == 0x30393837 && FIRST[5] == 0x34333231 && FIRST[6] == 0x38373635 && FIRST[7] == 0x32313039
    ensures FIRST[8] == 0x36353433 && FIRST[9] == 0x30393837 && FIRST[10] == 0x34333231 && FIRST[11] == 0x38373635
    ensures FIRST[12] == 0x32313039 && FIRST[13] == 0x36353433 && FIRST[14] == 0x30393837 && FIRST[15] == 0x34333231
  {}

  /** The first block. */
  lemma FirstBlock()
    ensures AllValid(TABLE) && |FIRST| == 16
    ensures Absorb(A0, FIRST) == B0
  {
    hide Run, FIRST, ROUND_ONE, ROUND_TWO, ROUND_THREE;
    TableValid();
    FirstOne();
    FirstTwo();
    FirstThree();
    RunConcat(ROUND_ONE, ROUND_TWO, A0, FIRST);
    RunConcat(ROUND_ONE + ROUND_TWO, ROUND_THREE, A0, FIRST);
  }

  lemma RowB1()
    ensures RowOn(One, B0, (0x38373635, 0x32313039, 0x36353433, 0x30393837), (3, 7, 11, 19)) == B1
  {}

  lemma RowB2()
    ensures RowOn(One, B1, (0x80, 0x0, 0x0, 0x0), (3, 7, 11, 19)) == B2
  {}

  lemma RowB3()
    ensures RowOn(One, B2, (0x0, 0x0, 0x0, 0x0), (3, 7, 11, 19)) == B3
  {}

  lemma RowB4()
    ensures RowOn(One, B3, (0x0, 0x0, 0x280, 0x0), (3, 7, 11, 19)) == B4
  {}

  lemma SecondOne()
    ensures AllValid(ROUND_ONE) && |SECOND| == 16 && Run(ROUND_ONE, B0, SECOND) == B4
  {
    hide Run, RowOn, IsRow, SECOND, ROUND_ONE, B0, B1, B2, B3, B4;
    TableValid();
    SecondWords();
    NothingRun(ROUND_ONE, B0, SECOND);
    Rows(0);
    RowB1();
    NextRow(ROUND_ONE, 0, One, (0, 1, 2, 3), (3, 7, 11, 19), B0, SECOND, B0);
    Rows(1);
    RowB2();
    NextRow(ROUND_ONE, 4, One, (4, 5, 6, 7), (3, 7, 11, 19), B0, SECOND, B1);
    Rows(2);
    RowB3();
    NextRow(ROUND_ONE, 8, One, (8, 9, 10, 11), (3, 7, 11, 19), B0, SECOND, B2);
    Rows(3);
    RowB4();
    NextRow(ROUND_ONE, 12, One, (12, 13, 14, 15), (3, 7, 11, 19), B0, SECOND, B3);
    assert ROUND_ONE[..16] == ROUND_ONE;
  }

  lemma RowB5()
    ensures RowOn(Two, B4, (0x38373635, 0x80, 0x0, 0x0), (3, 5, 9, 13)) == B5
  {}

  lemma RowB6()
    ensures RowOn(Two, B5, (0x32313039, 0x0, 0x0, 0x0), (3, 5, 9, 13)) == B6
  {}

  lemma RowB7()
    ensures RowOn(Two, B6, (0x36353433, 0x0, 0x0, 0x280), (3, 5, 9, 13)) == B7
  {}

  lemma RowB8()
    ensures RowOn(Two, B7, (0x30393837, 0x0, 0x0, 0x0), (3, 5, 9, 13)) == B8
  {}

  lemma SecondTwo()
    ensures AllValid(ROUND_TWO) && |SECOND| == 16 && Run(ROUND_TWO, B4, SECOND) == B8
  {
    hide Run, RowOn, IsRow, SECOND, ROUND_TWO, B4, B5, B6, B7, B8;
    TableValid();
    SecondWords();
    NothingRun(ROUND_TWO, B4, SECOND);
    Rows(0);
    RowB5();
    NextRow(ROUND_TWO, 0, Two, (0, 4, 8, 12), (3, 5, 9, 13), B4, SECOND, B4);
    Rows(1);
    RowB6();
    NextRow(ROUND_TWO, 4, Two, (1, 5, 9, 13), (3, 5, 9, 13), B4, SECOND, B5);
    Rows(2);
    RowB7();
    NextRow(ROUND_TWO, 8, Two, (2, 6, 10, 14), (3, 5, 9, 13), B4, SECOND, B6);
    Rows(3);
    RowB8();
    NextRow(ROUND_TWO, 12, Two, (3, 7, 11, 15), (3, 5, 9, 13), B4, SECOND, B7);
    assert ROUND_TWO[..16] == ROUND_TWO;
  }

  lemma RowB9()
    ensures RowOn(Three, B8, (0x38373635, 0x0, 0x80, 0x0), (3, 9, 11, 15)) == B9
  {}

  lemma RowB10()
    ensures RowOn(Three, B9, (0x36353433, 0x0, 0x0, 0x280), (3, 9, 11, 15)) == B10
  {}

  lemma RowB11()
    ensures RowOn(Three, B10, (0x32313039, 0x0, 0x0, 0x0), (3, 9, 11, 15)) == B11
  {}

  lemma RowB12()
    ensures RowOn(Three, B11, (0x30393837, 0x0, 0x0, 0x0), (3, 9, 11, 15)) == B12
  {}

  lemma SecondThree()
    ensures AllValid(ROUND_THREE) && |SECOND| == 16 && Run(ROUND_THREE, B8, SECOND) == B12
  {
    hide Run, RowOn, IsRow, SECOND, ROUND_THREE, B8, B9, B10, B11, B12;
    TableValid();
    SecondWords();
    NothingRun(ROUND_THREE, B8, SECOND);
    Rows(0);
    RowB9();
    NextRow(ROUND_THREE, 0, Three, (0, 8, 4, 12), (3, 9, 11, 15), B8, SECOND, B8);
    Rows(1);
    RowB10();
    NextRow(ROUND_THREE, 4, Three, (2, 10, 6, 14), (3, 9, 11, 15), B8, SECOND, B9);
    Rows(2);
    RowB11();
    NextRow(ROUND_THREE, 8, Three, (1, 9, 5, 13), (3, 9, 11, 15), B8, SECOND, B10);
    Rows(3);
    RowB12();
    NextRow(ROUND_THREE, 12, Three, (3, 11, 7, 15), (3, 9, 11, 15), B8, SECOND, B11);
    assert ROUND_THREE[..16] == ROUND_THREE;
  }

  lemma SecondWords()
    ensures |SECOND| == 16
    ensures SECOND[0] == 0x38373635 && SECOND[1] == 0x32313039 && SECOND[2] == 0x36353433 && SECOND[3] == 0x30393837
    ensures SECOND[4] == 0x80 && SECOND[5] == 0x0 && SECOND[6] == 0x0 && SECOND[7] == 0x0
    ensures SECOND[8] == 0x0 && SECOND[9] == 0x0 && SECOND[10] == 0x0 && SECOND[11] == 0x0
    ensures SECOND[12] == 0x0 && SECOND[13] == 0x0 && SECOND[14] == 0x280 && SECOND[15] == 0x0
  {}

  /** The second block. */
  lemma SecondBlock()
    ensures AllValid(TABLE) && |SECOND| == 16
    ensures Absorb(B0, SECOND) == LAST
  {
    hide Run, SECOND, ROUND_ONE, ROUND_TWO, ROUND_THREE;
    TableValid();
    SecondOne();
    SecondTwo();
    SecondThree();
    RunConcat(ROUND_ONE, ROUND_TWO, B0, SECOND);
    RunConcat(ROUND_ONE + ROUND_TWO, ROUND_THREE, B0, SECOND);
  }

  lemma PaddedDigits()
    ensures |DIGITS| == 80 && Padded(DIGITS) == DIGITS + TAIL
  {
    assert ZeroCount(80) == 39 && BitLength(80) == 640;
    EightBytes();
    assert Padded(DIGITS) == DIGITS + ([0x80] + Zeros(39) + LittleEndian(640, 8));
  }

  lemma EightBytes()
    ensures LittleEndian(640, 8) == [0x80, 0x02, 0, 0, 0, 0, 0, 0]
  {
    assert LittleEndian(0, 2) == [0, 0];
    assert LittleEndian(0, 4) == [0, 0, 0, 0];
    assert LittleEndian(0, 6) == [0, 0, 0, 0, 0, 0];
  }

  lemma WordIs(bs: seq<Byte>, at: nat, w: Word, p: Byte, q: Byte, r: Byte, s: Byte)
    requires at + 4 <= |bs| && Bytes(w) == [p, q, r, s]
    requires bs[at] == p && bs[at + 1] == q && bs[at + 2] == r && bs[at + 3] == s
    ensures LoadWord(bs, at) == w
  {
    hide LoadWord, Bytes;
    LoadWordIs(bs, at);
    assert bs[at..at + 4] == [p, q, r, s];
    BytesInjective(LoadWord(bs, at), w);
  }

  lemma DigitsThere(bs: seq<Byte>, at: nat)
    requires bs == DIGITS + TAIL && at + 4 <= 80 && at % 2 == 0
    ensures |bs| == 128 && LoadWord(bs, at) == DigitWord(at)
  {
    hide LoadWord, Bytes, DigitWord, Digit;
    DigitBytes(at);
    WordIs(bs, at, DigitWord(at), Digit(at), Digit(at + 1), Digit(at + 2), Digit(at + 3));
  }

  lemma DigitBytes(at: nat)
    requires at % 2 == 0
    ensures Bytes(DigitWord(at)) == [Digit(at), Digit(at + 1), Digit(at + 2), Digit(at + 3)]
  {
    hide Bytes;
    WordBytes();
  }

  lemma TailAt(bs: seq<Byte>, at: nat)
    requires bs == DIGITS + TAIL && 80 <= at < 128
    ensures |bs| == 128 && bs[at] == if at == 80 || at == 120 then 0x80 else if at == 121 then 2 else 0
  {
    assert bs[at] == TAIL[at - 80];
  }

  lemma TailThere(bs: seq<Byte>, at: nat)
    requires bs == DIGITS + TAIL && 80 <= at <= 124 && at % 4 == 0
    ensures |bs| == 128 && LoadWord(bs, at) == if at == 80 then 0x80 else if at == 120 then 0x280 else 0
  {
    hide LoadWord, Bytes, DIGITS, TAIL;
    WordBytes();
    TailAt(bs, at);
    TailAt(bs, at + 1);
    TailAt(bs, at + 2);
    TailAt(bs, at + 3);
    var w: Word := if at == 80 then 0x80 else if at == 120 then 0x280 else 0;
    WordIs(bs, at, w, bs[at], bs[at + 1], bs[at + 2], bs[at + 3]);
  }

  lemma FirstLoad(bs: seq<Byte>)
    requires bs == DIGITS + TAIL
    ensures |bs| == 128 && LoadBlock(bs, 0) == FIRST
  {
    hide LoadWord, DigitWord;
    forall i | 0 <= i < 16 ensures LoadBlock(bs, 0)[i] == FIRST[i] {
      DigitsThere(bs, 4 * i);
    }
  }

  lemma SecondLoad(bs: seq<Byte>)
    requires bs == DIGITS + TAIL
    ensures |bs| == 128 && LoadBlock(bs, 64) == SECOND
  {
    hide LoadWord, DigitWord;
    forall i | 0 <= i < 16 ensures LoadBlock(bs, 64)[i] == SECOND[i] {
      if i < 4 {
        DigitsThere(bs, 64 + 4 * i);
      } else {
        TailThere(bs, 64 + 4 * i);
      }
    }
  }

  /** The words of the sample, byte by byte. */
  lemma WordBytes()
    ensures Bytes(0x00000000) == [0x00, 0x00, 0x00, 0x00]
    ensures Bytes(0x00000080) == [0x80, 0x00, 0x00, 0x00]
    ensures Bytes(0x00000280) == [0x80, 0x02, 0x00, 0x00]
    ensures Bytes(0x30393837) == [0x37, 0x38, 0x39, 0x30]
    ensures Bytes(0x32313039) == [0x39, 0x30, 0x31, 0x32]
    ensures Bytes(0x34333231) == [0x31, 0x32, 0x33, 0x34]
    ensures Bytes(0x36353433) == [0x33, 0x34, 0x35, 0x36]
    ensures Bytes(0x38373635) == [0x35, 0x36, 0x37, 0x38]
  {
    hide LittleEndian;
    BytesAre(0x00000000, 0x00000000, 0x00, 0x00, 0x00, 0x00);
    BytesAre(0x00000080, 0x00000080, 0x80, 0x00, 0x00, 0x00);
    BytesAre(0x00000280, 0x00000280, 0x80, 0x02, 0x00, 0x00);
    BytesAre(0x30393837, 0x30393837, 0x37, 0x38, 0x39, 0x30);
    BytesAre(0x32313039, 0x32313039, 0x39, 0x30, 0x31, 0x32);
    BytesAre(0x34333231, 0x34333231, 0x31, 0x32, 0x33, 0x34);
    BytesAre(0x36353433, 0x36353433, 0x33, 0x34, 0x35, 0x36);
    BytesAre(0x38373635, 0x38373635, 0x35, 0x36, 0x37, 0x38);
  }

  lemma BytesAre(x: Word, v: nat, p: Byte, q: Byte, r: Byte, s: Byte)
    requires x as int == v == p as int + 0x100 * q as int + 0x1_0000 * r as int + 0x100_0000 * s as int
    ensures Bytes(x) == [p, q, r, s]
  {
    hide LittleEndian;
    FourBytes(v, p, q, r, s);
  }

  lemma SampleDigest()
    ensures Md4Of(DIGITS) == [0xe3, 0x3b, 0x4d, 0xdc, 0x9c, 0x38, 0xf2, 0x19,
                              0x9c, 0x3e, 0x7b, 0x16, 0x4f, 0xcc, 0x05, 0x36]
  {
    hide Absorb, Padded, LoadBlock, DIGITS, TAIL, FIRST, SECOND, LittleEndian;
    var bs := DIGITS + TAIL;
    PaddedDigits();
    FirstLoad(bs);
    SecondLoad(bs);
    FirstBlock();
    SecondBlock();
    assert A0 == INITIAL;
    assert After(bs, 1) == B0;
    assert After(bs, 2) == LAST;
    LastBytes();
  }

  lemma LastBytes()
    ensures Digest(LAST) == [0xe3, 0x3b, 0x4d, 0xdc, 0x9c, 0x38, 0xf2, 0x19,
                             0x9c, 0x3e, 0x7b, 0x16, 0x4f, 0xcc, 0x05, 0x36]
  {
    hide LittleEndian;
    FourBytes(0xdc4d3be3, 0xe3, 0x3b, 0x4d, 0xdc);
    FourBytes(0x19f2389c, 0x9c, 0x38, 0xf2, 0x19);
    FourBytes(0x167b3e9c, 0x9c, 0x3e, 0x7b, 0x16);
    FourBytes(0x3605cc4f, 0x4f, 0xcc, 0x05, 0x36);
    assert LAST.a as int == 0xdc4d3be3 && LAST.b as int == 0x19f2389c;
    assert LAST.c as int == 0x167b3e9c && LAST.d as int == 0x3605cc4f;
  }
}
