/** One output the tests of the repository expect, computed from the specification: so that its
    constants, the order of its steps and the layout of its bytes are the ones of BLAKE3.

    The rounds are computed on four rows of four words, turned so that the diagonals are columns. */
module KnownAnswer {
  import opened Bits
  import opened Words
  import opened Spec
  import opened Portable
  import opened RootOutput
  import opened Laws

  /* ---------- Rounds by rows ---------- */

  datatype Rows = Rows(a: Quad, b: Quad, c: Quad, d: Quad)

  function RowsOf(s: StateWords): Rows {
    Rows(Quad(s[0], s[1], s[2], s[3]), Quad(s[4], s[5], s[6], s[7]),
         Quad(s[8], s[9], s[10], s[11]), Quad(s[12], s[13], s[14], s[15]))
  }

  /** Mix the four columns, each with one word of x and one of y. */
  function MixRows(r: Rows, x: Quad, y: Quad): Rows {
    var p, q := Mix(Quad(r.a.a, r.b.a, r.c.a, r.d.a), x.a, y.a), Mix(Quad(r.a.b, r.b.b, r.c.b, r.d.b), x.b, y.b);
    var s, t := Mix(Quad(r.a.c, r.b.c, r.c.c, r.d.c), x.c, y.c), Mix(Quad(r.a.d, r.b.d, r.c.d, r.d.d), x.d, y.d);
    Rows(Quad(p.a, q.a, s.a, t.a), Quad(p.b, q.b, s.b, t.b), Quad(p.c, q.c, s.c, t.c), Quad(p.d, q.d, s.d, t.d))
  }

  function Turn(q: Quad): Quad {
    Quad(q.b, q.c, q.d, q.a)
  }

  function Evens(a: Quad, b: Quad): Quad {
    Quad(a.a, a.c, b.a, b.c)
  }

  function Odds(a: Quad, b: Quad): Quad {
    Quad(a.b, a.d, b.b, b.d)
  }

  /** Bring the diagonals into columns, and back. */
  function Diagonals(r: Rows): Rows {
    Rows(r.a, Turn(r.b), Turn(Turn(r.c)), Turn(Turn(Turn(r.d))))
  }

  function Undiagonals(r: Rows): Rows {
    Rows(r.a, Turn(Turn(Turn(r.b))), Turn(Turn(r.c)), Turn(r.d))
  }

  function ColumnRows(r: Rows, m: Rows): Rows {
    MixRows(r, Evens(m.a, m.b), Odds(m.a, m.b))
  }

  function DiagonalRows(r: Rows, m: Rows): Rows {
    Undiagonals(MixRows(Diagonals(r), Evens(m.c, m.d), Odds(m.c, m.d)))
  }

  function PermuteRows(m: Rows): Rows {
    Rows(Quad(m.a.c, m.b.c, m.a.d, m.c.c), Quad(m.b.d, m.a.a, m.b.a, m.d.b),
         Quad(m.a.b, m.c.d, m.d.a, m.b.b), Quad(m.c.b, m.d.c, m.d.d, m.c.a))
  }

  function RoundsByRows(r: Rows, m: Rows, n: nat): Rows
    decreases n
  {
    if n == 0 then r else RoundsByRows(DiagonalRows(ColumnRows(r, m), m), PermuteRows(m), n - 1)
  }

  lemma ColumnsByRows(s: StateWords, m: StateWords)
    ensures RowsOf(MixColumns(s, m)) == ColumnRows(RowsOf(s), RowsOf(m))
  {
    hide Mix;
  }

  lemma DiagonalsByRows(s: StateWords, m: StateWords)
    ensures RowsOf(MixDiagonals(s, m)) == DiagonalRows(RowsOf(s), RowsOf(m))
  {
    hide Mix;
  }

  lemma RoundByRows(s: StateWords, m: StateWords)
    ensures RowsOf(Round(s, m)) == DiagonalRows(ColumnRows(RowsOf(s), RowsOf(m)), RowsOf(m))
    ensures RowsOf(Permute(m)) == PermuteRows(RowsOf(m))
  {
    hide MixColumns, MixDiagonals, ColumnRows, DiagonalRows;
    ColumnsByRows(s, m);
    DiagonalsByRows(MixColumns(s, m), m);
  }

  /** Rounds on the state as a list of words are rounds on its rows. */
  lemma {:induction false} RoundsAreByRows(s: StateWords, m: StateWords, n: nat)
    ensures RowsOf(Rounds(s, m, n)) == RoundsByRows(RowsOf(s), RowsOf(m), n)
    decreases n
  {
    hide RowsOf, Round, Permute, PermuteRows, DiagonalRows, ColumnRows;
    if n > 0 {
      RoundByRows(s, m);
      RoundsAreByRows(Round(s, m), Permute(m), n - 1);
    }
  }

  /* ---------- The compression of the test's message ---------- */

  /** "BLAKE3 - JVM Custom Output Length" */
  const MESSAGE: seq<byte> :=
    [0x42, 0x4c, 0x41, 0x4b, 0x45, 0x33, 0x20, 0x2d, 0x20, 0x4a, 0x56, 0x4d, 0x20, 0x43, 0x75, 0x73,
     0x74, 0x6f, 0x6d, 0x20, 0x4f, 0x75, 0x74, 0x70, 0x75, 0x74, 0x20, 0x4c, 0x65, 0x6e, 0x67, 0x74,
     0x68]

  const BLOCK: Block := Pad(MESSAGE)

  /** Its words, as they are and permuted for each round. */
  const M0: Rows :=
    Rows(Quad(0x4B414C42, 0x2D203345, 0x4D564A20, 0x73754320), Quad(0x206D6F74, 0x7074754F, 0x4C207475, 0x74676E65),
         Quad(0x00000068, 0x00000000, 0x00000000, 0x00000000), Quad(0x00000000, 0x00000000, 0x00000000, 0x00000000))
  const M1 := PermuteRows(M0)
  const M2 := PermuteRows(M1)
  const M3 := PermuteRows(M2)
  const M4 := PermuteRows(M3)
  const M5 := PermuteRows(M4)
  const M6 := PermuteRows(M5)

  /** The state before the first round, and after the columns and the diagonals of each. */
  const S0: Rows :=
    Rows(Quad(0x6A09E667, 0xBB67AE85, 0x3C6EF372, 0xA54FF53A), Quad(0x510E527F, 0x9B05688C, 0x1F83D9AB, 0x5BE0CD19),
         Quad(0x6A09E667, 0xBB67AE85, 0x3C6EF372, 0xA54FF53A), Quad(0x00000000, 0x00000000, 0x00000021, 0x0000000B))
  const C0: Rows :=
    Rows(Quad(0x1F759C68, 0xC3811E14, 0x546B1BAB, 0xBAE12465), Quad(0x43966F53, 0x8CB0E8F5, 0xE4463C45, 0x99D36E37),
         Quad(0x20CC4A5A, 0xF43C0305, 0x44884B39, 0x109F64F4), Quad(0x319A5D9A, 0xD7A2B0BD, 0xCB68DB67, 0x348C2269))
  const S1: Rows :=
    Rows(Quad(0x5D8C8E05, 0x19171CA5, 0xCA5AC970, 0x75EF7C8D), Quad(0x71705F01, 0x725A9217, 0x2EC39C1B, 0xD136056C),
         Quad(0x471E89E6, 0xCF58686D, 0x9C2F03F9, 0x1081CFDB), Quad(0xF81ED48A, 0xECF305F0, 0x923D3049, 0xAFFA2016))
  const C1: Rows :=
    Rows(Quad(0x7B99674E, 0x88420FCA, 0xB36C32DB, 0x3A85FE26), Quad(0x0A7A8C30, 0xE254B7EA, 0xAE333997, 0x81C43535),
         Quad(0x2E63A3B6, 0xA300E89F, 0xE339D97E, 0x30E99679), Quad(0x03983583, 0xDF7C6E1D, 0x6350D5CD, 0x4EEBFE36))
  const S2: Rows :=
    Rows(Quad(0x13A52F8F, 0x05F9FE3F, 0xE8ABC36B, 0x72F11926), Quad(0x8CAA73EE, 0xBEE5A6A6, 0x7DBEA9AF, 0xE1DE36DE),
         Quad(0x5C60342B, 0x78C9792E, 0xFA458E4D, 0x8044E831), Quad(0xD2791BCB, 0x27EEA629, 0x762D6A3F, 0x6ABFEEEA))
  const C2: Rows :=
    Rows(Quad(0x949FA7D9, 0x747BFC24, 0x2778847D, 0x9F79CFD4), Quad(0x0DBC9BDD, 0x827D2288, 0xD6907A62, 0x9BF1B72E),
         Quad(0xBE20BF4E, 0x910D137E, 0x3B8AFC28, 0x2E988626), Quad(0x6469C966, 0x1576B71F, 0x3A205D94, 0x5DCFFA6C))
  const S3: Rows :=
    Rows(Quad(0x6CD9D7A6, 0x94E15154, 0xE7B74DED, 0xEEF391C1), Quad(0xF31DCDB5, 0x059B8B79, 0x0BC26073, 0x8E301B16),
         Quad(0x3C409905, 0x9A7A289A, 0x54ED9F03, 0x1FA3B709), Quad(0x312B017E, 0xF16B039B, 0xD7DF7E06, 0x54A863E9))
  const C3: Rows :=
    Rows(Quad(0x79A04B7C, 0x2704A17E, 0xA491DA9A, 0x3549B9F6), Quad(0x74480575, 0x94DE9E45, 0x7AB8D4A5, 0x77A9F4AA),
         Quad(0x81438D06, 0xE3C8E67B, 0x61C8BBA7, 0x6CDC5824), Quad(0xA0DD8525, 0x69F852CA, 0x3C74F7FE, 0x7DFA7790))
  const S4: Rows :=
    Rows(Quad(0x89ADF080, 0xC12615EB, 0xFAFE4843, 0x662C3D22), Quad(0xD52645C3, 0xD2512AB8, 0x60720C58, 0x679B8835),
         Quad(0xA38A19FB, 0xD07B3417, 0x27151760, 0xEB147998), Quad(0x8B322014, 0x0BECA7AD, 0xE76362D7, 0x96A708A3))
  const C4: Rows :=
    Rows(Quad(0x00FB02BD, 0xF41D9E31, 0x4E2425D8, 0x9AA5AEF4), Quad(0x856DBCA1, 0x6C027504, 0x63B4D3DA, 0xB1037B9F),
         Quad(0x14F89CB8, 0x619CDFB8, 0x28DA3C0C, 0x4D6026ED), Quad(0x5B16ACD7, 0xAA131306, 0xCB786899, 0x945751F5))
  const S5: Rows :=
    Rows(Quad(0x7273FB42, 0xDA3BE010, 0xE2534CAE, 0x46C84551), Quad(0x6D7DB02E, 0x62239736, 0x4C8E018A, 0xDF043E84),
         Quad(0xE8D569DF, 0x04FEE2E5, 0x527351CD, 0xD97F70B0), Quad(0x4091B673, 0xD51CECAC, 0x1ACE5BE2, 0x71C5A08E))
  const C5: Rows :=
    Rows(Quad(0x710835BB, 0x5EC0193A, 0x76440258, 0xF6BEF509), Quad(0x44E0A73D, 0x7B5685B7, 0x1530F47F, 0x6ABCC52F),
         Quad(0xE14514E9, 0x1AAEF718, 0xDF188C32, 0xFDB0AA5A), Quad(0xDB6C0BAA, 0x79C52AF0, 0x77630636, 0x00D5E5A1))
  const S6: Rows :=
    Rows(Quad(0x30786A41, 0x6BA6AD2A, 0x0FBEE826, 0x2C2B47D7), Quad(0x9575D408, 0xD9B1FE9F, 0x5CD090AB, 0x608B2C68),
         Quad(0xD0D1563A, 0xE15CC9F2, 0x085B2443, 0xC43C0681), Quad(0x7439F7C9, 0xB434E9BF, 0xB921A76C, 0xCA6EAB86))
  const C6: Rows :=
    Rows(Quad(0x877F30C6, 0x5855A87D, 0xE1549C73, 0xEBF32682), Quad(0xDED463EB, 0x6EF3A70B, 0xA0AC3707, 0xBFDD1C45),
         Quad(0xABA10792, 0x2E94BE94, 0x11BF738D, 0xFD921FB9), Quad(0x114EFF81, 0x8490F2A9, 0xFDEA2EBC, 0x5A34D260))
  const S7: Rows :=
    Rows(Quad(0x83FA6FFC, 0x62DF5B58, 0xEDE51844, 0x6A6CB650), Quad(0x6565047D, 0x7AB8E1E7, 0xDE7DD682, 0x513E4F01),
         Quad(0x27F72C50, 0x99BF83CC, 0xD1F76B96, 0x226C70DB), Quad(0x4EB4FA0C, 0x72E49488, 0x94BC0274, 0xBA864BC3))

  lemma Round0()
    ensures ColumnRows(S0, M0) == C0 && DiagonalRows(C0, M0) == S1
  {
  }

  lemma Round1()
    ensures ColumnRows(S1, M1) == C1 && DiagonalRows(C1, M1) == S2
  {
  }

  lemma Round2()
    ensures ColumnRows(S2, M2) == C2 && DiagonalRows(C2, M2) == S3
  {
  }

  lemma Round3()
    ensures ColumnRows(S3, M3) == C3 && DiagonalRows(C3, M3) == S4
  {
  }

  lemma Round4()
    ensures ColumnRows(S4, M4) == C4 && DiagonalRows(C4, M4) == S5
  {
  }

  lemma Round5()
    ensures ColumnRows(S5, M5) == C5 && DiagonalRows(C5, M5) == S6
  {
  }

  lemma Round6()
    ensures ColumnRows(S6, M6) == C6 && DiagonalRows(C6, M6) == S7
  {
  }

  lemma AllRounds()
    ensures RoundsByRows(S0, M0, 7) == S7
  {
    hide ColumnRows, DiagonalRows, PermuteRows, S0, S1, S2, S3, S4, S5, S6, S7, C0, C1, C2, C3, C4, C5, C6, M0;
    Round0();
    Round1();
    Round2();
    Round3();
    Round4();
    Round5();
    Round6();
  }

  /** The words of the message, filled up with zeros. */
  lemma MessageLoads()
    ensures Load32([0x42, 0x4c, 0x41, 0x4b]) == 0x4B414C42
    ensures Load32([0x45, 0x33, 0x20, 0x2d]) == 0x2D203345
    ensures Load32([0x20, 0x4a, 0x56, 0x4d]) == 0x4D564A20
    ensures Load32([0x20, 0x43, 0x75, 0x73]) == 0x73754320
    ensures Load32([0x74, 0x6f, 0x6d, 0x20]) == 0x206D6F74
    ensures Load32([0x4f, 0x75, 0x74, 0x70]) == 0x7074754F
    ensures Load32([0x75, 0x74, 0x20, 0x4c]) == 0x4C207475
    ensures Load32([0x65, 0x6e, 0x67, 0x74]) == 0x74676E65
    ensures Load32([0x68, 0x00, 0x00, 0x00]) == 0x00000068
    ensures Load32([0x00, 0x00, 0x00, 0x00]) == 0x00000000
  {
  }

  lemma WordOf(b: seq<byte>, i: nat)
    requires |b| % 4 == 0 && 4 * i + 4 <= |b|
    ensures LoadWords(b)[i] == Load32([b[4 * i], b[4 * i + 1], b[4 * i + 2], b[4 * i + 3]])
  {
    hide Load32;
    assert b[4 * i..4 * i + 4] == [b[4 * i], b[4 * i + 1], b[4 * i + 2], b[4 * i + 3]];
  }

  lemma MessageWords()
    ensures RowsOf(LoadWords(BLOCK)) == M0
  {
    hide Load32, LoadWords;
    MessageLoads();
    forall i | 0 <= i < 16 {
      WordOf(BLOCK, i);
    }
  }

  /** What is initialised before the first round. */
  lemma FirstState()
    ensures RowsOf(InitialState(IV, 33, 0, 11)) == S0
  {
  }

  /* ---------- What the test expects ---------- */

  const EXPECTED: seq<byte> :=
    [0xac, 0x43, 0x0d, 0xa4, 0x94, 0xd8, 0x60, 0xfb, 0xd2, 0x73,
     0x12, 0x3c, 0x8b, 0xc6, 0x00, 0x48, 0x71, 0xfe, 0xd1, 0x2b,
     0x6f, 0x75, 0x5c, 0x08, 0xf6, 0xd4, 0xc1, 0x4a, 0xc2, 0x04,
     0xb8, 0xeb, 0x37, 0xca, 0xfe, 0x4d, 0x49, 0x2d, 0xd8, 0x22]

  const LAST: seq<word> :=
    [0xA40D43AC, 0xFB60D894, 0x3C1273D2, 0x4800C68B, 0x2BD1FE71, 0x085C756F,
     0x4AC1D4F6, 0xEBB804C2, 0x4DFECA37, 0x22D82D49]

  lemma LastWords(s: StateWords)
    requires RowsOf(s) == S7
    ensures FeedForward(s, IV)[..10] == LAST
  {
  }

  lemma LastLoads()
    ensures Load32([0xac, 0x43, 0x0d, 0xa4]) == 0xA40D43AC
    ensures Load32([0x94, 0xd8, 0x60, 0xfb]) == 0xFB60D894
    ensures Load32([0xd2, 0x73, 0x12, 0x3c]) == 0x3C1273D2
    ensures Load32([0x8b, 0xc6, 0x00, 0x48]) == 0x4800C68B
    ensures Load32([0x71, 0xfe, 0xd1, 0x2b]) == 0x2BD1FE71
    ensures Load32([0x6f, 0x75, 0x5c, 0x08]) == 0x085C756F
    ensures Load32([0xf6, 0xd4, 0xc1, 0x4a]) == 0x4AC1D4F6
    ensures Load32([0xc2, 0x04, 0xb8, 0xeb]) == 0xEBB804C2
    ensures Load32([0x37, 0xca, 0xfe, 0x4d]) == 0x4DFECA37
    ensures Load32([0x49, 0x2d, 0xd8, 0x22]) == 0x22D82D49
  {
  }

  lemma LastBytes()
    ensures StoreWords(LAST) == EXPECTED
  {
    hide Load32, LoadWords, StoreWords;
    LastLoads();
    forall i | 0 <= i < 10 {
      WordOf(EXPECTED, i);
    }
    var w := LoadWords(EXPECTED);
    assert w == [w[0], w[1], w[2], w[3], w[4], w[5], w[6], w[7], w[8], w[9]];
    StoreLoadWords(EXPECTED);
  }

  /** The node of the message, and its compression as the root. */
  lemma MessageNode(f: Compressor)
    ensures SubtreeOutput(PlainMode(f), MESSAGE, 0) == Output(StoreWords(IV), BLOCK, 33, 0, 3)
  {
    hide StoreWords;
    assert MESSAGE[0..] == MESSAGE;
  }

  lemma MessageBlock()
    ensures PortableCompress(Output(StoreWords(IV), BLOCK, 33, 0, 11))[..40] == EXPECTED
  {
    hide *;
    var w := LoadWords(BLOCK);
    var s := Rounds(InitialState(IV, 33, 0, 11), w, 7);
    MessageWords();
    FirstState();
    RoundsAreByRows(InitialState(IV, 33, 0, 11), w, 7);
    AllRounds();
    LastWords(s);
    LastBytes();
    StorePrefix(FeedForward(s, IV), 10);
    CompressIs();
  }

  lemma CompressIs()
    ensures PortableCompress(Output(StoreWords(IV), BLOCK, 33, 0, 11)) ==
            StoreWords(FeedForward(Rounds(InitialState(IV, 33, 0, 11), LoadWords(BLOCK), 7), IV))
  {
    hide Rounds, InitialState, FeedForward, LoadWords, StoreWords;
    LoadStoreWords(IV);
  }

  /** The 40 bytes the test expects are the ones specified. */
  lemma ExpectedOutput()
    ensures Hash(PlainMode(PortableCompress), MESSAGE, 0, 40) == EXPECTED
  {
    hide *;
    var m := PlainMode(PortableCompress);
    MessageNode(PortableCompress);
    HashBlock(m, MESSAGE, 0);
    HashJoin(m, MESSAGE, 0, 40, 24);
    MessageBlock();
    assert m.compress == PortableCompress by {
      PlainCompress();
    }
  }

  lemma PlainCompress()
    ensures PlainMode(PortableCompress).compress == PortableCompress
  {
  }
}
