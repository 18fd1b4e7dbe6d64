/** The portable compression of blake3_portable.c against section 2.2 of "BLAKE3: one function, fast everywhere". */
module Portable {
  import opened Words
  import opened Spec
  import opened Buffers

  type StateWords = w: seq<word> | |w| == 16 witness seq(16, _ => 0)

  /* ---------- The specification: section 2.2 ---------- */

  function Rotr(w: word, c: word): word
    requires 0 < c < 32
  {
    (w >> c) | (w << (32 - c))
  }

  function Rotl(w: word, c: word): word
    requires 0 < c < 32
  {
    (w << c) | (w >> (32 - c))
  }

  /** Word arithmetic is modulo 2^32. */
  function Add(a: word, b: word): word { a + b }
  function Sub(a: word, b: word): word { a - b }
  function Xor(a: word, b: word): word { a ^ b }

  datatype Quad = Quad(a: word, b: word, c: word, d: word)

  /** Half of the mixing function: rotations r and t are 16 and 12, then 8 and 7. */
  function HalfMix(q: Quad, x: word, r: word, t: word): Quad
    requires 0 < r < 32 && 0 < t < 32
  {
    var a := Add(Add(q.a, q.b), x);
    var d := Rotr(Xor(q.d, a), r);
    var c := Add(q.c, d);
    var b := Rotr(Xor(q.b, c), t);
    Quad(a, b, c, d)
  }

  function Mix(q: Quad, x: word, y: word): Quad {
    HalfMix(HalfMix(q, x, 16, 12), y, 8, 7)
  }

  /** The places of a column or diagonal in the 4 by 4 state. */
  predicate Places(a: nat, b: nat, c: nat, d: nat) {
    a < 4 <= b < 8 <= c < 12 <= d < 16
  }

  function Pick(s: StateWords, a: nat, b: nat, c: nat, d: nat): Quad
    requires Places(a, b, c, d)
  {
    Quad(s[a], s[b], s[c], s[d])
  }

  function Put(s: StateWords, a: nat, b: nat, c: nat, d: nat, q: Quad): StateWords
    requires Places(a, b, c, d)
  {
    s[a := q.a][b := q.b][c := q.c][d := q.d]
  }

  function MixAt(s: StateWords, a: nat, b: nat, c: nat, d: nat, x: word, y: word): StateWords
    requires Places(a, b, c, d)
  {
    Put(s, a, b, c, d, Mix(Pick(s, a, b, c, d), x, y))
  }

  function MixColumns(s: StateWords, m: StateWords): StateWords {
    MixAt(MixAt(MixAt(MixAt(s, 0, 4, 8, 12, m[0], m[1]), 1, 5, 9, 13, m[2], m[3]),
                2, 6, 10, 14, m[4], m[5]), 3, 7, 11, 15, m[6], m[7])
  }

  function MixDiagonals(s: StateWords, m: StateWords): StateWords {
    MixAt(MixAt(MixAt(MixAt(s, 0, 5, 10, 15, m[8], m[9]), 1, 6, 11, 12, m[10], m[11]),
                2, 7, 8, 13, m[12], m[13]), 3, 4, 9, 14, m[14], m[15])
  }

  /** A round takes the message words in order. */
  function Round(s: StateWords, m: StateWords): StateWords {
    MixDiagonals(MixColumns(s, m), m)
  }

  /** Between rounds the message words are permuted. */
  function Permute(m: StateWords): StateWords {
    [m[2], m[6], m[3], m[10], m[7], m[0], m[4], m[13], m[1], m[11], m[12], m[5], m[9], m[14], m[15], m[8]]
  }

  function Rounds(s: StateWords, m: StateWords, n: nat): StateWords
    decreases n
  {
    if n == 0 then s else Rounds(Round(s, m), Permute(m), n - 1)
  }

  function CounterLow(counter: nat): word {
    (counter % 0x1_0000_0000) as word
  }

  function CounterHigh(counter: nat): word {
    ((counter / 0x1_0000_0000) % 0x1_0000_0000) as word
  }

  function InitialState(cv: Words8, blockLen: nat, counter: nat, flags: byte): StateWords {
    cv + IV[..4] + [CounterLow(counter), CounterHigh(counter), (blockLen % 0x100) as word, flags as word]
  }

  /** The feed-forward: the halves of the final state combined with each other and with the
      chaining value. */
  function FeedForward(s: StateWords, cv: Words8): StateWords {
    seq(16, i requires 0 <= i < 16 => if i < 8 then Xor(s[i], s[i + 8]) else Xor(s[i], cv[i - 8]))
  }

  /** The compression function of section 2.2, on words. */
  function CompressWords(cv: Words8, m: StateWords, blockLen: nat, counter: nat, flags: byte): StateWords {
    FeedForward(Rounds(InitialState(cv, blockLen, counter, flags), m, 7), cv)
  }

  /** The same on bytes, as the tree uses it. */
  function PortableCompress(o: Output): Block {
    StoreWords(CompressWords(LoadWords(o.inputCv), LoadWords(o.block), o.blockLen, o.counter, o.flags))
  }

  /* ---------- The message schedule ---------- */

  const MSG_SCHEDULE: seq<seq<nat>> :=
    [[0, 1, 2, 3, 4, 5, 6, 7, 8, 9, 10, 11, 12, 13, 14, 15],
     [2, 6, 3, 10, 7, 0, 4, 13, 1, 11, 12, 5, 9, 14, 15, 8],
     [3, 4, 10, 12, 13, 2, 7, 14, 6, 5, 9, 0, 11, 15, 8, 1],
     [10, 7, 12, 9, 14, 3, 13, 15, 4, 0, 11, 2, 5, 8, 1, 6],
     [12, 13, 9, 11, 15, 10, 14, 8, 7, 2, 5, 3, 0, 1, 6, 4],
     [9, 14, 11, 5, 8, 12, 15, 1, 13, 3, 0, 10, 2, 6, 4, 7],
     [11, 15, 5, 0, 1, 9, 8, 6, 14, 10, 2, 12, 3, 4, 7, 13]]

  lemma ScheduleShape(r: nat)
    requires r < 7
    ensures |MSG_SCHEDULE[r]| == 16 && forall i | 0 <= i < 16 :: MSG_SCHEDULE[r][i] < 16
  {
  }

  /** The message words in the order round r takes them. */
  function Scheduled(m: StateWords, r: nat): StateWords
    requires r < 7
  {
    ScheduleShape(r);
    seq(16, i requires 0 <= i < 16 => m[MSG_SCHEDULE[r][i]])
  }

  /** Each row of the schedule is the row before it, permuted. */
  lemma ScheduleIsPermutation(m: StateWords, r: nat)
    requires r < 6
    ensures Scheduled(m, r + 1) == Permute(Scheduled(m, r))
  {
    ScheduleShape(r);
    ScheduleShape(r + 1);
  }

  /** The rounds indexed by the schedule, from round r on. */
  function ScheduledRounds(s: StateWords, m: StateWords, r: nat): StateWords
    requires r <= 7
    decreases 7 - r
  {
    if r == 7 then s else ScheduledRounds(Round(s, Scheduled(m, r)), m, r + 1)
  }

  /** Indexing by the schedule is permuting the message between rounds. */
  lemma {:induction false} ScheduledIsPermuted(s: StateWords, m: StateWords, r: nat)
    requires r < 7
    ensures ScheduledRounds(s, m, r) == Rounds(s, Scheduled(m, r), 7 - r)
    decreases 7 - r
  {
    hide Round, Permute, Scheduled;
    if r < 6 {
      ScheduleIsPermutation(m, r);
      ScheduledIsPermuted(Round(s, Scheduled(m, r)), m, r + 1);
    }
  }

  /** The first row of the schedule takes the message in order. */
  lemma FirstRow(m: StateWords)
    ensures Scheduled(m, 0) == m
  {
    var row := MSG_SCHEDULE[0];
    assert forall i | 0 <= i < 16 :: row[i] == i;
  }

  /** All seven rounds, indexed by the schedule, are the seven rounds of the specification. */
  lemma SevenRounds(s: StateWords, m: StateWords)
    ensures ScheduledRounds(s, m, 0) == Rounds(s, m, 7)
  {
    hide Round, Permute, Scheduled, Rounds, ScheduledRounds;
    FirstRow(m);
    ScheduledIsPermuted(s, m, 0);
  }

  /* ---------- A round is a bijection ---------- */

  /** The rotations of section 2.2. */
  predicate Rotation(c: word) {
    c == 16 || c == 12 || c == 8 || c == 7
  }

  lemma Rotate16(w: word)
    ensures Rotl(Rotr(w, 16), 16) == w && Rotr(Rotl(w, 16), 16) == w
  {
  }

  lemma Rotate12(w: word)
    ensures Rotl(Rotr(w, 12), 12) == w && Rotr(Rotl(w, 12), 12) == w
  {
  }

  lemma Rotate8(w: word)
    ensures Rotl(Rotr(w, 8), 8) == w && Rotr(Rotl(w, 8), 8) == w
  {
  }

  lemma Rotate7(w: word)
    ensures Rotl(Rotr(w, 7), 7) == w && Rotr(Rotl(w, 7), 7) == w
  {
  }

  lemma RotateBack(w: word, c: word)
    requires Rotation(c)
    ensures Rotl(Rotr(w, c), c) == w && Rotr(Rotl(w, c), c) == w
  {
    hide Rotr, Rotl;
    Rotate16(w);
    Rotate12(w);
    Rotate8(w);
    Rotate7(w);
  }

  function HalfUnmix(q: Quad, x: word, r: word, t: word): Quad
    requires 0 < r < 32 && 0 < t < 32
  {
    var b := Xor(Rotl(q.b, t), q.c);
    var c := Sub(q.c, q.d);
    var d := Xor(Rotl(q.d, r), q.a);
    Quad(Sub(Sub(q.a, x), b), b, c, d)
  }

  function Unmix(q: Quad, x: word, y: word): Quad {
    HalfUnmix(HalfUnmix(q, y, 8, 7), x, 16, 12)
  }

  lemma XorTwice(a: word, b: word)
    ensures Xor(Xor(a, b), b) == a
  {
  }

  lemma SubOfSum(a: word, b: word)
    ensures Sub(a + b, b) == a
  {
  }

  lemma SumOfSub(a: word, b: word)
    ensures Add(a - b, b) == a
  {
  }

  lemma AddSub(a: word, b: word)
    ensures Sub(Add(a, b), b) == a
  {
    hide Sub;
    SubOfSum(a, b);
  }

  lemma SubAdd(a: word, b: word)
    ensures Add(Sub(a, b), b) == a
  {
    hide Add;
    SumOfSub(a, b);
  }

  lemma UnmixMix(q: Quad, x: word, r: word, t: word)
    requires Rotation(r) && Rotation(t)
    ensures HalfUnmix(HalfMix(q, x, r, t), x, r, t) == q
  {
    hide Rotr, Rotl, Add, Sub, Xor;
    var p := HalfMix(q, x, r, t);
    RotateBack(Xor(q.d, p.a), r);
    RotateBack(Xor(q.b, p.c), t);
    XorTwice(q.d, p.a);
    XorTwice(q.b, p.c);
    AddSub(q.c, p.d);
    AddSub(Add(q.a, q.b), x);
    AddSub(q.a, q.b);
  }

  lemma MixUnmix(q: Quad, x: word, r: word, t: word)
    requires Rotation(r) && Rotation(t)
    ensures HalfMix(HalfUnmix(q, x, r, t), x, r, t) == q
  {
    hide Rotr, Rotl, Add, Sub, Xor;
    var u := HalfUnmix(q, x, r, t);
    SubAdd(Sub(q.a, x), u.b);
    SubAdd(q.a, x);
    XorTwice(Rotl(q.d, r), q.a);
    RotateBack(q.d, r);
    SubAdd(q.c, q.d);
    XorTwice(Rotl(q.b, t), q.c);
    RotateBack(q.b, t);
  }

  lemma MixInverse(q: Quad, x: word, y: word)
    ensures Unmix(Mix(q, x, y), x, y) == q && Mix(Unmix(q, x, y), x, y) == q
  {
    hide HalfMix, HalfUnmix;
    UnmixMix(q, x, 16, 12);
    UnmixMix(HalfMix(q, x, 16, 12), y, 8, 7);
    MixUnmix(q, y, 8, 7);
    MixUnmix(HalfUnmix(q, y, 8, 7), x, 16, 12);
  }

  function UnmixAt(s: StateWords, a: nat, b: nat, c: nat, d: nat, x: word, y: word): StateWords
    requires Places(a, b, c, d)
  {
    Put(s, a, b, c, d, Unmix(Pick(s, a, b, c, d), x, y))
  }

  lemma MixAtInverse(s: StateWords, a: nat, b: nat, c: nat, d: nat, x: word, y: word)
    requires Places(a, b, c, d)
    ensures UnmixAt(MixAt(s, a, b, c, d, x, y), a, b, c, d, x, y) == s
    ensures MixAt(UnmixAt(s, a, b, c, d, x, y), a, b, c, d, x, y) == s
  {
    hide Mix, Unmix;
    MixInverse(Pick(s, a, b, c, d), x, y);
  }

  function UnmixColumns(s: StateWords, m: StateWords): StateWords {
    UnmixAt(UnmixAt(UnmixAt(UnmixAt(s, 3, 7, 11, 15, m[6], m[7]), 2, 6, 10, 14, m[4], m[5]),
                    1, 5, 9, 13, m[2], m[3]), 0, 4, 8, 12, m[0], m[1])
  }

  function UnmixDiagonals(s: StateWords, m: StateWords): StateWords {
    UnmixAt(UnmixAt(UnmixAt(UnmixAt(s, 3, 4, 9, 14, m[14], m[15]), 2, 7, 8, 13, m[12], m[13]),
                    1, 6, 11, 12, m[10], m[11]), 0, 5, 10, 15, m[8], m[9])
  }

  function Unround(s: StateWords, m: StateWords): StateWords {
    UnmixColumns(UnmixDiagonals(s, m), m)
  }

  lemma ColumnsInverse(s: StateWords, m: StateWords)
    ensures UnmixColumns(MixColumns(s, m), m) == s && MixColumns(UnmixColumns(s, m), m) == s
  {
    hide MixAt, UnmixAt;
    var s1 := MixAt(s, 0, 4, 8, 12, m[0], m[1]);
    var s2 := MixAt(s1, 1, 5, 9, 13, m[2], m[3]);
    var s3 := MixAt(s2, 2, 6, 10, 14, m[4], m[5]);
    MixAtInverse(s, 0, 4, 8, 12, m[0], m[1]);
    MixAtInverse(s1, 1, 5, 9, 13, m[2], m[3]);
    MixAtInverse(s2, 2, 6, 10, 14, m[4], m[5]);
    MixAtInverse(s3, 3, 7, 11, 15, m[6], m[7]);
    var t1 := UnmixAt(s, 3, 7, 11, 15, m[6], m[7]);
    var t2 := UnmixAt(t1, 2, 6, 10, 14, m[4], m[5]);
    var t3 := UnmixAt(t2, 1, 5, 9, 13, m[2], m[3]);
    MixAtInverse(s, 3, 7, 11, 15, m[6], m[7]);
    MixAtInverse(t1, 2, 6, 10, 14, m[4], m[5]);
    MixAtInverse(t2, 1, 5, 9, 13, m[2], m[3]);
    MixAtInverse(t3, 0, 4, 8, 12, m[0], m[1]);
  }

  lemma DiagonalsInverse(s: StateWords, m: StateWords)
    ensures UnmixDiagonals(MixDiagonals(s, m), m) == s && MixDiagonals(UnmixDiagonals(s, m), m) == s
  {
    hide MixAt, UnmixAt;
    var s1 := MixAt(s, 0, 5, 10, 15, m[8], m[9]);
    var s2 := MixAt(s1, 1, 6, 11, 12, m[10], m[11]);
    var s3 := MixAt(s2, 2, 7, 8, 13, m[12], m[13]);
    MixAtInverse(s, 0, 5, 10, 15, m[8], m[9]);
    MixAtInverse(s1, 1, 6, 11, 12, m[10], m[11]);
    MixAtInverse(s2, 2, 7, 8, 13, m[12], m[13]);
    MixAtInverse(s3, 3, 4, 9, 14, m[14], m[15]);
    var t1 := UnmixAt(s, 3, 4, 9, 14, m[14], m[15]);
    var t2 := UnmixAt(t1, 2, 7, 8, 13, m[12], m[13]);
    var t3 := UnmixAt(t2, 1, 6, 11, 12, m[10], m[11]);
    MixAtInverse(s, 3, 4, 9, 14, m[14], m[15]);
    MixAtInverse(t1, 2, 7, 8, 13, m[12], m[13]);
    MixAtInverse(t2, 1, 6, 11, 12, m[10], m[11]);
    MixAtInverse(t3, 0, 5, 10, 15, m[8], m[9]);
  }

  /** For a fixed message a round can be undone, and is onto. */
  lemma RoundIsBijection(s: StateWords, m: StateWords)
    ensures Unround(Round(s, m), m) == s && Round(Unround(s, m), m) == s
  {
    hide MixColumns, MixDiagonals, UnmixColumns, UnmixDiagonals;
    DiagonalsInverse(MixColumns(s, m), m);
    ColumnsInverse(s, m);
    ColumnsInverse(UnmixDiagonals(s, m), m);
    DiagonalsInverse(s, m);
  }

  /* ---------- The program ---------- */

  /** Mix four words of the state in place. */
  method G(state: array<word>, a: nat, b: nat, c: nat, d: nat, x: word, y: word)
    requires state.Length == 16 && Places(a, b, c, d)
    modifies state
    ensures state[..] == MixAt(old(state[..]), a, b, c, d, x, y)
  {
    hide Rotr, Add, Xor;
    ghost var q := Pick(state[..], a, b, c, d);
    state[a] := Add(Add(state[a], state[b]), x);
    state[d] := Rotr(Xor(state[d], state[a]), 16);
    state[c] := Add(state[c], state[d]);
    state[b] := Rotr(Xor(state[b], state[c]), 12);
    assert Pick(state[..], a, b, c, d) == HalfMix(q, x, 16, 12);
    state[a] := Add(Add(state[a], state[b]), y);
    state[d] := Rotr(Xor(state[d], state[a]), 8);
    state[c] := Add(state[c], state[d]);
    state[b] := Rotr(Xor(state[b], state[c]), 7);
    assert Pick(state[..], a, b, c, d) == Mix(q, x, y);
  }

  /** One round in place, its message words picked by the schedule. */
  method RoundFn(state: array<word>, msg: StateWords, round: nat)
    requires state.Length == 16 && round < 7
    modifies state
    ensures state[..] == Round(old(state[..]), Scheduled(msg, round))
  {
    hide MixAt, Scheduled;
    ScheduleShape(round);
    var schedule := MSG_SCHEDULE[round];
    ScheduledAt(msg, round);
    // Mix the columns.
    G(state, 0, 4, 8, 12, msg[schedule[0]], msg[schedule[1]]);
    G(state, 1, 5, 9, 13, msg[schedule[2]], msg[schedule[3]]);
    G(state, 2, 6, 10, 14, msg[schedule[4]], msg[schedule[5]]);
    G(state, 3, 7, 11, 15, msg[schedule[6]], msg[schedule[7]]);
    // Mix the diagonals.
    G(state, 0, 5, 10, 15, msg[schedule[8]], msg[schedule[9]]);
    G(state, 1, 6, 11, 12, msg[schedule[10]], msg[schedule[11]]);
    G(state, 2, 7, 8, 13, msg[schedule[12]], msg[schedule[13]]);
    G(state, 3, 4, 9, 14, msg[schedule[14]], msg[schedule[15]]);
  }

  lemma ScheduledAt(msg: StateWords, round: nat)
    requires round < 7
    ensures |MSG_SCHEDULE[round]| == 16 && forall i | 0 <= i < 16 :: MSG_SCHEDULE[round][i] < 16
    ensures forall i | 0 <= i < 16 :: Scheduled(msg, round)[i] == msg[MSG_SCHEDULE[round][i]]
  {
    ScheduleShape(round);
  }

  /** Set up the state and run all seven rounds. */
  method CompressPre(state: array<word>, cv: Words8, block: Block, blockLen: nat, counter: nat, flags: byte)
    requires state.Length == 16
    modifies state
    ensures state[..] == Rounds(InitialState(cv, blockLen, counter, flags), LoadWords(block), 7)
  {
    hide Round, Scheduled, Rounds, ScheduledRounds, InitialState;
    var blockWords := LoadWords(block);
    ghost var init := InitialState(cv, blockLen, counter, flags);
    SetUp(state, cv, blockLen, counter, flags);
    for round := 0 to 7
      invariant ScheduledRounds(state[..], blockWords, round) == ScheduledRounds(init, blockWords, 0)
    {
      ScheduledNext(state[..], blockWords, round);
      RoundFn(state, blockWords, round);
    }
    ScheduledDone(state[..], blockWords);
    SevenRounds(init, blockWords);
  }

  lemma ScheduledNext(s: StateWords, m: StateWords, r: nat)
    requires r < 7
    ensures ScheduledRounds(s, m, r) == ScheduledRounds(Round(s, Scheduled(m, r)), m, r + 1)
  {
  }

  lemma ScheduledDone(s: StateWords, m: StateWords)
    ensures ScheduledRounds(s, m, 7) == s
  {
  }

  method SetUp(state: array<word>, cv: Words8, blockLen: nat, counter: nat, flags: byte)
    requires state.Length == 16
    modifies state
    ensures state[..] == InitialState(cv, blockLen, counter, flags)
  {
    hide CounterLow, CounterHigh;
    forall i | 0 <= i < 8 {
      state[i] := cv[i];
    }
    forall i | 8 <= i < 12 {
      state[i] := IV[i - 8];
    }
    state[12] := CounterLow(counter);
    state[13] := CounterHigh(counter);
    state[14] := (blockLen % 0x100) as word;
    state[15] := flags as word;
  }

  /** Compress into a chaining value in place: what any kernel does, for this compression. */
  method CompressInPlacePortable(cv: array<word>, block: Block, blockLen: nat, counter: nat, flags: byte)
    requires cv.Length == 8
    modifies cv
    ensures cv[..] == CompressWords(old(cv[..]), LoadWords(block), blockLen, counter, flags)[..8]
    ensures StoreWords(cv[..]) ==
            CvOf(PortableCompress, Output(StoreWords(old(cv[..])), block, blockLen, counter, flags))
  {
    hide Rounds, InitialState, LoadWords, StoreWords, Xor, CvOf;
    ghost var before := cv[..];
    var state := new word[16](_ => 0);
    CompressPre(state, cv[..], block, blockLen, counter, flags);
    var s := state[..];
    forall i | 0 <= i < 8 {
      cv[i] := Xor(s[i], s[i + 8]);
    }
    assert cv[..] == FeedForward(s, before)[..8];
    FirstHalf(before, block, blockLen, counter, flags);
  }

  /** The chaining value of the portable compression is its first eight output words. */
  lemma FirstHalf(cv: Words8, block: Block, blockLen: nat, counter: nat, flags: byte)
    ensures StoreWords(CompressWords(cv, LoadWords(block), blockLen, counter, flags)[..8])
         == CvOf(PortableCompress, Output(StoreWords(cv), block, blockLen, counter, flags))
  {
    hide CompressWords, LoadWords, StoreWords;
    LoadStoreWords(cv);
    StorePrefix(CompressWords(cv, LoadWords(block), blockLen, counter, flags), 8);
  }

  /** Storing a prefix of the words gives a prefix of the bytes. */
  lemma StorePrefix(w: seq<word>, n: nat)
    requires n <= |w|
    ensures StoreWords(w[..n]) == StoreWords(w)[..4 * n]
  {
  }

  /** Compress to all 64 output bytes. */
  method CompressXofPortable(cv: Words8, block: Block, blockLen: nat, counter: nat, flags: byte,
                             out: array<byte>, off: nat)
    requires off + 64 <= out.Length
    modifies out
    ensures out[off..off + 64] == PortableCompress(Output(StoreWords(cv), block, blockLen, counter, flags))
    ensures SameOutside(old(out[..]), out[..], off, off + 64)
  {
    hide Rounds, InitialState, LoadWords, StoreWords, Xor;
    var state := new word[16](_ => 0);
    CompressPre(state, cv, block, blockLen, counter, flags);
    var s := state[..];
    var words: StateWords :=
      seq(16, i requires 0 <= i < 16 => if i < 8 then Xor(s[i], s[i + 8]) else Xor(s[i], cv[i - 8]));
    assert words == FeedForward(s, cv);
    LoadStoreWords(cv);
    Memcpy(out, off, StoreWords(words));
  }
}
