/** What the definitions of the specification amount to, said without them: the nodes in numbers and
    slices of the message, the flag bits, and the pieces of the compression of section 2.2. */
module Laws {
  import opened Bits
  import opened Words
  import opened Spec
  import opened Portable
  import opened Tree

  /* ---------- Nodes ---------- */

  /** The seven flags are the seven lowest bits, in the order of section 2.2. */
  lemma FlagBits()
    ensures CHUNK_START == 1 << 0 && CHUNK_END == 1 << 1 && PARENT == 1 << 2 && ROOT == 1 << 3
    ensures KEYED_HASH == 1 << 4 && DERIVE_KEY_CONTEXT == 1 << 5 && DERIVE_KEY_MATERIAL == 1 << 6
  {
  }

  /** A chunk is a chain of compressions from the key on, one for each block, the first with the
      lowest flag.  Its node is the one over the last block, which is empty only in the empty
      chunk, filled up with zeros, and marked with the next flag. */
  lemma ChunkChain(m: Mode, input: seq<byte>, counter: nat) returns (cvs: seq<Cv>)
    requires |input| <= 1024
    ensures |cvs| >= 1 && cvs[0] == m.key && 64 * (|cvs| - 1) <= |input| <= 64 * |cvs|
    ensures forall i | 0 <= i < |cvs| - 1 ::
              cvs[i + 1] == m.compress(Output(cvs[i], input[64 * i..64 * i + 64], 64, counter,
                                              m.flags | (if i == 0 then 1 else 0)))[..32]
    ensures var o, n := ChunkOutput(m, input, counter), |cvs| - 1;
            && o.inputCv == cvs[n] && o.counter == counter
            && o.flags == m.flags | (if n == 0 then 1 else 0) | 2
            && o.blockLen == |input| - 64 * n && (o.blockLen == 0 <==> input == [])
            && o.block[..o.blockLen] == input[64 * n..]
            && forall i | o.blockLen <= i < 64 :: o.block[i] == 0
  {
    hide *;
    var n := BlocksBefore(|input|);
    LastBlockNode(m, input, counter);
    ChunkFoldNone(m, input, counter);
    cvs := seq(n + 1, i requires 0 <= i <= n => ChunkFold(m, counter, input, i));
    assert |cvs| - 1 == n && cvs[0] == m.key && cvs[n] == ChunkFold(m, counter, input, n);
    forall i | 0 <= i < n
      ensures cvs[i + 1] == m.compress(Output(cvs[i], input[64 * i..64 * i + 64], 64, counter,
                                              m.flags | (if i == 0 then 1 else 0)))[..32]
    {
      ChunkStep(m, input, counter, i);
    }
  }

  lemma LastBlockNode(m: Mode, input: seq<byte>, counter: nat)
    requires |input| <= 1024
    ensures var o, n := ChunkOutput(m, input, counter), BlocksBefore(|input|);
            && 64 * n <= |input| <= 64 * n + 64 && (|input| == 64 * n <==> input == [])
            && o.inputCv == ChunkFold(m, counter, input, n) && o.counter == counter
            && o.flags == m.flags | (if n == 0 then 1 else 0) | 2
            && o.blockLen == |input| - 64 * n && o.block[..o.blockLen] == input[64 * n..]
            && forall i | o.blockLen <= i < 64 :: o.block[i] == 0
  {
    hide ChunkFold;
  }

  lemma ChunkFoldNone(m: Mode, input: seq<byte>, counter: nat)
    ensures ChunkFold(m, counter, input, 0) == m.key
  {
  }

  lemma ChunkStep(m: Mode, input: seq<byte>, counter: nat, i: nat)
    requires 64 * i + 64 <= |input|
    ensures ChunkFold(m, counter, input, i + 1) ==
            m.compress(Output(ChunkFold(m, counter, input, i), input[64 * i..64 * i + 64], 64, counter,
                              m.flags | (if i == 0 then 1 else 0)))[..32]
  {
    assert 64 * i + 64 == 64 * (i + 1);
  }

  /** The node over a power of two chunks and at most as many bytes behind them holds the two
      chaining values, under the key, with counter 0 and the third flag. */
  lemma ParentNode(m: Mode, left: seq<byte>, right: seq<byte>, counter: nat, p: nat)
    requires IsPow2(p) && |left| == 1024 * p && 1 <= |right| <= |left|
    ensures var l, r := SubtreeOutput(m, left, counter), SubtreeOutput(m, right, counter + p);
            SubtreeOutput(m, left + right, counter) ==
            Output(m.key, m.compress(l)[..32] + m.compress(r)[..32], 64, 0, m.flags | 4)
  {
    hide SubtreeOutput;
    Join(m, left, right, counter, p);
  }

  /* ---------- Modes ---------- */

  /** Keys, contexts and modes are told apart by the key and the flags under which nodes are
      compressed. */
  lemma ModesApart(f: Compressor, k1: Cv, k2: Cv, c1: seq<byte>, c2: seq<byte>)
    ensures KeyedMode(f, k1) == KeyedMode(f, k2) <==> k1 == k2
    ensures DeriveKeyMode(f, c1) == DeriveKeyMode(f, c2) <==>
              Hash(Mode(f, StoreWords(IV), 32), c1, 0, 32) == Hash(Mode(f, StoreWords(IV), 32), c2, 0, 32)
    ensures PlainMode(f).flags == 0 && KeyedMode(f, k1).flags == 16 && DeriveKeyMode(f, c1).flags == 64
  {
    hide Hash, StoreWords;
  }

  /* ---------- The compression of section 2.2 ---------- */

  /** The initialisation words are the first 32 bits behind the point of the square roots of the
      first eight primes. */
  lemma IvIsRoots(p: seq<nat>, r: seq<nat>, i: nat)
    requires i < 8 && p == [2, 3, 5, 7, 11, 13, 17, 19]
    requires |r| == 8 && forall j | 0 <= j < 8 :: r[j] * r[j] <= p[j] < (r[j] + 1) * (r[j] + 1)
    ensures var x := r[i] * 0x1_0000_0000 + IV[i] as nat;
            x * x <= p[i] * 0x1_0000_0000_0000_0000 < (x + 1) * (x + 1)
  {
    assert r[i] == [1, 1, 2, 2, 3, 3, 4, 4][i];
  }

  /** A word is stored with its lowest byte first. */
  lemma WordValue(b: seq<byte>)
    requires |b| == 4
    ensures Load32(b) == b[0] as word + 0x100 * b[1] as word + 0x1_0000 * b[2] as word + 0x100_0000 * b[3] as word
  {
  }

  /** Where the arguments of a compression sit in the state. */
  lemma StateLayout(cv: Words8, blockLen: nat, low: nat, high: nat, flags: byte)
    requires low < 0x1_0000_0000 && high < 0x1_0000_0000 && blockLen <= 64
    ensures var s := InitialState(cv, blockLen, low + 0x1_0000_0000 * high, flags);
            && s[..8] == cv && s[8..12] == IV[..4]
            && s[12] == low as word && s[13] == high as word
            && s[14] == blockLen as word && s[15] == flags as word
  {
    CounterHalves(low, high);
    hide CounterLow, CounterHigh, IV;
  }

  lemma CounterHalves(low: nat, high: nat)
    requires low < 0x1_0000_0000 && high < 0x1_0000_0000
    ensures CounterLow(low + 0x1_0000_0000 * high) == low as word
    ensures CounterHigh(low + 0x1_0000_0000 * high) == high as word
  {
    var c := low + 0x1_0000_0000 * high;
    assert c % 0x1_0000_0000 == low && c / 0x1_0000_0000 == high;
    CounterIs(c, low, high);
  }

  lemma CounterIs(c: nat, low: nat, high: nat)
    requires low < 0x1_0000_0000 && high < 0x1_0000_0000
    requires c % 0x1_0000_0000 == low && c / 0x1_0000_0000 == high
    ensures CounterLow(c) == low as word && CounterHigh(c) == high as word
  {
    assert high % 0x1_0000_0000 == high;
  }

  /** The quarter round of section 2.2, step by step. */
  lemma QuarterRound(q: Quad, x: word, y: word)
    ensures var a := Add(Add(q.a, q.b), x);
            var d := Rotr(Xor(q.d, a), 16);
            var c := Add(q.c, d);
            var b := Rotr(Xor(q.b, c), 12);
            var a' := Add(Add(a, b), y);
            var d' := Rotr(Xor(d, a'), 8);
            var c' := Add(c, d');
            var b' := Rotr(Xor(b, c'), 7);
            Mix(q, x, y) == Quad(a', b', c', d')
  {
    hide Rotr, Add, Xor;
  }

  /** Rotating right by n takes bit i from n places higher up, around the end. */
  lemma Rotated16(w: word, i: word)
    requires i < 32
    ensures (Rotr(w, 16) >> i) & 1 == (w >> ((i + 16) & 31)) & 1
  {
  }

  lemma Rotated12(w: word, i: word)
    requires i < 32
    ensures (Rotr(w, 12) >> i) & 1 == (w >> ((i + 12) & 31)) & 1
  {
  }

  lemma Rotated8(w: word, i: word)
    requires i < 32
    ensures (Rotr(w, 8) >> i) & 1 == (w >> ((i + 8) & 31)) & 1
  {
  }

  lemma Rotated7(w: word, i: word)
    requires i < 32
    ensures (Rotr(w, 7) >> i) & 1 == (w >> ((i + 7) & 31)) & 1
  {
  }

  /** The first half of the output is the two halves of the state combined; in the second, outputs
      of one state under two chaining values differ by exactly those. */
  lemma OutputWords(s: StateWords, v: Words8, w: Words8, i: nat)
    requires i < 8
    ensures FeedForward(s, v)[i] == s[i] ^ s[i + 8]
    ensures FeedForward(s, v)[i + 8] ^ FeedForward(s, w)[i + 8] == v[i] ^ w[i]
  {
  }
}
