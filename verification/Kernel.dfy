/** The kernels that blake3_dispatch.c forwards to, and the loops built on them: whole inputs
    hashed block by block, many inputs hashed in a row, and many output blocks. */
module Kernel {
  import opened Bits
  import opened Words
  import opened Spec
  import opened Buffers
  import opened Portable

  /** The code the dispatcher picks, the portable code or a SIMD kernel for the processor, each with
      the function it computes. */
  datatype Code = PortableCode(compress: Compressor) | SimdCode(compress: Compressor)

  /** Of a SIMD kernel nothing more is known; the portable code computes the compression of
      section 2.2. */
  type Engine = k: Code |
    k.PortableCode? ==> forall o: Output {:trigger PortableCompress(o)} :: k.compress(o) == PortableCompress(o)
    witness PortableCode(PortableCompress)

  /** The flags of parents and of the root. */
  predicate Watched(flags: byte) {
    flags & (PARENT | ROOT) != 0
  }

  /** The nodes that have been compressed: of those compressed to a chaining value the ones whose
      flags are watched, and all of those compressed to output blocks.  Every compression goes
      through CompressInPlace or CompressXof, which record it here. */
  class Trace {
    ghost var parents: set<Output>
    ghost var outputs: set<Output>

    ghost constructor ()
      ensures parents == {} && outputs == {}
    {
      parents, outputs := {}, {};
    }
  }

  /** What one compression to a chaining value adds to a trace. */
  ghost function Seen(o: Output): set<Output> {
    if Watched(o.flags) then {o} else {}
  }

  /** A SIMD kernel, of which only the function it computes is known. */
  method CompressInPlaceSimd(f: Compressor, cv: array<word>, block: Block, blockLen: nat, counter: u64,
                             flags: byte)
    requires cv.Length == 8
    modifies cv
    ensures StoreWords(cv[..]) == CvOf(f, Output(StoreWords(old(cv[..])), block, blockLen, counter, flags))
  {
    hide StoreWords;
    var out := CvOf(f, Output(StoreWords(cv[..]), block, blockLen, counter, flags));
    var w := LoadWords(out);
    forall i | 0 <= i < 8 {
      cv[i] := w[i];
    }
    assert cv[..] == w;
    StoreLoadWords(out);
  }

  /** Compress one block into a chaining value, in place. */
  method CompressInPlace(k: Engine, cv: array<word>, block: Block, blockLen: nat, counter: u64,
                         flags: byte, ghost t: Trace)
    requires cv.Length == 8
    modifies cv, t`parents
    ensures StoreWords(cv[..]) ==
            CvOf(k.compress, Output(StoreWords(old(cv[..])), block, blockLen, counter, flags))
    ensures t.parents ==
            old(t.parents) + Seen(Output(StoreWords(old(cv[..])), block, blockLen, counter, flags))
  {
    hide PortableCompress, StoreWords, CompressWords, LoadWords;
    ghost var o := Output(StoreWords(cv[..]), block, blockLen, counter, flags);
    match k {
      case PortableCode(_) =>
        CompressInPlacePortable(cv, block, blockLen, counter, flags);
        assert k.compress(o) == PortableCompress(o);
      case SimdCode(f) =>
        CompressInPlaceSimd(f, cv, block, blockLen, counter, flags);
    }
    t.parents := t.parents + Seen(o);
  }

  method CopyWords(w: Words8) returns (a: array<word>)
    ensures fresh(a) && a.Length == 8 && a[..] == w
  {
    a := new word[8](i requires 0 <= i < 8 => w[i]);
  }

  /** Compress one block to all 64 output bytes. */
  method CompressXof(k: Engine, o: Output, out: array<byte>, off: nat, ghost t: Trace)
    requires off + 64 <= out.Length && o.counter < 0x1_0000_0000_0000_0000
    modifies out, t`outputs
    ensures out[off..off + 64] == k.compress(o) && t.outputs == old(t.outputs) + {o}
    ensures SameOutside(old(out[..]), out[..], off, off + 64)
  {
    hide PortableCompress, StoreWords, LoadWords;
    match k {
      case PortableCode(_) =>
        StoreLoadWords(o.inputCv);
        CompressXofPortable(LoadWords(o.inputCv), o.block, o.blockLen, o.counter, o.flags, out, off);
      case SimdCode(f) =>
        Memcpy(out, off, f(o));
    }
    t.outputs := t.outputs + {o};
  }

  /* ---------- Hashing whole inputs ---------- */

  /** The flags of block i: the start flags on the first, the end flags on the last. */
  function BlockFlags(flags: byte, flagsStart: byte, flagsEnd: byte, i: nat, blocks: nat): byte {
    flags | (if i == 0 then flagsStart else 0) | (if i + 1 == blocks then flagsEnd else 0)
  }

  /** The chaining value after the first n of an input's blocks. */
  function HashBlocks(f: Compressor, key: Cv, input: seq<byte>, n: nat, blocks: nat, counter: nat,
                      flags: byte, flagsStart: byte, flagsEnd: byte): Cv
    requires 64 * n <= |input|
  {
    if n == 0 then key
    else CvOf(f, Output(HashBlocks(f, key, input, n - 1, blocks, counter, flags, flagsStart, flagsEnd),
                        input[64 * (n - 1)..64 * n], 64, counter,
                        BlockFlags(flags, flagsStart, flagsEnd, n - 1, blocks)))
  }

  /** The chaining value of an input of whole blocks. */
  function HashOneOf(f: Compressor, key: Cv, input: seq<byte>, blocks: nat, counter: nat,
                     flags: byte, flagsStart: byte, flagsEnd: byte): Cv
    requires 64 * blocks <= |input|
  {
    HashBlocks(f, key, input, blocks, blocks, counter, flags, flagsStart, flagsEnd)
  }

  lemma HashBlocksNone(f: Compressor, key: Cv, input: seq<byte>, blocks: nat, counter: nat,
                       flags: byte, flagsStart: byte, flagsEnd: byte)
    ensures HashBlocks(f, key, input, 0, blocks, counter, flags, flagsStart, flagsEnd) == key
    ensures HashBlocksSeen(f, key, input, 0, blocks, counter, flags, flagsStart, flagsEnd) == {}
  {
  }

  lemma HashBlocksNext(f: Compressor, key: Cv, input: seq<byte>, n: nat, blocks: nat, counter: nat,
                       flags: byte, flagsStart: byte, flagsEnd: byte)
    requires 64 * (n + 1) <= |input|
    ensures HashBlocks(f, key, input, n + 1, blocks, counter, flags, flagsStart, flagsEnd)
         == CvOf(f, Output(HashBlocks(f, key, input, n, blocks, counter, flags, flagsStart, flagsEnd),
                           input[64 * n..64 * (n + 1)], 64, counter,
                           BlockFlags(flags, flagsStart, flagsEnd, n, blocks)))
  {
  }

  lemma FlagsHold(now: byte, flags: byte, flagsStart: byte, flagsEnd: byte, i: nat, blocks: nat)
    requires now == flags | (if i == 0 then flagsStart else 0) | (if i + 1 == blocks then flagsEnd else 0)
    ensures now == BlockFlags(flags, flagsStart, flagsEnd, i, blocks)
  {
  }

  /** The parents among the compressions of the first n of an input's blocks. */
  ghost function HashBlocksSeen(f: Compressor, key: Cv, input: seq<byte>, n: nat, blocks: nat, counter: nat,
                                flags: byte, flagsStart: byte, flagsEnd: byte): set<Output>
    requires 64 * n <= |input|
  {
    if n == 0 then {}
    else HashBlocksSeen(f, key, input, n - 1, blocks, counter, flags, flagsStart, flagsEnd) +
         Seen(Output(HashBlocks(f, key, input, n - 1, blocks, counter, flags, flagsStart, flagsEnd),
                     input[64 * (n - 1)..64 * n], 64, counter,
                     BlockFlags(flags, flagsStart, flagsEnd, n - 1, blocks)))
  }

  lemma HashBlocksSeenNext(f: Compressor, key: Cv, input: seq<byte>, n: nat, blocks: nat, counter: nat,
                           flags: byte, flagsStart: byte, flagsEnd: byte)
    requires 64 * (n + 1) <= |input|
    ensures HashBlocksSeen(f, key, input, 0, blocks, counter, flags, flagsStart, flagsEnd) == {}
    ensures HashBlocksSeen(f, key, input, n + 1, blocks, counter, flags, flagsStart, flagsEnd)
         == HashBlocksSeen(f, key, input, n, blocks, counter, flags, flagsStart, flagsEnd) +
            Seen(Output(HashBlocks(f, key, input, n, blocks, counter, flags, flagsStart, flagsEnd),
                        input[64 * n..64 * (n + 1)], 64, counter,
                        BlockFlags(flags, flagsStart, flagsEnd, n, blocks)))
  {
    hide HashBlocks, BlockFlags, Seen;
  }

  method HashOne(k: Engine, input: seq<byte>, blocks: nat, key: Words8, counter: u64,
                 flags: byte, flagsStart: byte, flagsEnd: byte, ghost t: Trace) returns (out: Cv)
    requires |input| == 64 * blocks
    modifies t`parents
    ensures out == HashOneOf(k.compress, StoreWords(key), input, blocks, counter, flags, flagsStart, flagsEnd)
    ensures t.parents == old(t.parents) +
            HashBlocksSeen(k.compress, StoreWords(key), input, blocks, blocks, counter, flags, flagsStart, flagsEnd)
  {
    hide CvOf, StoreWords, HashBlocks, HashBlocksSeen, BlockFlags, Seen;
    var cv := CopyWords(key);
    ghost var f, w := k.compress, StoreWords(key);
    HashBlocksNone(f, w, input, blocks, counter, flags, flagsStart, flagsEnd);
    var blockFlags := flags | flagsStart;
    var done := 0;
    while done < blocks
      invariant done <= blocks
      invariant blockFlags == flags | (if done == 0 then flagsStart else 0)
      invariant StoreWords(cv[..]) == HashBlocks(f, w, input, done, blocks, counter, flags, flagsStart, flagsEnd)
      invariant t.parents == old(t.parents) +
                HashBlocksSeen(f, w, input, done, blocks, counter, flags, flagsStart, flagsEnd)
    {
      if blocks - done == 1 {
        blockFlags := blockFlags | flagsEnd;
      }
      FlagsHold(blockFlags, flags, flagsStart, flagsEnd, done, blocks);
      HashBlocksNext(f, w, input, done, blocks, counter, flags, flagsStart, flagsEnd);
      HashBlocksSeenNext(f, w, input, done, blocks, counter, flags, flagsStart, flagsEnd);
      CompressInPlace(k, cv, input[64 * done..64 * (done + 1)], 64, counter, blockFlags, t);
      done := done + 1;
      blockFlags := flags;
    }
    out := StoreWords(cv[..]);
  }

  /** The chaining values of several inputs of equally many blocks. */
  function HashManyOf(f: Compressor, key: Cv, inputs: seq<seq<byte>>, blocks: nat, counter: nat,
                      increment: bool, flags: byte, flagsStart: byte, flagsEnd: byte): (cvs: seq<Cv>)
    requires forall i | 0 <= i < |inputs| :: |inputs[i]| == 64 * blocks
    ensures |cvs| == |inputs|
  {
    seq(|inputs|, i requires 0 <= i < |inputs| =>
      HashOneOf(f, key, inputs[i], blocks, if increment then counter + i else counter,
                flags, flagsStart, flagsEnd))
  }

  /** The parents among the compressions of the first n inputs. */
  ghost function HashManySeen(f: Compressor, key: Cv, inputs: seq<seq<byte>>, n: nat, blocks: nat, counter: nat,
                              increment: bool, flags: byte, flagsStart: byte, flagsEnd: byte): set<Output>
    requires n <= |inputs| && forall i | 0 <= i < |inputs| :: |inputs[i]| == 64 * blocks
  {
    if n == 0 then {}
    else HashManySeen(f, key, inputs, n - 1, blocks, counter, increment, flags, flagsStart, flagsEnd) +
         HashBlocksSeen(f, key, inputs[n - 1], blocks, blocks,
                        if increment then counter + n - 1 else counter, flags, flagsStart, flagsEnd)
  }

  lemma HashManySeenNext(f: Compressor, key: Cv, inputs: seq<seq<byte>>, n: nat, blocks: nat, counter: nat,
                         increment: bool, flags: byte, flagsStart: byte, flagsEnd: byte)
    requires n < |inputs| && forall i | 0 <= i < |inputs| :: |inputs[i]| == 64 * blocks
    ensures HashManySeen(f, key, inputs, n + 1, blocks, counter, increment, flags, flagsStart, flagsEnd)
         == HashManySeen(f, key, inputs, n, blocks, counter, increment, flags, flagsStart, flagsEnd) +
            HashBlocksSeen(f, key, inputs[n], blocks, blocks,
                           if increment then counter + n else counter, flags, flagsStart, flagsEnd)
  {
    hide HashBlocksSeen;
  }

  lemma HashManySeenNone(f: Compressor, key: Cv, inputs: seq<seq<byte>>, blocks: nat, counter: nat,
                         increment: bool, flags: byte, flagsStart: byte, flagsEnd: byte)
    requires forall i | 0 <= i < |inputs| :: |inputs[i]| == 64 * blocks
    ensures HashManySeen(f, key, inputs, 0, blocks, counter, increment, flags, flagsStart, flagsEnd) == {}
  {
  }

  method HashMany(k: Engine, inputs: seq<seq<byte>>, blocks: nat, key: Words8, counter: u64,
                  increment: bool, flags: byte, flagsStart: byte, flagsEnd: byte,
                  out: array<byte>, off: nat, ghost t: Trace)
    requires forall i | 0 <= i < |inputs| :: |inputs[i]| == 64 * blocks
    requires off + 32 * |inputs| <= out.Length && counter + |inputs| < 0x1_0000_0000_0000_0000
    modifies out, t`parents
    ensures CvsAt(out[..], off, |inputs|) ==
            HashManyOf(k.compress, StoreWords(key), inputs, blocks, counter, increment, flags, flagsStart, flagsEnd)
    ensures SameOutside(old(out[..]), out[..], off, off + 32 * |inputs|)
    ensures t.parents == old(t.parents) +
            HashManySeen(k.compress, StoreWords(key), inputs, |inputs|, blocks, counter, increment,
                         flags, flagsStart, flagsEnd)
  {
    hide HashOneOf, SameOutside, HashBlocksSeen, HashManySeen, StoreWords, CvsAt;
    ghost var f, w := k.compress, StoreWords(key);
    ghost var all := HashManyOf(f, w, inputs, blocks, counter, increment, flags, flagsStart, flagsEnd);
    SameOutsideSelf(out[..], off, off + 32 * |inputs|);
    HashManySeenNone(f, w, inputs, blocks, counter, increment, flags, flagsStart, flagsEnd);
    var done := 0;
    var ctr: u64 := counter;
    while done < |inputs|
      invariant done <= |inputs|
      invariant ctr == if increment then counter + done else counter
      invariant CvsAt(out[..], off, done) == all[..done]
      invariant SameOutside(old(out[..]), out[..], off, off + 32 * |inputs|)
      invariant t.parents == old(t.parents) +
                HashManySeen(f, w, inputs, done, blocks, counter, increment, flags, flagsStart, flagsEnd)
    {
      HashManySeenNext(f, w, inputs, done, blocks, counter, increment, flags, flagsStart, flagsEnd);
      var cv := HashOne(k, inputs[done], blocks, key, ctr, flags, flagsStart, flagsEnd, t);
      assert cv == all[done] && all[..done + 1] == all[..done] + [all[done]];
      ghost var before := out[..];
      PutCv(out, off, done, cv);
      SameOutsideWiden(old(out[..]), before, out[..], off, off + 32 * done, off + 32 * |inputs|);
      if increment {
        ctr := ctr + 1;
      }
      done := done + 1;
    }
  }

  /* ---------- The two uses of HashMany agree with the specification ---------- */

  lemma {:induction false} FoldIsChunkFold(m: Mode, input: seq<byte>, n: nat, blocks: nat, counter: nat)
    requires n < blocks && 64 * n <= |input|
    ensures HashBlocks(m.compress, m.key, input, n, blocks, counter, m.flags, CHUNK_START, CHUNK_END)
         == ChunkFold(m, counter, input, n)
  {
    if n > 0 {
      FoldIsChunkFold(m, input, n - 1, blocks, counter);
    }
  }

  /** Any number of whole blocks with start and end flags are a chunk of that length. */
  lemma HashOneIsChunk(m: Mode, input: seq<byte>, blocks: nat, counter: nat)
    requires |input| == 64 * blocks && 1 <= blocks <= 16
    ensures HashOneOf(m.compress, m.key, input, blocks, counter, m.flags, CHUNK_START, CHUNK_END)
         == ChunkCv(m, input, counter)
  {
    hide HashBlocks, ChunkFold;
    FoldIsChunkFold(m, input, blocks - 1, blocks, counter);
    var n := blocks - 1;
    assert BlocksBefore(|input|) == n;
    assert Pad(input[64 * n..]) == input[64 * n..64 * blocks];
    HashBlocksNext(m.compress, m.key, input, n, blocks, counter, m.flags, CHUNK_START, CHUNK_END);
    FlagsOfLast(m.flags, n);
  }

  lemma FlagsOfLast(flags: byte, n: nat)
    ensures BlockFlags(flags, CHUNK_START, CHUNK_END, n, n + 1) == flags | StartFlag(n) | CHUNK_END
  {
  }

  /** One block with the parent flag is a parent node. */
  lemma HashOneWatched(m: Mode, left: Cv, right: Cv)
    ensures HashOneOf(m.compress, m.key, left + right, 1, 0, m.flags | PARENT, 0, 0)
         == ParentCv(m, left, right)
  {
    var f, key, flags := m.compress, m.key, m.flags | PARENT;
    HashBlocksNext(f, key, left + right, 0, 1, 0, flags, 0, 0);
    assert (left + right)[0..64] == left + right;
    assert BlockFlags(flags, 0, 0, 0, 1) == flags;
  }

  /** Hashing chunks compresses no parents. */
  lemma {:induction false} ChunkBlocksSeen(m: Mode, input: seq<byte>, n: nat, counter: nat)
    requires !Watched(m.flags) && 64 * n <= |input|
    ensures HashBlocksSeen(m.compress, m.key, input, n, 16, counter, m.flags, CHUNK_START, CHUNK_END) == {}
  {
    if n > 0 {
      ChunkBlocksSeen(m, input, n - 1, counter);
      assert !Watched(BlockFlags(m.flags, CHUNK_START, CHUNK_END, n - 1, 16));
      hide HashBlocks, BlockFlags, Watched;
    }
  }

  lemma {:induction false} ChunksSeen(m: Mode, chunks: seq<seq<byte>>, n: nat, counter: nat)
    requires !Watched(m.flags) && n <= |chunks|
    requires forall i | 0 <= i < |chunks| :: |chunks[i]| == 64 * 16
    ensures HashManySeen(m.compress, m.key, chunks, n, 16, counter, true, m.flags, CHUNK_START, CHUNK_END) == {}
  {
    hide HashBlocksSeen, Watched;
    if n > 0 {
      ChunksSeen(m, chunks, n - 1, counter);
      ChunkBlocksSeen(m, chunks[n - 1], 16, counter + n - 1);
    }
  }

  lemma SeenParent(m: Mode, left: Cv, right: Cv)
    ensures Seen(ParentOutput(m, left, right)) == {ParentOutput(m, left, right)}
  {
  }

  /** Hashing one parent block compresses that parent. */
  lemma ParentSeen(m: Mode, left: Cv, right: Cv)
    ensures HashBlocksSeen(m.compress, m.key, left + right, 1, 1, 0, m.flags | PARENT, 0, 0)
         == {ParentOutput(m, left, right)}
  {
    var f, key, flags := m.compress, m.key, m.flags | PARENT;
    HashBlocksSeenNext(f, key, left + right, 0, 1, 0, flags, 0, 0);
    HashBlocksNone(f, key, left + right, 1, 0, flags, 0, 0);
    assert (left + right)[0..64] == left + right;
    assert BlockFlags(flags, 0, 0, 0, 1) == flags && Watched(flags);
  }

  /* ---------- Output blocks ---------- */

  /** The nodes behind n output blocks from number o.counter on. */
  ghost function BlocksRun(o: Output, n: nat): set<Output> {
    if n == 0 then {} else BlocksRun(o, n - 1) + {o.(counter := o.counter + n - 1)}
  }

  lemma BlocksRunNext(o: Output, n: nat)
    ensures BlocksRun(o, 0) == {} && BlocksRun(o, n + 1) == BlocksRun(o, n) + {o.(counter := o.counter + n)}
  {
  }

  /** The bytes of those blocks, laid out from an offset on. */
  ghost predicate BlocksAt(f: Compressor, o: Output, s: seq<byte>, off: nat, n: nat) {
    && off + 64 * n <= |s|
    && forall i | 0 <= i < n :: s[off + 64 * i..off + 64 * i + 64] == f(o.(counter := o.counter + i))
  }

  /** Consecutive output blocks of a root node, from block number o.counter on. */
  method XofMany(k: Engine, o: Output, out: array<byte>, off: nat, blocks: nat, ghost t: Trace)
    requires off + 64 * blocks <= out.Length && o.counter + blocks < 0x1_0000_0000_0000_0000
    modifies out, t`outputs
    ensures SameOutside(old(out[..]), out[..], off, off + 64 * blocks)
    ensures BlocksAt(k.compress, o, out[..], off, blocks)
    ensures t.outputs == old(t.outputs) + BlocksRun(o, blocks)
  {
    hide BlocksRun, BlocksAt, SameOutside;
    BlocksRunNext(o, 0);
    BlocksAtNone(k.compress, o, out[..], off);
    SameOutsideSelf(out[..], off, off);
    for i := 0 to blocks
      invariant SameOutside(old(out[..]), out[..], off, off + 64 * i)
      invariant BlocksAt(k.compress, o, out[..], off, i)
      invariant t.outputs == old(t.outputs) + BlocksRun(o, i)
    {
      ghost var before := out[..];
      CompressXof(k, o.(counter := o.counter + i), out, off + 64 * i, t);
      SameOutsideJoin(old(out[..]), before, out[..], off, off + 64 * i, off + 64 * i + 64);
      BlocksRunNext(o, i);
      BlocksAtNext(k.compress, o, before, out[..], off, i);
    }
  }

  lemma BlocksAtNone(f: Compressor, o: Output, s: seq<byte>, off: nat)
    requires off <= |s|
    ensures BlocksAt(f, o, s, off, 0)
  {
  }

  lemma BlocksAtNext(f: Compressor, o: Output, s: seq<byte>, t: seq<byte>, off: nat, n: nat)
    requires BlocksAt(f, o, s, off, n) && SameOutside(s, t, off + 64 * n, off + 64 * n + 64)
    requires t[off + 64 * n..off + 64 * n + 64] == f(o.(counter := o.counter + n))
    ensures BlocksAt(f, o, t, off, n + 1)
  {
    forall i | 0 <= i < n
      ensures t[off + 64 * i..off + 64 * i + 64] == f(o.(counter := o.counter + i))
    {
      SliceBefore(s, t, off + 64 * n, off + 64 * n + 64, off + 64 * i, off + 64 * i + 64);
    }
  }

  lemma SliceBefore(s: seq<byte>, t: seq<byte>, lo: nat, hi: nat, x: nat, y: nat)
    requires SameOutside(s, t, lo, hi) && x <= y <= lo
    ensures s[x..y] == t[x..y]
  {
    assert s[x..y] == s[..lo][x..y];
    assert t[x..y] == t[..lo][x..y];
  }
}
