/** The chunk state of blake3.c: up to 1024 bytes absorbed in pieces of any size.  It always holds
    back the last block, because that block's flags depend on whether more input follows. */
module Chunk {
  import opened Bits
  import opened Words
  import opened Spec
  import opened Buffers
  import opened Kernel

  /** Run a node's compression for its chaining value. */
  method OutputChainingValue(k: Engine, o: Output, ghost t: Trace) returns (cv: Cv)
    requires o.counter < 0x1_0000_0000_0000_0000
    modifies t`parents
    ensures cv == CvOf(k.compress, o) && t.parents == old(t.parents) + Seen(o)
  {
    hide StoreWords, LoadWords, CvOf;
    var words := CopyWords(LoadWords(o.inputCv));
    StoreLoadWords(o.inputCv);
    CompressInPlace(k, words, o.block, o.blockLen, o.counter, o.flags, t);
    cv := StoreWords(words[..]);
  }

  /** Earlier blocks of a chunk do not depend on later bytes. */
  lemma {:induction false} ChunkFoldStable(m: Mode, counter: nat, s: seq<byte>, t: seq<byte>, n: nat)
    requires 64 * n <= |s|
    ensures ChunkFold(m, counter, s + t, n) == ChunkFold(m, counter, s, n)
  {
    hide CvOf;
    if n > 0 {
      ChunkFoldStable(m, counter, s, t, n - 1);
      assert (s + t)[64 * (n - 1)..64 * n] == s[64 * (n - 1)..64 * n];
    }
  }

  lemma ChunkFoldNext(m: Mode, counter: nat, s: seq<byte>, n: nat)
    requires 64 * (n + 1) <= |s|
    ensures ChunkFold(m, counter, s, n + 1) ==
            CvOf(m.compress, Output(ChunkFold(m, counter, s, n), s[64 * n..64 * (n + 1)], 64, counter,
                                    m.flags | StartFlag(n)))
  {
  }

  /** When the blocks before the last have been compressed, there are as many as there should be. */
  lemma LastBlock(done: nat, rest: nat, n: nat)
    requires rest <= 64 && (if rest > 0 then done == 64 * n else BlocksBefore(done) == n)
    ensures BlocksBefore(done + rest) == n
  {
  }

  lemma NoParent(flags: byte, blocks: nat)
    requires !Watched(flags)
    ensures !Watched(flags | StartFlag(blocks)) && !Watched(flags | StartFlag(blocks) | CHUNK_END)
  {
  }

  class ChunkState {
    const engine: Engine
    const cv: array<word>
    var chunkCounter: u64
    const buf: array<byte>
    var bufLen: u8
    var blocksCompressed: u8
    const flags: byte

    /** The key the chunk started from, and the bytes absorbed since. */
    ghost var key: Cv
    ghost var absorbed: seq<byte>

    ghost function Hashing(): Mode
      reads this
    {
      Mode(engine.compress, key, flags)
    }

    /** The fields when all of s but the bytes after its first n blocks has been compressed, and
        those bytes are in the buffer. */
    ghost predicate Holds(s: seq<byte>, n: nat)
      reads this, cv, buf
    {
      && cv.Length == 8 && buf.Length == 64 && !Watched(flags)
      && 64 * n <= |s| <= 64 * n + 64
      && blocksCompressed == n
      && StoreWords(cv[..]) == ChunkFold(Hashing(), chunkCounter, s, n)
      && bufLen == |s| - 64 * n
      && buf[..] == Pad(s[64 * n..])
    }

    function Len(): nat
      reads this
    {
      64 * blocksCompressed + bufLen
    }

    /** The fields are determined by the bytes absorbed, whatever pieces they came in. */
    ghost predicate Valid()
      reads this, cv, buf
    {
      && cv.Length == 8 && buf.Length == 64
      && !Watched(flags)
      && Len() == |absorbed| <= 1024
      && Holds(absorbed, BlocksBefore(|absorbed|))
    }

    constructor (engine: Engine, key: Words8, flags: byte, chunkCounter: u64)
      requires !Watched(flags)
      ensures Valid() && fresh(cv) && fresh(buf)
      ensures this.engine == engine && this.flags == flags
      ensures this.key == StoreWords(key) && absorbed == [] && this.chunkCounter == chunkCounter
    {
      this.engine := engine;
      this.flags := flags;
      this.cv := new word[8](i requires 0 <= i < 8 => key[i]);
      this.chunkCounter := chunkCounter;
      this.buf := new byte[64](_ => 0);
      this.bufLen := 0;
      this.blocksCompressed := 0;
      this.key := StoreWords(key);
      this.absorbed := [];
      new;
      assert cv[..] == key;
      assert buf[..] == Pad([]);
    }

    /** Start over with a key, as another chunk. */
    method Reset(key: Words8, chunkCounter: u64)
      requires cv.Length == 8 && buf.Length == 64 && !Watched(flags)
      modifies this, cv, buf
      ensures Valid()
      ensures this.key == StoreWords(key) && absorbed == [] && this.chunkCounter == chunkCounter
    {
      forall i | 0 <= i < 8 {
        cv[i] := key[i];
      }
      this.chunkCounter := chunkCounter;
      blocksCompressed := 0;
      ClearBuf();
      this.key := StoreWords(key);
      absorbed := [];
      assert cv[..] == key;
    }

    /** An empty chunk state can become that of any chunk. */
    method Advance(chunks: nat)
      requires Valid() && absorbed == [] && chunkCounter + chunks < 0x1_0000_0000_0000_0000
      modifies `chunkCounter
      ensures Valid() && chunkCounter == old(chunkCounter) + chunks
    {
      chunkCounter := chunkCounter + chunks;
    }

    method ClearBuf()
      requires buf.Length == 64
      modifies `bufLen, buf
      ensures bufLen == 0 && buf[..] == Pad([])
    {
      forall i | 0 <= i < 64 {
        buf[i] := 0;
      }
      bufLen := 0;
    }

    /** Move as many bytes as fit from the input into the buffer. */
    method FillBuf(input: seq<byte>) returns (take: nat)
      requires buf.Length == 64 && bufLen <= 64
      modifies `bufLen, buf
      ensures take == if |input| < 64 - old(bufLen) then |input| else 64 - old(bufLen)
      ensures bufLen == old(bufLen) + take
      ensures buf[..] == old(buf[..bufLen]) + input[..take] + old(buf[..])[old(bufLen) + take..]
    {
      take := 64 - bufLen;
      if take > |input| {
        take := |input|;
      }
      hide SameOutside;
      ghost var before := buf[..];
      Memcpy(buf, bufLen, input[..take]);
      Rewritten(before, buf[..], bufLen, input[..take]);
      assert before[..bufLen] == old(buf[..bufLen]);
      bufLen := bufLen + take;
    }

    /** Append to the buffered block. */
    method Append(input: seq<byte>, ghost s: seq<byte>, ghost n: nat) returns (take: nat)
      requires Holds(s, n)
      modifies `bufLen, buf
      ensures take == if |input| < 64 - old(bufLen) then |input| else 64 - old(bufLen)
      ensures Holds(s + input[..take], n)
    {
      take := FillBuf(input);
      ghost var t := s + input[..take];
      ChunkFoldStable(Hashing(), chunkCounter, s, input[..take], n);
      assert t[64 * n..] == s[64 * n..] + input[..take];
    }

    /** Compress a whole block and advance; it is no parent. */
    method CompressBlock(block: Block, ghost t: Trace)
      requires cv.Length == 8 && blocksCompressed < 255 && !Watched(flags)
      modifies `blocksCompressed, cv, t`parents
      ensures blocksCompressed == old(blocksCompressed) + 1
      ensures StoreWords(cv[..]) ==
              CvOf(engine.compress, Output(StoreWords(old(cv[..])), block, 64, chunkCounter,
                                             flags | StartFlag(old(blocksCompressed))))
      ensures t.parents == old(t.parents)
    {
      hide StoreWords, CvOf;
      NoParent(flags, blocksCompressed);
      CompressInPlace(engine, cv, block, 64, chunkCounter, flags | StartFlag(blocksCompressed), t);
      blocksCompressed := blocksCompressed + 1;
    }

    /** Compress the full buffer and empty it. */
    method FlushBuf(ghost s: seq<byte>, ghost n: nat, ghost t: Trace)
      requires Holds(s, n) && |s| == 64 * (n + 1) && n < 255
      modifies `bufLen, `blocksCompressed, cv, buf, t`parents
      ensures Holds(s, n + 1) && t.parents == old(t.parents)
    {
      ChunkFoldNext(Hashing(), chunkCounter, s, n);
      assert s[64 * n..] == s[64 * n..64 * (n + 1)];
      assert buf[..] == s[64 * n..64 * (n + 1)];
      CompressBlock(buf[..], t);
      ClearBuf();
      assert s[64 * (n + 1)..] == [];
    }

    /** Compress a block straight from the input. */
    method TakeBlock(block: Block, ghost s: seq<byte>, ghost n: nat, ghost t: Trace)
      requires Holds(s, n) && |s| == 64 * n && n < 255
      modifies `bufLen, `blocksCompressed, cv, buf, t`parents
      ensures Holds(s + block, n + 1) && bufLen == old(bufLen) && t.parents == old(t.parents)
    {
      ghost var u := s + block;
      ChunkFoldStable(Hashing(), chunkCounter, s, block, n);
      ChunkFoldNext(Hashing(), chunkCounter, u, n);
      assert u[64 * n..64 * (n + 1)] == block;
      CompressBlock(block, t);
      assert s[64 * n..] == [] && u[64 * (n + 1)..] == [];
    }

    /** Compress blocks straight from the input until at most one is left. */
    method TakeBlocks(input: seq<byte>, ghost s: seq<byte>, ghost n: nat, ghost t: Trace)
      returns (rest: seq<byte>, ghost s': seq<byte>, ghost n': nat)
      requires Holds(s, n) && (|input| > 0 ==> |s| == 64 * n) && |s| + |input| <= 1024
      modifies `bufLen, `blocksCompressed, cv, buf, t`parents
      ensures Holds(s', n') && s' + rest == s + input && |rest| <= 64
      ensures if |rest| > 0 then |s'| == 64 * n' else s' == s && n' == n
      ensures t.parents == old(t.parents)
    {
      hide ChunkFold, Pad, CvOf, StoreWords, Watched;
      rest, s', n' := input, s, n;
      while |rest| > 64
        invariant Holds(s', n') && s' + rest == s + input && t.parents == old(t.parents)
        invariant if |rest| > 0 then |s'| == 64 * n' else s' == s && n' == n
      {
        TakeBlock(rest[..64], s', n', t);
        s', n' := s' + rest[..64], n' + 1;
        rest := rest[64..];
        assert s' + rest == s + input;
      }
    }

    /** Top up a partial block, and compress it if more input follows. */
    method FinishBlock(input: seq<byte>, ghost s: seq<byte>, ghost n: nat, ghost t: Trace)
      returns (rest: seq<byte>, ghost s': seq<byte>, ghost n': nat)
      requires Holds(s, n) && |s| > 64 * n && |s| + |input| <= 1024
      modifies `bufLen, `blocksCompressed, cv, buf, t`parents
      ensures Holds(s', n') && s' + rest == s + input
      ensures if |rest| > 0 then |s'| == 64 * n' else s' == s + input && n' == n
      ensures t.parents == old(t.parents)
    {
      hide ChunkFold, Pad, CvOf, StoreWords, Watched;
      var take := Append(input, s, n);
      s', n' := s + input[..take], n;
      rest := input[take..];
      if |rest| > 0 {
        FlushBuf(s', n, t);
        n' := n + 1;
      }
    }

    /** Absorb more bytes. */
    method Update(input: seq<byte>, ghost t: Trace)
      requires Valid() && |absorbed| + |input| <= 1024
      modifies `bufLen, `blocksCompressed, `absorbed, cv, buf, t`parents
      ensures Valid() && absorbed == old(absorbed) + input && t.parents == old(t.parents)
    {
      hide ChunkFold, Pad, CvOf, StoreWords, Watched;
      ghost var s, n := absorbed, BlocksBefore(|absorbed|);
      ghost var all := s + input;
      var rest := input;
      if bufLen > 0 {
        rest, s, n := FinishBlock(rest, s, n, t);
      }
      rest, s, n := TakeBlocks(rest, s, n, t);
      LastBlock(|s|, |rest|, n);
      var take := Append(rest, s, n);
      assert rest[..take] == rest;
      absorbed := all;
    }

    /** The node over the bytes absorbed, not yet compressed. */
    method Finish() returns (o: Output)
      requires Valid()
      ensures o == ChunkOutput(Hashing(), absorbed, chunkCounter)
      ensures o.counter == chunkCounter && !Watched(o.flags)
    {
      hide CvOf;
      NoParent(flags, blocksCompressed);
      var blockFlags := flags | StartFlag(blocksCompressed) | CHUNK_END;
      o := Output(StoreWords(cv[..]), buf[..], bufLen, chunkCounter, blockFlags);
    }
  }

  /** Hash one chunk by itself. */
  method HashChunk(k: Engine, input: seq<byte>, key: Words8, counter: u64, flags: byte, ghost t: Trace)
    returns (cv: Cv)
    requires |input| <= 1024 && !Watched(flags)
    modifies t`parents
    ensures cv == ChunkCv(Mode(k.compress, StoreWords(key), flags), input, counter)
    ensures t.parents == old(t.parents)
  {
    hide ChunkFold, Pad, CvOf, StoreWords, Watched;
    var chunkState := new ChunkState(k, key, flags, counter);
    chunkState.Update(input, t);
    assert [] + input == input;
    var output := chunkState.Finish();
    cv := OutputChainingValue(k, output, t);
  }
}
