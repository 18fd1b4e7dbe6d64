/** The BLAKE3 specification as pure functions: the chunk fold, the left-full binary tree over
    chunks, the modes, and the extendable output stream (sections 2.1 to 2.6).

    Everything here is bytes: keys and chaining values are 32 bytes, blocks and outputs 64.  All of
    it is stated for an arbitrary compression function, because the program picks one of several
    kernels at run time; Portable.dfy supplies the one of section 2.2. */
module Spec {
  import opened Bits
  import opened Words

  const CHUNK_START: byte := 1
  const CHUNK_END: byte := 2
  const PARENT: byte := 4
  const ROOT: byte := 8
  const KEYED_HASH: byte := 16
  const DERIVE_KEY_CONTEXT: byte := 32
  const DERIVE_KEY_MATERIAL: byte := 64

  /** What stays fixed while one message is hashed. */
  datatype Mode = Mode(compress: Compressor, key: Cv, flags: byte)

  /** The arguments of a compression that has not been run yet, so that it can still become the
      root. */
  datatype Output = Output(inputCv: Cv, block: Block, blockLen: nat, counter: nat, flags: byte)

  /** A compression function: from its arguments to the 64 output bytes. */
  type Compressor = Output -> Block

  /** The chaining value of a node: the first half of its compression's output. */
  function CvOf(f: Compressor, o: Output): Cv {
    f(o)[..32]
  }

  /* ---------- Extendable output (section 2.6) ---------- */

  /** The t-th output block of a root node: its compression repeated with counter t. */
  function RootBlock(f: Compressor, o: Output, t: nat): Block {
    f(o.(counter := t, flags := o.flags | ROOT))
  }

  /** Bytes seek to seek + n of the output stream. */
  function RootBytes(f: Compressor, o: Output, seek: nat, n: nat): (b: seq<byte>)
    ensures |b| == n
  {
    seq(n, j requires 0 <= j < n => RootBlock(f, o, (seek + j) / 64)[(seek + j) % 64])
  }

  /* ---------- Chunks (section 2.4) ---------- */

  /** How many blocks of an n-byte chunk precede its last block. */
  function BlocksBefore(n: nat): nat {
    if n == 0 then 0 else (n - 1) / 64
  }

  function StartFlag(blocks: nat): byte {
    if blocks == 0 then CHUNK_START else 0
  }

  function Pad(b: seq<byte>): Block
    requires |b| <= 64
  {
    b + seq(64 - |b|, _ => 0)
  }

  /** The chaining value after the first n blocks of a chunk, none of which is its last. */
  function ChunkFold(m: Mode, counter: nat, input: seq<byte>, n: nat): Cv
    requires 64 * n <= |input|
  {
    if n == 0 then m.key
    else CvOf(m.compress, Output(ChunkFold(m, counter, input, n - 1), input[64 * (n - 1)..64 * n],
                                 64, counter, m.flags | StartFlag(n - 1)))
  }

  function ChunkOutput(m: Mode, input: seq<byte>, counter: nat): Output
    requires |input| <= 1024
  {
    var n := BlocksBefore(|input|);
    Output(ChunkFold(m, counter, input, n), Pad(input[64 * n..]), |input| - 64 * n, counter,
           m.flags | StartFlag(n) | CHUNK_END)
  }

  function ChunkCv(m: Mode, input: seq<byte>, counter: nat): Cv
    requires |input| <= 1024
  {
    CvOf(m.compress, ChunkOutput(m, input, counter))
  }

  /* ---------- Parents and the tree (sections 2.1 and 2.5) ---------- */

  function ParentOutput(m: Mode, left: Cv, right: Cv): Output {
    Output(m.key, left + right, 64, 0, m.flags | PARENT)
  }

  function ParentCv(m: Mode, left: Cv, right: Cv): Cv {
    CvOf(m.compress, ParentOutput(m, left, right))
  }

  /** The number of chunks of an n-byte message, the last one possibly partial. */
  function Chunks(n: nat): nat {
    (n + 1023) / 1024
  }

  /** The bytes of the left subtree: the largest power-of-two number of whole chunks that leaves
      at least one byte for the right. */
  function LeftLen(n: nat): (l: nat)
    requires n > 1024
    ensures 1024 <= l < n <= 2 * l && l % 1024 == 0
  {
    LeftPowIsLargest(Chunks(n));
    1024 * LeftPow(Chunks(n))
  }

  /** The top node of the subtree over the given bytes, whose first chunk has the given number. */
  function SubtreeOutput(m: Mode, input: seq<byte>, counter: nat): Output
    decreases |input|
  {
    if |input| <= 1024 then ChunkOutput(m, input, counter)
    else
      var l := LeftLen(|input|);
      ParentOutput(m, CvOf(m.compress, SubtreeOutput(m, input[..l], counter)),
                   CvOf(m.compress, SubtreeOutput(m, input[l..], counter + l / 1024)))
  }

  function SubtreeCv(m: Mode, input: seq<byte>, counter: nat): Cv {
    CvOf(m.compress, SubtreeOutput(m, input, counter))
  }

  /* ---------- Hashing and modes (section 2.3) ---------- */

  /** Bytes seek to seek + n of the hash of a message. */
  function Hash(m: Mode, input: seq<byte>, seek: nat, n: nat): (b: seq<byte>)
    ensures |b| == n
  {
    RootBytes(m.compress, SubtreeOutput(m, input, 0), seek, n)
  }

  function PlainMode(f: Compressor): Mode {
    Mode(f, StoreWords(IV), 0)
  }

  function KeyedMode(f: Compressor, key: Cv): Mode {
    Mode(f, key, KEYED_HASH)
  }

  /** Key derivation: hash the context string, and use the first 32 bytes as the key under which
      the key material is hashed. */
  function DeriveKeyMode(f: Compressor, context: seq<byte>): Mode {
    Mode(f, Hash(Mode(f, StoreWords(IV), DERIVE_KEY_CONTEXT), context, 0, 32), DERIVE_KEY_MATERIAL)
  }

  /* ---------- Properties of the specification itself ---------- */

  /** The split is the only power-of-two number of chunks with at least one byte, and no more
      bytes than on the left, to its right. */
  lemma LeftLenUnique(n: nat, p: nat)
    requires IsPow2(p) && 1024 * p < n <= 2048 * p
    ensures n > 1024 && LeftLen(n) == 1024 * p
  {
    LeftPowUnique(Chunks(n), p);
  }
}
