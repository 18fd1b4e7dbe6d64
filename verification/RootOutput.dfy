/** Seekable extendable output (output_root_bytes of blake3.c). */
module RootOutput {
  import opened Bits
  import opened Words
  import opened Spec
  import opened Buffers
  import opened Kernel

  /** Adjacent windows of the output stream join, so shorter outputs are prefixes of longer
      ones. */
  lemma RootBytesJoin(f: Compressor, o: Output, seek: nat, i: nat, j: nat)
    ensures RootBytes(f, o, seek, i + j) == RootBytes(f, o, seek, i) + RootBytes(f, o, seek + i, j)
  {
    var a, b, c := RootBytes(f, o, seek, i), RootBytes(f, o, seek + i, j), RootBytes(f, o, seek, i + j);
    forall k | 0 <= k < i + j
      ensures c[k] == (a + b)[k]
    {
      if k >= i {
        assert (seek + i) + (k - i) == seek + k;
      }
    }
  }

  /** The same of the hash of a message. */
  lemma HashJoin(m: Mode, s: seq<byte>, seek: nat, i: nat, j: nat)
    ensures Hash(m, s, seek, i + j) == Hash(m, s, seek, i) + Hash(m, s, seek + i, j)
  {
    hide RootBytes, SubtreeOutput;
    RootBytesJoin(m.compress, SubtreeOutput(m, s, 0), seek, i, j);
  }

  /** Each 64 bytes of it are one compression of the top node of the message's tree, with the
      root's flag and the number of the block as counter. */
  lemma HashBlock(m: Mode, s: seq<byte>, t: nat)
    ensures var o := SubtreeOutput(m, s, 0);
            Hash(m, s, 64 * t, 64) == m.compress(o.(counter := t, flags := o.flags | 8))
  {
    hide SubtreeOutput;
    WithinBlock(m.compress, SubtreeOutput(m, s, 0), t, 0, 64);
  }

  /** A window inside one output block is part of that block. */
  lemma WithinBlock(f: Compressor, o: Output, t: nat, from: nat, n: nat)
    requires from + n <= 64
    ensures RootBytes(f, o, 64 * t + from, n) == RootBlock(f, o, t)[from..from + n]
  {
    var a, b := RootBytes(f, o, 64 * t + from, n), RootBlock(f, o, t)[from..from + n];
    forall j | 0 <= j < n
      ensures a[j] == b[j]
    {
      var i := 64 * t + from + j;
      assert i / 64 == t && i % 64 == from + j;
    }
  }

  /** A window of whole blocks is those blocks. */
  lemma {:induction false} WholeBlocks(f: Compressor, o: Output, t: nat, blocks: nat, b: seq<byte>)
    requires |b| == 64 * blocks
    requires forall i | 0 <= i < blocks :: b[64 * i..64 * i + 64] == RootBlock(f, o, t + i)
    ensures RootBytes(f, o, 64 * t, 64 * blocks) == b
  {
    if blocks == 0 {
      assert b == [];
    } else {
      var k := blocks - 1;
      var c := b[..64 * k];
      forall i | 0 <= i < k
        ensures c[64 * i..64 * i + 64] == RootBlock(f, o, t + i)
      {
        SliceOfSlice(b, 0, 64 * k, 64 * i, 64 * i + 64);
      }
      WholeBlocks(f, o, t, k, c);
      RootBytesJoin(f, o, 64 * t, 64 * k, 64);
      WithinBlock(f, o, t + k, 0, 64);
      assert b == c + b[64 * k..64 * k + 64];
    }
  }

  /* ---------- Which nodes are compressed to output blocks ---------- */

  /** A root node with the root's flag, once for each of k output blocks from number t on. */
  ghost function RootNodes(o: Output, t: nat, k: nat): set<Output> {
    BlocksRun(o.(counter := t, flags := o.flags | ROOT), k)
  }

  /** How many output blocks bytes seek to seek + n lie in. */
  function BlocksTouched(seek: nat, n: nat): nat {
    if n == 0 then 0 else (seek + n - 1) / 64 - seek / 64 + 1
  }

  lemma {:induction false} RootNodesJoin(o: Output, t: nat, i: nat, j: nat)
    ensures RootNodes(o, t, i + j) == RootNodes(o, t, i) + RootNodes(o, t + i, j)
  {
    if j > 0 {
      RootNodesJoin(o, t, i, j - 1);
    }
  }

  /** They all have the root's flag. */
  lemma RootNodesMarked(o: Output, t: nat, k: nat, x: Output)
    requires x in RootNodes(o, t, k)
    ensures x.flags & ROOT != 0
  {
    hide RootNodes;
    RootNodesAre(o, t, k, x);
  }

  /** They are the node with the root's flag and those block numbers, and nothing else. */
  lemma {:induction false} RootNodesAre(o: Output, t: nat, k: nat, x: Output)
    ensures x in RootNodes(o, t, k) <==>
              t <= x.counter < t + k && x == o.(counter := x.counter, flags := o.flags | 8)
  {
    if k > 0 {
      RootNodesAre(o, t, k - 1, x);
    }
  }

  lemma RootNodesNone(o: Output, t: nat)
    ensures RootNodes(o, t, 0) == {}
  {
  }

  lemma RootNodeOne(o: Output, t: nat)
    ensures RootNodes(o, t, 1) == {o.(counter := t, flags := o.flags | ROOT)}
  {
    assert BlocksRun(o.(counter := t, flags := o.flags | ROOT), 0) == {};
  }

  lemma RootBlockIs(f: Compressor, o: Output, t: nat)
    ensures RootBlock(f, o, t) == f(o.(counter := t, flags := o.flags | ROOT))
  {
  }

  /** Compute output block b and copy n of its bytes. */
  method CopyFromBlock(k: Engine, o: Output, b: u64, from: nat, n: nat, out: array<byte>, pos: nat,
                       ghost t: Trace)
    requires from + n <= 64 && pos + n <= out.Length
    modifies out, t`outputs
    ensures t.outputs == old(t.outputs) + RootNodes(o, b, 1)
    ensures out[pos..pos + n] == RootBytes(k.compress, o, 64 * b + from, n)
    ensures SameOutside(old(out[..]), out[..], pos, pos + n)
  {
    hide RootBytes, RootNodes, SameOutside, RootBlock;
    RootNodeOne(o, b);
    ghost var f := k.compress;
    var wideBuf := new byte[64](_ => 0);
    assert out[..] == old(out[..]);
    CompressXof(k, o.(counter := b, flags := o.flags | ROOT), wideBuf, 0, t);
    WithinBlock(f, o, b, from, n);
    RootBlockIs(f, o, b);
    SliceOfSlice(wideBuf[..], 0, 64, from, from + n);
    Memcpy(out, pos, wideBuf[from..from + n]);
  }

  /** Compute whole output blocks from number b on. */
  method CopyBlocks(k: Engine, o: Output, b: u64, blocks: nat, out: array<byte>, pos: nat, ghost t: Trace)
    requires pos + 64 * blocks <= out.Length && b + blocks < 0x1_0000_0000_0000_0000
    modifies out, t`outputs
    ensures out[pos..pos + 64 * blocks] == RootBytes(k.compress, o, 64 * b, 64 * blocks)
    ensures SameOutside(old(out[..]), out[..], pos, pos + 64 * blocks)
    ensures t.outputs == old(t.outputs) + RootNodes(o, b, blocks)
  {
    hide RootBytes, SameOutside, BlocksRun;
    ghost var f := k.compress;
    XofMany(k, o.(counter := b, flags := o.flags | ROOT), out, pos, blocks, t);
    ghost var s := out[pos..pos + 64 * blocks];
    forall i | 0 <= i < blocks
      ensures s[64 * i..64 * i + 64] == RootBlock(f, o, b + i)
    {
      SliceOfSlice(out[..], pos, pos + 64 * blocks, 64 * i, 64 * i + 64);
    }
    WholeBlocks(f, o, b, blocks, s);
  }

  /** The first pos bytes of a window have been written to s, and their nodes compressed. */
  ghost predicate Written(f: Compressor, o: Output, seek: nat, s: seq<byte>, pos: nat, nodes: set<Output>) {
    && pos <= |s| && s[..pos] == RootBytes(f, o, seek, pos)
    && nodes == RootNodes(o, seek / 64, BlocksTouched(seek, pos))
  }

  lemma NothingWritten(f: Compressor, o: Output, seek: nat, s: seq<byte>)
    ensures Written(f, o, seek, s, 0, {})
  {
  }

  /** The window so far, and the part behind it from the next block on, make a longer window. */
  lemma Extend(f: Compressor, o: Output, seek: nat, s: seq<byte>, t: seq<byte>, pos: nat, n: nat,
               nodes: set<Output>)
    requires Written(f, o, seek, s, pos, nodes) && SameOutside(s, t, pos, pos + n)
    requires pos == 0 || (seek + pos) % 64 == 0
    requires t[pos..pos + n] == RootBytes(f, o, seek + pos, n)
    ensures Written(f, o, seek, t, pos + n, nodes + RootNodes(o, (seek + pos) / 64, BlocksTouched(seek + pos, n)))
  {
    hide RootNodes, RootBytes;
    RootBytesJoin(f, o, seek, pos, n);
    assert t[..pos + n] == t[..pos] + t[pos..pos + n];
    RootNodesJoin(o, seek / 64, BlocksTouched(seek, pos), BlocksTouched(seek + pos, n));
  }

  /** Part of block b. */
  lemma ExtendPart(f: Compressor, o: Output, seek: nat, s: seq<byte>, t: seq<byte>, pos: nat, n: nat,
                   b: nat, nodes: set<Output>)
    requires Written(f, o, seek, s, pos, nodes) && SameOutside(s, t, pos, pos + n)
    requires 64 * b <= seek + pos && 0 < n && seek + pos + n <= 64 * b + 64 && (pos == 0 || seek + pos == 64 * b)
    requires t[pos..pos + n] == RootBytes(f, o, seek + pos, n)
    ensures Written(f, o, seek, t, pos + n, nodes + RootNodes(o, b, 1))
  {
    hide RootNodes, RootBytes, Written, SameOutside;
    Extend(f, o, seek, s, t, pos, n, nodes);
  }

  /** Whole blocks from b on. */
  lemma ExtendWhole(f: Compressor, o: Output, seek: nat, s: seq<byte>, t: seq<byte>, pos: nat, blocks: nat,
                    b: nat, nodes: set<Output>)
    requires Written(f, o, seek, s, pos, nodes) && SameOutside(s, t, pos, pos + 64 * blocks)
    requires seek + pos == 64 * b
    requires t[pos..pos + 64 * blocks] == RootBytes(f, o, 64 * b, 64 * blocks)
    ensures Written(f, o, seek, t, pos + 64 * blocks, nodes + RootNodes(o, b, blocks))
  {
    hide RootNodes, RootBytes, Written, SameOutside;
    Extend(f, o, seek, s, t, pos, 64 * blocks, nodes);
  }

  /** Bytes seek to seek + out.Length of a root node's output: part of a first block, whole
      blocks, and part of a last one. */
  method OutputRootBytes(k: Engine, o: Output, seek: u64, out: array<byte>, ghost t: Trace)
    requires out.Length < 0x1_0000_0000_0000_0000
    modifies out, t`outputs
    ensures out[..] == RootBytes(k.compress, o, seek, out.Length)
    ensures t.outputs == old(t.outputs) + RootNodes(o, seek / 64, BlocksTouched(seek, out.Length))
  {
    hide RootBytes, SameOutside, RootNodes, Written, BlocksTouched;
    ghost var f, nodes, s := k.compress, {}, out[..];
    NothingWritten(f, o, seek, s);
    if out.Length == 0 {
      AllWritten(f, o, seek, s, nodes);
      return;
    }
    var blockCounter: u64 := seek / 64;
    var offsetWithinBlock := seek % 64;
    var pos := 0;
    if offsetWithinBlock != 0 {
      var available := 64 - offsetWithinBlock;
      var n := if out.Length > available then available else out.Length;
      CopyFromBlock(k, o, blockCounter, offsetWithinBlock, n, out, 0, t);
      ExtendPart(f, o, seek, s, out[..], 0, n, blockCounter, nodes);
      nodes, s := nodes + RootNodes(o, blockCounter, 1), out[..];
      pos, blockCounter := n, blockCounter + 1;
    }
    var blocks := (out.Length - pos) / 64;
    if blocks != 0 {
      CopyBlocks(k, o, blockCounter, blocks, out, pos, t);
      ExtendWhole(f, o, seek, s, out[..], pos, blocks, blockCounter, nodes);
      nodes, s := nodes + RootNodes(o, blockCounter, blocks), out[..];
    }
    pos, blockCounter := pos + 64 * blocks, blockCounter + blocks;
    if pos != out.Length {
      CopyFromBlock(k, o, blockCounter, 0, out.Length - pos, out, pos, t);
      ExtendPart(f, o, seek, s, out[..], pos, out.Length - pos, blockCounter, nodes);
      nodes, s := nodes + RootNodes(o, blockCounter, 1), out[..];
    }
    AllWritten(f, o, seek, s, nodes);
  }

  lemma AllWritten(f: Compressor, o: Output, seek: nat, s: seq<byte>, nodes: set<Output>)
    requires Written(f, o, seek, s, |s|, nodes)
    ensures s == RootBytes(f, o, seek, |s|)
    ensures nodes == RootNodes(o, seek / 64, BlocksTouched(seek, |s|))
  {
    assert s[..|s|] == s;
  }
}
