/** The tree loses nothing: two hashes that agree although their messages, keys or modes differ come
    down to two compressions that agree although their arguments differ. */
module Collisions {
  import opened Bits
  import opened Words
  import opened Spec
  import opened RootOutput

  /** Two nodes with one chaining value. */
  ghost predicate Collide(f: Compressor, o: Output, p: Output) {
    o != p && CvOf(f, o) == CvOf(f, p)
  }

  /** A mode's flags leave the four bits to the nodes that tell their place. */
  predicate PlaceFree(m: Mode) {
    m.flags & 15 == 0
  }

  lemma FlagsTell(a: byte, b: byte, x: byte, y: byte)
    requires a & 15 == 0 && b & 15 == 0 && x < 16 && y < 16 && a | x == b | y
    ensures a == b && x == y
  {
  }

  function ChunkFlags(blocks: nat): byte {
    StartFlag(blocks) | CHUNK_END
  }

  /** The nodes of two chunks with the same flags are both first blocks, or neither is; and no chunk
      has the flags of a parent. */
  lemma ChunkFlagsTell(a: byte, b: byte, i: nat, j: nat)
    requires a & 15 == 0 && b & 15 == 0
    ensures a | StartFlag(i) | CHUNK_END == b | StartFlag(j) | CHUNK_END ==> a == b && (i == 0 <==> j == 0)
    ensures a | StartFlag(i) == b | StartFlag(j) ==> a == b && (i == 0 <==> j == 0)
    ensures a | StartFlag(i) | CHUNK_END != b | PARENT
  {
    assert a | StartFlag(i) | CHUNK_END == a | ChunkFlags(i) && b | StartFlag(j) | CHUNK_END == b | ChunkFlags(j);
    if a | ChunkFlags(i) == b | ChunkFlags(j) {
      FlagsTell(a, b, ChunkFlags(i), ChunkFlags(j));
    }
    if a | StartFlag(i) == b | StartFlag(j) {
      FlagsTell(a, b, StartFlag(i), StartFlag(j));
    }
    if a | ChunkFlags(i) == b | PARENT {
      FlagsTell(a, b, ChunkFlags(i), PARENT);
    }
  }

  /* ---------- Chunks ---------- */

  /** The node of block i of a chunk that is not its last. */
  function BlockNode(m: Mode, counter: nat, s: seq<byte>, i: nat): Output
    requires 64 * i + 64 <= |s|
  {
    Output(ChunkFold(m, counter, s, i), s[64 * i..64 * i + 64], 64, counter, m.flags | StartFlag(i))
  }

  lemma FoldIsNode(m: Mode, counter: nat, s: seq<byte>, n: nat)
    requires 64 * n <= |s|
    ensures n == 0 ==> ChunkFold(m, counter, s, n) == m.key
    ensures n > 0 ==> ChunkFold(m, counter, s, n) == CvOf(m.compress, BlockNode(m, counter, s, n - 1))
  {
    hide CvOf;
  }

  /** Two chains of blocks that end in one chaining value. */
  lemma {:induction false} FoldCollision(m: Mode, s: seq<byte>, i: nat, w: Mode, t: seq<byte>, j: nat, counter: nat)
    returns (o: Output, p: Output)
    requires m.compress == w.compress && PlaceFree(m) && PlaceFree(w)
    requires 64 * i <= |s| && 64 * j <= |t| && (i == 0 <==> j == 0)
    requires ChunkFold(m, counter, s, i) == ChunkFold(w, counter, t, j)
    requires m.key != w.key || s[..64 * i] != t[..64 * j]
    ensures Collide(m.compress, o, p)
    decreases i
  {
    hide ChunkFold, CvOf, StartFlag;
    FoldIsNode(m, counter, s, i);
    FoldIsNode(w, counter, t, j);
    if i > 0 {
      o, p := BlockNode(m, counter, s, i - 1), BlockNode(w, counter, t, j - 1);
      if o == p {
        ChunkFlagsTell(m.flags, w.flags, i - 1, j - 1);
        if s[..64 * i] != t[..64 * j] {
          BlocksDiffer(s, i, t, j);
        }
        o, p := FoldCollision(m, s, i - 1, w, t, j - 1, counter);
      }
    }
  }

  lemma BlocksDiffer(s: seq<byte>, i: nat, t: seq<byte>, j: nat)
    requires 0 < i && 0 < j && 64 * i <= |s| && 64 * j <= |t| && s[..64 * i] != t[..64 * j]
    requires s[64 * (i - 1)..64 * i] == t[64 * (j - 1)..64 * j]
    ensures s[..64 * (i - 1)] != t[..64 * (j - 1)]
  {
    assert s[..64 * i] == s[..64 * (i - 1)] + s[64 * (i - 1)..64 * i];
    assert t[..64 * j] == t[..64 * (j - 1)] + t[64 * (j - 1)..64 * j];
  }

  /** The last block of a chunk and its length give the chunk's last bytes back. */
  lemma LastBytes(m: Mode, s: seq<byte>, counter: nat)
    requires |s| <= 1024
    ensures var o, n := ChunkOutput(m, s, counter), BlocksBefore(|s|);
            && 64 * n <= |s| && o.blockLen <= 64 && s[64 * n..] == o.block[..o.blockLen]
            && o.inputCv == ChunkFold(m, counter, s, n) && o.flags == m.flags | StartFlag(n) | CHUNK_END
  {
    hide ChunkFold, StartFlag;
  }

  /** Two chunks with one node. */
  lemma ChunkCollision(m: Mode, s: seq<byte>, w: Mode, t: seq<byte>, counter: nat)
    returns (o: Output, p: Output)
    requires m.compress == w.compress && PlaceFree(m) && PlaceFree(w) && (m != w || s != t)
    requires |s| <= 1024 && |t| <= 1024 && ChunkOutput(m, s, counter) == ChunkOutput(w, t, counter)
    ensures Collide(m.compress, o, p)
  {
    hide ChunkFold, ChunkOutput, StartFlag, Collide, BlocksBefore;
    var i, j := BlocksBefore(|s|), BlocksBefore(|t|);
    LastBytes(m, s, counter);
    LastBytes(w, t, counter);
    ChunkFlagsTell(m.flags, w.flags, i, j);
    assert s == s[..64 * i] + s[64 * i..] && t == t[..64 * j] + t[64 * j..];
    o, p := FoldCollision(m, s, i, w, t, j, counter);
  }

  /* ---------- The tree ---------- */

  lemma TopNode(m: Mode, s: seq<byte>, counter: nat)
    ensures |s| <= 1024 ==> SubtreeOutput(m, s, counter) == ChunkOutput(m, s, counter)
    ensures |s| > 1024 ==>
              SubtreeOutput(m, s, counter) ==
              ParentOutput(m, CvOf(m.compress, SubtreeOutput(m, s[..LeftLen(|s|)], counter)),
                           CvOf(m.compress, SubtreeOutput(m, s[LeftLen(|s|)..], counter + LeftLen(|s|) / 1024)))
  {
    hide ChunkOutput, CvOf, LeftLen, ParentOutput;
  }

  lemma ParentsTell(m: Mode, a: Cv, b: Cv, w: Mode, c: Cv, d: Cv)
    requires m.compress == w.compress && PlaceFree(m) && PlaceFree(w)
    requires ParentOutput(m, a, b) == ParentOutput(w, c, d)
    ensures m == w && a == c && b == d
  {
    FlagsTell(m.flags, w.flags, PARENT, PARENT);
    var x: seq<byte>, y: seq<byte> := a + b, c + d;
    assert x[..32] == a && x[32..] == b && y[..32] == c && y[32..] == d;
  }

  /** Two messages with one top node. */
  lemma {:induction false} NodeCollision(m: Mode, s: seq<byte>, w: Mode, t: seq<byte>, counter: nat)
    returns (o: Output, p: Output)
    requires m.compress == w.compress && PlaceFree(m) && PlaceFree(w) && (m != w || s != t)
    requires SubtreeOutput(m, s, counter) == SubtreeOutput(w, t, counter)
    ensures Collide(m.compress, o, p)
    decreases |s|
  {
    hide SubtreeOutput, ChunkOutput, ParentOutput, CvOf, LeftLen, PlaceFree;
    TopNode(m, s, counter);
    TopNode(w, t, counter);
    if |s| <= 1024 && |t| <= 1024 {
      o, p := ChunkCollision(m, s, w, t, counter);
    } else if |s| > 1024 && |t| > 1024 {
      var i, j := LeftLen(|s|), LeftLen(|t|);
      var a, b := SubtreeOutput(m, s[..i], counter), SubtreeOutput(m, s[i..], counter + i / 1024);
      var c, d := SubtreeOutput(w, t[..j], counter), SubtreeOutput(w, t[j..], counter + j / 1024);
      ParentsTell(m, CvOf(m.compress, a), CvOf(m.compress, b), w, CvOf(m.compress, c), CvOf(m.compress, d));
      assert s == s[..i] + s[i..] && t == t[..j] + t[j..];
      if a != c {
        o, p := a, c;
      } else if s[..i] != t[..j] {
        o, p := NodeCollision(m, s[..i], m, t[..j], counter);
      } else {
        assert i == |s[..i]| == |t[..j]| == j;
        if b != d {
          o, p := b, d;
        } else {
          o, p := NodeCollision(m, s[i..], m, t[j..], counter + i / 1024);
        }
      }
    } else {
      NoChunkIsParent(m, if |s| <= 1024 then s else t, w, counter);
      NoChunkIsParent(w, if |s| <= 1024 then s else t, m, counter);
      assert false;
    }
  }

  lemma NoChunkIsParent(m: Mode, s: seq<byte>, w: Mode, counter: nat)
    requires PlaceFree(m) && PlaceFree(w) && |s| <= 1024
    ensures forall a: Cv, b: Cv :: ChunkOutput(m, s, counter) != ParentOutput(w, a, b)
  {
    hide ChunkFold, StartFlag;
    ChunkFlagsTell(m.flags, w.flags, BlocksBefore(|s|), 0);
  }

  /* ---------- Hashes ---------- */

  lemma RootsTell(o: Output, p: Output)
    requires o.(counter := 0, flags := o.flags | 8) == p.(counter := 0, flags := p.flags | 8)
    requires o.counter == p.counter && o.flags & 8 == 0 && p.flags & 8 == 0
    ensures o == p
  {
  }

  lemma TopUnmarked(m: Mode, s: seq<byte>)
    requires PlaceFree(m)
    ensures SubtreeOutput(m, s, 0).flags & 8 == 0 && SubtreeOutput(m, s, 0).counter == 0
  {
    hide ChunkFold, CvOf, LeftLen;
  }

  /** The first 32 bytes of a hash are the chaining value of its root. */
  lemma HashIsCv(m: Mode, s: seq<byte>, n: nat)
    requires n >= 32
    ensures var o := SubtreeOutput(m, s, 0);
            Hash(m, s, 0, n)[..32] == CvOf(m.compress, o.(counter := 0, flags := o.flags | 8))
  {
    hide SubtreeOutput, Hash;
    HashBlock(m, s, 0);
    HashJoin(m, s, 0, 32, 32);
    HashJoin(m, s, 0, 32, n - 32);
    assert Hash(m, s, 64 * 0, 64) == Hash(m, s, 0, 32 + 32);
  }

  /** Two different messages, or one under different keys or in different modes, have the same hash
      of at least 32 bytes only if two different compressions have the same chaining value. */
  lemma HashCollision(m: Mode, s: seq<byte>, w: Mode, t: seq<byte>, n: nat)
    returns (o: Output, p: Output)
    requires m.compress == w.compress && PlaceFree(m) && PlaceFree(w) && (m != w || s != t)
    requires n >= 32 && Hash(m, s, 0, n) == Hash(w, t, 0, n)
    ensures Collide(m.compress, o, p)
  {
    hide SubtreeOutput, Hash, CvOf, PlaceFree;
    HashIsCv(m, s, n);
    HashIsCv(w, t, n);
    var a, b := SubtreeOutput(m, s, 0), SubtreeOutput(w, t, 0);
    o, p := a.(counter := 0, flags := a.flags | 8), b.(counter := 0, flags := b.flags | 8);
    if o == p {
      TopUnmarked(m, s);
      TopUnmarked(w, t);
      RootsTell(a, b);
      o, p := NodeCollision(m, s, w, t, 0);
    }
  }

  /** The modes of the interface are such modes, and pairwise different: without a collision, a hash
      tells the message, the mode and the key. */
  lemma ModesPlaceFree(f: Compressor, key: Cv, context: seq<byte>)
    ensures PlaceFree(PlainMode(f)) && PlaceFree(KeyedMode(f, key)) && PlaceFree(DeriveKeyMode(f, context))
    ensures PlainMode(f) != KeyedMode(f, key) && PlainMode(f) != DeriveKeyMode(f, context)
    ensures KeyedMode(f, key) != DeriveKeyMode(f, context)
  {
    hide Hash, StoreWords;
  }

  /** So with keys derived from contexts: two contexts or two messages. */
  lemma ContextCollision(f: Compressor, c: seq<byte>, s: seq<byte>, d: seq<byte>, t: seq<byte>, n: nat)
    returns (o: Output, p: Output)
    requires c != d || s != t
    requires n >= 32 && Hash(DeriveKeyMode(f, c), s, 0, n) == Hash(DeriveKeyMode(f, d), t, 0, n)
    ensures Collide(f, o, p)
  {
    hide Hash, StoreWords, Collide;
    if DeriveKeyMode(f, c) != DeriveKeyMode(f, d) || s != t {
      o, p := HashCollision(DeriveKeyMode(f, c), s, DeriveKeyMode(f, d), t, n);
    } else {
      var m := Mode(f, StoreWords(IV), DERIVE_KEY_CONTEXT);
      o, p := HashCollision(m, c, m, d, 32);
    }
  }
}
