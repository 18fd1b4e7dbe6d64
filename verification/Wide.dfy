/** Hashing a whole subtree at once, keeping up to `degree` chaining values side by side so that
    many parents can be compressed together (blake3.c, blake3_compress_subtree_wide). */
module Wide {
  import opened Bits
  import opened Words
  import opened Spec
  import opened Buffers
  import opened Kernel
  import opened Chunk
  import opened Pairing
  import opened Tree
  import opened Parents

  /** What the dispatcher found: a kernel, how many inputs it takes at a time, and the most any
      kernel of the build takes. */
  datatype Platform = Platform(engine: Engine, degree: nat, maxDegree: nat) {
    predicate Valid() {
      IsPow2(degree) && IsPow2(maxDegree) && degree <= maxDegree
    }

    function Compress(): Compressor {
      engine.compress
    }

    /** Fixed buffers have room for at least two. */
    function MaxOr2(): nat {
      if maxDegree > 2 then maxDegree else 2
    }

    function DegreeOr2(): nat {
      if degree > 2 then degree else 2
    }
  }

  /** Parents, as a way to combine two chaining values. */
  function Up(m: Mode): (Cv, Cv) -> Cv {
    (left: Cv, right: Cv) => ParentCv(m, left, right)
  }

  /** The i-th chunk of an input, possibly partial. */
  function ChunkAt(input: seq<byte>, i: nat): (c: seq<byte>)
    requires i < Chunks(|input|)
    ensures 1 <= |c| <= 1024
  {
    if 1024 * (i + 1) <= |input| then input[1024 * i..1024 * (i + 1)] else input[1024 * i..]
  }

  function ChunkCvs(m: Mode, input: seq<byte>, counter: nat): (cvs: seq<Cv>)
    ensures |cvs| == Chunks(|input|)
  {
    seq(Chunks(|input|), i requires 0 <= i < Chunks(|input|) => ChunkCv(m, ChunkAt(input, i), counter + i))
  }

  /* ---------- Lists that stand for a subtree ---------- */

  /** A list of chaining values that stands for the subtree over an input: its own chaining value,
      or a list for each child side by side, split as a left-full tree splits a list.  The values
      may come from different levels of the tree. */
  ghost predicate Covers(m: Mode, input: seq<byte>, counter: nat, l: seq<Cv>)
    decreases |input|
  {
    || l == [SubtreeCv(m, input, counter)]
    || (|input| > 1024 && |l| >= 2 && var n := LeftLen(|input|);
        Covers(m, input[..n], counter, LeftHalf(l)) &&
        Covers(m, input[n..], counter + n / 1024, RightHalf(l)))
  }

  /** Such a list in which the top node, if it is a parent, has not been compressed. */
  ghost predicate Represents(m: Mode, input: seq<byte>, counter: nat, l: seq<Cv>) {
    Covers(m, input, counter, l) && (|input| > 1024 ==> |l| >= 2)
  }

  lemma CoversSplit(m: Mode, input: seq<byte>, counter: nat, l: seq<Cv>)
    requires Covers(m, input, counter, l) && |l| >= 2
    ensures |input| > 1024
    ensures Covers(m, input[..LeftLen(|input|)], counter, LeftHalf(l))
    ensures Covers(m, input[LeftLen(|input|)..], counter + LeftLen(|input|) / 1024, RightHalf(l))
  {
    hide SubtreeCv, LeftLen, LeftHalf, RightHalf;
  }

  lemma CoversMake(m: Mode, input: seq<byte>, counter: nat, l: seq<Cv>)
    requires |input| > 1024 && |l| >= 2
    requires Covers(m, input[..LeftLen(|input|)], counter, LeftHalf(l))
    requires Covers(m, input[LeftLen(|input|)..], counter + LeftLen(|input|) / 1024, RightHalf(l))
    ensures Covers(m, input, counter, l)
  {
    hide SubtreeCv, LeftLen, LeftHalf, RightHalf;
  }

  lemma CoversSingle(m: Mode, input: seq<byte>, counter: nat, x: Cv)
    ensures Covers(m, input, counter, [x]) <==> x == SubtreeCv(m, input, counter)
  {
    hide SubtreeCv, LeftLen, LeftHalf, RightHalf;
    assert [x][0] == x;
  }

  lemma ParentOfHalves(m: Mode, input: seq<byte>, counter: nat)
    requires |input| > 1024
    ensures SubtreeCv(m, input, counter) ==
            ParentCv(m, SubtreeCv(m, input[..LeftLen(|input|)], counter),
                     SubtreeCv(m, input[LeftLen(|input|)..], counter + LeftLen(|input|) / 1024))
  {
    hide CvOf, ChunkOutput, LeftLen;
  }

  /** Two lists for the children, side by side, represent the subtree. */
  lemma RepresentsJoin(m: Mode, input: seq<byte>, counter: nat, a: seq<Cv>, b: seq<Cv>)
    requires |input| > 1024 && IsPow2(|a|) && 1 <= |b| <= |a|
    requires Represents(m, input[..LeftLen(|input|)], counter, a)
    requires Represents(m, input[LeftLen(|input|)..], counter + LeftLen(|input|) / 1024, b)
    ensures Represents(m, input, counter, a + b)
  {
    hide Covers, LeftHalf, RightHalf, LeftLen;
    ConcatHalves(a, b);
    CoversMake(m, input, counter, a + b);
  }

  /** When two are left they are the chaining values of the two children. */
  lemma RepresentsPair(m: Mode, input: seq<byte>, counter: nat, l: seq<Cv>)
    requires Represents(m, input, counter, l) && |l| == 2
    ensures |input| > 1024
    ensures l == [SubtreeCv(m, input[..LeftLen(|input|)], counter),
                  SubtreeCv(m, input[LeftLen(|input|)..], counter + LeftLen(|input|) / 1024)]
  {
    CoversSplit(m, input, counter, l);
    assert LeftHalf(l) == [l[0]] && RightHalf(l) == [l[1]];
    hide Covers, LeftHalf, RightHalf, LeftLen, SubtreeCv;
    CoversSingle(m, input[..LeftLen(|input|)], counter, l[0]);
    CoversSingle(m, input[LeftLen(|input|)..], counter + LeftLen(|input|) / 1024, l[1]);
  }

  /** One level of parents still covers the subtree. */
  lemma {:induction false} CoversPairUp(m: Mode, input: seq<byte>, counter: nat, l: seq<Cv>)
    requires Covers(m, input, counter, l)
    ensures Covers(m, input, counter, PairUp(Up(m), l))
    decreases |input|
  {
    hide Covers, SubtreeCv, LeftLen, PairUp, Up, ParentCv;
    if |l| == 2 {
      RepresentsPair(m, input, counter, l);
      ParentOfHalves(m, input, counter);
      PairUpTwo(m, l);
      CoversSingle(m, input, counter, ParentCv(m, l[0], l[1]));
    } else if |l| > 2 {
      CoversSplit(m, input, counter, l);
      var n := LeftLen(|input|);
      CoversPairUp(m, input[..n], counter, LeftHalf(l));
      CoversPairUp(m, input[n..], counter + n / 1024, RightHalf(l));
      PairUpHalves(Up(m), l);
      CoversMake(m, input, counter, PairUp(Up(m), l));
    } else {
      CoversNonempty(m, input, counter, l);
      PairUpSingle(Up(m), l);
    }
  }

  lemma {:induction false} CoversNonempty(m: Mode, input: seq<byte>, counter: nat, l: seq<Cv>)
    requires Covers(m, input, counter, l)
    ensures |l| >= 1
  {
    hide SubtreeCv, LeftLen, LeftHalf, RightHalf;
  }

  lemma PairUpTwo(m: Mode, l: seq<Cv>)
    requires |l| == 2
    ensures PairUp(Up(m), l) == [ParentCv(m, l[0], l[1])]
  {
    hide CvOf;
  }

  /** As long as more than two are paired up, the top node is not compressed. */
  lemma RepresentsPairUp(m: Mode, input: seq<byte>, counter: nat, l: seq<Cv>)
    requires Represents(m, input, counter, l) && |l| > 2
    ensures Represents(m, input, counter, PairUp(Up(m), l))
  {
    hide Covers, PairUp, Up;
    CoversPairUp(m, input, counter, l);
  }

  /** Every chaining value of such a list is that of a node of the tree; and if there is more than
      one, of a node below the top. */
  lemma {:induction false} EntryIsNode(m: Mode, input: seq<byte>, counter: nat, l: seq<Cv>, i: nat)
    returns (a: nat, b: nat)
    requires Covers(m, input, counter, l) && i < |l|
    ensures a <= b <= |input| && HasNode(|input|, a, b) && a % 1024 == 0
    ensures l[i] == SubtreeCv(m, input[a..b], counter + a / 1024)
    ensures |l| >= 2 ==> !(a == 0 && b == |input|)
    decreases |input|
  {
    hide *;
    if |l| == 1 {
      a, b := 0, |input|;
      NodeSteps(|input|, 0, 0);
      assert input[a..b] == input && l == [l[0]];
      CoversSingle(m, input, counter, l[0]);
    } else {
      CoversSplit(m, input, counter, l);
      var n, h := LeftLen(|input|), |LeftHalf(l)|;
      HalvesAt(l, i);
      if i < h {
        a, b := EntryIsNode(m, input[..n], counter, LeftHalf(l), i);
        assert input[..n] == input[0..n];
        SliceOfSlice(input, 0, n, a, b);
        NodeSteps(|input|, a, b);
      } else {
        var a', b' := EntryIsNode(m, input[n..], counter + n / 1024, RightHalf(l), i - h);
        a, b := n + a', n + b';
        assert input[n..] == input[n..|input|];
        SliceOfSlice(input, n, |input|, a', b');
        assert n / 1024 + a' / 1024 == (n + a') / 1024;
        NodeSteps(|input|, a', b');
      }
    }
  }

  lemma HalvesAt<T>(l: seq<T>, i: nat)
    requires |l| >= 2 && i < |l|
    ensures i < |LeftHalf(l)| ==> l[i] == LeftHalf(l)[i]
    ensures |LeftHalf(l)| <= i ==> i - |LeftHalf(l)| < |RightHalf(l)| && l[i] == RightHalf(l)[i - |LeftHalf(l)|]
  {
  }

  /** The chunks of an input cut after h chunks are the chunks of its two parts. */
  lemma ChunksOfParts(input: seq<byte>, h: nat)
    requires 1024 * h < |input|
    ensures Chunks(1024 * h) == h && Chunks(|input| - 1024 * h) == Chunks(|input|) - h >= 0
    ensures forall i | 0 <= i < h :: ChunkAt(input[..1024 * h], i) == ChunkAt(input, i)
    ensures forall i | 0 <= i < Chunks(|input|) - h :: ChunkAt(input[1024 * h..], i) == ChunkAt(input, h + i)
  {
    var left, right := input[..1024 * h], input[1024 * h..];
    forall i | 0 <= i < h
      ensures ChunkAt(left, i) == ChunkAt(input, i)
    {
      assert left[1024 * i..1024 * (i + 1)] == input[1024 * i..1024 * (i + 1)];
    }
    forall i | 0 <= i < Chunks(|right|)
      ensures ChunkAt(right, i) == ChunkAt(input, h + i)
    {
    }
  }

  lemma ChunkCvsCut(m: Mode, input: seq<byte>, counter: nat, h: nat)
    requires 1024 * h < |input|
    ensures |ChunkCvs(m, input, counter)| >= h
    ensures ChunkCvs(m, input, counter)[..h] == ChunkCvs(m, input[..1024 * h], counter)
    ensures ChunkCvs(m, input, counter)[h..] == ChunkCvs(m, input[1024 * h..], counter + h)
  {
    hide ChunkCv, ChunkAt, Chunks;
    ChunksOfParts(input, h);
  }

  /** Splitting the input at the tree's split splits the list of chunks at the list's split. */
  lemma ChunkCvsSplit(m: Mode, input: seq<byte>, counter: nat)
    requires |input| > 1024
    ensures LeftLen(|input|) == 1024 * LeftPow(Chunks(|input|))
    ensures LeftHalf(ChunkCvs(m, input, counter)) == ChunkCvs(m, input[..LeftLen(|input|)], counter)
    ensures RightHalf(ChunkCvs(m, input, counter)) ==
            ChunkCvs(m, input[LeftLen(|input|)..], counter + LeftLen(|input|) / 1024)
  {
    hide ChunkCvs, LeftPow;
    var h := LeftPow(Chunks(|input|));
    assert LeftLen(|input|) == 1024 * h;
    ChunkCvsCut(m, input, counter, h);
  }

  /** The tree over the list of chunk chaining values is the subtree of the specification. */
  lemma {:induction false} ChunkCvsTree(m: Mode, input: seq<byte>, counter: nat)
    requires |input| >= 1
    ensures TreeOf(Up(m), ChunkCvs(m, input, counter)) == SubtreeCv(m, input, counter)
    decreases |input|
  {
    if |input| <= 1024 {
      assert ChunkAt(input, 0) == input;
    } else {
      var n := LeftLen(|input|);
      ChunkCvsSplit(m, input, counter);
      ChunkCvsTree(m, input[..n], counter);
      ChunkCvsTree(m, input[n..], counter + n / 1024);
      hide ChunkCvs, CvOf, ChunkOutput, LeftHalf, RightHalf;
    }
  }

  lemma {:induction false} ChunkCvsCover(m: Mode, input: seq<byte>, counter: nat)
    requires |input| >= 1
    ensures Covers(m, input, counter, ChunkCvs(m, input, counter))
    decreases |input|
  {
    if |input| <= 1024 {
      hide ChunkOutput, CvOf;
      assert ChunkAt(input, 0) == input;
      assert ChunkCvs(m, input, counter) == [SubtreeCv(m, input, counter)];
    } else {
      hide ChunkCvs, Covers, SubtreeCv, LeftHalf, RightHalf;
      var n := LeftLen(|input|);
      ChunkCvsSplit(m, input, counter);
      ChunkCvsCover(m, input[..n], counter);
      ChunkCvsCover(m, input[n..], counter + n / 1024);
      CoversMake(m, input, counter, ChunkCvs(m, input, counter));
    }
  }

  lemma ChunkCvsRepresent(m: Mode, input: seq<byte>, counter: nat)
    requires |input| >= 1
    ensures Represents(m, input, counter, ChunkCvs(m, input, counter))
  {
    hide Covers;
    ChunkCvsCover(m, input, counter);
  }

  /* ---------- The methods ---------- */

  /** The chunks of an input as a list of slices of it. */
  lemma WholeChunks(m: Mode, input: seq<byte>, counter: nat, chunks: seq<seq<byte>>)
    requires |chunks| <= Chunks(|input|) && 1024 * |chunks| <= |input|
    requires forall i | 0 <= i < |chunks| :: chunks[i] == input[1024 * i..1024 * (i + 1)]
    ensures HashManyOf(m.compress, m.key, chunks, 16, counter, true, m.flags, CHUNK_START, CHUNK_END)
         == ChunkCvs(m, input, counter)[..|chunks|]
  {
    hide ChunkCv, HashOneOf;
    forall i | 0 <= i < |chunks|
      ensures HashOneOf(m.compress, m.key, chunks[i], 16, counter + i, m.flags, CHUNK_START, CHUNK_END)
           == ChunkCv(m, ChunkAt(input, i), counter + i)
    {
      HashOneIsChunk(m, chunks[i], 16, counter + i);
    }
  }

  /** Collect the whole chunks of an input. */
  method ListChunks(p: Platform, input: seq<byte>) returns (chunks: seq<seq<byte>>)
    requires |input| <= 1024 * p.maxDegree
    ensures 1024 * |chunks| <= |input| < 1024 * (|chunks| + 1)
    ensures forall i | 0 <= i < |chunks| :: chunks[i] == input[1024 * i..1024 * (i + 1)]
  {
    var chunksArray := new seq<byte>[p.maxDegree](_ => []);
    var position, len := 0, 0;
    while |input| - position >= 1024
      invariant position == 1024 * len <= |input|
      invariant forall i | 0 <= i < len :: chunksArray[i] == input[1024 * i..1024 * (i + 1)]
    {
      chunksArray[len] := input[position..position + 1024];
      position := position + 1024;
      len := len + 1;
    }
    chunks := chunksArray[..len];
  }

  /** Hash every chunk of an input of at most maxDegree chunks. */
  method CompressChunksParallel(p: Platform, input: seq<byte>, key: Words8, counter: nat, flags: byte,
                                out: array<byte>, off: nat, ghost t: Trace) returns (n: nat)
    requires p.Valid() && 0 < |input| <= 1024 * p.maxDegree && !Watched(flags)
    requires counter + Chunks(|input|) <= 0x40_0000_0000_0000
    requires off + 32 * Chunks(|input|) <= out.Length
    modifies out, t`parents
    ensures n == Chunks(|input|) && t.parents == old(t.parents)
    ensures CvsAt(out[..], off, n) == ChunkCvs(Mode(p.Compress(), StoreWords(key), flags), input, counter)
    ensures SameOutside(old(out[..]), out[..], off, off + 32 * n)
  {
    hide ChunkCvs, HashManyOf, HashManySeen, StoreWords, ChunkCv, SameOutside, CvsAt, Watched;
    ghost var m := Mode(p.Compress(), StoreWords(key), flags);
    var chunks := ListChunks(p, input);
    n := |chunks|;
    assert out[..] == old(out[..]);
    WholeChunks(m, input, counter, chunks);
    ChunksSeen(m, chunks, |chunks|, counter);
    HashMany(p.engine, chunks, 16, key, counter, true, flags, CHUNK_START, CHUNK_END, out, off, t);
    if |input| > 1024 * n {
      var cv := HashChunk(p.engine, input[1024 * n..], key, counter + n, flags, t);
      LastChunk(m, input, counter, n);
      ghost var before := out[..];
      PutCv(out, off, n, cv);
      n := n + 1;
      SameOutsideJoin(old(out[..]), before, out[..], off, off + 32 * n - 32, off + 32 * n);
    } else {
      assert ChunkCvs(m, input, counter)[..n] == ChunkCvs(m, input, counter);
    }
  }

  lemma LastChunk(m: Mode, input: seq<byte>, counter: nat, len: nat)
    requires 1024 * len < |input| < 1024 * (len + 1)
    ensures Chunks(|input|) == len + 1
    ensures ChunkCvs(m, input, counter) ==
            ChunkCvs(m, input, counter)[..len] +
            [ChunkCv(m, input[1024 * len..], counter + len)]
  {
    hide ChunkCv;
    assert input[1024 * len..] == ChunkAt(input, len);
  }

  /** Collect neighbouring pairs of chaining values as parent blocks. */
  method ListParents(p: Platform, children: array<byte>, num: nat) returns (parents: seq<seq<byte>>)
    requires num <= 2 * p.MaxOr2() + 1 && 32 * num <= children.Length
    ensures |parents| == num / 2
    ensures forall i | 0 <= i < |parents| :: parents[i] == children[64 * i..64 * i + 64]
  {
    var parentsArray := new seq<byte>[p.MaxOr2()](_ => []);
    var len := 0;
    while num - 2 * len >= 2
      invariant 2 * len <= num
      invariant forall i | 0 <= i < len :: parentsArray[i] == children[64 * i..64 * i + 64]
    {
      parentsArray[len] := children[64 * len..64 * len + 64];
      len := len + 1;
    }
    parents := parentsArray[..len];
  }

  /** Hash pairs of chaining values into parents; an odd one at the end is carried over. */
  method CompressParentsParallel(p: Platform, children: array<byte>, num: nat, key: Words8, flags: byte,
                                 out: array<byte>, off: nat, ghost t: Trace) returns (n: nat)
    requires p.Valid() && out != children
    requires 2 <= num <= 2 * p.MaxOr2() && 32 * num <= children.Length
    requires off + 32 * ((num + 1) / 2) <= out.Length && num < 0x1_0000_0000_0000_0000
    modifies out, t`parents
    ensures n == (num + 1) / 2
    ensures CvsAt(out[..], off, n) ==
            PairUp(Up(Mode(p.Compress(), StoreWords(key), flags)), CvsAt(children[..], 0, num))
    ensures SameOutside(old(out[..]), out[..], off, off + 32 * n)
    ensures t.parents == old(t.parents) +
            LevelParents(Mode(p.Compress(), StoreWords(key), flags), CvsAt(children[..], 0, num))
  {
    hide PairUp, HashManyOf, HashManySeen, LevelParents, StoreWords, Up, SameOutside, CvsAt, IsPow2, Watched;
    ghost var m := Mode(p.Compress(), StoreWords(key), flags);
    var parents := ListParents(p, children, num);
    n := |parents|;
    assert out[..] == old(out[..]);
    ghost var cvs := children[..];
    WholeParents(m, cvs, num, parents);
    WholeParentsSeen(m, cvs, num, parents, |parents|);
    HashMany(p.engine, parents, 1, key, 0, false, flags | PARENT, 0, 0, out, off, t);
    assert children[..] == cvs;
    if num > 2 * n {
      ghost var before := out[..];
      PutCv(out, off, n, children[64 * n..64 * n + 32]);
      n := n + 1;
      SameOutsideJoin(old(out[..]), before, out[..], off, off + 32 * n - 32, off + 32 * n);
    }
  }

  lemma ParentAt(m: Mode, children: seq<byte>, num: nat, i: nat)
    requires 32 * num <= |children| && 2 * i + 1 < num
    ensures HashOneOf(m.compress, m.key, children[64 * i..64 * i + 64], 1, 0, m.flags | PARENT, 0, 0)
         == ParentCv(m, CvAt(children, 0, 2 * i), CvAt(children, 0, 2 * i + 1))
  {
    hide HashOneOf, ParentCv;
    var left: Cv, right: Cv := CvAt(children, 0, 2 * i), CvAt(children, 0, 2 * i + 1);
    var block: seq<byte> := left + right;
    assert children[64 * i..64 * i + 64] == block;
    HashOneWatched(m, left, right);
  }

  lemma WholeParents(m: Mode, children: seq<byte>, num: nat, parents: seq<seq<byte>>)
    requires 32 * num <= |children| && |parents| == num / 2
    requires forall i | 0 <= i < |parents| :: parents[i] == children[64 * i..64 * i + 64]
    ensures var l := HashManyOf(m.compress, m.key, parents, 1, 0, false, m.flags | PARENT, 0, 0);
            PairUp(Up(m), CvsAt(children, 0, num)) ==
            if num % 2 == 0 then l else l + [children[32 * num - 32..32 * num]]
  {
    hide HashOneOf, ParentCv;
    var cvs := CvsAt(children, 0, num);
    var l := HashManyOf(m.compress, m.key, parents, 1, 0, false, m.flags | PARENT, 0, 0);
    var r := PairUp(Up(m), cvs);
    forall i | 0 <= i < num / 2
      ensures l[i] == r[i]
    {
      ParentAt(m, children, num, i);
    }
    if num % 2 == 1 {
      assert r[num / 2] == CvAt(children, 0, num - 1);
    }
  }

  /** Hashing the first n parent blocks compresses those parents. */
  lemma {:induction false} WholeParentsSeen(m: Mode, children: seq<byte>, num: nat, parents: seq<seq<byte>>,
                                            n: nat)
    requires 32 * num <= |children| && n <= |parents| == num / 2
    requires forall i | 0 <= i < |parents| :: parents[i] == children[64 * i..64 * i + 64]
    ensures HashManySeen(m.compress, m.key, parents, n, 1, 0, false, m.flags | PARENT, 0, 0)
         == LevelParents(m, CvsAt(children, 0, num)[..2 * n])
    ensures n == num / 2 ==>
              LevelParents(m, CvsAt(children, 0, num)[..2 * n]) == LevelParents(m, CvsAt(children, 0, num))
  {
    hide HashBlocksSeen, ParentOutput;
    var cvs := CvsAt(children, 0, num);
    if n > 0 {
      WholeParentsSeen(m, children, num, parents, n - 1);
      ghost var left: Cv, right: Cv := cvs[2 * n - 2], cvs[2 * n - 1];
      ghost var block: seq<byte> := left + right;
      assert parents[n - 1] == block;
      ParentSeen(m, left, right);
      assert cvs[..2 * n] == cvs[..2 * (n - 1)] + [left, right];
      LevelSplit(m, cvs[..2 * (n - 1)], [left, right]);
      LevelOfTwo(m, left, right);
    }
    if n == num / 2 {
      LevelOfOdd(m, cvs);
    }
  }

  lemma LevelOfTwo(m: Mode, left: Cv, right: Cv)
    ensures LevelParents(m, [left, right]) == {ParentOutput(m, left, right)}
  {
    hide ParentOutput;
    assert [left, right][2..] == [];
  }

  lemma LevelOfOdd(m: Mode, l: seq<Cv>)
    ensures LevelParents(m, l[..2 * (|l| / 2)]) == LevelParents(m, l)
  {
    hide ParentOutput;
    var e := l[..2 * (|l| / 2)];
    LevelSplit(m, e, l[2 * (|l| / 2)..]);
    assert e + l[2 * (|l| / 2)..] == l;
  }

  /** One level of parents compresses exactly the parents between a list of k values and one of
      half as many. */
  lemma {:induction false} LevelStep(m: Mode, input: seq<byte>, counter: nat, l: seq<Cv>)
    requires Covers(m, input, counter, l) && |l| >= 2
    ensures ParentsUnder(m, input, counter, (|l| + 1) / 2)
         == ParentsUnder(m, input, counter, |l|) + LevelParents(m, l)
    decreases |input|
  {
    hide *;
    CoversSplit(m, input, counter, l);
    var n := LeftLen(|input|);
    var a, b := LeftHalf(l), RightHalf(l);
    HalvesMake(l);
    if |l| == 2 {
      RepresentsTwo(m, input, counter, l);
      RepresentsPair(m, input, counter, l);
      OutputOfHalves(m, input, counter);
      LevelOfTwo(m, l[0], l[1]);
      assert l == [l[0], l[1]];
      ParentsUnderTwo(m, input, counter);
      ParentsUnderOne(m, input, counter);
    } else {
      LevelStep(m, input[..n], counter, a);
      LevelSplit(m, a, b);
      if |b| >= 2 {
        LevelStep(m, input[n..], counter + n / 1024, b);
      } else {
        LevelOfNone(m, b);
      }
      ParentsUnderJoin(m, input, counter, |a|, |b|);
      ParentsUnderJoin(m, input, counter, (|a| + 1) / 2, (|b| + 1) / 2);
    }
  }

  lemma RepresentsStep(m: Mode, input: seq<byte>, counter: nat, l: seq<Cv>)
    requires Represents(m, input, counter, l) && |l| >= 2
    ensures ParentsUnder(m, input, counter, (|l| + 1) / 2)
         == ParentsUnder(m, input, counter, |l|) + LevelParents(m, l)
  {
    hide Covers, ParentsUnder, LevelParents;
    LevelStep(m, input, counter, l);
  }

  lemma LevelOfNone(m: Mode, l: seq<Cv>)
    requires |l| == 1
    ensures LevelParents(m, l) == {}
  {
  }

  lemma RepresentsTwo(m: Mode, input: seq<byte>, counter: nat, l: seq<Cv>)
    requires Covers(m, input, counter, l) && |l| == 2
    ensures Represents(m, input, counter, l)
  {
    hide Covers;
  }

  lemma HalvesMake(l: seq<Cv>)
    requires |l| >= 2
    ensures l == LeftHalf(l) + RightHalf(l)
    ensures |l| > 2 ==> |LeftHalf(l)| % 2 == 0 && |LeftHalf(l)| >= 2 && IsPow2((|LeftHalf(l)| + 1) / 2)
    ensures 1 <= |RightHalf(l)| <= |LeftHalf(l)|
  {
  }

  lemma OutputOfHalves(m: Mode, input: seq<byte>, counter: nat)
    requires |input| > 1024
    ensures SubtreeOutput(m, input, counter) ==
            ParentOutput(m, SubtreeCv(m, input[..LeftLen(|input|)], counter),
                         SubtreeCv(m, input[LeftLen(|input|)..], counter + LeftLen(|input|) / 1024))
  {
    hide CvOf, ChunkOutput, LeftLen;
  }

  /* ---------- The wide recursion ---------- */

  /** How many chaining values the wide recursion may write for an input of n bytes. */
  function WideRoom(p: Platform, n: nat): nat {
    if Chunks(n) < p.DegreeOr2() then Chunks(n) else p.DegreeOr2()
  }

  /** An input of exactly a power of two of at least `degree` chunks fills the width. */
  ghost predicate FullWidth(p: Platform, n: nat) {
    n == 1024 * Chunks(n) && IsPow2(Chunks(n)) && Chunks(n) >= p.DegreeOr2()
  }

  /** Where a split leaves the two sides: the left one fills the width, unless the degree is one
      and the left side is a single chunk, and then so is the right side. */
  lemma SplitShape(p: Platform, n: nat)
    requires p.Valid() && n > 1024 && n > 1024 * p.degree
    ensures var l := LeftLen(n);
            && (l > 1024 || p.degree > 1 ==> FullWidth(p, l))
            && (l == 1024 ==> p.degree == 1 && n - l <= 1024)
            && Chunks(l) + Chunks(n - l) == Chunks(n)
            && (l > 1024 && FullWidth(p, n) ==> FullWidth(p, n - l))
  {
    var l := LeftLen(n);
    var h := LeftPow(Chunks(n));
    LeftPowIsLargest(Chunks(n));
    assert l == 1024 * h && Chunks(l) == h;
    if h < p.degree {
      AlignedSmaller(0, h, p.degree);
      assert false;
    }
    if FullWidth(p, n) {
      LeftPowUnique(Chunks(n), Chunks(n) / 2);
      assert Chunks(n - l) == h;
    }
  }

  /** The program's way to the split: round (n - 1) / 1024 down to a power of two. */
  method LeftSubtreeLen(n: u64) returns (l: nat)
    requires n > 1024
    ensures l == LeftLen(n)
  {
    var fullChunks := (n - 1) / 1024;
    var r := RoundDownToPowerOf2(fullChunks);
    l := r * 1024;
    assert Chunks(n) == fullChunks + 1;
    LeftPowUnique(Chunks(n), r);
  }

  /** Hash both sides of an input of more than `degree` chunks, the chaining values of the right
      side directly behind those of the left. */
  method CompressBothSides(p: Platform, input: seq<byte>, key: Words8, counter: nat, flags: byte,
                           cvArray: array<byte>, ghost t: Trace) returns (leftN: nat, rightN: nat)
    requires p.Valid() && |input| > 1024 && |input| > 1024 * p.degree
    requires |input| < 0x1_0000_0000_0000_0000 && counter + Chunks(|input|) <= 0x40_0000_0000_0000
    requires cvArray.Length == 64 * p.MaxOr2() && !Watched(flags)
    modifies cvArray, t`parents
    ensures 1 <= rightN <= leftN && leftN + rightN <= Chunks(|input|)
    ensures leftN == 1 ==> Chunks(|input|) == 2 && p.degree == 1
    ensures leftN > 1 ==> leftN == p.DegreeOr2()
    ensures leftN > 1 && FullWidth(p, |input|) ==> rightN == leftN
    ensures leftN + rightN <= 2 * p.MaxOr2()
    ensures Represents(Mode(p.Compress(), StoreWords(key), flags), input, counter,
                       CvsAt(cvArray[..], 0, leftN + rightN))
    ensures t.parents == old(t.parents) +
            ParentsUnder(Mode(p.Compress(), StoreWords(key), flags), input, counter, leftN + rightN)
    decreases |input|, 0
  {
    hide Represents, StoreWords, CvsAt, LeftLen, SameOutside, ParentsUnder, Watched;
    ghost var m := Mode(p.Compress(), StoreWords(key), flags);
    var l := LeftSubtreeLen(|input|);
    SplitShape(p, |input|);
    var degree := p.degree;
    if l > 1024 && degree == 1 {
      degree := 2;
    }
    leftN := CompressSubtreeWide(p, input[..l], key, counter, flags, cvArray, 0, t);
    ghost var before := cvArray[..];
    rightN := CompressSubtreeWide(p, input[l..], key, counter + l / 1024, flags, cvArray, 32 * degree, t);
    CvsUnchanged(before, cvArray[..], 32 * degree, 32 * degree + 32 * rightN, 0, leftN);
    CvsSplit(cvArray[..], 0, leftN, rightN);
    RepresentsJoin(m, input, counter, CvsAt(before, 0, leftN), CvsAt(cvArray[..], 32 * degree, rightN));
    ParentsUnderJoin(m, input, counter, leftN, rightN);
  }

  /** Hash a subtree to at most `degree` chaining values, but at least two if it has more than one
      chunk, so that its top node is never compressed. */
  method CompressSubtreeWide(p: Platform, input: seq<byte>, key: Words8, counter: nat, flags: byte,
                             out: array<byte>, off: nat, ghost t: Trace) returns (n: nat)
    requires p.Valid() && 0 < |input| && !Watched(flags)
    requires |input| < 0x1_0000_0000_0000_0000 && counter + Chunks(|input|) <= 0x40_0000_0000_0000
    requires off + 32 * WideRoom(p, |input|) <= out.Length
    modifies out, t`parents
    ensures 1 <= n <= WideRoom(p, |input|) && (|input| > 1024 ==> n >= 2)
    ensures FullWidth(p, |input|) ==> n == p.DegreeOr2()
    ensures Represents(Mode(p.Compress(), StoreWords(key), flags), input, counter, CvsAt(out[..], off, n))
    ensures SameOutside(old(out[..]), out[..], off, off + 32 * n)
    ensures t.parents == old(t.parents) +
            ParentsUnder(Mode(p.Compress(), StoreWords(key), flags), input, counter, n)
    decreases |input|, 1
  {
    hide Represents, StoreWords, CvsAt, SameOutside, ChunkCvs, PairUp, Up, ParentsUnder, LevelParents,
         Watched;
    ghost var m := Mode(p.Compress(), StoreWords(key), flags);
    if |input| <= p.degree * 1024 {
      n := CompressChunksParallel(p, input, key, counter, flags, out, off, t);
      ChunkCvsRepresent(m, input, counter);
      NoParentsUnderChunks(m, input, counter);
      return;
    }
    var cvArray := new byte[2 * p.MaxOr2() * 32](_ => 0);
    var leftN, rightN := CompressBothSides(p, input, key, counter, flags, cvArray, t);
    assert out[..] == old(out[..]);
    if leftN == 1 {
      Memcpy(out, off, cvArray[..64]);
      n := 2;
      CvsCopied(out[..], off, cvArray[..], 0, 2);
    } else {
      n := CompressParentsParallel(p, cvArray, leftN + rightN, key, flags, out, off, t);
      RepresentsStep(m, input, counter, CvsAt(cvArray[..], 0, leftN + rightN));
      RepresentsPairUp(m, input, counter, CvsAt(cvArray[..], 0, leftN + rightN));
    }
  }

  /** Replace the chaining values in cvArray by their parents, through outArray. */
  method CondenseOnce(p: Platform, cvArray: array<byte>, outArray: array<byte>, num: nat, key: Words8,
                      flags: byte, ghost t: Trace) returns (n: nat)
    requires p.Valid() && cvArray != outArray
    requires cvArray.Length == 32 * p.MaxOr2() && outArray.Length == 16 * p.MaxOr2()
    requires 2 < num <= p.MaxOr2() && num < 0x1_0000_0000_0000_0000
    modifies cvArray, outArray, t`parents
    ensures n == (num + 1) / 2
    ensures t.parents == old(t.parents) +
            LevelParents(Mode(p.Compress(), StoreWords(key), flags), CvsAt(old(cvArray[..]), 0, num))
    ensures CvsAt(cvArray[..], 0, n) ==
            PairUp(Up(Mode(p.Compress(), StoreWords(key), flags)), CvsAt(old(cvArray[..]), 0, num))
  {
    hide PairUp, Up, StoreWords, SameOutside, LevelParents;
    assert p.MaxOr2() % 2 == 0;
    n := CompressParentsParallel(p, cvArray, num, key, flags, outArray, 0, t);
    Memcpy(cvArray, 0, outArray[..n * 32]);
    CvsCopied(cvArray[..], 0, outArray[..], 0, n);
  }

  /** Hash a subtree of more than one chunk to the chaining values of its two children, leaving
      its top node to be compressed later, perhaps as the root. */
  method CompressSubtreeToParentNode(p: Platform, input: seq<byte>, key: Words8, counter: nat,
                                     flags: byte, ghost t: Trace) returns (left: Cv, right: Cv)
    requires p.Valid() && !Watched(flags) && 1024 < |input| < 0x1_0000_0000_0000_0000
    requires counter + Chunks(|input|) <= 0x40_0000_0000_0000
    modifies t`parents
    ensures var m := Mode(p.Compress(), StoreWords(key), flags);
            && left == SubtreeCv(m, input[..LeftLen(|input|)], counter)
            && right == SubtreeCv(m, input[LeftLen(|input|)..], counter + LeftLen(|input|) / 1024)
            && t.parents == old(t.parents) + AllParents(m, input[..LeftLen(|input|)], counter) +
                            AllParents(m, input[LeftLen(|input|)..], counter + LeftLen(|input|) / 1024)
  {
    hide Represents, StoreWords, SubtreeCv, PairUp, Up, ParentsUnder, LevelParents, AllParents,
         Watched, LeftLen;
    ghost var m := Mode(p.Compress(), StoreWords(key), flags);
    var cvArray := new byte[p.MaxOr2() * 32](_ => 0);
    var numCvs := CompressSubtreeWide(p, input, key, counter, flags, cvArray, 0, t);
    if p.MaxOr2() > 2 {
      var outArray := new byte[p.MaxOr2() * 32 / 2](_ => 0);
      while numCvs > 2
        invariant 2 <= numCvs <= p.MaxOr2()
        invariant Represents(m, input, counter, CvsAt(cvArray[..], 0, numCvs))
        invariant t.parents == old(t.parents) + ParentsUnder(m, input, counter, numCvs)
        decreases numCvs
      {
        RepresentsPairUp(m, input, counter, CvsAt(cvArray[..], 0, numCvs));
        RepresentsStep(m, input, counter, CvsAt(cvArray[..], 0, numCvs));
        numCvs := CondenseOnce(p, cvArray, outArray, numCvs, key, flags, t);
      }
    }
    RepresentsPair(m, input, counter, CvsAt(cvArray[..], 0, 2));
    ParentsUnderTwo(m, input, counter);
    left, right := cvArray[..32], cvArray[32..64];
    assert CvsAt(cvArray[..], 0, 2)[0] == left && CvsAt(cvArray[..], 0, 2)[1] == right;
  }
}
