/** The incremental hasher of blake3.c: a chunk state, a stack of chaining values merged lazily,
    the update loop that hashes aligned subtrees whole, and the roll-up at the end. */
module Hasher {
  import opened Bits
  import opened Words
  import opened Spec
  import opened Buffers
  import opened Kernel
  import opened Chunk
  import opened Wide
  import opened Tree
  import opened Parents
  import opened RootOutput
  import opened Split

  /** Fewer than 2^54 whole chunks fit in a message, so a frontier has at most 54 entries. */
  lemma FrontierFits(c: nat)
    requires 1024 * c < 0x1_0000_0000_0000_0000
    ensures c < 0x40_0000_0000_0000 && PopCount(c) <= 54
  {
    Pow2Values();
    Pow2Add(54, 10);
    PopCountBound(c, 54);
  }

  class Hasher {
    const platform: Platform
    const key: Words8
    const chunk: ChunkState
    var cvStackLen: u8
    const cvStack: array<byte>

    /** The bytes absorbed since the last reset. */
    ghost var absorbed: seq<byte>
    /** How many chunks the top of the stack covers while no bytes follow it. */
    ghost var top: nat
    /** Every parent compressed to a chaining value since the last reset. */
    ghost const trace: Trace

    ghost function Hashing(): Mode {
      Mode(platform.Compress(), StoreWords(key), chunk.flags)
    }

    ghost function Footprint(): set<object> {
      {this, chunk, chunk.cv, chunk.buf, cvStack, trace}
    }

    /** The stack entries; what lies above them in the buffer does not matter. */
    ghost function Stack(): seq<Cv>
      requires cvStackLen <= 55 && cvStack.Length == 55 * 32
      reads this, cvStack
    {
      CvsAt(cvStack[..], 0, cvStackLen)
    }

    /** The fields that never change are in order, whatever is in the buffers. */
    ghost predicate Allocated() {
      && platform.Valid() && chunk.engine == platform.engine && !Watched(chunk.flags)
      && chunk.cv.Length == 8 && chunk.buf.Length == 64
      && cvStack.Length == 55 * 32 && chunk.buf != cvStack
    }

    /** What holds at every step of a call. */
    ghost predicate Shape()
      reads this, chunk, chunk.cv, chunk.buf
    {
      Allocated() && chunk.Valid() && chunk.key == StoreWords(key) && cvStackLen <= 55
    }

    /** The stack and the trace for the c chunks before those in the chunk state. */
    ghost predicate Valid()
      reads this, chunk, chunk.cv, chunk.buf, cvStack, trace
    {
      var c, f, g := chunk.chunkCounter, SpansOf(Hashing(), absorbed), ParentsOf(Hashing(), absorbed);
      && Shape()
      && |absorbed| < 0x1_0000_0000_0000_0000
      && 1024 * c <= |absorbed|
      && chunk.absorbed == absorbed[1024 * c..]
      && if |absorbed| > 1024 * c then Stack() == Frontier(f, c) && trace.parents == FrontierParents(g, c)
         else && Held(f, c, top, Stack()) && (c > 0 ==> 2 * top <= c && Aligned(c, 2 * top))
              && trace.parents == HeldParents(g, c, top)
    }

    lemma ValidAllocated()
      requires Valid()
      ensures Allocated()
    {
    }

    constructor (platform: Platform, key: Words8, flags: byte)
      requires platform.Valid() && !Watched(flags)
      ensures Valid() && fresh(Footprint())
      ensures this.platform == platform && this.key == key && chunk.flags == flags
      ensures absorbed == [] && trace.parents == {}
    {
      this.platform := platform;
      this.key := key;
      this.chunk := new ChunkState(platform.engine, key, flags, 0);
      this.cvStackLen := 0;
      this.cvStack := new byte[55 * 32](_ => 0);
      this.absorbed := [];
      this.top := 1;
      ghost var t := new Trace();
      this.trace := t;
      new;
      hide SpansOf, ParentsOf, Frontier, FrontierParents, StoreWords, IsPow2, Aligned, ChunkState.Holds,
           Watched;
    }

    /** Forget everything absorbed, whatever state that has left; the bytes in the stack buffer
        stay. */
    method Reset()
      requires Allocated()
      modifies this, chunk, chunk.cv, chunk.buf, cvStack, trace`parents
      ensures Valid() && absorbed == [] && trace.parents == {}
    {
      hide SpansOf, ParentsOf, Frontier, FrontierParents, StoreWords, IsPow2, Aligned, ChunkState.Holds,
           Watched;
      chunk.Reset(key, 0);
      cvStackLen := 0;
      absorbed, top := [], 1;
      trace.parents := {};
    }

    /* ---------- The stack ---------- */

    /** Replace the top two chaining values by their parent's. */
    method MergeTop()
      requires Allocated() && 2 <= cvStackLen <= 55
      modifies `cvStackLen, cvStack, trace`parents
      ensures cvStackLen == old(cvStackLen) - 1
      ensures var l, m := old(Stack()), Hashing();
              && Stack() == l[..|l| - 2] + [ParentCv(m, l[|l| - 2], l[|l| - 1])]
              && trace.parents == old(trace.parents) + {ParentOutput(m, l[|l| - 2], l[|l| - 1])}
    {
      hide CvOf, StoreWords, Watched;
      ghost var l := Stack();
      var parentNode := 32 * (cvStackLen - 2);
      var left: Cv, right: Cv := cvStack[parentNode..parentNode + 32], cvStack[parentNode + 32..parentNode + 64];
      var output := Output(StoreWords(key), left + right, 64, 0, chunk.flags | PARENT);
      SeenParent(Hashing(), left, right);
      var cv := OutputChainingValue(platform.engine, output, trace);
      PutCv(cvStack, 0, cvStackLen - 2, cv);
      cvStackLen := cvStackLen - 1;
    }

    /** Merge the top two entries, which cover equally many chunks.  Besides the parents under the
        stack, those in `extra` have been compressed. */
    method MergeOnce(c: u64, ghost s: seq<byte>, ghost q: nat, ghost extra: set<Output>)
      requires Allocated() && cvStackLen <= 55 && 1024 * c <= |s|
      requires Held(SpansOf(Hashing(), s), c, q, Stack()) && q < c && LowBit(c - q) == q
      requires trace.parents == HeldParents(ParentsOf(Hashing(), s), c, q) + extra
      modifies `cvStackLen, cvStack, trace`parents
      ensures cvStackLen + 1 == old(cvStackLen)
      ensures Held(SpansOf(Hashing(), s), c, 2 * q, Stack())
      ensures trace.parents == HeldParents(ParentsOf(Hashing(), s), c, 2 * q) + extra
      ensures old(trace.parents) <= trace.parents
    {
      hide SpansOf, ParentsOf, Frontier, HeldParents, StoreWords, ParentCv, ParentOutput, LowBit, CvsAt,
           Aligned, IsPow2, Watched;
      ghost var f, g := SpansOf(Hashing(), s), ParentsOf(Hashing(), s);
      MergeStep(f, c, q, Stack());
      SpanJoin(Hashing(), s, c - 2 * q, q);
      RunParentsJoin(Hashing(), s, c - 2 * q, q);
      MergeAdds(g, c, q, ParentOutput(Hashing(), f(c - 2 * q, c - q), f(c - q, c)));
      MergeTop();
    }

    /** Merge lazily held entries until the stack is the frontier of c chunks.  More bytes follow
        those chunks in s, so none of the parents is the root. */
    method MergeCvStack(c: u64, ghost s: seq<byte>, ghost p: nat, ghost extra: set<Output>)
      requires Allocated() && cvStackLen <= 55
      requires (c == 0 || 1024 * c < |s|) && |s| < 0x1_0000_0000_0000_0000
      requires Held(SpansOf(Hashing(), s), c, p, Stack())
      requires trace.parents == HeldParents(ParentsOf(Hashing(), s), c, p) + extra
      modifies `cvStackLen, cvStack, trace`parents
      ensures cvStackLen <= 54
      ensures Stack() == Frontier(SpansOf(Hashing(), s), c)
      ensures trace.parents == FrontierParents(ParentsOf(Hashing(), s), c) + extra
      ensures old(trace.parents) <= trace.parents
    {
      hide SpansOf, ParentsOf, Frontier, FrontierParents, HeldParents, StoreWords, LowBit, CvsAt, Aligned,
           IsPow2, Watched;
      ghost var f, g, q := SpansOf(Hashing(), s), ParentsOf(Hashing(), s), p;
      FrontierFits(c);
      var postMergeStackLen := Popcnt(c);
      if c > 0 {
        MergeTest(f, c, p, Stack());
      }
      while cvStackLen > postMergeStackLen
        invariant postMergeStackLen <= cvStackLen <= 55
        invariant Held(f, c, q, Stack())
        invariant trace.parents == HeldParents(g, c, q) + extra && old(trace.parents) <= trace.parents
        decreases cvStackLen
      {
        MergeTest(f, c, q, Stack());
        MergeOnce(c, s, q, extra);
        q := 2 * q;
      }
      FrontierLength(f, c);
      if c > 0 {
        MergeTest(f, c, q, Stack());
      } else {
        FrontierHeld(f, c);
      }
      HeldIsFrontier(g, c, q);
    }

    /** Put the chaining value of the n chunks from c on onto the stack, unmerged. */
    method PushCv(newCv: Cv, c: u64, ghost n: nat, ghost s: seq<byte>, ghost p: nat, ghost extra: set<Output>)
      requires Allocated() && cvStackLen <= 55 && |s| < 0x1_0000_0000_0000_0000
      requires Held(SpansOf(Hashing(), s), c, p, Stack())
      requires ProperRun(c, n, |s|) && newCv == SpansOf(Hashing(), s)(c, c + n)
      requires trace.parents == HeldParents(ParentsOf(Hashing(), s), c, p) + extra
      modifies `cvStackLen, cvStack, trace`parents
      ensures cvStackLen <= 55
      ensures Held(SpansOf(Hashing(), s), c + n, n, Stack())
      ensures trace.parents == FrontierParents(ParentsOf(Hashing(), s), c) + extra
      ensures old(trace.parents) <= trace.parents
    {
      hide SpansOf, ParentsOf, Frontier, FrontierParents, HeldParents, StoreWords, CvsAt, Watched;
      MergeCvStack(c, s, p, extra);
      PutCv(cvStack, 0, cvStackLen, newCv);
      cvStackLen := cvStackLen + 1;
      AlignedSmaller(0, n, n);
      AlignedSum(n, c, n);
    }

    /** Between two subtrees of an update: the chunk state is empty, and `rest` is what the whole
        message `all` has beyond the chunks counted so far. */
    ghost predicate Between(all: seq<byte>, rest: seq<byte>, p: nat)
      reads this, chunk, chunk.cv, chunk.buf, cvStack, trace
    {
      && Shape() && chunk.absorbed == []
      && |all| < 0x1_0000_0000_0000_0000
      && 1024 * chunk.chunkCounter <= |all| && rest == all[1024 * chunk.chunkCounter..]
      && Held(SpansOf(Hashing(), all), chunk.chunkCounter, p, Stack())
      && trace.parents == HeldParents(ParentsOf(Hashing(), all), chunk.chunkCounter, p)
    }

    /** Hash the next chunk by itself; more bytes follow it. */
    method PushChunk(rest: seq<byte>, ghost all: seq<byte>, ghost p: nat)
      requires Between(all, rest, p) && |rest| > 1024
      modifies `cvStackLen, cvStack, chunk`chunkCounter, trace`parents
      ensures Between(all, rest[1024..], 1)
      ensures old(trace.parents) <= trace.parents
      ensures chunk.chunkCounter == old(chunk.chunkCounter) + 1
    {
      hide Frontier, FrontierParents, HeldParents, ParentsOf, StoreWords, CvsAt, HasNode, SubtreeOutput,
           ChunkOutput, CvOf, Held, ChunkState.Holds, Watched;
      var c := chunk.chunkCounter;
      var cv := HashChunk(platform.engine, rest[..1024], key, c, chunk.flags, trace);
      SpanIs(Hashing(), all, c, c + 1);
      OneChunk(Hashing(), all, c);
      PushCv(cv, c, 1, all, p, {});
      chunk.Advance(1);
      HeldAfter(ParentsOf(Hashing(), all), c, 1);
      assert rest[1024..] == all[1024 * (c + 1)..];
    }

    /** Hash the next k chunks as one subtree, and put its two halves onto the stack. */
    method PushPair(rest: seq<byte>, k: nat, ghost all: seq<byte>, ghost p: nat)
      requires Between(all, rest, p)
      requires IsPow2(k) && k >= 2 && 1024 * k <= |rest| && Aligned(chunk.chunkCounter, k)
      modifies `cvStackLen, cvStack, chunk`chunkCounter, trace`parents
      ensures Between(all, rest[1024 * k..], k / 2)
      ensures old(trace.parents) <= trace.parents
      ensures chunk.chunkCounter == old(chunk.chunkCounter) + k
    {
      hide Frontier, FrontierParents, HeldParents, AllParents, ParentsOf, StoreWords, CvsAt, SpansOf,
           SubtreeCv, Held, ChunkState.Holds, ProperRun, Watched;
      var c := chunk.chunkCounter;
      ghost var h, g := k / 2, ParentsOf(Hashing(), all);
      PairSpans(Hashing(), all, c, k);
      var left, right := CompressSubtreeToParentNode(platform, rest[..1024 * k], key, c, chunk.flags, trace);
      PushCv(left, c, h, all, p, g(c, c + h) + g(c + h, c + k));
      HeldAfter(g, c, h);
      PushCv(right, c + k / 2, h, all, h, g(c + h, c + k));
      HeldAfter(g, c + h, h);
      chunk.Advance(k);
      assert rest[1024 * k..] == all[1024 * (c + k)..];
    }

    /** Hash one subtree: the largest the input has room for that the chunks so far allow. */
    method PushSubtree(rest: seq<byte>, ghost all: seq<byte>, ghost p: nat)
      returns (rest': seq<byte>, ghost p': nat)
      requires Between(all, rest, p) && |rest| > 1024
      modifies `cvStackLen, cvStack, chunk`chunkCounter, trace`parents
      ensures Between(all, rest', p') && |rest'| < |rest|
      ensures old(trace.parents) <= trace.parents
      ensures |rest'| > 0 || (2 * p' <= chunk.chunkCounter && Aligned(chunk.chunkCounter, 2 * p'))
    {
      hide Between, Held, SpansOf, ParentsOf, HeldParents, StoreWords, CvsAt, Aligned, IsPow2;
      BetweenFits(all, rest, p);
      var subtreeLen := SubtreeLen(|rest|, chunk.chunkCounter);
      var subtreeChunks := subtreeLen / 1024;
      if subtreeLen <= 1024 {
        PushChunk(rest, all, p);
        rest', p' := rest[1024..], 1;
      } else {
        AlignedSmaller(0, subtreeChunks, subtreeChunks);
        AlignedSum(subtreeChunks, chunk.chunkCounter, subtreeChunks);
        PushPair(rest, subtreeChunks, all, p);
        rest', p' := rest[subtreeLen..], subtreeChunks / 2;
      }
    }

    lemma BetweenFits(all: seq<byte>, rest: seq<byte>, p: nat)
      requires Between(all, rest, p)
      ensures 1024 * chunk.chunkCounter + |rest| == |all| < 0x1_0000_0000_0000_0000
    {
    }

    /** With bytes in the chunk state, the stack has one entry for each 1-bit of the chunk count,
        the chaining value of the aligned subtree that bit stands for. */
    lemma StackBehindChunk()
      requires Valid() && |chunk.absorbed| > 0
      ensures |Stack()| == PopCount(chunk.chunkCounter)
      ensures var c, m := chunk.chunkCounter, Hashing();
              forall i: nat | i < |Stack()| :: Stack()[i] ==
                SubtreeCv(m, Range(absorbed, HighBits(c, i), HighBits(c, i + 1)), HighBits(c, i))
    {
      hide Frontier, SpansOf, ParentsOf, StoreWords, CvsAt, ChunkState.Holds, HighBits, SubtreeCv, Range, Held;
      var c := chunk.chunkCounter;
      FrontierLength(SpansOf(Hashing(), absorbed), c);
      forall i: nat | i < |Stack()|
        ensures Stack()[i] ==
                SubtreeCv(Hashing(), Range(absorbed, HighBits(c, i), HighBits(c, i + 1)), HighBits(c, i))
      {
        FrontierAt(SpansOf(Hashing(), absorbed), c, i);
        SpanIs(Hashing(), absorbed, HighBits(c, i), HighBits(c, i + 1));
      }
    }

    /** With an empty chunk state after some bytes, it has the frontier before the last subtree,
        and that subtree's two equal halves. */
    lemma StackBehindNothing()
      requires Valid() && chunk.absorbed == [] && absorbed != []
      ensures var c, f := chunk.chunkCounter, SpansOf(Hashing(), absorbed);
              && IsPow2(top) && 2 * top <= c && Aligned(c, 2 * top)
              && Stack() == Frontier(f, c - 2 * top) + [f(c - 2 * top, c - top), f(c - top, c)]
              && |Stack()| == PopCount(c - 2 * top) + 2
    {
      hide Frontier, SpansOf, ParentsOf, StoreWords, CvsAt, ChunkState.Holds;
      PairOnTop(SpansOf(Hashing(), absorbed), chunk.chunkCounter, top, Stack());
    }

    /** No parent whose chaining value has been computed is the root, or was marked as the root:
        each is a node of the specification's tree that stays below the root however the message
        continues. */
    lemma OnlyBelowRoot()
      requires Valid()
      ensures forall o | o in trace.parents :: BelowRoot(Hashing(), absorbed, o) && o.flags & ROOT == 0
    {
      hide Frontier, FrontierParents, SpansOf, ParentsOf, StoreWords, CvsAt, ChunkState.Holds, BelowRoot,
           Aligned, IsPow2;
      var c := chunk.chunkCounter;
      ModeUnmarked(chunk.flags);
      hide Watched;
      forall o | o in trace.parents
        ensures BelowRoot(Hashing(), absorbed, o) && o.flags & ROOT == 0
      {
        if |absorbed| > 1024 * c {
          FrontierParentBelowRoot(Hashing(), absorbed, c, o);
        } else {
          AlignedSmaller(c, top, 2 * top);
          HeldParentBelowRoot(Hashing(), absorbed, c, top, o);
        }
        BelowRootUnmarked(Hashing(), absorbed, o);
      }
    }

    /* ---------- Update ---------- */

    /** What the stack and the trace hold for the bytes so far they also hold for a longer
        message. */
    lemma Extended(all: seq<byte>, p: nat)
      requires Valid() && absorbed <= all
      ensures var f, g, c := SpansOf(Hashing(), absorbed), SpansOf(Hashing(), all), chunk.chunkCounter;
              && Frontier(f, c) == Frontier(g, c)
              && (Held(f, c, p, Stack()) ==> Held(g, c, p, Stack()))
      ensures var f, g, c := ParentsOf(Hashing(), absorbed), ParentsOf(Hashing(), all), chunk.chunkCounter;
              FrontierParents(f, c) == FrontierParents(g, c) && HeldParents(f, c, p) == HeldParents(g, c, p)
    {
      hide Frontier, FrontierParents, SpansOf, ParentsOf, StoreWords, CvsAt, Aligned, ChunkState.Holds;
      var c, m := chunk.chunkCounter, Hashing();
      assert all == absorbed + all[|absorbed|..];
      SpansStable(m, absorbed, all[|absorbed|..], c);
      ParentsStable(m, absorbed, all[|absorbed|..], c);
      FrontierAgrees(SpansOf(m, absorbed), SpansOf(m, all), c);
      FrontierParentsAgree(ParentsOf(m, absorbed), ParentsOf(m, all), c);
      if 0 < c && p <= c {
        FrontierAgrees(SpansOf(m, absorbed), SpansOf(m, all), c - p);
        FrontierParentsAgree(ParentsOf(m, absorbed), ParentsOf(m, all), c - p);
        assert SpansOf(m, absorbed)(c - p, c) == SpansOf(m, all)(c - p, c);
        assert ParentsOf(m, absorbed)(c - p, c) == ParentsOf(m, all)(c - p, c);
      }
    }

    /** Complete the chunk in the chunk state, push it, and start the next one. */
    method PushFullChunk(ghost all: seq<byte>, ghost rest: seq<byte>)
      requires Shape() && |chunk.absorbed| == 1024 && |rest| > 0
      requires |all| < 0x1_0000_0000_0000_0000 && 1024 * chunk.chunkCounter <= |all|
      requires all[1024 * chunk.chunkCounter..] == chunk.absorbed + rest
      requires Stack() == Frontier(SpansOf(Hashing(), all), chunk.chunkCounter)
      requires trace.parents == FrontierParents(ParentsOf(Hashing(), all), chunk.chunkCounter)
      modifies `cvStackLen, cvStack, chunk, chunk.cv, chunk.buf, trace`parents
      ensures Between(all, rest, 1)
      ensures old(trace.parents) <= trace.parents
    {
      hide Frontier, FrontierParents, HeldParents, ParentsOf, StoreWords, CvsAt, CvOf, ChunkOutput, LowBit,
           ChunkState.Holds, Watched;
      var c := chunk.chunkCounter;
      var output := chunk.Finish();
      var chunkCv := OutputChainingValue(platform.engine, output, trace);
      OneChunk(Hashing(), all, c);
      assert chunk.absorbed == all[1024 * c..][..1024];
      FrontierHeld(SpansOf(Hashing(), all), c);
      HeldIsFrontier(ParentsOf(Hashing(), all), c, if c > 0 then LowBit(c) else 1);
      PushCv(chunkCv, c, 1, all, if c > 0 then LowBit(c) else 1, {});
      HeldAfter(ParentsOf(Hashing(), all), c, 1);
      chunk.Reset(key, c + 1);
    }

    /** The first part of an update, with bytes in the chunk state: fill the chunk, and if there
        is more input, push it. */
    method FinishChunk(input: seq<byte>) returns (rest: seq<byte>)
      requires Valid() && |chunk.absorbed| > 0
      requires |input| > 0 && |absorbed| + |input| < 0x1_0000_0000_0000_0000
      modifies this, chunk, chunk.cv, chunk.buf, cvStack, trace`parents
      ensures if |rest| == 0 then Valid() && absorbed == old(absorbed) + input
              else absorbed == old(absorbed) && Between(absorbed + input, rest, 1)
      ensures old(trace.parents) <= trace.parents
    {
      hide Frontier, FrontierParents, HeldParents, SpansOf, ParentsOf, StoreWords, CvsAt, ChunkState.Holds,
           Held, Watched;
      ghost var all := absorbed + input;
      var take := 1024 - chunk.Len();
      if take > |input| {
        take := |input|;
      }
      Extended(all, top);
      assert all[1024 * chunk.chunkCounter..] == chunk.absorbed + input;
      chunk.Update(input[..take], trace);
      rest := input[take..];
      assert chunk.absorbed + rest == all[1024 * chunk.chunkCounter..];
      if |rest| > 0 {
        PushFullChunk(all, rest);
      } else {
        absorbed := all;
      }
    }

    /** The last part of an update: what is left goes into the chunk state, and the stack is
        merged completely. */
    method AbsorbRest(rest: seq<byte>, ghost all: seq<byte>, ghost p: nat)
      requires Between(all, rest, p) && 0 < |rest| <= 1024
      modifies this, chunk, chunk.cv, chunk.buf, cvStack, trace`parents
      ensures Valid() && absorbed == all
      ensures old(trace.parents) <= trace.parents
    {
      hide Frontier, FrontierParents, HeldParents, SpansOf, ParentsOf, StoreWords, CvsAt, ChunkState.Holds,
           Held, Aligned, Watched, BelowRoot;
      chunk.Update(rest, trace);
      MergeCvStack(chunk.chunkCounter, all, p, {});
      absorbed := all;
    }

    /** Absorb more bytes, without compressing the root of what has been absorbed or of anything it
        may grow into. */
    method Update(input: seq<byte>)
      requires Valid() && |absorbed| + |input| < 0x1_0000_0000_0000_0000
      modifies this, chunk, chunk.cv, chunk.buf, cvStack, trace`parents
      ensures Valid() && absorbed == old(absorbed) + input
      ensures old(trace.parents) <= trace.parents
      ensures forall o | o in trace.parents :: BelowRoot(Hashing(), absorbed, o) && o.flags & ROOT == 0
    {
      hide Frontier, FrontierParents, HeldParents, SpansOf, ParentsOf, StoreWords, CvsAt, ChunkState.Holds,
           Held, Aligned, Watched, BelowRoot;
      ghost var all := absorbed + input;
      if |input| == 0 {
        assert all == absorbed;
        OnlyBelowRoot();
        return;
      }
      var rest := input;
      ghost var p: nat := top;
      Extended(all, top);
      assert input == all[|absorbed|..];
      if chunk.Len() > 0 {
        rest := FinishChunk(input);
        if |rest| == 0 {
          OnlyBelowRoot();
          return;
        }
        p := 1;
      }
      while |rest| > 1024
        invariant Between(all, rest, p) && old(trace.parents) <= trace.parents
        invariant |rest| > 0 || (2 * p <= chunk.chunkCounter && Aligned(chunk.chunkCounter, 2 * p))
        decreases |rest|
      {
        rest, p := PushSubtree(rest, all, p);
      }
      if |rest| > 0 {
        AbsorbRest(rest, all, p);
      } else {
        absorbed, top := all, p;
      }
      OnlyBelowRoot();
    }

    /* ---------- Finalize ---------- */

    /** The first chunk behind the stack entries that a roll-up folds in. */
    ghost function SpineStart(): nat
      reads this, chunk
    {
      if |absorbed| > 1024 * chunk.chunkCounter || chunk.chunkCounter < 2 * top then chunk.chunkCounter
      else chunk.chunkCounter - 2 * top
    }

    /** Where the roll-up starts: how many stack entries it has yet to fold in, and from which
        node. */
    method RollUpStart() returns (cvsRemaining: nat, output: Output)
      requires Valid() && cvStackLen > 0
      ensures cvsRemaining <= cvStackLen && output.counter < 0x1_0000_0000_0000_0000
      ensures RollUp(Hashing(), Stack()[..cvsRemaining], output) == SubtreeOutput(Hashing(), absorbed, 0)
      ensures RollUpSeen(Hashing(), Stack()[..cvsRemaining], output) ==
              SpineSeen(Hashing(), absorbed, SpineStart())
      ensures FewerBehind(|absorbed|, SpineStart())
    {
      hide Frontier, FrontierParents, HeldParents, SpansOf, ParentsOf, StoreWords, CvsAt, ChunkState.Holds,
           RollUp, RollUpSeen, SpineSeen, FewerBehind, SubtreeOutput, ChunkOutput, Aligned, Held;
      ghost var c := chunk.chunkCounter;
      if chunk.Len() > 0 {
        cvsRemaining := cvStackLen;
        output := chunk.Finish();
        assert Stack()[..cvsRemaining] == Stack();
        RollUpFromChunk(Hashing(), absorbed, c);
        SpineFromChunk(Hashing(), absorbed, c);
      } else {
        HeldEmpty(SpansOf(Hashing(), absorbed), c, top, Stack());
        RollUpFromPair(Hashing(), absorbed, c, top, Stack());
        SpineFromPair(Hashing(), absorbed, c, top, Stack());
        cvsRemaining := cvStackLen - 2;
        var block := cvStack[cvsRemaining * 32..cvsRemaining * 32 + 64];
        StackTop(cvsRemaining);
        output := Output(StoreWords(key), block, 64, 0, chunk.flags | PARENT);
      }
    }

    /** Two neighbouring stack entries are one parent block. */
    lemma StackTop(n: nat)
      requires cvStackLen <= 55 && cvStack.Length == 55 * 32 && n + 2 <= cvStackLen
      ensures var l: Cv, r: Cv := Stack()[n], Stack()[n + 1];
              cvStack[n * 32..n * 32 + 64] == l + r
    {
    }

    /** Fold the whole stack into the node to its right, which gives the root, not yet compressed. */
    method RollUpStack(ghost t: Trace) returns (output: Output)
      requires Valid() && t != trace
      modifies t`parents
      ensures output == SubtreeOutput(Hashing(), absorbed, 0)
      ensures t.parents == old(t.parents) + SpineSeen(Hashing(), absorbed, SpineStart())
    {
      hide Frontier, FrontierParents, HeldParents, SpansOf, ParentsOf, StoreWords, CvsAt, ChunkState.Holds,
           RollUp, RollUpSeen, SpineSeen, FewerBehind, SubtreeOutput, ChunkOutput, Aligned, CvOf, Watched;
      if cvStackLen == 0 {
        output := chunk.Finish();
        EmptyStack();
        return;
      }
      var cvsRemaining: nat;
      cvsRemaining, output := RollUpStart();
      ghost var l := Stack();
      assert |l| == cvStackLen;
      while cvsRemaining > 0
        invariant 0 <= cvsRemaining <= |l| && output.counter < 0x1_0000_0000_0000_0000
        invariant RollUp(Hashing(), l[..cvsRemaining], output) == SubtreeOutput(Hashing(), absorbed, 0)
        invariant t.parents + RollUpSeen(Hashing(), l[..cvsRemaining], output) ==
                  old(t.parents) + SpineSeen(Hashing(), absorbed, SpineStart())
      {
        RollUpTop(Hashing(), l[..cvsRemaining], output);
        RollUpSeenTop(Hashing(), l[..cvsRemaining], output);
        cvsRemaining := cvsRemaining - 1;
        assert l[..cvsRemaining + 1][..cvsRemaining] == l[..cvsRemaining];
        StackAt(cvsRemaining);
        var left: Cv := cvStack[cvsRemaining * 32..cvsRemaining * 32 + 32];
        var right := OutputChainingValue(platform.engine, output, t);
        output := Output(StoreWords(key), left + right, 64, 0, chunk.flags | PARENT);
      }
      RollUpNone(Hashing(), output);
      RollUpSeenNone(Hashing(), output);
      assert l[..0] == [];
    }

    /** Bytes seek to seek + out.Length of the hash of everything absorbed.  The state is only
        read.  All nodes compressed to output are the root with its flag, one for each block; none
        of those compressed to chaining values on the way is the root. */
    method FinalizeSeek(seek: u64, out: array<byte>, ghost t: Trace)
      requires Valid() && out != cvStack && out != chunk.buf && out.Length < 0x1_0000_0000_0000_0000
      requires t != trace
      modifies out, t
      ensures out[..] == Hash(Hashing(), absorbed, seek, out.Length)
      ensures t.outputs == old(t.outputs) +
              RootNodes(SubtreeOutput(Hashing(), absorbed, 0), seek / 64, BlocksTouched(seek, out.Length))
      ensures t.parents == old(t.parents) +
              if out.Length == 0 then {} else SpineSeen(Hashing(), absorbed, SpineStart())
    {
      hide Frontier, FrontierParents, HeldParents, SpansOf, ParentsOf, StoreWords, CvsAt, ChunkState.Holds,
           SpineSeen, RootNodes, SubtreeOutput, Aligned, Held, Watched, RootBytes;
      if out.Length == 0 {
        assert |Hash(Hashing(), absorbed, seek, 0)| == 0;
        assert out[..] == [];
        RootNodesNone(SubtreeOutput(Hashing(), absorbed, 0), seek / 64);
        return;
      }
      var output := RollUpStack(t);
      OutputRootBytes(platform.engine, output, seek, out, t);
    }

    /** The two kinds of compression never meet: a node compressed to output has the root's flag,
        and no node compressed to a chaining value has it, neither in the updates so far nor in a
        finalize, where it is moreover a proper part of the tree. */
    lemma RootSeparation(seek: nat, n: nat)
      requires Valid()
      ensures forall o | o in RootNodes(SubtreeOutput(Hashing(), absorbed, 0), seek / 64, BlocksTouched(seek, n)) ::
                o.flags & ROOT != 0
      ensures forall o | o in trace.parents :: o.flags & ROOT == 0
      ensures forall o | o in SpineSeen(Hashing(), absorbed, SpineStart()) ::
                o.flags & ROOT == 0 && exists a: nat :: OnSpine(Hashing(), absorbed, o, a)
    {
      hide Frontier, FrontierParents, HeldParents, SpansOf, ParentsOf, StoreWords, CvsAt, ChunkState.Holds,
           SpineSeen, RootNodes, FewerBehind, OnSpine, SubtreeOutput, Held, Aligned, BelowRoot, BlocksTouched;
      OnlyBelowRoot();
      ModeUnmarked(chunk.flags);
      hide Watched;
      forall o | o in RootNodes(SubtreeOutput(Hashing(), absorbed, 0), seek / 64, BlocksTouched(seek, n))
        ensures o.flags & ROOT != 0
      {
        RootNodesMarked(SubtreeOutput(Hashing(), absorbed, 0), seek / 64, BlocksTouched(seek, n), o);
      }
      SpineFits();
      forall o | o in SpineSeen(Hashing(), absorbed, SpineStart())
        ensures o.flags & ROOT == 0 && exists a: nat :: OnSpine(Hashing(), absorbed, o, a)
      {
        SpineBelowRoot(Hashing(), absorbed, SpineStart(), o);
        var a: nat :| OnSpine(Hashing(), absorbed, o, a);
        SpineUnmarked(Hashing(), absorbed, o, a);
      }
    }

    lemma SpineFits()
      requires Valid()
      ensures FewerBehind(|absorbed|, SpineStart())
    {
      hide Frontier, FrontierParents, HeldParents, SpansOf, ParentsOf, StoreWords, CvsAt, ChunkState.Holds,
           Aligned, IsPow2, LowBit;
      var c := chunk.chunkCounter;
      if c > 0 {
        if |absorbed| > 1024 * c {
          LowBitRemoved(c);
        } else {
          Pow2Positive(top);
          PairBelow(c - 2 * top, top, c);
        }
      }
    }

    lemma StackAt(n: nat)
      requires cvStackLen <= 55 && cvStack.Length == 55 * 32 && n < cvStackLen
      ensures Stack()[n] == cvStack[n * 32..n * 32 + 32]
    {
    }

    /** With nothing on the stack the chunk state holds the whole message. */
    lemma EmptyStack()
      requires Valid() && cvStackLen == 0
      ensures ChunkOutput(Hashing(), chunk.absorbed, chunk.chunkCounter) == SubtreeOutput(Hashing(), absorbed, 0)
      ensures SpineStart() == 0 && SpineSeen(Hashing(), absorbed, 0) == {}
    {
      hide SpansOf, StoreWords, ChunkState.Holds, ChunkOutput;
      FrontierLength(SpansOf(Hashing(), absorbed), chunk.chunkCounter);
      assert chunk.chunkCounter == 0;
      assert absorbed[0..] == absorbed;
    }
  }

  lemma ModeUnmarked(flags: byte)
    requires !Watched(flags)
    ensures flags & ROOT == 0
  {
  }

  lemma BelowRootUnmarked(m: Mode, s: seq<byte>, o: Output)
    requires BelowRoot(m, s, o) && m.flags & ROOT == 0
    ensures o.flags & ROOT == 0
  {
    hide SubtreeOutput, HasNode;
    var a: nat, b: nat :| NodeBelowRoot(m, s, o, a, b);
    NodesUnmarked(m, s[a..b], a / 1024);
  }

  lemma SpineUnmarked(m: Mode, s: seq<byte>, o: Output, b: nat)
    requires OnSpine(m, s, o, b) && m.flags & ROOT == 0
    ensures o.flags & ROOT == 0
  {
    hide SubtreeOutput, HasNode;
    NodesUnmarked(m, s[1024 * b..], b);
  }

  /** With an unmerged run on top of a frontier, the parents are those of both. */
  lemma HeldAfter(g: RunParents, c: nat, n: nat)
    requires n > 0
    ensures HeldParents(g, c + n, n) == FrontierParents(g, c) + g(c, c + n)
  {
    assert c + n - n == c;
  }

  /** A run of one chunk, which has no parents. */
  lemma OneChunk(m: Mode, s: seq<byte>, c: nat)
    requires 1024 * (c + 1) <= |s|
    ensures SpansOf(m, s)(c, c + 1) == ChunkCv(m, s[1024 * c..][..1024], c)
    ensures ParentsOf(m, s)(c, c + 1) == {}
    ensures 1024 * (c + 1) < |s| ==> ProperRun(c, 1, |s|)
  {
    hide ChunkOutput;
    assert Range(s, c, c + 1) == s[1024 * c..][..1024];
  }

  lemma HalvesProper(c: nat, k: nat, n: nat)
    requires IsPow2(k) && k >= 2 && Aligned(c, k) && 1024 * (c + k) <= n
    ensures 1024 * k > 1024 && LeftLen(1024 * k) == 1024 * (k / 2)
    ensures ProperRun(c, k / 2, n) && ProperRun(c + k / 2, k / 2, n)
  {
    var h := k / 2;
    LeftLenUnique(1024 * k, h);
    AlignedSmaller(c, h, k);
    AlignedSmaller(0, h, h);
    AlignedSum(h, c, h);
  }

  lemma RangeOfSlice(s: seq<byte>, c: nat, h: nat)
    requires 1024 * (c + 2 * h) <= |s|
    ensures var input := s[1024 * c..][..2048 * h];
            Range(s, c, c + h) == input[..1024 * h] && Range(s, c + h, c + 2 * h) == input[1024 * h..]
  {
  }

  /** The halves of an aligned run of k chunks. */
  lemma PairSpans(m: Mode, s: seq<byte>, c: nat, k: nat)
    requires IsPow2(k) && k >= 2 && Aligned(c, k) && 1024 * (c + k) <= |s|
    ensures 1024 * k > 1024 && LeftLen(1024 * k) == 1024 * (k / 2)
    ensures var input := s[1024 * c..][..1024 * k];
            && |input| == 1024 * k
            && SpansOf(m, s)(c, c + k / 2) == SubtreeCv(m, input[..LeftLen(|input|)], c)
            && SpansOf(m, s)(c + k / 2, c + k) ==
               SubtreeCv(m, input[LeftLen(|input|)..], c + LeftLen(|input|) / 1024)
            && ParentsOf(m, s)(c, c + k / 2) == AllParents(m, input[..LeftLen(|input|)], c)
            && ParentsOf(m, s)(c + k / 2, c + k) ==
               AllParents(m, input[LeftLen(|input|)..], c + LeftLen(|input|) / 1024)
    ensures ProperRun(c, k / 2, |s|) && ProperRun(c + k / 2, k / 2, |s|)
  {
    hide SubtreeCv, AllParents, LeftLen, ProperRun, Range, SpansOf, ParentsOf, Aligned;
    var h := k / 2;
    HalvesProper(c, k, |s|);
    RangeOfSlice(s, c, h);
    SpanIs(m, s, c, c + h);
    SpanIs(m, s, c + h, c + k);
    ParentsOfIs(m, s, c, c + h);
    ParentsOfIs(m, s, c + h, c + k);
  }
}
