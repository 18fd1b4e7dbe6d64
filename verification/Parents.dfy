/** Which parents the program compresses to chaining values: exact sets for a level, for a list of
    chaining values, and for the stack; and that every one of them is a node below the root. */
module Parents {
  import opened Bits
  import opened Words
  import opened Spec
  import opened Buffers
  import opened Kernel
  import opened Pairing
  import opened Tree

  /** Every parent of the subtree over an input, its top node included. */
  ghost function AllParents(m: Mode, input: seq<byte>, counter: nat): set<Output>
    decreases |input|
  {
    if |input| <= 1024 then {}
    else
      var n := LeftLen(|input|);
      {SubtreeOutput(m, input, counter)} +
      AllParents(m, input[..n], counter) + AllParents(m, input[n..], counter + n / 1024)
  }

  /** The parents of the subtree that lie at or under the nodes a list of k chaining values stands
      for, when the list is split as the tree is. */
  ghost function ParentsUnder(m: Mode, input: seq<byte>, counter: nat, k: nat): set<Output>
    decreases |input|
  {
    if k <= 1 || |input| <= 1024 then AllParents(m, input, counter)
    else
      LeftPowIsLargest(k);
      var n, h := LeftLen(|input|), LeftPow(k);
      ParentsUnder(m, input[..n], counter, h) + ParentsUnder(m, input[n..], counter + n / 1024, k - h)
  }

  /** The parents of neighbouring pairs. */
  ghost function LevelParents(m: Mode, l: seq<Cv>): set<Output> {
    if |l| < 2 then {} else {ParentOutput(m, l[0], l[1])} + LevelParents(m, l[2..])
  }

  lemma {:induction false} LevelSplit(m: Mode, a: seq<Cv>, b: seq<Cv>)
    requires |a| % 2 == 0
    ensures LevelParents(m, a + b) == LevelParents(m, a) + LevelParents(m, b)
  {
    hide ParentOutput;
    if a == [] {
      assert a + b == b;
    } else {
      assert (a + b)[2..] == a[2..] + b;
      LevelSplit(m, a[2..], b);
    }
  }

  /** Two lists side by side: the parents under each. */
  lemma ParentsUnderJoin(m: Mode, input: seq<byte>, counter: nat, i: nat, j: nat)
    requires |input| > 1024 && IsPow2(i) && 1 <= j <= i
    ensures ParentsUnder(m, input, counter, i + j) ==
            ParentsUnder(m, input[..LeftLen(|input|)], counter, i) +
            ParentsUnder(m, input[LeftLen(|input|)..], counter + LeftLen(|input|) / 1024, j)
  {
    hide AllParents, LeftLen;
    LeftPowUnique(i + j, i);
  }

  lemma ParentsUnderOne(m: Mode, input: seq<byte>, counter: nat)
    ensures ParentsUnder(m, input, counter, 1) == AllParents(m, input, counter)
  {
    hide AllParents;
  }

  /** Under the two children: all parents but the top node. */
  lemma ParentsUnderTwo(m: Mode, input: seq<byte>, counter: nat)
    requires |input| > 1024
    ensures ParentsUnder(m, input, counter, 2) ==
            AllParents(m, input[..LeftLen(|input|)], counter) +
            AllParents(m, input[LeftLen(|input|)..], counter + LeftLen(|input|) / 1024)
    ensures AllParents(m, input, counter) ==
            {SubtreeOutput(m, input, counter)} + ParentsUnder(m, input, counter, 2)
  {
    ParentsUnderJoin(m, input, counter, 1, 1);
    hide ParentsUnder, SubtreeOutput, LeftLen;
    ParentsUnderOne(m, input[..LeftLen(|input|)], counter);
    ParentsUnderOne(m, input[LeftLen(|input|)..], counter + LeftLen(|input|) / 1024);
  }

  /** Under the chunks themselves there are none. */
  lemma {:induction false} NoParentsUnderChunks(m: Mode, input: seq<byte>, counter: nat)
    requires |input| >= 1
    ensures ParentsUnder(m, input, counter, Chunks(|input|)) == {}
    decreases |input|
  {
    if |input| > 1024 {
      var n, h := LeftLen(|input|), LeftPow(Chunks(|input|));
      LeftPowIsLargest(Chunks(|input|));
      assert n == 1024 * h;
      assert Chunks(|input[..n]|) == h && Chunks(|input[n..]|) == Chunks(|input|) - h;
      hide LeftLen, AllParents;
      NoParentsUnderChunks(m, input[..n], counter);
      NoParentsUnderChunks(m, input[n..], counter + n / 1024);
    }
  }

  /* ---------- The stack ---------- */

  /** The parents of runs of whole chunks, as a function of a run's ends. */
  type RunParents = (nat, nat) -> set<Output>

  ghost function ParentsOf(m: Mode, s: seq<byte>): RunParents {
    (a: nat, b: nat) => AllParents(m, Range(s, a, b), a)
  }

  /** The parents of all runs on the frontier of c chunks. */
  ghost function FrontierParents(g: RunParents, c: nat): set<Output>
    decreases c
  {
    if c == 0 then {} else FrontierParents(g, c - LowBit(c)) + g(c - LowBit(c), c)
  }

  /** The parents of all runs on a held stack. */
  ghost function HeldParents(g: RunParents, c: nat, p: nat): set<Output> {
    if c == 0 || p > c then {} else FrontierParents(g, c - p) + g(c - p, c)
  }

  lemma {:induction false} FrontierParentsAgree(g: RunParents, h: RunParents, c: nat)
    requires forall a: nat, b: nat | a <= b <= c :: g(a, b) == h(a, b)
    ensures FrontierParents(g, c) == FrontierParents(h, c)
    decreases c
  {
    if c > 0 {
      FrontierParentsAgree(g, h, c - LowBit(c));
    }
  }

  /** Bytes after the first c chunks do not change the parents of those chunks. */
  lemma ParentsStable(m: Mode, s: seq<byte>, t: seq<byte>, c: nat)
    requires 1024 * c <= |s|
    ensures forall a: nat, b: nat | a <= b <= c :: ParentsOf(m, s + t)(a, b) == ParentsOf(m, s)(a, b)
  {
    hide AllParents;
    forall a: nat, b: nat | a <= b <= c
      ensures ParentsOf(m, s + t)(a, b) == ParentsOf(m, s)(a, b)
    {
      assert Range(s + t, a, b) == Range(s, a, b);
    }
  }

  /** A merged stack is held with its lowest 1-bit on top. */
  lemma HeldIsFrontier(g: RunParents, c: nat, p: nat)
    requires c > 0 ==> p == LowBit(c)
    ensures HeldParents(g, c, p) == FrontierParents(g, c)
  {
  }

  /** Merging adds exactly the parent over the two top runs. */
  lemma MergeAdds(g: RunParents, c: nat, p: nat, o: Output)
    requires p > 0 && p < c && LowBit(c - p) == p
    ensures 2 * p <= c
    ensures g(c - 2 * p, c) == {o} + g(c - 2 * p, c - p) + g(c - p, c)
            ==> HeldParents(g, c, 2 * p) == HeldParents(g, c, p) + {o}
  {
    assert FrontierParents(g, c - p) == FrontierParents(g, c - 2 * p) + g(c - 2 * p, c - p);
  }

  lemma ParentsOfIs(m: Mode, s: seq<byte>, a: nat, b: nat)
    ensures ParentsOf(m, s)(a, b) == AllParents(m, Range(s, a, b), a)
  {
    hide AllParents;
  }

  lemma AllParentsJoin(m: Mode, left: seq<byte>, right: seq<byte>, counter: nat, p: nat)
    requires IsPow2(p) && |left| == 1024 * p && 1 <= |right| <= |left|
    ensures AllParents(m, left + right, counter) ==
            {ParentOutput(m, SubtreeCv(m, left, counter), SubtreeCv(m, right, counter + p))} +
            AllParents(m, left, counter) + AllParents(m, right, counter + p)
  {
    var s := left + right;
    LeftLenUnique(|s|, p);
    assert s[..|left|] == left && s[|left|..] == right;
    Join(m, left, right, counter, p);
    hide SubtreeOutput, SubtreeCv, LeftLen, ParentOutput;
  }

  /** The parents over two equal neighbouring runs. */
  lemma RunParentsJoin(m: Mode, s: seq<byte>, a: nat, p: nat)
    requires IsPow2(p) && 1024 * (a + 2 * p) <= |s|
    ensures ParentsOf(m, s)(a, a + 2 * p) ==
            {ParentOutput(m, SpansOf(m, s)(a, a + p), SpansOf(m, s)(a + p, a + 2 * p))} +
            ParentsOf(m, s)(a, a + p) + ParentsOf(m, s)(a + p, a + 2 * p)
  {
    hide *;
    Pow2Positive(p);
    var b, c := a + p, a + 2 * p;
    RangeSplit(s, a, b, c);
    AllParentsJoin(m, Range(s, a, b), Range(s, b, c), a, p);
    SpanIs(m, s, a, b);
    SpanIs(m, s, b, c);
    ParentsOfIs(m, s, a, b);
    ParentsOfIs(m, s, b, c);
    ParentsOfIs(m, s, a, c);
  }

  /* ---------- Never the root ---------- */

  /** A node of the specification's tree of a message, covering bytes a to b, that is no chunk, and
      that stays below the root however the message continues. */
  ghost predicate NodeBelowRoot(m: Mode, s: seq<byte>, o: Output, a: nat, b: nat) {
    && a % 1024 == 0 && a + 1024 < b <= |s|
    && o == SubtreeOutput(m, s[a..b], a / 1024)
    && forall longer: nat | longer >= |s| :: HasNode(longer, a, b) && !(a == 0 && b == longer)
  }

  ghost predicate BelowRoot(m: Mode, s: seq<byte>, o: Output) {
    exists a: nat, b: nat :: NodeBelowRoot(m, s, o, a, b)
  }

  lemma NodeSteps(n: nat, a: nat, b: nat)
    ensures HasNode(n, 0, n)
    ensures n > 1024 && b <= LeftLen(n) && HasNode(LeftLen(n), a, b) ==> HasNode(n, a, b)
    ensures n > 1024 && HasNode(n - LeftLen(n), a, b) ==> HasNode(n, LeftLen(n) + a, LeftLen(n) + b)
  {
    hide LeftLen;
  }

  lemma AllParentsCases(m: Mode, input: seq<byte>, counter: nat, o: Output)
    requires o in AllParents(m, input, counter)
    ensures |input| > 1024
    ensures var n := LeftLen(|input|);
            || o == SubtreeOutput(m, input, counter)
            || o in AllParents(m, input[..n], counter)
            || o in AllParents(m, input[n..], counter + n / 1024)
  {
    hide SubtreeOutput, LeftLen;
  }

  /** Each parent of a subtree is the node over some of its bytes. */
  lemma {:induction false} ParentIsNode(m: Mode, input: seq<byte>, counter: nat, o: Output)
    returns (a: nat, b: nat)
    requires o in AllParents(m, input, counter)
    ensures a % 1024 == 0 && a + 1024 < b <= |input| && HasNode(|input|, a, b)
    ensures o == SubtreeOutput(m, input[a..b], counter + a / 1024)
    decreases |input|
  {
    hide *;
    AllParentsCases(m, input, counter, o);
    var n := LeftLen(|input|);
    if o == SubtreeOutput(m, input, counter) {
      a, b := 0, |input|;
      NodeSteps(|input|, 0, 0);
      assert input[a..b] == input;
    } else if o in AllParents(m, input[..n], counter) {
      a, b := ParentIsNode(m, input[..n], counter, o);
      NodeSteps(|input|, a, b);
      assert input[..n] == input[0..n];
      SliceOfSlice(input, 0, n, a, b);
    } else {
      var a', b' := ParentIsNode(m, input[n..], counter + n / 1024, o);
      a, b := n + a', n + b';
      NodeSteps(|input|, a', b');
      assert input[n..] == input[n..|input|];
      SliceOfSlice(input, n, |input|, a', b');
      assert n / 1024 + a' / 1024 == (n + a') / 1024;
    }
  }

  /** A node of the tree over a run that is not the whole message is below the root, in the tree
      of the message and of every longer one. */
  lemma NodeInRun(x: nat, q: nat, n: nat, a: nat, b: nat)
    requires ProperRun(x, q, n) && 1024 * x <= a <= b <= 1024 * (x + q)
    requires HasNode(1024 * q, a - 1024 * x, b - 1024 * x)
    ensures forall longer: nat | longer >= n :: HasNode(longer, a, b) && !(a == 0 && b == longer)
  {
    hide HasNode, IsPow2, Aligned;
    forall longer: nat | longer >= n
      ensures HasNode(longer, a, b) && !(a == 0 && b == longer)
    {
      ProperRunIsBelowRoot(x, q, n, longer);
      NodeOfNode(longer, 1024 * x, 1024 * (x + q), a - 1024 * x, b - 1024 * x);
    }
  }

  /** So is every parent inside such a run. */
  lemma RunParentBelowRoot(m: Mode, s: seq<byte>, x: nat, q: nat, o: Output)
    requires ProperRun(x, q, |s|) && o in AllParents(m, Range(s, x, x + q), x)
    ensures BelowRoot(m, s, o)
  {
    hide SubtreeOutput, AllParents, HasNode, IsPow2, Aligned;
    var lo, hi := 1024 * x, 1024 * (x + q);
    assert Range(s, x, x + q) == s[lo..hi];
    var a, b := ParentIsNode(m, s[lo..hi], x, o);
    SliceOfSlice(s, lo, hi, a, b);
    var a', b' := lo + a, lo + b;
    NodeInRun(x, q, |s|, a', b');
    assert a' / 1024 == x + a / 1024;
    assert NodeBelowRoot(m, s, o, a', b');
  }

  /** With bytes behind the frontier, none of its parents is the root. */
  lemma {:induction false} FrontierParentBelowRoot(m: Mode, s: seq<byte>, c: nat, o: Output)
    requires 1024 * c < |s| && o in FrontierParents(ParentsOf(m, s), c)
    ensures BelowRoot(m, s, o)
    decreases c
  {
    hide BelowRoot, ParentsOf, AllParents, Aligned, IsPow2, Range;
    var a := c - LowBit(c);
    if o in FrontierParents(ParentsOf(m, s), a) {
      FrontierParentBelowRoot(m, s, a, o);
    } else {
      LastBit(c);
      ParentsOfIs(m, s, a, c);
      RunParentBelowRoot(m, s, a, LowBit(c), o);
    }
  }

  lemma TopRunProper(c: nat, p: nat, n: nat)
    requires IsPow2(p) && p < c && Aligned(c, p) && 1024 * c <= n
    ensures ProperRun(c - p, p, n)
  {
    HeldBelow(c, p);
  }

  /** Nor is any parent under a held stack, when it has at least two entries. */
  lemma HeldParentBelowRoot(m: Mode, s: seq<byte>, c: nat, p: nat, o: Output)
    requires 1024 * c <= |s| && IsPow2(p) && p < c && Aligned(c, p)
    requires o in HeldParents(ParentsOf(m, s), c, p)
    ensures BelowRoot(m, s, o)
  {
    hide BelowRoot, ParentsOf, AllParents, Aligned, IsPow2, Range, FrontierParents, ProperRun;
    Pow2Positive(p);
    TopRunProper(c, p, |s|);
    if o in FrontierParents(ParentsOf(m, s), c - p) {
      FrontierParentBelowRoot(m, s, c - p, o);
    } else {
      ParentsOfIs(m, s, c - p, c);
      RunParentBelowRoot(m, s, c - p, p, o);
    }
  }

  /* ---------- The roll-up ---------- */

  /** The watched nodes whose chaining values a roll-up computes. */
  ghost function RollUpSeen(m: Mode, stack: seq<Cv>, node: Output): set<Output>
    decreases |stack|
  {
    if stack == [] then {}
    else
      var n := |stack| - 1;
      Seen(node) + RollUpSeen(m, stack[..n], ParentOutput(m, stack[n], CvOf(m.compress, node)))
  }

  /** The watched nodes over all bytes from chunk b on, from what is left of b without its lowest
      1-bit on, and so forth. */
  ghost function SpineSeen(m: Mode, s: seq<byte>, b: nat): set<Output>
    decreases b
  {
    if b == 0 || 1024 * b > |s| then {}
    else Seen(SubtreeOutput(m, s[1024 * b..], b)) + SpineSeen(m, s, b - LowBit(b))
  }

  /** Rolling up a frontier computes exactly those. */
  lemma {:induction false} RollUpIsSpine(m: Mode, s: seq<byte>, b: nat)
    requires FewerBehind(|s|, b)
    ensures RollUpSeen(m, Frontier(SpansOf(m, s), b), SubtreeOutput(m, s[1024 * b..], b)) == SpineSeen(m, s, b)
    decreases b
  {
    hide SubtreeOutput, Frontier, SpansOf, LowBit, Seen, FewerBehind, CvOf, ParentOutput;
    FewerFits(|s|, b);
    if b == 0 {
      FrontierNone(SpansOf(m, s));
    } else {
      RestJoins(m, s, b);
      RollUpIsSpine(m, s, b - LowBit(b));
    }
  }

  lemma RollUpSeenNone(m: Mode, node: Output)
    ensures RollUpSeen(m, [], node) == {}
  {
  }

  lemma RollUpSeenTop(m: Mode, stack: seq<Cv>, node: Output)
    requires |stack| >= 1
    ensures var n := |stack| - 1;
            RollUpSeen(m, stack, node) ==
            Seen(node) + RollUpSeen(m, stack[..n], ParentOutput(m, stack[n], CvOf(m.compress, node)))
  {
  }

  /** From a chunk with at least one byte. */
  lemma SpineFromChunk(m: Mode, s: seq<byte>, c: nat)
    requires 1024 * c <= |s| <= 1024 * (c + 1) && (c > 0 ==> 1024 * c < |s|)
    ensures FewerBehind(|s|, c)
    ensures RollUpSeen(m, Frontier(SpansOf(m, s), c), ChunkOutput(m, s[1024 * c..], c)) == SpineSeen(m, s, c)
  {
    RollUpIsSpine(m, s, c);
    hide RollUpSeen, SpineSeen, Frontier, SpansOf, ChunkOutput;
  }

  /** From the top two entries of a held stack, two equal halves, when no bytes follow them. */
  lemma SpineFromPair(m: Mode, s: seq<byte>, c: nat, p: nat, stack: seq<Cv>)
    requires 1024 * c == |s| && 2 * p <= c && Aligned(c, 2 * p) && c > 0 && Held(SpansOf(m, s), c, p, stack)
    ensures |stack| >= 2 && FewerBehind(|s|, c - 2 * p)
    ensures RollUpSeen(m, stack[..|stack| - 2], ParentOutput(m, stack[|stack| - 2], stack[|stack| - 1]))
         == SpineSeen(m, s, c - 2 * p)
  {
    hide *;
    var f, b := SpansOf(m, s), c - 2 * p;
    PairOnTop(f, c, p, stack);
    HeldTop(f, c, p, stack);
    PairBelow(b, p, c);
    SpanIs(m, s, b, b + p);
    SpanIs(m, s, b + p, c);
    RangeSplit(s, b, b + p, c);
    RangeToEnd(s, b, c);
    Join(m, Range(s, b, b + p), Range(s, b + p, c), b, p);
    RollUpIsSpine(m, s, b);
    assert stack[..|stack| - 2] == Frontier(f, b);
  }

  lemma HeldTop(f: Spans, c: nat, p: nat, stack: seq<Cv>)
    requires Held(f, c, p, stack) && c > 0
    ensures IsPow2(p) && p >= 1
  {
  }

  lemma RangeToEnd(s: seq<byte>, b: nat, c: nat)
    requires b <= c && 1024 * c == |s|
    ensures s[1024 * b..] == Range(s, b, c)
  {
  }

  lemma PairBelow(b: nat, p: nat, c: nat)
    requires IsPow2(p) && c == b + 2 * p && Aligned(c, 2 * p)
    ensures FewerBehind(1024 * c, b)
  {
    var d := 2 * p;
    assert d / 2 == p && IsPow2(d);
    AlignedSmaller(0, d, d);
    AlignedSum(d, b, d);
    if b > 0 {
      LowBitAligned(b, d);
    }
  }

  /** The bytes behind such a frontier are a node of the tree. */
  lemma {:induction false} RestIsNode(n: nat, b: nat)
    requires FewerBehind(n, b)
    ensures HasNode(n, 1024 * b, n)
    decreases b
  {
    hide LeftLen, LowBit, FewerBehind;
    NodeSteps(n, 0, 0);
    FewerFits(n, b);
    if b > 0 {
      var p := LowBit(b);
      var a := b - p;
      FewerBelow(n, b);
      RestIsNode(n, a);
      FewerFits(n, a);
      var k := n - 1024 * a;
      LeftLenUnique(k, p);
      NodeSteps(k - 1024 * p, 0, 0);
      NodeSteps(k, 0, k - 1024 * p);
      hide HasNode;
      NodeOfNode(n, 1024 * a, n, 1024 * p, k);
    }
  }

  /** A node of the message's tree that ends where the message ends and does not begin where it
      begins. */
  ghost predicate OnSpine(m: Mode, s: seq<byte>, o: Output, b: nat) {
    0 < b && 1024 * b <= |s| && HasNode(|s|, 1024 * b, |s|) && o == SubtreeOutput(m, s[1024 * b..], b)
  }

  /** So no roll-up computes the chaining value of the root. */
  lemma {:induction false} SpineBelowRoot(m: Mode, s: seq<byte>, b: nat, o: Output)
    requires FewerBehind(|s|, b) && o in SpineSeen(m, s, b)
    ensures exists a: nat :: OnSpine(m, s, o, a)
    decreases b
  {
    hide SubtreeOutput, HasNode, LowBit, FewerBehind;
    if o == SubtreeOutput(m, s[1024 * b..], b) {
      RestIsNode(|s|, b);
      assert OnSpine(m, s, o, b);
    } else {
      FewerBelow(|s|, b);
      SpineBelowRoot(m, s, b - LowBit(b), o);
    }
  }

  /* ---------- The root's flag ---------- */

  lemma NoRoot(flags: byte, blocks: nat)
    requires flags & ROOT == 0
    ensures (flags | StartFlag(blocks) | CHUNK_END) & ROOT == 0 && (flags | PARENT) & ROOT == 0
  {
  }

  /** No node of the tree has the root's flag until it is compressed as the root. */
  lemma NodesUnmarked(m: Mode, s: seq<byte>, counter: nat)
    requires m.flags & ROOT == 0
    ensures SubtreeOutput(m, s, counter).flags & ROOT == 0
  {
    hide ChunkFold, CvOf, LeftLen, StartFlag;
    NoRoot(m.flags, BlocksBefore(|s|));
  }
}
