/** How the left-full tree of the specification breaks into the pieces the incremental hasher
    holds: aligned subtrees on a stack, rolled up from the right. */
module Tree {
  import opened Bits
  import opened Words
  import opened Spec

  /** Chaining values of runs of whole chunks: the one of chunks a to b, as a function of a
      and b. */
  type Spans = (nat, nat) -> Cv

  /** The bytes of chunks a to b of a message. */
  function Range(s: seq<byte>, a: nat, b: nat): seq<byte> {
    if a <= b && 1024 * b <= |s| then s[1024 * a..1024 * b] else []
  }

  /** The subtrees over the whole chunks of a message. */
  function SpansOf(m: Mode, s: seq<byte>): Spans {
    (a: nat, b: nat) => SubtreeCv(m, Range(s, a, b), a)
  }

  /** The frontier of the first c chunks: one chaining value for each 1-bit of c, from the highest
      down, each covering that many chunks. */
  function Frontier(f: Spans, c: nat): (cvs: seq<Cv>)
    decreases c
  {
    if c == 0 then [] else Frontier(f, c - LowBit(c)) + [f(c - LowBit(c), c)]
  }

  lemma {:induction false} FrontierLength(f: Spans, c: nat)
    ensures |Frontier(f, c)| == PopCount(c)
    decreases c
  {
    if c > 0 {
      LowBitRemoved(c);
      FrontierLength(f, c - LowBit(c));
    }
  }

  /** The number made of the i highest 1-bits of c. */
  function HighBits(c: nat, i: nat): (a: nat)
    ensures a <= c
    decreases c
  {
    if i >= PopCount(c) || c == 0 then c else HighBits(c - LowBit(c), i)
  }

  /** Entry i of the frontier covers the chunks of the i-th highest 1-bit, behind those of the
      higher ones. */
  lemma {:induction false} FrontierAt(f: Spans, c: nat, i: nat)
    requires i < PopCount(c)
    ensures |Frontier(f, c)| == PopCount(c)
    ensures Frontier(f, c)[i] == f(HighBits(c, i), HighBits(c, i + 1))
    decreases c
  {
    LowBitRemoved(c);
    FrontierLength(f, c);
    var a := c - LowBit(c);
    FrontierLength(f, a);
    if i < PopCount(a) {
      FrontierAt(f, a, i);
      HighBitsAll(c, a, i + 1);
    }
  }

  lemma HighBitsAll(c: nat, a: nat, i: nat)
    requires c > 0 && a == c - LowBit(c) && i <= PopCount(a) && PopCount(c) == PopCount(a) + 1
    ensures HighBits(c, i) == HighBits(a, i)
  {
  }

  /** That number is 0 for none of them and c for all of them. */
  lemma {:induction false} HighBitsEnds(c: nat)
    ensures HighBits(c, 0) == 0 && HighBits(c, PopCount(c)) == c
    decreases c
  {
    if c > 0 {
      LowBitRemoved(c);
      HighBitsEnds(c - LowBit(c));
    }
  }

  /** From one to the next it grows by a power of two that divides both, so the runs of the
      frontier's entries are aligned. */
  lemma {:induction false} HighBitsStep(c: nat, i: nat)
    requires i < PopCount(c)
    ensures var a, b := HighBits(c, i), HighBits(c, i + 1);
            a < b && IsPow2(b - a) && Aligned(a, b - a) && Aligned(b, b - a)
    decreases c
  {
    LowBitRemoved(c);
    var a := c - LowBit(c);
    if i < PopCount(a) {
      HighBitsStep(a, i);
      HighBitsAll(c, a, i);
      HighBitsAll(c, a, i + 1);
    } else {
      LastBit(c);
    }
  }

  lemma LastBit(c: nat)
    requires c > 0
    ensures Aligned(c, LowBit(c)) && Aligned(c - LowBit(c), LowBit(c))
  {
    LowBitAligned(c, LowBit(c));
    AlignedSmaller(c, LowBit(c), LowBit(c));
    AlignedSum(LowBit(c), c - LowBit(c), LowBit(c));
  }

  /** The frontier only looks at the first c chunks. */
  lemma {:induction false} FrontierAgrees(f: Spans, g: Spans, c: nat)
    requires forall a: nat, b: nat | a <= b <= c :: f(a, b) == g(a, b)
    ensures Frontier(f, c) == Frontier(g, c)
    decreases c
  {
    if c > 0 {
      FrontierAgrees(f, g, c - LowBit(c));
    }
  }

  /** Bytes after the first c chunks do not change what those chunks hash to. */
  lemma SpansStable(m: Mode, s: seq<byte>, t: seq<byte>, c: nat)
    requires 1024 * c <= |s|
    ensures forall a: nat, b: nat | a <= b <= c :: SpansOf(m, s + t)(a, b) == SpansOf(m, s)(a, b)
  {
    forall a: nat, b: nat | a <= b <= c
      ensures SpansOf(m, s + t)(a, b) == SpansOf(m, s)(a, b)
    {
      assert Range(s + t, a, b) == Range(s, a, b);
    }
  }

  /** The top node over two neighbouring pieces, the left one a power of two chunks and the right
      one no larger, is the parent of the pieces' top nodes. */
  lemma Join(m: Mode, left: seq<byte>, right: seq<byte>, counter: nat, p: nat)
    requires IsPow2(p) && |left| == 1024 * p && 1 <= |right| <= |left|
    ensures SubtreeOutput(m, left + right, counter) ==
            ParentOutput(m, SubtreeCv(m, left, counter), SubtreeCv(m, right, counter + p))
    ensures SubtreeCv(m, left + right, counter) ==
            ParentCv(m, SubtreeCv(m, left, counter), SubtreeCv(m, right, counter + p))
  {
    var s := left + right;
    LeftLenUnique(|s|, p);
    assert s[..|left|] == left && s[|left|..] == right;
  }

  /* ---------- Lazy merging ---------- */

  /** A stack that holds the frontier of all but the last p chunks of c, and then the chaining
      value of those p chunks, which may still await merging. */
  ghost predicate Held(f: Spans, c: nat, p: nat, stack: seq<Cv>) {
    if c == 0 then stack == []
    else IsPow2(p) && p <= c && Aligned(c, p) && stack == Frontier(f, c - p) + [f(c - p, c)]
  }

  /** A merged stack is held, with its lowest 1-bit on top. */
  lemma FrontierHeld(f: Spans, c: nat)
    ensures c > 0 ==> Held(f, c, LowBit(c), Frontier(f, c))
    ensures c == 0 ==> Held(f, c, 1, Frontier(f, c))
  {
    if c > 0 {
      LowBitAligned(c, LowBit(c));
    }
  }

  lemma HeldEmpty(f: Spans, c: nat, p: nat, stack: seq<Cv>)
    requires Held(f, c, p, stack) && stack != []
    ensures c > 0
  {
  }

  lemma HeldBelow(c: nat, p: nat)
    requires IsPow2(p) && p <= c && Aligned(c, p)
    ensures Aligned(c - p, p)
  {
    AlignedSmaller(c, p, p);
    AlignedSum(p, c - p, p);
  }

  /** The number of 1-bits of c tells whether the top of a held stack has to be merged: it does
      exactly when the stack is longer, and then the entry below covers equally many chunks. */
  lemma MergeTest(f: Spans, c: nat, p: nat, stack: seq<Cv>)
    requires Held(f, c, p, stack) && c > 0
    ensures |stack| == PopCount(c - p) + 1 && |stack| >= PopCount(c)
    ensures |stack| > PopCount(c) <==> c > p && LowBit(c - p) == p
    ensures |stack| == PopCount(c) ==> LowBit(c) == p && stack == Frontier(f, c)
  {
    HeldBelow(c, p);
    FrontierLength(f, c - p);
    Carry(c - p, p);
  }

  /** Merging the top two entries of such a stack again gives a held stack, with a top twice as
      large. */
  lemma MergeStep(f: Spans, c: nat, p: nat, stack: seq<Cv>)
    requires Held(f, c, p, stack) && c > p && LowBit(c - p) == p
    ensures |stack| >= 2 && 2 * p <= c
    ensures stack[|stack| - 2] == f(c - 2 * p, c - p) && stack[|stack| - 1] == f(c - p, c)
    ensures Held(f, c, 2 * p, stack[..|stack| - 2] + [f(c - 2 * p, c)])
  {
    var b := c - p;
    var a := b - p;
    assert Frontier(f, b) == Frontier(f, a) + [f(a, b)];
    assert stack[..|stack| - 2] == Frontier(f, a);
    TwiceAligned(a, b, p);
  }

  /** When the top p chunks of a held stack end at a multiple of 2p, it holds the frontier of the
      chunks before the last 2p, and those as two equal halves. */
  lemma PairOnTop(f: Spans, c: nat, p: nat, stack: seq<Cv>)
    requires Held(f, c, p, stack) && 2 * p <= c && Aligned(c, 2 * p) && c > 0
    ensures stack == Frontier(f, c - 2 * p) + [f(c - 2 * p, c - p), f(c - p, c)]
    ensures |stack| == PopCount(c - 2 * p) + 2
  {
    hide Aligned, IsPow2, PopCount, LowBit, Frontier;
    var a, b := c - 2 * p, c - p;
    HalfOnTop(c, p);
    FrontierLength(f, a);
    FrontierTop(f, b);
    assert Frontier(f, b) == Frontier(f, a) + [f(a, b)];
  }

  /** Below the upper of two equal halves, the lower one is the lowest 1-bit. */
  lemma {:induction false} HalfOnTop(c: nat, p: nat)
    requires IsPow2(p) && 2 * p <= c && Aligned(c, 2 * p)
    ensures LowBit(c - p) == p
    decreases p
  {
    assert c % 2 == 0;
    if p > 1 {
      HalfOnTop(c / 2, p / 2);
      assert (c - p) / 2 == c / 2 - p / 2;
    }
  }

  lemma TwiceAligned(a: nat, b: nat, p: nat)
    requires IsPow2(p) && b == a + p && LowBit(b) == p
    ensures IsPow2(2 * p) && Aligned(a + 2 * p, 2 * p)
  {
    var d := 2 * p;
    assert d / 2 == p;
    LowBitRemoved(b);
    if a > 0 {
      LowBitAligned(a, d);
    }
    AlignedSmaller(0, d, d);
    AlignedSum(d, a, d);
  }

  lemma RangeSplit(s: seq<byte>, a: nat, b: nat, c: nat)
    requires a <= b <= c && 1024 * c <= |s|
    ensures Range(s, a, c) == Range(s, a, b) + Range(s, b, c)
    ensures |Range(s, a, b)| == 1024 * (b - a) && |Range(s, b, c)| == 1024 * (c - b)
  {
  }

  lemma RangeRest(s: seq<byte>, a: nat, b: nat)
    requires a <= b && 1024 * b <= |s|
    ensures s[1024 * a..] == Range(s, a, b) + s[1024 * b..]
  {
  }

  lemma Pow2Positive(p: nat)
    requires IsPow2(p)
    ensures p >= 1
  {
  }

  lemma SpanIs(m: Mode, s: seq<byte>, a: nat, b: nat)
    ensures SpansOf(m, s)(a, b) == SubtreeCv(m, Range(s, a, b), a)
  {
    hide SubtreeCv;
  }

  /** The chaining value over two equal neighbouring runs is the parent of theirs. */
  lemma SpanJoin(m: Mode, s: seq<byte>, a: nat, p: nat)
    requires IsPow2(p) && 1024 * (a + 2 * p) <= |s|
    ensures SpansOf(m, s)(a, a + 2 * p) ==
            ParentCv(m, SpansOf(m, s)(a, a + p), SpansOf(m, s)(a + p, a + 2 * p))
  {
    hide *;
    Pow2Positive(p);
    var b, c := a + p, a + 2 * p;
    RangeSplit(s, a, b, c);
    Join(m, Range(s, a, b), Range(s, b, c), a, p);
    SpanIs(m, s, a, b);
    SpanIs(m, s, b, c);
    SpanIs(m, s, a, c);
  }

  /* ---------- Rolling up ---------- */

  /** Fold a stack from its top down into parents, starting from a node to its right. */
  function RollUp(m: Mode, stack: seq<Cv>, node: Output): Output
    decreases |stack|
  {
    if stack == [] then node
    else
      var n := |stack| - 1;
      RollUp(m, stack[..n], ParentOutput(m, stack[n], CvOf(m.compress, node)))
  }

  /** The bytes behind the frontier of b chunks are at most as many as its smallest subtree has. */
  predicate FewerBehind(n: nat, b: nat) {
    1024 * b <= n && (b > 0 ==> 1 <= n - 1024 * b <= 1024 * LowBit(b))
  }

  lemma FewerBelow(n: nat, b: nat)
    requires FewerBehind(n, b) && b > 0
    ensures FewerBehind(n, b - LowBit(b)) && IsPow2(LowBit(b))
    ensures 1024 * LowBit(b) < n - 1024 * (b - LowBit(b)) <= 2048 * LowBit(b)
  {
    LowBitRemoved(b);
  }

  lemma FewerFits(n: nat, b: nat)
    requires FewerBehind(n, b)
    ensures 1024 * b <= n
  {
  }

  lemma FrontierNone(f: Spans)
    ensures Frontier(f, 0) == []
  {
  }

  lemma SubtreeCvIs(m: Mode, s: seq<byte>, counter: nat)
    ensures SubtreeCv(m, s, counter) == CvOf(m.compress, SubtreeOutput(m, s, counter))
  {
  }

  /** Rolling up the frontier of b chunks from the node over the bytes that follow them gives the
      root of the whole tree. */
  lemma {:induction false} RollUpIsRoot(m: Mode, s: seq<byte>, b: nat)
    requires FewerBehind(|s|, b)
    ensures RollUp(m, Frontier(SpansOf(m, s), b), SubtreeOutput(m, s[1024 * b..], b))
         == SubtreeOutput(m, s, 0)
    decreases b
  {
    hide SubtreeOutput, Frontier, SpansOf, LowBit, FewerBehind, CvOf, ParentOutput;
    FewerFits(|s|, b);
    if b == 0 {
      FrontierNone(SpansOf(m, s));
      assert s[0..] == s;
    } else {
      RestJoins(m, s, b);
      RollUpIsRoot(m, s, b - LowBit(b));
    }
  }

  /** Folding in the smallest subtree of the frontier gives the node over it and the rest. */
  lemma RestJoins(m: Mode, s: seq<byte>, b: nat)
    requires FewerBehind(|s|, b) && b > 0
    ensures var a, l := b - LowBit(b), Frontier(SpansOf(m, s), b);
            && FewerBehind(|s|, a) && 1024 * a <= 1024 * b <= |s|
            && |l| >= 1 && l[..|l| - 1] == Frontier(SpansOf(m, s), a)
            && ParentOutput(m, l[|l| - 1], CvOf(m.compress, SubtreeOutput(m, s[1024 * b..], b)))
            == SubtreeOutput(m, s[1024 * a..], a)
  {
    hide SubtreeOutput, Frontier, SpansOf, LowBit, FewerBehind, CvOf, ParentOutput;
    var p := LowBit(b);
    var a := b - p;
    FewerFits(|s|, b);
    FewerBelow(|s|, b);
    FewerFits(|s|, a);
    FrontierTop(SpansOf(m, s), b);
    SpanIs(m, s, a, b);
    RangeSplit(s, a, b, b);
    RangeRest(s, a, b);
    Join(m, Range(s, a, b), s[1024 * b..], a, p);
    SubtreeCvIs(m, s[1024 * b..], b);
  }

  /** From a chunk with at least one byte, over the frontier of the chunks before it. */
  lemma RollUpFromChunk(m: Mode, s: seq<byte>, c: nat)
    requires 1024 * c <= |s| <= 1024 * (c + 1) && (c > 0 ==> 1024 * c < |s|)
    ensures RollUp(m, Frontier(SpansOf(m, s), c), ChunkOutput(m, s[1024 * c..], c))
         == SubtreeOutput(m, s, 0)
  {
    RollUpIsRoot(m, s, c);
    hide RollUp, Frontier, SpansOf, ChunkOutput;
  }

  lemma FrontierTop(f: Spans, b: nat)
    requires b > 0
    ensures var l := Frontier(f, b);
            |l| >= 1 && l[..|l| - 1] == Frontier(f, b - LowBit(b)) && l[|l| - 1] == f(b - LowBit(b), b)
  {
  }

  lemma RollUpNone(m: Mode, node: Output)
    ensures RollUp(m, [], node) == node
  {
  }

  lemma RollUpTop(m: Mode, stack: seq<Cv>, node: Output)
    requires |stack| >= 1
    ensures RollUp(m, stack, node) ==
            RollUp(m, stack[..|stack| - 1], ParentOutput(m, stack[|stack| - 1], CvOf(m.compress, node)))
  {
  }

  /** From the top two entries of a held stack, when no bytes follow them. */
  lemma RollUpFromPair(m: Mode, s: seq<byte>, c: nat, p: nat, stack: seq<Cv>)
    requires 1024 * c == |s| && p < c && Held(SpansOf(m, s), c, p, stack)
    ensures |stack| >= 2
    ensures RollUp(m, stack[..|stack| - 2], ParentOutput(m, stack[|stack| - 2], stack[|stack| - 1]))
         == SubtreeOutput(m, s, 0)
  {
    hide SubtreeOutput, RollUp, CvOf, LowBit, Aligned, Frontier, IsPow2, SpansOf;
    var f, b := SpansOf(m, s), c - p;
    HeldBelow(c, p);
    LowBitAligned(b, p);
    Pow2Positive(p);
    RollUpIsRoot(m, s, b);
    assert s[1024 * b..] == Range(s, b, c);
    SpanIs(m, s, b, c);
    var l := Frontier(f, b);
    FrontierTop(f, b);
    assert stack[..|stack| - 2] == l[..|l| - 1];
    RollUpTop(m, l, SubtreeOutput(m, s[1024 * b..], b));
  }

  /* ---------- Nodes of the tree by position ---------- */

  /** The tree over n bytes has a node covering exactly the bytes a to b. */
  ghost predicate HasNode(n: nat, a: nat, b: nat)
    decreases n
  {
    || (a == 0 && b == n)
    || (n > 1024 && b <= LeftLen(n) && HasNode(LeftLen(n), a, b))
    || (n > 1024 && a >= LeftLen(n) && b >= LeftLen(n) &&
        HasNode(n - LeftLen(n), a - LeftLen(n), b - LeftLen(n)))
  }

  /** Every aligned power-of-two run of whole chunks is a node of the tree, however many bytes
      follow it. */
  lemma {:induction false} AlignedIsNode(n: nat, a: nat, p: nat)
    requires IsPow2(p) && Aligned(a, p) && 1024 * (a + p) <= n
    ensures HasNode(n, 1024 * a, 1024 * (a + p))
    decreases n
  {
    if n > 1024 * p {
      var l := LeftPow(Chunks(n));
      LeftPowIsLargest(Chunks(n));
      assert LeftLen(n) == 1024 * l;
      assert p < Chunks(n);
      if l < p {
        AlignedSmaller(0, l, p);
        assert false;
      }
      AlignedSmaller(l, p, l);
      AlignedSide(a, l, p);
      if a < l {
        AlignedIsNode(1024 * l, a, p);
      } else {
        AlignedIsNode(n - 1024 * l, a - l, p);
      }
    } else {
      assert n == 1024 * p && a == 0;
    }
  }

  /** A node of a subtree that is itself a node is a node of the whole tree. */
  lemma {:induction false} NodeOfNode(n: nat, s: nat, e: nat, a: nat, b: nat)
    requires s <= e <= n && a <= b <= e - s
    ensures HasNode(n, s, e) && HasNode(e - s, a, b) ==> HasNode(n, s + a, s + b)
    decreases n
  {
    if !(s == 0 && e == n) && HasNode(n, s, e) && HasNode(e - s, a, b) {
      var l := LeftLen(n);
      hide LeftLen;
      if e <= l && HasNode(l, s, e) {
        NodeOfNode(l, s, e, a, b);
      } else {
        NodeOfNode(n - l, s - l, e - l, a, b);
        assert s - l + a == s + a - l && s - l + b == s + b - l;
      }
    }
  }

  /** A run of whole chunks that is a proper subtree of an n-byte message: aligned, inside it, and
      not all of it. */
  ghost predicate ProperRun(a: nat, p: nat, n: nat) {
    IsPow2(p) && Aligned(a, p) && 1024 * (a + p) <= n && !(a == 0 && 1024 * p == n)
  }

  /** Such a run is a node below the root, in the tree of the message and of every longer one. */
  lemma ProperRunIsBelowRoot(a: nat, p: nat, n: nat, longer: nat)
    requires ProperRun(a, p, n) && n <= longer
    ensures HasNode(longer, 1024 * a, 1024 * (a + p))
    ensures !(1024 * a == 0 && 1024 * (a + p) == longer)
  {
    AlignedIsNode(longer, a, p);
  }
}
