/** Combining a list level by level, in pairs, an odd last element carried up unchanged, against
    combining it as a left-full binary tree.  Nothing here depends on what is combined. */
module Pairing {
  import opened Bits

  /** One level: neighbours combined, an odd last element carried. */
  function PairUp<T>(up: (T, T) -> T, l: seq<T>): (r: seq<T>)
    ensures |r| == (|l| + 1) / 2
  {
    seq((|l| + 1) / 2, i requires 0 <= i < (|l| + 1) / 2 =>
      if 2 * i + 1 < |l| then up(l[2 * i], l[2 * i + 1]) else l[2 * i])
  }

  /** The left-full tree: the largest power of two below the length goes left. */
  function TreeOf<T>(up: (T, T) -> T, l: seq<T>): T
    requires |l| >= 1
    decreases |l|
  {
    if |l| == 1 then l[0] else up(TreeOf(up, LeftHalf(l)), TreeOf(up, RightHalf(l)))
  }

  function LeftHalf<T>(l: seq<T>): (r: seq<T>)
    requires |l| >= 2
    ensures 1 <= |r| < |l| && |r| == LeftPow(|l|) && IsPow2(|r|)
  {
    LeftPowIsLargest(|l|);
    l[..LeftPow(|l|)]
  }

  function RightHalf<T>(l: seq<T>): (r: seq<T>)
    requires |l| >= 2
    ensures 1 <= |r| <= LeftPow(|l|) && |r| == |l| - LeftPow(|l|)
  {
    LeftPowIsLargest(|l|);
    l[LeftPow(|l|)..]
  }

  /** A level never pairs across an even boundary. */
  lemma PairUpSplit<T>(up: (T, T) -> T, a: seq<T>, b: seq<T>)
    requires |a| % 2 == 0
    ensures PairUp(up, a + b) == PairUp(up, a) + PairUp(up, b)
  {
    var c := a + b;
    var h := |a| / 2;
    assert |PairUp(up, a)| == h;
    forall i | 0 <= i < (|c| + 1) / 2
      ensures PairUp(up, c)[i] == (PairUp(up, a) + PairUp(up, b))[i]
    {
      if i >= h {
        assert c[2 * i] == b[2 * (i - h)];
        if 2 * i + 1 < |c| {
          assert c[2 * i + 1] == b[2 * (i - h) + 1];
        }
      }
    }
  }

  /** The halves of a list longer than two stay apart when it is paired up. */
  lemma PairUpHalves<T>(up: (T, T) -> T, l: seq<T>)
    requires |l| > 2
    ensures LeftHalf(PairUp(up, l)) == PairUp(up, LeftHalf(l))
    ensures RightHalf(PairUp(up, l)) == PairUp(up, RightHalf(l))
  {
    var a, b := LeftHalf(l), RightHalf(l);
    assert l == a + b;
    assert LeftPow(|l|) == 2 * LeftPow((|l| + 1) / 2);
    PairUpSplit(up, a, b);
  }

  lemma PairUpSingle<T>(up: (T, T) -> T, l: seq<T>)
    requires |l| == 1
    ensures PairUp(up, l) == l
  {
  }

  /** Pairing up does not change what the tree over the list combines to. */
  lemma {:induction false} PairUpKeepsTree<T>(up: (T, T) -> T, l: seq<T>)
    requires |l| >= 1
    ensures TreeOf(up, PairUp(up, l)) == TreeOf(up, l)
    decreases |l|
  {
    if |l| == 1 {
      PairUpSingle(up, l);
    } else if |l| > 2 {
      hide PairUp, LeftHalf, RightHalf;
      PairUpHalves(up, l);
      PairUpKeepsTree(up, LeftHalf(l));
      PairUpKeepsTree(up, RightHalf(l));
    }
  }

  /** Nor does it change what either half combines to, as long as it does not combine the two. */
  lemma PairUpKeepsHalves<T>(up: (T, T) -> T, l: seq<T>)
    requires |l| > 2
    ensures TreeOf(up, LeftHalf(PairUp(up, l))) == TreeOf(up, LeftHalf(l))
    ensures TreeOf(up, RightHalf(PairUp(up, l))) == TreeOf(up, RightHalf(l))
  {
    hide PairUp, LeftHalf, RightHalf, TreeOf;
    PairUpHalves(up, l);
    PairUpKeepsTree(up, LeftHalf(l));
    PairUpKeepsTree(up, RightHalf(l));
  }

  /** Pairing up until two are left. */
  function Condense<T>(up: (T, T) -> T, l: seq<T>): (r: seq<T>)
    ensures |l| >= 2 ==> |r| == 2
    decreases |l|
  {
    if |l| <= 2 then l else Condense(up, PairUp(up, l))
  }

  /** Condensing a list to two ends exactly with what its two halves combine to. */
  lemma {:induction false} CondenseIsHalves<T>(up: (T, T) -> T, l: seq<T>)
    requires |l| >= 2
    ensures Condense(up, l) == [TreeOf(up, LeftHalf(l)), TreeOf(up, RightHalf(l))]
    decreases |l|
  {
    if |l| > 2 {
      PairUpKeepsHalves(up, l);
      CondenseIsHalves(up, PairUp(up, l));
    }
  }

  /** Two lists side by side are the halves of their concatenation, when the left length is a
      power of two and the right one no longer. */
  lemma ConcatHalves<T>(a: seq<T>, b: seq<T>)
    requires IsPow2(|a|) && 1 <= |b| <= |a|
    ensures |a + b| >= 2 && LeftHalf(a + b) == a && RightHalf(a + b) == b
  {
    LeftPowUnique(|a + b|, |a|);
  }
}
