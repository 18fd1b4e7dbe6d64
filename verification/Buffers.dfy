/** Byte buffers, and the chaining values laid out in them 32 bytes apart. */
module Buffers {
  import opened Words

  /** The i-th of the chaining values that start at an offset. */
  function CvAt(s: seq<byte>, off: nat, i: nat): Cv
    requires off + 32 * i + 32 <= |s|
  {
    s[off + 32 * i..off + 32 * i + 32]
  }

  /** The n chaining values that start at an offset. */
  function CvsAt(s: seq<byte>, off: nat, n: nat): (cvs: seq<Cv>)
    requires off + 32 * n <= |s|
    ensures |cvs| == n
  {
    seq(n, i requires 0 <= i < n => CvAt(s, off, i))
  }

  /** Two states of a buffer that differ at most from lo up to hi. */
  ghost predicate SameOutside(s: seq<byte>, t: seq<byte>, lo: nat, hi: nat) {
    lo <= hi <= |s| && |s| == |t| && s[..lo] == t[..lo] && s[hi..] == t[hi..]
  }

  lemma SameOutsideSelf(s: seq<byte>, lo: nat, hi: nat)
    requires lo <= hi <= |s|
    ensures SameOutside(s, s, lo, hi)
  {
  }

  lemma SameOutsideJoin(s: seq<byte>, t: seq<byte>, u: seq<byte>, lo: nat, mid: nat, hi: nat)
    requires SameOutside(s, t, lo, mid) && SameOutside(t, u, mid, hi)
    ensures SameOutside(s, u, lo, hi)
  {
    assert u[..lo] == u[..mid][..lo] && t[..lo] == t[..mid][..lo];
    assert s[hi..] == s[mid..][hi - mid..] && t[hi..] == t[mid..][hi - mid..];
  }

  /** A write of 32 bytes inside a range stays inside it. */
  lemma SameOutsideWiden(s: seq<byte>, t: seq<byte>, u: seq<byte>, lo: nat, at: nat, hi: nat)
    requires SameOutside(s, t, lo, hi) && SameOutside(t, u, at, at + 32) && lo <= at && at + 32 <= hi
    ensures SameOutside(s, u, lo, hi)
  {
    assert u[..lo] == u[..at][..lo] && t[..lo] == t[..at][..lo];
    assert u[hi..] == u[at + 32..][hi - at - 32..] && t[hi..] == t[at + 32..][hi - at - 32..];
  }

  lemma Rewritten(s: seq<byte>, t: seq<byte>, lo: nat, src: seq<byte>)
    requires SameOutside(s, t, lo, lo + |src|) && t[lo..lo + |src|] == src
    ensures t == s[..lo] + src + s[lo + |src|..]
  {
    assert t == t[..lo] + t[lo..lo + |src|] + t[lo + |src|..];
  }

  lemma SliceOfSlice(s: seq<byte>, a: nat, b: nat, x: nat, y: nat)
    requires a <= b <= |s| && x <= y <= b - a
    ensures s[a..b][x..y] == s[a + x..a + y]
  {
    var r := s[a..b];
    var t, u := r[x..y], s[a + x..a + y];
    assert |t| == |u|;
    forall k | 0 <= k < |t|
      ensures t[k] == u[k]
    {
      assert t[k] == r[x + k];
      assert u[k] == s[a + x + k];
    }
  }

  lemma CvsUnchanged(s: seq<byte>, t: seq<byte>, lo: nat, hi: nat, off: nat, n: nat)
    requires SameOutside(s, t, lo, hi) && off + 32 * n <= |s|
    requires off + 32 * n <= lo || hi <= off
    ensures CvsAt(s, off, n) == CvsAt(t, off, n)
  {
    forall i | 0 <= i < n
      ensures CvAt(s, off, i) == CvAt(t, off, i)
    {
      var a := off + 32 * i;
      if off + 32 * n <= lo {
        SliceOfSlice(s, 0, lo, a, a + 32);
        SliceOfSlice(t, 0, lo, a, a + 32);
        assert s[0..lo] == s[..lo] && t[0..lo] == t[..lo];
      } else {
        SliceOfSlice(s, hi, |s|, a - hi, a - hi + 32);
        SliceOfSlice(t, hi, |s|, a - hi, a - hi + 32);
        assert s[hi..|s|] == s[hi..] && t[hi..|s|] == t[hi..];
      }
    }
  }

  lemma CvsSplit(s: seq<byte>, off: nat, i: nat, j: nat)
    requires off + 32 * (i + j) <= |s|
    ensures CvsAt(s, off, i + j) == CvsAt(s, off, i) + CvsAt(s, off + 32 * i, j)
  {
  }

  /** A run of chaining values is its bytes, cut up. */
  lemma CvsCopied(s: seq<byte>, off: nat, t: seq<byte>, at: nat, n: nat)
    requires off + 32 * n <= |s| && at + 32 * n <= |t|
    requires s[off..off + 32 * n] == t[at..at + 32 * n]
    ensures CvsAt(s, off, n) == CvsAt(t, at, n)
  {
    forall i | 0 <= i < n
      ensures CvAt(s, off, i) == CvAt(t, at, i)
    {
      SliceOfSlice(s, off, off + 32 * n, 32 * i, 32 * i + 32);
      SliceOfSlice(t, at, at + 32 * n, 32 * i, 32 * i + 32);
    }
  }

  /** Copy bytes into a buffer at an offset. */
  method Memcpy(dst: array<byte>, off: nat, src: seq<byte>)
    requires off + |src| <= dst.Length
    modifies dst
    ensures dst[off..off + |src|] == src
    ensures SameOutside(old(dst[..]), dst[..], off, off + |src|)
  {
    forall i | 0 <= i < |src| {
      dst[off + i] := src[i];
    }
  }

  /** Write one chaining value behind n others. */
  method PutCv(dst: array<byte>, off: nat, n: nat, cv: Cv)
    requires off + 32 * n + 32 <= dst.Length
    modifies dst
    ensures CvsAt(dst[..], off, n + 1) == CvsAt(old(dst[..]), off, n) + [cv]
    ensures SameOutside(old(dst[..]), dst[..], off + 32 * n, off + 32 * n + 32)
  {
    Memcpy(dst, off + 32 * n, cv);
    CvsUnchanged(old(dst[..]), dst[..], off + 32 * n, off + 32 * n + 32, off, n);
    assert CvAt(dst[..], off, n) == cv;
    assert CvsAt(dst[..], off, n + 1) == CvsAt(dst[..], off, n) + [cv];
  }
}
