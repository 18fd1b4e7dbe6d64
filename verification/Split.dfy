/** How much of the input to hash as one subtree (the inner loop of blake3_hasher_update_base). */
module Split {
  import opened Bits

  lemma AlignedDouble(a: nat, p: nat)
    requires p >= 1
    ensures Aligned(2 * a, 2 * p) <==> Aligned(a, p)
  {
  }

  lemma {:induction false} AlignedTimes(a: nat, p: nat, j: nat)
    requires p >= 1
    ensures Aligned(Shl(a, j), Shl(p, j)) <==> Aligned(a, p)
  {
    if j > 0 {
      AlignedTimes(a, p, j - 1);
      ShlTimes(p, j - 1);
      assert p * Pow2(j - 1) >= 1;
      AlignedDouble(Shl(a, j - 1), Shl(p, j - 1));
    }
  }

  /** 1024 is 2^10. */
  lemma Times1024(x: nat)
    ensures Shl(x, 10) == 1024 * x && Pow2(10) == 1024
  {
    ShlTimes(x, 10);
  }

  /** Whole chunks: alignment in bytes is alignment in chunks. */
  lemma AlignedChunks(a: nat, p: nat)
    requires p >= 1
    ensures Aligned(1024 * a, 1024 * p) <==> Aligned(a, p)
  {
    hide *;
    Times1024(a);
    Times1024(p);
    AlignedTimes(a, p, 10);
  }

  lemma {:induction false} ShiftPow2(len: nat, j: nat)
    requires IsPow2(len) && len >= Pow2(j)
    ensures IsPow2(Shr(len, j)) && len == Shl(Shr(len, j), j)
  {
    if j > 0 {
      ShiftPow2(len / 2, j - 1);
    }
  }

  lemma ChunksOfPow2(len: nat)
    requires IsPow2(len) && len >= 1024
    ensures IsPow2(len / 1024) && len == 1024 * (len / 1024)
  {
    hide *;
    Times1024(0);
    ShiftPow2(len, 10);
    Times1024(Shr(len, 10));
    assert len / 1024 == Shr(len, 10);
  }

  /** The largest power of two that is at most inputLen and divides the count of bytes so far. */
  method SubtreeLen(inputLen: u64, chunkCounter: u64) returns (len: nat)
    requires inputLen > 1024 && 1024 * chunkCounter < 0x1_0000_0000_0000_0000
    ensures IsPow2(len) && 1024 <= len <= inputLen && Aligned(1024 * chunkCounter, len)
    ensures forall q: nat | IsPow2(q) && q <= inputLen && Aligned(1024 * chunkCounter, q) :: q <= len
    ensures IsPow2(len / 1024) && len == 1024 * (len / 1024) && Aligned(chunkCounter, len / 1024)
  {
    len := RoundDownToPowerOf2(inputLen);
    var countSoFar: u64 := chunkCounter * 1024;
    assert IsPow2(1024);
    AlignedChunks(chunkCounter, 1);
    forall q: nat | IsPow2(q) && q <= inputLen
      ensures q <= len
    {
      if q > len {
        AlignedSmaller(0, len, q);
      }
    }
    AlignedSmaller(0, 1024, 1024);
    MaskTestsAlignment(countSoFar, len);
    while And(len - 1, countSoFar) != 0
      invariant IsPow2(len) && 1024 <= len <= inputLen
      invariant And(len - 1, countSoFar) == 0 <==> Aligned(countSoFar, len)
      invariant forall q: nat | IsPow2(q) && q <= inputLen && Aligned(countSoFar, q) :: q <= len
      decreases len
    {
      forall q: nat | IsPow2(q) && q <= inputLen && Aligned(countSoFar, q)
        ensures q <= len / 2
      {
        AlignedSmaller(0, q, len);
      }
      len := len / 2;
      MaskTestsAlignment(countSoFar, len);
    }
    ChunksOfPow2(len);
    AlignedChunks(chunkCounter, len / 1024);
  }
}
