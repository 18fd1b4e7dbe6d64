/** Integer widths and the bit helpers of blake3_impl.h.

    The program's unsigned integers are naturals below an explicit bound here, and its bitwise
    operators on them are defined digit by digit in base two. */
module Bits {

  type u8 = x: nat | x < 0x100
  type u64 = x: nat | x < 0x1_0000_0000_0000_0000

  /* ---------- Powers of two ---------- */

  function Pow2(k: nat): (p: nat)
    ensures p >= 1
  {
    if k == 0 then 1 else 2 * Pow2(k - 1)
  }

  predicate IsPow2(p: nat) {
    p == 1 || (p > 1 && p % 2 == 0 && IsPow2(p / 2))
  }

  lemma {:induction false} Pow2IsPow2(k: nat)
    ensures IsPow2(Pow2(k))
  {
    if k > 0 {
      Pow2IsPow2(k - 1);
    }
  }

  lemma {:induction false} Pow2Add(i: nat, j: nat)
    ensures Pow2(i + j) == Pow2(i) * Pow2(j)
  {
    if i > 0 {
      Pow2Add(i - 1, j);
      assert Pow2(i) * Pow2(j) == 2 * (Pow2(i - 1) * Pow2(j));
    }
  }

  lemma {:induction false} MulNext(d: nat, a: nat, b: nat)
    requires a < b
    ensures d * a + d <= d * b
    decreases b
  {
    assert d * b == d * (b - 1) + d;
    if a < b - 1 {
      MulNext(d, a, b - 1);
    }
  }

  /** Division with remainder is unique. */
  lemma ModUnique(x: nat, d: nat, q: nat, r: nat)
    requires x == d * q + r && r < d
    ensures x / d == q && x % d == r
  {
    var q', r' := x / d, x % d;
    assert x == d * q' + r';
    if q > q' {
      MulNext(d, q', q);
    } else if q < q' {
      MulNext(d, q, q');
    }
  }

  lemma ModDouble(x: nat, p: nat)
    requires p > 0
    ensures (2 * x) % (2 * p) == 2 * (x % p)
    ensures (2 * x + 1) % (2 * p) == 2 * (x % p) + 1
  {
    var q, r := x / p, x % p;
    var d := 2 * p;
    assert x == p * q + r;
    assert d * q == 2 * (p * q);
    ModUnique(2 * x, d, q, 2 * r);
    ModUnique(2 * x + 1, d, q, 2 * r + 1);
  }

  /* ---------- Bitwise operators ---------- */

  function And(x: nat, y: nat): nat {
    if x == 0 || y == 0 then 0
    else 2 * And(x / 2, y / 2) + (if x % 2 == 1 && y % 2 == 1 then 1 else 0)
  }

  function Or(x: nat, y: nat): nat {
    if x == 0 then y
    else if y == 0 then x
    else 2 * Or(x / 2, y / 2) + (if x % 2 == 1 || y % 2 == 1 then 1 else 0)
  }

  lemma AndDigit(x: nat, y: nat)
    ensures And(x, y) == 2 * And(x / 2, y / 2) + (if x % 2 == 1 && y % 2 == 1 then 1 else 0)
  {
  }

  lemma ModHalf(x: nat, p: nat)
    requires p > 1 && p % 2 == 0
    ensures x % p == 2 * ((x / 2) % (p / 2)) + x % 2
  {
    ModDouble(x / 2, p / 2);
    assert x == 2 * (x / 2) + x % 2;
    assert p == 2 * (p / 2);
  }

  /** Masking with p - 1 is the remainder modulo p, for a power of two p. */
  lemma {:induction false} MaskIsMod(x: nat, p: nat)
    requires IsPow2(p)
    ensures And(x, p - 1) == x % p
    decreases p
  {
    if p > 1 {
      MaskIsMod(x / 2, p / 2);
      AndDigit(x, p - 1);
      assert (p - 1) / 2 == p / 2 - 1;
      ModHalf(x, p);
    } else {
      assert And(x, 0) == 0;
    }
  }

  function Shl(x: nat, k: nat): nat {
    if k == 0 then x else 2 * Shl(x, k - 1)
  }

  function Shr(x: nat, k: nat): nat {
    if k == 0 then x else Shr(x / 2, k - 1)
  }

  lemma {:induction false} ShrAdd(x: nat, i: nat, j: nat)
    ensures Shr(Shr(x, i), j) == Shr(x, i + j)
  {
    if i > 0 {
      ShrAdd(x / 2, i - 1, j);
    }
  }

  lemma {:induction false} ShrBound(x: nat, i: nat, j: nat)
    requires x < Pow2(i + j)
    ensures Shr(x, i) < Pow2(j)
  {
    if i > 0 {
      ShrBound(x / 2, i - 1, j);
    }
  }

  lemma {:induction false} ShrZero(x: nat, k: nat)
    ensures Shr(x, k) == 0 <==> x < Pow2(k)
  {
    if k > 0 {
      ShrZero(x / 2, k - 1);
    }
  }

  lemma {:induction false} ShrOne(x: nat, k: nat)
    requires Shr(x, k) == 1
    ensures Pow2(k) <= x < Pow2(k + 1)
  {
    if k > 0 {
      ShrOne(x / 2, k - 1);
    }
  }

  /** Testing against a mask shifted left is testing the number shifted right. */
  lemma {:induction false} AndShift(x: nat, y: nat, k: nat)
    ensures And(x, Shl(y, k)) == 0 <==> And(Shr(x, k), y) == 0
  {
    if k > 0 {
      AndShift(x / 2, y, k - 1);
      AndDigit(x, Shl(y, k));
    }
  }

  lemma {:induction false} MaskAll(x: nat, k: nat)
    requires x < Pow2(k)
    ensures And(x, Pow2(k) - 1) == x
  {
    if k > 0 {
      MaskAll(x / 2, k - 1);
      AndDigit(x, Pow2(k) - 1);
    }
  }

  /* ---------- The highest 1-bit ---------- */

  /** The largest power of two that is at most x, and 1 for x = 0. */
  function RoundDown(x: nat): nat {
    if x <= 1 then 1 else 2 * RoundDown(x / 2)
  }

  lemma {:induction false} RoundDownIsLargest(x: nat)
    ensures IsPow2(RoundDown(x))
    ensures x > 0 ==> RoundDown(x) <= x < 2 * RoundDown(x)
  {
    if x > 1 {
      RoundDownIsLargest(x / 2);
    }
  }

  lemma {:induction false} RoundDownUnique(x: nat, p: nat)
    requires IsPow2(p) && p <= x < 2 * p
    ensures RoundDown(x) == p
    decreases p
  {
    if p > 1 {
      RoundDownUnique(x / 2, p / 2);
    }
  }

  lemma {:induction false} ShlTimes(x: nat, k: nat)
    ensures Shl(x, k) == x * Pow2(k)
  {
    if k > 0 {
      ShlTimes(x, k - 1);
      assert x * Pow2(k) == 2 * (x * Pow2(k - 1));
    }
  }

  /** Testing the upper half of x's 2*w digits against a mask is comparing x with 2^w. */
  lemma UpperHalf(x0: nat, x: nat, c: nat, w: nat, mask: nat)
    requires x == Shr(x0, c) && x < Pow2(w + w)
    requires mask == (Pow2(w) - 1) * Pow2(w)
    ensures And(x, mask) != 0 ==> Shr(x, w) == Shr(x0, c + w) && 0 < Shr(x, w) < Pow2(w)
    ensures And(x, mask) == 0 ==> x < Pow2(w)
  {
    ShlTimes(Pow2(w) - 1, w);
    ShrAdd(x0, c, w);
    ShrBound(x, w, w);
    ShrZero(x, w);
    AndShift(x, Pow2(w) - 1, w);
    MaskAll(Shr(x, w), w);
  }

  lemma Pow2Small()
    ensures Pow2(1) == 2 && Pow2(2) == 4 && Pow2(4) == 0x10 && Pow2(8) == 0x100
  {
  }

  lemma Pow2Values()
    ensures Pow2(1) == 2 && Pow2(2) == 4 && Pow2(4) == 0x10 && Pow2(8) == 0x100
    ensures Pow2(16) == 0x1_0000 && Pow2(32) == 0x1_0000_0000
    ensures Pow2(64) == 0x1_0000_0000_0000_0000
  {
    Pow2Small();
    hide Pow2;
    Pow2Add(8, 8);
    Pow2Add(16, 16);
    Pow2Add(32, 32);
  }

  /** One line of the binary search for the highest 1-bit of x0: when the upper half of x's
      digits is not all zero, shift it down. */
  method SearchStep(x0: u64, x: nat, c: nat, w: nat, mask: nat) returns (x': nat, c': nat)
    requires x == Shr(x0, c) && x < Pow2(w + w) && (x0 > 0 ==> x > 0)
    requires mask == (Pow2(w) - 1) * Pow2(w)
    ensures x' == Shr(x0, c') && x' < Pow2(w) && (x0 > 0 ==> x' > 0)
    ensures c <= c' <= c + w && (x0 == 0 ==> c' == c)
  {
    UpperHalf(x0, x, c, w, mask);
    if And(x, mask) != 0 {
      x', c' := Shr(x, w), c + w;
    } else {
      x', c' := x, c;
    }
    ShrZero(x0, c);
  }

  /** The index of the highest 1-bit, by binary search on halves (0 for x = 0). */
  method HighestOne(x0: u64) returns (c: nat)
    ensures x0 > 0 ==> Pow2(c) <= x0 < Pow2(c + 1)
    ensures c < 64 && (x0 == 0 ==> c == 0)
  {
    Pow2Values();
    var x: nat := x0;
    c := 0;
    x, c := SearchStep(x0, x, c, 32, 0xffff_ffff_0000_0000);
    x, c := SearchStep(x0, x, c, 16, 0x0000_0000_ffff_0000);
    x, c := SearchStep(x0, x, c, 8, 0x0000_0000_0000_ff00);
    x, c := SearchStep(x0, x, c, 4, 0x0000_0000_0000_00f0);
    x, c := SearchStep(x0, x, c, 2, 0x0000_0000_0000_000c);
    x, c := SearchStep(x0, x, c, 1, 0x0000_0000_0000_0002);
    if x0 > 0 {
      ShrOne(x0, c);
    }
  }

  /** The largest power of two less than or equal to x; 1 when x is 0. */
  method RoundDownToPowerOf2(x: u64) returns (p: nat)
    ensures p == RoundDown(x)
    ensures IsPow2(p) && (x > 0 ==> p <= x < 2 * p)
  {
    RoundDownOdd(x);
    var c := HighestOne(Or(x, 1));
    p := Pow2(c);
    Pow2IsPow2(c);
    RoundDownUnique(Or(x, 1), p);
    RoundDownIsLargest(x);
  }

  /** Setting the lowest bit does not change which power of two lies at or below x. */
  lemma RoundDownOdd(x: nat)
    ensures Or(x, 1) == (if x % 2 == 1 then x else x + 1) && RoundDown(Or(x, 1)) == RoundDown(x)
  {
  }

  /* ---------- Counting 1-bits ---------- */

  function PopCount(x: nat): nat {
    if x == 0 then 0 else x % 2 + PopCount(x / 2)
  }

  /** The largest power of two that divides x. */
  function LowBit(x: nat): (p: nat)
    requires x > 0
    ensures 1 <= p <= x && IsPow2(p)
  {
    if x % 2 == 1 then 1 else 2 * LowBit(x / 2)
  }

  /** Removing the lowest 1-bit leaves a multiple of the next power of two. */
  lemma {:induction false} LowBitRemoved(x: nat)
    requires x > 0
    ensures x > LowBit(x) ==> LowBit(x - LowBit(x)) >= 2 * LowBit(x)
    ensures PopCount(x) == PopCount(x - LowBit(x)) + 1
  {
    if x % 2 == 0 {
      LowBitRemoved(x / 2);
      assert (x - LowBit(x)) / 2 == x / 2 - LowBit(x / 2);
    }
  }

  /** x & (x - 1) clears the lowest 1-bit. */
  lemma {:induction false} ClearLowest(x: nat)
    requires x > 0
    ensures And(x, x - 1) == x - LowBit(x)
  {
    if x % 2 == 0 {
      ClearLowest(x / 2);
      assert (x - 1) / 2 == x / 2 - 1;
    } else {
      MaskSelf(x / 2);
    }
  }

  lemma {:induction false} MaskSelf(x: nat)
    ensures And(x, x) == x
  {
    if x > 0 {
      MaskSelf(x / 2);
    }
  }

  /** The number of 1-bits, by clearing them one at a time. */
  method Popcnt(x0: u64) returns (count: nat)
    ensures count == PopCount(x0)
  {
    var x: nat := x0;
    count := 0;
    while x != 0
      invariant count + PopCount(x) == PopCount(x0)
    {
      ClearLowest(x);
      LowBitRemoved(x);
      count := count + 1;
      x := And(x, x - 1);
    }
  }

  lemma {:induction false} PopCountBound(x: nat, k: nat)
    requires x < Pow2(k)
    ensures PopCount(x) <= k
  {
    if x > 0 {
      PopCountBound(x / 2, k - 1);
    }
  }

  /** Adding p to a multiple b of p sets a clear bit, or carries out of a set one.  So the number
      of 1-bits tells whether b ends in exactly p. */
  lemma {:induction false} Carry(b: nat, p: nat)
    requires IsPow2(p) && Aligned(b, p)
    ensures b > 0 && LowBit(b) == p ==> PopCount(b + p) <= PopCount(b)
    ensures b == 0 || LowBit(b) != p ==> PopCount(b + p) == PopCount(b) + 1 && LowBit(b + p) == p
    decreases p
  {
    if p == 1 {
      if b % 2 == 1 {
        Increment(b / 2);
        assert (b + 1) / 2 == b / 2 + 1;
      }
    } else {
      Carry(b / 2, p / 2);
      assert (b + p) / 2 == b / 2 + p / 2 && (b + p) % 2 == 0;
      hide Aligned, IsPow2;
    }
  }

  lemma {:induction false} Increment(x: nat)
    ensures PopCount(x + 1) <= PopCount(x) + 1
  {
    if x % 2 == 1 {
      Increment(x / 2);
      assert (x + 1) / 2 == x / 2 + 1;
    }
  }

  /* ---------- Alignment ---------- */

  /** The power of two p divides a. */
  predicate Aligned(a: nat, p: nat)
    decreases p
  {
    p <= 1 || (a % 2 == 0 && Aligned(a / 2, p / 2))
  }

  lemma {:induction false} AlignedIsDivisible(a: nat, p: nat)
    requires IsPow2(p)
    ensures Aligned(a, p) <==> a % p == 0
    decreases p
  {
    if p > 1 {
      AlignedIsDivisible(a / 2, p / 2);
      ModHalf(a, p);
    }
  }

  /** x & (p - 1) tests whether p divides x. */
  lemma MaskTestsAlignment(x: nat, p: nat)
    requires IsPow2(p)
    ensures And(p - 1, x) == 0 <==> Aligned(x, p)
  {
    AndCommutes(p - 1, x);
    MaskIsMod(x, p);
    AlignedIsDivisible(x, p);
  }

  lemma {:induction false} AndCommutes(x: nat, y: nat)
    ensures And(x, y) == And(y, x)
  {
    if x > 0 && y > 0 {
      AndCommutes(x / 2, y / 2);
    }
  }

  lemma {:induction false} AlignedSum(a: nat, b: nat, p: nat)
    requires Aligned(a, p)
    ensures Aligned(b, p) <==> Aligned(a + b, p)
    decreases p
  {
    if p > 1 {
      AlignedSum(a / 2, b / 2, p / 2);
      if b % 2 == 0 {
        assert (a + b) / 2 == a / 2 + b / 2;
      }
    }
  }

  /** Of two powers of two the smaller divides the larger, and all the larger divides. */
  lemma {:induction false} AlignedSmaller(a: nat, p: nat, q: nat)
    requires IsPow2(p) && IsPow2(q) && p <= q
    ensures Aligned(q, p)
    ensures Aligned(a, q) ==> Aligned(a, p)
    ensures p < q ==> 2 * p <= q
    decreases p
  {
    if p > 1 {
      AlignedSmaller(a / 2, p / 2, q / 2);
    }
  }

  /** The lowest 1-bit of a is the largest power of two that divides it. */
  lemma {:induction false} LowBitAligned(a: nat, p: nat)
    requires a > 0 && IsPow2(p)
    ensures Aligned(a, p) <==> p <= LowBit(a)
    decreases p
  {
    if p > 1 && a % 2 == 0 {
      LowBitAligned(a / 2, p / 2);
    }
  }

  /** An aligned run of length p lies wholly on one side of an aligned boundary. */
  lemma {:induction false} AlignedSide(a: nat, l: nat, p: nat)
    requires IsPow2(p) && Aligned(a, p) && Aligned(l, p)
    ensures a < l ==> a + p <= l
    ensures a >= l ==> Aligned(a - l, p)
    decreases p
  {
    if p > 1 {
      AlignedSide(a / 2, l / 2, p / 2);
      if a >= l {
        assert (a - l) / 2 == a / 2 - l / 2;
      }
    }
  }

  /* ---------- The split of a tree over n > 1 leaves ---------- */

  /** The largest power of two strictly below n. */
  function LeftPow(n: nat): nat
    requires n >= 2
  {
    if n == 2 then 1 else 2 * LeftPow((n + 1) / 2)
  }

  lemma {:induction false} LeftPowIsLargest(n: nat)
    requires n >= 2
    ensures IsPow2(LeftPow(n)) && LeftPow(n) < n <= 2 * LeftPow(n)
  {
    if n > 2 {
      LeftPowIsLargest((n + 1) / 2);
    }
  }

  lemma {:induction false} LeftPowUnique(n: nat, p: nat)
    requires n >= 2 && IsPow2(p) && p < n <= 2 * p
    ensures LeftPow(n) == p
    decreases p
  {
    if p > 1 {
      LeftPowUnique((n + 1) / 2, p / 2);
    }
  }
}
