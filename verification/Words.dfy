/** Bytes, 32-bit words and their little-endian encoding (blake3_impl.h). */
module Words {
  import opened Bits

  type byte = bv8
  type word = bv32

  /** A key or chaining value as bytes and as words, and a message block. */
  type Cv = b: seq<byte> | |b| == 32 witness seq(32, _ => 0)
  type Words8 = w: seq<word> | |w| == 8 witness seq(8, _ => 0)
  type Block = b: seq<byte> | |b| == 64 witness seq(64, _ => 0)

  const IV: Words8 := [0x6A09E667, 0xBB67AE85, 0x3C6EF372, 0xA54FF53A,
                       0x510E527F, 0x9B05688C, 0x1F83D9AB, 0x5BE0CD19]

  /** Read a word from four bytes. */
  function Load32(b: seq<byte>): (w: word)
    requires |b| == 4
  {
    (b[0] as word) | ((b[1] as word) << 8) | ((b[2] as word) << 16) | ((b[3] as word) << 24)
  }

  /** Write a word as four bytes. */
  function Store32(w: word): (b: seq<byte>)
    ensures |b| == 4
  {
    [(w & 0xff) as byte, ((w >> 8) & 0xff) as byte,
     ((w >> 16) & 0xff) as byte, ((w >> 24) & 0xff) as byte]
  }

  lemma LoadStore32(w: word)
    ensures Load32(Store32(w)) == w
  {
    var b0, b1, b2, b3 := (w & 0xff) as byte, ((w >> 8) & 0xff) as byte,
                          ((w >> 16) & 0xff) as byte, ((w >> 24) & 0xff) as byte;
    assert Store32(w) == [b0, b1, b2, b3];
  }

  lemma LowBytes(b0: byte, b1: byte, b2: byte, b3: byte)
    ensures var w := (b0 as word) | ((b1 as word) << 8) | ((b2 as word) << 16) | ((b3 as word) << 24);
            (w & 0xff) == b0 as word && ((w >> 8) & 0xff) == b1 as word
  {
  }

  lemma HighBytes(b0: byte, b1: byte, b2: byte, b3: byte)
    ensures var w := (b0 as word) | ((b1 as word) << 8) | ((b2 as word) << 16) | ((b3 as word) << 24);
            ((w >> 16) & 0xff) == b2 as word && ((w >> 24) & 0xff) == b3 as word
  {
  }

  lemma StoreLoad32(b: seq<byte>)
    requires |b| == 4
    ensures Store32(Load32(b)) == b
  {
    LowBytes(b[0], b[1], b[2], b[3]);
    HighBytes(b[0], b[1], b[2], b[3]);
  }

  /** The words of a byte string, in order. */
  function LoadWords(b: seq<byte>): (w: seq<word>)
    requires |b| % 4 == 0
    ensures |w| == |b| / 4
  {
    seq(|b| / 4, i requires 0 <= i < |b| / 4 => Load32(b[4 * i..4 * i + 4]))
  }

  /** The bytes of a string of words, in order. */
  function StoreWords(w: seq<word>): (b: seq<byte>)
    ensures |b| == 4 * |w|
  {
    seq(4 * |w|, i requires 0 <= i < 4 * |w| => Store32(w[i / 4])[i % 4])
  }

  lemma WordAt(w: seq<word>, k: nat)
    requires k < |w|
    ensures StoreWords(w)[4 * k..4 * k + 4] == Store32(w[k])
  {
    hide Store32;
    var b, word := StoreWords(w), Store32(w[k]);
    forall j | 0 <= j < 4
      ensures b[4 * k + j] == word[j]
    {
      assert (4 * k + j) / 4 == k && (4 * k + j) % 4 == j;
    }
  }

  lemma LoadStoreWords(w: seq<word>)
    ensures LoadWords(StoreWords(w)) == w
  {
    hide Store32, Load32, StoreWords;
    forall k | 0 <= k < |w|
      ensures LoadWords(StoreWords(w))[k] == w[k]
    {
      WordAt(w, k);
      LoadStore32(w[k]);
    }
  }

  lemma StoreLoadWords(b: seq<byte>)
    requires |b| % 4 == 0
    ensures StoreWords(LoadWords(b)) == b
  {
    hide Store32, Load32;
    forall i | 0 <= i < |b|
      ensures StoreWords(LoadWords(b))[i] == b[i]
    {
      var k := i / 4;
      assert i == 4 * k + i % 4;
      StoreLoad32(b[4 * k..4 * k + 4]);
    }
  }
}
