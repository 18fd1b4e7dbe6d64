/** Starting a hasher in each mode, and whole histories of calls on one. */
module Api {
  import opened Bits
  import opened Words
  import opened Spec
  import opened Kernel
  import opened Wide
  import opened RootOutput
  import opened Hasher
  import opened Portable

  /** What the dispatcher asks of a processor; neon is fixed by the build. */
  datatype Features =
    Features(avx512f: bool, avx512vl: bool, avx2: bool, sse41: bool, sse2: bool, neon: bool)

  /** What the x86 kernels compute. */
  datatype Kernels = Kernels(avx512: Compressor, sse41: Compressor, sse2: Compressor) {
    ghost predicate Agree() {
      avx512 == sse41 == sse2 == PortableCompress
    }
  }

  /** The most inputs any kernel of a build takes at a time. */
  function MaxSimdDegree(x86: bool, neon: bool): nat {
    if x86 then 16 else if neon then 4 else 1
  }

  /** The number of inputs hashed side by side. */
  function SimdDegree(x86: bool, f: Features): nat {
    if x86 && f.avx512f && f.avx512vl then 16
    else if x86 && f.avx2 then 8
    else if x86 && f.sse41 then 4
    else if x86 && f.sse2 then 4
    else if !x86 && f.neon then 4
    else 1
  }

  /** The code that compresses one block. */
  function ChooseEngine(x86: bool, f: Features, k: Kernels): Engine {
    if x86 && f.avx512vl then SimdCode(k.avx512)
    else if x86 && f.sse41 then SimdCode(k.sse41)
    else if x86 && f.sse2 then SimdCode(k.sse2)
    else PortableCode(PortableCompress)
  }

  function Detect(x86: bool, f: Features, k: Kernels): Platform {
    Platform(ChooseEngine(x86, f, k), SimdDegree(x86, f), MaxSimdDegree(x86, f.neon))
  }

  /** Every degree the dispatcher can choose is one the tree hashing is proved for, and without
      the x86 features it chooses the portable code. */
  lemma DispatchIsValid(x86: bool, f: Features, k: Kernels)
    ensures Detect(x86, f, k).Valid()
    ensures !(x86 && (f.avx512vl || f.sse41 || f.sse2)) || k.Agree() ==>
              Detect(x86, f, k).Compress() == PortableCompress
    ensures Detect(x86, f, k).engine.PortableCode? <==> !(x86 && (f.avx512vl || f.sse41 || f.sse2))
    ensures var d := Detect(x86, f, k).degree;
            && (d == 16 <==> x86 && f.avx512f && f.avx512vl)
            && (d == 8 <==> x86 && f.avx2 && !(f.avx512f && f.avx512vl))
            && (d == 1 <==> if x86 then !((f.avx512f && f.avx512vl) || f.avx2 || f.sse41 || f.sse2) else !f.neon)
  {
    hide PortableCompress;
    assert IsPow2(2) && IsPow2(4) && IsPow2(8);
  }

  method Init(platform: Platform) returns (h: Hasher)
    requires platform.Valid()
    ensures h.Valid() && fresh(h.Footprint()) && h.absorbed == []
    ensures h.platform == platform && h.Hashing() == PlainMode(platform.Compress())
    ensures h.Hashing() == Mode(platform.Compress(), StoreWords(IV), 0)
  {
    h := new Hasher(platform, IV, 0);
  }

  method InitKeyed(platform: Platform, key: Cv) returns (h: Hasher)
    requires platform.Valid()
    ensures h.Valid() && fresh(h.Footprint()) && h.absorbed == []
    ensures h.platform == platform && h.Hashing() == KeyedMode(platform.Compress(), key)
    ensures h.Hashing() == Mode(platform.Compress(), key, 16)
  {
    StoreLoadWords(key);
    h := new Hasher(platform, LoadWords(key), KEYED_HASH);
  }

  /** Hash the context in one mode, and hash what follows in another, under that hash as key. */
  method InitDeriveKeyRaw(platform: Platform, context: seq<byte>) returns (h: Hasher)
    requires platform.Valid() && |context| < 0x1_0000_0000_0000_0000
    ensures h.Valid() && fresh(h.Footprint()) && h.absorbed == []
    ensures h.platform == platform && h.Hashing() == DeriveKeyMode(platform.Compress(), context)
    ensures var f := platform.Compress();
            var o := SubtreeOutput(Mode(f, StoreWords(IV), 32), context, 0);
            h.Hashing() == Mode(f, f(o.(counter := 0, flags := o.flags | 8))[..32], 64)
  {
    hide SubtreeOutput, RootBytes, StoreWords, LoadWords, Hasher.Shape;
    ghost var t := new Trace();
    var contextHasher := new Hasher(platform, IV, DERIVE_KEY_CONTEXT);
    contextHasher.Update(context);
    assert [] + context == context;
    var contextKey := new byte[32](_ => 0);
    contextHasher.FinalizeSeek(0, contextKey, t);
    ContextKey(platform.Compress(), context);
    StoreLoadWords(contextKey[..]);
    h := new Hasher(platform, LoadWords(contextKey[..]), DERIVE_KEY_MATERIAL);
  }

  /** The derived key is the first half of one compression. */
  lemma ContextKey(f: Compressor, context: seq<byte>)
    ensures var m := Mode(f, StoreWords(IV), 32);
            var o := SubtreeOutput(m, context, 0);
            Hash(m, context, 0, 32) == f(o.(counter := 0, flags := o.flags | 8))[..32]
  {
    hide SubtreeOutput, RootBytes, StoreWords, Hash;
    var m := Mode(f, StoreWords(IV), 32);
    HashBlock(m, context, 0);
    HashJoin(m, context, 0, 32, 32);
    assert Hash(m, context, 64 * 0, 64) == Hash(m, context, 0, 32 + 32);
  }

  /* ---------- Histories ---------- */

  datatype Call = Update(input: seq<byte>) | Finalize(seek: u64, n: u64) | Reset

  /** What the calls are specified to output, when some bytes have been absorbed before: each
      finalize hashes the bytes since the last reset. */
  function Outputs(m: Mode, calls: seq<Call>, soFar: seq<byte>): seq<seq<byte>> {
    if calls == [] then []
    else match calls[0]
      case Update(input) => Outputs(m, calls[1..], soFar + input)
      case Finalize(seek, n) => [Hash(m, soFar, seek, n)] + Outputs(m, calls[1..], soFar)
      case Reset => Outputs(m, calls[1..], [])
  }

  /** No message of the history reaches 2^64 bytes. */
  predicate Fits(calls: seq<Call>, soFar: nat) {
    soFar < 0x1_0000_0000_0000_0000 &&
    (calls == [] ||
     match calls[0]
     case Update(input) => Fits(calls[1..], soFar + |input|)
     case Finalize(_, _) => Fits(calls[1..], soFar)
     case Reset => Fits(calls[1..], 0))
  }

  /** Any sequence of calls on a hasher outputs what is specified. */
  method Perform(h: Hasher, calls: seq<Call>) returns (outputs: seq<seq<byte>>)
    requires h.Valid() && Fits(calls, |h.absorbed|)
    modifies h.Footprint()
    ensures h.Valid()
    ensures outputs == Outputs(h.Hashing(), calls, old(h.absorbed))
  {
    hide Hash, Hasher.Valid;
    outputs := [];
    var i := 0;
    while i < |calls|
      invariant i <= |calls|
      invariant h.Valid() && Fits(calls[i..], |h.absorbed|)
      invariant outputs + Outputs(h.Hashing(), calls[i..], h.absorbed)
             == Outputs(h.Hashing(), calls, old(h.absorbed))
      decreases |calls| - i
    {
      assert calls[i..][1..] == calls[i + 1..];
      match calls[i] {
        case Update(input) =>
          h.Update(input);
        case Finalize(seek, n) =>
          var out := new byte[n](_ => 0);
          ghost var t := new Trace();
          h.FinalizeSeek(seek, out, t);
          outputs := outputs + [out[..]];
        case Reset =>
          h.ValidAllocated();
          h.Reset();
      }
      i := i + 1;
    }
  }

  /* ---------- What outputs depend on ---------- */

  /** A finalize: the bytes absorbed since the last reset, and the window of their hash asked for. */
  datatype Request = Request(message: seq<byte>, seek: u64, n: u64)

  /** The finalizes of a history, when some bytes have been absorbed before. */
  function Requests(calls: seq<Call>, soFar: seq<byte>): seq<Request> {
    if calls == [] then []
    else match calls[0]
      case Update(input) => Requests(calls[1..], soFar + input)
      case Finalize(seek, n) => [Request(soFar, seek, n)] + Requests(calls[1..], soFar)
      case Reset => Requests(calls[1..], [])
  }

  /** What is requested before a reset and what after it do not depend on each other. */
  lemma {:induction false} ResetSeparates(before: seq<Call>, after: seq<Call>, soFar: seq<byte>)
    ensures Requests(before + [Reset] + after, soFar) == Requests(before, soFar) + Requests(after, [])
  {
    var all := before + [Reset] + after;
    if before == [] {
      assert all[1..] == after;
    } else {
      assert all[1..] == before[1..] + [Reset] + after;
      match before[0]
      case Update(input) => ResetSeparates(before[1..], after, soFar + input);
      case Finalize(_, _) => ResetSeparates(before[1..], after, soFar);
      case Reset => ResetSeparates(before[1..], after, []);
    }
  }

  /** One output for each. */
  lemma {:induction false} OutputsAnswer(m: Mode, calls: seq<Call>, soFar: seq<byte>)
    ensures |Outputs(m, calls, soFar)| == |Requests(calls, soFar)|
    ensures forall i | 0 <= i < |Requests(calls, soFar)| ::
              var r := Requests(calls, soFar)[i];
              Outputs(m, calls, soFar)[i] == Hash(m, r.message, r.seek, r.n)
  {
    hide Hash;
    if calls != [] {
      match calls[0]
      case Update(input) => OutputsAnswer(m, calls[1..], soFar + input);
      case Finalize(_, _) => OutputsAnswer(m, calls[1..], soFar);
      case Reset => OutputsAnswer(m, calls[1..], []);
    }
  }

  /** Two hashers in the same mode give the same outputs for any two histories that request the
      same, however the messages are cut into updates, whatever was absorbed before a reset, and
      whatever kernels and degrees the two use for the same compression. */
  method PerformBoth(h1: Hasher, h2: Hasher, calls1: seq<Call>, calls2: seq<Call>)
    returns (outputs1: seq<seq<byte>>, outputs2: seq<seq<byte>>)
    requires h1.Valid() && h2.Valid() && h1.Footprint() !! h2.Footprint()
    requires Fits(calls1, |h1.absorbed|) && Fits(calls2, |h2.absorbed|)
    requires h1.Hashing() == h2.Hashing()
    requires Requests(calls1, h1.absorbed) == Requests(calls2, h2.absorbed)
    modifies h1.Footprint(), h2.Footprint()
    ensures outputs1 == outputs2
  {
    hide Hash, Fits, Outputs, Hasher.Valid, Hasher.Hashing;
    OutputsAnswer(h1.Hashing(), calls1, h1.absorbed);
    OutputsAnswer(h2.Hashing(), calls2, h2.absorbed);
    outputs1 := Perform(h1, calls1);
    outputs2 := Perform(h2, calls2);
  }

  function Concat(pieces: seq<seq<byte>>): seq<byte> {
    if pieces == [] then [] else pieces[0] + Concat(pieces[1..])
  }

  function Updates(pieces: seq<seq<byte>>): seq<Call> {
    seq(|pieces|, i requires 0 <= i < |pieces| => Update(pieces[i]))
  }

  /** Absorbing a message in pieces requests, in whatever calls follow, what absorbing it at once
      does. */
  lemma {:induction false} PiecesDoNotMatter(pieces: seq<seq<byte>>, calls: seq<Call>, soFar: seq<byte>)
    ensures Requests(Updates(pieces) + calls, soFar) == Requests([Update(Concat(pieces))] + calls, soFar)
  {
    var all := Updates(pieces) + calls;
    assert ([Update(Concat(pieces))] + calls)[1..] == calls;
    if pieces == [] {
      assert all == calls && soFar + [] == soFar;
    } else {
      var rest := pieces[1..];
      assert all[1..] == Updates(rest) + calls;
      PiecesDoNotMatter(rest, calls, soFar + pieces[0]);
      assert ([Update(Concat(rest))] + calls)[1..] == calls;
      assert soFar + Concat(pieces) == (soFar + pieces[0]) + Concat(rest);
    }
  }

  /* ---------- One message ---------- */

  /** Hash one message, on any processor: with the portable code if it has no x86 features, and
      otherwise to the same bytes if the kernels it picks from compute what the portable code
      does. */
  method HashMessage(x86: bool, f: Features, k: Kernels, input: seq<byte>, out: array<byte>)
    requires |input| < 0x1_0000_0000_0000_0000 && out.Length < 0x1_0000_0000_0000_0000
    modifies out
    ensures out[..] == Hash(PlainMode(Detect(x86, f, k).Compress()), input, 0, out.Length)
    ensures !(x86 && (f.avx512vl || f.sse41 || f.sse2)) || k.Agree() ==>
              out[..] == Hash(PlainMode(PortableCompress), input, 0, out.Length)
  {
    hide Hash, SubtreeOutput, PortableCompress, StoreWords, Detect, Hasher.Shape;
    DispatchIsValid(x86, f, k);
    var h := Init(Detect(x86, f, k));
    h.Update(input);
    assert [] + input == input;
    ghost var t := new Trace();
    h.FinalizeSeek(0, out, t);
  }
}
