# BLAKE3 tree hasher

This project models the C code of the BLAKE3 hasher that the Kotlin bindings ship
(`blake3.c`, `blake3_portable.c`, `blake3_impl.h` and the selection logic of `blake3_dispatch.c`)
and proves that it computes what "BLAKE3: one function, fast everywhere" specifies.

The specification is a short recursion: cut the message into 1024-byte chunks, put the largest
power-of-two number of chunks that leaves at least one byte on the right into the left subtree,
and compress the two children's chaining values into their parent. `Spec.dfy` writes it as pure
functions on bytes (sections 2.1 to 2.6): `ChunkOutput`, `SubtreeOutput`, `RootBytes`, `Hash` and
the three modes. The C code reaches the same bytes very differently, and the proofs follow it:

- `Chunk.dfy`: the chunk state, which buffers a block and always holds back the last one.
- `Wide.dfy`, `Pairing.dfy`: hashing a whole subtree while keeping up to `degree` chaining values
  side by side, possibly from different tree levels, paired up with an odd one carried over.
- `Tree.dfy`, `Split.dfy`, `Hasher.dfy`: the stack of chaining values merged lazily by counting
  1-bits, the update loop that picks aligned subtrees, and the roll-up at the end.
- `Parents.dfy`: which parents are compressed on the way, and that none of them is the root.
- `RootOutput.dfy`: seekable extendable output.
- `Kernel.dfy`, `Portable.dfy`: the block loops over a kernel, and the portable kernel against
  section 2.2.
- `Laws.dfy`, `Collisions.dfy`, `KnownAnswer.dfy`: what pins the specification itself down.
- `Bits.dfy`, `Words.dfy`, `Buffers.dfy`: bit helpers, little-endian words, byte buffers.
- `Api.dfy`: starting a hasher in each mode, and whole histories of calls.

The hasher's concrete state is not a function of the bytes absorbed: 2048 bytes in one update leave
two stacked chaining values and an empty chunk, 1024 and then 1024 leave one and a full chunk.
`Hasher.Valid` therefore describes all the shapes a state can have. In every one of them the stack
is the frontier of some multiple b of a power of two p (one entry per 1-bit of b) with one more
entry for the p chunks after those on top. That single shape covers a merged stack, a stack one
chunk ahead, and the two halves of a subtree just hashed, and each step of lazy merging keeps it.

A specification can be wrong together with the code, so its definitions are held to facts stated
without them. `Laws.dfy` gives the nodes in numbers and slices of the message, the flags as bits, the
layout of the state and the initialisation words as square roots; `RootOutput.HashBlock` and
`RootOutput.HashJoin` say what every window of a hash is. `Collisions.HashCollision` shows that nothing
is lost on the way: two hashes of at least 32 bytes that agree although messages, keys or modes differ
come down to two different compressions with one chaining value. `KnownAnswer.ExpectedOutput` proves
the 40 bytes that a test of the repository expects from the specification, through all seven rounds.

Lazy merging exists so that the root is never compressed to a chaining value. That is stated about
the compressions that run: `Kernel.CompressInPlace` and `Kernel.CompressXof`, through which every
compression goes, record nodes in a ghost `Trace` that callers have to hand them (of the nodes
compressed to chaining values those with the parent's or the root's flag, of those compressed to
output all), and from there up every contract says exactly which sets the trace grows by. In
`Hasher.Valid` the trace is therefore an exact function of the bytes absorbed and the chunk count.
`Hasher.Hasher.OnlyBelowRoot` shows that every node in it is a node of the specification's tree that
stays below the root in the message so far and in every longer one; `Hasher.Hasher.RootSeparation`
that nodes compressed to output have the root's flag and no others ever do.

The tree proofs hold for every compression function. The program picks a kernel at run time; a
`Platform` holds an `Engine` (the portable code, or a SIMD kernel known by the function it computes),
its SIMD degree, and the most any kernel of the build takes, and the results are for every
power-of-two degree. With the portable engine the methods run the methods of `Portable.dfy`;
`Api.HashMessage` puts the two together for every choice of the dispatcher.

Conventions. The unsigned fields, and the counters the loops add to, are naturals with their bounds
in the type (`u8`, `u64`), so assigning to them proves that nothing wraps; positions in a buffer are
natural numbers bounded by its length, as are the counters in the specification's nodes, which have
to fit 64 bits before a node is compressed. Pointers into a buffer are an array and an offset; read-only
inputs are sequences. Keys and chaining values are 32 bytes in the specification and eight words
where the code has words; `output_t` holds its input chaining value as bytes. The repeated fragment
"initialise a chunk state, update it, take its chaining value" is the method `Chunk.HashChunk`, and
`blake3_hasher_update_base` is cut into one method for each of its parts. A proof that does not
need a definition says so with `hide`.

Where a comment and the code differ the code is followed: blake3.c:624-626 says that without bytes
in the chunk state the top of the stack is a chunk hash, but it is the right half of the last
subtree, of any power-of-two size (`Hasher.Hasher.StackBehindNothing`).

## Model

| member | source | states |
|---|---|---|
| Bits.MaskIsMod | blake3-kmp/native/blake3_c/blake3.c:527-542 | The mask trick is a remainder: for every power of two p, x & (p-1) is x modulo p. |
| Bits.MaskTestsAlignment | blake3-kmp/native/blake3_c/blake3.c:542-544 | The loop condition is false exactly when the power of two divides the count so far. |
| Bits.AlignedIsDivisible | blake3-kmp/native/blake3_c/blake3.c:518-521 | The digit-wise notion of alignment used throughout is divisibility. |
| Bits.UpperHalf | blake3-kmp/native/blake3_c/blake3_impl.h:120-127 | Testing a number of 2w digits against the mask of its upper half is comparing it with 2^w, and the shift leaves a number of w digits. |
| Bits.SearchStep | blake3-kmp/native/blake3_c/blake3_impl.h:121-126 | One line of the search keeps x equal to x0 shifted right by c, nonzero if x0 is, and halves its digits. |
| Bits.HighestOne | blake3-kmp/native/blake3_c/blake3_impl.h:100-129 | For every x > 0 the result c satisfies 2^c <= x < 2^(c+1); for 0 it is 0; it is below 64. |
| Bits.RoundDownIsLargest | blake3-kmp/native/blake3_c/blake3_impl.h:145-149 | Rounding down gives a power of two p with p <= x < 2p; the method takes its bounds from this. |
| Bits.RoundDownToPowerOf2 | blake3-kmp/native/blake3_c/blake3_impl.h:145-149 | Shifting 1 by the highest 1-bit of x or 1 gives the largest power of two at most x, and 1 for 0. |
| Bits.ClearLowest | blake3-kmp/native/blake3_c/blake3_impl.h:136-140 | x & (x-1) removes exactly the largest power of two that divides x. |
| Bits.LowBitRemoved | blake3-kmp/native/blake3_c/blake3_impl.h:136-140 | Doing so lowers the number of 1-bits by one and leaves a multiple of the next power. |
| Bits.Popcnt | blake3-kmp/native/blake3_c/blake3_impl.h:131-143 | The clearing loop counts the 1-bits of every 64-bit number. |
| Bits.Carry | blake3-kmp/native/blake3_c/blake3.c:415-434 | Adding p to a multiple b of p raises the number of 1-bits exactly when p is not the lowest 1-bit of b: why a bit count can drive the merging. |
| Bits.PopCountBound | blake3-kmp/native/blake3_c/blake3.h:38-60 | A number below 2^k has at most k 1-bits. |
| Laws.IvIsRoots | blake3-kmp/native/blake3_c/blake3_impl.h:86-88 | With the first eight primes p and the whole parts of their roots in front, each initialisation word is exactly the first 32 bits of the fraction of the square root of p. |
| Laws.WordValue | blake3-kmp/native/blake3_c/blake3_impl.h:157-161 | Four bytes are loaded as the number they are with the lowest byte first. |
| Words.LoadStore32 | blake3-kmp/native/blake3_c/blake3_impl.h:157-188 | A stored word loads back. |
| Words.StoreLoad32 | blake3-kmp/native/blake3_c/blake3_impl.h:157-188 | Four loaded bytes store back. |
| Words.LoadStoreWords | blake3-kmp/native/blake3_c/blake3_impl.h:163-199 | Words stored to bytes load back as the same words. |
| Words.StoreLoadWords | blake3-kmp/native/blake3_c/blake3_impl.h:163-199 | Bytes loaded as words store back as the same bytes. |
| Spec.LeftLenUnique | blake3-kmp/native/blake3_c/blake3.c:159-167 | The specification's split is the only power-of-two number of chunks with at least one byte and no more bytes than itself to its right. |
| Laws.FlagBits | blake3-kmp/native/blake3_c/blake3_impl.h:17-25 | The seven flags are bits 0 to 6 in this order. |
| Laws.ChunkChain | blake3-kmp/native/blake3_c/blake3.c:119-152 | For every input of at most 1024 bytes: one compression per block from the key on, the first with bit 0; the node takes the last one to 64 bytes, their exact number and zeros behind them, with bit 1, and with bit 0 if there is only one block. |
| Laws.ParentNode | blake3-kmp/native/blake3_c/blake3.c:154-157 | The node over a power of two chunks and at most as many bytes after them holds the first 32 bytes of the two compressions side by side, under the key, with length 64, counter 0 and bit 2. |
| Laws.ModesApart | blake3-kmp/native/blake3_c/blake3.c:390-409 | Keyed modes differ when the keys differ; the three modes have mode flags 0, 16 and 64. |
| Collisions.FoldCollision | blake3-kmp/native/blake3_c/blake3.c:119-145 | Two chains of blocks with one final chaining value, different keys or different bytes, contain a collision of the compression. |
| Collisions.NodeCollision | blake3-kmp/native/blake3_c/blake3.c:252-268 | So do two different messages, keys or modes with one top node. |
| Collisions.HashCollision | blake3-kmp/native/blake3_c/blake3.c:604-646 | For all messages, keys, modes and output lengths of at least 32 bytes: equal hashes of different inputs yield two different compressions with equal chaining values. |
| Collisions.ContextCollision | blake3-kmp/native/blake3_c/blake3.c:399-409 | The same for derived keys: different contexts or different messages. |
| Wide.LeftSubtreeLen | blake3-kmp/native/blake3_c/blake3.c:159-167 | Rounding (n-1)/1024 down gives the specification's split for every n above one chunk. |
| Kernel.CompressInPlace | blake3-kmp/native/blake3_c/blake3_dispatch.c:168-195 | The chaining value is replaced by the first half of the compression's output, by the portable code or by a kernel, and the trace grows by exactly the node compressed if it has the parent's or the root's flag. |
| Kernel.CompressXof | blake3-kmp/native/blake3_c/blake3_dispatch.c:197-224 | All 64 output bytes are written, by the portable code or by a kernel, and nothing else; the trace of outputs grows by exactly that node. |
| Kernel.HashOne | blake3-kmp/native/blake3_c/blake3_portable.c:125-143 | The block loop folds all blocks, start flags on the first only, end flags on the last only, both on a single one; the trace grows by exactly the parent-flagged blocks. |
| Kernel.HashMany | blake3-kmp/native/blake3_c/blake3_portable.c:145-160 | Writes each input's chaining value in order, with the counter rising or fixed, and no byte outside them; the trace grows by exactly the parent-flagged blocks. |
| Kernel.HashOneIsChunk | blake3-kmp/native/blake3_c/blake3.c:191-193 | For every whole number of blocks from 1 to 16, hashing them with chunk flags gives the chaining value of the specification's chunk of that length. |
| Kernel.HashOneIsParent | blake3-kmp/native/blake3_c/blake3.c:234-239 | One block with the parent flag and counter 0 gives the parent's chaining value. |
| Kernel.ChunksSeen | blake3-kmp/native/blake3_c/blake3.c:169-205 | Hashing any number of whole chunks compresses no parent. |
| Kernel.ParentSeen | blake3-kmp/native/blake3_c/blake3.c:234-239 | Hashing one parent block compresses exactly that parent. |
| Kernel.XofMany | blake3-kmp/native/blake3_c/blake3_dispatch.c:227-248 | Block i of the output is the root compression with counter plus i, for every number of blocks including none; exactly those nodes are compressed. |
| Chunk.OutputChainingValue | blake3-kmp/native/blake3_c/blake3.c:82-88 | Through words and back: the chaining value of the held node, which is all the trace grows by, if it is a parent. |
| Chunk.ChunkFoldStable | blake3-kmp/native/blake3_c/blake3.c:119-145 | Blocks already compressed do not depend on later bytes. |
| Chunk.ChunkState.constructor | blake3-kmp/native/blake3_c/blake3.c:11-19 | An empty chunk under the key, in a state that satisfies the chunk invariant. |
| Chunk.ChunkState.Reset | blake3-kmp/native/blake3_c/blake3.c:21-28 | The same from any state, whatever it held. |
| Chunk.ChunkState.FillBuf | blake3-kmp/native/blake3_c/blake3.c:35-45 | Takes as many bytes as fit, and puts exactly those behind the buffered ones. |
| Chunk.ChunkState.TakeBlocks | blake3-kmp/native/blake3_c/blake3.c:135-142 | Compresses whole blocks of the input but leaves at least one byte behind if there was any. |
| Chunk.ChunkState.Update | blake3-kmp/native/blake3_c/blake3.c:119-145 | For any pieces adding up to at most 1024 bytes the fields are those the bytes absorbed determine: (n-1)/64 blocks folded, the 1 to 64 bytes after them in the buffer, zeros behind. |
| Chunk.ChunkState.Finish | blake3-kmp/native/blake3_c/blake3.c:147-152 | The held node is the specification's chunk node over the bytes absorbed. |
| Chunk.HashChunk | blake3-kmp/native/blake3_c/blake3.c:197-205 | A chunk state used for one chunk gives that chunk's chaining value. |
| Pairing.PairUpSplit | blake3-kmp/native/blake3_c/blake3.c:226-250 | A level never pairs across an even boundary. |
| Pairing.PairUpHalves | blake3-kmp/native/blake3_c/blake3.c:374-378 | Pairing up a list of more than two pairs up its two tree halves separately. |
| Pairing.PairUpKeepsTree | blake3-kmp/native/blake3_c/blake3.c:212-250 | One level with the odd one carried does not change what the left-full tree over the list combines to. |
| Pairing.PairUpKeepsHalves | blake3-kmp/native/blake3_c/blake3.c:374-378 | Nor what either half combines to, while more than two are left. |
| Pairing.CondenseIsHalves | blake3-kmp/native/blake3_c/blake3.c:370-380 | Level-by-level pairing stops at two exactly with what the two halves of the list combine to. |
| Wide.ChunkCvsTree | blake3-kmp/native/blake3_c/blake3.c:169-210 | The left-full tree over the list of chunk chaining values is the specification's subtree over the bytes. |
| Wide.CompressChunksParallel | blake3-kmp/native/blake3_c/blake3.c:173-210 | Writes the chaining value of every chunk, whole ones and a partial last one, in order, and nothing else; the array of chunk pointers is large enough; no parent is compressed. |
| Wide.CompressParentsParallel | blake3-kmp/native/blake3_c/blake3.c:217-250 | Writes one level of parents with an odd last value carried, and nothing else; half as many, rounded up; exactly the parents of neighbouring pairs are compressed. |
| Wide.SplitShape | blake3-kmp/native/blake3_c/blake3.c:286-302 | The left side of a split fills the width; it is a single chunk only for degree 1, and then so is the right side. |
| Wide.CompressBothSides | blake3-kmp/native/blake3_c/blake3.c:286-323 | The left call returns exactly the degree used as offset (at least 2), or one value and then the right call also one; so the values are contiguous, fit the buffer, and stand for the subtree; exactly the parents under them have been compressed. |
| Wide.CompressSubtreeWide | blake3-kmp/native/blake3_c/blake3.c:269-337 | For every degree: at most max(degree, 2) values, at least 2 above one chunk, exactly that many for aligned inputs that fill the width; they stand for the subtree, and exactly the parents under them have been compressed, so not its top node. |
| Wide.CoversPairUp | blake3-kmp/native/blake3_c/blake3.c:325-336 | A level of parents over such a list, whatever levels its entries come from, again stands for the subtree. |
| Wide.RepresentsPair | blake3-kmp/native/blake3_c/blake3.c:374-380 | When two values are left they are the chaining values of the two children. |
| Wide.EntryIsNode | blake3-kmp/native/blake3_c/blake3.c:252-268 | In a list of values that stands for a subtree, each is the chaining value of a node of that subtree, and not of its top node when there are two or more. |
| Wide.LevelStep | blake3-kmp/native/blake3_c/blake3.c:325-336 | One level of parents over such a list, whatever levels its entries come from, compresses exactly the parents between the list and the next shorter one. |
| Wide.CondenseOnce | blake3-kmp/native/blake3_c/blake3.c:374-378 | Through the half-size second buffer, the first holds the next level, and exactly its parents have been compressed. |
| Wide.CompressSubtreeToParentNode | blake3-kmp/native/blake3_c/blake3.c:349-381 | For every degree and every input above one chunk the result is the left and the right child's chaining value of the specification's subtree, and every parent of the subtree but its top node has been compressed, and nothing else. |
| Tree.Join | blake3-kmp/native/blake3_c/blake3.c:415-424 | A power-of-two run of chunks followed by at most as many bytes has the parent of the two as its top node. |
| Tree.FrontierLength | blake3-kmp/native/blake3_c/blake3.c:420-424 | A frontier of c chunks has as many entries as c has 1-bits. |
| Tree.FrontierAt | blake3-kmp/native/blake3_c/blake3.c:420-424 | Its i-th entry covers the chunks of the i-th highest 1-bit. |
| Tree.HighBitsStep | blake3-kmp/native/blake3_c/blake3.c:514-521 | The runs of the entries are aligned powers of two, each starting where the last one ends. |
| Tree.HighBitsEnds | blake3-kmp/native/blake3_c/blake3.c:420-424 | They start at the first chunk and end at the last. |
| Tree.MergeTest | blake3-kmp/native/blake3_c/blake3.c:425-427 | The bit count asks for a merge exactly when the two top entries cover equally many chunks; when it does not, the stack is the frontier. |
| Tree.MergeStep | blake3-kmp/native/blake3_c/blake3.c:427-433 | Merging the top two keeps the shape of a held stack, with twice as many chunks on top. |
| Tree.SpanJoin | blake3-kmp/native/blake3_c/blake3.c:428-431 | The parent of two equal neighbouring runs is the chaining value of their union in the specification. |
| Tree.PairOnTop | blake3-kmp/native/blake3_c/blake3.c:557-567 | After a subtree: the frontier before it and its two equal halves, popcount plus two entries. |
| Tree.RollUpIsRoot | blake3-kmp/native/blake3_c/blake3.c:638-644 | Folding a frontier from the right onto the node over the remaining bytes builds the root of the whole tree. |
| Tree.RollUpFromChunk | blake3-kmp/native/blake3_c/blake3.c:629-631 | That holds from the current chunk. |
| Tree.RollUpFromPair | blake3-kmp/native/blake3_c/blake3.c:632-637 | And, with no bytes after the stack, from the parent of its top two entries, of which there are always two. |
| Tree.AlignedIsNode | blake3-kmp/native/blake3_c/blake3.c:514-521 | Every aligned power-of-two run of whole chunks is a node of the tree, however many bytes follow. |
| Tree.NodeOfNode | blake3-kmp/native/blake3_c/blake3.c:339-348 | A node of such a run's own tree is a node of the whole tree. |
| Tree.ProperRunIsBelowRoot | blake3-kmp/native/blake3_c/blake3.c:449-467 | A run that is not the whole message is below the root now and in every longer message. |
| Parents.ParentsUnderTwo | blake3-kmp/native/blake3_c/blake3.c:339-348 | The parents under the two children of a subtree are all its parents but the top one. |
| Parents.NoParentsUnderChunks | blake3-kmp/native/blake3_c/blake3.c:169-210 | Under the chaining values of single chunks there are no parents. |
| Parents.ParentIsNode | blake3-kmp/native/blake3_c/blake3.c:252-268 | Each parent of a subtree is the specification's node over some of its bytes, more than one chunk of them. |
| Parents.RunParentsJoin | blake3-kmp/native/blake3_c/blake3.c:427-433 | The parents over two equal neighbouring runs are those over each and the one that joins them. |
| Parents.MergeAdds | blake3-kmp/native/blake3_c/blake3.c:427-433 | Merging the two top entries of a held stack adds exactly that one to the parents under the stack. |
| Parents.ParentsStable | blake3-kmp/native/blake3_c/blake3.c:415-424 | Later bytes do not change which parents whole chunks have. |
| Parents.RunParentBelowRoot | blake3-kmp/native/blake3_c/blake3.c:449-467 | Every parent in a run that is not the whole message is a node that stays below the root in every longer message. |
| Parents.FrontierParentBelowRoot | blake3-kmp/native/blake3_c/blake3.c:449-467 | So is every parent under the frontier, if any bytes follow it. |
| Parents.HeldParentBelowRoot | blake3-kmp/native/blake3_c/blake3.c:461-467 | And, if none follow, every parent under an unmerged stack of at least two entries. |
| Parents.RollUpIsSpine | blake3-kmp/native/blake3_c/blake3.c:638-644 | Rolling a frontier up computes the chaining values of exactly the nodes over all bytes from each of its run boundaries on, except the first. |
| Parents.SpineBelowRoot | blake3-kmp/native/blake3_c/blake3.c:638-644 | Each of them is a node of the message's tree that does not start at byte 0, so none is the root. |
| Parents.NodesUnmarked | blake3-kmp/native/blake3_c/blake3.c:98-99 | No node of the tree has the root's flag. |
| Split.AlignedChunks | blake3-kmp/native/blake3_c/blake3.c:526-547 | Alignment in bytes is alignment in chunks. |
| Split.SubtreeLen | blake3-kmp/native/blake3_c/blake3.c:525-547 | The loop ends with the largest power of two that is at most the input length and divides the bytes so far; it is at least one chunk, and the byte count does not wrap. |
| Hasher.FrontierFits | blake3-kmp/native/blake3_c/blake3.h:54-60 | Below 2^64 bytes there are fewer than 2^54 whole chunks and at most 54 frontier entries. |
| Hasher.Hasher.constructor | blake3-kmp/native/blake3_c/blake3.c:383-388 | An empty hasher under the key and flags satisfies the invariant, with nothing compressed. |
| Hasher.Hasher.Reset | blake3-kmp/native/blake3_c/blake3.c:648-651 | From any state of its fields, back to nothing absorbed under the same key and flags; what the stack buffer still holds does not matter. |
| Hasher.Hasher.MergeTop | blake3-kmp/native/blake3_c/blake3.c:428-432 | In place, the top two entries become their parent's chaining value; the others stay; exactly that parent is compressed. |
| Hasher.Hasher.MergeOnce | blake3-kmp/native/blake3_c/blake3.c:427-433 | One merge of two entries that cover equally many chunks: the stack stays held with the top doubled, and the trace stays exactly the parents under it. |
| Hasher.Hasher.MergeCvStack | blake3-kmp/native/blake3_c/blake3.c:425-434 | Leaves exactly the frontier of the chunks counted, at most 54 entries, having compressed exactly the parents under it. |
| Hasher.Hasher.PushCv | blake3-kmp/native/blake3_c/blake3.c:468-474 | Merges what was held, compressing exactly the parents under the frontier, then leaves the new entry unmerged on top; never more than 55 entries. |
| Hasher.Hasher.PushChunk | blake3-kmp/native/blake3_c/blake3.c:548-556 | Moves one chunk of the message onto the stack, with bytes left over. |
| Hasher.Hasher.PushPair | blake3-kmp/native/blake3_c/blake3.c:557-567 | Moves an aligned power-of-two run onto the stack as its two halves, with exactly the parents under each half compressed and not the one that joins them. |
| Hasher.Hasher.PushSubtree | blake3-kmp/native/blake3_c/blake3.c:524-571 | Every turn of the loop consumes input and keeps the stack right; if it consumes all of it, a pair is on top. |
| Hasher.Hasher.PushFullChunk | blake3-kmp/native/blake3_c/blake3.c:500-505 | A full chunk with more input behind it goes onto the stack and the next chunk starts empty. |
| Hasher.Hasher.FinishChunk | blake3-kmp/native/blake3_c/blake3.c:490-509 | Either the chunk state takes all input, or it is completed, pushed and emptied. |
| Hasher.Hasher.AbsorbRest | blake3-kmp/native/blake3_c/blake3.c:579-582 | What is left goes into the chunk state and the stack becomes a frontier. |
| Hasher.Hasher.Update | blake3-kmp/native/blake3_c/blake3.c:476-583 | From every valid state and for every input the bytes absorbed grow by exactly the input, the invariant (stack, chunk state, exact set of parents compressed) holds again, and every parent compressed so far is a node below the root of the message and of every longer one, without the root's flag. |
| Hasher.Hasher.OnlyBelowRoot | blake3-kmp/native/blake3_c/blake3.c:446-467 | In every valid state: each parent whose chaining value has been computed covers bytes a to b of the message, is the specification's node over them, and is below the root now and however the message goes on. |
| Hasher.Hasher.StackBehindChunk | blake3-kmp/native/blake3_c/blake3.c:573-582 | With bytes in the chunk state there are as many entries as 1-bits in the chunk count, and entry i is the subtree of the i-th highest 1-bit. |
| Hasher.Hasher.StackBehindNothing | blake3-kmp/native/blake3_c/blake3.c:622-636 | With none, after some input: the frontier before the last subtree and its halves, so at least two entries. |
| Hasher.Hasher.RollUpStart | blake3-kmp/native/blake3_c/blake3.c:627-637 | Both starting points of the roll-up lead to the root of the specification's tree, past exactly the nodes of its right edge. |
| Hasher.Hasher.RollUpStack | blake3-kmp/native/blake3_c/blake3.c:614-644 | From every valid state the fold ends with the specification's root, not yet compressed, having compressed exactly the right edge below it. |
| Hasher.Hasher.EmptyStack | blake3-kmp/native/blake3_c/blake3.c:614-619 | With an empty stack the current chunk is the root. |
| Hasher.Hasher.FinalizeSeek | blake3-kmp/native/blake3_c/blake3.c:604-646 | From every valid state, for every position and length: those bytes of the specification's hash of the bytes absorbed; compressed to output is exactly the root with its flag, once for each block touched, and to chaining values exactly the right edge below it. |
| Hasher.Hasher.RootSeparation | blake3-kmp/native/blake3_c/blake3.c:90-117 | In every valid state: all nodes a finalize compresses to output have the root's flag; no node compressed to a chaining value has it, in the updates so far or in a finalize, where each is a node other than the root. |
| RootOutput.RootBytesJoin | blake3-kmp/native/blake3_c/blake3.c:90-117 | Adjacent windows of the output stream join, so shorter outputs are prefixes. |
| RootOutput.HashJoin | blake3-kmp/native/blake3_c/blake3.c:90-117 | For every message, position and lengths: the hash window is its two parts one after the other. |
| RootOutput.HashBlock | blake3-kmp/native/blake3_c/blake3.c:98-114 | Bytes 64t to 64t+64 of a hash are one compression of the message's top node with counter t and bit 3 set. |
| RootOutput.RootNodesAre | blake3-kmp/native/blake3_c/blake3.c:98-114 | The nodes compressed for k output blocks from t on are the root with bit 3 and counters t to t+k-1, no more and no fewer. |
| RootOutput.WholeBlocks | blake3-kmp/native/blake3_c/blake3.c:107-111 | A run of output blocks is a window of the stream. |
| RootOutput.CopyFromBlock | blake3-kmp/native/blake3_c/blake3.c:98-106 | Part of one output block is the window of the stream at that place. |
| RootOutput.OutputRootBytes | blake3-kmp/native/blake3_c/blake3.c:90-117 | Across a partial first block, whole blocks and a partial last one, every byte written is the stream's, and one root node is compressed for each block touched. |
| Portable.ScheduleIsPermutation | blake3-kmp/native/blake3_c/blake3_impl.h:90-98 | Each row of the schedule is the row before it under the message permutation of section 2.2. |
| Portable.SevenRounds | blake3-kmp/native/blake3_c/blake3_portable.c:75-81 | Seven rounds indexed by the schedule are seven rounds with the message permuted in between. |
| Portable.ScheduledIsPermuted | blake3-kmp/native/blake3_c/blake3_portable.c:75-81 | The same from any round on. |
| Portable.MixInverse | blake3-kmp/native/blake3_c/blake3_portable.c:8-18 | The mixing function on four words can be undone, both ways round. |
| Portable.RoundIsBijection | blake3-kmp/native/blake3_c/blake3_portable.c:20-35 | For a fixed message a round is a bijection on states. |
| Laws.QuarterRound | blake3-kmp/native/blake3_c/blake3_portable.c:8-18 | The mixing function is the eight steps of the quarter round, in order. |
| Laws.StateLayout | blake3-kmp/native/blake3_c/blake3_portable.c:58-73 | The state is the chaining value, four initialisation words, the low and the high half of the counter, the length and the flags, for every counter below 2^64. |
| Laws.OutputWords | blake3-kmp/native/blake3_c/blake3_portable.c:90-123 | The first half of the output combines the halves of the state; in the second, outputs of one state under two chaining values differ by exactly those. |
| KnownAnswer.RoundsAreByRows | blake3-kmp/native/blake3_c/blake3_portable.c:20-35 | Any number of rounds on sixteen words are rounds on four rows of four, with the diagonals turned into columns and back. |
| KnownAnswer.ExpectedOutput | blake3-kmp/src/commonTest/kotlin/com/akhsaul/blake3/Blake3Test.kt:9-23 | The unkeyed hash of the test's message has the 40 bytes the test expects. |
| Portable.G | blake3-kmp/native/blake3_c/blake3_portable.c:8-18 | In place, the four words are mixed as specified and the other twelve stay. |
| Portable.RoundFn | blake3-kmp/native/blake3_c/blake3_portable.c:20-35 | Columns, then diagonals, with the message words in the order of the round. |
| Portable.CompressPre | blake3-kmp/native/blake3_c/blake3_portable.c:37-82 | The state ends as section 2.2 has it before the feed-forward. |
| Portable.CompressInPlacePortable | blake3-kmp/native/blake3_c/blake3_portable.c:84-98 | The chaining value becomes the first eight output words of section 2.2: the contract of a kernel. |
| Portable.CompressXofPortable | blake3-kmp/native/blake3_c/blake3_portable.c:100-123 | The 64 bytes written are all sixteen output words, so their first half is what compressing in place stores. |
| Portable.FirstHalf | blake3-kmp/native/blake3_c/blake3_portable.c:90-114 | For every input the words compressing in place stores are the first 32 bytes of the extended output. |
| Api.DispatchIsValid | blake3-kmp/native/blake3_c/blake3_dispatch.c:168-332 | Every degree the dispatcher can return is a power of two within the build's maximum, and which features give 16, 8 and 1; the portable code compresses exactly without the x86 features asked for. |
| Api.Init | blake3-kmp/native/blake3_c/blake3.c:390 | A fresh hasher in the unkeyed mode: the initialisation words as key, and no flags. |
| Api.InitKeyed | blake3-kmp/native/blake3_c/blake3.c:392-397 | A fresh hasher whose key is exactly the 32 key bytes, with flag bit 4. |
| Api.InitDeriveKeyRaw | blake3-kmp/native/blake3_c/blake3.c:399-409 | For every context: a fresh hasher in the key derivation mode of section 2.3, with flag bit 6, keyed by the first half of the compression of the context's top node under flag bit 5 with the root's flag. |
| Api.Perform | blake3-kmp/native/blake3_c/blake3.c:585-651 | For every history of updates, finalizes and resets, each finalize outputs the hash of the bytes since the last reset. |
| Api.ResetSeparates | blake3-kmp/native/blake3_c/blake3.c:648-651 | What a history requests after a reset does not depend on anything before it, and the other way round. |
| Api.OutputsAnswer | blake3-kmp/native/blake3_c/blake3.c:585-651 | There is one output for each finalize, the hash of the bytes absorbed since the last reset in the window asked for. |
| Api.PerformBoth | blake3-kmp/native/blake3_c/blake3.c:585-651 | Two hashers in the same mode, of any degrees, give equal outputs for any two histories whose finalizes come after equal messages, however those were cut into updates and whatever was reset. |
| Api.PiecesDoNotMatter | blake3-kmp/native/blake3_c/blake3.c:585-602 | Replacing updates with the pieces of a message by one update with all of it changes no request of any history, so by PerformBoth no output. |
| Api.HashMessage | blake3-kmp/native/Blake3Kmp.c:88-110 | One message hashed at once, on any processor: the specification's bytes for the compression picked, so those of section 2.2 with the portable code, or with kernels that compute the same. |

## Left out

- Kernel.CompressInPlace, Kernel.CompressXof: a SIMD kernel is known only by the function it computes; that this is what the portable code computes is assumed where a result says so, because their sources are not part of this model.
- Kernel.XofMany, Kernel.HashMany: the same assumption; the loops modelled are the portable ones, over one kernel for all its uses.
- Hasher.Hasher.Update: says nothing about messages of 2^64 bytes or more, which BLAKE3 does not define.
- CPU feature detection (cpuid, xgetbv, the cached features): hardware queries; only the choice they lead to is modelled.
- The compiler intrinsics for the highest 1-bit and the bit count: the portable branches are modelled.
- The TBB variant of the recursion: compiled out, and its join is not part of this model.
- Aliasing between caller-supplied buffers and the hasher beyond what the preconditions exclude, null pointers with length zero, and a 32-bit `size_t`.
- `blake3_hasher_init_derive_key` with a C string, and `blake3_version`: thin wrappers.
- The JNI and FFM wrappers, library loaders, hex conversion and build scripts: foreign calls and easy claims.
- Cryptographic strength of the compression: it is an ordinary function here, and a collision of it is where the collision results end.
