# h5cpp chunk engine in Dafny

h5cpp writes and reads chunked HDF5 datasets with its own engine: it cuts a buffer into chunks, runs
each chunk through a filter chain, and stores or fetches `(offset, mask, bytes)` with
`H5Dwrite_chunk` / `H5Dread_chunk2`. This project models that engine and its clients and proves what
they promise. HDF5 itself appears only as a map from chunk offset to `(mask, bytes)`, a table of
reference counts, and a hyperslab selection. `dafny verify dfyconfig.toml` checks everything.

| file | models |
|---|---|
| `Arith.dfy`, `Memory.dfy`, `BitStream.dfy` | powers of two and shifts, byte buffers and words, the bit writer and reader |
| `GorillaCodec.dfy`, `Gorilla.dfy`, `GorillaBound.dfy`, `GorillaFormat.dfy` | the Gorilla XOR codec on bit streams, then on chunk bytes, its longest encodings, and its format in plain numbers |
| `Fletcher32.dfy`, `Shuffle.dfy` | the batched checksum and the byte shuffle |
| `FilterChain.dfy`, `PingPong.dfy`, `InPlace.dfy`, `InPlaceChains.dfy` | the chain as a function of the chunk, the loops over two scratch buffers, the single-buffer branch stage by stage and for whole chains |
| `RowCopy.dfy`, `Tiling.dfy`, `ChunkGrid.dfy`, `Layout.dfy` | cutting an N-dimensional buffer into chunks and putting it back, and where rows land |
| `BasicPipeline.dfy` | the pipeline class: loop nests, synchronous and pooled chunk writes, reads |
| `CallOrder.dfy`, `StoredArray.dfy` | the same in the caller's terms: the order of the calls, and an array, slowest dimension first, written to and read from a chunked dataset |
| `WorkerPool.dfy`, `PoolSession.dfy` | the worker pool as a state machine, and a producer with a bounded deque of futures running on it |
| `PoolWrite.dfy`, `PoolRead.dfy` | that producer as the pooled write and as the parallel rank-1 read |
| `PacketTable.dfy`, `StreamingView.dfy`, `Handles.dfy`, `Extent.dfy` | the stateful clients |

The main results:

- **Gorilla** decodes every encoding of a whole number of 4- or 8-byte words back to exactly those
  bytes, and only those: the round trip holds if and only if there is at least one word, no partial
  word, and a count below 2^32. The longest encoding of every size is known exactly: it always fits the
  callback's `2 * nbytes + 256` bytes, but the pipeline's scratch buffer, in the build without the lz4
  and zstd libraries, only for 8-byte words or small chunks.
  Every encoding is also known bit by bit: which of the two codes a value gets, what its fields are, how
  codes follow one another, and the header in front of them.
- **Fletcher-32** in 360-word batches equals the word-by-word sums modulo 65535, batches of k words do so
  for all data exactly when k is at most 360, any single altered byte is caught, and a replaced
  or swapped word is missed exactly when the words are congruent modulo 65535. Its low half is the number
  the data bytes spell, most significant first, modulo 65535.
- **Filter chains** restore every chunk whatever filters skip and whatever the parity of the chain.
- **Write then read** of any rank, shape and chunk shape restores the caller's buffer, synchronously
  or through the pool, for every worker schedule and on every branch that does not shuffle a buffer
  onto itself. The `H5Dwrite_chunk` calls of a write are one per chunk, in the order of the loop nest.
- **An array** in C order, of any rank, is stored so that every decoded chunk holds, at each row-major position x
  inside it, the element whose coordinates are the chunk's offset plus x, and zeros outside the array, when
  the chunks are laid out well; and is read back from there whoever wrote it.
- **Chunk layout** is, byte for byte, row-major and zero padded exactly when every clipped middle dimension is
  followed only by single-row ones; the wrapping residual of the write side is right exactly when the
  fastest dimension reaches a chunk or the chunk extent divides 2^64.
- **The worker pool**, for any number of workers and submitters, strands no task and lets nobody sleep
  through the shutdown exactly when it sees fewer than 2^31 rings over its life, submissions and the
  final ring together: from there on the signed 32-bit in-flight counter can read negative and let the
  destructor pass. A pool that stays open loses no wake-up exactly below 2^32 rings, where the doorbell
  wraps. The destructor lets all tasks complete exactly below 2^31 tasks, and then stops after at most
  four more steps of each worker.
- **Pooled writes and reads**: under every schedule a write makes the synchronous pipeline's calls, in
  the same order and once each, and the parallel rank-1 read fills the buffer as the synchronous read
  does, whichever worker finishes first and however many rings the pool has seen; the deque stays below
  its cap between calls. Where the doorbell has room for the rings to come, the blocking wait can always
  be served and the session can always be finished.
- **The packet table**, the **streaming view**, the **counted handles** and the **extent
  calculation** keep their contents, order, counts and containment over every run. What each handle
  operation leaves in both objects and in the reference table, and which elements a hyperslab selects
  and how many, is stated outright.

Seven behaviours of the code fall short of what its comments suggest. Each is kept as it is, with the
exact condition under which the code does what is meant: the in-place write branch shuffles a buffer
onto itself (`InPlaceChains.BranchExact`), `Ry = (N - Rx) % B` wraps for short fastest dimensions
(`BasicPipeline.RowCopyExact`, with the bytes read past the buffer in `BasicPipeline.WriteOverruns`), a
clipped middle dimension shifts later rows (`Layout.DatasetLayoutExact`), `stride - block + 1` wraps for
blocks longer than the stride (`Extent.ContainedExactly`), the comment that a doorbell ring cannot be
missed holds below 2^32 rings only (`WorkerPool.OpenExactly`), `wait_idle` returns early, and the
destructor leaves work behind, once 2^31 tasks are outstanding (`WorkerPool.DrainsExactly`, with the run
in `WorkerPool.EarlyIdle`: one worker about to check for the stop, 2^31 submissions, then destruction),
and the scratch bound "across all supported filters" has no term for Gorilla (`GorillaBound.ScratchExact`
for the build without the lz4 and zstd libraries, whose own bounds are smaller still). In addition the default
back-pressure cap `8 * N` is zero for multiples of 2^29 (`BasicPipeline.CapPositive`), and with a cap of
zero the producer never comes out of its back-pressure loop (`PoolSession.ZeroCapHangs`).

Conventions: byte buffers are arrays of 0..255; `0` returned by a filter is an empty output; sizes
and element indices are unbounded except where the source's 32- or 64-bit arithmetic can wrap, which
is written out; in the methods `*` stands for "a future happens to be ready". Dimensions are listed fastest first,
as in the source's `N` and `B`.

## Model

| member | source | states |
|---|---|---|
| `BitStream.NatOfBitsOf` | h5cpp/H5Zall.hpp:539-560 | reading back the bits written for a value gives the value, for every width that holds it |
| `BitStream.BitsSpell` | h5cpp/H5Zall.hpp:539-542 | bit k of the n written for a value is its binary digit n - 1 - k |
| `BitStream.BitWriter.WriteBit` | h5cpp/H5Zall.hpp:534-538 | appends one bit to the stream the buffer carries, leaves earlier bits and everything before the stream alone |
| `BitStream.BitWriter.WriteBits` | h5cpp/H5Zall.hpp:539-542 | appends the low bits of the value, most significant first |
| `BitStream.CarriesIsPack` | h5cpp/H5Zall.hpp:529-543 | a region written this way starts with exactly the zero-padded packing of the bits |
| `BitStream.PackSpells` | h5cpp/H5Zall.hpp:529-543 | the packed bytes, most significant first, spell the number of the bits shifted up by what the last byte leaves free |
| `BitStream.UnpackPack` | h5cpp/H5Zall.hpp:529-561 | unpacking a packed stream gives the stream back as a prefix |
| `BitStream.BitReader.ReadBit` | h5cpp/H5Zall.hpp:550-554 | returns the bit at the read position and moves on by one |
| `BitStream.BitReader.ReadBits` | h5cpp/H5Zall.hpp:555-560 | returns the number spelled by the next bits and moves past them |
| `Memory.WordsSpell` | h5cpp/H5Zall.hpp:568 | byte k of word i, the least significant being byte 0, is byte es * i + k of the buffer |
| `GorillaFormat.XorBits` | h5cpp/H5Zall.hpp:589 | bit k of the difference is the sum of the two bits k without carry |
| `GorillaFormat.ChosenCode` | h5cpp/H5Zall.hpp:589-617 | for every value that differs from its predecessor: a block in force that contains the difference's ones gives a code of min(2 + its length, 14 + m) bits, the block's own on a tie, any other case 14 + m; the second bit tells which code it is and which block stays; the fields and the payload are spelt out |
| `GorillaFormat.SameCode` | h5cpp/H5Zall.hpp:590-591 | an equal value is one zero bit and leaves the block alone |
| `GorillaFormat.EveryShape` | h5cpp/H5Zall.hpp:594-596 | every non-zero difference is an odd number between leading and trailing zeros |
| `GorillaFormat.StreamSnoc` | h5cpp/H5Zall.hpp:587-619 | one more value adds exactly its own code, against the value before it and the block left by all before it |
| `GorillaFormat.EncodeLayout` | h5cpp/H5Zall.hpp:564-620 | the filter's output for a first parameter of 4 or 8: the element size, the word count in four bytes, the most significant first, the first word, and the bytes the codes of the others spell; nothing when there is no whole word |
| `GorillaFormat.CountSpelt` | h5cpp/H5Zall.hpp:627-631 | the decoder's count is the number bytes 1 to 4 spell, the most significant first |
| `GorillaCodec.ReadValueBits` | h5cpp/H5Zall.hpp:587-665 | decoding the bits of one value gives the value back, consumes exactly those bits whatever follows, and leaves decoder and encoder with the same block |
| `GorillaCodec.ReadFresh` | h5cpp/H5Zall.hpp:607-662 | a new-block code decodes to its payload shifted into place, with length code 0 read as 64 |
| `GorillaCodec.ReadStreamBits` | h5cpp/H5Zall.hpp:587-665 | every word sequence is read back from its bit stream, whatever padding follows |
| `GorillaCodec.ValueCost` | h5cpp/H5Zall.hpp:587-617 | a value costs one bit, or at most 14 plus its own meaningful bits |
| `Gorilla.DecodeEncoded` | h5cpp/H5Zall.hpp:564-667 | decoding the encoding of whole words restores every byte |
| `Gorilla.RoundTrip` | h5cpp/H5Zall.hpp:670-701 | the filter pair restores a block if and only if it is non-empty, made of whole words, and their count is below 2^32 |
| `Gorilla.RejectedExactly` | h5cpp/H5Zall.hpp:623-701 | decode returns 0 if and only if the first byte is neither 4 nor 8, the block is shorter than header and first word, or the count in the header is 0 |
| `Gorilla.PassthroughMisread` | h5cpp/H5Zall.hpp:673-696 | without an element size of 4 or 8 encode copies; decode rejects the copy exactly when it does not look like a header, and otherwise returns as many words as its bytes announce |
| `GorillaBound.StreamMost` | h5cpp/H5Zall.hpp:587-619 | n values take at most n * (13 + w) bits, plus one unless a block of all w bits is in force |
| `GorillaBound.EncodedMost` | h5cpp/H5Zall.hpp:564-620 | no encoding of a size is longer than its stated maximum |
| `GorillaBound.MostAttained` | h5cpp/H5Zall.hpp:564-620 | for every size some data has an encoding of exactly that length |
| `GorillaBound.EncodedBound` | h5cpp/H5Zall.hpp:732-733 | every encoding fits the 2 * nbytes + 256 bytes allocated for it |
| `GorillaBound.ScratchExact` | h5cpp/H5Zall.hpp:89-114 | without the lz4 and zstd libraries the pipeline's scratch buffer takes every encoding of a chunk if and only if words have 8 bytes or the chunk holds at most about 200 of 4 bytes |
| `Gorilla.CountLeadingZeros` | h5cpp/H5Zall.hpp:496-501 | the loop returns the number of leading zero bits |
| `Gorilla.CountTrailingZeros` | h5cpp/H5Zall.hpp:519-525 | the loop returns the number of trailing zero bits |
| `Gorilla.WriteValue` | h5cpp/H5Zall.hpp:588-617 | one loop pass writes exactly the specified bits and remembers the specified block |
| `Gorilla.EncodeStream` | h5cpp/H5Zall.hpp:582-618 | the loop writes the bit stream of all values after the first |
| `Gorilla.EncodeInto` | h5cpp/H5Zall.hpp:564-620 | the output starts with header, first value and packed stream, and the returned size is theirs |
| `Gorilla.ReadOne` | h5cpp/H5Zall.hpp:644-664 | one loop pass returns the specified value and block and consumes the specified bits |
| `Gorilla.DecodeStream` | h5cpp/H5Zall.hpp:638-665 | the loop lays the decoded words behind the first and touches nothing else |
| `Gorilla.DecodeInto` | h5cpp/H5Zall.hpp:623-667 | well-formed input is decoded, short input or a zero count returns 0 and writes nothing |
| `Gorilla.Apply` | h5cpp/H5Zall.hpp:670-701 | both directions of the filter, raw copy and rejections included |
| `Fletcher32.LoadWord16` | h5cpp/H5Zall.hpp:308-324 | the big-endian word at an index, a trailing odd byte taken as a high byte |
| `Fletcher32.SumBatch` | h5cpp/H5Zall.hpp:306-311 | 360 words are summed and cumulatively summed in 32 bits without losing anything |
| `Fletcher32.BatchLimit` | h5cpp/H5Zall.hpp:302-315 | no accumulator of a k-word batch can reach 2^32 if and only if k <= 360 |
| `Fletcher32.BatchesExact` | h5cpp/H5Zall.hpp:296-329 | the checksum in batches of k words, every addition in 32 bits, is the word-by-word checksum of all data if and only if k <= 360 |
| `Fletcher32.FoldBatch` | h5cpp/H5Zall.hpp:312-315 | folding a batch into the reduced sums gives the reduced sums of all words so far |
| `Fletcher32.FoldWord` | h5cpp/H5Zall.hpp:318-327 | folding one word does the same |
| `Fletcher32.ComputeChecksum` | h5cpp/H5Zall.hpp:296-329 | the batched loops compute the word-by-word checksum for every length, odd ones included, and so the residues `ChecksumSpells` names |
| `Fletcher32.ChecksumSpells` | h5cpp/H5Zall.hpp:296-329 | the low half of the checksum is the number the data bytes spell, most significant first and with a zero byte behind an odd length, modulo 65535; the high half is the sum of the numbers its prefixes of whole words spell, modulo 65535 |
| `Fletcher32.EncodeLayout` | h5cpp/H5Zall.hpp:352-360 | a block is the data followed by four bytes that spell the checksum, the most significant first |
| `Fletcher32.Apply` | h5cpp/H5Zall.hpp:335-360 | encode appends the checksum, decode strips it or returns 0, nothing else in the buffer changes |
| `Fletcher32.RoundTrip` | h5cpp/H5Zall.hpp:335-360 | decode of encode is the identity |
| `Fletcher32.SingleByteCaught` | h5cpp/H5Zall.hpp:335-360 | any single altered byte, data or checksum, makes decode return 0 |
| `Fletcher32.WordReplacement` | h5cpp/H5Zall.hpp:296-329 | replacing one word keeps the checksum if and only if the two words are congruent modulo 65535 |
| `Fletcher32.CongruentWords` | h5cpp/H5Zall.hpp:314-327 | two 16-bit words are congruent if and only if they are equal or are 0x0000 and 0xFFFF |
| `Fletcher32.ZeroOnesUnnoticed` | h5cpp/H5Zall.hpp:335-360 | turning a 0x0000 word into 0xFFFF passes decode |
| `Fletcher32.AdjacentSwap` | h5cpp/H5Zall.hpp:335-360 | swapping two adjacent words is caught if and only if they differ modulo 65535 |
| `Shuffle.Inverse` | h5cpp/H5Zall.hpp:277-292 | the position maps of the two directions are inverse permutations |
| `Shuffle.RoundTrip` | h5cpp/H5Zall.hpp:277-292 | unshuffle of shuffle restores whole elements; the tail is restored exactly if the destination already held it |
| `Shuffle.RoundTripExact` | h5cpp/H5Zall.hpp:277-292 | for all buffer contents the pair is the identity if and only if the element size divides the block |
| `Shuffle.ShuffleLoops` | h5cpp/H5Zall.hpp:287-291 | the forward loops produce the permuted block |
| `Shuffle.UnshuffleLoops` | h5cpp/H5Zall.hpp:281-285 | the reverse loops produce the inverse permutation |
| `Shuffle.ShuffledByte` | h5cpp/H5Zall.hpp:267-292 | with first parameter t above 1, whatever follows it, byte i * t + j goes to j * count + i and comes back from there |
| `Shuffle.ShuffledRest` | h5cpp/H5Zall.hpp:277-292 | bytes behind the whole elements keep what the destination held |
| `Shuffle.ShuffledCopy` | h5cpp/H5Zall.hpp:267-271 | without parameters, or with a first one of at most 1, both directions copy |
| `Shuffle.Apply` | h5cpp/H5Zall.hpp:266-293 | both directions with the one-byte and empty shortcuts |
| `FilterChain.RoundTrip` | h5cpp/H5Zpipeline_basic.hpp:51-121 | the reverse chain on a stored chunk gives the chunk back, for every mask and chain length |
| `FilterChain.MaskMeaning` | h5cpp/H5Zpipeline_basic.hpp:55-61 | mask bit j is set if and only if filter j returned 0 on the data it was given, and the bytes are the last kept output |
| `FilterChain.ChainOrder` | h5cpp/H5Zpipeline_basic.hpp:51-121 | a filter at the end of a chain gets what the others stored, and a 0 from it sets its mask bit and keeps their bytes; in the reverse direction it goes first, unless its bit is set |
| `FilterChain.ShuffleOut` | h5cpp/H5Zall.hpp:266-293 | a shuffle stage in a chain, byte by byte, with the first parameter as element size |
| `FilterChain.ShuffleCopies` | h5cpp/H5Zall.hpp:267-271 | a shuffle stage without an element size above 1 copies |
| `FilterChain.UndoneIsUndone` | h5cpp/H5Zall.hpp:266-701 | shuffle, Fletcher-32 and Gorilla each return 0 or are undone, under a condition on their own input |
| `FilterChain.UndoneChain` | h5cpp/H5Zpipeline_basic.hpp:51-63 | chains of such filters are reversible |
| `FilterChain.DecodeFits` | h5cpp/H5Zpipeline_basic.hpp:83-121 | a reversible chain that fits the scratch buffers forwards fits them in the reverse direction |
| `FilterChain.CapacitySuffices` | h5cpp/H5Zall.hpp:266-701 | chains of shuffle, Fletcher-32 and Gorilla fit a scratch buffer of four more bytes per checksum and 2 * n + 256 per Gorilla stage |
| `PingPong.CallFilter` | h5cpp/H5Zpipeline_basic.hpp:57 | a filter call leaves its output in the destination and returns its length |
| `PingPong.OrMask` | h5cpp/H5Zpipeline_basic.hpp:58-59 | sets one mask bit and no other |
| `PingPong.Forward` | h5cpp/H5Zpipeline_basic.hpp:52-61 | the skip-aware loop leaves mask, length and bytes of the chain function in the current buffer |
| `PingPong.ReverseStage` | h5cpp/H5Zpipeline_basic.hpp:113-118 | a masked stage copies, another is undone |
| `PingPong.Backward` | h5cpp/H5Zpipeline_basic.hpp:83-121 | the reverse loop lands the decoded chunk in chunk0 for every mask and both parities |
| `InPlace.ShuffleSweep` | h5cpp/H5Zall.hpp:287-291 | the loops with dst == src, position by position |
| `InPlace.SweepOverwrites` | h5cpp/H5Zall.hpp:287-291 | with two elements of two bytes or more, the byte opening plane 1 is data[ts] instead of data[1] |
| `InPlace.SweepExact` | h5cpp/H5Zpipeline_basic.hpp:32-42 | the in-place shuffle is right for all blocks of a size if and only if elements are single bytes or at most one fits |
| `InPlace.StageOrder` | h5cpp/H5Zpipeline_basic.hpp:36-41 | on one buffer too a filter at the end gets what the others left, and a 0 from it sets its mask bit and the length |
| `InPlace.StagesExact` | h5cpp/H5Zpipeline_basic.hpp:32-42 | with the filters in any order, every stage of the branch does in place what its filter should, on all blocks of the length it receives, if and only if no shuffle moves anything at that length |
| `InPlaceChains.BranchExact` | h5cpp/H5Zpipeline_basic.hpp:32-63 | the in-place branch stores what the ping-pong branch stores for all blocks of a size if and only if no shuffle moves anything at the length it receives; for chains in which no checksum stands between two shuffles that move something, or one of these stands in front of all checksums |
| `InPlaceChains.EmptyBlock` | h5cpp/H5Zpipeline_basic.hpp:32-63 | for empty blocks the branch is right although a shuffle behind a checksum moves bytes |
| `InPlace.BranchesAgree` | h5cpp/H5Zpipeline_basic.hpp:32-63 | for one block it does when no stage's shuffle overlaps itself |
| `InPlace.ShuffleLost` | h5cpp/H5Zpipeline_basic.hpp:32-42 | otherwise the chunk is damaged: byte 1 reads back as byte ts |
| `InPlace.EncodeFits` | h5cpp/H5Zpipeline_basic.hpp:35-40 | a chain that fits the scratch buffers on the ping-pong branch fits the single buffer |
| `InPlace.Run` | h5cpp/H5Zpipeline_basic.hpp:32-42 | the in-place loop over one buffer computes its length, mask and bytes |
| `Tiling.ChunkBounds` | h5cpp/H5Zpipeline.hpp:420-429 | every row copied for a chunk lies inside the source and its slot inside the block |
| `Tiling.InnerImage` | h5cpp/H5Zpipeline.hpp:416-418 | away from the edges the rows fill the block, so not clearing it does no harm |
| `ChunkGrid.GridComplete` | h5cpp/H5Zpipeline.hpp:413-414 | the outer nest visits every legal chunk origin |
| `ChunkGrid.StoredChunks` | h5cpp/H5Zpipeline.hpp:413-438 | after a write every chunk of the grid holds the encoding of its image and no other key changed |
| `ChunkGrid.Coverage` | h5cpp/H5Zpipeline.hpp:349-370 | every byte of the buffer lies in a row of some chunk |
| `ChunkGrid.RestoreAllImages` | h5cpp/H5Zpipeline.hpp:349-370 | reading chunks that hold images of a source restores exactly the bytes their rows cover |
| `ChunkGrid.RoundTrip` | h5cpp/H5Zpipeline.hpp:331-439 | writing through a reversible chain and reading back restores the buffer, for every rank, shape, earlier dataset and destination |
| `BasicPipeline.ResidualExact` | h5cpp/H5Zpipeline.hpp:384 | the unsigned residual is N % B if and only if N >= B or B divides 2^64 |
| `BasicPipeline.RowCopyExact` | h5cpp/H5Zpipeline.hpp:424-427 | every row copy has the right length if and only if N >= B or B divides 2^64 |
| `BasicPipeline.RowOverrun` | h5cpp/H5Zpipeline.hpp:384-427 | otherwise the one short row is copied with the full chunk length |
| `BasicPipeline.WriteOverruns` | h5cpp/H5Zpipeline.hpp:420-429 | and for rank above 1 the copy of the last source row ends past the buffer |
| `BasicPipeline.Rank1Image` | h5cpp/H5Zpipeline.hpp:391-411 | the rank-1 fast path builds the image of the general nest |
| `BasicPipeline.CapPositive` | h5cpp/H5Pthreads.hpp:239-249 | the cap is positive if and only if it is given positive or the concurrency is not a multiple of 2^29 |
| `BasicPipeline.Pipeline.constructor` | h5cpp/H5Zpipeline.hpp:288-324 | chunk shape reversed, scratch buffers allocated, nothing in flight, any cap accepted |
| `BasicPipeline.Pipeline.RunJob` | h5cpp/H5Zpipeline_pool.hpp:175-213 | the worker's closure computes the sequential chain's mask and bytes |
| `BasicPipeline.Pipeline.DrainFront` | h5cpp/H5Zpipeline_pool.hpp:104-111 | stores the front result and pops it; the calls made and to come stay the same sequence |
| `BasicPipeline.Pipeline.DrainReady` | h5cpp/H5Zpipeline_pool.hpp:112-118 | the same for however many fronts happen to be ready |
| `BasicPipeline.Pipeline.DrainBelow` | h5cpp/H5Zpipeline_pool.hpp:222-223 | blocks the deque down below the limit, the calls unchanged |
| `BasicPipeline.Pipeline.Drain` | h5cpp/H5Zpipeline_pool.hpp:66-69 | empties the deque; the dataset is what all submitted chunks make of it |
| `BasicPipeline.Pipeline.RunInPlace` | h5cpp/H5Zpipeline_basic.hpp:32-42 | the in-place branch produces the mask and bytes of the aliased calls, overlapping shuffles included |
| `BasicPipeline.Pipeline.RunPingPong` | h5cpp/H5Zpipeline_basic.hpp:51-63 | the ping-pong branch always does |
| `BasicPipeline.Pipeline.StoreNow` | h5cpp/H5Zpipeline_basic.hpp:8-64 | one call is made, with what the branch taken stores: the chain's mask and bytes unless an in-place shuffle overlaps itself |
| `BasicPipeline.Pipeline.Enqueue` | h5cpp/H5Zpipeline_pool.hpp:167-224 | adds exactly that call to the end of the calls to come, deque below the cap afterwards |
| `BasicPipeline.Pipeline.WriteChunk` | h5cpp/H5Zpipeline_pool.hpp:121-224 | synchronous or pooled, exactly one call, with what the pipeline stores for the chunk, joins the end of the sequence |
| `BasicPipeline.Pipeline.ReadChunk` | h5cpp/H5Zpipeline_basic.hpp:67-122 | leaves the decoded chunk in chunk0 |
| `BasicPipeline.Pipeline.WriteRowsLoop` | h5cpp/H5Zpipeline.hpp:420-429 | one inner loop level puts its rows into consecutive slots |
| `BasicPipeline.Pipeline.WriteOne` | h5cpp/H5Zpipeline.hpp:415-437 | one chunk: clear at edges, gather, hand exactly the image to write_chunk, once |
| `BasicPipeline.Pipeline.WriteNest` | h5cpp/H5Zpipeline.hpp:413-438 | the outer nest hands over every chunk of the grid once, in loop order |
| `BasicPipeline.Pipeline.WriteRank1` | h5cpp/H5Zpipeline.hpp:391-411 | so does the rank-1 loop |
| `BasicPipeline.Pipeline.Write` | h5cpp/H5Zpipeline.hpp:374-439 | the calls grow by one per chunk of the grid, in loop order, each with the chain's result; the dataset becomes the one with all images of the buffer stored |
| `BasicPipeline.StoreAllIsApply` | h5cpp/H5Zpipeline.hpp:413-438 | storing the chunks of a buffer is making the calls of their jobs in order |
| `BasicPipeline.Pipeline.ReadOne` | h5cpp/H5Zpipeline.hpp:351-369 | one chunk decoded and its rows scattered to their places |
| `BasicPipeline.Pipeline.Read` | h5cpp/H5Zpipeline.hpp:331-371 | the destination becomes the one with all chunks restored |
| `StoredArray.CreateAndWrite` | h5cpp/H5Zpipeline.hpp:288-439 | a pipeline made for a chunk shape and a buffer of C-order dimensions written through it: the chunk at each offset c decodes to a block that holds at every row-major position x the element at coordinates c + x, zero outside, for every aligned chunk; other offsets keep what they held; one call is made for every chunk, in ascending order of the offsets |
| `CallOrder.OffsetsAscend` | h5cpp/H5Zpipeline.hpp:413-438 | the chunks of a buffer are visited in ascending order of their dataset offsets, the slowest dimension counting most |
| `StoredArray.ReadArray` | h5cpp/H5Zpipeline.hpp:331-371 | a dataset of aligned chunks that holds an array in this sense is read back as the array |
| `BasicPipeline.Pipeline.BranchTaken` | h5cpp/H5Zpipeline_basic.hpp:14-64 | no filters: the bytes as they are; only shuffles and checksums, synchronously: in place; anything else: through the two buffers |
| `Layout.VisitAt` | h5cpp/H5Zpipeline.hpp:420-429 | the k-th row written comes from the k-th row visited by the clipped nest |
| `Layout.LayoutExact` | h5cpp/H5Zpipeline.hpp:415-429 | a chunk image is in row-major chunk layout if and only if no clipped dimension has a slower one with several rows |
| `Layout.DatasetLayoutExact` | h5cpp/H5Zpipeline.hpp:413-438 | all images of a dataset are if and only if its middle dimensions divide evenly or are followed by single-row ones |
| `Layout.RowMajorExact` | h5cpp/H5Zpipeline.hpp:415-429 | for all source contents every byte of a chunk image is the one of the row-major, zero-padded chunk if and only if no clipped dimension has a slower one with several rows |
| `Layout.DatasetRowMajorExact` | h5cpp/H5Zpipeline.hpp:413-438 | the same for all images of a dataset and its middle dimensions |
| `Layout.MisplacedRow` | h5cpp/H5Zpipeline.hpp:428 | otherwise a row is written where the clipped slab ended |
| `Layout.AlignedImage` | h5cpp/H5Zpipeline.hpp:413-438 | the image of an aligned chunk holds the source byte at each row-major position and zero outside the data |
| `Layout.ExactlyOnce` | h5cpp/H5Zpipeline.hpp:413-438 | every source byte lands in exactly one chunk, slot and position |
| `WorkerPool.AccountedStep` | h5cpp/H5Pthreads.hpp:105-156 | every action keeps the signed 32-bit in_flight_ equal to queued + running + between counter and push, modulo 2^32, and that number at most the submissions |
| `WorkerPool.TrackedStep` | h5cpp/H5Pthreads.hpp:105-156 | every action keeps each task in exactly one place, the queue first in first out, and nothing run twice |
| `WorkerPool.NoLostWakeupStep` | h5cpp/H5Pthreads.hpp:132-163 | every action, from an invariant state with young snapshots, keeps: a non-empty queue has a ring or notification to come, or a worker that will look without being woken |
| `WorkerPool.EverySchedule` | h5cpp/H5Pthreads.hpp:105-163 | accounting and tracking over every schedule of any workers and submitters, without bound; the wake-ups too in those with fewer than 2^32 rings and, once the destructor has stopped waiting, fewer than 2^31 submissions |
| `WorkerPool.SafeExactly` | h5cpp/H5Pthreads.hpp:81-168 | every schedule with at most k rings, shutdown included, ends with no work stranded and nobody asleep in the shutdown if and only if k < 2^31 |
| `WorkerPool.OpenExactly` | h5cpp/detail/doorbell.hpp:8-26 | every schedule with at most k rings that leaves the pool open ends with no lost wake-up if and only if k < 2^32 |
| `WorkerPool.DrainsExactly` | h5cpp/H5Pthreads.hpp:76-85 | in every schedule with at most n tasks the destructor has let each of them run, once, before it joins, if and only if n < 2^31 |
| `WorkerPool.EarlyIdle` | h5cpp/H5Pthreads.hpp:120-168 | a legal run of 2^31 submissions in which wait_idle returns at once and the only worker leaves a full queue behind |
| `WorkerPool.IdleMeansDone` | h5cpp/H5Pthreads.hpp:120-123 | whatever the pool has been through, when wait_idle stops waiting nothing is left to do if and only if fewer than 2^31 tasks are outstanding, and then every task has run exactly once |
| `WorkerPool.ShutdownCompletes` | h5cpp/H5Pthreads.hpp:81-85 | in every run with fewer than 2^31 tasks that reaches the joins no worker is asleep from then on, each makes at most four more steps, and once none can step all have left |
| `WorkerPool.WrapLosesWakeup` | h5cpp/detail/doorbell.hpp:8-26 | a legal run of 2^32 rings ends with a full queue, the only worker asleep and nobody to wake it |
| `PoolSession.SafeStep` | h5cpp/H5Zpipeline_pool.hpp:102-224 | every action of producer, workers and other submitters, on any pool, keeps each future its own closure's, the deque in order and within the cap, and every task in its place |
| `PoolSession.SessionStep` | h5cpp/H5Zpipeline_pool.hpp:102-224 | and with young snapshots the wake-ups |
| `PoolSession.EverySessionSchedule` | h5cpp/H5Zpipeline_pool.hpp:102-365 | under every schedule, on any pool, the results taken are those of the first jobs, in order, once each, whoever ran them when; the deque is bounded by the cap; a drained session has taken all |
| `PoolSession.EveryGetServed` | h5cpp/H5Zpipeline_pool.hpp:104-106 | from every state a session reaches, with room for one more ring, some schedule without further submissions or spurious wake-ups makes the front future ready |
| `PoolSession.EverySessionCanFinish` | h5cpp/H5Zpipeline_pool.hpp:102-365 | from every state a session reaches, with room for the rings under way and one per job still to submit, some schedule without other submissions or spurious wake-ups finishes it, every result taken in order |
| `PoolSession.ZeroCapHangs` | h5cpp/H5Zpipeline_pool.hpp:222-223 | with a cap of zero no schedule lets the producer out of the back-pressure loop |
| `PoolWrite.EveryWriteSchedule` | h5cpp/H5Zpipeline_pool.hpp:102-224 | under every schedule the calls made are the sequential chain's for the first chunks written, in order, once each; after drain all chunks are stored |
| `PoolWrite.EveryScheduleRestores` | h5cpp/H5Zpipeline_pool.hpp:66-69 | a drained session over the chunks of a buffer has left the dataset of the synchronous write, and it reads back as the buffer |
| `PoolWrite.WriteBuffer` | h5cpp/H5Zpipeline.hpp:374-439 | the loop nest gives write_chunk exactly the chunks of the buffer in loop order, and every session over them, whatever its pool, cap and schedule, leaves the dataset the synchronous pipeline leaves |
| `PoolRead.CopyElemsExact` | h5cpp/H5Zpipeline_pool.hpp:299 | the copy size is the part of the chunk inside the data |
| `PoolRead.RangesPartition` | h5cpp/H5Zpipeline_pool.hpp:297-300 | every element is in exactly one destination range and no range leaves the buffer |
| `PoolRead.RunRead` | h5cpp/H5Zpipeline_pool.hpp:317-351 | the worker's closure computes the leading bytes of the decoded chunk |
| `PoolRead.EveryReadSchedule` | h5cpp/H5Zpipeline_pool.hpp:252-368 | under every schedule the buffer is at any moment what the synchronous read makes of the chunks copied so far, and at the end what it makes of all; whichever worker decoded what when |
| `PoolRead.DrainFront` | h5cpp/H5Zpipeline_pool.hpp:237-242 | copying the front result is restoring that chunk; what is left to do stays the same |
| `PoolRead.DrainReady` | h5cpp/H5Zpipeline_pool.hpp:244-249 | the same for however many fronts happen to be ready |
| `PoolRead.ReadRank1` | h5cpp/H5Zpipeline_pool.hpp:297-365 | the loop leaves the destination the sequential restore would, whatever futures are ready when and whatever the cap |
| `PoolRead.Read` | h5cpp/H5Zpipeline_pool.hpp:252-368 | the parallel read, fallback included, meets the synchronous read's contract |
| `PoolRead.WriteThenRead` | h5cpp/H5Zpipeline_pool.hpp:252-368 | write, drain, read leaves the destination equal to the source, synchronous or pooled, the pooled rank-1 read being the parallel one |
| `PacketTable.Table.constructor` | h5cpp/H5Dappend.hpp:218-240 | the table continues at the dataset's current extent with an empty buffer |
| `PacketTable.Table.EmitChunk` | h5cpp/H5Dappend.hpp:309-314 | the extent grows by a chunk and the buffered block is stored at the old extent |
| `PacketTable.Table.Append` | h5cpp/H5Dappend.hpp:302-317 | dataset plus buffer grow by exactly the value; n stays below N; alignment of the extent is kept both ways |
| `PacketTable.Table.Pad` | h5cpp/H5Dappend.hpp:391-393 | the byte loops fill the rest of the chunk with the fill value and keep what is buffered |
| `PacketTable.Table.Flush` | h5cpp/H5Dappend.hpp:370-405 | the table grows by fill values up to the chunk boundary only, and everything is in the dataset |
| `PacketTable.Run` | h5cpp/H5Dappend.hpp:302-405 | over any run of appends and flushes the table is its old content followed by what the operations add |
| `PacketTable.AppendedAt` | h5cpp/H5Dappend.hpp:302-405 | each appended value is found right after the elements of the earlier operations |
| `PacketTable.AddsLittle` | h5cpp/H5Dappend.hpp:302-405 | an append adds one element, a flush fewer than a chunk |
| `PacketTable.FlushAligns` | h5cpp/H5Dappend.hpp:370-396 | after a flush the element count is a multiple of the chunk again |
| `PacketTable.OneSession` | h5cpp/H5Dappend.hpp:302-396 | appends and one final flush add the values in order and then padding up to the chunk boundary |
| `StreamingView.Iterator.constructor` | h5cpp/H5Dranges.hpp:63-79 | a sentinel at the end, else the chunk of the first element is cached |
| `StreamingView.Iterator.LoadChunk` | h5cpp/H5Dranges.hpp:106-109 | the buffer holds the decoded chunk of the current element |
| `StreamingView.Iterator.Deref` | h5cpp/H5Dranges.hpp:81-83 | yields the element at the offset |
| `StreamingView.Iterator.Increment` | h5cpp/H5Dranges.hpp:86-91 | moves on by one, keeps the cached chunk current, fetches exactly when a new chunk is entered |
| `StreamingView.View` | h5cpp/H5Dranges.hpp:144-150 | begin and end iterators for rank 1, nothing for other ranks |
| `StreamingView.ForEach` | h5cpp/H5Dranges.hpp:66-150 | iteration yields elements 0 to n-1 in order and fetches each chunk once, in order |
| `StreamingView.StartsAt` | h5cpp/H5Dranges.hpp:86-109 | the j-th chunk fetched is chunk j, so none is fetched twice |
| `StreamingView.WrittenElements` | h5cpp/H5Dranges.hpp:81-109 | on a dataset that holds the chunks of a buffer, element i is element i of the buffer |
| `Handles.CopyAssignBalance` | h5cpp/H5Iall.hpp:126-136 | copy assignment keeps every id's balance, self-assignment and aliasing ids included |
| `Handles.MoveAssignBalance` | h5cpp/H5Iall.hpp:137-146 | so does move assignment |
| `Handles.ConservedStep` | h5cpp/H5Iall.hpp:107-173 | so does every operation, and ids are closed exactly when nobody holds them |
| `Handles.EveryHistory` | h5cpp/H5Iall.hpp:107-173 | over every history a count is live owners plus outside references, and an id has been closed, once, exactly if that reached zero |
| `Handles.Handle.Adopt` | h5cpp/H5Iall.hpp:116-118 | the new handle holds the id given; no count changes |
| `Handles.Handle.Wrap` | h5cpp/H5Iall.hpp:107-111 | the new handle holds the id given; a valid id's count goes up by one, no other changes |
| `Handles.Handle.Default` | h5cpp/H5Iall.hpp:119 | the new handle holds H5I_UNINIT; no count changes |
| `Handles.Handle.Copy` | h5cpp/H5Iall.hpp:120-125 | the new handle holds the source's id, the source keeps it; a valid id's count goes up by one, no other changes |
| `Handles.Handle.Move` | h5cpp/H5Iall.hpp:148-151 | the new handle holds the source's id, the source H5I_UNINIT; no count changes |
| `Handles.Handle.CopyAssign` | h5cpp/H5Iall.hpp:126-136 | from another handle: both hold the source's id, the old id's count goes down by one, the new one's up, no other changes (none at all when a count of at least two would go down and up again); from itself: nothing changes |
| `Handles.Handle.MoveAssign` | h5cpp/H5Iall.hpp:137-146 | from another handle: the target holds the source's id, the source H5I_UNINIT, only the old id's count changes, down by one; from itself: nothing changes |
| `Handles.Handle.Destroy` | h5cpp/H5Iall.hpp:152-157 | a valid id's count goes down by one, the id being closed with the last; no other changes |
| `Handles.Handle.Release` | h5cpp/H5Iall.hpp:173 | returns the id and holds H5I_UNINIT; no count changes |
| `Extent.GetCurrentDims` | h5cpp/H5Sall.hpp:144-175 | the loops compute each dimension's extent in unsigned 64-bit arithmetic |
| `Extent.ExtentModulo` | h5cpp/H5Sall.hpp:144-175 | the extent is count * stride + offset modulo 2^64, the factor less block - 1 with both stride and block given, 1 without a stride |
| `Extent.SelectHyperslab` | h5cpp/H5Dwrite.hpp:180-192 | the normalised selection: count / block blocks, or one block of count |
| `Extent.SelectedExactly` | h5cpp/H5Dwrite.hpp:180-192 | exactly the coordinates offset + k * stride + m with m < block and (k + 1) * block <= count are selected along each dimension, or count places in a row without a block |
| `Extent.SelectedCount` | h5cpp/H5Dwrite.hpp:180-192 | when no two blocks share a place, as many as the product over the dimensions of count / block * block, or of count without a block |
| `Extent.BlockStride` | h5cpp/H5Sall.hpp:160-163 | block * (stride - block + 1) >= stride for 1 <= block <= stride |
| `Extent.Contains` | h5cpp/H5Sall.hpp:144-175 | every selected coordinate is inside the extent, for every combination of the optional arguments |
| `Extent.CreateThenSelect` | h5cpp/H5Dwrite.hpp:180-192 | the same for the two computations run one after the other |
| `Extent.ContainedExactly` | h5cpp/H5Sall.hpp:160-173 | a strided, blocked dimension is contained if and only if no block fits the count, block <= stride, or the wrapped product exceeds the offset |

## Left out

- BasicPipeline.Pipeline.RunInPlace: nbit and scaleoffset, which the in-place branch also admits, are not modelled.
- InPlaceChains.BranchExact: excluded are blocks of less than two bytes, and chains with a checksum in front of all the shuffles that move something and another between two of them (never chains with the checksums last, `InPlace.ChecksumsLast`); for those `InPlace.StagesExact` speaks of each stage and `InPlace.BranchSafe` gives the one direction.
- BasicPipeline.Pipeline.Write: offsets are zero, which is the only way its callers reach it (hyperslab writes go to HDF5's own chunk processor); for rank above 1 it asks for the condition of `BasicPipeline.RowCopyExact`, since the copies overrun the source otherwise (`BasicPipeline.WriteOverruns`).
- BasicPipeline.Pipeline.Read: asks for all chunks to be present and to decode to whole blocks; a missing or damaged chunk, whose error code the source ignores, is not modelled, and neither are reads before HDF5 2.0.
- BasicPipeline.Pipeline.constructor: the scratch capacity is a parameter; `filter_scratch_bound` depends on library bounds and has no term for Gorilla, so callers must know that their chain fits (`FilterChain.CapacitySuffices` gives a sufficient size).
- BasicPipeline.Pipeline.WriteRank1: the loop counter is unbounded; `j += B[0]` could wrap only for buffers near 2^64 elements.
- Gorilla.CountLeadingZeros: the portable loop; compilers with built-ins use those.
- Gorilla.DecodeInto: a stream that ends early or shifts by a negative count is undefined behaviour in the source and excluded by its precondition.
- Gorilla.Apply: the same streams are excluded in the reverse direction.
- GorillaBound.ScratchExact: the bounds of zlib, lz4 and zstd are library calls; the lemma takes zlib's to be at most the largest of the formulas, and `GorillaBound.FitExactly` covers any other capacity.
- Shuffle.Apply: the scalar loops; the SSSE3 and AVX versions, prefetching and streaming stores are machine-specific.
- FilterChain.UndoneIsUndone: deflate, LZ4, Zstd and szip are library calls, represented by functions that return nothing or are inverted; their parameters (`cd_values`, overwritten in `set_cache`) are not modelled, and a filter that throws is not either.
- WorkerPool.EverySchedule: steps are sequentially consistent; weak-memory effects are not modelled, and the wake-ups are bound to fewer than 2^32 rings, or 2^31 submissions once the destructor has stopped waiting, because otherwise the property is false (`WorkerPool.OpenExactly`, `WorkerPool.SafeExactly`).
- WorkerPool.ShutdownCompletes: asks for fewer than 2^31 tasks (`WorkerPool.DrainsExactly`); threads are joined in any order; fairness of the scheduler is not modelled.
- PoolSession.EveryGetServed: shows that a schedule exists, which with a fair scheduler is enough; fairness itself is not modelled.
- PoolSession.EverySessionCanFinish: as for EveryGetServed; past 2^32 rings a lost wake-up can leave the producer waiting (`WorkerPool.OpenExactly`).
- PoolRead.DrainFront: these methods render the producer's side on one thread, readiness being a free choice and the closure running when its result is taken; workers and completion orders are in `PoolRead.EveryReadSchedule`.
- PoolRead.DrainReady: as for DrainFront.
- PoolRead.ReadRank1: as for DrainFront.
- PoolRead.Read: as for DrainFront; the deque is a local of the read, which is the only time the field is not empty.
- PacketTable.Table.Append: scalar appends on rank-1 datasets; raw-pointer, container and string appends, `reset` and the SWMR metadata flush bypass the buffer or forward to HDF5.
- PacketTable.Table.constructor: asks for a chain that undoes every chunk and fits the scratch buffers.
- StreamingView.Iterator.Increment: copies of an iterator share one pipeline, so a copy kept across a chunk boundary sees the new chunk, as the input-iterator category allows; only the iterator in use is modelled.
- Handles.EveryHistory: HDF5 ids are not reused and not guessed, and a reference is adopted or closed only by code that has one; the conversion-off handle class and the global lock of the multi-threaded build are not modelled.
- Extent.ContainedExactly: numbers whose products leave 64 bits a second time are excluded; that HDF5 itself refuses a selection of several blocks longer than the stride is not modelled.
- Words are little-endian; HDF5 calls, files, property lists and type ids are outside the model, as are attribute I/O, sparse I/O, linear-algebra mappers, the pass-through filters (nbit, scaleoffset, add, jpeg, disperse), the ROMIO and Hadoop pipelines, and type dispatch.
