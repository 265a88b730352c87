# A verified model of the Pebble index stores

Eight stores keep, for every 32-byte key, an append-only log of 64-bit indices and answer two
questions about it: the log from a given position on, and the RFC 6962 root over it. They lay
the log out in Pebble in eight different ways. This project models the stores, the ordered
key-value store under them, the compact Merkle range and the value codecs, and proves that in
every reachable state each store answers exactly what the log says.

The abstract object is a map from keys to logs (`IndexStores.IndexStore.logs`). The records
under the prefix of a key are a *function of its log* (`Layout.StoredValue`), independent of how
the log was cut into batches; `Layout.Rep` says that the store holds exactly these records under
that prefix and says nothing about any other record. Every operation is proved against the log.

| file | contents |
|---|---|
| `Bytes.dfy` | lexicographic order, big-endian numbers, prefix successor |
| `Pebble.dfy` | sorted records, atomic batch, snapshot iterator against live `Get` |
| `Merkle.dfy` | Merkle Tree Hash of section 2.1 of RFC 6962, compact range |
| `Codec.dfy` | all value encoders and decoders |
| `IndexLog.dfy` | logs, chunks of the global index, what a scan answers |
| `Layout.dfy` | record keys and values of all stores, the representation invariant, immutability |
| `Cursor.dfy` | where a cursor stands among the records of many keys |
| `Writer.dfy`, `Latest.dfy`, `NoSeal.dfy` | the no-seal write loop, latest-chunk searches, roots |
| `Scan.dfy`, `Backward.dfy` | the scanning lookups and the backward walk |
| `Sealing.dfy`, `LogEngine.dfy`, `FlatEngine.dfy` | the other layouts |
| `IndexStore.dfy` | the interface over all stores, runs of batches, lookups beside a writer |
| `Equivalence.dfy`, `Workload.dfy` | agreement of all stores; the benchmark's writer loop |

Conventions. The hash functions are parameters (`Merkle.Hasher`), so every statement holds for
all of them; a key is 32 bytes; `nil` and the empty slice are one answer; error texts become
constructors of `Codec.Error`. `Layout.Kind` names the eight stores: the four no-seal stores
share one write loop, and so do the two sealing stores: their sources agree up to key encoding,
latest-chunk search, back-pointers and value codec. The log store is laid out as if its chunks
held one index each. The run-time panic of a slice expression is `Codec.SliceOutOfRange`.
`hide` statements only shorten proofs.

What callers must respect. The code checks that the indices of a key are non-decreasing within
a batch (except in the flat and log stores) and refuses the batch otherwise; nothing checks
order across batches. What is relied on is weaker than index order: the *chunk numbers* of a key
never decrease (`IndexLog.ChunkOrdered`; for the log store, whose chunks hold one index, that is
index order), and a log has fewer than 2^64 entries. `IndexStores.IndexStore.WriteBatch` takes
any batch for keys that are in order so far: a key that the batch takes back to a lower chunk
joins `disordered` and every other key is unharmed. Such a key is lost for good, since
`Backward.UnwindsIffOrdered` proves that the logs which any chunks can give back are exactly the
chunk-ordered ones; `Equivalence.OutOfOrder` runs a store into it.

In chunk order the flat, backward-walk and chain-walk lookups are exact, duplicates included. The
scanning lookups and the log store promise the same, but repeated indices, which the check
accepts, break them: `Equivalence.RepeatedIndex` shows one sorted batch and three answers,
`Equivalence.AnswerIsExactIff` says exactly when each store is right at a start, and
`IndexLog.ScanIsExactFromEveryStartIff` and `LogEngine.LogIsExactIff` when it is right at all
starts. Without repeated indices all eight are right (`IndexStores.AnswerIsSuffix`).

Where code and documentation disagree, the model follows the code: the documents speak of a
chunk capacity in entries per key, but a chunk spans `chunkSize` consecutive global index
values; the interface promises every index from the start-th match on, which fails for the
repeated indices described above.

## Model

| member | source | states |
|---|---|---|
| `IndexStores.IndexStore.WriteBatch` | store/inverted_prefix_chunk_scan.go:73-200 | from any state that represents the logs, a batch extends each log by exactly its new indices and the state again represents them; the six chunked stores refuse a batch exactly when some key has two neighbouring indices in the wrong order, and then nothing changes; the flat and log stores refuse none; a batch that takes a key back to a lower chunk is accepted, and costs exactly those keys |
| `IndexStores.IndexStore.Lookup` | store/store.go:17-19 | each kind of store answers from the log of that key alone, with any other keys, lost keys and foreign records present; without repeated indices, and in the flat, backward-walk and chain-walk stores always, the answer is entry by entry the log from `start` on; no corruption error can occur |
| `IndexStores.IndexStore.GetSubRoot` | store/store.go:21-22 | for every kind of store, the root equals the RFC 6962 tree hash over the whole log, each index as eight big-endian bytes, and the empty root for an absent key |
| `IndexStores.IndexStore.Apply` | harness/harness.go:160-175 | a run of good batches is accepted and the logs are the concatenations of the indices given |
| `IndexStores.IndexStore.LookupBesideWriter` | store/sealing_chunk.go:178-287 | the writer commits the scheduled batches before each live read, and the read sees them; the chain walk still returns the suffix of the log as of its snapshot, with one live read for each chunk number from the first chunk of the shortest suffix on, except the latest |
| `IndexStores.IndexStore.Collect` | store/sealing_chunk.go:60-168 | after the loop over the sorted keys the pending batch represents all extended logs but those taken back to a lower chunk; it stops exactly when some key's indices are unsorted |
| `IndexStores.IndexStore.CollectFlat` | store/flat.go:31-77 | in whatever order the keys come, the pending batch represents all extended logs |
| `IndexStores.IndexStore.WriteKey` | store/chunk.go:63-171 | one key of a batch, in whatever order its indices come: in chunk order its log is extended; no record outside its prefix ever changes |
| `IndexStores.IndexStore.constructor` | store/store.go:12-29 | a fresh store represents the empty map of logs: the log of every key is empty |
| `IndexStores.NewStore` | store/inverted_prefix_chunk_scan.go:28-31 | chunked stores are made exactly for chunk sizes 1 to 65536 |
| `IndexStores.SortedKeys` | store/store.go:33-42 | the keys of the batch, each once, in lexicographic order, whatever order the map yields them in |
| `IndexStores.AllRepAfterKey` | store/inverted_prefix_chunk_scan.go:89-194 | writing under one key's prefix, rightly or wrongly, preserves the representation of every other key |
| `IndexStores.LogsOnlyGrow` | store/store.go:13-16 | along any run every log is only appended to |
| `IndexStores.LogsAfterSteps` | store/store.go:13-16 | a run extends each log batch by batch, by exactly the indices given |
| `IndexStores.RefusedInFigures` | store/chunk.go:69-74 | the refused batches, by their indices: in the chunked stores, those with two neighbours in the wrong order |
| `IndexStores.DisorderedInFigures` | store/chunk.go:124-151 | the keys a batch costs, by their indices: those whose extended log has two neighbours whose chunks are in the wrong order |
| `IndexStores.GoodBatchInFigures` | store/store.go:13-16 | the batches as WriteBatch is meant to be called, by their indices |
| `IndexStores.GoodRunSteps` | store/store.go:13-16 | good batches one after another are exactly the good runs |
| `IndexStores.ScheduledSteps` | store/sealing_chunk.go:234-243 | the writer's schedule is the sum of what it commits before each live read, up to the length of the run |
| `IndexStores.SawInFigures` | store/sealing_chunk.go:240-243 | at its i-th live read the lookup sees a store that represents, key by key, the logs after the batches due by then |
| `IndexStores.AnswerByElements` | store/store.go:17-19 | the answer has as many entries as the log has left, and its i-th is the log's (start + i)-th |
| `IndexStores.AnswerIsSuffix` | store/store.go:17-19 | without repeated indices every kind of store answers with the suffix from `start`, on every log that it can hold |
| `Equivalence.CrossEngineConsistency` | store/store_test.go:972-1077 | the same run on two fresh stores of any kinds and chunk sizes: equal lookups and equal roots for every key without repeated indices |
| `Equivalence.IncreasingSuitsAll` | store/store.go:13-16 | strictly increasing logs, the intended use, meet that condition for every kind and chunk size |
| `Equivalence.AnswerIsExactIff` | store/store.go:17-19 | on every log that a store can hold, the exact condition per kind and start under which the answer is that suffix |
| `Equivalence.RepeatedIndex` | store/chunk.go:69-74 | on three fresh stores the same sorted batch with a repeated index is accepted, and the same lookup is right, loses an entry, or fails |
| `Equivalence.OutOfOrder` | store/chunk.go:124-151 | a second batch with a smaller index is accepted, no chunks can give that log back, and the other key of the batch answers correctly |
| `IndexLog.SeekBoundIsSafe` | store/chunk_scan.go:186-190 | at most `start` entries of a log without repeated indices, so of any strictly increasing log, lie in chunks below `start / chunkSize` |
| `IndexLog.ScanIsExactIff` | store/chunk_scan.go:229-246 | a scan returns the promised suffix if and only if at most `start` entries lie below the chunk it seeks |
| `IndexLog.ScanIsExactFromEveryStartIff` | store/chunk_scan.go:186-246 | from every start it does so if and only if no chunk has more entries before it than there are indices before it, a condition on the log that a writer can check |
| `IndexLog.ScanIsExact` | store/prefix_chunk_scan.go:207-264 | without repeated indices the "invariant violated" exit is unreachable and an empty scan means there is nothing to return |
| `IndexLog.ScanOutcomes` | store/chunk_scan.go:229-246 | every outcome of a scan by the number of entries in lower chunks: an empty answer, the "invariant violated" exit, or entry by entry the log from `start` on |
| `IndexLog.ScanOnDuplicates` | store/chunk.go:69-74 | concrete sorted logs with a repeated index on which a scan loses an entry or fails |
| `IndexLog.AbsRestores` | store/inverted_prefix_chunk_scan.go:179-189 | chunk number and 16-bit relative index restore the index, without overflow or truncation |
| `IndexLog.ChunkMonotone` | store/chunk.go:124-126 | chunk numbers respect index order |
| `IndexLog.BelowOfExtension` | store/chunk.go:124-159 | a log position at which a chunk begins stays the beginning of that chunk however the log is extended in chunk order |
| `IndexLog.DistinctIsExactIff` | store/log.go:104-138 | one record per index keeps the whole log if and only if no index repeats |
| `IndexLog.DistinctKeepsEach` | store/log.go:104-138 | what one record per index keeps: every index of the log once, in increasing order |
| `IndexLog.SuffixElements` | store/flat.go:106-109 | a suffix is as long as what is left of the log, and its i-th entry is the log's (start + i)-th |
| `IndexLog.NonDecreasingAdjacent` | store/chunk.go:69-74 | to be sorted is a matter of neighbours |
| `IndexLog.ChunkOrderedAdjacent` | store/chunk.go:124-126 | so is chunk order: each index divided by the chunk size is at least the quotient before it |
| `IndexLog.BelowCounts` | store/chunk.go:124-126 | the entries below a cut are those whose index divided by the chunk size is smaller |
| `IndexLog.HasChunkIff` | store/chunk.go:124-126 | a chunk exists exactly when some index divided by the chunk size is its number |
| `Scan.LookupInverted` | store/inverted_prefix_chunk_scan.go:204-284 | the four positioning cases and the reverse scan answer what the scan rule says of the log |
| `Scan.SeekStandsInverted` | store/inverted_prefix_chunk_scan.go:220-235 | in a store with arbitrarily many keys the seek leaves the cut at the start chunk behind an exact hit, or else at the position found |
| `Scan.SeekOrder` | store/inverted_prefix_chunk_scan.go:220-235 | which key comparisons the positioning cases can meet after a seek |
| `Scan.LookupForward` | store/chunk_scan.go:181-247 | the bounded forward scan answers what the scan rule says of the log |
| `Scan.LookupPrefix` | store/prefix_chunk_scan.go:202-265 | the prefix-confined forward scan answers the same |
| `Scan.Visit` | store/chunk_scan.go:205-227 | one loop step appends exactly the entries of the next chunk and keeps the first chunk's count as the offset |
| `Scan.Slice` | store/inverted_prefix_chunk_scan.go:266-283 | the tail of a scan answers what the scan rule says of the log |
| `Scan.BoundedSnapshot` | store/chunk_scan.go:192-196 | an iterator bounded by the prefix successor sees all records of the key and nothing behind them |
| `Scan.Step` | store/inverted_prefix_chunk_scan.go:241-248 | the next record in scan direction is the next existing chunk; no record left means no entry left |
| `Cursor.NewerChunk` | store/inverted_prefix_chunk_scan.go:241-248 | the record on the newer side of a cut is the least chunk at or above it, in both key layouts |
| `Cursor.OlderChunk` | store/chunk.go:206-236 | the record on the older side of a cut is the greatest chunk below it, in both key layouts |
| `Cursor.CutAtSeek` | store/chunk_scan.go:205-206 | a seek to a chunk key splits the records of the prefix at that number, whatever other keys are stored |
| `Cursor.CutAtUpperBound` | store/chunk.go:81-94 | a seek below the prefix successor stands behind all records of the prefix |
| `Backward.LookupBackward` | store/chunk.go:181-259 | for chunk-ordered logs, duplicates included, the walk returns exactly the suffix, with every error exit unreachable |
| `Backward.CollectBackward` | store/chunk.go:205-236 | the chunks it collects are exactly the existing chunks from some chunk on, latest first, each as the log has it; at most `start` entries precede that chunk and more precede every later one; it never runs off the key's first chunk |
| `Backward.CollectedInFigures` | store/chunk.go:205-236 | those chunks by the log: as many as there are chunk numbers from the first one on, greatest first, each number times the chunk size plus relative index restoring its entry, with the running count behind it |
| `Backward.UnwindsIffOrdered` | store/chunk.go:238-247 | the logs that collected chunks of any store state can be turned back into are exactly those whose chunk numbers never decrease |
| `Backward.Finish` | store/chunk.go:238-258 | both unsigned subtractions are safe and the slice is the suffix of the log |
| `Backward.CollectedOlder` | store/chunk.go:205-236 | collecting the next older chunk keeps the collected chunks equal to a tail of the log |
| `Sealing.LookupChain` | store/sealing_chunk.go:178-287 | without a writer, the chain walk returns exactly the suffix of a chunk-ordered log |
| `Sealing.StepWalk` | store/sealing_chunk.go:234-262 | a live Get at the back-pointer reads the chunk as of the snapshot although the log was extended; a step is taken only from a chunk with entries before it, so the placeholder 0 of the first chunk is never followed; the remaining count strictly decreases and never underflows |
| `Sealing.BeginWalk` | store/sealing_chunk.go:183-232 | the walk starts from the latest chunk of the snapshot, whose count does not underflow, or knows the log is empty |
| `Sealing.EndWalk` | store/sealing_chunk.go:264-286 | the walk ends with the suffix, having read exactly the chunks of the shortest chunk suffix that reaches `start` |
| `Sealing.ReadsOfWalk` | store/sealing_chunk.go:230-262 | the walk visits exactly one chunk per chunk number of that suffix |
| `Sealing.BackPointer` | store/sealing_chunk.go:149-152 | the back-pointer of a chunk with entries before it names the greatest existing smaller chunk, which is not the latest |
| `Sealing.LiveChunk` | store/sealing_chunk.go:240-251 | in any later state the record at the back-pointer is the same older record |
| `Sealing.WriteKey` | store/sealing_chunk.go:95-167 | sealing a chunk rewrites it once as older; if the chunk number only rises, the records afterwards are those of the extended log, and in any case no other prefix changes |
| `Sealing.ValueOnceSealed` | store/sealing_chunk.go:140-147 | the record written on sealing is the one the extended log calls for |
| `Sealing.LookupScan` | store/sealing_chunk_scan.go:175-258 | the scan over flagged records answers what the scan rule says; the latest record is always met |
| `Sealing.SliceScanned` | store/sealing_chunk_scan.go:236-257 | the running count minus the visited entries is the number of entries in unvisited chunks |
| `Sealing.ReadFlagged` | store/sealing_chunk_scan.go:205-227 | the flag tells latest from older and the relative indices are those of the chunk |
| `Sealing.FlagMarksLatest` | store/sealing_chunk_scan.go:210-227 | a stored value starts with the byte 1 if no entry lies in a higher chunk, and with the byte 2 otherwise |
| `Sealing.OneChunkIsLatest` | store/sealing_chunk_scan.go:138-164 | exactly one chunk of a key is latest, the greatest |
| `Sealing.ReadLatest` | store/sealing_chunk.go:97-113 | the record of the latest chunk reads back to its number, back-pointer, count, range and indices |
| `Sealing.GetSubRoot` | store/sealing_chunk.go:291-340 | the root of the whole log from the latest chunk alone |
| `LogEngine.WriteKey` | store/log.go:62-139 | demoting the previous latest record and writing one record per index yields the records of the extended log if the indices continue it in order, which is not checked, and in any case touches no other prefix |
| `LogEngine.Lookup` | store/log.go:149-180 | the scan returns the suffix of the log without repetitions |
| `LogEngine.LogAnswerElements` | store/log.go:149-180 | entry by entry: from start 0 every index once in increasing order, and from any start what is left of that |
| `LogEngine.LogIsExactIff` | store/log.go:149-180 | from every start that is the promised suffix if and only if the log is strictly increasing |
| `LogEngine.LogOnDuplicates` | store/log.go:104-138 | a concrete sorted log with a repeated index of which the log store loses an entry |
| `LogEngine.GetSubRoot` | store/log.go:183-222 | the root of the whole log, repetitions included |
| `FlatEngine.WriteKey` | store/flat.go:35-77 | the record holds the extended log, also for an empty update, which still writes a record |
| `FlatEngine.Lookup` | store/flat.go:87-110 | the suffix of any log, in whatever order it is |
| `FlatEngine.GetSubRoot` | store/flat.go:113-152 | the root of the whole log |
| `NoSeal.WriteKey` | store/inverted_prefix_chunk_scan.go:119-193 | if the chunk number only rises, the write loop yields the records of the extended log: non-empty chunks with the range over all lower chunks; in any case no other prefix changes, and range mutation never reaches bytes already written |
| `NoSeal.WriteCurrent` | store/inverted_prefix_chunk_scan.go:150-160 | the record written for the current chunk is the one the log calls for |
| `NoSeal.PendingNewChunk` | store/inverted_prefix_chunk_scan.go:162-177 | crossing a boundary, also when the batch starts in a new chunk, keeps the loop invariant |
| `NoSeal.FinishedChunk` | store/chunk.go:126-136 | a chunk that is right stays right when the log leaves it, so an unmodified chunk need not be rewritten |
| `NoSeal.ReadChunk` | store/chunk.go:104-117 | a stored chunk reads back to its number, its range and its relative indices |
| `NoSeal.GetSubRoot` | store/inverted_prefix_chunk_scan.go:287-336 | the root of the whole log from the latest chunk alone |
| `Latest.SeekLatest` | store/chunk.go:80-94 | the reverse seek finds the greatest chunk whenever one exists |
| `Latest.ScanToLatest` | store/prefix_chunk_scan.go:104-116 | the forward scan finds the same chunk |
| `Latest.SeekFirst` | store/inverted_prefix_chunk_scan.go:109-117 | with inverted numbers one prefix seek finds the same chunk |
| `Writer.AppendChunk` | store/chunk.go:138-148 | appending the leaf hashes of a chunk turns the range before it into the range of the log |
| `Writer.IsSorted` | store/chunk.go:69-74 | accepts exactly the non-decreasing slices |
| `Layout.RecordKeysAreOrdered` | store/inverted_prefix_chunk_scan.go:23-25 | record keys of one prefix sort as their chunk numbers, and in reverse in the inverted layout |
| `Layout.RecordKeyBytes` | store/inverted_prefix_chunk_scan.go:153-156 | the bytes of a record key: 'f', 'l' or 'c', the 32 bytes of the key, and the chunk number, or 2^64 - 1 minus it, as eight bytes |
| `Layout.RepRecords` | store/inverted_prefix_chunk_scan.go:119-193 | the store holds a record under a prefix exactly for each chunk into which an index of the log falls |
| `Layout.NoSealValue` | store/merkle.go:83-91 | the value of a chunk in the no-seal layouts: the range over the entries of lower chunks, and the relative indices |
| `Layout.SealingValue` | store/sealing_chunk.go:342-359 | in the sealing layouts: flag 1 or 2, back-pointer, with 0 for the first chunk, running count, range of the latest chunk, relative indices |
| `Layout.LogValue` | store/log.go:234-246 | in the log layout: flag 1 and the range over the whole log with the greatest index, flag 2 alone with the others |
| `Layout.FlatRecord` | store/flat.go:165-184 | the record of a key in the flat layout: the framed range over the whole log, then the log |
| `Layout.RepChunk` | store/inverted_prefix_chunk_scan.go:186-192 | under the key of a chunk number stands the value of that chunk, or nothing if no index falls into it |
| `Layout.PrefixesAreDisjoint` | store/inverted_prefix_chunk_scan.go:102-104 | no record key belongs to two keys |
| `Layout.AppendLeavesOtherChunks` | store/inverted_prefix_chunk_scan.go:148-182 | an appended index changes no chunk but its own and, in flagged layouts, the one that was latest |
| `Layout.SealedChunksAreImmutable` | store/sealing_chunk.go:126-158 | once a higher chunk exists, no extension of the log changes the value of a chunk |
| `Layout.SealedRecordsAreImmutable` | store/inverted_prefix_chunk_scan.go:148-182 | between two states of a run the stored bytes of such a chunk are equal |
| `Layout.StoredRangeNeverChanges` | store/chunk.go:113-170 | in the no-seal layouts a chunk's range never changes after creation and its relative indices only grow at the end |
| `Layout.StoredRelsAreOrdered` | store/inverted_prefix_chunk_scan.go:119-193 | the relative indices stored in a chunk lie below the chunk size, sort as the log does, and are strictly increasing where the log is |
| `Codec.DeserializeChunkValue` | store/merkle.go:94-118 | accepts exactly the byte strings whose lengths fit the size they start with, and what it returns re-encodes to the input |
| `Codec.ChunkBytesWellFormed` | store/merkle.go:83-91 | every encoded chunk is accepted: the boundary is recovered from the first eight bytes |
| `Codec.ChunkBytesInjective` | store/merkle.go:83-91 | distinct chunks have distinct bytes, so the delimiter-free codec is a bijection |
| `Codec.DeserializeRange` | store/merkle.go:41-59 | accepts exactly 8 bytes plus 32 per one bit of the size, and re-encodes to its input |
| `Codec.DeserializeUint16Slice` | store/merkle.go:71-80 | accepts exactly the even lengths, and re-encodes to its input |
| `Codec.WordsInjective` | store/merkle.go:62-68 | distinct index lists have distinct bytes |
| `Codec.WordsDigits` | store/merkle.go:62-68 | each relative index as two bytes, the higher first, at its position |
| `Codec.QuadsAt` | store/flat.go:173-176 | each index of the flat store as its eight bytes at its position |
| `Codec.RangeBytesAt` | store/merkle.go:18-38 | the size in the first eight bytes, and each hash at its position |
| `Codec.ValueLayouts` | store/sealing_chunk.go:342-404 | all seven value layouts, field by field, with the flags in figures |
| `Codec.UvarintRoundTrip` | store/flat.go:169-171 | frame lengths, bounded by 64 hashes, take at most two varint bytes and read back |
| `Codec.PutUvarintDigits` | store/flat.go:169-171 | the bytes of a length: itself below 128, else its lowest base-128 digit plus 128 and then the other |
| `Codec.UvarintDigits` | store/flat.go:187-190 | digit by digit the value that is read from any number of bytes |
| `Codec.UvarintOfTwoBytes` | store/flat.go:187-190 | the values that one and two bytes give |
| `Codec.UvarintEnds` | store/flat.go:187-190 | reading succeeds exactly when a byte below 128 comes within ten bytes, the tenth being at most 1, and stops behind it |
| `Codec.FrameForms` | store/flat.go:187-200 | the frames with one and two length bytes, in figures, padded ones included |
| `Codec.ReadFrame` | store/flat.go:187-200 | accepts exactly a varint, possibly padded, of the length of a serialized range, followed by that range, and returns the position behind it; says which inputs have a bad varint or are too short, and panics exactly when the declared length overflows a Go `int` |
| `Codec.EncodedFrame` | store/flat.go:166-184 | whatever follows it, an encoded range is such a frame |
| `Codec.DeserializeFlatValue` | store/flat.go:186-214 | accepts exactly a frame followed by whole 64-bit indices and returns their values; inverts the encoder |
| `Codec.DeserializeLogLatest` | store/log.go:248-264 | accepts exactly the latest flag followed by a frame, ignoring bytes behind it; inverts the encoder and never accepts an older value |
| `Codec.DeserializeSealingLatest` | store/sealing_chunk.go:361-394 | accepts exactly the latest flag, two counters, a frame and whole 16-bit indices, and returns their values; inverts the encoder and never accepts an older chunk |
| `Codec.DeserializeSealingOlder` | store/sealing_chunk.go:406-420 | accepts exactly the encodings of older chunks and inverts them |
| `Codec.DeserializeScanLatest` | store/sealing_chunk_scan.go:336-368 | the same with one counter |
| `Codec.AcceptedValues` | store/sealing_chunk.go:361-394 | the values that the framed decoders accept, field by field with the flags in figures |
| `Codec.DeserializeScanOlder` | store/sealing_chunk_scan.go:378-390 | accepts exactly the encodings of older chunks and inverts them |
| `Codec.SerializeRange` | store/merkle.go:18-38 | filling the buffer in place yields size and hashes in order |
| `Codec.SerializeSealingLatest` | store/sealing_chunk.go:342-359 | filling the buffer in place yields flag, back-pointer, count, framed range and indices |
| `Merkle.AppendKeepsFrontier` | store/inverted_prefix_chunk_scan.go:162-171 | binary-counter append keeps the hashes equal to the tree hashes of the perfect subtrees of the log |
| `Merkle.FoldIsTreeHash` | store/inverted_prefix_chunk_scan.go:323-330 | the right-to-left fold of those hashes is the Merkle Tree Hash of section 2.1 of RFC 6962 |
| `Merkle.LogRootOfOne` | store/inverted_prefix_chunk_scan.go:314-322 | the root of no index is the empty root, and that of one index its leaf hash |
| `Merkle.LogRootOfHalves` | store/inverted_prefix_chunk_scan.go:323-330 | the root of a power of two of indices and at most as many more is the node hash of the two roots; with the former, one root for each log |
| `Merkle.FrontierLength` | store/merkle.go:22-27 | a range of size n holds as many hashes as n has one bits |
| `Merkle.PopCountOfU64` | store/merkle.go:24-27 | a 64-bit size needs at most 64 hashes |
| `Merkle.CompactRange.Append` | store/merkle.go:12-14 | the in-place merge loop is the binary-counter carry |
| `Merkle.CompactRange.GetRootHash` | store/inverted_prefix_chunk_scan.go:323-330 | the loop over the hashes is the right-to-left fold |
| `ByteStrings.PrefixUpperBound` | store/log.go:33-43 | nothing exactly for all-0xff or empty prefixes; otherwise the keys from the prefix up to the result are exactly those with the prefix |
| `ByteStrings.UpperBoundIsExact` | store/log.go:33-43 | the same for the successor as a function, for prefixes of any length |
| `ByteStrings.BigEndianIsMonotone` | store/chunk.go:131-132 | big-endian fields of one width sort as the numbers they encode |
| `ByteStrings.BigEndianDigits` | store/chunk.go:131-132 | the eight bytes of a number, the highest first |
| `ByteStrings.LessAtFirstDifference` | store/store.go:38-40 | keys compare by their first difference, and a proper prefix comes first |
| `Pebble.DB.Commit` | store/inverted_prefix_chunk_scan.go:196-198 | the last Set of a key in the batch wins and all other records stay |
| `Pebble.DB.Get` | store/sealing_chunk.go:240-243 | reads the live store, present or absent |
| `Pebble.PutUpdatesContents` | store/inverted_prefix_chunk_scan.go:157-159 | sorted insertion changes one key of the contents |
| `Pebble.RankFinds` | store/chunk_scan.go:205-206 | a key is stored if and only if a seek to it lands on it |
| `Workload.Generator.NextBatch` | harness/workload.go:53-75 | groups consecutive indices by key in order, with no empty slice; each index goes to the key that its mode chooses, mode by mode: the hash of the index modulo the number of keys in mode B, of the next uniform draw in mode A, of the next Zipf draw in mode C |
| `Workload.Generator.ChoiceByMode` | harness/workload.go:59-70 | the choice of a key, mode by mode |
| `Workload.NextBatchIsGood` | harness/harness.go:160-163 | consecutive batches always meet what the stores rely on |
| `Workload.RunBenchmark` | harness/harness.go:160-175 | for any key choice and any number of batches none is refused, and every key ends with exactly the indices given to it |
| `Workload.LogsPartitionTheIndices` | harness/harness.go:160-175 | those logs partition the index range, each index at one position of one key's log, and every store returns them |
| `Workload.AssignedIsIncreasing` | harness/workload.go:53-75 | every log built by the workload is strictly increasing over the whole run |
| `Workload.NewGenerator` | harness/workload.go:23-48 | made exactly for modes A, B, C, with the choice of each, and a positive number of keys |

## Left out

- Pebble's internals (levels, write-ahead log, Bloom filters, compaction, disk, open and close): an ordered map with snapshot iterators stands for them. Pebble and the compact-range library are not part of the repository; `Merkle.CompactRange` follows the shape that `store/merkle.go` enforces.
- SHA-256: leaf, node and empty-root hashes are arbitrary functions to 32 bytes.
- I/O errors of Pebble calls, contexts and formatted error texts: decoding errors are modelled and proved unreachable, the "invariant violated" exits of the scans are reached only by logs with repeated indices, and the others have no cause in the model.
- Concurrent `WriteBatch` calls: a batch reads, modifies and writes without a lock, and the benchmark has a single writer.
- IndexStores.IndexStore.WriteBatch: says nothing of writing again to a key that an earlier batch took back to a lower chunk. What the chunks of such a key hold depends on the batches and no longer on its log, which no chunks can give back.
- IndexStores.IndexStore.Lookup: nor of reading such a key, and `IndexStores.IndexStore.GetSubRoot` likewise.
- IndexStores.IndexStore.Apply: runs of batches that are accepted and in order; a refused or disordering batch is one step of `WriteBatch`.
- Logs of 2^64 entries or more.
- Writers beside lookups other than the chain walk: those lookups read one snapshot only, so their contracts already cover them. The order of a batch's commit against `NewIter` is the only interleaving they have.
- Workload.Generator.NextBatch: does not model the random sources and the Zipf sampling; both are arbitrary streams read once per index.
- `ReadGenerator`, timing, rate limiting, percentiles, directory sizes and the command line: statistical or I/O.
