# BinaryDs in Dafny

A model of the `BinaryDs` container of `src/binaryds.py`. The container keeps
a dataset in one file. The file starts with an 8-byte header: the magic byte
`0x27`, a raw flag, a 2-byte little-endian feature count and a 4-byte
little-endian example count. Fixed-width records follow, each one category
byte and then `features` payload bytes. Record `i` sits at byte offset
`8 + (features + 1) * i`.

The model is imperative where the source is:

- `BinaryDataset.BinaryDs` is a class with the mutable fields of the
  container: the raw flag, the feature count, the example count, whether a
  file is open, the header bytes and the record area as a sequence of
  record slots.
- Every operation (`open`, `close`, `write`, `read`, `truncate`, `shuffle`,
  `balance`, `merge`, `split`, `deduplicate`) is a method with the source's
  loops and their invariants.
- Each method is proved against a specification function on values, which
  lives in its own module: `Format` (header codec, chunk capacities),
  `Records` (record area and byte layout), `Shuffling`, `Balancing`,
  `Chunking` (merge and split) and `Dedup`.
- Properties of those functions are proved as lemmas.

The class follows the code as written. Where the code does not do what its
comments or its evident design say, the model has both the as-written
function, with a lemma or a concrete input showing the difference, and the
intended function, with the intended property proved (see "## Findings").

Some behaviour is stated as written even though it is not a finding:

- The constructor turns the raw flag into the byte 0 or 1.
- A read-only open adopts the stored raw flag and feature count. A writable
  open rejects a mismatch. In both cases the stored example count is taken
  over before the check.
- `balance` writes the set-aside records back in the order the backward walk
  met them, which is the reverse of their file order. It never truncates the
  file, so the discarded records stay on disk behind the new count.
- `deduplicate` may write a record past the live region, leaving a gap that
  reads back as zero records.

Supplied as parameters instead of computed:

- The operating system's answers: whether the path exists, the read and
  write permissions, and the stored bytes.
- The values `random.random()` returns.
- The hash function that stands for `hashlib.md5`.

## Model

| member | source | states |
|---|---|---|
| Format.EncodeHeader | src/binaryds.py:58-62 | the header a new file gets is 8 bytes: magic, raw flag, and feature and example counts that read back little-endian as the given numbers |
| Format.DecodeHeader | src/binaryds.py:91-99 | decoding succeeds exactly when the first byte is the magic byte; on an 8-byte header it yields byte 1 and the little-endian values of bytes 2-3 and 4-7 |
| Format.HeaderRoundTrip | src/binaryds.py:58-99 | decoding the header that creating a file writes gives back the same raw flag, feature count and example count |
| Format.HeaderDecodeEncode | src/binaryds.py:91-99 | an 8-byte header starting with the magic byte is exactly the encoding of what it decodes to |
| Format.ToLE | src/binaryds.py:59-62 | `to_bytes(width, "little")` gives `width` bytes whose little-endian value is the number |
| Format.ToLEFromLE | src/binaryds.py:92-99 | encoding the little-endian value of a byte string gives the byte string back |
| Format.FromLE | src/binaryds.py:92-99 | the little-endian value of `n` bytes is below 256^n |
| Format.HeaderPrefix | src/binaryds.py:59-61 | the first four header bytes are the magic byte, the raw flag and the feature count |
| Format.Field | src/binaryds.py:92-99 | a read past the end of the file returns fewer bytes; within the file it is the exact span |
| Format.SetCount | src/binaryds.py:146-147 | rewriting the count field keeps the first four header bytes and stores the new count |
| Format.SetCountEncodes | src/binaryds.py:146-147 | on a header describing the dataset, rewriting the count gives the full encoded header for the new count |
| Format.ChunkCapacity | src/binaryds.py:253 | the merge and split chunk `int(BLOCK_SIZE / (features + 1))` holds at least 64 records |
| Format.ChunkCapacityFits | src/binaryds.py:253 | that chunk is the largest number of whole records fitting in one block |
| Format.DedupChunkElements | src/binaryds.py:298-301 | the deduplicate chunk, `BLOCK_SIZE + fs` rounded down to a multiple of `fs` and counted in records, is one more than the merge chunk |
| Records.FlattenLength | src/binaryds.py:144 | a record area of `n` records of width `features` is `(features + 1) * n` bytes long |
| Records.FlattenAppend | src/binaryds.py:148-151 | the bytes of two record areas one after the other are their concatenation |
| Records.FlattenAt | src/binaryds.py:167-172 | record `i` occupies the `features + 1` bytes from `(features + 1) * i` in the record area |
| Records.SlotBytes | src/binaryds.py:184-189 | in the whole file record `i` lies at `HEADER_SIZE + (features + 1) * i`, which is the offset arithmetic every operation uses |
| Records.Overwrite | src/binaryds.py:148-151 | writing a batch at slot `at` puts the batch there, keeps what lies before and beyond it, and grows the area when the write runs past its end |
| Records.OverwriteConsecutive | src/binaryds.py:148-151 | two successive writes are one write of both batches |
| Records.OverwriteLive | src/binaryds.py:144-151 | writing at the end of the live region appends the batch to the live records |
| Records.ZeroRecordBytes | src/binaryds.py:236 | a zero record is `features + 1` zero bytes, and a record of that width whose bytes are all zero is the zero record: a zero-filled slot reads back as category 0 with an all-zero payload |
| Records.ZerosFlatten | src/binaryds.py:236 | extending the file by `n` zero records adds exactly `(features + 1) * n` zero bytes |
| Records.PlaceAt | src/binaryds.py:333-334 | writing one record at a slot sets that slot, keeps the others, and a gap left by seeking past the end reads as zero records |
| BinaryDataset.OpenOutcome | src/binaryds.py:54-113 | a missing path is created unless read-only; an existing file opens only with the needed access right; a bad magic byte is rejected; a writable open rejects a different raw flag or feature count, each condition in both directions |
| BinaryDataset.BinaryDs.constructor | src/binaryds.py:27-46 | a new container is closed, holds the configured mode, feature count and raw flag, and counts no examples |
| BinaryDataset.BinaryDs.Open | src/binaryds.py:48-113 | the outcome is the open decision; on success the file is open and in step; a denied access leaves an open or closed container as it was, and every other failure leaves it closed; a created file holds the encoded header and no records; an existing one keeps its bytes; the stored count is adopted whenever the header was read, and the raw flag and features only when read-only |
| BinaryDataset.BinaryDs.SyncedEncodes | src/binaryds.py:144-147 | an open file whose count field holds `examples` carries exactly the encoded header of the fields, and conversely |
| BinaryDataset.BinaryDs.Close | src/binaryds.py:73-79 | closing leaves the container closed and every other field as it was, also when it was already closed |
| BinaryDataset.BinaryDs.IsRaw | src/binaryds.py:115-120 | on an open file the raw flag is header byte 1 |
| BinaryDataset.BinaryDs.GetFeatures | src/binaryds.py:122-126 | on an open file the feature count is the 2-byte field of the header |
| BinaryDataset.BinaryDs.GetExamplesNo | src/binaryds.py:128-132 | on an open file whose header is in step, the example count is the 4-byte field of the header |
| BinaryDataset.BinaryDs.Write | src/binaryds.py:134-151 | a payload of the wrong length fails with nothing changed, and only then; otherwise the count grows by the batch length, the header count follows, the batch lands from slot `examples` on, and the live records become the old ones followed by the batch; a file that ended right after its live records still does |
| BinaryDataset.BinaryDs.Read | src/binaryds.py:153-173 | fails with `IndexError` exactly when `index + amount` exceeds the count; otherwise returns records `index .. index + amount` of the live records, in order, and changes nothing |
| BinaryDataset.BinaryDs.Truncate | src/binaryds.py:231-239 | the count becomes `left`, the header follows, the file is cut (or zero-extended) to `left` records, and the first `left` live records are kept |
| BinaryDataset.BinaryDs.Shuffle | src/binaryds.py:175-193 | the live records become the swap sweep with the draws `int(random.random() * j)`; the header, the count and the slots past the live region are unchanged |
| Shuffling.Draw | src/binaryds.py:182 | the draw for position `j > 0` is below `j` |
| Shuffling.AsWrittenDraws | src/binaryds.py:181-182 | the draws the source makes, one per position, are each the draw for their position, and each is below its position |
| Shuffling.SwapStep | src/binaryds.py:183-193 | one step of the sweep keeps the number of records |
| Shuffling.SwapStepAt | src/binaryds.py:183-193 | one step exchanges records `j` and `k` and touches no other record |
| Shuffling.SwapStepPermutes | src/binaryds.py:183-193 | one step is a permutation |
| Shuffling.SwapWithin | src/binaryds.py:184-193 | exchanging two live slots of the file is the swap step on the live records and leaves the rest of the file alone |
| Shuffling.SweepLoopStep | src/binaryds.py:181-193 | one pass of the loop keeps the rest of the sweep leading to the same result |
| Shuffling.SweepPermutes | src/binaryds.py:181-193 | the sweep of any prefix of positions keeps the number and the multiset of records |
| Shuffling.SweepKeepsAbove | src/binaryds.py:181-193 | the steps for positions below `m` never touch positions `m` and above |
| Shuffling.ShuffledPermutes | src/binaryds.py:175-193 | shuffling keeps the count and the multiset of records |
| Shuffling.ShuffleAsWrittenMovesLast | src/binaryds.py:182 | as written, with two or more records the last position always receives a record from a lower position |
| Shuffling.ShuffleAsWrittenSwapsPair | src/binaryds.py:182 | as written, two records are always exchanged whatever the random values |
| Shuffling.DrawFair | src/binaryds.py:182 | the draw `int(random.random() * (j + 1))` is at most `j` |
| Shuffling.DrawFairReaches | src/binaryds.py:182 | every position `k <= j` is the fair draw for some value in [0, 1) |
| Shuffling.FairDraws | src/binaryds.py:182 | the fair draws keep every draw within its position |
| Shuffling.ShuffleFairCanKeepOrder | src/binaryds.py:182 | with the fair draw the sweep can leave every record in place |
| Shuffling.IdentityDrawsKeep | src/binaryds.py:183 | when every draw is its own position no record moves |
| BinaryDataset.BumpCounter | src/binaryds.py:205-208 | one record of the counting pass grows the counter list to cover its category and raises that counter by one |
| Balancing.Bump | src/binaryds.py:206-208 | the counter list covers the category afterwards and grows no further |
| Balancing.BumpAt | src/binaryds.py:206-208 | the category's counter goes up by one (a new one counting from zero) and every other counter keeps its value |
| BinaryDataset.BinaryDs.CountCategories | src/binaryds.py:200-208 | the counting pass over the live records yields one counter per category value up to the largest, each the number of records with that value |
| Balancing.TallyCounts | src/binaryds.py:200-208 | the counter list is empty exactly for no records, covers every category present, ends at the largest one, and each counter is that category's count |
| Balancing.Count | src/binaryds.py:203-208 | a category count never exceeds the number of records |
| Balancing.CountAppend | src/binaryds.py:203-208 | counts add up over concatenation |
| Balancing.CountPositive | src/binaryds.py:203-208 | a category that counts has a record carrying it |
| Balancing.CountMember | src/binaryds.py:203-208 | a record's category counts at least once |
| Balancing.CountLast | src/binaryds.py:220-228 | dropping the last record lowers exactly its category's count |
| Balancing.CountSnoc | src/binaryds.py:225 | appending a record raises exactly its category's count |
| Balancing.SumZero | src/binaryds.py:219 | the loop condition `sum(cats) != 0` fails exactly when every counter is zero |
| Balancing.Min | src/binaryds.py:211 | `min(cats)` is at most every counter and is one of them |
| Balancing.SurplusLeft | src/binaryds.py:219-221 | while surplus remains there is a record to walk back to |
| Balancing.ScanBackStep | src/binaryds.py:219-228 | one step of the backward walk: the last record has a counter, and the walk continues in front of it, with the record set aside when its counter is zero and with its counter lowered otherwise |
| Balancing.WalkStep | src/binaryds.py:219-228 | the same step, stated for the walk over the first `n` slots of the file that the loop performs |
| BinaryDataset.BinaryDs.DiscardBackward | src/binaryds.py:218-228 | the backward loop ends, keeps the records in front of where it stopped, and sets aside exactly what the walk function sets aside, all of the configured width |
| Balancing.ScanBackOrder | src/binaryds.py:218-228 | the walk stops in front of a prefix of the records, and what it sets aside is the walked suffix read backwards with the discarded records left out |
| Balancing.OrderStep | src/binaryds.py:220-228 | the order property for the walk in front of the last record gives it for the walk that starts by passing that record |
| Balancing.ScanBackCategories | src/binaryds.py:223-227 | every record set aside has a counter |
| Balancing.ScanBackCounts | src/binaryds.py:223-228 | category `c` loses exactly its deficit to the walk |
| Balancing.BalanceWithCounts | src/binaryds.py:213-229 | after the walk and the write-back every category has its count less its deficit, a prefix of the records is kept in place, and the rest are walked records in reverse order |
| BinaryDataset.BinaryDs.Balance | src/binaryds.py:195-229 | the live records become the walk's prefix followed by the set-aside records; the file keeps its length; with at most one counter nothing changes |
| Balancing.BalanceAsWrittenTrivial | src/binaryds.py:209-210 | with one counter or none, `balance` changes nothing |
| Balancing.BalanceAsWrittenEqualizes | src/binaryds.py:209-229 | with two or more counters, every category value up to the largest ends with exactly `min(cats)` records and no other value occurs |
| Balancing.NoneLeft | src/binaryds.py:209-229 | records whose every category counts zero are no records |
| Balancing.BalanceAsWrittenEmptiesOnGap | src/binaryds.py:206-212 | when a category value below the largest never occurs, `balance` discards every record |
| Balancing.BalanceAsWrittenGapExample | src/binaryds.py:206-212 | records of categories 0 and 2 balance to nothing |
| Balancing.MinPresent | src/binaryds.py:211 | the smallest counter among categories that occur is positive, at most each such counter, and one of them |
| Balancing.BalanceIntendedEqualizes | src/binaryds.py:195-229 | with the intended deficits every present category keeps as many records as the least populated one, absent ones stay absent, and some record is left |
| Chunking.ChunksPrefix | src/binaryds.py:255-257 | consecutive whole chunks from the start are the prefix they cover |
| Chunking.ChunkCounts | src/binaryds.py:254-258 | whole chunks and the remainder split a record count exactly |
| Chunking.MergeAsWritten | src/binaryds.py:251-261 | `merge` appends as many records as `other` holds |
| Chunking.MergeAsWrittenShape | src/binaryds.py:254-261 | `merge` appends the prefix covered by the whole chunks, then `examples_no % amount` records from record `iterations` |
| Chunking.MergeAsWrittenIff | src/binaryds.py:258-261 | the append is a faithful copy exactly when the records at `iterations` are the last partial chunk |
| Chunking.MergeAsWrittenAligned | src/binaryds.py:254-261 | with fewer records than one chunk, or a whole number of chunks, the copy is faithful |
| Chunking.MergeAsWrittenDuplicates | src/binaryds.py:260 | with one chunk and one record more, the record at position 1 is copied a second time instead of the last one |
| Chunking.MergeIntendedCopies | src/binaryds.py:241-263 | reading the remainder at the chunk boundary copies every record of `other`, in order |
| BinaryDataset.BinaryDs.AppendChunks | src/binaryds.py:255-257 | the whole-chunk loop appends the first `iterations * amount` records of `other` |
| BinaryDataset.BinaryDs.AppendPartial | src/binaryds.py:258-261 | the partial step appends the `remainder` records of `other` from the given record on |
| BinaryDataset.BinaryDs.MergeChunks | src/binaryds.py:251-263 | this dataset gains `other`'s records as the merge function gives them, the count grows by `other`'s count, and `other` is emptied |
| BinaryDataset.BinaryDs.Merge | src/binaryds.py:241-263 | different raw flags or feature counts fail with nothing changed; otherwise the chunked append and `other` emptied; a file that ended right after its live records still does |
| Chunking.SplitCount | src/binaryds.py:277 | `int(examples * ratio)` is at most `examples` for a ratio up to 1, and zero for ratio 0 |
| Chunking.TailChunksLength | src/binaryds.py:281-284 | `k` chunks from the end hold `k * amount` records |
| Chunking.TailChunksSnoc | src/binaryds.py:281-284 | one chunk more from the end extends the moved records by that chunk |
| Chunking.SnocRegroup | src/binaryds.py:281-284 | the step of the previous lemma, from `k - 1` chunks to `k` |
| Chunking.TailMove | src/binaryds.py:282-284 | moving the last `amount` of the remaining records extends the moved records by one chunk and leaves the records in front |
| Chunking.TailChunksMultiset | src/binaryds.py:281-284 | the tail chunks are the last `k * amount` records, as a multiset |
| Chunking.TailChunksBag | src/binaryds.py:281-284 | the inductive form of the previous lemma |
| Chunking.TailStep | src/binaryds.py:282-284 | one chunk more from the end extends the multiset by that chunk |
| Chunking.SplitMovedParts | src/binaryds.py:281-289 | the whole chunks followed by the partial move are the records `split` moves, and the records in front are those it keeps |
| Chunking.SplitShape | src/binaryds.py:281-289 | `split` moves the last `it * amount + rem` records, as a multiset, and keeps those in front in place |
| Chunking.SplitConserves | src/binaryds.py:265-289 | what is kept and what is moved make up the original records |
| Chunking.SplitAsWrittenMoved | src/binaryds.py:277-289 | as written, `split` moves every whole chunk of the dataset plus `int(examples * ratio) % amount` records |
| Chunking.SplitAsWrittenBy | src/binaryds.py:280-289 | the same once the count is known |
| Chunking.SplitAsWrittenParts | src/binaryds.py:280-289 | the whole chunks fit in the dataset and the partial count fits in what they leave |
| Chunking.SplitAsWrittenIgnoresRatio | src/binaryds.py:280 | even with ratio 0 a dataset of at least one chunk loses a whole chunk |
| Chunking.SplitAsWrittenLeavesRange | src/binaryds.py:280-287 | with 2049 records of 2047 features and ratio 0.5, the partial count 1024 exceeds the single record the whole-chunk move leaves, so the read of line 287 would start before the first record |
| Chunking.SplitIntendedMovesCount | src/binaryds.py:265-289 | the intended split moves `int(examples * ratio)` records, which as a multiset are the last ones, and keeps the records in front in place |
| Chunking.SplitAsWrittenSmall | src/binaryds.py:277-289 | with fewer records than one chunk the split as written is the intended one and moves the last `int(examples * ratio)` records in order |
| BinaryDataset.BinaryDs.MoveLast | src/binaryds.py:282-284 | one move reads the last `count` records, appends them to `other` and cuts them from this dataset |
| BinaryDataset.BinaryDs.MoveTailChunks | src/binaryds.py:281-284 | the whole-chunk loop moves the tail chunks to `other` and keeps the records in front |
| BinaryDataset.BinaryDs.MoveTailChunk | src/binaryds.py:282-284 | one pass of the loop: with `i` chunks moved, the next `amount` records from the end move to `other`, which then holds `i + 1` tail chunks, and this file ends right after its remaining records |
| BinaryDataset.BinaryDs.MoveSplit | src/binaryds.py:281-289 | the whole chunks and then the partial chunk move as `SplitMoved` gives them |
| BinaryDataset.BinaryDs.SplitChunks | src/binaryds.py:277-289 | the records moved are those of the split as written, appended to `other` in order; this dataset keeps the records in front |
| BinaryDataset.BinaryDs.Split | src/binaryds.py:265-289 | different raw flags or feature counts fail with nothing changed; otherwise the split as written; each file that ended right after its live records still does |
| Dedup.Range | src/binaryds.py:342-343 | `range(lo, hi)` lists `lo` to `hi - 1` in order |
| Dedup.RangeAppend | src/binaryds.py:307-314 | adjacent ranges concatenate |
| Dedup.Insert | src/binaryds.py:346 | `heappush` keeps the heap ordered and adds exactly the index |
| Dedup.InsertBehindHead | src/binaryds.py:346 | the recursive case of the heap insertion keeps its order and contents |
| Dedup.InsertLargest | src/binaryds.py:346 | pushing an index larger than every queued one appends it |
| Dedup.Sweep | src/binaryds.py:342-348 | the hashing pass keeps the heap ordered |
| Dedup.SweepCount | src/binaryds.py:342-348 | every visit either adds a new hash or queues an index |
| Dedup.SweepAppend | src/binaryds.py:307-314 | hashing two index lists one after the other is hashing their concatenation |
| Dedup.SweepRanges | src/binaryds.py:307-314 | hashing two adjacent ranges is hashing their union |
| Dedup.SweepChunkStep | src/binaryds.py:307-310 | one more chunk extends the pass over the preceding records |
| Dedup.HashesOfIff | src/binaryds.py:344-348 | a hash is among the first `n` exactly when one of the first `n` payloads has it |
| Dedup.Flagged | src/binaryds.py:345-346 | the repeated indices below `n` are sorted and below `n` |
| Dedup.Firsts | src/binaryds.py:347-348 | the first occurrences below `n` are below `n` |
| Dedup.FlaggedIff | src/binaryds.py:345-346 | an index is flagged exactly when an earlier record has a payload with the same hash |
| Dedup.FirstsDistinct | src/binaryds.py:347-348 | the first occurrences have pairwise different hashes |
| Dedup.FirstsCover | src/binaryds.py:347-348 | every hash among the records is that of a first occurrence |
| Dedup.FlaggedCount | src/binaryds.py:345-348 | each record is either flagged or a first occurrence |
| Dedup.FirstsCountHashes | src/binaryds.py:347-348 | there are as many first occurrences as distinct hashes |
| Dedup.PickSnoc | src/binaryds.py:317-336 | one position more picks one record more |
| Dedup.FlaggedPartition | src/binaryds.py:342-348 | the records are the flagged ones together with the first occurrences, as a multiset |
| Dedup.PartitionStep | src/binaryds.py:345-348 | each new record joins exactly one side of that partition |
| Dedup.SnocJoins | src/binaryds.py:345-348 | a record added to one side of a partition extends it |
| Dedup.SweepRange | src/binaryds.py:342-348 | visiting `m .. n - 1` after the first `m` records gives the hashes and the flags of the first `n` |
| Dedup.SweepStep | src/binaryds.py:343-348 | visiting record `m` moves the pass from the first `m` records to the first `m + 1` |
| Dedup.VisitOrder | src/binaryds.py:307-314 | the chunked pass visits `n` indices, all below `n` |
| Dedup.AsWrittenRemStart | src/binaryds.py:313 | the remainder is read from record `chunk_index * remainder`, and that read stays within the dataset |
| Dedup.ScanAsWritten | src/binaryds.py:302-314 | the heap the pass builds is sorted and no longer than the dataset |
| Dedup.ScanAsWrittenParts | src/binaryds.py:307-314 | the pass as written is the whole chunks in order, then `examples % chunk_elements` records from `chunks_no * remainder` on |
| Dedup.ScanIntendedFlags | src/binaryds.py:302-314 | visiting every record once in order queues exactly the repeated records |
| Dedup.VisitOrderIntended | src/binaryds.py:307-314 | reading the remainder at the chunk boundary visits every record once, in order |
| Dedup.AsWrittenRemStartAligned | src/binaryds.py:311-314 | with fewer records than one chunk, or a whole number of chunks, the remainder read is at the boundary anyway |
| Dedup.ScanAsWrittenAligned | src/binaryds.py:302-314 | in that case the pass as written queues exactly the repeated records |
| Dedup.ScanAsWrittenFlagsUnique | src/binaryds.py:313 | with one chunk and one record more and all payloads different, the pass as written queues record 1 for removal |
| Dedup.NoneFlagged | src/binaryds.py:345-348 | with pairwise different hashes nothing is flagged |
| BinaryDataset.HashRecords | src/binaryds.py:342-348 | the loop over one chunk's records ends in the hashing pass over their indices |
| BinaryDataset.BinaryDs.CalculateHashesFromChunk | src/binaryds.py:338-348 | reading chunk `chunk_index` and hashing it extends the hashes and the heap as the pass over its indices does |
| BinaryDataset.BinaryDs.HashWholeChunks | src/binaryds.py:305-310 | the whole-chunk loop is the pass over the first `chunks_no * chunk_elements` records |
| BinaryDataset.BinaryDs.HashChunks | src/binaryds.py:298-314 | the heap built is that of the pass as written |
| Dedup.RemoveAt | src/binaryds.py:318-336 | one pop lowers the count by one; popping the last index drops it; a lower index receives the last record; an index past the end gets the last record written there behind a zero-filled gap |
| Dedup.RemoveAll | src/binaryds.py:317-336 | popping every queued index lowers the count by the heap length |
| Dedup.RemoveAtLive | src/binaryds.py:318-336 | popping a live index removes exactly that record from the live records and leaves the slots below it alone |
| Dedup.ReplaceBag | src/binaryds.py:326-334 | overwriting a live record with the last one and dropping the last removes exactly the overwritten record |
| Dedup.RemoveAllCons | src/binaryds.py:317-318 | the removal loop pops the first queued index, then carries on with the rest |
| Dedup.RemoveAllDescending | src/binaryds.py:317-336 | popping distinct live indices from the largest down removes exactly the records at those indices |
| Dedup.PickAgree | src/binaryds.py:317-336 | positions where two record areas agree pick the same records |
| Dedup.FlaggedAscending | src/binaryds.py:345-346 | the flagged indices rise strictly |
| Dedup.BackwardsPicks | src/binaryds.py:317-336 | reading positions backwards picks the same records |
| Dedup.PicksAtBothEnds | src/binaryds.py:317-336 | one position added in front of one list and behind another keeps them picking the same records |
| Dedup.FlaggedDescending | src/binaryds.py:317-318 | the flagged indices popped from the largest down: as many as flagged, below `n`, strictly falling |
| Dedup.FlaggedDescendingPicks | src/binaryds.py:317-336 | the descending order picks the same records as the ascending one |
| Dedup.DedupIntendedKeepsFirsts | src/binaryds.py:291-336 | the intended deduplication leaves as many records as first occurrences, and those records, as a multiset |
| Dedup.DedupAsWrittenLosesRecord | src/binaryds.py:317-336 | popping smallest first, payloads `A, A, B, A` end with `A, A` live: `B` is lost and a duplicate kept |
| Dedup.ExampleFlags | src/binaryds.py:342-348 | the repeated records of `A, A, B, A` are at 1 and 3 |
| Dedup.ExampleRemovals | src/binaryds.py:317-336 | popping 1 then 3 from `A, A, B, A` |
| Dedup.DedupAsWrittenCount | src/binaryds.py:291-336 | where the pass is aligned, the removal pass leaves as many live records as there are distinct payload hashes (which records they are is not promised: `Dedup.DedupAsWrittenLosesRecord`) |
| BinaryDataset.BinaryDs.RemoveIndex | src/binaryds.py:318-336 | one pop of the removal loop changes the file as `RemoveAt` says and keeps the header in step |
| BinaryDataset.BinaryDs.RemoveQueued | src/binaryds.py:317-336 | the removal loop changes the file as popping every queued index in heap order does |
| BinaryDataset.BinaryDs.Deduplicate | src/binaryds.py:291-336 | the file after `deduplicate` is the as-written removal of the heap the chunked pass builds, with the deduplicate chunk size |

Definitions and helpers without a row of their own: `Format.ZeroExample`,
`Records.RecordBytes`, `Records.Zeros`, `Balancing.Subtract` and `Dedup.Pick`
are definitions whose contracts only spell out the definition; their meaning
is stated by `Records.ZeroRecordBytes`, `Records.ZerosFlatten`,
`Records.FlattenAt` and the lemmas that use them. `Chunking.ChunkStep`,
`Dedup.DescendingTail`, `Dedup.DescendingWeaken`, `Dedup.PickCons`,
`Format.RoundDown` and the `Format` arithmetic lemmas are proof helpers.
`Balancing.IntendedDeficits` (src/binaryds.py:211-212, corrected) and
`Chunking.SplitKept` (src/binaryds.py:281-289) are definitions too; their
meaning is stated by `Balancing.BalanceIntendedEqualizes`,
`Chunking.SplitConserves` and `Chunking.SplitIntendedMovesCount`.

Reference definitions that the methods are proved equal to, and that the
lemmas in the table are about:

- `Records.Flatten`, `Records.Serialize`: the file layout `write` produces, header then records of `features + 1` bytes (src/binaryds.py:58-62, 141-150).
- `BinaryDataset.StoredFile`: what `open` assumes of an existing file that starts with the magic byte (src/binaryds.py:86-113).
- `Shuffling.SweepFrom`, `Shuffling.Shuffled`: the descending swap loop of `shuffle` for given draws (src/binaryds.py:175-193).
- `Balancing.Tally`: the counting pass of `balance` (src/binaryds.py:200-208).
- `Balancing.ScanBack`: the backward walk that sets records aside (src/binaryds.py:213-228).
- `Balancing.BalanceAsWritten`: the whole of `balance` on the live records (src/binaryds.py:195-229).
- `Balancing.BalanceIntended`: the same with the least present counter as target (src/binaryds.py:195-229, corrected).
- `Chunking.Chunks`, `Chunking.MergeReads`: the whole-chunk reads of `merge` and its partial read from record `iterations` (src/binaryds.py:251-261).
- `Chunking.MergeIntended`: the partial read from `iterations * amount` (src/binaryds.py:260, corrected).
- `Chunking.TailChunks`, `Chunking.SplitMoved`: the chunks `split` moves from the end, then the remainder block (src/binaryds.py:280-289).
- `Chunking.SplitIntendedMoved`, `Chunking.SplitIntendedKept`: the last `int(examples * ratio)` records and the rest (src/binaryds.py:265-289, corrected).
- `Dedup.HashesOf`: the set of payload hashes seen so far (src/binaryds.py:344-348).
- `Dedup.ScanIntended`: every record visited once in order (src/binaryds.py:302-314, corrected).
- `Dedup.Backwards`: the queue popped largest first (src/binaryds.py:317-336, corrected).
- `Dedup.DedupAsWritten`: the whole of `deduplicate`, including the chunked pass and the smallest-first pops (src/binaryds.py:291-336).
- `Dedup.DedupIntended`: the same with the corrected pass and pop order (src/binaryds.py:291-336, corrected).

## Left out

- The filesystem: open modes, file objects, seek positions and `os.path.exists`/`os.access` are not modelled. Whether the path exists, the access rights and the stored bytes are inputs to `Open`.
- `path` and `magic` are not fields: the path is only passed to the filesystem, and the magic byte is the constant `MAGIC`.
- `__enter__`/`__exit__` (src/binaryds.py:81-85) are `Open` and `Close` under another name and have no members of their own.
- `BinaryDataset.BinaryDs.Open`: requires a count of zero when the path is missing. The source writes whatever count the container holds into the new header (line 62), and that count is nonzero when an earlier open adopted a stored count (line 99) or an earlier session added records. The new file then has a header that counts records it does not contain, which the model's invariant `examples <= |slots|` rules out. Also, an existing file that starts with the magic byte is assumed to hold a whole header and as many whole records as it counts (`StoredFile`), so short or corrupt files are not modelled. When the magic byte is wrong the container is left closed, as when the source closes the file and raises.
- `hashlib.md5` is a parameter `hash`, so collisions are whatever that function does.
- `random.seed` and `random.random` are not modelled. `Shuffle` takes the values in [0, 1) that `random.random()` would return.
- `heapq` is a sorted sequence: `heappush` is a sorted insertion and `heappop` takes the head.
- Float arithmetic: `int(examples * ratio)` is the floor of an exact real product, so float rounding is not modelled. The float divisions `BLOCK_SIZE / features_size` (lines 253, 279), `examples_no / amount` (254), `self.examples / amount` (280), `chunk_size / feature_size` (301) and `self.examples / chunk_elements` (302) are taken as exact quotients. Their truncation equals the float truncation: each dividend is below 2^53, so the rounding error of the quotient is below `1 / divisor`, the least distance of a fractional quotient from a whole number (see `Format.ChunkCapacity`).
- `to_bytes` raising `OverflowError` is excluded by preconditions: fewer than 2^16 features and fewer than 2^32 examples. A category outside 0..255 also raises `OverflowError` (src/binaryds.py:150); the `byte` type of a record's category rules that input out. In the source the count has already been raised (line 145) and the header and earlier records written (lines 146-149) when it raises, and that partial effect is not modelled.
- Negative indices and amounts are not modelled: `Read` takes natural numbers, and `Split` requires `ratio >= 0`.
- `BinaryDataset.BinaryDs.Merge`: requires `other != this`, so merging a dataset into itself is left out.
- `BinaryDataset.BinaryDs.Split`: requires `other != this` and `SplitAsWrittenInRange`. That predicate fails on ordinary calls (`Chunking.SplitAsWrittenLeavesRange`, and the Findings row for line 280). There, by line 287 every whole chunk has already moved to `other`, and the read index `self.examples - remainder` is negative. The byte offset `8 + (features + 1) * index` then lies before the first record: inside the header when it is not negative, which happens only for small feature counts, and otherwise a negative seek, which raises. The model does not capture what follows: header bytes read as records, and the truncation at line 289 cutting into the header before line 239 raises.
- `BinaryDataset.BinaryDs.Balance`: requires the file to hold no records behind the count (`|slots| == examples`). The source starts its backward walk at the physical end of the file, and the model starts it at the last live record; the two agree only under this requirement. The source also leaves the discarded records on disk, so a second `balance` would walk over them; the model states the file length but no second-call behaviour.
- `BinaryDataset.BinaryDs.Write`, `Truncate`, `Shuffle`, `Balance`, `Merge`, `Split` and `Deduplicate`: require a writable container (`!ro`, and `!other.ro` for `Merge` and `Split`). On a read-only file the source raises `io.UnsupportedOperation` at its first write or truncate, after partial effects the model does not capture. `write` has already raised `examples` (line 145) before the count write of line 147 fails. `merge` with a read-only `other` has already copied every record of `other` into this dataset (lines 255-261) before `other.truncate()` fails at line 236. `split` with a read-only `other` fails in `other.write` after raising `other.examples`, and with a read-only `self` fails at line 284 after `other` received the first chunk. `balance` fails in its final `write` after lowering `examples` in its loop (line 228).
- The truncation past the end of a file is modelled as zero-extension, as POSIX `ftruncate` does; other platforms are not modelled.

## Findings

| source | as written | input that shows it | evidently intended | confidence | as-written member | corrected member |
|---|---|---|---|---|---|---|
| src/binaryds.py:182 | `k = int(random.random() * j)`, so `k < j` for `j >= 1`: the last record always moves (Sattolo's cycle, not Fisher–Yates) | two records: they are always exchanged | `int(random.random() * (j + 1))`, so any position up to `j` can be drawn and every order is possible | not executed | Shuffling.ShuffleAsWrittenSwapsPair | Shuffling.ShuffleFairCanKeepOrder |
| src/binaryds.py:206-212 | `min(cats)` also covers zero counters of category values below the largest that never occur | categories 0 and 2, one record each: every record is discarded | bring the categories that occur down to the least populated of them | not executed | Balancing.BalanceAsWrittenGapExample | Balancing.BalanceIntendedEqualizes |
| src/binaryds.py:260 | the last partial chunk is read from record `iterations` instead of `iterations * amount` | `amount + 1` records: record 1 is copied twice and the last record is lost | read from `iterations * amount`, copying every record in order | not executed | Chunking.MergeAsWrittenDuplicates | Chunking.MergeIntendedCopies |
| src/binaryds.py:280 | the whole-chunk count is `self.examples / amount`, ignoring `ratio` | ratio 0 and at least one chunk of records: a whole chunk is moved | `examples_no / amount` whole chunks, so `int(examples * ratio)` records move in all | not executed | Chunking.SplitAsWrittenIgnoresRatio | Chunking.SplitIntendedMovesCount |
| src/binaryds.py:280 | the whole chunks moved are those of the whole dataset, so the partial count can exceed the records left and the read of line 287 starts before the first record | 2049 records of 2047 features, ratio 0.5: one chunk of 2048 moves, then 1024 records are read from index -1023 | move `int(examples * ratio)` records in all, which never leaves the dataset | not executed | Chunking.SplitAsWrittenLeavesRange | Chunking.SplitIntendedMovesCount |
| src/binaryds.py:313 | the remainder chunk is read from `chunk_index * remainder` (line 341 multiplies the index by the remainder as its chunk size) | `chunk_elements + 1` records with distinct payloads: record 1 is hashed twice and queued for removal | read the remainder from `chunks_no * chunk_elements`, visiting every record once | not executed | Dedup.ScanAsWrittenFlagsUnique | Dedup.ScanIntendedFlags |
| src/binaryds.py:317-336 | indices are popped smallest first, so the last record moved into a popped slot can be a queued duplicate, and a later index can lie past the shrunken count | payloads `A, A, B, A`: `A, A` stay live, `B` is lost | pop from the largest index down, leaving exactly the first occurrences | not executed | Dedup.DedupAsWrittenLosesRecord | Dedup.DedupIntendedKeepsFirsts |
