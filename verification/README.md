# BtrBlocks in Dafny

BtrBlocks compresses a column by rewriting it into smaller streams and compressing those streams again, down to a
depth limit. This project models four parts of it and proves what they promise.

**The cascade.** `Cascade` describes an encoded integer column as a tree of schemes and gives its value.
`IntegerSchemes`, `WrittenColumns`, `SchemePicker` and `Bp64` are the write side: the encoders, the estimates and the
picker call each other with the thread's level counters as state, and every route ends in a stream that decodes to the
input on the rows that are not null. `CascadeReader` is the read side over the level-indexed buffers of
`ScratchStacks`: full decodes, and the random access that must answer like decode-then-index. `RunLength`,
`BitPacking`, `Bitmap` and `Words` hold the theory of the single schemes, `NumberStats` the one-pass statistics and the
window sampler.

**Decoders that overrun on purpose.** `WideStore` (register-wide run stores), `Texts`, `StringDictionary`, `StringViews`
and `StringColumn` (offset stores, doubling copies, run cache, view stores) and `Pseudodecimal` (the block iterator with
its four cursors; `DecimalColumn` takes its streams through the cascade). Each equals a plain loop over rows.

**The container.** `PartFile` (aligned chunks and relative seeks), `ColumnReader` (global rows bucketed by chunk and
scattered back), `NullBitmap` and `BitmapCache` (stored null maps and the reader's wrappers and bitsets), and
`Datablock`, which goes the whole way from input chunks to gathered rows.

**The split planner's helpers.** `SegmentMetrics`, `PlanSampler`, and `Truncation`.

Null maps are flags per row, true for a present value. A Roaring bitmap is a finite set with ascending iteration and
rank; a double is an abstract value with an uninterpreted product of significand and power of ten; `fastunpack` is real
bit-packing. Machine words wrap where the code lets them: bias arithmetic, BP64 halves, string offsets, sizes kept in
32 bits. `SIMD_EXTRA_BYTES` is 128.

## Where the code does not do what is asked of it

- A ONE_VALUE code that is forced or overridden is written for any column and keeps only its minimum
  (`IntegerSchemes.OneValueLossless`, `WrittenColumns.OneValueLoses`). Without nulls no scheme above it makes
  up for that, at any depth (`WrittenColumns.WrittenExactly`): with forced ONE_VALUE counts RLE survives only runs of
  one length (`WrittenColumns.OneCountLoses`). Null rows may hide a loss; `WrittenColumns.OneCount`, `OneRunValue`,
  `OneCode`, `OneException` and `OneBiased` say when, one layer at a time.
- The run-length flag of the string dictionary records what was requested, not what the picker did. At depth 0 the
  decoder's cast fails for every flagged column. Sampling at depth 1 and more it can fail only on the hot path and only
  for columns with one or two rows more than three to a run, at depth 1 for all of them
  (`StringColumn.StoreAndLoad`, `StringColumn.FlaggedButNotRle`); at greater depth the sizes of the nested streams
  decide. In try-all mode the request is ignored.
- The plain string decoder's size check fails for columns whose null rows hold another number of bytes than the
  dictionary strings they are decoded to (`StringColumn.StringsRoundTrip`, `StringColumn.StoreAndLoad`,
  `StringColumn.NullBytesMismatch`).
- A null row that holds a string greater than every dictionary entry is coded one past the dictionary
  (`StringColumn.CodesValidIff`, `StringColumn.CodesValidFor`, `StringColumn.NullRowBeyond`).
- The pseudodecimal encoder's give-up penalty wraps for raw sizes within 1000 bytes of 2^32
  (`Pseudodecimal.GiveUpIsReplaced`, `Pseudodecimal.AbandonedButKept`).
- The run-length encoder is not minimal when row 0 is null and differs from the first live row
  (`RunLength.EncoderMinimal`, `RunLength.NotMinimalExample`).
- `writeToDisk` returns a size without the padding (`PartFile.ReportedSizeExact`,
  `PartFile.ReportedSizeTooSmall`).
- `canCompress` of the 32-bit truncations subtracts signed values and accepts spans of 2^31 and more
  (`Truncation.CanCompressAgrees`, `Truncation.CanCompressWrong`). Nothing in the repository calls it; the schemes
  decide by `truncSpan`.
- `releaseBitmap` drops a bitset that a wrapper of a constant map allocated itself, and `releaseBitmapOwnership` one
  that was kept for the next wrapper (`BitmapCache.Reader.ReleaseBitmap`, `BitmapCache.Reader.ReleaseBitmapOwnership`,
  `BitmapCache.LostOnRelease`, `BitmapCache.LostOnHandOver`).
- The size of an RLE stream counts its counts stream twice; the comment in the encoder asks why. So a reported size is
  exact only without run lengths at any depth (`SchemePicker.Picker.SizeExactWithoutRuns`), and the fall-back drops
  streams that are smaller than the raw column (`SchemePicker.Picker.DroppedThoughSmaller`).

## Model

| member | source | states |
|---|---|---|
| Datablock.StoreAndGather | btrblocks/compression/Datablock.cpp:74-81 | whole way for an integer column: every chunk compressed under any configuration that forces nothing, then any rows requested in any order: each present row comes back with its value, the number of touched chunks is the number of input chunks that hold a requested row, and an error is raised exactly for a row past the end |
| Datablock.ColumnRestored | btrblocks/compression/Datablock.cpp:74-81 | the concatenation of the decoded chunks agrees with the concatenated input on every present row |
| Datablock.CompressChunk | btrblocks/compression/Datablock.cpp:74-81 | one chunk: the picker is asked for it once with its null map and the full depth, stream and null map stand for the input chunk, whatever the estimates said; both cascade counters are restored |
| Datablock.GatherChunk | btrblocks/compression/BtrReader.cpp:136-144 | `scheme.gather` on a chunk stored from a column answers every present row with the column's value, in any order, repeats included |
| Datablock.LookupAt | btrblocks/scheme/CompressionScheme.cpp:77-85 | a single lookup returns the column's value of a present row |
| SchemePicker.Picker.Compress | btrblocks/compression/SchemePicker.hpp:70-221 | for any estimates, any route, any depth and null map: the scheme the picker goes for is told from the column, the configuration and its state at the call (ONE_VALUE for the shortcut, UNCOMPRESSED with no level left, FOR, the smallest of the streams just written, the forced or preset scheme, the best of the estimates just made), and it is recorded always while estimating and on the hot path exactly when its stream is not larger than the raw column; the stream is the recorded scheme's encoding layer by layer, under any configuration, and decodes to the column on live rows unless ONE_VALUE is asked for blindly; the reported size is that of the whole tree and has bounds told from the column alone; both level counters are back |
| SchemePicker.Picker.Prefer | btrblocks/compression/SchemePicker.hpp:118-180 | which route is taken when, and what each route returns: shortcut, depth exhausted, frame of reference, forced, override; on the try-all route the smallest stream of all registered schemes with a positive estimate; on the sampled route the best estimate, at least 1, of all registered schemes but a skipped ONE_VALUE; all estimates and streams are of this column and just made |
| SchemePicker.Picker.Settle | btrblocks/compression/SchemePicker.hpp:174-221 | the chosen scheme is recorded, except on the hot path when the stream just compressed is larger than the raw column; then it is UNCOMPRESSED |
| SchemePicker.Picker.ChooseScheme | btrblocks/compression/SchemePicker.hpp:34-68 | every registered candidate is estimated for this column, and the one with the best of those estimates, at least 1, is returned; it passed its guard; neither exception is ever raised while UNCOMPRESSED is registered; ONE_VALUE is no candidate below the top level or while estimating; an override is used up |
| SchemePicker.Picker.TryAll | btrblocks/compression/SchemePicker.hpp:141-161 | every registered scheme is estimated, exactly those with a positive estimate are run on the column, and the one with the smallest of those streams is returned; it passed its guard, and there always is one |
| SchemePicker.Picker.Estimate | btrblocks/scheme/CompressionScheme.cpp:28-46 | the ratio of raw to compressed size of a stream just compressed from a sample of the column (disjoint windows with their own null flags, or everything when the column is small or when already estimating); terminates on depth and phase, and restores `estimation_level` |
| SchemePicker.Picker.ExpectedRatio | btrblocks/compression/SchemePicker.hpp:53-58 | zero behind the guards of RLE, FREQUENCY, DICT, FOR and ONE_VALUE; 1 for UNCOMPRESSED, the row count for ONE_VALUE, raw size over the closed form in the number of distinct values for DICT, a measured ratio for RLE, FREQUENCY and the packing schemes |
| SchemePicker.DictionaryBytesAre | btrblocks/scheme/templated/DynamicDictionary.hpp:22-26 | four bytes an entry, the binary length of their number in bits per row, a byte for each whole 64 rows, and ten |
| SchemePicker.EightBitsFrom128 | btrblocks/common/Utils.hpp:26-31 | a minimum needs eight bits exactly from 128 on or when negative |
| Words.BitsNeededExact | btrblocks/common/Utils.hpp:19-31 | the number of bits needed is the length of the number in binary |
| SchemePicker.Picker.SampleIsInput | btrblocks/scheme/CompressionScheme.cpp:36-42 | a drawn sample is itself a non-empty legal input of the encoders |
| SchemePicker.Picker.SchemeCompress | btrblocks/compression/SchemePicker.hpp:118-179 | each scheme's own encoder, dispatched on the code, writes that scheme's encoding of the column under any configuration and asks for its nested streams one level down; the size is the sum over the tree and within bounds told from the column |
| SchemePicker.Picker.CompressRle | btrblocks/scheme/templated/RLE.hpp:21-86 | the run lists as two nested streams at depth - 1, the counts with their configured scheme; ten bytes, the values and twice the counts, so at most 10 + 12 bytes a run on the hot path and exactly that when no level is left |
| SchemePicker.Picker.SizeExactWithoutRuns | btrblocks/scheme/templated/RLE.hpp:70-86 | the reported size is that of the layout if and only if there is no run-length stream at any depth |
| SchemePicker.Picker.DroppedThoughSmaller | btrblocks/scheme/templated/RLE.hpp:70-86 | with a single level: a requested run-length stream that is laid out in no more bytes than the raw column is replaced by it if and only if 10 + 8 bytes a run fit the raw size and 10 + 12 do not |
| SchemePicker.Picker.CompressDictionary | btrblocks/scheme/templated/DynamicDictionary.hpp:29-75 | dictionary and codes, nested at depth - 1 with BP requested; lossless on every row, null rows included; five bytes, four per distinct value and the codes stream, so at most four more per row on the hot path and exactly that when no level is left |
| SchemePicker.Picker.CompressFrequency | btrblocks/scheme/templated/Frequency.hpp:50-97 | the stored value is zero when at least nine in ten rows are null, else the smallest of the most frequent values; exception bitmap and nested exceptions at depth - 1; nine bytes, the bitmap and the exceptions stream, at most raw on the hot path and raw when no level is left |
| SchemePicker.Picker.CompressFor | btrblocks/scheme/integer/FOR.cpp:18-44 | the values biased by the minimum, nested at depth - 1 with the null map handed on; layer by layer under any configuration; five bytes and the nested stream, at most raw on the hot path and raw when no level is left |
| WrittenColumns.WrittenLossless | btrblocks/compression/SchemePicker.hpp:70-221 | by induction over the tree: an encoding without a lossy ONE_VALUE stream, at any depth, decodes to the column on live rows |
| WrittenColumns.LeafLossless | btrblocks/compression/SchemePicker.hpp:124-129 | raw and packed streams lose nothing under any configuration |
| WrittenColumns.DictionaryKeepsAll | btrblocks/scheme/templated/DynamicDictionary.hpp:37-75 | a dictionary keeps null rows, too |
| WrittenColumns.NoEmptyRuns | btrblocks/scheme/templated/RLE.hpp:33-49 | a written run-length stream decodes to positive counts |
| WrittenColumns.WrittenExactly | btrblocks/compression/SchemePicker.hpp:70-221 | a column without nulls under any configuration, at any depth: nothing is lost if and only if every ONE_VALUE stream in the tree stands for a constant stream; no layer makes up for a loss below it |
| WrittenColumns.OneCountLosesRows | btrblocks/scheme/templated/RLE.hpp:73-75 | over ONE_VALUE counts runs of different lengths are lossy, whatever the values stream and the null map |
| WrittenColumns.OneCount | btrblocks/scheme/templated/RLE.hpp:73-75 | for any null map: RLE over ONE_VALUE counts and an exact values stream is lossless if and only if all runs are equally long |
| WrittenColumns.OneRunValue | btrblocks/scheme/templated/RLE.hpp:59-61 | for any null map: RLE over ONE_VALUE values and an exact counts stream is lossless if and only if every live row carries the smallest run value |
| WrittenColumns.OneCode | btrblocks/scheme/templated/DynamicDictionary.hpp:65-67 | a dictionary over ONE_VALUE codes is lossless if and only if the live rows carry the minimum |
| WrittenColumns.OneException | btrblocks/scheme/templated/Frequency.hpp:90-92 | FREQUENCY over ONE_VALUE exceptions is lossless if and only if all exceptions are equal |
| WrittenColumns.OneBiased | btrblocks/scheme/integer/FOR.cpp:38-40 | FOR over ONE_VALUE is lossless if and only if the live biased values are the smallest biased value |
| WrittenColumns.OneValueLoses | btrblocks/scheme/integer/OneValue.cpp:20-40 | [1, 2] as ONE_VALUE is lossy |
| WrittenColumns.OneCountLoses | btrblocks/scheme/templated/RLE.hpp:73-75 | [1, 2, 2] over ONE_VALUE counts is lossy |
| IntegerSchemes.OneValueLossless | btrblocks/scheme/integer/OneValue.cpp:20-40 | ONE_VALUE keeps the live rows if and only if they all carry the column's minimum |
| IntegerSchemes.FewDistinct | btrblocks/compression/SchemePicker.hpp:118-119 | the shortcut's guard implies that condition |
| IntegerSchemes.EncodeDictionary | btrblocks/scheme/templated/DynamicDictionary.hpp:37-56 | looking the codes up in the written dictionary gives the column back, null rows included |
| IntegerSchemes.CodeOf | btrblocks/scheme/templated/DynamicDictionary.hpp:49-56 | `lower_bound` lands on the value itself, so neither check can fire |
| IntegerSchemes.DictionaryLossless | btrblocks/scheme/templated/DynamicDictionary.hpp:77-96 | dictionary and lossless codes decode to the column |
| IntegerSchemes.RunLengthLossless | btrblocks/scheme/templated/RLE.hpp:34-52 | runs and lossless nested streams decode to the column on live rows |
| IntegerSchemes.EncodeFrequency | btrblocks/scheme/templated/Frequency.hpp:70-78 | one pass: the bitmap holds exactly the live rows that differ from the top value, and the exceptions are their values in row order |
| IntegerSchemes.TopValue | btrblocks/scheme/templated/Frequency.hpp:60-67 | a most frequent value, the smallest of them |
| IntegerSchemes.TopUnique | btrblocks/scheme/templated/Frequency.hpp:57-68 | what FREQUENCY stores is fixed by the column and its nulls |
| IntegerSchemes.FrequencyLossless | btrblocks/scheme/templated/Frequency.hpp:57-95 | top value, bitmap and lossless exceptions decode to the column on live rows |
| IntegerSchemes.EncodeFor | btrblocks/scheme/integer/FOR.cpp:26-33 | live rows are biased modulo 2^32, null rows passed on |
| IntegerSchemes.ForLossless | btrblocks/scheme/integer/FOR.cpp:18-65 | subtracting and adding the bias is the identity on live rows, also when the ALLZEROS decoder skips the addition |
| IntegerSchemes.PackedLossless | btrblocks/scheme/integer/PBP.cpp:129-160 | bit-packed blocks and the tail decode to the column, negative values included |
| CascadeReader.Gather | btrblocks/scheme/integer/RLE.cpp:51-102 | `gather` on any cascade and any positions (unsorted, repeated) equals decode-then-index; `dest` needs no slack; scratch buffers of lower levels keep their contents |
| CascadeReader.Decompress | btrblocks/scheme/templated/RLE.hpp:133-194 | decoding any cascade at level L gives its value and touches only scratch buffers of level L or deeper, even under a child of the same scheme |
| CascadeReader.DecodeChild | btrblocks/scheme/templated/RLE.hpp:144-163 | a nested stream is decoded one level deeper and every other buffer of this level survives |
| CascadeReader.GatherChild | btrblocks/scheme/integer/DynamicDictionary.cpp:61-64 | the same for a nested gather |
| CascadeReader.DecompressRle | btrblocks/scheme/templated/RLE.hpp:142-193 | both run streams, then the wide-store loop, give the run expansion |
| CascadeReader.LookupBlocked | btrblocks/scheme/templated/DynamicDictionary.hpp:126-158 | 32 rows at a time and the remainder: the dictionary lookup of every code, nothing beyond |
| CascadeReader.PatchExceptions | btrblocks/scheme/templated/Frequency.hpp:118-135 | fill and the moving exception pointer: the k-th row of the bitmap gets the k-th exception |
| CascadeReader.AddBiasInPlace | btrblocks/scheme/integer/FOR.cpp:61-64 | the bias is added in place modulo 2^32 |
| CascadeReader.GatherByDecoding | btrblocks/scheme/CompressionScheme.cpp:48-75 | the default gather may decode at its own level because its scratch is a stack of its own |
| CascadeReader.GatherRle | btrblocks/scheme/integer/RLE.cpp:51-102 | counts, prefix sum, binary search and one batched child gather equal decode-then-index |
| CascadeReader.PrefixSum | btrblocks/scheme/integer/RLE.cpp:74-79 | entry r of the offsets is the first row of run r |
| CascadeReader.SearchRun | btrblocks/scheme/integer/RLE.cpp:84-94 | the binary search lands on the run that owns the row, empty runs included |
| CascadeReader.PickThroughRuns | btrblocks/scheme/integer/RLE.cpp:97-101 | the owning runs' values are the requested rows of the expansion |
| CascadeReader.GatherFrequency | btrblocks/scheme/integer/Frequency.cpp:48-94 | splitting by membership, ranking and scattering equal decode-then-index |
| CascadeReader.SplitPositions | btrblocks/scheme/integer/Frequency.cpp:72-82 | every position is either answered with the top value or listed with rank - 1 and its slot |
| CascadeReader.OverlayPicked | btrblocks/scheme/integer/Frequency.cpp:75-92 | scattering the ranked exceptions completes the answers |
| CascadeReader.GatherDictionary | btrblocks/scheme/integer/DynamicDictionary.cpp:46-69 | codes gathered one level deeper, then looked up |
| CascadeReader.GatherFor | btrblocks/scheme/integer/FOR.cpp:67-88 | the child's gather plus the bias, or without it for an ALLZEROS null map |
| CascadeReader.GatherPacked | btrblocks/scheme/integer/PBP.cpp:162-213 | grouped block gather with the tail fall-back equals decode-then-index |
| CascadeReader.GroupByBlock | btrblocks/scheme/integer/PBP.cpp:194-204 | tail positions are answered at once, every other request is listed in its block's group with its slot |
| CascadeReader.UnpackGroups | btrblocks/scheme/integer/PBP.cpp:206-212 | the blocks with requests are unpacked, each of them once, and every request is answered |
| CascadeReader.Decompress64 | btrblocks/scheme/integer64/BP64.cpp:47-65 | both words decoded and recombined |
| CascadeReader.Gather64 | btrblocks/scheme/integer64/BP64.cpp:67-89 | BP64's gather equals decode-then-index of the 64-bit column |
| ScratchStacks.Scratch.GetLevelData | btrblocks/common/Units.hpp:124-129 | a buffer of at least the size asked for; growing keeps its contents; no other slot changes |
| Bitmap.RankIsPosition | btrblocks/scheme/integer/Frequency.cpp:75-78 | rank - 1 of a member is its place in the ascending iteration |
| Bitmap.PositionIsRank | btrblocks/scheme/templated/Frequency.hpp:125-135 | and conversely |
| Bp64.Compress64 | btrblocks/scheme/integer64/BP64.cpp:14-38 | both words through the integer picker one level down with the null map: the 64-bit column comes back on live rows, and the size is six bytes and both streams, at most raw and six bytes on the hot path |
| Bp64.WordsLossless | btrblocks/scheme/integer64/BP64.cpp:20-26 | lossless words make a lossless column |
| Words.SplitCombine64 | btrblocks/scheme/integer64/BP64.cpp:22-26 | the low/high split recombines to the same signed 64-bit value |
| Words.BiasRoundTrip | btrblocks/scheme/integer/FOR.cpp:26-64 | wrapped subtraction is undone by wrapped addition of the same bias |
| RunLength.EncodeRuns | btrblocks/scheme/templated/RLE.hpp:34-52 | counts are positive and sum to n, neighbouring values differ, and the expansion agrees with the column on live rows |
| RunLength.EncoderMinimal | btrblocks/scheme/templated/RLE.hpp:34-49 | no shorter run list reproduces the live rows if and only if the first live row equals row 0 (or no row is live) |
| RunLength.NotMinimalExample | btrblocks/scheme/templated/RLE.hpp:34-49 | [1, 2] with a null row 0: two runs where one would do |
| RunLength.RunListUnique | btrblocks/scheme/templated/RLE.hpp:34-49 | a run list without equal neighbours is the only one of its length, empty runs allowed in the other |
| RunLength.ExpandAt | btrblocks/scheme/templated/RLE.hpp:186-192 | a row of the expansion carries the value of the run that owns it |
| RunLength.OwnerUnique | btrblocks/scheme/integer/RLE.cpp:81-95 | a row has one owner |
| WideStore.DecodeRunsWide | btrblocks/scheme/templated/RLE.hpp:165-193 | register-wide stores that spill into the next run give the scalar expansion; at most lanes - 1 elements past the end (7 for INTEGER, 3 for DOUBLE) are touched |
| WideStore.StoreRun | btrblocks/scheme/templated/RLE.hpp:276-289 | one run's stores reach at most lanes - 1 elements past its end |
| BitPacking.UnpackPack | btrblocks/extern/FastPFOR.cpp:91-94 | w words hold 32 w-bit values and give them back |
| BitPacking.SkipLandsOnBlock | btrblocks/extern/FastPFOR.cpp:74-82 | skipping b headers lands on the block that the sequential decode unpacks as values [128b, 128b + 128) |
| BitPacking.DecompressBlock | btrblocks/extern/FastPFOR.cpp:65-98 | `decompressBlock(b)` equals that slice of the sequential decode |
| BitPacking.BlocksRoundTrip | btrblocks/scheme/integer/PBP.cpp:129-147 | packing whole blocks and decoding them sequentially is the identity on 32-bit words |
| BitPacking.WidthOfHeader | btrblocks/extern/FastPFOR.cpp:83-89 | the four widths are read back from the header word |
| NumberStats.GenerateStats | btrblocks/stats/NumberStats.hpp:78-130 | one pass gives the true minimum, maximum, frequencies, null count and sortedness, and the average run length in whole rows of the runs the RLE encoder makes under the same null map: so many rows for each run, and not one more for each |
| NumberStats.RowSeen | btrblocks/stats/NumberStats.hpp:95-121 | one row more keeps every accumulator right: bounds, frequencies, order, and a run counter one behind the encoder's runs |
| NumberStats.Samples | btrblocks/stats/NumberStats.hpp:34-73 | for every random draw: the whole column, or n windows of the given length, in bounds, ascending and disjoint; the null flags are cut from the same windows |
| NumberStats.CutContent | btrblocks/stats/NumberStats.hpp:53-69 | the windows hold n times the length, all of it taken from the column |
| Pseudodecimal.Decompress | btrblocks/scheme/double/Pseudodecimal.cpp:385-437 | whichever loop the flags select, the output is the scalar row loop's |
| Pseudodecimal.IterateBlocks | btrblocks/scheme/double/Pseudodecimal.cpp:399-422 | bitmap-driven decoding, partial last block included, equals the scalar loop |
| Pseudodecimal.Iteration.ScalarRow | btrblocks/scheme/double/Pseudodecimal.cpp:424-437 | one row keeps exponent, number, patch and write cursor in step |
| Pseudodecimal.Iteration.ExceptionBlock | btrblocks/scheme/double/Pseudodecimal.cpp:195-210 | a block with exceptions, also the short last one, row by row, cursors in step |
| Pseudodecimal.Iteration.Blocks | btrblocks/scheme/double/Pseudodecimal.cpp:213-315 | one or four exception-free blocks at once: their rows' values, all four cursors in step |
| Pseudodecimal.Iteration.UpTo | btrblocks/scheme/double/Pseudodecimal.cpp:338-345 | plain blocks up to the limit, then the block at the limit |
| Pseudodecimal.Iteration.UnrolledUpTo | btrblocks/scheme/double/Pseudodecimal.cpp:317-336 | four at a time, then singly: the same state as the plain loop |
| Pseudodecimal.GapIsPlain | btrblocks/scheme/double/Pseudodecimal.cpp:400-409 | between two members of the bitmap no block holds an exception |
| Pseudodecimal.StreamsDecode | btrblocks/scheme/double/Pseudodecimal.cpp:104-122 | the streams the encoder has pushed after n rows decode to those n rows |
| Pseudodecimal.Encode | btrblocks/scheme/double/Pseudodecimal.cpp:76-135 | gives up exactly when more than half of the rows are exceptions; otherwise the streams decode to the input, the bitmap lists exactly the blocks with exceptions, and the two flags tell whether some block has none and whether four in a row have none, although the counter is eight bits wide |
| Pseudodecimal.Convert | btrblocks/scheme/double/Pseudodecimal.cpp:84-104 | the exponent fits and no smaller one does, or it is the exception code and none fits, or the double is negative zero |
| Pseudodecimal.NumbersFit | btrblocks/scheme/double/Pseudodecimal.cpp:107-110 | every pushed significand is a non-negative INTEGER, so the check cannot fire |
| Pseudodecimal.GiveUpIsReplaced | btrblocks/scheme/double/Pseudodecimal.cpp:114-119 | the penalty size exceeds the raw size exactly when the 32-bit sum does not wrap |
| Pseudodecimal.PenaltyWraps | btrblocks/scheme/double/Pseudodecimal.cpp:114-119 | a raw size that loses its penalty |
| Pseudodecimal.AbandonedButKept | btrblocks/compression/SchemePicker.hpp:181-190 | a column of 2^29 - 125 exceptions: abandoned, and its penalty is lost |
| Pseudodecimal.CompressOnHotPath | btrblocks/compression/SchemePicker.hpp:181-190 | what is stored restores the input, except exactly for an abandoned encode of a column whose size wraps with the penalty |
| DecimalColumn.CompressColumn | btrblocks/scheme/double/Pseudodecimal.cpp:137-165 | significands, if any, and exponents through the integer picker at depth - 1 without nulls: both streams are lossless; nothing is stored exactly when more than half of the rows are exceptions |
| DecimalColumn.DecompressColumn | btrblocks/scheme/double/Pseudodecimal.cpp:354-437 | both streams decoded one level deeper into this level's buffers, then the row loop's result |
| DecimalColumn.StoreAndLoad | btrblocks/scheme/double/Pseudodecimal.cpp:56-165 | there and back with significands and exponents through the cascade and the patches as they are: every row returns unless more than half of them are exceptions |
| StringColumn.CompressStrings | btrblocks/scheme/string/DynamicDictionary.cpp:42-208 | dictionary, codes and flag: live rows' codes lead to their strings, the codes stream is lossless, and the flag is set exactly for more than three rows a run. At depth 0 the codes are UNCOMPRESSED. When sampling with a level to spend, flagged codes are recorded as RLE always while estimating; on the hot path exactly when the run-length stream just compressed is not larger than the raw codes, which holds from three rows more than three a run on, and at depth 1 only then |
| StringColumn.Decompress | btrblocks/scheme/string/DynamicDictionary.cpp:226-419 | on either path slots and strings end up as the rows' strings; the cast fails exactly when the flag is set and the recorded scheme is not RLE; only the plain path compares sizes (StringsRoundTrip and StoreAndLoad say for which columns each failure happens) |
| StringColumn.DecompressViews | btrblocks/scheme/string/DynamicDictionary.cpp:421-580 | the no-copy decoder on the same stream, with the same cast |
| StringColumn.StringsRoundTrip | btrblocks/scheme/string/DynamicDictionary.cpp:42-208 | what was compressed is decodable; live rows come back, null rows as the least string of the column not smaller than what they hold; the recorded size is the decoded one if and only if the null rows decode to as many bytes as they hold |
| StringColumn.LiveBytesAgree | btrblocks/scheme/string/DynamicDictionary.cpp:57-57 | decoded and recorded sizes differ by the bytes of null rows only |
| StringColumn.RowsRestored | btrblocks/scheme/string/DynamicDictionary.cpp:172-178 | what every row decodes to, told from the column alone |
| StringColumn.RestoredUnique | btrblocks/scheme/string/DynamicDictionary.cpp:172-178 | and that is one string per row |
| StringColumn.StoreAndLoad | btrblocks/scheme/string/DynamicDictionary.cpp:42-419 | there and back, both failures included, for every column whose codes are valid: live rows come back; the size check fails if and only if there are at most three rows a run and null rows hold another number of bytes than they decode to; the cast fails at depth 0 exactly for every flagged column, and when sampling with a level to spend at most on the hot path for one or two rows more than three a run, at depth 1 exactly for those |
| StringColumn.StoreAndLoadWhole | btrblocks/scheme/string/DynamicDictionary.cpp:42-419 | with empty null rows there is no size failure, and whatever does not fail in the cast comes back whole |
| StringColumn.DictionaryUsed | btrblocks/scheme/string/DynamicDictionary.cpp:173-178 | every non-empty dictionary string is some live row's |
| StringColumn.CodesStayUnbiased | btrblocks/compression/SchemePicker.hpp:131-136 | the smallest code of any column is 0 or 1, so frame of reference is never tried first for codes |
| StringColumn.PoolAllocated | btrblocks/scheme/string/DynamicDictionary.cpp:214-224 | for every column the no-copy allocation computed from the recorded size holds views and pool |
| StringColumn.LexicographicIsStrict | btrblocks/scheme/string/DynamicDictionary.cpp:62-62 | the order of string views is a strict total order |
| StringColumn.CodesValidIff | btrblocks/scheme/string/DynamicDictionary.cpp:173-178 | all codes lead into the dictionary if and only if no null row holds a string beyond its last entry |
| StringColumn.CodesValidFor | btrblocks/scheme/string/DynamicDictionary.cpp:173-178 | the same as a condition on the column: some string of it is not smaller than what each null row holds |
| StringColumn.AllRowsCoded | btrblocks/scheme/string/DynamicDictionary.cpp:173-178 | with empty strings in null rows every row is restored |
| StringColumn.FlaggedButNotRle | btrblocks/scheme/string/DynamicDictionary.cpp:183-197 | four equal strings and four others: compressed on the hot path at any depth, then decompressed, the cast fails |
| StringColumn.NullRowBeyond | btrblocks/scheme/string/DynamicDictionary.cpp:173-178 | a null row holding "b" next to a live "a" is coded one past the dictionary |
| StringColumn.NullBytesMismatch | btrblocks/scheme/string/DynamicDictionary.cpp:417-417 | a null row holding "a" next to a live "bb": compressed and decompressed under any configuration, the size check fails |
| StringColumn.EncodeCodes | btrblocks/scheme/string/DynamicDictionary.cpp:169-183 | one pass: lower-bound codes and the number of runs |
| StringColumn.RunTotalIsRuns | btrblocks/scheme/string/DynamicDictionary.cpp:179-184 | the run counter is the number of runs the RLE encoder makes of the codes |
| StringColumn.RunsOfRows | btrblocks/scheme/string/DynamicDictionary.cpp:172-182 | codes have the runs of the strings they stand for |
| StringColumn.DistinctTexts | btrblocks/stats/StringStats.cpp:21-34 | the distinct strings of live rows, and the empty string if any row is null |
| StringColumn.ReadRuns | btrblocks/scheme/string/DynamicDictionary.cpp:246-247 | both run streams decoded two levels down into buffers sized for the rows, which suffices because no run is empty |
| StringDictionary.DecompressRuns | btrblocks/scheme/string/DynamicDictionary.cpp:269-312 | offsets in eight-wide steps, then doubling copies: slots and bytes exactly as the plain decoder leaves them |
| StringDictionary.DecompressPlain | btrblocks/scheme/string/DynamicDictionary.cpp:405-419 | row by row: slot, then string; returns the decoded size |
| StringDictionary.ReadBack | btrblocks/storage/StringArrayViewer.hpp:27-36 | a row's slots delimit that row's string |
| StringDictionary.WriteOffsets | btrblocks/common/Utils.hpp:68-125 | evenly spaced 32-bit offsets; at most seven slots past the requested ones change (eight when none is requested) |
| StringDictionary.WriteAllOffsets | btrblocks/scheme/string/DynamicDictionary.cpp:279-287 | spilled offsets are overwritten by the next run; all slots are right before the first string is written |
| StringDictionary.WriteRunStrings | btrblocks/scheme/string/DynamicDictionary.cpp:289-311 | one run from the longest cached copy: the strings so far, and every cache entry points at that many finished copies |
| StringDictionary.RunSpacing | btrblocks/scheme/string/DynamicDictionary.cpp:283-285 | below 2^32 the wrapped offset of a row inside a run is the true one |
| StringDictionary.CacheGrows | btrblocks/scheme/string/DynamicDictionary.cpp:295-308 | as the output grows all cache entries stay good, with or without the new one |
| Texts.MultiplyString | btrblocks/common/Utils.hpp:40-61 | n copies by doubling; no copy overlaps its source; nothing else in the buffer changes |
| Texts.DoubleCopies | btrblocks/common/Utils.hpp:52-60 | one doubling step adds as many copies as there are, or as are missing |
| Texts.EqualTexts | btrblocks/common/Utils.hpp:68-84 | equal neighbours: offsets advance evenly and the joined text repeats |
| Texts.JoinedSlice | btrblocks/storage/StringArrayViewer.hpp:27-36 | cutting the joined text at the offsets gives back the text |
| StringViews.DecompressNoCopy | btrblocks/scheme/string/DynamicDictionary.cpp:432-575 | pool and row views, on either codes path |
| StringViews.NoCopyReadBack | btrblocks/storage/StringPointerArrayViewer.hpp:23-25 | every row's view reads back that row's string |
| StringViews.CopyAndNoCopyAgree | btrblocks/storage/StringPointerArrayViewer.hpp:23-25 | both decoders show the same string in every row |
| StringViews.StoreRunViews | btrblocks/scheme/string/DynamicDictionary.cpp:495-509 | four-wide view stores give every row its view and never reach further than three views past the last row |
| StringViews.StoreCodeViews | btrblocks/scheme/string/DynamicDictionary.cpp:531-575 | sixteen rows at a time and the remainder, without a store outside the rows |
| StringViews.BuildViews | btrblocks/scheme/string/DynamicDictionary.cpp:469-481 | lengths from the slots, offsets accumulated behind the row views, below 2^32 |
| StringViews.StoreDictionary | btrblocks/scheme/string/DynamicDictionary.cpp:153-165 | slots relative to the first slot, then the strings |
| StringViews.PoolFits | btrblocks/scheme/string/DynamicDictionary.cpp:214-224 | the allocation computed from the column's size holds views and pool when every non-empty dictionary string is some live row's |
| ColumnReader.GatherColumn | btrblocks/compression/BtrReader.cpp:88-153 | `dest[i]` is row `positions[i]` of the decoded chunks' concatenation for any order, repeats, short and empty chunks; `chunks_touched` is the number of distinct chunks hit; errors are exact and write nothing |
| ColumnReader.Bucket | btrblocks/compression/BtrReader.cpp:114-127 | every request is in the bucket of the chunk that owns its row, once and in order, with a local position inside the chunk |
| ColumnReader.FindChunk | btrblocks/compression/BtrReader.cpp:121-123 | `upper_bound` - 1 is the owning chunk; empty chunks own nothing |
| ColumnReader.ChunkStarts | btrblocks/compression/BtrReader.cpp:104-109 | the prefix sums of the tuple counts |
| ColumnReader.RowOfChunk | btrblocks/compression/BtrReader.cpp:106-109 | a row of the concatenation is the local row of its owner |
| ColumnReader.GatherBucket | btrblocks/compression/BtrReader.cpp:130-148 | one chunk's answers reach exactly the slots they were asked for; earlier answers stay |
| ColumnReader.TouchedStep | btrblocks/compression/BtrReader.cpp:130-134 | a chunk is counted exactly when its bucket is not empty |
| PartFile.ColumnPart.WriteToDisk | btrblocks/storage/Chunk.cpp:250-295 | the relative seeks agree with the recorded offsets: table and chunks can be read back; the part is empty afterwards; the returned size leaves the padding out |
| PartFile.ReadChunk | btrblocks/compression/BtrReader.hpp:61-64 | through the table to the chunk: an offset that is a multiple of 16 and the chunk's bytes behind it |
| PartFile.Layout | btrblocks/storage/Chunk.cpp:260-272 | offsets and distances of every chunk, offsets below 2^32 |
| PartFile.OffsetsFit | btrblocks/storage/Chunk.cpp:260-272 | under the 16 MiB limit no offset exceeds 32 bits |
| PartFile.OffsetsAscend | btrblocks/storage/Chunk.cpp:260-272 | chunks overlap neither the table nor each other |
| PartFile.ReportedSizeExact | btrblocks/storage/Chunk.cpp:286-295 | the returned size is the file's size if and only if the chunk count is 3 modulo 4 and every chunk but the last fills whole 16-byte units (or there is no chunk) |
| PartFile.ReportedSizeTooSmall | btrblocks/storage/Chunk.cpp:286-295 | a single chunk of one byte: the file is eight bytes longer than reported |
| PartFile.ColumnPart.CanAdd | btrblocks/storage/Chunk.cpp:233-243 | above the limit an error, otherwise whether the part stays within it |
| PartFile.ColumnPart.AddCompressedChunk | btrblocks/storage/Chunk.cpp:245-248 | the size stays the sum of the chunks |
| PartFile.PackColumn | tools/conversion/csvtobtr.cpp:154-189 | the part files concatenate to the chunk list in order, each closed only when the next chunk did not fit; it fails exactly for a chunk above the limit, and then the part in progress is not written |
| PartFile.AlignByFacts | btrblocks/common/Utils.hpp:13-17 | the least multiple of any alignment that is not smaller; a multiple stays |
| PartFile.AlignFacts | btrblocks/storage/Chunk.cpp:258-268 | and so for 16, the one alignment in use |
| PartFile.AlignMask | btrblocks/common/Utils.hpp:13-17 | on machine words the mask subtracts the remainder |
| NullBitmap.Compress | btrblocks/extern/RoaringBitmap.cpp:117-159 | the stored kind and members stand for exactly the given bits; constant maps store nothing; at most half of the rows (rounded up) are members |
| NullBitmap.BitmapWrapper.constructor | btrblocks/extern/RoaringBitmap.cpp:8-26 | the cardinality is the number of set bits, before anything is expanded |
| NullBitmap.BitmapWrapper.GetBitset | btrblocks/extern/RoaringBitmap.cpp:66-114 | expands to the original bits, into the lent bitset whatever it held, or into a new one; once only |
| NullBitmap.BitmapWrapper.WriteBitmap | btrblocks/extern/RoaringBitmap.cpp:32-59 | writes the original bits; constant kinds need no bitset |
| BitmapCache.Reader.Serve | btrblocks/compression/BtrReader.cpp:287-320 | over any sequence of get, test, expand, write, cardinality, release and release-ownership calls every answer is the original map's |
| BitmapCache.Reader.GetBitmap | btrblocks/compression/BtrReader.cpp:287-304 | the cached wrapper, or a new one around the cached bitset; all other chunks untouched |
| BitmapCache.Reader.ReleaseBitmap | btrblocks/compression/BtrReader.cpp:306-313 | the bitset is kept for the next wrapper; lost is exactly one that a constant map's wrapper made for itself |
| BitmapCache.Reader.ReleaseBitmapOwnership | btrblocks/compression/BtrReader.cpp:315-320 | wrapper and bitset leave the cache together and the wrapper still shows the map; lost is exactly a bitset kept without a wrapper |
| BitmapCache.Reader.Close | btrblocks/compression/BtrReader.cpp:20-32 | every bitset still owned is deleted, none twice |
| BitmapCache.LostOnRelease | btrblocks/compression/BtrReader.cpp:306-313 | an expanded all-ones map is released: its bitset is lost |
| BitmapCache.LostOnHandOver | btrblocks/compression/BtrReader.cpp:315-320 | a released map is handed over: no wrapper, and its bitset is lost |
| Truncation.SpanExact | btrblocks/scheme/integer/Truncation.hpp:90-100 | the unsigned difference is the exact span of any two signed values of the width |
| Truncation.CanCompressAgrees | btrblocks/scheme/integer/Truncation.hpp:39-41 | the signed guard answers like the exact span if and only if the span is below 2^31 |
| Truncation.CanCompressWrong | btrblocks/scheme/integer/Truncation.hpp:74-76 | a full-range column passes the guard although its span is 2^32 - 1 |
| Truncation.Compress | btrblocks/scheme/integer/Truncation.hpp:110-130 | refused exactly when the span exceeds the code width; otherwise live rows' codes lead back to their values and null rows' codes are not written |
| Truncation.Decompress | btrblocks/scheme/integer/Truncation.hpp:132-155 | live rows get their values, null rows of the destination are left alone |
| Truncation.Gather | btrblocks/scheme/integer/Truncation.hpp:162-176 | live rows in any order, without the null map |
| SegmentMetrics.MetricCollector.Compute | btrblocks/scheme/integer/subintsplit/Metrics.hpp:70-171 | whatever an earlier call left behind: true minimum, maximum and run count; true distinct and dominant counts on the array path, and on the hash path unless capped, which happens exactly for more than 16384 distinct values; counters are zero again |
| SegmentMetrics.MetricCollector.CountDirect | btrblocks/scheme/integer/subintsplit/Metrics.hpp:97-155 | array counting and clearing by the touched list |
| SegmentMetrics.MetricCollector.CountHashed | btrblocks/scheme/integer/subintsplit/Metrics.hpp:131-157 | hash counting up to the cap |
| SegmentMetrics.HashedStep | btrblocks/scheme/integer/subintsplit/Metrics.hpp:131-141 | one value more: the cap is noticed exactly when it is exceeded |
| PlanSampler.SampleInto | btrblocks/scheme/integer/subintsplit/Sampler.hpp:37-90 | never empty for a non-empty column, at most `target` values: the first sampled live rows in ascending order, all of them below the target; null rows only if no sampled row was live; where no row is null, exactly as many as the target and the plan allow, the k-th of them being row k mod width of block k div width |
| PlanSampler.BlocksSpread | btrblocks/scheme/integer/subintsplit/Sampler.hpp:63-66 | as many blocks as the target allows, at least one, and their starts spread over the whole column: blocks times stride falls short of the count by less than the number of blocks |
| PlanSampler.StridesSpread | btrblocks/scheme/integer/subintsplit/Sampler.hpp:73-74 | the target times the stride falls short of the count by less than the target |
| PlanSampler.PickedInOrder | btrblocks/scheme/integer/subintsplit/Sampler.hpp:62-77 | a list of all sampled rows in ascending order is the plan's own enumeration of blocks and places |
| PlanSampler.Target | btrblocks/scheme/integer/subintsplit/Sampler.hpp:50-51 | all rows, or the sample limit when that is positive and smaller |
| PlanSampler.Bits | btrblocks/scheme/integer/subintsplit/Sampler.hpp:57-59 | the value modulo 2^64 or 2^32 |
| PlanSampler.BlocksApart | btrblocks/scheme/integer/subintsplit/Sampler.hpp:64-69 | blocks never reach into the next one, except for a single block |
| PlanSampler.SweepStride | btrblocks/scheme/integer/subintsplit/Sampler.hpp:73-78 | uniform stride: the rows at multiples of the stride, until the target is reached |

## Left out

- FSST: string dictionaries are modelled with raw strings only, and so are their two decoders.
- Foreign codecs: the PFOR payload and the VariableByte tail behind whole FBP blocks are kept as values, and Roaring
  serialisation as a set; only their sizes enter, as functions of the content that the picker is given.
- PFOR_DELTA, the fixed dictionaries, SubIntSplit and the 64-bit copies of the 32-bit schemes.
- DecimalColumn.StoreAndLoad: the patches are kept as values, where the code sends them through the double picker; other
  double columns are not modelled as cascades; `isUsable` is constant for the modelled schemes.
- IEEE arithmetic, and with it rounding, powers of ten and whether a significand's bit count is computed exactly.
- How good the chosen scheme is, beyond having the best estimate or the smallest stream; the dictionary's estimate is
  arbitrary where its closed form exceeds 32 bits.
- SchemePicker.Picker.Compress: assumes that a scheme requested by code is registered (the code dereferences a missing
  entry), and a non-empty column at the top level, where an empty one would reach ONE_VALUE without a value.
- NumberStats.GenerateStats: fewer than 2^30 rows where the picker uses it, so that the raw size fits its 32 bits.
- NumberStats.Samples: the 32-bit product of window count and length does not wrap.
- ColumnReader.GatherColumn: the total row count of a part fits 32 bits; the 64-bit copy of the function is not
  modelled.
- StringDictionary.DecompressRuns: offsets of a decoded chunk stay below 2^32; wrapping past it is not modelled.
- StringViews.PoolFits: counts bytes, while the decoders' memory is made of cells, one for a slot, a byte or a view.
- StringColumn.StoreAndLoad: columns with a code past the dictionary are left to CodesValidFor; the decoder reads beyond
  the slots for them.
- WrittenColumns.WrittenExactly: without null rows; with them one layer at a time, since lost null rows are no loss.
- StringColumn.CompressStrings: the string statistics' length counters, which only decide about FSST.
- PartFile.ColumnPart.WriteToDisk: chunks are not empty (each starts with its metadata); streams that fail to open or
  close are not modelled.
- PartFile.AlignMask: the bit mask is tied to the arithmetic for alignment 16, the one in use; AlignByFacts is for any.
- SegmentMetrics.MetricCollector.Compute: the single loop with its flag tests is split into one loop per purpose, and
  counters are unbounded.
- Pseudodecimal.Encode: the configured bit limit is at most 31; beyond it the encoder's own check can raise an error.
- Pseudodecimal.Iteration.Blocks: the two-block step is not modelled; its only call is compiled out.
- Level counters and depths are natural numbers; their 8-bit wrap-around is not modelled.
- The build without SIMD, the sampling test mode, `lookup` and `scan` stubs, descriptions, logging and thread caches
  beyond the two level counters.
- `readColumn`, file and network I/O, memory mapping, CSV and YAML, the S3 tools and benchmarks.
