# A model of the PBC compressor

PBC compresses short, similar records. A trainer groups records into clusters and merges the records of a
cluster into a pattern of literal bytes and wildcards; a record is then stored as the number of a pattern and
the gaps that fill its wildcards. Behind that codec stands one of several general coders: a finite state
entropy coder (FSE, a tANS coder in the format of section 4.1 of RFC 8878), a Huffman coder (section 4.2.1 of
RFC 8878), or string symbol tables (FSST).

This project models these parts in Dafny and proves what they promise.

## How the project is laid out

| files | part |
|---|---|
| `Powers`, `Bytes`, `Counting` | shifts and masks on naturals, byte strings, finite counting |
| `BitStream`, `FieldRoundTrip` | the bit stream that is written forward and read backward |
| `FseTables`, `FseBuild`, `FseCodec` | symbol spreading, the two table builders, the interleaved coder |
| `FseShares`, `FseNormalize`, `NCountFormat`, `NCountWriter`, `NCountBound`, `NCountRuns`, `NCountReader`, `NCountRoundTrip` | normalized counts and their header |
| `Statistics`, `FseBlock` | a whole block: statistics, header and stream |
| `HuffmanSort`, `HuffmanShape`, `HuffmanOptimal`, `HuffmanDepth`, `HuffmanTree`, `HuffmanRounds`, `HuffmanLimit` | sorting, the tree, its optimality and depth, the height limit |
| `HuffmanTable`, `HuffmanReaders`, `HuffmanBook`, `HuffmanBuild`, `HuffmanCodec`, `HuffmanText`, `HuffmanRefusal`, `HuffmanUnique` | weights, codes, decoding table, streams, whole texts, what determines a book |
| `FsstTable`, `FsstBuckets`, `FsstFinal`, `FsstCodec`, `FsstDecoder`, `FsstHeader` | symbol table, renumbering, compression, decoder, header |
| `Patterns`, `PatternMerge`, `PatternChoice`, `PatternTrace`, `PatternClash`, `PatternTables` | patterns, the alignment and its trace, stars taken for wildcards, the tables in place |
| `GivingUp`, `TrainerCost` | the alignment given up, the filter before it, and what the trainer therefore takes a merge to cost |
| `Varint`, `RecordFormat`, `RecordCodec`, `RecordDecoding`, `RecordCuts`, `PatternParsing`, `PatternExpression`, `PbcCompress`, `RecordFrames` | the pattern codec |
| `Clusters`, `Agglomeration`, `Training`, `PatternBuffers` | the merge loop, what training achieves as a whole, and where its patterns are stored |
| `ThreadPool`, `NestedPools` | the pool as a state machine, and two pools on top of each other |

Loops and objects of the original are methods and classes here. Each is proved against a function or predicate
that says what it computes, and the laws are lemmas about those. Registers, counters and table entries are
unbounded naturals, with masks and truncation written out where the code relies on them. A ghost parameter `good`
marks the executions for which a reader is told what it reads; what a contract says without it holds for any bytes.

## Main results

- **Finite state coder.** `FseBlock.RoundTripBlock`: what is compressed to a block is decompressed to exactly the
  source, from the statistics over the header to the last symbol, whatever the sizes of the buffers. Underneath: the
  spread is a permutation that both sides must agree on (`FseTables.SpreadCount`, `FseTables.SpreadUnique`), one coding
  step is undone by one table cell (`FseBuild.StepInverse`), the stream ends by overrun at the right symbol
  (`FseCodec.LastNeedsBit`), and normalization is exact and fair in both of its methods and fails only for an
  unsupported size (`FseNormalize.NormalizeCount`, `FseNormalize.ShareIsFair`, `FseNormalize.NormalizeM2`).
- **Huffman.** `HuffmanBuild.BuildCTable`: the two-queue construction yields the shortest possible text unless the
  height limit is reached, and the limiter keeps the code space exactly filled as long as its 32-bit sum does not wrap
  around. Which codes it lengthens is stated round by round (`HuffmanLimit.SetMaxHeight`), so that counts and limit
  determine the whole book (`HuffmanUnique.BookIsUnique`). `HuffmanText.RoundTripText` goes from a text over counts,
  tree, limit, weights and the tables of both sides (`HuffmanReaders.TablesAgree`) back to the text, for every limit up
  to twelve bits; with twelve the description may be refused, exactly as stated there.
- **String symbol tables.** All three compression variants emit the same greedy encoding (`FsstCodec.CompressVariant`),
  renumbering keeps every lookup's meaning (`FsstFinal.Finalize`), and the block decoder equals the byte-wise one
  (`FsstDecoder.Decompress`).
- **Patterns.** The alignment's trace is the rendering of a pattern that matches whatever either input matches
  (`PatternTrace.MergeTheorem`) unless it keeps an escaped star for a wildcard, and then it is still a stored form, with
  an exact test of whether a string is lost (`PatternClash.MergeIsStored`, `PatternClash.MergeKeepsExactly`). It is
  computed in place on stored strings with escapes (`PatternTables.MergePattern`), every value of the table is the
  smallest of the ways to it (`PatternChoice.EntryIsLeast`) and the cost of its merge, with the exact surcharges
  (`PatternMerge.EntryIsCost`).
- **Training.** The table of nearest neighbours is up to date at every merge, so the loop is a chain of merges of
  closest pairs (`Agglomeration.Trainer.Merge`). With the trainer's own cost each merge is a cheapest one among plain
  patterns unless it is missed in the one way there is, and the loop ends with the number of clusters wanted
  (`Training.TrainPattern`). At the end every record matches the pattern of its cluster unless a merge has kept a star
  for a wildcard (`Training.Train`), and is stored and restored by it (`Training.TrainedRoundTrip`).
- **Pools.** No wake-up is lost, no reachable state stalls, every task runs exactly once, and every run of the nested
  pools is bounded by its work and its spurious wake-ups (`ThreadPool.NoLostWakeup`, `NestedPools.RunNeverStalls`,
  `NestedPools.RunIsShort`).

## What turned out to hold only under a condition

- The unwatched mode of the finite state coder leaves the destination exactly if the coded bits need it
  (`FseCodec.CompressUsingCTable`). Tables of at most eight bits never do, nor does a destination with room for
  tableLog bits a symbol (`FseCodec.FittingStays`), nor one and a half bytes a symbol and four hundred for a block
  (`FseBlock.RoomForBlock`). A record of 700000 equal bytes does, in the buffer of one mebibyte that
  `src/compress/compress.cc` passes (`FseCodec.RareByteOverruns`).
- The bound for the header of normalized counts is missed by a byte for eleven symbols of which every other one is
  absent (`NCountBound.BoundMissed`); two bytes more are always enough, and the bound is without absent symbols
  (`NCountBound.BoundAndTwo`, `NCountBound.BoundWithoutAbsent`).
- A header is misread from a buffer that it fills exactly if a run of absent symbols is still being read when the
  register can no longer be moved and bits of the next count lie in the last byte (`NCountReader.ReadNCount`,
  `NCountRoundTrip.WideGapLost`). In a block the stream follows, and the trainer's own header has no absent symbol,
  so both are read right (`NCountRoundTrip.RoundTrip`).
- The height limiter fills the code space if and only if the cost of its cut is below 2^31
  (`HuffmanLimit.SetMaxHeight`). Totals below the Fibonacci number of the limit plus 26 keep it there, and so do all
  texts of up to 128 KiB (`HuffmanLimit.ShallowFits`, `HuffmanLimit.BlockIsLight`); 41 Fibonacci numbers do not
  (`HuffmanLimit.FibonacciOverdraws`).
- A description of Huffman weights is refused if and only if the code space has twelve bits and a symbol in front of
  the last one has a one-bit code (`HuffmanText.SentUnlessOneBit`): with the limit twelve a text of 609 bytes does not
  come back (`HuffmanRefusal.RefusedText`), and every text of less than 377 bytes does.
- A variable-length integer comes back if and only if neither loop test of the writer meets 128
  (`Varint.VarintRoundTrip`); lengths below 2^21 always do.
- The decoder of records copies past its input if and only if it reaches a length whose end wraps around in 32 bits
  (`RecordDecoding.PastInputRecord`, `RecordDecoding.LengthWraps`); without a byte 15 behind the first six bytes there
  is none (`RecordDecoding.NoFifteenRecord`).
- A record framed with a type byte comes back unless it is a matched record whose second coding has exactly one byte,
  or an empty record that no pattern matches (`RecordFrames.FramedRoundTrip`).
- A cut record is refused while the bytes behind the cut are still in the buffer (`RecordDecoding.CutIsRefused`); with
  other bytes there something is restored exactly in two cases (`RecordCuts.CutWithOtherBytes`).
- The tail of the string decoder takes an escape for a symbol exactly in the states named by `FsstDecoder.Overruns`;
  32 spare bytes exclude them, six times the output does not (`FsstDecoder.RoomSuffices`, `FsstDecoder.RoomNeeded`).
  The comment at `src/deps/fsst/fsst.h:199` speaks of at most three bytes there.
- Merging can lose strings when the path keeps an escaped star of the first pattern for a wildcard of the second
  (`PatternClash.ClashLosesStrings`), though it need not (`PatternClash.ClashKeepsStrings`); exactly when it does is
  decided by two strings (`PatternClash.MergeKeepsExactly`). Otherwise it never does (`PatternTrace.MergeTheorem`).
- A table value exceeds the cost of the merge when the path goes on from an escaped token on the border, or takes a
  wildcard for an escaped star, and by how much is stated (`PatternMerge.EntryIsCost`, `PatternMerge.EscapeOvercharges`).
- Giving up an alignment loses a merge cheaper than the threshold, for patterns without wildcards and escapes, if and
  only if the second is the end of the first and one wildcard for what comes before costs less
  (`GivingUp.LostMerges`). So the trainer merges `xy` with `xz` although merging `xy` with `y` costs less
  (`TrainerCost.ClosestIsNotCheapest`).
- The string of a merged pattern and its terminating zero lie in the first cluster's buffer unless the pattern keeps all
  characters of the record and has almost twice as many escapes and wildcards (`PatternBuffers.FitsExactly`), which a
  record with two characters other than backslashes and stars excludes (`PatternBuffers.TwoPlainSuffice`) and the record
  of one backslash does not (`PatternBuffers.BackslashDoesNotFit`).
- Frames name their pattern without a test (`RecordFrames.NumberOutsideList`), and an empty stored pattern in front of a
  star has an expression without a last character (`PbcCompress.Compressor.ReadPattern`).
- A zero byte in front of an octal digit in a pattern gives an expression that is read as another byte
  (`PatternExpression.ZeroSevenMisread`); otherwise it is read as the pattern (`PatternExpression.ReadsBack`).
- The merge loop runs out of pairs, which it does not test for, if and only if no cluster is wanted and there are
  records, as long as costs stay within an int (`Training.TrainPattern`).

## Model

| member | source | states |
|---|---|---|
| `BitStream.StackIsLifo` | src/deps/fse/bitstream.h:53-56 | Any fields pushed on the bit stack come back masked to their widths, in reverse order, and leave the stack as it was |
| `BitStream.PopPush` | src/deps/fse/bitstream.h:198-206 | One pushed field is what the next pop of its width returns, over the same stack |
| `BitStream.CStream.constructor` | src/deps/fse/bitstream.h:183-193 | A stream is usable exactly if its buffer is longer than the register |
| `BitStream.CStream.AddBits` | src/deps/fse/bitstream.h:198-217 | Appends exactly the low bits of the value to the bits written so far |
| `BitStream.CStream.FlushBits` | src/deps/fse/bitstream.h:239-249 | Keeps the bits written, leaves less than a byte in the register, and records a loss exactly if the whole bytes pass the end pointer |
| `BitStream.CStream.FlushBitsFast` | src/deps/fse/bitstream.h:223-232 | Spills the same bytes without the clamp, and the pointer passes the end exactly if the whole bytes do |
| `BitStream.CStream.Close` | src/deps/fse/bitstream.h:254-260 | Returns 0 exactly if the stream and its end mark do not fit, and otherwise the buffer holds the bits under an end mark in the returned number of bytes |
| `BitStream.DStream.Init` | src/deps/fse/bitstream.h:272-318 | Fails exactly on an empty source or a zero last byte; from the bytes of a closed stream exactly its bits remain to be read |
| `BitStream.DStream.LookIsTop` | src/deps/fse/bitstream.h:345-366 | Both ways of looking show the bits on top of what remains, the fast one from one bit on |
| `BitStream.DStream.LookWider` | src/deps/fse/bitstream.h:361-366 | A wider fast look begins with the bits of a narrower one, also where it reaches beyond the register |
| `BitStream.DStream.ReadBits` | src/deps/fse/bitstream.h:377-382 | Pops the field from what remains unless the register overruns |
| `BitStream.DStream.ReadBitsFast` | src/deps/fse/bitstream.h:386-392 | Same for at least one bit |
| `BitStream.DStream.SkipBits` | src/deps/fse/bitstream.h:368-371 | Drops bits from what remains |
| `BitStream.DStream.ReloadFast` | src/deps/fse/bitstream.h:400-409 | Refills without changing what remains, and refuses near the start of the buffer |
| `BitStream.DStream.Reload` | src/deps/fse/bitstream.h:416-440 | Reports overflow exactly after an overrun, otherwise changes nothing of what remains; tells in which states how many bits can be read |
| `BitStream.DStream.EndOfDStream` | src/deps/fse/bitstream.h:445-448 | Holds exactly if nothing remains to be read and nothing was read too much |
| `FieldRoundTrip.RoundTrip` | src/deps/fse/bitstream.h:53-56 | A sequence of fields, written, closed and read back, comes back in reverse order from any buffer that it fits, and the stream is at its end exactly when only empty fields are left |
| `FseTables.VisitInjective` | src/deps/fse/fse.h:683 | The walk with the table step meets no cell twice before it is back at zero after a whole turn |
| `FseTables.VisitSurjective` | src/deps/fse/fse.h:683 | One turn of the walk visits every cell |
| `FseTables.StepMeaning` | src/deps/fse/fse.h:683 | The step is five eighths of the table and three |
| `FseTables.NextPosition` | src/deps/fse/fse_compress.c:116-118 | Skipping the low-probability cells ends, at the next open cell of the walk |
| `FseTables.SpreadCount` | src/deps/fse/fse_compress.c:95-122 | In the spread table every symbol has exactly as many cells as its normalized count says |
| `FseTables.SpreadSymbol` | src/deps/fse/fse_compress.c:95-122 | Every cell holds a symbol that owns cells |
| `FseTables.SpreadUnique` | src/deps/fse/fse_decompress.c:89-114 | The description of the spread determines the table, so the two builders cannot disagree |
| `FseBuild.StartPositions` | src/deps/fse/fse_compress.c:95-106 | Start of each symbol in sorted order, with the low-probability symbols laid from the top downwards |
| `FseBuild.SpreadSymbols` | src/deps/fse/fse_compress.c:108-122 | The walk places all other symbols and ends where it began |
| `FseBuild.FillStates` | src/deps/fse/fse_compress.c:124-128 | Lists the cells of each symbol in table order from its start position on |
| `FseBuild.FillTransforms` | src/deps/fse/fse_compress.c:130-154 | Bit counts and state offsets of every symbol fit its number of cells |
| `FseBuild.BuildCTable` | src/deps/fse/fse_compress.c:66-170 | The encoder builds a table for the spread of the counts |
| `FseBuild.InitDecoder` | src/deps/fse/fse_decompress.c:85-100 | Lays the low-probability symbols; fast mode exactly if every count is below half the table |
| `FseBuild.SpreadDecoder` | src/deps/fse/fse_decompress.c:102-114 | The decoder's own walk gives the same spread |
| `FseBuild.FillDecoder` | src/deps/fse/fse_decompress.c:116-123 | Each cell gets the bits to read and the base of the next state of its rank among its symbol's cells |
| `FseBuild.BuildDTable` | src/deps/fse/fse_decompress.c:71-126 | The decoder builds a table for the spread of the counts and never fails on valid counts |
| `FseBuild.StepInverse` | src/deps/fse/fse.h:514-521 | Encoding a symbol from any state leads to a cell that names the symbol, reads as many bits as were written, and leads back to the state |
| `FseBuild.InitNeedsBit` | src/deps/fse/fse.h:503-512 | The state chosen for the last symbol names it, and decoding it asks for at least one bit more |
| `FseBuild.InitIsFirst` | src/deps/fse/fse.h:500-512 | It is the smallest state of its symbol |
| `FseBuild.CellBounds` | src/deps/fse/fse_decompress.c:116-123 | Every next state stays inside the table, and in fast mode every cell reads at least one bit |
| `FseBuild.FindCell` | src/deps/fse/fse_compress.c:124-128 | For every sub-state of a symbol the state table names the one cell that has it |
| `FseCodec.EncodedOk` | src/deps/fse/fse_compress.c:554-611 | Along the whole run both states name their symbols and a symbol costs at most tableLog bits |
| `FseCodec.DecodeUndoes` | src/deps/fse/fse.h:600-620 | Decoding a symbol from its state pops exactly what coding it pushed and restores the state before |
| `FseCodec.LastNeedsBit` | src/deps/fse/fse_decompress.c:220-235 | After the last coded bit the state of the next symbol still asks for one, which makes the register overrun at the right symbol |
| `FseCodec.EncodeSymbol` | src/deps/fse/fse.h:514-521 | Pushes the state's low bits and moves to the next state of the specification |
| `FseCodec.CompressGeneric` | src/deps/fse/fse_compress.c:554-611 | Passes the end of the buffer exactly if the unwatched mode is on and the coded bits need it; otherwise returns 0 exactly for fewer than three symbols, a tiny destination or a stream that does not fit, and else the stream of the source |
| `FseCodec.CompressUsingCTable` | src/deps/fse/fse_compress.c:613-623 | The same for any size of the destination, which selects the mode |
| `FseCodec.FittingStays` | src/deps/fse/fse_compress.c:613-623 | A destination with room for tableLog bits a symbol is never left |
| `FseCodec.SingleCellText` | src/deps/fse/fse_compress.c:554-623 | A text of symbols with one cell each leaves the destination exactly if this is as large as the bound and has not that room |
| `FseCodec.RareByteOverruns` | src/compress/compress.cc:342-366 | A record of 700000 equal bytes with one cell of 4096, coded into the buffer of one mebibyte, is written past its end |
| `FseCodec.DecodeSymbol` | src/deps/fse/fse.h:600-622 | Names the cell's symbol and moves by the bits on top of what remains; ordinary and fast reads alike |
| `FseCodec.DecodeFours` | src/deps/fse/fse_decompress.c:200-218 | The unrolled loop writes a prefix of the source and stays on the track of the encoder |
| `FseCodec.DecodeTail` | src/deps/fse/fse_decompress.c:220-237 | The tail stops by overrun at the right symbol and takes the last one from the other state |
| `FseCodec.DecompressGeneric` | src/deps/fse/fse_decompress.c:178-238 | The stream of a source is decoded to exactly the source, or refused if the destination is too small |
| `FseCodec.DecompressUsingDTable` | src/deps/fse/fse_decompress.c:241-252 | The same in the mode that the table allows |
| `FseCodec.NarrowTablesFit` | src/deps/fse/fse_compress.c:613-623 | With tables of at most eight bits the unwatched mode is chosen only when the coded bits fit |
| `FseCodec.RoundTrip` | src/deps/fse/fse_compress.c:613-623 | With the tables each side builds for itself, whatever compresses to a nonzero size decompresses to the source; leaving the buffer takes more than eight bits a symbol and too little room for them; with room the size is not zero |
| `Statistics.Histogram` | src/deps/fse/hist.c:29-59 | Exact counts of all bytes, the largest byte that occurs, the largest count |
| `Statistics.HistogramTotal` | src/deps/fse/hist.c:29-59 | The counts add up to the size of the source |
| `FseBlock.OptimalIsSafe` | src/deps/fse/fse_compress.c:325-342 | The chosen table size is supported and not below the minimum for the source |
| `FseBlock.MinimumMeans` | src/deps/fse/fse_compress.c:316-323 | The minimal table size is the first with more cells than the source has symbols, or than twice the largest symbol |
| `FseBlock.OptimalIsLargest` | src/deps/fse/fse_compress.c:325-342 | The chosen size is the largest one wanted that has no more cells than a quarter of the source, unless that is below what is needed or supported |
| `FseBlock.CompressBlock` | src/deps/fse/fse_compress.c:632-677 | For every source and destination: 1 exactly for a repeated byte, 0 exactly when it is not worth it or the stream does not fit or is not shorter, refused or left exactly as stated of header and stream; a size above 1 is less than the source's and belongs to a block: the header of the counts normalized to the chosen table size, and the stream of the source coded with their table |
| `FseBlock.RoomForBlock` | src/deps/fse/fse_compress.c:632-677 | One and a half bytes for each symbol and four hundred for the header are enough for any table |
| `FseBlock.NarrowBlock` | src/deps/fse/fse_compress.c:632-677 | With tables of at most eight bits the bound for headers and two bytes are enough |
| `FseBlock.DecompressBlock` | src/deps/fse/fse_decompress.c:255-274 | A block is decompressed to its source, or refused if the destination is too small |
| `FseBlock.RoundTripBlock` | src/deps/fse/fse_compress.c:632-677 | Whatever is compressed to a block, into a buffer of any size, is decompressed to exactly the source, from statistics and header to the last symbol; with room the buffer is not left |
| `FseNormalize.EnoughCells` | src/deps/fse/fse_compress.c:316-323 | The minimal table size leaves more cells than symbols, and the low shares together less than the total |
| `FseNormalize.SomeHigh` | src/deps/fse/fse_compress.c:316-323 | Some symbol lies above the low threshold, so neither the largest symbol nor the round robin can be missing |
| `FseNormalize.ShareIsFair` | src/deps/fse/fse_compress.c:455-470 | A share is proportional to the count up to one cell and the rounding of the fixed-point step |
| `FseNormalize.ShareRounds` | src/deps/fse/fse_compress.c:449-465 | From which part of a cell on a share is rounded up: a threshold for each number of cells below eight, never from there on |
| `FseNormalize.Spread` | src/deps/fse/fse_compress.c:455-470 | Every symbol gets its share, the largest share is found, and a lone symbol is recognised exactly |
| `FseNormalize.Topped` | src/deps/fse/fse_compress.c:471-476 | If the largest symbol keeps more than half its cells it can take the difference, which makes the sum exact |
| `FseNormalize.Telescopes` | src/deps/fse/fse_compress.c:415-429 | The rounded running totals of the fixed-point scaling add up to exactly the cells to distribute |
| `FseNormalize.GiveScaled` | src/deps/fse/fse_compress.c:415-431 | Scaling what is left gives every waiting symbol its scaled count rounded down or up, at least one cell, and the exact sum; it cannot fail when each is due a cell |
| `FseNormalize.RaisedDue` | src/deps/fse/fse_compress.c:382-396 | After the limit for single cells has been raised every waiting symbol is due a cell |
| `FseNormalize.RoundRobin` | src/deps/fse/fse_compress.c:408-413 | Handing out single cells in turn ends with the exact sum, and shares that differ by one at most |
| `FseNormalize.GiveToLargest` | src/deps/fse/fse_compress.c:397-406 | All symbols being low, the first of the most frequent takes the rest |
| `FseNormalize.RoundedShare` | src/deps/fse/fse_compress.c:413-429 | A scaled count is in proportion to the count, up to one cell and half a cell for the rounding of the scale |
| `FseNormalize.NormalizeM2` | src/deps/fse/fse_compress.c:348-432 | It never fails: exact counts in which present symbols up to the low threshold have -1 and those up to the limit in force 1; the others share the cells left in proportion to their counts, and if there are none the first of the most frequent takes all, or those above the threshold take them evenly |
| `FseNormalize.NormalizeCount` | src/deps/fse/fse_compress.c:435-494 | Fails exactly for an unsupported table size; run-length exactly for a lone symbol; otherwise counts both table builders accept: exact sum, cells for just the present symbols, each its share but for the first symbol with the largest one, unless that would lose half its cells or more, and then what the secondary method gives |
| `FseNormalize.NormalizedIsValid` | src/deps/fse/fse_compress.c:435-494 | With two symbols present none owns the whole table |
| `NCountFormat.CountInverse` | src/deps/fse/entropy_common.c:108-120 | The variable-width code of a count is read back, given the same number of remaining cells |
| `NCountFormat.NextCount` | src/deps/fse/fse_compress.c:219-262 | While cells remain there is a next symbol with a count that fits the remaining cells |
| `NCountWriter.Writer.WriteZeroRun` | src/deps/fse/fse_compress.c:220-249 | A run of absent symbols is written as its code of 24s, 3s and a rest, with the register spilled in time |
| `NCountWriter.Writer.WriteCount` | src/deps/fse/fse_compress.c:250-271 | The code of a count is appended |
| `NCountWriter.Writer.Finish` | src/deps/fse/fse_compress.c:277-284 | The last bytes are stored and exactly as many counted as the header's bits need |
| `NCountWriter.WriteNCount` | src/deps/fse/fse_compress.c:192-297 | Exactly the header of the counts, in the smallest number of bytes, if and only if the buffer has the bytes stored to; otherwise refused below the bound and left from the bound on |
| `NCountBound.HeaderLength` | src/deps/fse/fse_compress.c:192-285 | A header has at most tableLog bits for each symbol and once more, and eleven |
| `NCountBound.BoundAndTwo` | src/deps/fse/fse_compress.c:186-190 | Two bytes more than the bound of the code are always enough |
| `NCountBound.BoundWithoutAbsent` | src/deps/fse/fse_compress.c:186-190 | Without absent symbols the bound itself is |
| `NCountBound.BoundMissed` | src/deps/fse/fse_compress.c:186-190 | Eleven symbols, every other one absent: the bound is nine bytes and the writer stores to ten |
| `NCountRuns.TestFor24` | src/deps/fse/entropy_common.c:82-90 | The 16-bit test recognises 24 absent symbols in both directions |
| `NCountRuns.ShortStage` | src/deps/fse/entropy_common.c:80-137 | What is read of a run and a count from a register that lacks the last byte: the count exactly if no bit of it lies in that byte |
| `NCountReader.Reader.ReadLongRuns` | src/deps/fse/entropy_common.c:81-90 | Counts the codes of 24 and keeps the register inside the buffer; ends on every input |
| `NCountReader.Reader.ReadShortRuns` | src/deps/fse/entropy_common.c:91-97 | Adds the codes of three and the rest of the run; the register cannot run dry |
| `NCountReader.Reader.TakeCount` | src/deps/fse/entropy_common.c:108-120 | Reads any count within the remaining cells, and the right one of a header |
| `NCountReader.Reader.Reposition` | src/deps/fse/entropy_common.c:129-136 | Moves the register without losing the place, also at the end of the buffer |
| `NCountReader.ReadNCount` | src/deps/fse/entropy_common.c:41-144 | Whatever the bytes are, accepted counts fill a table exactly and nothing outside the buffer is read; a table size out of range is refused exactly; the header of counts is read back as the counts, consuming just its bytes, if and only if no run of absent symbols leaves the register short of bits of the next count |
| `NCountRoundTrip.RoundTrip` | src/deps/fse/fse_compress.c:288-297 | Writing counts and reading them back: always when a byte follows or no symbol is absent, and from a buffer of exactly the header's size if and only if no run is stale in front of bits in the last byte |
| `NCountRoundTrip.ByteFollows` | src/deps/fse/entropy_common.c:80-137 | With a byte behind it no header is misread |
| `NCountRoundTrip.NoRunNotMisread` | src/deps/fse/entropy_common.c:80-107 | Nor is one without absent symbols |
| `NCountRoundTrip.WideGapLost` | src/deps/fse/entropy_common.c:80-107 | Without a byte after it a six-byte header of 33 counts is written but not recovered |
| `HuffmanSort.Insert` | src/deps/fse/huf_compress.c:318-328 | Inserts a symbol into its bucket in descending order, behind equally frequent ones, moving just the entries behind it |
| `HuffmanSort.CountRanks` | src/deps/fse/huf_compress.c:311-316 | Where each bucket starts |
| `HuffmanSort.Sort` | src/deps/fse/huf_compress.c:307-329 | All symbols, each once, by falling frequency, equally frequent ones by number |
| `HuffmanTree.Take` | src/deps/fse/huf_compress.c:367-373 | The smaller head of the two queues is a root lighter than no other, a leaf only if it is lighter than all nodes; the barriers keep both queues from running dry |
| `HuffmanTree.GrowStep` | src/deps/fse/huf_compress.c:370-377 | A node made of the two lightest roots keeps the queues sorted and nothing joined heavier than a root |
| `HuffmanTree.BuildTree` | src/deps/fse/huf_compress.c:360-377 | A tree in which every node joins the two lightest roots of its time and weighs what they weigh together, nodes before equally heavy leaves |
| `HuffmanTree.Distribute` | src/deps/fse/huf_compress.c:379-384 | Every node gets its depth |
| `HuffmanShape.LeavesSorted` | src/deps/fse/huf_compress.c:379-384 | Less frequent symbols do not get shorter codes |
| `HuffmanShape.TreeFillsSpace` | src/deps/fse/huf_compress.c:379-384 | Kraft equality: with the longest code as unit the codes fill the code space exactly |
| `HuffmanOptimal.Bound` | src/deps/fse/huf_compress.c:370-377 | Whatever lengths the roots of the forest get, within Kraft's inequality they cost at least the weight of the nodes still to be made |
| `HuffmanOptimal.HuffmanIsOptimal` | src/deps/fse/huf_compress.c:360-384 | No code lengths that satisfy Kraft's inequality cost less than the depths in a greedily grown tree |
| `HuffmanTree.CodeLengths` | src/deps/fse/huf_compress.c:360-384 | Unlimited lengths: sorted, filling the code space, and cheapest among all prefix codes |
| `HuffmanDepth.DeepIsHeavy` | src/deps/fse/huf_compress.c:360-384 | In a tree of the two-queue construction a leaf at depth d makes the root weigh at least the Fibonacci number of d + 2 |
| `HuffmanDepth.FibonacciLengths` | src/deps/fse/huf_compress.c:360-384 | For Fibonacci frequencies the tree is a chain: lengths 1, 2 and so on |
| `HuffmanLimit.SomeRank` | src/deps/fse/huf_compress.c:249-263 | As long as code space is owed there is a code that can be lengthened |
| `HuffmanLimit.EnoughToGiveBack` | src/deps/fse/huf_compress.c:276-288 | What one step repays too much is covered by longest codes, so the second loop always finds one |
| `HuffmanLimit.CutToLimit` | src/deps/fse/huf_compress.c:221-233 | Cutting too long codes overdraws the code space by a whole number of units below the number of longest codes; the 32-bit sum sees all of it exactly if the cost is below 2^31 |
| `HuffmanLimit.ChooseRank` | src/deps/fse/huf_compress.c:249-263 | The rank that is lengthened is the one where the descent ends: every rank passed is empty or its last symbol occurs more than twice as often as the one a rank below, the rank it ends at is neither, and if it is empty the next one above is taken; it repays no more than is owed, unless all lower ranks are empty |
| `HuffmanLimit.Repay` | src/deps/fse/huf_compress.c:249-274 | The first loop is a run of such rounds and ends with nothing owed, and what was overpaid can be given back |
| `HuffmanLimit.GiveBack` | src/deps/fse/huf_compress.c:276-288 | The second loop shortens the first of the longest codes, as many as were overpaid, and ends with the code space filled |
| `HuffmanLimit.SetMaxHeight` | src/deps/fse/huf_compress.c:215-291 | Lengths within the limit stay as they are; others are cut and come by such rounds to sorted lengths up to the limit, which fill the code space again if and only if the cost of the cut is below 2^31 |
| `HuffmanRounds.RepaidIsUnique` | src/deps/fse/huf_compress.c:240-288 | The rounds leave no choice: the cut lengths, the debt and the frequencies determine the lengths that come out |
| `HuffmanLimit.LimitedLengths` | src/deps/fse/huf_compress.c:360-387 | Lengths up to the limit, those of the tree limited in this way, that fill the code space if and only if the cut's cost is below 2^31, in particular below a total of the Fibonacci number of the limit plus 26; unless the limit is reached no prefix code is cheaper |
| `HuffmanLimit.ShallowFits` | src/deps/fse/huf_compress.c:215-233 | A total below that Fibonacci number makes no tree deep enough for the sum to wrap around |
| `HuffmanLimit.BlockIsLight` | src/deps/fse/huf_compress.c:658 | Texts of up to 128 KiB are below it for every limit |
| `HuffmanLimit.FibonacciFits` | src/deps/fse/huf_compress.c:215-233 | For Fibonacci frequencies, k bits too deep, the sum is right if and only if k times 2^k is below 2^31 |
| `HuffmanLimit.FibonacciOverdraws` | src/deps/fse/huf_compress.c:215-291 | The lengths made for the first 41 Fibonacci numbers and the limit 12 overfill the code space |
| `HuffmanBook.SymbolWeights` | src/deps/fse/huf_compress.c:403-404 | The lengths reach the symbols as weights that fill the table, with at least two longest codes |
| `HuffmanBuild.PermutedSum` | src/deps/fse/huf_compress.c:307-329 | Sums over symbols do not depend on the order of the ranks |
| `HuffmanBuild.BuildCTable` | src/deps/fse/huf_compress.c:338-404 | Exactly the symbols that occur get codes, those of the tree's lengths limited as stated; the codes fill a space within the limit if and only if the cost of the cut is below 2^31; unless the limit was reached no prefix code makes the text shorter |
| `HuffmanUnique.LengthsAreUnique` | src/deps/fse/huf_compress.c:345-383 | The frequencies determine the depths of the tree |
| `HuffmanUnique.BookIsUnique` | src/deps/fse/huf_compress.c:338-404 | Counts and limit determine all weights and the size of the code space |
| `HuffmanReaders.LastWeight` | src/deps/fse/entropy_common.c:195-207 | What is missing to the next power of two is the implied last weight, and completes the table |
| `HuffmanReaders.ReadStats` | src/deps/fse/entropy_common.c:185-214 | Accepts exactly the weights that can be completed by one more symbol to a full table with two longest codes, and finds that symbol's weight and the table size |
| `HuffmanTable.SlotsDisjoint` | src/deps/fse/huf_decompress.c:151-183 | No table index belongs to two symbols |
| `HuffmanTable.SlotsCover` | src/deps/fse/huf_decompress.c:151-183 | Every table index belongs to some symbol |
| `HuffmanTable.FirstCodeIsStart` | src/deps/fse/huf_compress.c:184-191 | Halving from rank to rank loses no code space: first codes are first slots |
| `HuffmanTable.CodesAgree` | src/deps/fse/huf_compress.c:172-194 | A table index belongs to a symbol exactly if its leading bits are the symbol's code |
| `HuffmanReaders.FillTable` | src/deps/fse/huf_decompress.c:151-183 | Every slot of every symbol holds the symbol and its number of bits |
| `HuffmanReaders.ReadCodes` | src/deps/fse/huf_compress.c:172-194 | Every symbol gets the canonical code of its weight |
| `HuffmanReaders.TablesAgree` | src/deps/fse/huf_decompress.c:195-201 | Looking up any index that begins with a symbol's code gives the symbol and its number of bits, and every index is such |
| `HuffmanCodec.Compress1X` | src/deps/fse/huf_compress.c:458-504 | Returns 0 exactly if the text's codes do not fit; otherwise they are the stream, the first symbol on top |
| `HuffmanCodec.DecodeSymbol` | src/deps/fse/huf_decompress.c:195-201 | Takes the next symbol of the text although the look may reach beyond its end |
| `HuffmanCodec.DecodeStream` | src/deps/fse/huf_decompress.c:214-237 | All symbols of the text, four at a time and then one by one |
| `HuffmanCodec.Decompress1X1` | src/deps/fse/huf_decompress.c:239-260 | The stream of a text gives the text back and ends exactly with it |
| `HuffmanCodec.RoundTrip` | src/deps/fse/huf_compress.c:458-504 | What is compressed with the codes read from the weights is decompressed with the table read from the same weights; with two bytes a symbol and sixteen it is compressed |
| `HuffmanText.BookOf` | src/deps/fse/huf_compress.c:338-404 | From a text's counts to weights that fill a table and code every byte of the text, for any limit up to twelve bits, whenever the sum does not wrap around |
| `HuffmanText.SentUnlessOneBit` | src/deps/fse/entropy_common.c:188-210 | The reader refuses a description exactly for such a code |
| `HuffmanText.ShortTextNotRefused` | src/deps/fse/entropy_common.c:188-190 | A limit below twelve or a text of less than 377 bytes excludes it |
| `HuffmanText.RoundTripText` | src/deps/fse/huf_compress.c:458-504 | From a text to the same text: counts, tree, limit, weights, codes, stream, table; the description is refused if and only if the space has twelve bits and a symbol in front of the last one has a one-bit code |
| `HuffmanRefusal.RefusedText` | src/deps/fse/entropy_common.c:188-190 | A text of 609 bytes over 13 symbols that occur as often as the Fibonacci numbers say is refused with the limit twelve |
| `FsstTable.LongestIsUnique` | src/deps/fsst/libfsst.hpp:293-304 | Among distinct symbols the longest one that begins a text is unique |
| `FsstTable.IclOrder` | src/deps/fsst/libfsst.hpp:114-118 | One comparison of the packed code and length orders entries by length, free ones last |
| `FsstTable.IgnoredBits` | src/deps/fsst/libfsst.hpp:114-118 | The low byte is the number of bits that do not count |
| `FsstTable.SymbolTable.constructor` | src/deps/fsst/libfsst.hpp:225-247 | The empty table is valid |
| `FsstTable.SymbolTable.HashInsert` | src/deps/fsst/libfsst.hpp:267-274 | Takes the bucket exactly if it is free |
| `FsstTable.SymbolTable.Add` | src/deps/fsst/libfsst.hpp:275-291 | Appends the symbol to the table and all lookup structures, or refuses it exactly if it has three or more bytes and its bucket is taken |
| `FsstBuckets.BucketBits` | src/deps/fsst/libfsst.hpp:129-136 | Each of the ten bits of a bucket is the parity of two bits, 15 places apart, of the first three bytes times 2971215073 |
| `FsstBuckets.BothAreTaken` | src/deps/fsst/libfsst.hpp:267-298 | A table takes both of two long symbols that begin with the same byte |
| `FsstTable.SymbolTable.FindLongestSymbol` | src/deps/fsst/libfsst.hpp:293-304 | The three lookups find the longest symbol that begins the text, or the byte itself |
| `FsstTable.SymbolTable.Clear` | src/deps/fsst/libfsst.hpp:249-266 | Erasing the used positions brings every structure back to its first state |
| `FsstTable.LookupLong` | src/deps/fsst/libfsst.hpp:294-298 | The hash slot answers for all symbols of three and more bytes |
| `FsstTable.LookupShort` | src/deps/fsst/libfsst.hpp:299-302 | The two-byte codes answer for the rest of at least two bytes |
| `FsstFinal.NumberingStep` | src/deps/fsst/libfsst.hpp:359-376 | Each new code is unused and lies in the group of its length |
| `FsstFinal.NumberCodes` | src/deps/fsst/libfsst.hpp:344-376 | The new codes are a bijection, grouped by lengths 2 to 8 and then 1, exactly the two-byte symbols without a longer extension below suffixLim, each group in the order of the symbols but for the other two-byte symbols, which come in reverse |
| `FsstFinal.RenumberShort` | src/deps/fsst/libfsst.hpp:384-390 | A short code keeps its meaning under the new numbers |
| `FsstFinal.Finalize` | src/deps/fsst/libfsst.hpp:344-396 | All lookup structures speak of the same symbols under the new codes |
| `FsstCodec.DecodeEncodeLine` | src/deps/fsst/fsst.h:228-238 | Whatever the chunks, decoding the greedy encoding gives the text, and no encoding ends inside an escape |
| `FsstCodec.WindowSame` | src/deps/fsst/libfsst.cpp:388-404 | Loading eight bytes instead of the rest of the chunk makes no difference: no match runs past the terminator |
| `FsstCodec.TableDecides` | src/deps/fsst/libfsst.cpp:388-418 | Each of the three tests of the inner loop, when it succeeds, names the longest symbol and its length |
| `FsstCodec.CompressStep` | src/deps/fsst/libfsst.cpp:388-418 | Whichever variant runs, one round emits the longest symbol or an escaped byte |
| `FsstCodec.CompressVariant` | src/deps/fsst/libfsst.cpp:388-420 | All three variants append the greedy encoding of the chunk |
| `FsstCodec.CompressLine` | src/deps/fsst/libfsst.cpp:424-449 | A line is appended chunk by chunk; it is refused exactly if some chunk finds less than twice its size and seven bytes behind what has been written before it |
| `FsstCodec.CompressBulk` | src/deps/fsst/libfsst.cpp:379-452 | The lines that are counted are encoded one behind the other, each where it is said to be; the next one is the first that is refused; 7 bytes more than twice the input suffice for all |
| `FsstDecoder.MaskFindsEscape` | src/deps/fsst/fsst.h:178-181 | The word trick marks exactly the escapes of a block, and the lowest mark is the first escape |
| `FsstDecoder.Block` | src/deps/fsst/fsst.h:177-198 | A block of four codes is decoded like byte by byte, up to and with its first escape |
| `FsstDecoder.Tail` | src/deps/fsst/fsst.h:199-216 | The tail without a loop decodes the last codes, or takes an escape for a symbol exactly where told |
| `FsstDecoder.ByteLoop` | src/deps/fsst/fsst.h:228-238 | Writes what fits and counts everything |
| `FsstDecoder.Decompress` | src/deps/fsst/fsst.h:163-241 | The block decoder equals the byte-wise one, also for output that is cut off; exactly when the tail runs too far |
| `FsstDecoder.RoomSuffices` | src/deps/fsst/fsst.h:199-216 | With 32 bytes more than the output the tail never runs too far |
| `FsstDecoder.RoomNeeded` | src/deps/fsst/fsst.h:199-216 | With a buffer six times as large as the output it can |
| `FsstHeader.Export` | src/deps/fsst/libfsst.cpp:518-553 | Version, histogram and the symbols in code order |
| `FsstHeader.Import` | src/deps/fsst/libfsst.cpp:557-593 | Another version is refused and changes nothing; a table's header gives each code its bytes and length, and unused codes a filler |
| `FsstHeader.RoundTrip` | src/deps/fsst/libfsst.cpp:557-593 | A compressed line, decompressed with the imported decoder into a buffer with 32 spare bytes, is the line |
| `Patterns.AddEscapeChar` | src/train/pbc_train.cc:488-501 | The stored form of a record is the rendering of the pattern of its bytes |
| `Patterns.RawMatches` | src/train/pbc_train.cc:488-501 | That pattern matches the record and nothing else |
| `PatternMerge.SameMeans` | src/train/pbc_train.cc:191 | Comparing last characters finds exactly equal literals, and an escaped star of the first pattern with a wildcard of the second |
| `PatternMerge.NoClashes` | src/train/pbc_train.cc:191 | Without an escaped star on one side or a wildcard on the other no path keeps a star for a wildcard |
| `PatternMerge.MergeGeneralises` | src/train/pbc_train.cc:415-486 | The merged pattern matches every string that one of the two patterns matches, if its path keeps no escaped star for a wildcard |
| `PatternMerge.MergeNoAdjacentWilds` | src/train/pbc_train.cc:435-485 | It has no two adjacent wildcards |
| `PatternMerge.EntryIsCost` | src/train/pbc_train.cc:121-259 | Every table value, for any two patterns: the cost of its merged pattern, once the number of records for each escaped token on the border that the path goes on from other than diagonally, and two for each record of the second cluster whenever a wildcard of its pattern is taken for an escaped star |
| `PatternChoice.EntryIsLeast` | src/train/pbc_train.cc:190-253 | Every table value is the smallest of the ways from its three neighbours; equal tokens are kept only if both other ways cost more, and of those the way past the second pattern is taken unless the other costs less |
| `PatternChoice.EqualRunIsFree` | src/train/pbc_train.cc:190-231 | A run of equal literals adds nothing to the value |
| `PatternChoice.MergeFromShorter` | src/train/pbc_train.cc:415-486 | Value and string of a merge, from those of the two patterns without their last tokens |
| `PatternMerge.NoSurcharges` | src/train/pbc_train.cc:121-174 | Without escaped characters there is no surcharge |
| `PatternMerge.OneGramBound` | src/train/pbc_train.cc:503-516 | A merge costs at least the characters that are not common and the wildcards of its result, less what the wildcards there were are paid back |
| `PatternMerge.EscapeOvercharges` | src/train/pbc_train.cc:142-174 | Two records with escapes for which the value is 8 although the merge costs 6 |
| `PatternMerge.GivingUpLosesMerges` | src/train/pbc_train.cc:254-257 | Two records for which a whole row reaches the threshold although the final value is below it |
| `PatternTrace.MergeStringIsMerged` | src/train/pbc_train.cc:435-485 | The string traced back over stored characters is the rendering of the merged pattern |
| `PatternTrace.MergeTheorem` | src/train/pbc_train.cc:415-486 | The string is well escaped, has no adjacent wildcards and matches whatever one of the two patterns matches, if the path keeps no escaped star for a wildcard |
| `PatternClash.MergeIsStored` | src/train/pbc_train.cc:435-485 | For any two patterns the string is the stored form of some pattern, however many stars the path keeps for wildcards |
| `PatternClash.MergedWithoutClash` | src/train/pbc_train.cc:435-485 | The pattern of the alignment, if it keeps none |
| `PatternClash.MergeKeepsExactly` | src/train/pbc_train.cc:415-486 | With or without them: the pattern matches whatever one of the two matches if and only if it matches two strings, those in which a byte that it does not hold stands for each wildcard |
| `PatternClash.ClashKeepsStrings` | src/train/pbc_train.cc:191 | A path that keeps a star for a wildcard, and loses no string |
| `PatternClash.ClashLosesStrings` | src/train/pbc_train.cc:191 | A path that keeps one star for a wildcard, and a string that the merged pattern loses |
| `PatternTables.Tables.FillEntry` | src/train/pbc_train.cc:190-253 | One entry follows from its three neighbours: it costs no more than the way from any of them that is open, and what one of them costs; no other entry changes |
| `PatternTables.Tables.FillBorders` | src/train/pbc_train.cc:140-174 | First row and column |
| `PatternTables.Tables.FillRow` | src/train/pbc_train.cc:183-255 | A row of token pairs, whatever escapes lie between, and the smallest value so far |
| `PatternTables.Tables.ConstructTables` | src/train/pbc_train.cc:135-259 | INT_MAX exactly if no entry of the first row but its first is below the threshold, and otherwise the last entry; later rows are never given up |
| `PatternTables.Tables.TracePath` | src/train/pbc_train.cc:443-480 | The loop ends and prepends what the recorded sources say |
| `PatternTables.NoOverflow` | src/train/pbc_train.cc:121-133 | No value leaves twice the number of records times the number of tokens |
| `PatternTables.MergePattern` | src/train/pbc_train.cc:415-486 | For any two patterns the value and the string of the specification; the merged pattern's rendering without a clash |
| `GivingUp.BehindFirstRow` | src/train/pbc_train.cc:254-257 | Nothing behind a row that is given up lies below the threshold or the row's first entry, but for what wildcards pay back |
| `GivingUp.BelowThreshold` | src/train/pbc_train.cc:254-257 | Without wildcards and escapes only entries stay below the threshold at which the first tokens of the first pattern end in those of the second |
| `GivingUp.LostMerges` | src/train/pbc_train.cc:254-257 | So giving up loses a merge cheaper than the threshold if and only if the second pattern is the end of the first and one wildcard for what comes before costs less |
| `TrainerCost.CountGrams` | src/train/pbc_train.cc:911-929 | What the loop after a merge counts of the merged pattern's string |
| `TrainerCost.MergedIsCounted` | src/train/pbc_train.cc:911-929 | Without escapes these are the pattern's literals, and a star for a wildcard at the start |
| `TrainerCost.FilterBound` | src/train/pbc_train.cc:503-516 | The filter's bound exceeds the value of the alignment at most by what the clusters are paid back for their wildcards |
| `TrainerCost.FilterOfRecords` | src/train/pbc_train.cc:503-516 | For two records the filter counts the characters of each, as multisets, that have no counterpart in the other |
| `TrainerCost.GetMinEncodingLength` | src/train/pbc_train.cc:503-521 | Filter and alignment in place report what the specification of the cost says, for any threshold |
| `TrainerCost.ReportedIsExact` | src/train/pbc_train.cc:503-521 | Whatever is reported below a threshold is the value of the whole alignment |
| `TrainerCost.GivenUp` | src/train/pbc_train.cc:503-521 | A merge not reported below a value costs no less than this or one wildcard for its first token, but for what wildcards pay back |
| `TrainerCost.PlainGivenUp` | src/train/pbc_train.cc:503-521 | Without wildcards and escapes it costs no less, unless it is missed in the one way there is |
| `Varint.WriteVarint` | src/common/utils.cc:195-217 | Appends the bytes of the value, with the loop test of the code |
| `Varint.VarintRoundTrip` | src/common/utils.cc:195-242 | A value is read back, taking just its bytes, if and only if neither loop test meets 128 |
| `PatternParsing.ParseInvertsRender` | src/compress/compress.cc:205-295 | Exactly the stored forms of patterns are accepted, each for one pattern |
| `PatternParsing.ParsePattern` | src/compress/compress.cc:220-290 | A stored pattern is refused exactly if an escape is malformed; otherwise its segments are cut out, closed by a wildcard, and its expression is built; an empty one in front of a star is the only one whose expression has no last character |
| `PatternExpression.ReadsBack` | src/compress/compress.cc:229-277 | The expression for the matcher, read by the rules of Perl compatible regular expressions, is the closed pattern if and only if no zero byte stands in front of an octal digit |
| `PatternExpression.ZeroSevenMisread` | src/compress/compress.cc:262-270 | The zero byte and the digit 7 are read as the byte 7 |
| `PatternExpression.CaretOfPattern` | src/compress/compress.cc:229 | The caret stands exactly for patterns that begin with no wildcard |
| `PatternExpression.SelectsWhatMatches` | src/compress/compress.cc:205-285 | A record that such an expression selects is matched by the pattern, and a record without newlines that the pattern matches is selected |
| `PbcCompress.Compressor.ReadPattern` | src/compress/compress.cc:205-295 | Fails exactly if a stored pattern is malformed, or lost if an empty one in front of a star comes before that; otherwise every pattern's segments and expression are listed |
| `RecordFormat.MatchHasGaps` | src/compress/compress.cc:148-203 | A matched record is the pattern's segments with some gaps between them |
| `RecordFormat.GapsMatch` | src/compress/compress.cc:148-203 | And any gaps give a matched record |
| `RecordFormat.FindIsLeftmost` | src/compress/compress.cc:165-166 | The search finds the leftmost occurrence |
| `RecordFormat.SearchSucceeds` | src/compress/compress.cc:148-203 | In a matched record the leftmost search finds every segment, never behind where the match has it |
| `RecordFormat.MergedIsEncodable` | src/compress/compress.cc:148-203 | A pattern without adjacent wildcards can store all records it matches |
| `RecordCodec.PutGap` | src/compress/compress.cc:170-183 | Appends a gap as its length and its bytes |
| `RecordCodec.FillingSubsequences` | src/compress/compress.cc:148-203 | For any record: refused exactly if the leftmost search finds no place for a segment or an inner segment is empty; otherwise the gaps of that search are stored |
| `RecordCodec.CutRestores` | src/compress/compress.cc:148-203 | For a record along the pattern's segments the search succeeds exactly if no inner segment is empty, and its gaps give the record back |
| `RecordCodec.CutOfOthers` | src/compress/compress.cc:148-203 | Any other record is refused, unless it is only the first segment that stands too late: then there is one field too many |
| `PbcCompress.Compressor.CompressUsingPatternWithLength` | src/compress/compress.cc:479-515 | The pattern number and the gaps of the search, for any record; for one that the pattern matches gaps that restore it, refused exactly if the pattern has an empty inner segment |
| `PbcCompress.Compressor.DecompressUsingPatternWithLength` | src/compress/compress.cc:517-585 | Restores, refuses or copies past its input exactly as the specification of the decoder says, on any input |
| `RecordDecoding.RecordRoundTrip` | src/compress/compress.cc:517-585 | A record comes back from its stored form, whatever follows in the buffer, if its gaps have lengths that come back |
| `RecordDecoding.RawRecord` | src/compress/compress.cc:517-537 | Which records without a pattern are refused, and what the others are restored to |
| `RecordDecoding.PastInputRecord` | src/compress/compress.cc:539-577 | The decoder copies past its input if and only if it reaches a length whose end, in 32 bits, wraps around to a place within the input |
| `RecordDecoding.NoFifteenRecord` | src/compress/compress.cc:539-577 | Up to a quarter of a gibibyte an input without a byte 15 behind its first six is never copied past, whatever the record |
| `RecordDecoding.LengthWraps` | src/compress/compress.cc:539-552 | The length 2^32 - 1 in front of a pattern that begins with a wildcard is one |
| `RecordDecoding.CutIsRefused` | src/compress/compress.cc:517-585 | For a record without newlines every cut of the stored form at one of its newline bytes is refused if the bytes behind the cut are still there |
| `RecordDecoding.CutNeedsFollowingBytes` | src/compress/compress.cc:517-585 | Without those bytes a cut record is accepted as an empty one |
| `RecordCuts.CutWithOtherBytes` | src/compress/compress.cc:517-585 | With other bytes behind the cut something is restored if and only if they make the cut length one whose fifth byte is too large, or zero, one byte behind the cut, for a record that is a single gap |
| `RecordFrames.FramedRoundTrip` | src/compress/compress.cc:324-466 | With a lossless second coder a framed record comes back if and only if it is not a matched record whose second coding has one byte, nor an empty unmatched one |
| `RecordFrames.FrameIsShortest` | src/compress/compress.cc:324-372 | A frame is one byte longer than the shorter of the plain form and a nonempty result of the second coder; its type tells exactly whether it is that result, and whether a pattern fits |
| `RecordFrames.FrameRefused` | src/compress/compress.cc:375-448 | Exactly which frames are refused, if no pattern of the list has adjacent wildcards |
| `RecordFrames.FrameAgrees` | src/compress/compress.cc:399-464 | Whatever the decoder of unframed records restores is restored from a frame |
| `RecordFrames.NumberOutsideList` | src/compress/compress.cc:399-402 | A frame whose pattern number is outside the list is not refused but taken at its word |
| `Clusters.RootAfter` | src/train/pbc_train.cc:898 | Merging a cluster into another moves exactly its records |
| `Clusters.AfterMerge` | src/train/pbc_train.cc:898-933 | The sizes of the live clusters still count their members, one cluster less |
| `Clusters.MembersTotal` | src/train/pbc_train.cc:932-933 | No record is lost: the sizes of the live clusters add up to all records |
| `Agglomeration.Trainer.GetMinValue` | src/train/pbc_train.cc:548-591 | A cheapest live cluster behind the given one as far as costs are reported, the first of equal ones, or none |
| `Agglomeration.Trainer.ComputeTotalMinValueTable` | src/train/pbc_train.cc:593-623 | All entries are up to date before the first merge |
| `Agglomeration.Trainer.GetClosestCluster` | src/train/pbc_train.cc:625-636 | The first pair of smallest entry, than which no live pair has been reported cheaper and none that begins before it as cheap; none exactly if no live cluster has a neighbour |
| `Agglomeration.Trainer.UpdateMinValueTable` | src/train/pbc_train.cc:638-656 | Brings an entry up to date after a merge, and only that one; a new neighbour must be cheaper |
| `Agglomeration.Trainer.MergeStep` | src/train/pbc_train.cc:898-962 | After a merge the whole table is up to date again, sizes count members, and every record fits its cluster's pattern |
| `Agglomeration.StillUpToDate` | src/train/pbc_train.cc:638-656 | A merge leaves entries that name neither cluster in force, but for the new pattern |
| `Agglomeration.Trainer.Merge` | src/train/pbc_train.cc:886-971 | The loop is a chain of merges of closest pairs, each leaving one cluster less; it reaches the wanted number unless for no pair left a cost below the largest threshold is reported; no record is lost |
| `TrainerCost.ClosestIsCheapest` | src/train/pbc_train.cc:625-636 | With the trainer's cost the closest pair has the reported value, and no pair of plain patterns costs less unless it is missed |
| `TrainerCost.ClosestIsNotCheapest` | src/train/pbc_train.cc:625-636 | Three records of which the trainer merges two at a cost of 4 although another pair costs 3 |
| `TrainerCost.Affordable` | src/train/pbc_train.cc:503-521 | Within the range of an int every merge is reported below the largest threshold |
| `Training.MergePatternsIsStored` | src/train/pbc_train.cc:903-930 | MergePattern's string is the stored form of the cluster's new pattern: the one of the alignment unless a star is kept for a wildcard, which no star-free pattern does |
| `Training.MergedFits` | src/train/pbc_train.cc:903-930 | Merging patterns that match two records gives one that matches both, unless a star is kept for a wildcard |
| `Training.CleanRunFits` | src/train/pbc_train.cc:886-971 | Along a run of such merges every record matches its cluster's pattern in each state |
| `Training.StarFreeIsClean` | src/train/pbc_train.cc:191 | Where no record has a star every step of the run is one |
| `Training.Train` | src/train/pbc_train.cc:861-971 | For any records and any cost function: unless a merge keeps a star for a wildcard, which in star-free records none does, every record matches its cluster's pattern, which has no adjacent wildcards; the sizes add up to the number of records |
| `Training.GreedyIsCheapest` | src/train/pbc_train.cc:886-971 | A step of the loop merges a pair than which no pair of plain patterns costs less, unless it is missed |
| `Training.NotHopeless` | src/train/pbc_train.cc:886-900 | If all records at the size of the longest stay within an int, some pair can always be merged |
| `Training.TrainPattern` | src/train/pbc_train.cc:861-971 | With the trainer's own cost, unless a merge keeps a star for a wildcard, every step is such a step, and the loop runs out of pairs if and only if no cluster is wanted and there are records |
| `Training.TrainedRoundTrip` | src/train/pbc_train.cc:975-998 | Any record that a trained pattern matches is stored, and comes back if the lengths of its gaps do, as they do below 2^21 |
| `PatternBuffers.FitsExactly` | src/train/pbc_train.cc:911-930 | The string of a pattern and its zero fit three bytes for each character of a record it matches, unless it keeps all of them and has almost twice as many escapes and wildcards; two bytes more always suffice |
| `PatternBuffers.TwoPlainSuffice` | src/train/pbc_train.cc:488-501 | Two characters that are neither backslashes nor stars make room for all patterns of a record |
| `PatternBuffers.BuffersSuffice` | src/train/pbc_train.cc:903-930 | So in every state of the merge loop the string of such a cluster lies in its buffer |
| `PatternBuffers.BackslashDoesNotFit` | src/train/pbc_train.cc:903-930 | The record of one backslash, merged with that of a backslash and a b, is stored past the end of its buffer |
| `ThreadPool.NextInv` | src/train/thread_pool.cc:21-51 | Every step of the pool keeps the invariant: covered wake-ups, a stopped pool that still notifies, and every task queued, running or finished exactly once |
| `ThreadPool.NoLostWakeup` | src/train/thread_pool.h:36-56 | In every run, while a worker waits, queued tasks are covered by woken workers and notifications to come |
| `ThreadPool.PoolNeverStalls` | src/train/thread_pool.cc:21-51 | In every run, while work is left, some step other than a spurious wake-up is enabled |
| `ThreadPool.Drained` | src/train/thread_pool.cc:42-51 | When all workers are gone every task pushed has run exactly as often as it was pushed |
| `NestedPools.StepInv` | src/train/pbc_train.cc:548-574 | Every step of main thread, jobs and both pools keeps the invariant of the system |
| `NestedPools.NeverStalls` | src/train/pbc_train.cc:600-613 | Until the main thread has all results some step that needs no luck is enabled |
| `NestedPools.StepDecreases` | src/train/pbc_train.cc:548-613 | Every step but a spurious wake-up leaves less to do |
| `NestedPools.RunNeverStalls` | src/train/pbc_train.cc:548-613 | So from the start on no run gets stuck |
| `NestedPools.RunIsShort` | src/train/pbc_train.cc:548-613 | No run has more steps than the work at its start amounts to, and two more for each spurious wake-up |
| `NestedPools.WorkAtStart` | src/train/pbc_train.cc:548-613 | That work: one check by each worker, and seven steps for each job and each part of a job |
| `NestedPools.EachTaskOnce` | src/train/pbc_train.cc:548-613 | At the end every job and every part has run exactly once |

## Left out

Stated weaker than the code's promise, or under a condition:

- FlushBitsFast: once the pointer has passed the end the model stops; the stores behind the buffer are not followed.
- CompressBlock: sources below 2^31 bytes. The stream is coded into an array of its own and copied behind the header, where the code writes in place.
- DecompressBlock: takes blocks; for arbitrary bytes only its parts are covered, ReadNCount and DecompressGeneric.
- Histogram: the variant with four counters in stripes is not modelled.
- BuildCTable: for counts in which no symbol owns the whole table, for both builders of the finite state coder.
- BuildDTable: for counts in which no symbol owns the whole table.
- NormalizeCount: totals below 2^31.
- WriteNCount: for counts that fill the table; the error for others is not modelled.
- SetMaxHeight: lengths at the limit are not claimed to be cheapest, which they need not be. A tree more than 30 bits deeper than the limit is reported as an undefined shift and followed no further.
- BookOf: weights that do not fill a table are reported and followed no further.
- ReadStats: starts from decoded weights; their packed and compressed forms are not modelled.
- CompressStep: that no symbol has the terminator behind its first byte is the table's invariant here; the training that establishes it is not modelled.
- Decompress: reading past the symbols is reported by a flag instead of modelled as a memory access. When that happens is told by the states of the decoder; the conditions on the input alone are sufficient ones.
- Import: for another version and for headers that a table exports.
- MergePattern: requires that twice the records times the tokens stay below 2^31.
- EncodingLength: its sums and products are unbounded where the code has ints; TrainPattern states when they stay in range, and Train holds for any cost function.
- ClosestIsCheapest: for patterns with escapes the value is compared, not the cost of the merge.
- FillingSubsequences: records below 2^31 bytes, with five bytes of room for each length from 2^21 bytes on.
- RecordRoundTrip: one direction; when a length does not come back the record may still, if the bytes behind it happen to repeat it.
- DecompressUsingPatternWithLength: the buffer must reach six bytes beyond the input, for a length read past its end; inputs below 2^31 bytes.
- CompressUsingPatternWithLength: records below 2^31 bytes.
- FramedRoundTrip: the second coder is a pair of functions with a size of zero for failure. A pattern number outside the list and a copy from behind the working buffer are reported and followed no further.
- ReadPattern: the last character of an empty expression is reported and followed no further.
- ReadsBack: the rules by which an expression is read are those of Perl compatible regular expressions for the few forms that occur; the matcher's own parser is not part of this model.
- MergeKeepsExactly: says nothing of a merged pattern that holds all 256 bytes.
- Train: where a merge has kept a star for a wildcard only the clusters and the chain of merges are stated, not that the records still match; the patterns are those of MergeString.
- TrainPattern: likewise.
- Merge: where no cluster has a neighbour any more the model stops; the code goes on with the index -1.
- UpdateNeighbours: clusters are updated one after the other; the code may do it in parallel tasks.
- StepInv: a job's tasks submit, wait in order and end; what they compute, exceptions in them and the main thread's own use of the second pool are not modelled.

Not modelled at all:

- Choosing a pattern by Hyperscan, zstd and its dictionaries, serialization by cereal: libraries that are not part of this model.
- Files, command line, timing and logging.
- Vector code paths, the bmi2 variants, 32-bit registers.
- Huffman: the double-symbol and four-stream decoders, the choice between decoders, repeated tables, writing the table description.
- FSE: the variants for 16-bit symbols, raw and run-length tables.
- FSST: zero-terminated strings, sampling, gains and the candidate queue of its training, the choice among the three variants.
- Alignment with a threshold shared between tasks, and the race on it.
- The filter on trained patterns of one byte or one record, and the tables of second coders stored behind the patterns.
- Memory allocation, alignment, workspace sizes.
