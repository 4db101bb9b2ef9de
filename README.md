# Petasearch k-mer prefilter, modelled in Dafny

This project models the k-mer prefilter of Petasearch, together with the byte and bit helpers that the prefilter uses.

- **Target table builder** (`createkmertable`).
  - Sizes a table by counting the windows of every database sequence.
  - Walks every window and skips windows that contain the X residue.
  - Gives each remaining window the next slot and stores its mixed-radix value (`kmer2long`).
  - Sorts the table. It then writes one (k-mer, sequence id) pair per distinct k-mer, keeping the record of the longest sequence.
- **Matcher** (`compare2kmertables`).
  - Decodes an index stream of 16-bit k-mer deltas. The value 65534 is an escape.
  - Walks a parallel stream of 32-bit target ids.
  - Merge-joins the decoded index against a query table sorted by k-mer. Every matching query entry receives the target id.
  - Re-sorts the annotated table and drops (query, target) pairs with too few hits.
  - Re-sorts by target and writes one record per target.
- **Alignment text** (`convertsraalignments`).
  - Prints one row of a gapped alignment from a backtrace.
  - Tallies a run-length backtrace into alignment length, matches and gap openings.
  - Joins the output columns with tabs.
- **Database conversion** (`convert2sradb`).
  - Builds the header record.
  - Packs three residues into each 16-bit word. The last word carries the end flag.
- **Helpers.**
  - The end-flag macros of `BitManipulateMacros.h`.
  - `SRAUtil::strrev`.

## How it is modelled

Each module is written in the form its code has.

- **Code that updates state step by step is written as methods with loop invariants.**
  - Buffers are filled in place and stay `array`s:
    - the query table annotated by the matcher;
    - the filter's result table;
    - the target table filled by the extraction;
    - the packed sequence buffer;
    - the `strrev` destination.
  - Strings that are appended to are `seq<char>` values threaded through the method.
  - Each such method is proved against a specification function: `Decode`, `Annotated`, `KeptHits`, `ResultWrites`, `KmerSum`, `KmerCapacity`, `AllWindows`/`TargetRecords`, `ChosenFrom`, `AlnRow`, `TotalCount`/`MatchCount`/`GapOpens`, `Line`, `Packed`, `HeaderText` and `Reversed`.
  - Lemmas then prove what the source promises about those functions.
- **The comparators and the bit macros are pure functions.**
- **Writer calls return values.** Each output file becomes the sequence of records written to it (`Write(key, entries)` for the result table, two columns for the target tables).
- **The sort (`omptl::sort`) is stated, not run.** Wherever a property depends on sorted input, the lemma requires `SortedBy(table, comparator)`. The comparators themselves are proved to be strict weak orders.

These behaviours are modelled as written:

- **Writer and reader formats disagree.** `writeTargetTables` writes raw 8-byte k-mers and 4-byte ids (`createkmertable.cpp` lines 194-195 and 209-210). The matcher reads a stream of 16-bit deltas with escapes. Nothing in this repository writes that stream, so `DeltaStream.Encode` is a ghost specification of the format. Its only purpose is to state the round trip `DecodeEncode`.
- **Filter and output drop one record per run.**
  - `removeNotHittedSequences` counts the repetitions of a (query, target) pair. A run of L records counts L − 1. Only runs with L − 1 > 1, that is L ≥ 3, are kept, and only their first L − 1 records are copied (`HitFilter.KeptFrom`, `HitFilter.KeptHitsPerPair`).
  - `writeResultTable` writes block length − 1 records for every target block (`HitFilter.WritesFrom`, `HitFilter.ResultWritesShape`).
- **Zeroed slots are sorted and written.** The extraction leaves unclaimed slots holding the all-zero record. The sort and the writer still cover all `kmerCount` slots, so k-mer 0 is always written first when such a slot exists (`TargetWriter.ZeroSlotWritten`).
- **The source reads one element past the end.**
  - The cursor loops of the matcher read one element past the delta stream (`compare2kmertables.cpp` lines 71, 89 and 104), and the main loop at line 78 checks only the end of that stream.
  - On the query side, the comparisons at lines 79, 83, 97 and 101 can read the query entry at the end of the table once lines 83 or 97 have moved the query cursor there. The write at line 81 can then store a target id one past the query table.
  - The filter and the result writer read one record past the end (lines 206 and 192).
  - The model guards each of these reads with the end of its stream or table, and stops the matcher at the end of the query table.

## Model

| member | source | states |
|---|---|---|
| BitMacros.SetEndFlag | src/commons/BitManipulateMacros.h:8 | bit 15 of the result is set and every other bit equals the argument's |
| BitMacros.IsLast15Bits | src/commons/BitManipulateMacros.h:9 | nonzero exactly when bit 15 is set; the result is 0 or 0x8000 |
| BitMacros.Get15Bits | src/commons/BitManipulateMacros.h:10 | the result is below 0x8000 and keeps the low 15 bits of the argument |
| BitMacros.Decode15Bits | src/commons/BitManipulateMacros.h:11 | the bits above 15 are those of `diff`; when `diff` has no low bits, the payload equals that of `num` |
| BitMacros.SetEndFlagIsLast | src/commons/BitManipulateMacros.h:8-9 | IS_LAST_15_BITS is nonzero on every SET_END_FLAG result |
| BitMacros.Get15BitsIdempotent | src/commons/BitManipulateMacros.h:10 | GET_15_BITS is idempotent |
| BitMacros.Get15BitsIgnoresEndFlag | src/commons/BitManipulateMacros.h:8-10 | GET_15_BITS(SET_END_FLAG(x)) == GET_15_BITS(x), and a payload never carries the end flag |
| SraUtil.StrRev | src/commons/SRAUtil.h:15-25 | with distinct buffers, strRev[0..len) is str[0..len) reversed, strRev[len] is '\0', and nothing past len changes (for len 0 only the terminator is written) |
| SraUtil.ReversedAt | src/commons/SRAUtil.h:19-20 | position i of the reversal is str[len − 1 − i] |
| SraUtil.ReversedTwice | src/commons/SRAUtil.h:15-25 | reversing twice gives the string back |
| DeltaStream.DecodeRun | src/sra/compare2kmertables.cpp:71-109 | the decode of the cursor loops: at most one entry per stream value (its escape and entry semantics are stated by `DecodeStep`, `DecodeEscapes` and `DecodeIsPrefixSums`) |
| DeltaStream.DecodeRunAbove | src/sra/compare2kmertables.cpp:71-76 | decoded k-mers never go below the running base and never decrease |
| DeltaStream.DecodeFromPosition | src/sra/compare2kmertables.cpp:89-94 | decoding resumed at any position with the prefix sum as base completes the entries already read |
| DeltaStream.DecodeIsPrefixSums | src/sra/compare2kmertables.cpp:71-109 | each decoded entry's k-mer is the sum of every stream value up to its terminating value, and its id is the id at that position |
| DeltaStream.Encode | src/sra/compare2kmertables.cpp:12 | the encoded delta and id streams have equal length, and every stream value that is not the escape is below 65534 |
| DeltaStream.DecodeEscapes | src/sra/compare2kmertables.cpp:89-93 | n escapes add n · 65534 to the running k-mer and complete no entry |
| DeltaStream.DecodeEncode | src/sra/compare2kmertables.cpp:71-76 | decoding the encoding of non-decreasing entries gives them back |
| DeltaStream.OverflowExample | src/sra/compare2kmertables.cpp:12 | a gap of 2 · 65534 + 5 is written as two escapes and the value 5 |
| DeltaStream.SkipEscapes | src/sra/compare2kmertables.cpp:89-94 | the cursor passes only escapes and stops on a terminating value or at the end; the id cursor moves by the same amount; the k-mer gains the sum of the values passed; the decoding from the old cursor is this entry followed by the decoding after it |
| DeltaStream.DecodeStep | src/sra/compare2kmertables.cpp:104-109 | one stream position decoded: an escape adds 65534, any other value completes an entry with the id at that position |
| KmerMatch.Lookup | src/sra/compare2kmertables.cpp:79-81 | none exactly when no index entry holds the k-mer; a found id belongs to an index entry with that k-mer |
| KmerMatch.LookupSkipsAbsentPrefix | src/sra/compare2kmertables.cpp:97-99 | entries without the k-mer do not affect the lookup |
| KmerMatch.LookupFindsUnique | src/sra/compare2kmertables.cpp:79-86 | with strictly increasing index k-mers, the lookup of entry j's k-mer returns entry j's id |
| KmerMatch.Annotated | src/sra/compare2kmertables.cpp:81-85 | only the target id of a query entry can change, and an entry with no partner in the index is unchanged |
| KmerMatch.MatchIsIndexEntry | src/sra/compare2kmertables.cpp:79-86 | a query entry whose k-mer equals that of index entry j gets exactly entry j's id |
| KmerMatch.IndexAdvance | src/sra/compare2kmertables.cpp:87-94 | moving the index cursor past its entry keeps the cursor state |
| KmerMatch.IndexRestAbove | src/sra/compare2kmertables.cpp:97-110 | a k-mer below the cursor's is not in the index, and the cursor's own k-mer maps to the id under the cursor |
| KmerMatch.SkipOneQuery | src/sra/compare2kmertables.cpp:97-99 | passing a query entry below the index cursor keeps the scan state |
| KmerMatch.ScanFinished | src/sra/compare2kmertables.cpp:78 | once either cursor is at its end, every query entry is final |
| KmerMatch.MatchEqualRun | src/sra/compare2kmertables.cpp:79-95 | the entry under the query cursor and the tied run after it take the id under the index cursor; both cursors advance |
| KmerMatch.SkipQueriesBelow | src/sra/compare2kmertables.cpp:97-99 | query entries below the index k-mer are passed over unchanged |
| KmerMatch.SkipIndexBelow | src/sra/compare2kmertables.cpp:101-110 | the delta and id cursors advance together until the index k-mer reaches the query's |
| KmerMatch.Compare2KmerTables | src/sra/compare2kmertables.cpp:56-111 | on a query table sorted by k-mer, every entry ends as `Annotated(old entry, Decode(deltas, ids))`: matching entries, including tied runs, get the id of their index entry; the others keep their target id |
| HitFilter.ResultLess | src/sra/compare2kmertables.cpp:220-238 | resultTableSort is lexicographic "less" on (query id, target id, position, k-mer) |
| HitFilter.TruncatedLess | src/sra/compare2kmertables.cpp:240-258 | truncatedResultTableSort is lexicographic "less" on (target id, query id, position, k-mer) |
| HitFilter.ComparatorsAreStrictWeakOrders | src/sra/compare2kmertables.cpp:220-258 | both comparators are strict weak orders and return false only on equal records |
| HitFilter.RunEnd | src/sra/compare2kmertables.cpp:206-210 | the run end lies after its start and within the table |
| HitFilter.RunEndSpec | src/sra/compare2kmertables.cpp:206-210 | a run is uniform in its group key and maximal |
| HitFilter.RunEndIs | src/sra/compare2kmertables.cpp:192-195 | the run end is the only position that bounds a uniform, maximal run |
| HitFilter.KeptFrom | src/sra/compare2kmertables.cpp:204-216 | the kept records are never more than the records read |
| HitFilter.KeptStep | src/sra/compare2kmertables.cpp:211-215 | a run of L records contributes its first L − 1 records when L − 1 > 1, and nothing otherwise |
| HitFilter.RemoveNotHitSequences | src/sra/compare2kmertables.cpp:201-218 | the result table starts with exactly `KeptHits(table)`; the count written is returned; slots after it are unchanged |
| HitFilter.FilterRun | src/sra/compare2kmertables.cpp:205-215 | one outer pass skips one pair run and copies what the filter keeps from it |
| HitFilter.KeptAdvance | src/sra/compare2kmertables.cpp:211-214 | the outer loop's invariant carries over one run |
| HitFilter.SkipPairRun | src/sra/compare2kmertables.cpp:206-210 | the inner loop stops at the last record of the pair's run and counts its repetitions |
| HitFilter.MemCopy | src/sra/compare2kmertables.cpp:212 | the destination gains exactly the copied records; everything after them is unchanged |
| HitFilter.KeptHitsIsSubsequence | src/sra/compare2kmertables.cpp:201-218 | the output is an order-preserving subsequence of the input |
| HitFilter.KeptFromIsSubsequence | src/sra/compare2kmertables.cpp:204-216 | from any position, what is kept is a subsequence of the rest of the input |
| HitFilter.SortedIsGrouped | src/sra/compare2kmertables.cpp:156 | after resultTableSort the records of each (query, target) pair are contiguous |
| HitFilter.KeptHitsPerPair | src/sra/compare2kmertables.cpp:201-218 | on grouped input, a pair with c records keeps c − 1 of them when c ≥ 3 and none otherwise |
| HitFilter.KeptFromPerPair | src/sra/compare2kmertables.cpp:204-216 | the per-pair count holds from every run boundary on |
| HitFilter.WritesFrom | src/sra/compare2kmertables.cpp:190-197 | there are never more writes than records |
| HitFilter.WritesStep | src/sra/compare2kmertables.cpp:192-196 | a target block [start, last] writes the records start..last − 1, keyed by that target |
| HitFilter.WritesAdvance | src/sra/compare2kmertables.cpp:190-197 | the writer's loop invariant carries over one block |
| HitFilter.WriteResultTable | src/sra/compare2kmertables.cpp:187-199 | the writes are exactly `ResultWrites(table)` |
| HitFilter.SkipTargetRun | src/sra/compare2kmertables.cpp:191-195 | blocksize is one less than the target block's length, and the loop stops on its last record |
| HitFilter.ResultWritesShape | src/sra/compare2kmertables.cpp:190-197 | each write holds only records of its key's target, consecutive keys differ, and exactly one record per block goes unwritten |
| HitFilter.WritesFromShape | src/sra/compare2kmertables.cpp:190-197 | the same shape holds from every position, and the first key is the target at that position |
| HitFilter.WriteKeysIncrease | src/sra/compare2kmertables.cpp:166-168 | after truncatedResultTableSort the write keys strictly increase, so each target is written once |
| HitFilter.WriteKeysFrom | src/sra/compare2kmertables.cpp:190-197 | on sorted input the keys written from a position on are at least its target and strictly increase |
| KmerTable.Pow | src/sra/createkmertable.cpp:231 | a positive base gives a positive power |
| KmerTable.Kmer2Long | src/sra/createkmertable.cpp:228-234 | the accumulator loop returns Σ index[i] · alphabetSize^i over the first kmerSize digits |
| KmerTable.KmerSumBound | src/sra/createkmertable.cpp:228-234 | with every digit below the radix, the value is below radix^k |
| KmerTable.KmerSumInjective | src/sra/createkmertable.cpp:228-234 | with digits below the radix, two windows have the same value exactly when they have the same digits |
| KmerTable.CountKmers | src/sra/createkmertable.cpp:54-59 | the count is Σ max(0, (seqLen − 2) − k + 1) over all sequences |
| KmerTable.XCountPositive | src/sra/createkmertable.cpp:98-104 | the X count is positive exactly when X occurs in the window |
| KmerTable.CountX | src/sra/createkmertable.cpp:98-101 | the counting loop returns the number of X digits in the window |
| KmerTable.QueryRecord | src/sra/createkmertable.cpp:111-115 | a query record holds the window's value, a 16-bit window number and no target id |
| KmerTable.TargetRecords | src/sra/createkmertable.cpp:116-118 | one target record per window |
| KmerTable.WindowsFromShape | src/sra/createkmertable.cpp:93-118 | every written window is free of X, its digits sit at its 1-based position (which counts skipped windows too), and its length is the reader's length − 2 |
| KmerTable.WindowsFromComplete | src/sra/createkmertable.cpp:95-104 | every window without X is written |
| KmerTable.SeqWindowsFit | src/sra/createkmertable.cpp:55-58 | a sequence yields no more records than the pre-count reserves for it |
| KmerTable.ExtractionFits | src/sra/createkmertable.cpp:105-109 | with the reader's lengths, all sequences together never claim more slots than the pre-count, so the fatal check cannot fire |
| KmerTable.ExtractTargetKmers | src/sra/createkmertable.cpp:79-122 | succeeds exactly when the windows fit in kmerCount; then the first slots hold the target records of all X-free windows in order and the rest of the table is unchanged; otherwise it fails with index kmerCount |
| KmerTable.ExtractSequence | src/sra/createkmertable.cpp:90-120 | one sequence's X-free windows claim consecutive slots from the counter and hold their records |
| KmerTable.ExtractWindow | src/sra/createkmertable.cpp:95-119 | one window: X windows are skipped, others claim the next slot; a slot at or past kmerCount is the fatal error |
| KmerTable.WindowStep | src/sra/createkmertable.cpp:95-104 | the window loop's invariant carries over one window |
| TargetWriter.TargetLess | src/sra/createkmertable.cpp:161-175 | targetTableSort is lexicographic "less" on (k-mer ascending, sequence length descending, sequence id ascending) |
| TargetWriter.QueryTableLess | src/sra/createkmertable.cpp:145-159 | querryTableSort is lexicographic "less" on (k-mer ascending, query id descending, window number ascending); the target id is not compared |
| TargetWriter.SortOrdersAreStrictWeakOrders | src/sra/createkmertable.cpp:145-175 | targetTableSort and querryTableSort are strict weak orders; the target order ties only equal records, and the query order ties records that agree on k-mer, query id and window number |
| TargetWriter.QuerySortFeedsMatcher | src/sra/createkmertable.cpp:145-149 | a query table in querryTableSort order is sorted by k-mer, as the matcher requires |
| TargetWriter.TargetSortOrder | src/sra/createkmertable.cpp:161-169 | targetTableSort order is k-mer ascending, and within one k-mer the sequence lengths do not increase |
| TargetWriter.RunEnd | src/sra/createkmertable.cpp:188-198 | the run of a k-mer ends after its start and within the table |
| TargetWriter.RunEndSpec | src/sra/createkmertable.cpp:188-198 | a run holds one k-mer and is maximal |
| TargetWriter.RunEndIs | src/sra/createkmertable.cpp:188-198 | the run end is the only position that bounds a uniform, maximal run |
| TargetWriter.Best | src/sra/createkmertable.cpp:189-192 | the held record lies within the records looked at |
| TargetWriter.BestIsFirstLongest | src/sra/createkmertable.cpp:189-192 | the held record has the greatest sequence length so far, and every earlier record is strictly shorter: ties go to the first |
| TargetWriter.SortedRunHeadIsBest | src/sra/createkmertable.cpp:161-169 | in targetTableSort order, the record held for a run is its first |
| TargetWriter.ChosenFrom | src/sra/createkmertable.cpp:188-211 | every written position lies in the table |
| TargetWriter.ChosenIncrease | src/sra/createkmertable.cpp:193-198 | on a table sorted by k-mer, the written k-mers strictly increase |
| TargetWriter.ChosenLongest | src/sra/createkmertable.cpp:189-192 | each written record has the longest sequence of its k-mer, and earlier records of that k-mer are strictly shorter |
| TargetWriter.ChosenCount | src/sra/createkmertable.cpp:193-211 | one record is written per distinct k-mer |
| TargetWriter.WrittenPerDistinctKmer | src/sra/createkmertable.cpp:188-211 | on a table sorted by k-mer, the k-mer file strictly increases and holds one entry per distinct k-mer; each id is that of the first longest record of its k-mer |
| TargetWriter.SortedWritesRunHeads | src/sra/createkmertable.cpp:189-196 | in targetTableSort order, each written record is the first of its run |
| TargetWriter.HeadsChosenFrom | src/sra/createkmertable.cpp:189-196 | whenever each run's held record is its first, every record the writer emits opens a new run of k-mers |
| TargetWriter.HeadThenRunHeads | src/sra/createkmertable.cpp:189-196 | the first run's emitted record is its head, and the records emitted after it each open a run |
| TargetWriter.ZeroSlotWritten | src/sra/createkmertable.cpp:133-135 | when an unclaimed all-zero slot is in the sorted table, k-mer 0 is written first |
| TargetWriter.ChosenAdvance | src/sra/createkmertable.cpp:193-197 | closing a run appends its held record to the written positions |
| TargetWriter.ColumnsAppend | src/sra/createkmertable.cpp:194-195 | one write appends the record's k-mer and id to the two files in lockstep |
| TargetWriter.KeepHolding | src/sra/createkmertable.cpp:189-192 | a record with the held k-mer replaces the held one only when its sequence is strictly longer |
| TargetWriter.CloseRun | src/sra/createkmertable.cpp:193-198 | a record with another k-mer writes the held record and starts a new run |
| TargetWriter.CloseLastRun | src/sra/createkmertable.cpp:209-211 | the final write after the loop completes the written positions |
| TargetWriter.WriteTargetTables | src/sra/createkmertable.cpp:178-216 | the two files are the k-mer and id columns of one chosen record per run; uniqueKmerCount is their number; with kmerCount 0, slot 0 is still written |
| SraAlignments.Consumed | src/sra/convertsraalignments.cpp:61-86 | no more residues are consumed than ops read |
| SraAlignments.ConsumedGrows | src/sra/convertsraalignments.cpp:61-86 | seqPos never decreases |
| SraAlignments.PrintAlnSeq | src/sra/convertsraalignments.cpp:59-87 | the output is the old output followed by `AlnRow` over the whole backtrace |
| SraAlignments.RowStep | src/sra/convertsraalignments.cpp:64-85 | 'M' always prints a residue and consumes it; forwards 'I' does the same and 'D' prints '-'; with reverse set, 'I' and 'D' swap roles; other ops print nothing |
| SraAlignments.AlnRowLength | src/sra/convertsraalignments.cpp:62-86 | the row has exactly one character per 'M', 'I' or 'D' |
| SraAlignments.Residues | src/sra/convertsraalignments.cpp:63 | one character per residue read |
| SraAlignments.UngappedRowIsResidues | src/sra/convertsraalignments.cpp:63-85 | the row with its '-' characters removed equals the residues read, in order, with any '-' among those residues removed as well |
| SraAlignments.ResiduesStep | src/sra/convertsraalignments.cpp:63-85 | one op adds the next residue exactly when it consumes one |
| SraAlignments.ForwardResidues | src/sra/convertsraalignments.cpp:63 | forwards, the residues read are seq[offset .. offset + count) |
| SraAlignments.ForwardRowSpellsSequence | src/sra/convertsraalignments.cpp:59-87 | on the forward strand, when the slice seq[offset .. offset + seqPos) holds no '-', the row with its '-' characters removed is exactly that slice |
| SraAlignments.ReverseSwapsGaps | src/sra/convertsraalignments.cpp:69-84 | the target row (reverse) is the query row of the backtrace with 'I' and 'D' exchanged |
| SraAlignments.LeadingDigits | src/sra/convertsraalignments.cpp:272-274 | the digit loop stops at the first non-digit |
| SraAlignments.BareOpCountsZero | src/sra/convertsraalignments.cpp:269-271 | an op with no digits in front of it is a run of count 0 |
| SraAlignments.ParseStep | src/sra/convertsraalignments.cpp:268-277 | one loop pass reads one run: its digits and the op after them ('\0' at the end of the string) |
| SraAlignments.TallyAdvance | src/sra/convertsraalignments.cpp:276-285 | the counters stay the tallies of the runs read |
| SraAlignments.TallySnoc | src/sra/convertsraalignments.cpp:276-285 | one run adds its count to the length, its count to the matches when it is 'M', and one gap opening when it is 'D' or 'I' |
| SraAlignments.CigarTally | src/sra/convertsraalignments.cpp:265-288 | for a non-empty backtrace, alnLen is the sum of all run counts, matchCount the sum over 'M' runs, and gapOpenCount the number of 'D'/'I' runs; an empty backtrace keeps the result's length |
| SraAlignments.TallyRun | src/sra/convertsraalignments.cpp:269-285 | one pass advances the cursor and keeps the counters as tallies of the runs read |
| SraAlignments.ReadCount | src/sra/convertsraalignments.cpp:269-275 | the count is the decimal value of the digits at pos, 0 when there are none, and the cursor stops on the first non-digit |
| SraAlignments.DigitsValue | src/sra/convertsraalignments.cpp:271 | the decimal reading of n's digits is n |
| SraAlignments.ParseRender | src/sra/convertsraalignments.cpp:268-286 | reading a backtrace written as count-op runs gives the runs back |
| SraAlignments.AppendColumns | src/sra/convertsraalignments.cpp:324-454 | the line is the old text, then the columns joined by single tabs with no trailing tab, then '\n' |
| SraAlignments.SplitColumns | src/sra/convertsraalignments.cpp:450-452 | up to the end of column i, the line splits at its tabs into the first i columns |
| SraAlignments.SplitLine | src/sra/convertsraalignments.cpp:450-454 | when no column holds a tab, splitting the line at tabs gives the columns back |
| SraDb.Low5 | src/sra/convert2sradb.cpp:153 | a residue code is below 32 |
| SraDb.Pack | src/sra/convert2sradb.cpp:144-146 | PACK_TO_SHORT: the word's three groups are the 5-bit codes of characters i, i+1, i+2, most significant first, and bit 15 is clear |
| SraDb.Combine | src/sra/convert2sradb.cpp:144-146 | the three 5-bit groups are recovered from the word, most significant first, and bit 15 is clear |
| SraDb.ShiftIn | src/sra/convert2sradb.cpp:150-154 | shifting groups in one by one builds the same word as packing them at once |
| SraDb.WordFlag | src/sra/convert2sradb.cpp:156 | IS_LAST_15_BITS sees exactly bit 15 of a packed word |
| SraDb.LoopEnd | src/sra/convert2sradb.cpp:141-147 | the stride-3 loop stops at a multiple of 3 |
| SraDb.LayoutFits | src/sra/convert2sradb.cpp:134-147 | for l ≥ 1 the tail word is the last slot of the buffer, and the tail holds rem = 1..3 residues (3 when l % 3 = 0) |
| SraDb.TailGroup | src/sra/convert2sradb.cpp:152-154 | a tail group is a 5-bit value |
| SraDb.TailWord | src/sra/convert2sradb.cpp:149-156 | the tail word holds the tail residues as 5-bit groups, most significant first; unused groups and a '\n' give 0; bit 15 is set |
| SraDb.TailSoFarDone | src/sra/convert2sradb.cpp:156 | the word after three shifts, with the end flag set, is the tail word |
| SraDb.FullWords | src/sra/convert2sradb.cpp:143-147 | one word per full triple |
| SraDb.PackedLength | src/sra/convert2sradb.cpp:134-138 | the buffer holds l/3 + (l%3 ≠ 0 ? 1 : 0) words, which is ceil(l/3) for l ≥ 1 |
| SraDb.PackedEndFlag | src/sra/convert2sradb.cpp:156 | exactly the last word carries the end flag |
| SraDb.FullWordsGroups | src/sra/convert2sradb.cpp:143-147 | the groups of the full words are the codes of their residues i, i+1, i+2 |
| SraDb.TailCodes | src/sra/convert2sradb.cpp:149-155 | the tail word's groups are the tail's codes followed by zeros |
| SraDb.PackedGroups | src/sra/convert2sradb.cpp:134-156 | unpacking the buffer group by group gives the residue codes followed by 3 − rem zero groups |
| SraDb.PackSequence | src/sra/convert2sradb.cpp:134-160 | the freshly allocated buffer is exactly `Packed(s)` |
| SraDb.PackWord | src/sra/convert2sradb.cpp:144-146 | one loop pass packs the next triple and touches no later slot |
| SraDb.WriteTail | src/sra/convert2sradb.cpp:149-156 | after the tail is built, the buffer is exactly `Packed(s)` |
| SraDb.ShiftGroupIn | src/sra/convert2sradb.cpp:151-154 | one pass shifts the tail word by five bits and ors in the next group, leaving other slots alone |
| SraDb.TailStep | src/sra/convert2sradb.cpp:150-155 | each pass of the tail loop extends the partial word by one group |
| SraDb.EmptyTailOutOfBounds | src/sra/convert2sradb.cpp:138-149 | for an empty sequence the buffer has 0 words, yet the source's tail slot is 0 |
| SraDb.TailSlotInBounds | src/sra/convert2sradb.cpp:138-149 | for l ≥ 1 the tail slot is inside the buffer |
| SraDb.BuildHeader | src/sra/convert2sradb.cpp:117-129 | the header is the name, then a blank and the comment when the comment is non-empty, then '\n' |
| SraDb.FirstWordOf | src/sra/convert2sradb.cpp:118-122 | the first word of a header is its name when the name has no blank |
| SraDb.HeaderSplits | src/sra/convert2sradb.cpp:118-129 | for a name without blank or newline, the header's first word is the name, the text between the following blank and the final character is the comment, and the last character is '\n' |
| SraDb.Records | src/sra/convert2sradb.cpp:108-167 | one header and one packed sequence per entry |
| SraDb.Convert | src/sra/convert2sradb.cpp:108-192 | succeeds exactly when there is an entry and every entry has a name; then the records are those of all entries in order; an empty name fails with the first such entry's number; no entries fails too |

## Left out

- File and process plumbing is not modelled: memory maps, `fopen`/`fwrite`, and the `DBReader`, `DBWriter`, `SRADBWriter` and `KSeqWrapper` I/O. Every writer call is modelled as a returned value instead.
- Timing, progress and debug output are not modelled. The same goes for the `equalKmers` counter, which only feeds a log line.
- OpenMP loops and `__sync_fetch_and_add` are not modelled. The loops run sequentially and the shared slot counter is a local variable. The order in which threads claim slots, and which slot each window gets, is not captured.
- `omptl::sort` is not modelled. Lemmas take its result as a `SortedBy` precondition, and the comparators are proved to be strict weak orders. The driver code of `compare2kmertables` (`compare2kmertables.cpp` lines 149-185) is not modelled: it only chains the sort, filter, sort and write stages.
- Integer widths are not modelled; values are unbounded naturals.
  - Stream values and ids are 16- and 32-bit, but k-mers and counters are unbounded.
  - A `long` overflow in `kmer2long` or a wrap-around of the `size_t`/`unsigned` counters is not captured.
  - KmerTable.QueryRecord keeps the window number modulo 2^16. The source counts in a signed `short`, whose negative values are not captured.
- KmerTable.CountKmers requires every reader length to be at least 2. Below 2, the source's `size_t` subtraction wraps around.
- `kmer2long` takes its radix as a parameter. The source passes `alphabetSize - 1`.
- The `Sequence`/`Indexer` k-mer iterator is not part of this model. Windows are taken as every residues[j..j+k] of the residue indices.
- `writeQueryTable` is not modelled, and neither is the query-table branch of the extraction loop (`isQuery()` is constant there). Only its record is given, as KmerTable.QueryRecord.
- `Orf::complement` is a function parameter of the alignment printer.
- SraAlignments.PrintAlnSeq requires that every residue it consumes lies inside the sequence. The source also reads the character for ops that consume nothing, even one past the last consumed residue, and never uses that read.
- `Util::fast_atoi` is modelled as the decimal value of the digit run, without overflow.
- Floating-point work is not modelled: `identical`, the mismatch estimate and the score conversions. The output columns are taken as already rendered strings.
- `Util::parseFastaHeader` only produces a warning in `convert2sradb` and is not part of this model.
- `SRAUtil::stripInvalidChars` has no body here. Sequences are taken as already stripped.
- `PACK_TO_SHORT` and `GET_LAST_5_BITS` are not defined in this repository. They are taken to be `(a << 10) | (b << 5) | c` over the 5-bit codes and `c & 0x1F`.
- SraDb.Convert returns an error for a nameless entry or for an input with no entries. The source exits, after having written the records of the earlier entries. Those partial files are not captured.
- SraDb.Convert numbers entries from 0 within one input. The source's counter runs across all input files.

## Findings

| source | as written | input that shows it | evidently intended | confidence | as-written member | corrected member |
|---|---|---|---|---|---|---|
| src/sra/convert2sradb.cpp:134-156 | the tail word is always written at slot i/3, even when the buffer has no slot: for an empty sequence `calloc` gets 0 elements, but slot 0 is still written and residues 0..2 are still read | an entry with an empty sequence (l = 0) | an empty sequence gives an empty packed record | not executed | SraDb.EmptyTailOutOfBounds | SraDb.PackSequence |
