# A verified model of JASS v1

JASS v1 is a score-at-a-time search engine. Its index stores, for every term, *quanta* (segments): the
documents in which the term has one impact, compressed, in decreasing order of impact. A query merges the
segments of its terms, processes them from the highest impact down, adds impacts to accumulators, and keeps
the best k documents in a heap of pointers. This project models the engine, the codecs of its postings and
the hand-out of queries to threads, and proves what they are for.

The main results:

- **Ranking.** After every sequence of `add_rsv` calls the pointers are the k best documents under
  (score, docid), each once, and a min-heap once full (`Accumulators.Engine.AddRsv`, with
  `Ranking.StateIsTopK`); "at least the root" is equivalent to "already in the heap"
  (`Ranking.AtLeastRootIsMember`). The lazily cleaned table refines an array of scores zeroed per query.
- **Early termination.** The loop stops at the first place of the order where each of the k + 1 best is ahead of
  the next by all that is still to come, and then no document overtakes a reported one in the scores of all
  segments (`Query.SearchUntilSettled`). **Anytime.** The answer is the ranking of the processed prefix and no
  document misses more than the sum of the next impacts (`Query.SearchAnytime`).
- **Sorting.** `top_k_qsort` terminates, permutes its range and settles the first k
  (`TopKSort.Sorter.TopKQsort`).
- **Codecs.** Round trips for every sequence of 32-bit integers: Group Elias Gamma, Group Elias Delta,
  Gamma with variable bytes, Simple-8b, variable byte, QMX and QMX-D4, down to bits, lanes and bytes. The
  payload words of Gamma and Delta are the same (`Payload.PayloadIsUnique`). No codec is wider than it must be:
  a row is as wide as its widest integer (`GroupElias.RowWidthIs`), a Simple-8b word has the least selector that
  the next integers fill (`Simple8b.ChosenIs`), and a QMX block has the least type that suits the integers in it,
  whatever the promotion loop does on its way (`Qmx.BlockWidth`, `QmxChoice.Promote`).
- **End to end.** The index is written byte by byte, read back through its first byte, its pointers and its
  headers, and the answer is the naive top k of the naive sums of impacts, of equal sums the greater docid first
  (`EndToEnd.WriteIndex`, `EndToEnd.Answer`). With early
  termination, whose bound is read from the file's headers, no document overtakes a reported one in those sums
  (`EndToEnd.AnswerEarly`).
- **Hand-out.** Under every interleaving of every number of threads, no query is given twice, and exactly
  those queries are claimed that have fewer empty queries before them than there are threads
  (`HandOut.FinishedRun`, `HandOut.HandedOutExactly`).

Five promises do not hold of the code as it is. Each has a lemma with an input that shows it and the exact
condition under which the promise holds:

- The anytime guard adds in 32 bits and can wrap, so that more postings are processed than the budget allows
  (`Budget.WrappedBudget`; exactly when: `Budget.BudgetKept`).
- Simple-8b stores a run of gaps of at most one bit as a run of ones, so that document 0 at the start of a run
  shifts the whole list (`Simple8b.FirstDocumentShifts`; exactly when: `Simple8b.RoundTrip`, at the level of a
  segment `Segments.Process`, and for ascending documents `Segments.FaithfulToAscending`: the first 120 are 0 to
  119).
- Gamma with variable bytes measures the room for bytes in words and can lose the tail although it would fit
  (`GammaVB.TightBufferLosesTail`; exactly when: `GammaVB.Decode`).
- An empty query ends the thread that claims it, and with it perhaps the hand-out
  (`HandOut.EmptyQueryStrands`; exactly when: `HandOut.HandedOutExactly`).
- Scaled impacts are at least 1 only if there are at most `MAX_RSV` terms (`Scaling.TooManyTerms`; exactly
  when, for every impact of every segment: `Scaling.ScalingNeedsRoom`).

## How the model is built

Machine words are natural numbers with explicit bounds; shifts, masks, OR and XOR are defined bit by bit in
`Bits`, and wrap-around is written out. A `uint16_t *` into the accumulators is the index of the accumulator,
whose order is the order of addresses. A SIMD register is a sequence of lanes (`Simd`), and the hundreds of
unrolled cases of a decoder are one function of the block's layout (`QmxBlocks`). Objects and buffers that the
source updates in place are classes and arrays: the heap, the accumulator table, the sorter, the selector
stream of the Delta codec, the length buffer of QMX that is turned into keys while it is read, the gap loop of
the indexer. The threads of the hand-out are a state machine whose runs are arbitrary interleavings of their
steps. The files:

- engine: `Order`, `MinHeap`, `Ranking`, `Accumulators`, `TopKSort`, `Impacts`, `Budget`, `Query`
- hand-out and scaling: `HandOut`, `Scaling`
- bits, bytes and lanes: `Bits`, `Memory`, `Simd`, `Stripes`
- codecs: `GroupElias`, `Payload`, `Gamma`, `SelectorStream`, `Delta`, `GammaVB`, `EliasBytes`, `Gaps`, `VByte`,
  `Simple8b`, `QmxBlocks`, `QmxWidths`, `QmxChoice`, `QmxKeys`, `Qmx`, `QmxD4`
- index: `Grouping`, `Segments`, `PostingsFile`, `EndToEnd`

The project is given to the verifier as a whole with `dafny verify dfyconfig.toml`.

What the code demands of its callers without looking, and the model therefore requires: impacts are at least
1 and a document's total is below 2^16; docids are in range; a term's postings are sorted by falling
impact, in any order of documents, each document once; an array to sort is shorter than 2^32; QMX is given at least one
integer. Random access behind a partly filled last block is modelled as memory with arbitrary bytes: there
must be 32 bytes behind the postings file.

## Model

| member | source | states |
|---|---|---|
| `Order.Compare` | JASSv1/CI.h:23-26 | one accumulator is above another if and only if its score is greater or, on equal scores, its docid is; zero only for the same document |
| `MinHeap.RootIsLeast` | JASSv1/heap.h:308-362 | the parent-child condition makes the root the least of all members |
| `MinHeap.Heap.MinHeapify` | JASSv1/heap.h:308-362 | sinking one element repairs the heap condition from a position on, permutes the cells and leaves the rest of the array alone |
| `MinHeap.Heap.BuildMinHeap` | JASSv1/heap.h:358-362 | any array of pointers becomes a heap of the same pointers |
| `MinHeap.Heap.SiftHole` | JASSv1/heap.h:118-213 | moving a hole down and filling it with the key gives a heap of the old members with the key in the hole's place |
| `MinHeap.Heap.MinInsert` | JASSv1/heap.h:118-165 | the key replaces the root if and only if it is not below the root; otherwise nothing changes |
| `MinHeap.Heap.Find` | JASSv1/heap.h:171-190 | the linear search finds the member |
| `MinHeap.Heap.MinUpdate` | JASSv1/heap.h:171-213 | after a member's score has grown in place, the members form a heap again |
| `Ranking.RankingIsNaive` | JASSv1/jass.c:613 | an ordered list of the best scored documents is the list that repeated selection of the best gives, so a ranking is unique |
| `Ranking.NaiveIsRanking` | JASSv1/jass.c:613 | and repeated selection does give such a list |
| `Ranking.RankingIsBestFirst` | JASSv1/CI.c:11-14 | in a ranking the greater score comes first and, of equal scores, the greater docid, also before every scored document that is left out; min(k, scored documents) are shown |
| `Ranking.AtLeastRootIsMember` | JASSv1/CI.h:129 | in a full top-k state a document is in the heap if and only if it is not below the root |
| `Ranking.JustFull` | JASSv1/CI.h:125-126 | the k-th document and the heap made of them complete the state |
| `Ranking.MemberUpdated` | JASSv1/CI.h:129-136 | a member's new score keeps the top-k state |
| `Ranking.RootReplaced` | JASSv1/CI.h:137-144 | a document that rises above the root belongs in the heap, and the old root no longer does |
| `Ranking.StateIsTopK` | JASSv1/CI.h:96-146 | the pointers are min(k, scored documents) in number and every other document is below each of them |
| `Ranking.SortedStateIsRanking` | JASSv1/jass.c:613 | sorting the first positions of the state gives the ranking |
| `Accumulators.RowOfDocument` | JASSv1/jass.c:396-411 | every document's row is below the table's height and its cell inside that row |
| `Accumulators.Engine.constructor` | JASSv1/jass.c:396-417 | the table has room for every document, with arbitrary contents |
| `Accumulators.Engine.Rewind` | JASSv1/jass.c:469 | clearing the row flags alone makes every score zero and the result list empty |
| `Accumulators.Engine.CleanRow` | JASSv1/CI.h:103-110 | cleaning a row changes no score and no cell of a scored document |
| `Accumulators.Engine.Bump` | JASSv1/CI.h:119-140 | exactly one score and one cell grow |
| `Accumulators.Engine.Collect` | JASSv1/CI.h:115-127 | while the list is not full, one score grows and the top-k state is kept, including the step that builds the heap |
| `Accumulators.Engine.Promote` | JASSv1/CI.h:129-136 | updating a member keeps the top-k state |
| `Accumulators.Engine.MayEnter` | JASSv1/CI.h:137-144 | a document outside enters or stays out so that the top-k state is kept |
| `Accumulators.Engine.AddRsv` | JASSv1/CI.h:96-146 | every call keeps the top-k state and changes exactly one score, by the amount added |
| `TopKSort.Sorter.SwapBlocks` | JASSv1/CI.c:54-63 | two disjoint blocks change places element by element and nothing else moves |
| `TopKSort.Sorter.Med3` | JASSv1/CI.c:30-36 | of the three elements, the one at the position returned lies between the other two |
| `TopKSort.Sorter.ChoosePivot` | JASSv1/CI.c:83-97 | the middle of seven elements, the median of three of up to forty, and the median of three medians of more |
| `TopKSort.Sorter.InsertionSort` | JASSv1/CI.c:76-81 | a short range is permuted and sorted |
| `TopKSort.Sorter.Partition` | JASSv1/CI.c:99-127 | the range is permuted into equal, ahead, after and equal bands around the pivot |
| `TopKSort.Sorter.ThreeWay` | JASSv1/CI.c:99-138 | after the exchanges the bands are ahead, equal, after, and both outer bands together are shorter than the range |
| `TopKSort.PivotInBand` | JASSv1/CI.c:99-145 | the pivot is always in the equal band, which is why both recursive calls are on less |
| `TopKSort.Sorter.TopKQsort` | JASSv1/CI.c:69-145 | terminates, permutes only its range, and no element of the first k positions comes after any later one |
| `Impacts.RestIsBounded` | JASSv1/jass.c:493-512 | what is not yet processed adds between nothing and the sum of each term's next impact to any document |
| `Impacts.OneMore` | JASSv1/jass.c:522-547 | processing a term's next segment adds its impact to the documents in it |
| `Impacts.OneMoreRemaining` | JASSv1/jass.c:573-575 | subtracting the impact taken and adding the next one gives the sum of the next impacts again |
| `Impacts.NothingRemains` | JASSv1/jass.c:573-575 | and at the end of all lists it is zero |
| `Impacts.OrderIsByImpact` | JASSv1/jass.c:130-140 | in any order that the comparison accepts, greater impacts come first and, of equal impacts, shorter segments |
| `Impacts.ProgressOnce` | JASSv1/jass.c:522-547 | how far each term has come depends only on the place in the order |
| `Impacts.InTurn` | JASSv1/jass.c:130-140 | in any order that the comparison accepts, the segment reached is its term's next one |
| `Impacts.AllProcessed` | JASSv1/jass.c:522-547 | after the last entry every segment of every term has been processed |
| `Budget.AffordableIsLongest` | JASSv1/jass.c:522-530 | the affordable prefix is within the budget and every longer one is not |
| `Budget.BudgetKept` | JASSv1/jass.c:522-530 | the postings processed stay within the budget if and only if the 32-bit guard is never misled by wrap-around, and then exactly the affordable prefix is processed |
| `Budget.WrappedBudget` | JASSv1/jass.c:526 | two segments of 2^31 postings are both processed within a budget of 2^32 - 1 |
| `Query.ProcessDocids` | JASSv1/process_postings.c:111-119 | one `add_rsv` per document adds the impact to each and keeps the top-k state |
| `Query.ProcessSegment` | JASSv1/jass.c:522-547 | the scores become the sums over one segment more |
| `Query.OrderIsSettled` | JASSv1/jass.c:579-597 | true if and only if each of the k + 1 best, by repeated selection, is ahead of the next by at least the remaining impact |
| `Query.SettledIsFinal` | JASSv1/jass.c:579-605 | if they do, no gain within the remaining impact lets a document overtake a reported one |
| `Query.Round` | JASSv1/jass.c:551-605 | one round keeps: scores are the processed sums, the bound is the sum of the next impacts, and the early end is decided exactly by the gaps between the k + 1 best of these sums |
| `Query.SearchUntilSettled` | JASSv1/jass.c:479-613 | the loop ends at the first place of the order where there are k + 1 scored documents and each of the best is ahead of the next by at least the remaining impact, or at the end; the answer is the naive top k of the scores there, and no document strictly overtakes a reported one in the full scores |
| `Query.Report` | JASSv1/jass.c:613 | the sorted pointers are the naive top k of the current scores |
| `Query.RestIsMissing` | JASSv1/jass.c:512-547 | every document misses at most the sum of each term's next impact |
| `Query.SearchAnytime` | JASSv1/jass.c:479-547 | the segments processed are those the guard lets through, the answer is the naive top k of the sums over them, and no document misses more than the next impacts |
| `HandOut.StepKeeps` | anytime/JASS_anytime_query.h:88-103 | every step of every thread keeps: all queries below a cursor are taken, and a query taken has been given to one thread |
| `HandOut.EveryState` | anytime/JASS_anytime_api.cpp:410-425 | every state of every run, under every interleaving, satisfies the invariant |
| `HandOut.EmptyQueriesEndThreads` | anytime/JASS_anytime_api.cpp:446-450 | each empty query claimed has ended one thread of its own |
| `HandOut.HandedOutExactly` | anytime/JASS_anytime_api.cpp:410-450 | when all threads have ended, a query has been claimed if and only if fewer empty queries precede it than there are threads |
| `HandOut.EndMeansAllClaimed` | anytime/JASS_anytime_query.h:88-103 | a thread has ended either because its cursor reached the end of the list, and then all queries are claimed, or because it was given an empty query |
| `HandOut.EmptyQueryStrands` | anytime/JASS_anytime_api.cpp:446-450 | one thread and an empty first query leave the second query unclaimed |
| `HandOut.StepDecreases` | anytime/JASS_anytime_query.h:88-103 | every step lowers a measure, also when the compare-and-swap fails |
| `HandOut.RunsEnd` | anytime/JASS_anytime_api.cpp:410-425 | a run is no longer than the measure of its first state |
| `HandOut.FinishedRun` | anytime/JASS_anytime_api.cpp:410-425 | in a finished run, each query is with exactly one thread, or with none if too many empty queries precede it |
| `Scaling.ScaledOrder` | anytime/JASS_anytime_api.cpp:579-582 | scaling keeps the order of impacts, and every scaled impact is at least 1 |
| `Scaling.ScaledIs` | anytime/JASS_anytime_api.cpp:579-582 | in integers, the scaled impact is one more than the whole part of impact times (`MAX_RSV` - terms) over the largest |
| `Scaling.ScaledSumBound` | anytime/JASS_anytime_api.cpp:579-582 | the sum of n scaled impacts is at most the scaled share of the maxima plus n |
| `Scaling.ScaledScoreFits` | anytime/JASS_anytime_api.cpp:544-582 | with one segment per term, the scaled score of any document is at most `MAX_RSV` |
| `Scaling.ScaledTermScore` | anytime/JASS_anytime_api.cpp:579-582 | a document is in one segment of a term at most, so that what a term adds to it over the scaled segments is the scaled form of what it adds over the others |
| `Scaling.QueryFits` | anytime/JASS_anytime_api.cpp:544-582 | whatever the segments of the query are, no document's sum over them, scaled if the sum of the maxima exceeds `MAX_RSV` and not otherwise, exceeds `MAX_RSV` |
| `Scaling.ScalingNeedsRoom` | anytime/JASS_anytime_api.cpp:579-582 | any impact of any segment is scaled to at least 1 if and only if there are at most `MAX_RSV` terms |
| `Scaling.TooManyTerms` | anytime/JASS_anytime_api.cpp:579-582 | four terms of impacts 1 to 4 where a score may be at most 3: every impact becomes 0 |
| `Scaling.ScaleSegments` | anytime/JASS_anytime_api.cpp:579-582 | the loop scales every header in place, to exactly this, and keeps descending order |
| `GroupElias.ColumnsAreInput` | JASSv1/compress_integer_elias_gamma_simd.c:128-154 | the columns of the 16 lanes together are the input, padded with zeroes |
| `GroupElias.RowWidthIs` | JASSv1/compress_integer_elias_gamma_simd.c:149-151 | a width of at least one bit is enough for a row if and only if every integer of the row fits in it |
| `GroupElias.PackWord` | JASSv1/compress_integer_elias_gamma_simd.c:118-195 | a word holds the low bits of a row begun before, whole rows, and the high bits of a row that does not fit, lane by lane, and ends where it must |
| `Payload.WordEndsOnce` | JASSv1/compress_integer_elias_gamma_simd.c:156-193 | where a word ends depends only on where it starts |
| `Payload.PayloadIsUnique` | JASSv1/compress_integer_elias_delta_simd.c:100-246 | a sequence has one payload; hence Gamma and Delta write the same payload words |
| `Payload.FieldReads` | JASSv1/compress_integer_elias_delta_simd.c:340-376 | shifting and masking a word gives back the row's field in every lane |
| `Gamma.ComputeSelector` | JASSv1/compress_integer_elias_gamma_simd.c:64-84 | the selector is the unary code of the widths, for any widths that fit in a word |
| `Gamma.WidthsOfSelector` | JASSv1/compress_integer_elias_gamma_simd.c:64-84 | the unary code determines the widths |
| `Gamma.WordDecodes` | JASSv1/compress_integer_elias_gamma_simd.c:251-307 | a packed lane decodes to its column, and what is left of it are the high bits that the next word needs |
| `Gamma.NextWord` | JASSv1/compress_integer_elias_gamma_simd.c:98-203 | one more word encodes the rows it claims to, and carries over what it must |
| `Gamma.Encode` | JASSv1/compress_integer_elias_gamma_simd.c:90-206 | the words hold the whole input; encoding fails if and only if the words and one more 32-bit word do not fit in the buffer |
| `Gamma.Decode` | JASSv1/compress_integer_elias_gamma_simd.c:251-307 | the loops over selectors and rows compute the lanes' decoding, for any words with selectors |
| `Gamma.RoundTrip` | JASSv1/compress_integer_elias_gamma_simd.c:251-307 | the first n integers decoded are the input, and the padding decodes to zeroes |
| `SelectorStream.ReadCode` | JASSv1/compress_integer_elias_delta_simd.c:289-315 | a width's code at the bottom of the accumulator is found and inverted, whatever lies above it |
| `SelectorStream.CodeIs` | JASSv1/compress_integer_elias_delta_simd.c:70-94 | the code of a width from 2^m to 2^(m + 1) - 1 is m zeroes, a mark and its m bits below the top one, 2m + 1 bits in all |
| `Delta.CodePushed` | JASSv1/compress_integer_elias_delta_simd.c:70-94 | OR-ing a code in, and moving out a full word if there is one, extends the bit stream by this code |
| `Delta.Codec.PushSelector` | JASSv1/compress_integer_elias_delta_simd.c:70-94 | the words written and the accumulator together are the codes of all widths pushed |
| `Delta.Codec.PackWord` | JASSv1/compress_integer_elias_delta_simd.c:124-225 | a payload word is packed as by Gamma, and one width is pushed per row, a row that crosses words only once |
| `Delta.Codec.Encode` | JASSv1/compress_integer_elias_delta_simd.c:100-246 | the payload is the sequence's payload and the selector words are the stream of all row widths; encoding fails if and only if the payload does not fit in the buffer |
| `Delta.Codec.DecodeSelector` | JASSv1/compress_integer_elias_delta_simd.c:289-315 | reads back exactly the i-th width, always has enough bits, and never loads more than one word past the stream |
| `Delta.Codec.DecodeRow` | JASSv1/compress_integer_elias_delta_simd.c:340-376 | a row is decoded whether it lies in one word or across two |
| `Delta.Codec.Decode` | JASSv1/compress_integer_elias_delta_simd.c:322-379 | the first n integers decoded are the input |
| `GammaVB.FillWord` | JASSv1/compress_integer_elias_gamma_simd_vb.cpp:87-176 | a word takes as many whole rows as fit, and notices the end of the input |
| `GammaVB.SelectPadded` | JASSv1/compress_integer_elias_gamma_simd_vb.cpp:120-125 | the spare bits go to the last width, so that the widths of a finished selector sum to 32 |
| `GammaVB.ColumnOut` | JASSv1/compress_integer_elias_gamma_simd_vb.cpp:161-164 | XOR removes exactly the last column |
| `GammaVB.IsShorterWhole` | JASSv1/compress_integer_elias_gamma_simd_vb.cpp:139-153 | the whole word is re-coded if that is shorter, and always if it has one row only |
| `GammaVB.RecodeColumn` | JASSv1/compress_integer_elias_gamma_simd_vb.cpp:159-169 | with the last column taken out, the word encodes the rows before it |
| `GammaVB.Encode` | JASSv1/compress_integer_elias_gamma_simd_vb.cpp:50-191 | succeeds if and only if the words before the last leave room for one; then the words hold the rows before the tail, and the tail is in variable bytes if it fits in as many bytes as there are words left |
| `GammaVB.AmpleIsLossless` | JASSv1/compress_integer_elias_gamma_simd_vb.cpp:50-191 | a buffer of 17 words per row and 123 more is always enough |
| `GammaVB.Decode` | JASSv1/compress_integer_elias_gamma_simd_vb.cpp:235-270 | decoding gives the input if and only if the tail fitted in the room that the encoder assumed |
| `GammaVB.TightBufferLosesTail` | JASSv1/compress_integer_elias_gamma_simd_vb.cpp:156 | fifteen integers of four bytes are lost in a buffer of 19 words, which has room for 72 bytes |
| `EliasBytes.EncodeGamma` | JASSv1/compress_integer_elias_gamma_simd.c:90-206 | the words as bytes in the order of the file, or nothing if and only if they and one more word do not fit |
| `EliasBytes.DecodeGamma` | JASSv1/compress_integer_elias_gamma_simd.c:251-307 | from these bytes the first n integers decoded are the input |
| `EliasBytes.EncodeDelta` | JASSv1/compress_integer_elias_delta_simd.c:231-245 | the payload, sixteen words that nothing was written to, and the selectors, as bytes; nothing if and only if the payload does not fit |
| `EliasBytes.DecodeDelta` | JASSv1/compress_integer_elias_delta_simd.c:322-379 | reading payload upwards from the start and selectors downwards from the end of these bytes, the first n integers decoded are the input |
| `Gaps.TakeGaps` | JASSv1/atire_to_jass_index.c:202-212 | the loop replaces the documents by their gaps in place |
| `Gaps.SumsOfGaps` | JASSv1/atire_to_jass_index.c:202-212 | running sums modulo 2^32 undo the gaps, in whatever order the documents are |
| `Gaps.SumsDiffer` | JASSv1/process_postings.c:92-104 | different gaps have different running sums |
| `Gaps.SumAndAdd` | JASSv1/process_postings.c:124-139 | the second stage passes the running sums to `add_rsv` |
| `VByte.BytesNeeded` | JASSv1/compress_variable_byte.h:31-51 | the case split counts the groups of seven bits |
| `VByte.CompressInto` | JASSv1/compress_variable_byte.h:57-96 | the fall-through writes the groups from the highest down, with the mark on the last |
| `VByte.Compress` | JASSv1/compress_variable_byte.c:12-28 | the codes of all integers, or nothing if they do not fit |
| `VByte.DecodeLoop` | JASSv1/compress_variable_byte.c:34-51 | the loop inverts the code and stops behind it, whatever follows |
| `VByte.DecompressInto` | JASSv1/compress_integer_variable_byte.h:278-385 | so does the unrolled decoder |
| `VByte.Decompress` | JASSv1/compress_variable_byte.c:34-51 | all integers of any concatenation of codes |
| `VByte.StaticDecode` | JASSv1/compress_integer_variable_byte.h:111-121 | all integers, read until the end of the source |
| `VByte.ProcessFused` | JASSv1/process_postings.c:55-75 | decoding and scoring in one loop calls `add_rsv` with the running sums of the integers encoded |
| `VByte.ProcessStaged` | JASSv1/process_postings.c:81-105 | decoding first and scoring then makes the same calls |
| `Simple8b.FirstMember` | JASSv1/compress_simple8b.c:163-166 | the least selector of a mask, or none |
| `Simple8b.ChooseSelector` | JASSv1/compress_simple8b.c:138-166 | narrowing the masks chooses the lowest selector whose full count of integers is available and all fit |
| `Simple8b.ChosenIs` | JASSv1/compress_simple8b.c:138-166 | it is the least selector whose count of next integers exists and is below 2 to its width, or of one bit for the first two; no other that the next integers fill holds more |
| `Simple8b.PackWord` | JASSv1/compress_simple8b.c:166-178 | a word of 64 bits with the selector and the integers of the selector's count |
| `Simple8b.Compress` | JASSv1/compress_simple8b.c:138-182 | the words of the whole input, or nothing if they do not fit |
| `Simple8b.WordDecodes` | JASSv1/compress_simple8b.c:188-782 | a word decodes to the integers packed, except that selectors 0 and 1 decode to ones |
| `Simple8b.CountsAddUp` | JASSv1/compress_simple8b.c:138-182 | the counts of the words sum to n |
| `Simple8b.RoundTrip` | JASSv1/compress_simple8b.c:188-782 | decompression gives the input if and only if words with selectors 0 and 1 were chosen for ones only |
| `Simple8b.PositiveRoundTrip` | JASSv1/compress_simple8b.c:47-132 | that is so for all positive integers |
| `Simple8b.LeadingZero` | JASSv1/compress_simple8b.c:138-182 | if only the first integer may be zero, the round trip fails exactly if it is and 119 ones follow |
| `Simple8b.FirstDocumentShifts` | JASSv1/compress_simple8b.c:188-200 | a zero and 119 ones decode to 120 ones |
| `Simple8b.UnpackWord` | JASSv1/compress_simple8b.c:188-782 | the unrolled cases unpack the fields of the selector, truncated to 32 bits |
| `Simple8b.Decompress` | JASSv1/compress_simple8b.c:188-782 | the decoding of the words up to the one in which the count is reached |
| `Simple8b.ProcessFused` | JASSv1/process_postings.c:178-792 | scoring while decoding calls `add_rsv` with the running sums of the decoding |
| `Simple8b.ProcessStaged` | JASSv1/process_postings.c:81-105 | on every encoder output, decoding first and scoring then makes the same calls |
| `Stripes.CrossingReads` | JASSv1/compress_qmx.c:817-1330 | a row of which the low bits end one register and the high bits start the next is put together again |
| `QmxBlocks.BlockReads` | JASSv1/compress_qmx.c:817-1330 | for every layout, the first `count` integers read are those written, also from a block that is only partly written and followed by anything |
| `QmxBlocks.WriteBlock` | JASSv1/compress_qmx.c:127-430 | the loops of every case write the bytes of the block |
| `QmxBlocks.BlocksAreFull` | JASSv1/compress_qmx.c:127-430 | no block that is stored has room for four integers more |
| `QmxWidths.ShortEnd` | JASSv1/compress_qmx.c:480-525 | near the end, short lengths are raised to 8, 16 or 32 bits |
| `QmxWidths.Turn` | JASSv1/compress_qmx.c:471-780 | a turn of the loop keeps settled blocks before the cursor and quads behind it, and either moves the cursor or widens the quad at it |
| `QmxChoice.ShortEndInVain` | JASSv1/compress_qmx.c:473-525 | where blocks must be filled, the special cases for the last integers change no choice |
| `QmxChoice.ShortEndIsBlock` | JASSv1/compress_qmx_d4.c:570-610 | where they need not be, fewer than four integers, or fewer than sixteen of 8 bits, become one block of 8, 16 or 32 bits |
| `QmxChoice.TurnChooses` | JASSv1/compress_qmx.c:471-780 | a turn passes over a type only if it does not suit the integers, and settles the least that does |
| `QmxChoice.Promote` | JASSv1/compress_qmx.c:471-780 | the loop terminates; the lengths are those of blocks of full capacity, each of the least type that suits its integers; if exact, they tile the input with at most three single integers at the end, otherwise only the last block reaches past it |
| `QmxKeys.RunIsBlocks` | JASSv1/compress_qmx.c:785-809 | a maximal run of equal lengths consists of whole blocks |
| `QmxKeys.RunCount` | JASSv1/compress_qmx.c:141-221 | the rounded-up division of the run's length is its number of blocks |
| `QmxKeys.BlocksOfKey` | JASSv1/compress_qmx.c:225-230 | a key stands for as many equal blocks as it says, at its place |
| `QmxKeys.KeysAreFewest` | JASSv1/compress_qmx.c:225-230 | if only full keys are followed by another of their type, no fewer keys stand for the same blocks |
| `QmxKeys.WriteOut` | JASSv1/compress_qmx.c:127-430 | writes the blocks and keys of a run; the keys stay behind the lengths still to be read, which are not changed |
| `QmxKeys.EmitRuns` | JASSv1/compress_qmx.c:785-809 | although keys overwrite lengths in the same buffer, expanding the keys gives the block sequence, only a full key is followed by another of its type, and the data are all its blocks |
| `Qmx.FitsFrom` | JASSv1/compress_qmx.c:89-121 | an integer fits a block's type if and only if that type is at least the one chosen for the integer; the type of no bits is for ones only |
| `Qmx.QuadLengths` | JASSv1/compress_qmx.c:437-470 | the lengths of each four integers become the greatest that one of them needs |
| `Qmx.Encode` | JASSv1/compress_qmx.c:437-809 | the blocks tile the input, each of the least type that holds its integers; their data come first and as few keys as possible backwards behind them |
| `Qmx.BlockWidth` | JASSv1/compress_qmx.c:471-780 | over the integers themselves: a type is a block's if and only if its integers fit it, there are enough to fill it where it must be filled, and no narrower type is so; the exception is the short last block of QMX-D4 |
| `Qmx.Decode` | JASSv1/compress_qmx.c:841-1330 | reading keys from the end and blocks from the start until they meet gives exactly the input |
| `QmxD4.TakeDeltas` | JASSv1/compress_qmx_d4.c:513-550 | each integer minus the one four places before, modulo 2^32 |
| `QmxD4.SumOfDeltas` | JASSv1/compress_qmx_d4.c:1406-6809 | sums by lane undo the deltas |
| `QmxD4.BytesNeeded` | JASSv1/compress_qmx_d4.c:133-147 | the trailer's size is that of its variable-byte code, at most five |
| `QmxD4.TrailerFor` | JASSv1/compress_qmx_d4.c:825-827 | the trailer's value is the least number that is the number of keys plus the size of its own code, also where one byte more is needed because of itself |
| `QmxD4.DecompressBackwards` | JASSv1/compress_qmx_d4.c:191-206 | the code read backwards from the end is the trailer's value |
| `QmxD4.AddBlock` | JASSv1/compress_qmx_d4.c:1406-6809 | adding each row of four to the register gives the sums of all deltas read |
| `QmxD4.Encode` | JASSv1/compress_qmx_d4.c:513-837 | blocks of the deltas that cover the input, each of the least type that holds its deltas but for a short last block, then the keys, then the trailer, through a buffer that may be left from a longer input |
| `QmxD4.Decode` | JASSv1/compress_qmx_d4.c:1406-6809 | the first n integers decoded are the input, for every non-empty sequence |
| `Grouping.Group` | JASSv1/atire_to_jass_index.c:453-510 | segments of one impact each, neighbours of different impact, that together are the postings in order |
| `Grouping.SegmentsAreWellFormed` | JASSv1/atire_to_jass_index.c:453-510 | for sorted postings the impacts fall strictly and no document is in two segments or twice in one |
| `Grouping.PostingScoreIs` | JASSv1/atire_to_jass_index.c:453-510 | a document scores the impact of its posting, and zero if it has none |
| `Grouping.UngroupScores` | JASSv1/atire_to_jass_index.c:453-510 | the segments score a document as the postings do |
| `Segments.Compress` | JASSv1/atire_to_jass_index.c:177-254 | in the modes s, c, 8, q, R, Q, G and D: the segment's bytes, or nothing if and only if they do not fit in the buffer |
| `Segments.Process` | JASSv1/process_postings.c:12-175 | in the same modes, fused or staged, the calls to `add_rsv` are the documents in order, in Simple-8b if and only if no zero gap is in a run of ones |
| `Segments.FaithfulToAscending` | JASSv1/atire_to_jass_index.c:202-217 | for ascending documents Simple-8b fails exactly if there are at least 120 and the first 120 are 0 to 119 |
| `Segments.ChooseMode` | JASSv1/jass.c:335-376 | a mode is chosen if and only if the first byte is that mode's and it can do what was asked for; otherwise the engine stops |
| `PostingsFile.WriteList` | JASSv1/atire_to_jass_index.c:516-586 | pointers, headers, a zero header, zeroes up to the alignment and data are appended to the file |
| `PostingsFile.SegmentIsAligned` | JASSv1/atire_to_jass_index.c:540-549 | the offset in every header is the first multiple of the alignment behind the headers or behind the segment before; without an alignment it is that very place |
| `PostingsFile.ListReads` | JASSv1/jass.c:122-128 | following the i-th pointer gives the i-th header, and its offsets give the i-th segment's bytes |
| `PostingsFile.NextImpactReads` | JASSv1/jass.c:575 | the impact of the header behind a segment's is the next impact, or zero behind the last |
| `EndToEnd.WriteIndex` | JASSv1/atire_to_jass_index.c:419-586 | the file is the byte of the mode and the lists of the terms one after the other, each at the place that the vocabulary says, with the segments of its postings, aligned; the indexer stops if and only if some segment does not fit in its buffer |
| `EndToEnd.LoadList` | JASSv1/jass.c:479-512 | the segments read through pointers and headers are those written if and only if the format is faithful to every one of them |
| `EndToEnd.ImpactsBehind` | JASSv1/jass.c:574-575 | the impacts read from the headers behind those of a term's segments are the next impacts, zero at the end |
| `EndToEnd.FullScoresAreNaive` | JASSv1/jass.c:479-547 | the sums over all segments are the sums of the impacts of the postings |
| `EndToEnd.NothingStops` | JASSv1/jass.c:522-530 | a budget for all postings stops nowhere |
| `EndToEnd.Answer` | JASSv1/jass.c:335-613 | for every index, query and k, if the format is faithful to the lists of the query's terms, the answer is the naive top k of the naive sums of impacts: the greater sum first and, of equal sums, the greater docid, min(k, scored documents) of them; the engine stops if and only if the index cannot be interleaved as asked |
| `EndToEnd.AnswerEarly` | JASSv1/jass.c:335-613 | the same with early termination, its bound read from the file: the answer is that at the first place where the order is settled, no document overtakes a reported one in the naive sums, and without an early end the answer is the naive top k |

## Left out

- File reading and writing, command lines, timers, statistics, TREC output and the Python and SWIG packaging. The postings file is a sequence of bytes.
- ATIRE's library and the JASS v2 classes behind `jass_query` and the deserialised index are not part of this model; postings come as a sorted sequence.
- The oracle stop on `rsv_at_k`, `top_up`, and the relative rho that is written to a shared field while threads run; the budget is fixed per query.
- The vocabulary and its binary search: a query is given as the terms found.
- The library's `qsort`: any order of the segments that the comparison accepts is a parameter.
- The fixed tables of the indexer and the search engine, such as 256 segments per term.
- The max-heap half of the heap, heap sort and `get_second_smallest`, which ranking does not use.
- The numerics of JASSv1/maths.h; scaling is over real numbers and truncates.
- The alignment that SIMD loads need, and the AVX2 and AVX-512 copies of the decoders, which do the same by other instructions.
- The file mode g, Gamma with variable bytes: the indexer can write it, the search engine does not read it. The codec is proved on words and lanes.
- Segments are decoded when a list is read, not when it is its turn; the sequence of `add_rsv` calls is the same.
- Delta.Codec.Encode: does not model a buffer in which payload and selectors meet, because the source does not look for that; payload and selector words are separate sequences, the selectors in the order in which they are written downwards.
- Delta.Codec.Decode: assumes one readable word below the selectors, which the source's layout always leaves.
- Qmx.Encode: does not model the size of the buffers, which the source does not look at. The same holds for QmxD4.Encode.
- QmxChoice.Promote: keeps the index of a length's type in place of the length; the sixteen lengths are in the same order as their types.
- QmxD4.Decode: models the bytes that the source reads behind the last block as 32 arbitrary bytes behind the encoding.
- PostingsFile.WriteList: does not model that the indexer stops if more than 22 bytes of padding are needed, which no alignment in use does; any alignment is allowed.
- Simple8b.Compress: does not model that the source looks at the end of the buffer only after writing a word behind it; whether it then fails is modelled.
- Simple8b.ChooseSelector: bit masks are sets of selectors, and the table of masks is a function of bits and offset.
- EliasBytes.EncodeDelta: does not model a buffer in which payload and selectors meet, like Delta.Codec.Encode; nor does Segments.Compress in mode D.
- Segments.Compress: does not cover the mode g, which the search engine does not read.
