# BenShu: verified models of its search index, chunker and small protocols

This project models the parts of BenShu whose correctness depends on several pieces of state staying
in step, and proves what they promise.

**The full-text index** (`Postings`, `SegmentLog`, `Corpus`, `Batches`, `Effects`, `Bm25`,
`Bm25Laws`, `EngineState`, `StoredScores`, `FtsEngine`, `Concurrency`). A document's forward record maps its terms to counts. Each term has a
posting list kept as a log of add/remove segments, folded into one segment when it would hold eight,
turned into a log on first write when it is still in the older list format, shadowed by a cache, and
accompanied by running corpus statistics. The simple thing all this must agree with is a *corpus*: a map
from document key to the bag of its terms, plus the number of deletions of token-free documents.

* `SegmentLog.Delta` is the effect of one `apply_term_delta` on storage; `DeltaDenotes` says what it means
  whatever path it takes.
* `index_batch` is modelled for repeated keys too, and those can leave a posting that no document justifies.
  `Effects.Effect` says what each operation does to a term's postings whatever they were, and `RunExactIff`
  gives the exact condition under which a whole run leaves the postings of the documents.
* The class `Fts.FtsEngine` has the engine's operations as methods over its tables. `Sound()` asks for
  well-formed logs, a cache equal to what storage gives, exact statistics, and every document posted under its
  terms; `Valid()` asks that nothing else be posted. Each operation moves the corpus by one abstract operation,
  moves every term by `Effect`, and keeps `Sound()`. `Serve` lifts this to any sequence of requests from any
  sound state, repeated keys and searches included.
* `search` is modelled with its cut-off at 5000 entries: `SearchExactIff` gives the exact condition under which
  it equals a brute-force scan. Its document frequency is the length of the stored list, so stale postings can
  turn scores negative: `ScoresAfterRunIff` says exactly when.
* `Concurrency` is the reader/writer protocol: reading statistics, cache lookup, storage read and cache fill are
  separate steps of a searcher, storage and cache updates separate steps of a writer, and entries may vanish
  from the cache at any moment. Coherence holds for writers that write anything at all; searches are
  linearizable, with brute-force scores, for writers that carry out operations.

**The chunker** (`Chunker`, `ChunkerProofs`). Overlapping windows cut back to sentence boundaries, trimmed
with exact offsets, small ones dropped.

**Smaller state machines and a codec.** The mutex-guarded token file (`TokenStore`), the once-only task-output
backfill of the panel (`Backfill`, with the order of its timestamps in `Timestamps`), the bounded
de-duplication shared by Telegram's webhook and polling
(`Dedup`), and the document-id codec (`DocIds`).

Modelling choices. Storage is a map and stored values are a datatype, so a term can never be mistaken for a
segment key and deserialization is a case distinction; storage calls succeed. The tokenizer, the natural
logarithm and the wall clock are arbitrary functions (the logarithm only has to be positive above
one, and for the sign of stored scores also negative below it). The
cache is a partial map from which any entry may disappear, which covers every LRU order and capacity.
Floating point is `real`; an average is kept as the quotient it was computed from. Ties in a ranking and hash
iteration order are left open. A `DateTime<Utc>` is printed as in
RFC 3339 with no, three, six or nine fraction digits, as few as it needs. Slicing a string inside a UTF-8 character is
an outcome of its own. Where the comment on `process_update` says that an update already seen is
always skipped, the code forgets after 10001 accepted ids; the model follows the code.

## Model

| member | source | states |
|---|---|---|
| `Totals.SumValues` | crates/engram/src/fts.rs:193 | the sum of a record's counts, independent of the hash order in which they are visited |
| `Corpora.CountTerms` | crates/engram/src/fts.rs:185-188 | the counting loop yields the bag of the tokens |
| `Corpora.BagLength` | crates/engram/src/fts.rs:182-193 | the stored counts add up to the number of tokens, so the length used on replacement is the length that was added |
| `Postings.CollectSorted` | crates/engram/src/fts.rs:358-359 | collecting a hash map and sorting by key gives the one sorted list of that map |
| `Postings.SortedListUnique` | crates/engram/src/fts.rs:359 | two sorted posting lists with the same entries are the same list, so hash order never shows |
| `Postings.AddAllKeeps` | crates/engram/src/fts.rs:353-355 | entries with distinct keys are all found in the replayed map |
| `SegmentLog.ReadListLists` | crates/engram/src/fts.rs:393-410 | in a well-formed table the list a reader gets holds the term's postings, each exactly once |
| `SegmentLog.PutSegmentExtends` | crates/engram/src/fts.rs:301-308 | a new segment key is never in use, and writing under it extends the log's meaning by one segment |
| `SegmentLog.MigrateOpens` | crates/engram/src/fts.rs:366-382 | finding or migrating a term's log keeps its postings and every other term's records |
| `SegmentLog.MigrationVisibleIff` | crates/engram/src/fts.rs:310-332 | migration keeps what an older list means, any delta gives the same table whether or not the list was migrated before, and a reader sees the same entries before and after if and only if it has one entry per document |
| `SegmentLog.CompactKeepsMeaning` | crates/engram/src/fts.rs:441-458 | compaction is invisible in the replayed map, leaves fewer than eight segments, and deletes every old segment record |
| `SegmentLog.CloseSettles` | crates/engram/src/fts.rs:460-472 | a term without postings leaves no record and no segment; otherwise its record is a version 1 state that names exactly its segments |
| `SegmentLog.DeltaDenotes` | crates/engram/src/fts.rs:413-473 | one delta removes, then adds, on the term's postings; other terms, well-formedness and the eight-segment bound are kept |
| `SegmentLog.DeltaMakesNoLegacy` | crates/engram/src/fts.rs:413-473 | no delta makes a record in the older format: each one left was there before, unchanged |
| `SegmentLog.LogLengthAfterDelta` | crates/engram/src/fts.rs:427-458 | a log grows by one segment per delta and is folded into one when it would reach eight |
| `EngineState.SegmentHasOneOwner` | crates/engram/src/fts.rs:325-329 | every segment record is named by the log of one term only |
| `EngineState.EmptyCorpusLeavesNothing` | crates/engram/src/fts.rs:460-468 | with no documents left, a term whose postings agree has no record, apart from an older list that was already empty in the starting table |
| `EngineState.RunToEmpty` | crates/engram/src/fts.rs:460-468 | after any run that deletes every document, the records left belong to terms with an unjustified posting or are older lists empty from the start; empty storage ends empty |
| `EngineState.ReopensIff` | crates/engram/src/fts.rs:139-147 | storage left by one engine is well formed for the next if and only if that one will not make a stored segment key again |
| `EngineState.ReusedKeyLosesPostings` | crates/engram/src/fts.rs:301-308 | if it does make the key of a term's only segment again, all postings the term had are lost |
| `EngineState.CoherentAfterDelta` | crates/engram/src/fts.rs:460-471 | after a delta every cached list is again what storage gives |
| `EngineState.HalfwayStep` | crates/engram/src/fts.rs:208-225 | between two deltas of one update, finished terms have what the operation makes of them and pending terms their old postings |
| `Effects.IndexDelta` | crates/engram/src/fts.rs:204-225 | per term, taking out the old entry and adding the new one is the operation's effect, whatever the postings were |
| `Effects.DeleteDelta` | crates/engram/src/fts.rs:554-565 | per term of the document, taking its entry out is the effect of deletion |
| `Effects.EffectAt` | crates/engram/src/fts.rs:177-283 | key by key: an operation naming key and term makes the posting right, or stale when a batch drops the term again; any other leaves it as right or stale as it was |
| `Effects.EffectExactIff` | crates/engram/src/fts.rs:177-283 | one operation takes every term from the old corpus's postings to the new one's if and only if it is not a batch with a stale term |
| `Effects.RunExactIff` | crates/engram/src/fts.rs:177-577 | over any run, a term's postings are those of the documents if and only if the last operation naming each key with it left it justified |
| `Effects.NamingRepairs` | crates/engram/src/fts.rs:204-225 | after any run, an operation naming the key with the term and not dropping it again leaves the right posting there |
| `Effects.OthersDoNotRepair` | crates/engram/src/fts.rs:551-565 | over any run that does not name the key with the term, deletions of the document included, a stale posting stays with the same entry |
| `EngineState.RunAgreesIff` | crates/engram/src/fts.rs:177-577 | after a run all tables agree if and only if it left no posting unjustified |
| `EngineState.CleanIsSpotless` | crates/engram/src/fts.rs:231-283 | from tables that agree, runs without stale batches leave none |
| `Corpora.IndexKeepsStats` | crates/engram/src/fts.rs:190-196 | removing the previous length and adding the new one gives the exact statistics of the new corpus |
| `Corpora.RemoveExact` | crates/engram/src/fts.rs:54-64 | the saturating subtraction never saturates and the last document takes the totals to zero |
| `Corpora.RemoveIs` | crates/engram/src/fts.rs:54-64 | for any statistics: nothing to remove from zero documents, one document fewer otherwise, and a length that stops at zero |
| `Corpora.DeleteKeepsStats` | crates/engram/src/fts.rs:544-571 | deletion updates the statistics exactly when the document had a token |
| `Corpora.StatsConserved` | crates/engram/src/fts.rs:45-65 | over any run the document count is the live documents plus the token-free deletions and average times count is the total; `Serve` states it of the stored record |
| `Corpora.DeleteUndoesIndexIff` | crates/engram/src/fts.rs:542-577 | deleting a document just added restores corpus and statistics if and only if it had a token |
| `Corpora.LastWriteWins` | crates/engram/src/fts.rs:177-228 | over any run a document is what the last operation that touched it made of it |
| `Corpora.UntouchedStays` | crates/engram/src/fts.rs:177-283 | a run never changes a document it does not name |
| `Corpora.BatchOrderIrrelevant` | crates/engram/src/fts.rs:231-283 | with distinct keys, any order of the same documents gives the same corpus |
| `Batches.BatchExactIff` | crates/engram/src/fts.rs:231-283 | from agreeing tables a batch leaves the postings of its documents if and only if no document in it has a term that the last document under its key lacks |
| `Effects.BatchIsOneByOneIff` | crates/engram/src/fts.rs:231-283 | from any postings covering the documents, a batch gives the corpus of indexing its documents one by one, and the same postings if and only if that holds |
| `Batches.DistinctHasNoStaleTerm` | crates/engram/src/fts.rs:237-274 | distinct keys are enough for that |
| `Batches.RepeatedKeyLeavesStalePosting` | crates/engram/src/fts.rs:260-280 | one key, first with a term and then without it, leaves a posting for a document that lacks the term |
| `Fts.FtsEngine.constructor` | crates/engram/src/fts.rs:139-147 | opens any storage with an empty cache and sequence one; the engine is sound, or valid, exactly when the storage is |
| `Fts.FtsEngine.ValidIsSound` | crates/engram/src/fts.rs:177-577 | agreement of the tables is enough for every operation |
| `Fts.FtsEngine.NextSegmentKey` | crates/engram/src/fts.rs:301-308 | the key is made of term, clock reading and sequence number, and the sequence advances |
| `Fts.FtsEngine.PostingStateFromLegacy` | crates/engram/src/fts.rs:310-332 | the older list becomes one segment and a log that names it |
| `Fts.FtsEngine.MaterializePostingState` | crates/engram/src/fts.rs:341-364 | the replay loop returns the sorted list of the replayed map, skipping missing segments |
| `Fts.FtsEngine.GetOrMigratePostingState` | crates/engram/src/fts.rs:366-382 | returns the term's log, migrated if needed, with all other records untouched |
| `Fts.FtsEngine.GetPostingListInternal` | crates/engram/src/fts.rs:385-411 | hit or miss, the list returned is what storage gives, and the cache stays coherent |
| `Fts.FtsEngine.ApplyTermDelta` | crates/engram/src/fts.rs:413-473 | storage after the call is `Delta` of storage before it, and the cache holds the term's new list or nothing |
| `Fts.FtsEngine.IndexDocument` | crates/engram/src/fts.rs:177-228 | from any sound state the corpus gains or replaces the document, every term moves by the operation's effect, no older record appears, and agreement is kept |
| `Fts.FtsEngine.IndexBatch` | crates/engram/src/fts.rs:231-283 | forward records and statistics are those of indexing in order, each term's postings are given exactly, and from agreeing tables they agree again if and only if the batch has no stale term |
| `Fts.FtsEngine.DeleteDocument` | crates/engram/src/fts.rs:542-577 | from any sound state the corpus loses the document, its terms lose its posting, agreement is kept, token-free documents included |
| `Fts.FtsEngine.UnindexTerms` | crates/engram/src/fts.rs:551-565 | even beside stale postings the length picked up from the first posting found is the document's length |
| `Fts.FtsEngine.Search` | crates/engram/src/fts.rs:476-539 | the results are a top-`limit` of the scores over the stored entries looked at, none at all without counted documents, and of the brute-force scores when the query's terms agree with the documents and none has more than 5000 postings |
| `Fts.FtsEngine.Serve` | crates/engram/src/fts.rs:177-577 | any sequence of requests folds the operations over the corpus, gives every term the postings of the run, agrees exactly when nothing stale was left, answers each search with a top-`limit` of the scores over tables of its moment (brute-force scores of that moment's corpus when its terms are spotless and within 5000 postings), keeps count, length and average of the stored statistics exact, and leaves no record once every document is deleted |
| `EngineState.SearchExactIff` | crates/engram/src/fts.rs:504-511 | the engine's scores are the brute-force scores if and only if no query term has more than 5000 postings |
| `EngineState.LookedAtAreFirst` | crates/engram/src/fts.rs:507-511 | of a longer list the first 5000 entries are looked at, which in a log are those with the smallest document keys |
| `EngineState.AccumulatedIsKept` | crates/engram/src/fts.rs:494-522 | adding one more query term's entries to the scores so far gives the scores with that term |
| `Fts.AddContributions` | crates/engram/src/fts.rs:513-521 | the inner loop of a search adds each entry's contribution to its document's score |
| `EngineState.AddTermExtends` | crates/engram/src/fts.rs:494-522 | one turn with the list storage gives extends the engine's scores by the term |
| `Bm25.TermScoreBounds` | crates/engram/src/fts.rs:482-520 | in every corpus with positive counts, for the brute-force reference: the logarithm's argument is above one, the 100.0 fallback is unused, and a contribution lies strictly between 0 and idf * (k1 + 1) |
| `Bm25Laws.DenominatorAtAverage` | crates/engram/src/fts.rs:517-518 | a document of average length adds 1.2 to the term frequency |
| `Bm25Laws.DenominatorSlope` | crates/engram/src/fts.rs:517-518 | each further token adds 0.9 over the average length |
| `Bm25Laws.LongerScoresLower` | crates/engram/src/fts.rs:514-519 | of two documents with the same count of a term the longer scores strictly lower |
| `Bm25Laws.IdfArgumentIs` | crates/engram/src/fts.rs:502 | argument times (df + 0.5) is the document count plus one |
| `Bm25Laws.RarerIsHeavier` | crates/engram/src/fts.rs:502 | the rarer of two terms has the larger argument |
| `Bm25Laws.OneTermScore` | crates/engram/src/fts.rs:494-521 | a one-term query scores exactly the documents that have the term, by the BM25 equation with its numbers written out over counts, lengths and frequencies |
| `Bm25Laws.BruteScoresAdd` | crates/engram/src/fts.rs:494-521 | a query's scores add up from those of its parts, repeated terms counting again |
| `Bm25.ReferenceScoresAfterRun` | crates/engram/src/fts.rs:482-520 | the same for the reference after any run, with the average being exactly total length over document count |
| `Bm25.IdfArgumentIff` | crates/engram/src/fts.rs:502 | the logarithm's argument is always positive, and above one exactly when there are no more entries than counted documents |
| `StoredScores.AverageUsedIff` | crates/engram/src/fts.rs:484-488 | the stored average is used, and not the 100.0 fallback, if and only if some live document has a token |
| `StoredScores.StoredScoreIff` | crates/engram/src/fts.rs:482-520 | from what is stored, a live document's contribution is positive and below idf * (k1 + 1) if and only if the term has no more stale postings than there are counted documents without it, and negative otherwise |
| `StoredScores.ScoresAfterRunIff` | crates/engram/src/fts.rs:482-520 | the same after any run, the stale postings being those the run left unjustified |
| `StoredScores.SpotlessScores` | crates/engram/src/fts.rs:482-520 | for a term without unjustified posting every stored entry scores within the bounds and the fallback is unused |
| `StoredScores.StaleCanTurnScoresNegative` | crates/engram/src/fts.rs:496-520 | a run of three operations after which the only live document has a negative score for its term |
| `StoredScores.StaleCanUseFallback` | crates/engram/src/fts.rs:484-488 | a batch after which a posted document is scored with the fallback |
| `Bm25.FrequencyAtMostDocs` | crates/engram/src/fts.rs:496-502 | document frequency never exceeds the document count |
| `Bm25.KeptAtMostScan` | crates/engram/src/fts.rs:507-521 | pruning lowers a score, strictly when it drops an entry of the document |
| `Bm25.Rank` | crates/engram/src/fts.rs:524-537 | sorted by descending score, distinct, from the score table, and nothing left out scores higher |
| `Concurrency.StepKeeps` | crates/engram/src/fts.rs:385-472 | every step the lock permits, whatever a writer writes, keeps storage in order, the cache coherent and each searcher's lists and statistics current |
| `Concurrency.EveryRunIsCoherent` | crates/engram/src/fts.rs:385-472 | over every interleaving and for every writer: with no writer inside the cache is coherent, and the statistics and lists a searcher used are those stored when it took the lock |
| `Concurrency.EverySearchSeesOneCorpus` | crates/engram/src/fts.rs:476-495 | for writers that carry out operations: each searcher's view is the sequential run of the writes completed before it entered, and a list it used holds the postings of that corpus if and only if the run left none of the term's unjustified |
| `Concurrency.ConcurrentSearchIsExact` | crates/engram/src/fts.rs:476-522 | the scores a searcher adds up beside any other tasks are the engine's scores of what it entered with, and the brute-force scores of that corpus when its terms are spotless and within 5000 postings |
| `Concurrency.SearchCanFinish` | crates/engram/src/fts.rs:476-495 | with no writer inside any query can be run to its end, finding the stored statistics and lists |
| `Concurrency.LateFillIsStale` | crates/engram/src/fts.rs:401-403 | a list fetched before a change and cached after it is always wrong, which is what the lock prevents |
| `Concurrency.IndexDocumentFits` | crates/engram/src/fts.rs:190-225 | beginning, term loop and end of indexing are steps of a writer that carries out its operation |
| `Concurrency.DeleteDocumentFits` | crates/engram/src/fts.rs:542-577 | so are those of deletion, of a stored document or an unknown key |
| `Concurrency.IndexBatchFits` | crates/engram/src/fts.rs:231-283 | so are those of a batch, repeated keys included, with the statistics folded document by document |
| `Concurrency.UpdateCanFinish` | crates/engram/src/fts.rs:177-283 | with nobody inside any update can be run to its end by proper steps, leaving its corpus, statistics and log entry |
| `Concurrency.IndexCanFinish` | crates/engram/src/fts.rs:177-228 | so can the indexing of any document |
| `Chunking.ChunkBuilder.SmartTrim` | crates/engram/src/chunker.rs:51-67 | text and both offsets move by the same whitespace counts |
| `Chunking.TrimPositions` | crates/engram/src/chunker.rs:51-67 | in the coordinates of the whole text, only whitespace is trimmed and the trimmed slice begins and ends visibly |
| `Chunking.FindWindow` | crates/engram/src/chunker.rs:112-127 | the backward scan finds the window |
| `Chunking.ChunkLoop` | crates/engram/src/chunker.rs:108-163 | the loop ends for every configuration, never takes its safety branch, emits the kept windows' chunks and counts the natural ones |
| `Chunking.ChunkText` | crates/engram/src/chunker.rs:96-178 | the chunks with their count, natural splits and average size |
| `ChunkingTheorems.WindowIs` | crates/engram/src/chunker.rs:112-127 | where a window ends and when it is natural, without reference to the scan |
| `ChunkingTheorems.WindowsFollow` | crates/engram/src/chunker.rs:108-163 | the first window starts at zero and each next one the overlap before the last one's end, but always further on |
| `ChunkingTheorems.EndsNeverMoveBack` | crates/engram/src/chunker.rs:111-163 | start < next start <= end <= next end, despite boundary look-back |
| `ChunkingTheorems.SharedPrefix` | crates/engram/src/chunker.rs:150-155 | consecutive windows share exactly min(overlap, length - 1) characters |
| `ChunkingTheorems.WindowsOrdered` | crates/engram/src/chunker.rs:111-163 | over the whole text starts increase and ends never decrease |
| `ChunkingTheorems.WindowCountBound` | crates/engram/src/chunker.rs:108-163 | (windows - 1) * max(1, size - overlap - look-back) is below the text length, for every configuration |
| `ChunkingTheorems.WindowsRebuildText` | crates/engram/src/chunker.rs:111-163 | the windows without their shared prefixes are the text |
| `ChunkingTheorems.WindowsCoverIff` | crates/engram/src/chunker.rs:111-163 | every position is in some window if and only if the chunk size is positive |
| `ChunkingTheorems.ChunksOrdered` | crates/engram/src/chunker.rs:129-148 | chunks are numbered 0, 1, 2, ..., equal the slice between their offsets, and offsets never go down |
| `ChunkingTheorems.ChunksDescribe` | crates/engram/src/chunker.rs:111-148 | every chunk is its window without surrounding whitespace, is worth keeping, and is marked natural exactly when the window reaches the end of the text or a boundary lies within look-back |
| `ChunkingTheorems.WindowEmittedIff` | crates/engram/src/chunker.rs:138-148 | a window gives a chunk exactly when the minimum size, or at the end of the text anything, is left of it |
| `ChunkingTheorems.NaturalCountIs` | crates/engram/src/chunker.rs:143-145 | the natural splits are the chunks marked natural |
| `ChunkingTheorems.MeanSizeIs` | crates/engram/src/chunker.rs:165-169 | the average size times the number of chunks is what their offsets span, and zero without chunks |
| `ChunkingTheorems.ShortTextIsOneChunk` | crates/engram/src/chunker.rs:124-148 | a text that fits into one window, with nothing to trim, is one natural chunk of itself |
| `ChunkingTheorems.BoundaryCharacters` | crates/engram/src/chunker.rs:88 | the ten boundary characters |
| `ChunkingTheorems.TrimIs` | crates/engram/src/chunker.rs:51-67 | trimming leaves all from the first visible character to the last |
| `ChunkingTheorems.VisibleKeptIff` | crates/engram/src/chunker.rs:138-148 | a visible character is in the output if and only if a window covering it is large enough after trimming or is the last |
| `ChunkingTheorems.NothingVisibleLost` | crates/engram/src/chunker.rs:140-148 | with a minimum size of at most one no visible character is lost |
| `TokenStore.StepKeeps` | crates/auth/src/store.rs:56-74 | every step of every task keeps file, in-memory maps and lock order consistent |
| `TokenStore.NoLostUpdates` | crates/auth/src/store.rs:56-74 | for any tasks and interleaving, the final file is the fold of the finished changes in lock order, each finished task counted once |
| `TokenStore.FinishedChangeSurvives` | crates/auth/src/store.rs:56-74 | a finished change is in the final file unless a task that got the lock later changed the same provider |
| `TokenStore.SoloCall` | crates/auth/src/store.rs:56-74 | the steps of one uninterrupted call end with the mutex free and exactly the effect its caller asked for |
| `TokenStore.InTurnKeepsSecondOnly` | crates/auth/src/store.rs:57-61 | two calls run step by step in turn without the mutex both succeed and leave the second change only; with it the interleaving is impossible |
| `TokenStore.UnlockedWritesLoseTokens` | crates/auth/src/store.rs:57-61 | so two overlapping saves can end in a file without the first token, which no order of the two gives |
| `TokenStore.FileTokenStore.SaveToken` | crates/auth/src/store.rs:56-62 | afterwards the token is found and every other provider's token is as it was, whether the file was missing, unreadable or held a map |
| `TokenStore.FileTokenStore.DeleteToken` | crates/auth/src/store.rs:69-74 | afterwards no token is found and every other provider's token is as it was |
| `TokenStore.EffectedIff` | crates/auth/src/store.rs:35-74 | what a caller sees of a change determines the whole file |
| `TokenStore.FoundIff` | crates/auth/src/store.rs:35-42 | a token is found exactly when the file holds a map that has it; a missing or unreadable file has none |
| `Backfill.PickIsLatest` | apps/panel/src/app_state.rs:2970-2978 | a task is picked exactly when one is eligible, and no eligible one has a later `updated_at` in text order |
| `Timestamps.TextOrderIsTimeOrderIff` | apps/gateway/src/api/handlers/chat.rs:5816 | comparing two printed moments as text compares them as times if and only if they are not of one second with one fraction, possibly none, a proper beginning of the other |
| `Timestamps.CutsShortReverses` | apps/gateway/src/api/handlers/chat.rs:5816 | in that case the earlier moment has the later text |
| `Timestamps.TextIs` | apps/gateway/src/api/handlers/chat.rs:5816 | a moment is printed as date, T, time of day and fraction |
| `Timestamps.FractionIs` | apps/gateway/src/api/handlers/chat.rs:5816 | the fraction has the fewest of three, six and nine digits that lose nothing |
| `Backfill.PickIsLatestInTimeIff` | apps/panel/src/app_state.rs:2970-2978 | the picked task is the latest in time if and only if no eligible task's printed moment is cut short against the latest one's in that way |
| `Backfill.FractionSortsFirst` | apps/panel/src/app_state.rs:2977 | an input on which it is not: a time with a fraction sorts before the whole second it follows |
| `Backfill.PickIsLastOfEqual` | apps/panel/src/app_state.rs:2977 | among tasks with equal `updated_at` the last of the list is picked |
| `Backfill.PushKeepsNewest` | apps/panel/src/app_state.rs:2374-2384 | a history keeps its newest hundred messages in order, the pushed one last, and no other history changes |
| `Backfill.PushedIsRecognisedIff` | apps/panel/src/app_state.rs:3066-3082 | whatever the history held, the content check recognises an output just pushed if and only if its text was short enough to be stored whole |
| `Backfill.CompactIs` | apps/panel/src/app_state.rs:5884-5903 | a text of up to 12000 characters is kept, and of a longer one the first 8000 and the last 2000 around a note |
| `Backfill.DecimalIs` | apps/panel/src/app_state.rs:5900-5902 | the length in the note reads back as that number |
| `Backfill.AtMostOncePerTask` | apps/panel/src/app_state.rs:2963-3064 | over any run no task is fetched or pushed twice, the pending fields are set together, and every fetch is resolved or the one under way |
| `Backfill.StartsIff` | apps/panel/src/app_state.rs:2963-3000 | with no fetch under way, one starts exactly when the list has an open task |
| `Backfill.ResolvedFetchShrinksOpen` | apps/panel/src/app_state.rs:3002-3064 | for a fixed list each resolved fetch, failed or not, leaves exactly one open task fewer |
| `Backfill.RoundsDrain` | apps/panel/src/app_state.rs:2963-3064 | as many rounds as there are open tasks leave none |
| `Backfill.StartedIs` | apps/panel/src/app_state.rs:2963-3000 | a start fetches a task of this session's thread, named foreground_chat_supervisor, in one of the five final states and not fetched before, exactly when there is one and no fetch is under way |
| `Backfill.FetchesAreOwn` | apps/panel/src/app_state.rs:2963-3000 | over any run every fetch is of such a task, of the session whose start fetched it |
| `Backfill.ChatPanel.MaybeStartBackfill` | apps/panel/src/app_state.rs:2963-3000 | the fields change by the start step of the state machine, and a new fetch is of a supervisor task of the session that was not fetched before |
| `Backfill.PollIs` | apps/panel/src/app_state.rs:3002-3064 | a resolved fetch marks its task and can change only the history of the session it was started in, where a text no agent message has yet is appended as an agent message of the task |
| `Backfill.OutputGoesHome` | apps/panel/src/app_state.rs:3014-3050 | over any run, what a poll pushes goes into the history of the session whose start fetched it and nowhere else |
| `Backfill.PollWithoutSession` | apps/panel/src/app_state.rs:3016-3023 | without a session of its own an output goes to its thread's, and else to the active one |
| `Backfill.PollWaits` | apps/panel/src/app_state.rs:3003-3009 | an unresolved fetch, or none, changes nothing |
| `Backfill.ChatPanel.PollBackfill` | apps/panel/src/app_state.rs:3002-3064 | the fields change by the poll step of the state machine, and no history changes but the pending session's |
| `Backfill.ChatPanel.HistoryContains` | apps/panel/src/app_state.rs:3066-3082 | true exactly when an agent message has the same trimmed text |
| `Dedup.SeenUpdates.Process` | crates/connectors/src/telegram.rs:92-102 | the set and the verdict change by the de-duplication step |
| `Dedup.SeenUpdates.ProcessAll` | crates/connectors/src/telegram.rs:288-340 | webhook and polling updates in any order leave the set and accepted ids that the theorems speak of |
| `Dedup.SeenIsCurrent` | crates/connectors/src/telegram.rs:92-102 | the seen set is exactly the ids accepted since it was last emptied, all different, and its size is the accepted count mod 10001 |
| `Dedup.RepeatsAreRoundsApart` | crates/connectors/src/telegram.rs:92-102 | between two acceptances of one id there is a moment at which the shared set was empty |
| `Dedup.AcceptedAtMost` | crates/connectors/src/telegram.rs:92-102 | an id is accepted at most 1 + accepted / 10001 times in any interleaving |
| `Dedup.RejectedIff` | crates/connectors/src/telegram.rs:94-97 | an update is turned away if and only if its id was accepted since the last emptying |
| `Dedup.FullRoundForgets` | crates/connectors/src/telegram.rs:97-101 | after any 10001 different ids every update is accepted, a repeated one included |
| `Dedup.SeenIdGetsThrough` | crates/connectors/src/telegram.rs:92-102 | an input on which an id gets through twice: 0 to 10000 and then any of them again |
| `DocIds.FromHex` | crates/engram/src/content_hash.rs:29-47 | for any text: cleaning, the length errors in bytes, the loop over two-byte slices, its format error and its panic |
| `DocIds.HashIgnored` | crates/engram/src/content_hash.rs:30 | one more '#' in front makes no difference to parsing, validation or normal form |
| `DocIds.BlankBehindIgnored` | crates/engram/src/content_hash.rs:30 | nor does whitespace behind |
| `DocIds.BlankInFrontIgnoredIff` | crates/engram/src/content_hash.rs:30 | whitespace in front makes no difference if and only if no '#' follows it |
| `DocIds.EmptyIff` | crates/engram/src/content_hash.rs:31-33 | the error for an empty input comes exactly for '#' and then whitespace only |
| `DocIds.LengthMismatchIff` | crates/engram/src/content_hash.rs:34-39 | the length error gives the bytes there are, exactly when there are some but fewer than twelve |
| `DocIds.ParsedExample` | crates/engram/src/content_hash.rs:41-46 | the twelve digits 0123456789ab are the six bytes they spell, higher digit first |
| `DocIds.WidthIs` | crates/engram/src/content_hash.rs:34 | bytes of a character in UTF-8 |
| `DocIds.FromHexPanicsIff` | crates/engram/src/content_hash.rs:42-44 | parsing panics if and only if the pairs before parse and the next two bytes cut a character |
| `DocIds.WideCharacterPanics` | crates/engram/src/content_hash.rs:43 | an input on which it does |
| `DocIds.ValidatePanicsIff` | crates/engram/src/content_hash.rs:122-125 | validation panics if and only if there are twelve bytes and the twelfth is not the last of its character |
| `DocIds.GetDocIdPanicsIff` | crates/engram/src/content_hash.rs:50-58 | taking the id of a hash panics if and only if the twelfth byte splits a character or the first twelve bytes, with nothing to clean away, cut a character while parsing |
| `DocIds.ValidIsHex` | crates/engram/src/content_hash.rs:122-125 | validation, by bytes, accepts exactly the texts whose first twelve characters are hex digits |
| `DocIds.Print` | crates/engram/src/content_hash.rs:61-69 | the loop prints two lower-case digits per byte |
| `DocIds.ParsePrinted` | crates/engram/src/content_hash.rs:29-69 | parsing a printed id gives the same six bytes |
| `DocIds.ValidIff` | crates/engram/src/content_hash.rs:117-125 | an input is valid if and only if it parses and prints back to its normal form |
| `DocIds.PlusSignParses` | crates/engram/src/content_hash.rs:43-44 | the parser also accepts a plus sign in place of a leading zero, which validation rejects |
| `DocIds.DocIdOfHash` | crates/engram/src/content_hash.rs:95-110 | the id of a lower-case hex hash is its first twelve digits, valid and already normal |
| `DocIds.ShortHashIsKept` | crates/engram/src/content_hash.rs:95-110 | a hash of fewer than twelve bytes comes back whole |
| `DocIds.UnparsedHashIsCut` | crates/engram/src/content_hash.rs:95-110 | one that does not parse is cut to its first twelve characters |
| `DocIds.NormalizedIsFixed` | crates/engram/src/content_hash.rs:117-120 | normalizing a valid id twice is normalizing it once |

## Left out

- Jieba segmentation, stopwords, bincode layout, redb and SHA-256 are foreign libraries; the model is parametric in them.
- Integer widths: token counts are assumed to fit `u32` and totals `u64`; numbers are unbounded here.
- Storage errors and crashes inside one operation: the statements are about completed operations.
- That the wall clock never repeats a stored reading after reopening is a condition (`ReopensIff`), not a conclusion.
- Timestamps of years beyond 9999, which are printed with a sign.
- Exact floating-point rounding and the order of ties.
- Least-recently-used order and the capacity of 1000: any entry may vanish from the cache instead.
- A failed or partial write of the token file, and unlocked reads in `get_token` that overlap a save.
- The text of chat messages other than role, content and task id, and the loading of histories from the server, which is an arbitrary replacement of them here.
- Backfill.PushedIsRecognisedIff: the wording of the truncation note is shortened; only its length matters.
- Telegram message parsing, the allowed-chat filter and the polling offset.
- Lower-casing of characters beyond ASCII is an arbitrary function.
- The rest of the panel, gateway, connectors, image services, OAuth flow, hybrid search, embeddings and scripts: user interface, network and process plumbing.
