# University assistant: verified models

The repository is a retrieval-augmented assistant for a university: it chunks documents, embeds them, stores them
in tables, retrieves them by fusing a vector search with a keyword search, and answers over chat with sessions,
settings, guardrails and refresh tokens. This project models the parts of it whose correctness does not follow from
reading one function, and proves what they promise.

`dafny verify dfyconfig.toml` checks everything. One module a file:

- `Text`, `Chunks`: Python's strings as sequences of characters (strip, find, split, join), the chunker's
  configuration and its chunks. The *ink* of a text is its characters that are not white space, in order.
- `Splitter`, `Offsets`, `Sections`, `SemanticChunker`: the overlapping window splitter, the pass that recovers
  offsets, and the structure-aware chunker around them, for every behaviour of its language model.
- `Paragraphs`, `Packer`, `SimpleChunker`: splitting on blank lines, greedy packing, and the simple chunker's loop.
- `Fusion`, `Ranking`, `Confidence`: reciprocal rank fusion with exact scores, its ranking, and the confidence gate.
- `Ingest`, `IngestRuns`, `IngestFaults`, `IngestService`, `BucketIngest`: the chunk-level diff as an ordered list of
  writes of which any number may land; whole runs with faults, and which documents they leave complete; the service
  over a mutable database with a fault at any call; the keyword index; and passes over whole buckets.
- `Settings`, `Caching`, `Embedder`: a time-to-live cache with overlapping readers, a bounded recency cache with its
  memo wrapper, and batching with retries.
- `SessionMemory`: the in-process and the Redis session store against one window of the session's log.
- `Provenance`, `Guardrails`, `Tokens`, `AuthRouter`: metadata hidden in message text, leak scrubbing and redaction,
  and the life cycle of refresh tokens.

Code that changes state is a class or a method with loops, and is proved equal to a specification: a function, or a
predicate that has one solution. What the source promises is then proved of the specification.

Results that came out false as first expected are stated with the exact condition under which they hold:

- `Splitter.HaltsExactly`: the validated configuration does not guarantee that the splitter ends.
- `Offsets.RecordedExactly`, `Offsets.RecordsTrulyExactly`: recorded offsets are the true ones only without overlap,
  or for a text that fits one chunk.
- `Splitter.RebuildsExactly`: with a negative overlap, which is accepted, text is lost between the chunks.
- `SemanticChunker.LosslessExactly`, `SemanticChunker.DocumentLossless`: a group below the minimum size is dropped,
  text and all, unless every group is.
- `IngestFaults.CompleteSince`, `IngestRuns.RetryExactly`: a fault after the hash write, or inside a deletion, leaves a
  document incomplete, and a retry with the same content is then skipped (`IngestFaults.RetrySkipped`).
- `IngestService.IngestExactly`, `IngestService.IndexExactRun`: an update that drops rows and embeds nothing leaves
  their ids in the keyword index (`IngestService.StaleIndex`). The module's description says the index is refreshed
  after every successful ingest; the code returns before that, and the model follows the code.
- `BucketIngest.SecondPassSettled`: two buckets with the same key and different contents overwrite each other on
  every pass.
- `Ranking.BothFirstExactly`, `Confidence.GateAgreesExactly`: how deep the legs may be, and that for legs of at most
  n keyword rows exactly the limits above min(n, 2k - 1) keep the top vector hit.
- `Settings.BoundedExactly`: a failed read restamps the cache, so the bound holds by the time since the last committed
  read and not by the stamp.
- `Provenance.ReplyExactly`, `Provenance.MetadataExactly`: when decoding undoes encoding.
- `Guardrails.ApplyOutput`: the language model's conversion comes after the scrubbing, which is not repeated.
- `Settings.UpdateReturnsOwn`: an update whose forced read fails has written the row and returns the old config.
- `SessionMemory.BackendsAgree`: the two stores differ once turns that the window needs have expired.
- `AuthRouter.AuthStore.ForgotPassword`: the handler is documented to hide which users exist; its answer tells.

## Model

| member | source | states |
|---|---|---|
| Text.SpaceExactly | ingestion/chunker.py:492-501 | strip and the class of white space take the same 29 characters |
| Splitter.LastStop | ingestion/chunker.py:374-378 | the backward search finds the last sentence end in its range, or there is none |
| Splitter.WindowEnd | ingestion/chunker.py:369-378 | the search loop closes a window just after the last sentence end beyond the reach, else at its full size |
| Splitter.WindowEndsExactly | ingestion/chunker.py:374-378 | a window that the text outlasts ends just after the last of . ! ? and line feed among its last 200 characters and beyond min_chunk_size, or at its full size when there is none |
| Splitter.StopEndsFirst | ingestion/chunker.py:374-380 | the one sentence end of a text, whichever of the four it is, ends the first chunk |
| Splitter.SimpleSplit | ingestion/chunker.py:356-387 | on every text on which the loop ends, it returns the windows of the declarative split, each opening one overlap before the last one's end |
| Splitter.SplitUnique | ingestion/chunker.py:356-387 | the declarative split has one solution, so it determines the chunks |
| Splitter.SplitRebuilds | ingestion/chunker.py:366-387 | the first chunk and every later one without its first overlap characters give back the text |
| Splitter.RebuildsExactly | ingestion/chunker.py:366-387 | every text can be rebuilt if and only if the overlap, which may be negative, is not |
| Splitter.SplitBounds | ingestion/chunker.py:366-387 | for a positive chunk size no chunk is empty or longer than chunk_size + 1; there are at most (len - 1) / p + 1 of them, p the least progress |
| Splitter.StrideReached | ingestion/chunker.py:374-385 | the least progress between two windows is reached by a text of every configuration that ends |
| Splitter.HaltsExactly | ingestion/chunker.py:44-49 | an accepted configuration, negative overlaps included, ends on every text if and only if overlap < max(min_chunk_size, chunk_size - 200) + 2 |
| Splitter.StuckForever | ingestion/chunker.py:369-385 | otherwise a text with one sentence end at the overlap is never finished |
| Splitter.DefaultsHalt | ingestion/chunker.py:37-49 | the defaults end on every text; 300/102/100 is accepted and does not |
| Offsets.CreateChunkObjects | ingestion/chunker.py:405-452 | each chunk is recorded at its leftmost occurrence after the one before, or right after it, stripped, with its index, the total, and a token for every four characters |
| Offsets.RecordedApart | ingestion/chunker.py:419-452 | recorded spans are increasing and disjoint, for any chunks |
| Offsets.RecordedDrift | ingestion/chunker.py:419-452 | the record of chunk i starts at least i overlaps past its true start |
| Offsets.RecordedExactly | ingestion/chunker.py:419-452 | for an overlap that is not negative the recorded offsets are the true ones if and only if it is 0 or the text fits the chunk size |
| Offsets.RecordsTrulyExactly | ingestion/chunker.py:419-452 | an accepted configuration, negative overlaps included, records true offsets on every text if and only if its overlap is 0 |
| Offsets.DefaultsMisplace | ingestion/chunker.py:419-452 | under the defaults 1001 letters make two windows, the second truly at 800 and recorded at 1000 or more |
| Offsets.RecordedTile | ingestion/chunker.py:389-452 | without overlap the records tile the document and slice back to the chunks as cut |
| Sections.SplitOnStructure | ingestion/chunker.py:219-251 | the two loops split by each pattern in turn and drop the blank parts |
| Sections.PartsOfLengths | ingestion/chunker.py:242-246 | any way of cutting a section into parts is a split of it |
| Sections.InkedExactly | ingestion/chunker.py:247 | the parts that are not blank are kept, in order |
| Sections.StructureKeeps | ingestion/chunker.py:219-251 | sections keep all ink of the document in order, and none is blank |
| Sections.SplitLongSection | ingestion/chunker.py:285-354 | on every section on which it ends: the model's valid parts, or the window split if it was not asked or gives none |
| Sections.ModelPartsExactly | ingestion/chunker.py:295-342 | of any reply the parts between its separators are kept, stripped, in order, if they have between min_chunk_size and max_chunk_size characters; a table or a section over 20000 characters is not asked about |
| Sections.ReplyObeyed | ingestion/chunker.py:324-342 | chunks that keep to the instructions, joined by the separator, are used as they are |
| Sections.LongUnder | ingestion/chunker.py:324-342 | whatever the model answers, the parts of a long section stay under the ceiling, and there is one wherever its splitting ends |
| SemanticChunker.KeptLossless | ingestion/chunker.py:213-217 | the minimum-size filter keeps all ink if and only if no group is short |
| SemanticChunker.KeptExactly | ingestion/chunker.py:213-217 | the filter keeps the groups of at least min_chunk_size characters, in order |
| SemanticChunker.SemanticChunk | ingestion/chunker.py:170-217 | wherever no over-long section is split without end, the loop makes the groups of the sections, and the filter drops the short ones |
| SemanticChunker.ChunksInBounds | ingestion/chunker.py:213-217 | for every reply each chunk has at least min_chunk_size characters between its white space and is under the ceiling |
| SemanticChunker.GroupsKeep | ingestion/chunker.py:184-211 | with no over-long section the groups keep all ink, and none is blank |
| SemanticChunker.GroupsPlain | ingestion/chunker.py:200-206 | with no over-long section the groups depend on the sections and sizes only |
| SemanticChunker.GroupsOptimal | ingestion/chunker.py:180-211 | with no over-long section the groups are runs of sections joined by blank lines, each one section or within chunk_size, and as few as in any such grouping |
| SemanticChunker.LosslessExactly | ingestion/chunker.py:170-217 | with no over-long section nothing is lost if and only if the sections make no short group |
| SemanticChunker.DocumentLossless | ingestion/chunker.py:84-217 | with no over-long section a document loses text if and only if the semantic pass is tried and timely and some of its groups, but not all, are short |
| SemanticChunker.GreetingDropped | ingestion/chunker.py:213-217 | under the defaults the sections "Hi" and one of 1500 letters lose the first |
| SemanticChunker.ChunkDocument | ingestion/chunker.py:84-168 | on every document on which it ends: nothing for blank text; the window split for tables, without semantic splitting, for at most chunk_size or at least 500000 characters, and when the pass is late or finds nothing; else what the pass finds; recorded in order |
| SemanticChunker.ProgressEnds | ingestion/chunker.py:84-168 | that is every document when the configuration's window splits all end |
| SemanticChunker.ChunksOfBounds | ingestion/chunker.py:84-168 | on every document on which it ends, no chunk exactly for blank text, and none over the ceiling, whatever patterns, model and clock do |
| Paragraphs.ParagraphsClean | ingestion/chunker.py:491-499 | paragraphs are stripped, not empty, and have no blank line inside |
| Paragraphs.ParagraphsRoundTrip | ingestion/chunker.py:491-499 | joining such paragraphs by blank lines and splitting again gives the same paragraphs |
| Paragraphs.ParagraphsKeepInk | ingestion/chunker.py:491-499 | splitting into paragraphs drops white space only |
| Packer.PackGroups | ingestion/chunker.py:495-535 | the loop's groups are an order-preserving grouping in which every group fits or is one paragraph |
| Packer.StaysAhead | ingestion/chunker.py:495-535 | from any point on, the greedy loop needs no more groups than a rival with as much still to place |
| Packer.PackingOptimal | ingestion/chunker.py:491-543 | no grouping of the paragraphs into groups that fit has fewer groups |
| Packer.PackingMaximal | ingestion/chunker.py:501-527 | no chunk could also take the first paragraph of the next one |
| SimpleChunker.ChunkDocument | ingestion/chunker.py:462-549 | the loop lists exactly the greedy groups, with their indices, recorded positions and total |
| SimpleChunker.SetTotals | ingestion/chunker.py:545-547 | every chunk is told the final number of chunks, and keeps the rest |
| SimpleChunker.ContentsAreGroups | ingestion/chunker.py:551-566 | stripping a chunk changes nothing |
| SimpleChunker.PositionsExactly | ingestion/chunker.py:504-548 | chunk i is the joined group i with a token for every four characters; it is recorded one overlap before the end of the one before, or at its start if that is no longer than the overlap |
| SimpleChunker.ChunkingRoundTrip | ingestion/chunker.py:491-549 | the chunks joined by blank lines are the paragraphs joined by blank lines, and split into the same paragraphs |
| SimpleChunker.RechunkingFixed | ingestion/chunker.py:462-549 | chunking what was chunked gives the same chunks |
| SimpleChunker.ChunkingKeepsInk | ingestion/chunker.py:462-549 | chunking loses no ink |
| SimpleChunker.ChunkingOptimal | ingestion/chunker.py:491-543 | the returned chunks are as few as any grouping that fits allows |
| Fusion.Fuse | agent/retriever.py:168-207 | the dictionary loops, sort and slice return the rows of the best ids of the ranking, with declarative scores |
| Fusion.TopRows | agent/retriever.py:197-207 | sorting the dictionaries by score and slicing gives the declared ranking and rows |
| Fusion.BothScores | agent/retriever.py:175-195 | a key's accumulated score is the sum of its gains over all its positions in both legs |
| Fusion.BothRows | agent/retriever.py:178-195 | a key's row is its last vector hit with its cosine, or its first keyword hit with cosine 0, and both ranks |
| Fusion.SortRanks | agent/retriever.py:197-198 | the stable descending sort gives each id once, ties by first appearance with the vector leg first |
| Ranking.RankingUnique | agent/retriever.py:168-207 | the declared ranking has one solution |
| Ranking.BestKept | agent/retriever.py:197-207 | min(limit, distinct ids) rows, or all but the last |limit| for a negative limit, descending, and every kept row scores at least as much as every dropped id |
| Ranking.ScoreRange | agent/retriever.py:175-195 | scores lie in (0, 2/k] |
| Ranking.ClampExactly | agent/models.py:86-90 | the result model's clamp changes no score if and only if k >= 2 |
| Ranking.NoWorseScoresNoLess | agent/retriever.py:175-195 | an id placed no lower in each leg scores no lower |
| Ranking.BothFirstExactly | agent/retriever.py:53-61 | a hit in both legs goes before a hit in one, on all legs of at most n rows, if and only if n <= k |
| Ranking.BothBeatsOne | agent/retriever.py:175-195 | for legs of at most k rows it scores strictly more |
| Ranking.DeepBothTies | agent/retriever.py:175-198 | at depth k + 1 it may only tie, and then goes after |
| Confidence.MaxCosine | agent/tools.py:39-43 | the highest cosine of the results, 0.0 when there is none |
| Confidence.FusedOnce | agent/retriever.py:168-207 | the fused rows of two legs are determined |
| Confidence.LowLegGates | agent/tools.py:46-48 | a vector leg below a positive threshold makes the fused result low-confidence |
| Confidence.GateAgreesExactly | agent/tools.py:39-48 | the gate says of the fused rows what it says of the vector leg, for all legs with at most n keyword rows, if and only if limit > min(n, 2k - 1) |
| Confidence.RankedEarly | agent/retriever.py:175-198 | at most min(n, 2k - 1) ids go before the top vector hit |
| Confidence.PairBeatsTop | agent/retriever.py:182-190 | a hit at ranks i and j outscores the top of one leg if and only if i * j < k * k |
| Confidence.TopHitSurvives | agent/retriever.py:178-207 | keeping more rows than that keeps the top vector hit, and the gate agrees |
| Confidence.HiddenTopHit | agent/retriever.py:197-207 | keeping no more, the gate may report low confidence although the vector leg is not |
| Ingest.FreshHashes | ingestion/ingest_service.py:156-177 | the hashes to embed are the new ones that are not stored, once each |
| Ingest.FreshOnce | ingestion/ingest_service.py:156-177 | a text to embed is listed once, with the index of its last occurrence, and is not stored |
| Ingest.FreshCovers | ingestion/ingest_service.py:174-177 | every new text that is not stored is embedded |
| Ingest.IngestSound | ingestion/ingest_service.py:131-223 | however many writes of an ingest land, every chunk row belongs to its document's content |
| Ingest.DeleteSound | agent/db_utils.py:306-316 | so too for a deletion that stops half-way |
| IngestRuns.NoOrphans | ingestion/ingest_service.py:131-223 | in every state of every run of ingests and deletes, faults included, no row is orphaned |
| IngestFaults.OwnCompleteExactly | ingestion/ingest_service.py:131-223 | from any sound tables, an ingest that landed a write leaves its document complete if and only if all its writes landed |
| IngestFaults.HalfDeleted | agent/db_utils.py:306-316 | a deletion that stops half-way leaves a document complete only if it has no chunks, and re-ingesting its content is skipped |
| IngestFaults.CompleteSince | ingestion/ingest_service.py:131-223 | in every state of every run with faults, a document is complete if and only if the last operation that landed a write on its source landed them all, or was a half deletion of a document without chunks |
| IngestFaults.RetrySkipped | ingestion/ingest_service.py:137-143 | a run in which an ingest stops after the document row, the retry is skipped, and the document stays incomplete |
| IngestRuns.FinishedComplete | ingestion/ingest_service.py:131-223 | an ingest that is not skipped and ends leaves its document complete, from any state |
| IngestRuns.RetryExactly | ingestion/ingest_service.py:137-143 | a retry with the same content repairs an interrupted ingest if and only if the hash was not stored yet |
| IngestRuns.DiffKeeps | ingestion/ingest_service.py:166-190 | an update keeps exactly the rows whose text survives, unchanged |
| IngestRuns.DiffAdds | ingestion/ingest_service.py:174-209 | it adds exactly one row for each text that was not stored |
| IngestRuns.InsertStoresAll | ingestion/ingest_service.py:211-223 | an insert stores every chunk at its own index, repeated ones too |
| IngestRuns.HistoryIndependent | ingestion/ingest_service.py:131-223 | after any fault-free run each source holds exactly the chunk hashes of its last content |
| IngestRuns.StoredExactly | ingestion/ingest_service.py:417-418 | a complete document's stored hashes are those of its content's chunks |
| IngestRuns.DeleteDone | agent/db_utils.py:306-316 | a deletion removes the document row and exactly its chunk rows |
| IngestService.IngestCovers | agent/retriever.py:81-103 | without faults the index covers the stored chunks, exactly after an ingest that saved one |
| IngestService.IngestExactly | ingestion/ingest_service.py:198-205 | an exact index stays exact if and only if the ingest is not an update that drops rows and embeds nothing |
| IngestService.RemoveExactly | agent/api.py:830-853 | a removal keeps the index exact if and only if it does not remove the last chunk |
| IngestService.IndexCoversRun | ingestion/ingest_service.py:234-240 | in every state of every fault-free run the index misses no stored chunk |
| IngestService.IndexExactRun | ingestion/ingest_service.py:198-240 | it is exact if and only if no update that embeds nothing and no removal of the last rows has dropped rows since the last rebuild |
| IngestService.StaleIndex | ingestion/ingest_service.py:198-205 | a fault-free run whose second ingest only drops a chunk, and leaves its id in the index |
| IngestService.Database.GetDocumentBySource | agent/db_utils.py:139-148 | the lookup gives the row of the source, or none exactly when there is none |
| IngestService.Database.UpsertDocument | agent/db_utils.py:151-193 | the upsert updates the source's row or inserts one, or has no effect when it raises before |
| IngestService.Database.DeleteChunksByIds | agent/db_utils.py:200-204 | exactly the named rows go |
| IngestService.Database.SaveChunks | agent/db_utils.py:207-229 | one row an item, with its hash and index, under new ids; nothing for no items |
| IngestService.Database.DeleteDocument | agent/db_utils.py:306-316 | chunk rows first, then the document row, each call failing or not |
| IngestService.Database.RebuildIndex | agent/retriever.py:67-103 | the index becomes the stored chunk ids; an empty table leaves it as it was |
| IngestService.Database.IngestDocument | ingestion/ingest_service.py:90-259 | with a fault at any call, a prefix of the planned writes lands and the status tells whether all did; without, tables and index are the finished ones |
| IngestService.Database.UpdateDocument | ingestion/ingest_service.py:152-209 | the update path lands a prefix of its plan, and reports success only at its end |
| IngestService.Database.InsertDocument | ingestion/ingest_service.py:211-248 | the insert path, likewise |
| BucketIngest.IngestFromS3 | ingestion/ingest_service.py:273-354 | one result an object in order, failed for one without content, counters that count them, and, without faults, each status by what its source already held |
| BucketIngest.IngestAllS3Buckets | ingestion/ingest_service.py:261-271 | both buckets' passes are one pass over their objects in a row, one result an object in order, counters and all |
| BucketIngest.CountsAdd | ingestion/ingest_service.py:61-73 | every result is counted once |
| BucketIngest.TalliedAdd | ingestion/ingest_service.py:61-73 | the four counters add up to the number of results |
| BucketIngest.FailedExactly | ingestion/ingest_service.py:302-325 | without faults exactly the objects without content fail |
| BucketIngest.SettledKnown | ingestion/ingest_service.py:335-345 | a pass skips all it can read if and only if every source already holds its content, and then changes nothing |
| BucketIngest.SecondPassSettled | ingestion/ingest_service.py:261-271 | a second pass finds nothing new if and only if no key comes with two contents |
| Settings.SettingsStore.BeginGet | agent/settings_store.py:85-93 | up to its read a call is a hit, exactly when it is not forced and the cache is younger than 30 seconds, or a begin step of the machine |
| Settings.SettingsStore.FinishGet | agent/settings_store.py:95-109 | after it, a commit or a failure step: the row's columns each in its own field, the default without a row, or what was cached, with the call's own start as its stamp |
| Settings.ConfigExactly | agent/settings_store.py:73-82 | each column with text in it is its own field of the config, and that field's default otherwise; the flag is on unless null or off |
| Settings.StalenessBound | agent/settings_store.py:85-109 | however calls overlap, a hit at t was the mapped row at some instant in (t - 30, t], when the last store came from a successful read |
| Settings.ReadIsCurrent | agent/settings_store.py:95-109 | a call's own read was the row at some instant since it started |
| Settings.UpdateReturnsOwn | agent/settings_store.py:112-128 | if nobody else writes, the merged row is in the table, and the update returns it if and only if the forced read commits or the config it falls back to is the same |
| Settings.UpdateFields | agent/settings_store.py:112-128 | each patched field of the returned config is the patch's, any other as the old row had it |
| Settings.NeverInvented | agent/settings_store.py:85-109 | with failing reads too, a cached value is the default or was the row once |
| Settings.CachedSinceCommit | agent/settings_store.py:95-109 | failing reads or not, a cached value was the row at some instant from the stamp of the last committed read on |
| Settings.BoundedExactly | agent/settings_store.py:85-109 | over all runs, failing reads included, hits at most an age after the last committed read meet the bound if and only if the age is below 30 |
| Settings.FailureExtends | agent/settings_store.py:104-108 | a failing read lets a value of any age be returned |
| Caching.EmbeddingCache.Get | ingestion/embedder.py:298-304 | a hit returns the last value put and makes the key most recent; a miss changes nothing |
| Caching.EmbeddingCache.EvictOldest | ingestion/embedder.py:310-315 | the key accessed longest ago goes, from both dictionaries |
| Caching.EmbeddingCache.Put | ingestion/embedder.py:306-319 | at capacity one eviction, then the key is the most recent; it raises exactly for max_size <= 0 |
| Caching.RecordHolds | ingestion/embedder.py:289-325 | a use keeps the cached keys the most recently used ones, with their last values and within the size |
| Caching.EvictHolds | ingestion/embedder.py:309-314 | so does evicting the one with the least access time |
| Caching.CachedAsProvided | ingestion/embedder.py:345-359 | after any gets and puts, what is cached for a text, None included, is what a deterministic provider returns |
| Caching.CachedGet | ingestion/embedder.py:350-353 | the wrapper up to its await: a cached vector is what the provider would return |
| Caching.CachedPut | ingestion/embedder.py:355-357 | and after it, whatever other calls did meanwhile: the provider's answer is put and returned |
| Caching.CachedGenerate | ingestion/embedder.py:350-357 | a call by itself gives what the provider gives, exception and None included |
| Embedder.GenerateEmbedding | ingestion/embedder.py:71-112 | the first answer to the cut text, or nothing after the last attempt; it sleeps the back-offs of the failed attempts that are not the last |
| Embedder.GenerateBatch | ingestion/embedder.py:114-164 | the first answer to the processed texts, an exception after a last rate limit, or the texts one by one; with the same sleeps |
| Embedder.WaitedWithin | ingestion/embedder.py:93-112 | the sleeps come to at most retry_delay * (2^(R-1) - 1) in all |
| Embedder.WaitedDoubling | ingestion/embedder.py:93-100 | and to just that when every failure is a rate limit |
| Embedder.WaitedSteady | ingestion/embedder.py:102-112 | other failures are each followed by retry_delay |
| Embedder.ProcessIndividually | ingestion/embedder.py:166-195 | what the retry loop gives for each text, the zero vector for blank and failed ones |
| Embedder.EmbedBatch | ingestion/embedder.py:217-265 | a batch's chunks are paired with its vectors in order, or marked failed with zero vectors |
| Embedder.EmbedChunks | ingestion/embedder.py:197-269 | the batches in order, each with what its own texts came to, for every provider |
| Embedder.NoneLost | ingestion/embedder.py:215-269 | with complete answers chunk i of the result is chunk i of the input with what its own batch came to at its own place |
| Embedder.OwnVector | ingestion/embedder.py:215-269 | with a provider that embeds each text by itself, chunk i gets the vector of its own processed text, or zero exactly where that failed |
| Embedder.OwnText | ingestion/embedder.py:114-195 | chunk i gets the vector of its content cut to four characters a token, of nothing for a blank one, if its batch is answered or else, when not blank, it is answered by itself; and zeros otherwise |
| Embedder.OwnContent | ingestion/embedder.py:125-135 | with a provider that answers, it is that of the content itself up to that length |
| SessionMemory.MemoryBackend.AddTurn | agent/session_memory.py:125-141 | two messages are appended and the list trimmed; other sessions are untouched |
| SessionMemory.MemoryBackend.GetMessages | agent/session_memory.py:143-160 | the window of the session's own turns since its last clear, by the log of all requests |
| SessionMemory.RedisBackend.AddTurn | agent/session_memory.py:125-137 | push, trim and expiry as one step |
| SessionMemory.RedisBackend.GetMessages | agent/session_memory.py:143-157 | the window of the session's own turns since its last clear or expiry, by the log of all requests |
| SessionMemory.MemoryRefines | agent/session_memory.py:125-160 | after any interleaving the in-process store holds the window of each session's own log |
| SessionMemory.RedisRefines | agent/session_memory.py:125-160 | and so does Redis at any later time, expired turns dropped |
| SessionMemory.BackendsAgree | agent/session_memory.py:125-160 | both give the same messages if and only if enough turns have not expired: min(W, live turns) for W >= 1, all for W = 0, any number for W < 0 |
| SessionMemory.WholeTurns | agent/session_memory.py:187-196 | for W >= 1 the window is the messages of the last W turns, each whole, user before assistant, and turn_count is min(turns, W) |
| SessionMemory.MemoryBackend.TrimMemory | agent/session_memory.py:205-209 | the guarded slice is the trim, for every window |
| SessionMemory.TrimAgain | agent/session_memory.py:205-209 | trimming after every turn is trimming once; for W = 0 nothing is trimmed |
| Provenance.DecodeAll | agent/conversations_router.py:104-115 | the loop decodes each message in place; an inbound one, or one without the marker, keeps its text |
| Provenance.ReplyExactly | agent/conversations_router.py:104-108 | the decoded text is the stripped reply if and only if the reply has no marker |
| Provenance.MetadataExactly | worker/tasks.py:349 | the decoded metadata is the JSON text if and only if that has neither the marker nor the closing tag |
| Provenance.MarkerFirst | worker/tasks.py:334-336 | the first marker of an encoded message is the encoder's |
| Guardrails.ScrubbedClean | agent/guardrails.py:164-170 | no leak signature is left in any scrubbed text, and a text is returned as it is if and only if it has none |
| Guardrails.LeakyLine | agent/guardrails.py:168 | a text leaks if and only if one of its lines does |
| Guardrails.LeakyExactly | agent/guardrails.py:101-104 | a text leaks if and only if it spells one of the four signatures, in any case |
| Guardrails.SplitLinesExactly | agent/guardrails.py:168 | the lines have no line break, and laid end to end with theirs are the text |
| Guardrails.ScrubExactly | agent/guardrails.py:164-170 | scrubbing a leaking text gives its other lines joined by line feeds and stripped, or the fallback |
| Guardrails.ScrubKeeps | agent/guardrails.py:164-170 | scrubbing keeps the ink of every other line and drops that of the leaking lines only, or gives the fallback when nothing is left |
| Guardrails.SubstituteClean | agent/guardrails.py:156-161 | no bracketed substitution makes a clean text leak |
| Guardrails.SubstituteExactly | agent/guardrails.py:156-161 | what lies between the matches stays, in order, with one bracketed replacement in the place of each match |
| Guardrails.OutsideInside | agent/guardrails.py:156-161 | which with the matches themselves in those places is the text |
| Guardrails.RedactedExactly | agent/guardrails.py:156-161 | each of the four passes puts its own replacement for its matches |
| Guardrails.RedactPii | agent/guardrails.py:156-161 | the loop applies the patterns in order and keeps a clean text clean |
| Guardrails.ApplyOutput | agent/guardrails.py:212-223 | with guardrails on, the output leaks if and only if the language model's conversion was taken and leaks; with them off, if and only if the text does; a conversion is taken if it has text and no Devanagari where the text has some |
| AuthRouter.AuthStore.Login | agent/auth_router.py:204-235 | the handler's checks in order, then a new token |
| AuthRouter.AuthStore.RefreshToken | agent/auth_router.py:257-299 | the old token is revoked before the user is looked at |
| AuthRouter.AuthStore.Logout | agent/auth_router.py:241-251 | the token is revoked, for an active caller |
| AuthRouter.AuthStore.ForgotPassword | agent/auth_router.py:305-336 | a reset row for a known user, which the answer names; nothing for an unknown one |
| AuthRouter.AuthStore.ResetPassword | agent/auth_router.py:342-385 | new password, reset row used, all tokens of the user revoked |
| AuthRouter.AuthStore.ChangePassword | agent/auth_router.py:391-413 | the same for the user who is logged in and knows the password |
| Tokens.LoginExactly | agent/auth_router.py:204-235 | in any run a login issues its user's token if and only if the account is active and verified and the password the last that was set; it changes nothing otherwise |
| Tokens.AccountExactly | agent/auth_router.py:204-413 | the user table has the account that the requests so far left |
| Tokens.CallerExactly | agent/auth_router.py:241-413 | a logout needs an active account, a change of password its last password too |
| Tokens.ResetExactly | agent/auth_router.py:342-385 | a reset token works if and only if it was asked for, in time, and not used before |
| Tokens.RevokedExactly | agent/auth_router.py:241-413 | a token is revoked if and only if an earlier request offered it in time, logged it out, or set its user's password |
| Tokens.ExchangedExactly | agent/auth_router.py:257-299 | a token is exchanged if and only if nothing put an end to it, it has not expired, and its user is active |
| Tokens.OrphanRefused | agent/auth_router.py:280-297 | in a run that deletes the user, a live token is used up and refused |
| Tokens.ExchangedOnce | agent/auth_router.py:257-299 | each token is exchanged at most once in any run |
| Tokens.NoneSurvivesNewPassword | agent/auth_router.py:342-413 | no token from before a password reset or change is exchanged after it |
| Tokens.NoneSurvivesLogout | agent/auth_router.py:241-251 | nor one that was logged out |
| Tokens.ExchangeKeepsUser | agent/auth_router.py:257-299 | the new token is the same user's, unrevoked and for its lifetime |
| Tokens.ResetOnce | agent/auth_router.py:353-356 | a reset token works at most once |

## Left out

- Splitter.SimpleSplit: a window that starts before the text, which only an overlap beyond the least progress can
  bring about and which Python reads from the other end, counts as not ending.
- Offsets.RecordedExactly: overlaps are not negative there; with a gap between the windows it depends on the text
  whether a chunk is found before its place. Over all texts, Offsets.RecordsTrulyExactly decides it.
- SemanticChunker.DocumentLossless: no section is over-long, as the model's replies may say anything, and the overlap is
  not negative and less than every cut.
- SemanticChunker.ChunksInBounds: the ceiling is for a positive chunk size; one of zero or less is accepted only with
  an overlap that is smaller still.
- Sections.StructureKeeps: the six patterns are not modelled, only that a captured split cuts its text into parts.
- SemanticChunker.ChunkDocument: the test for tabular data is any predicate, and one flag stands for time-outs and
  exceptions of the semantic pass.
- Fusion.Fuse: exact rationals instead of floating point, and k >= 1 (k = 0 divides by zero); the similarity field
  that a keyword-only row is given by default, and rows without an id, are not modelled.
- Confidence.GateAgreesExactly: the fallback search without the retriever is not modelled.
- Ingest.IngestSound: hashes are injective, chunk rows all carry one, the chunker is a function of the content, and
  the metadata columns are not modelled. Ingests and deletes come one at a time.
- IngestRuns.HistoryIndependent: is about the set of hashes. Row counts are not history-independent (an insert keeps
  repeated chunks, an update stores a text once), nor are the chunk indices of rows that an update keeps.
- IngestService.Database.IngestDocument: the knowledge graph is a call that may fail; embeddings are not stored.
- BucketIngest.IngestFromS3: exceptions of the download and parsing calls themselves.
- Settings.StalenessBound: integer time and an initialised client; nothing is claimed after a failed read, and no
  read-your-writes for other callers.
- Caching.CachedGet: access times are strictly increasing, and the provider gives the same text the same answer.
- Embedder.EmbedChunks: a batch size of zero, which raises, exceptions of the progress callback, and the memo wrapper
  between it and the retry loop for one text.
- IngestService.IndexExactRun: one process; another process's index is not rebuilt by this one's ingests.
- SessionMemory.RedisRefines: the JSON codec, items that do not parse, and session_exists, on which the backends
  differ.
- Provenance.MetadataExactly: parsing the JSON, and text with white space at its ends, which json.dumps never gives.
- Guardrails.RedactPii: what the patterns match; any matches that re.sub may find are covered.
- Tokens.ExchangedExactly: token hashing, signatures and password hashing; a token stands for its hash. Handlers are
  atomic steps.
- The input guardrails, the scope classifier and the conversion prompt: pattern lists and calls to a language model.
- FastAPI routing, the tables' client, S3, Neo4j, Redis connections, WhatsApp, dashboards and role checks: input and
  output, with nothing to prove beyond one body.
