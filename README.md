# crawl4llm frontier, dispatch and scoring — a Dafny model

This project models the core of the crawl4llm crawler (`src/Crawler.js`, `src/worker.js`,
`src/UnifiedGetter.js`, `src/DocumentRater.js`, `src/Document.js`) and proves properties of
that model.

In the crawler, the frontier is a `queue` plus a `visited` set. Two disciplines drive it:

- `putIntoQueue` pushes `[annotations, docid]` pairs and `popFromQueue` pops them off the end; it throws once the pairs are popped when one of them has `undefined` annotations.
- `putDocs` pushes scored documents and `popDocs` splices them off the front.

Document ids are cut into at most one chunk per worker. The chunk size is `ceil(n / numWorkers)`, and
id `i` goes to chunk `floor(i / chunkSize)`. For scoring, the ids are also cut into memory
partitions of at most `maxNumInMemDocs`.

Each worker answers a `getDoc` or `getOutlinks` message. It reads files from the corpus root,
trims ids, keeps the non-blank lines of `.outlinks` files and drops what it cannot read. The
raters then score the fetched documents in configured order, and the document text is deleted.

Outlinks are flattened and de-duplicated in first-occurrence order, then filtered against
`visited`. Checkpoints are named `state_<iteration padded to 6>.json`. On resume, the heap and
visited set are restored. When the number of stored rater names differs from the number of
distinct configured rater names, every queued document is rescored and the heap is rebuilt position by
position.

## Structure

Modules follow the source:

| module | models |
|---|---|
| `Documents` (document.dfy) | `Document` of `src/Document.js`, a class whose `scores` map `setScore` updates in place |
| `DocumentRaters` (document_rater.dfy) | `DocumentRater`; `rate` scores an array of documents in place |
| `UnifiedGetters` (unified_getter.dfy) | the main-thread corpus accessor |
| `Worker` (worker.dfy) | the worker's message handler |
| `Dispatch` (dispatch.dfy) | the fan-out of a request over the workers |
| `Slicing` (slicing.dfy) | chunking and partitioning |
| `Outlinks` (outlinks.dfy) | the outlink set and the visited filter |
| `Checkpoint` (checkpoint.dfy) | checkpoint names and the iteration-number parse |
| `Frontier` (frontier.dfy) | queue entries and the specification functions of pop, put and resume |
| `Crawlers` (crawler.dfy) | the `Crawler` class: `queue`, `visited` and the "queue is now a heap" flag as fields; its operations as methods |

`Text`, `Sequences`, `Files`, `Js` and `Wrappers` hold what the source takes from JavaScript:
- `trim`, `split` and `path.join`;
- `filter`, `flat` and `new Set`;
- reading a file as a map from path to content;
- JavaScript values and truthiness;
- `null` and thrown errors as `Option` and `Result`.

File reads are a parameter `fs: FileSystem`, a map from path to content; a missing path is a
failed read. Each worker is run as a call of its message handler on its chunk.

### Where the code and its evident intent differ (the model follows the code)

Each item below names what the code plainly sets out to do, the way it falls short, and the
member that shows it.

- **Chunk sizes.** The intent is to share the ids among the workers evenly, with chunk sizes
  differing by at most one. The code makes every chunk but the last exactly
  `ceil(n / numWorkers)` long, so 10 ids over 4 workers give 3, 3, 3, 1 (`Slicing.ChunksSpec`).
- **Rater reconciliation.** On resume the code builds the set of stored rater names and the
  set of configured ones (src/Crawler.js:287-294), to rescore when the raters changed. It
  compares only the sizes of the two sets, so stored raters `A, B` and configured raters
  `A, C` trigger no recomputation (`Frontier.SizeOnlyComparison`).
- **Rebuilt scores.** Rescoring is meant to give the rebuilt frontier the new scores. The code
  copies `doc.annotations`:
  - a fetched `Document` of `src/Document.js` has no such field;
  - a placeholder has `{}`.

  So no entry of a rebuilt heap has scores, and the next resume's peek fails
  (`Frontier.RebuiltLosesScores`).
- **Priority order.** The frontier is meant to be a priority queue ordered by score, but
  `compareAnnotations` is a placeholder that always returns 0 (src/Crawler.js:58-61), so
  nothing orders the resumed heap. The model takes the heap's array order as a parameter and
  promises the rebuilt heap only up to permutation.

## Model

| member | source | states |
|---|---|---|
| `Documents.Document.constructor` | src/Document.js:2-6 | a new document has the given id, the given text (default `""`) and an empty score map |
| `Documents.Document.GetScore` | src/Document.js:8-10 | an absent key reads as 0; a present key reads as its score (a stored 0 also reads 0) |
| `Documents.Document.SetScore` | src/Document.js:12-14 | only key `k` changes and the text is untouched; reading `k` back gives `v`; every other key reads as before |
| `DocumentRaters.DocumentRater.constructor` | src/DocumentRater.js:4-7 | the rater keeps its type and name |
| `DocumentRaters.DocumentRater.RequireDocText` | src/DocumentRater.js:9-11 | every rater asks for document text |
| `DocumentRaters.DocumentRater.GetName` | src/DocumentRater.js:13-15 | the name is the constructor's |
| `DocumentRaters.DocumentRater.Rate` | src/DocumentRater.js:17-29 | a non-array is rejected with "Input must be an array of documents"; otherwise the same array comes back; every document's text is unchanged; its scores gain the text length under `name` for a `length` rater and are unchanged otherwise |
| `DocumentRaters.LengthScoreZero` | src/DocumentRater.js:24 | the length score is 0 exactly when the text is null or empty |
| `DocumentRaters.ChainScoresSnoc` | src/Crawler.js:241-243 | running one more rater after a chain is applying it to the chain's result |
| `DocumentRaters.ChainScoresSpec` | src/Crawler.js:241-243 | after the rater chain, the score keys are the old ones plus the `length` raters' names; each such name holds the text length; every other key keeps its old score |
| `UnifiedGetters.UnifiedGetter.GetDoc` | src/UnifiedGetter.js:11-24 | throws exactly on an empty or non-string id; otherwise gives the document `<root>/<trimmed id>` with the file text, or null when it cannot be read |
| `UnifiedGetters.UnifiedGetter.GetOutlinks` | src/UnifiedGetter.js:26-39 | throws exactly on an empty or non-string id; otherwise gives the non-blank lines of `<root>/<trimmed id>.outlinks`, or `[]` when it cannot be read |
| `UnifiedGetters.UnifiedGetter.GetSeedDocs` | src/UnifiedGetter.js:41-49 | `[]` when the seed file cannot be read; otherwise exactly the non-blank lines of the file, which `Files.NonBlankLinesAppend` shows are kept in file order with repeats |
| `Files.NonBlankLines` | src/worker.js:47 | the lines kept are lines of the file, each with a non-whitespace character and without `\n`; every such line is kept |
| `Files.NonBlankLinesAppend` | src/worker.js:47 | the non-blank lines of two texts joined by a newline are those of the first followed by those of the second, so order and repeated lines are kept |
| `Files.NonBlankLinesOfLine` | src/worker.js:47 | a text without a newline yields itself when it holds a non-whitespace character, and nothing otherwise |
| `Text.Trim` | src/worker.js:20 | the trimmed text has no whitespace at either end, is no longer than the input, and is empty exactly when the input is all whitespace |
| `Text.TrimDropsWhitespace` | src/worker.js:20 | trimming keeps a contiguous slice of the input, and every character it drops is whitespace |
| `Text.TrimIdempotent` | src/worker.js:20 | trimming twice is trimming once |
| `Text.Split` | src/worker.js:47 | splitting yields at least one piece, and no piece contains the separator |
| `Text.SplitJoin` | src/worker.js:47 | joining the pieces with the separator gives back the text |
| `Text.SplitFirst` | src/Crawler.js:279 | the first piece is the text before the first separator |
| `Text.SplitLast` | src/Crawler.js:279 | the last piece (what `pop` takes) is the text after the last separator |
| `Text.SplitAppend` | src/worker.js:47 | splitting two texts joined by the separator gives the pieces of the first, then those of the second |
| `Text.SplitWithoutSep` | src/worker.js:47 | a text without the separator splits into itself alone |
| `Worker.DocidOf` | src/worker.js:15 | an object's truthy `docid` field is the id, a non-object is its own id, and a valid id comes from one of the two |
| `Worker.FetchDoc` | src/worker.js:14-29 | a document comes back exactly when the item's id (an object's truthy `docid`, else the item itself) is a non-empty string and the file at the root joined with its trimmed form exists; its id is that trimmed form and its text the file's content |
| `Worker.FetchDocs` | src/worker.js:13-31 | the reply holds no more documents than ids; each is trimmed and holds the content of its file |
| `Worker.FetchDocsAppend` | src/worker.js:13-31 | fetching a concatenation is concatenating the fetches: nothing is lost or reordered |
| `Worker.FetchDocsComplete` | src/worker.js:15-28 | every id is answered when each is a valid string whose file exists; all ids are answered only when each one's fetch succeeds |
| `Worker.FetchOutlinks` | src/worker.js:36-54 | every outlink is a non-blank line; outlinks come only from a valid id whose `.outlinks` file exists |
| `Worker.FetchAllOutlinks` | src/worker.js:35-57 | the flattened outlinks are all non-blank lines |
| `Worker.FetchAllOutlinksAppend` | src/worker.js:35-57 | the outlinks of a concatenation are the concatenation of the outlinks, in id order |
| `Worker.HandleMessage` | src/worker.js:7-67 | `getDoc` and `getOutlinks` on an array give the fetched documents or the flattened outlinks; any other message gives `[]` |
| `Worker.WorkerAgreesWithGetter` | src/worker.js:12-57 | on a valid id the worker yields the same document and outlinks as the main-thread accessor; where the accessor throws, the worker yields no outlinks, and no document unless the item is an object carrying an id; for such an object the worker yields what the accessor yields on its `docid` |
| `Slicing.SlicesSpec` | src/Crawler.js:179-182 | the partitions concatenate back to the ids; each is non-empty and at most the maximum; all but the last hold exactly the maximum; there are `ceil(n / max)` of them |
| `Slicing.Partition` | src/Crawler.js:179-182 | the partition loop yields the slices of the ids, and none for an empty list |
| `Slicing.SlicesIndex` | src/Crawler.js:124-126 | id `i` is element `i % size` of chunk `i / size`, which is the reduce's index rule |
| `Slicing.ChunksAreSlices` | src/Crawler.js:122-128 | with workers, the reduce yields the slices of size `ceil(n / numWorkers)` |
| `Slicing.ChunksWithoutWorkers` | src/Crawler.js:122-128 | with no workers, every id lands in chunk 0 |
| `Slicing.ChunkCountFits` | src/Crawler.js:122 | `ceil(n / ceil(n / w)) <= w` |
| `Slicing.ChunksSpec` | src/Crawler.js:213-219 | the chunks concatenate back to the ids; none is empty; all but the last hold exactly `ceil(n / numWorkers)`; there are at most `numWorkers` of them, so `workers[index]` exists |
| `Dispatch.ChunksWithoutWorker` | src/Crawler.js:119-134 | some chunk has no worker exactly when there are no workers and some ids |
| `Dispatch.DispatchDocs` | src/Crawler.js:210-235 | the fan-out is rejected exactly when there are no workers and some ids |
| `Dispatch.DispatchDocsIsFetch` | src/Crawler.js:221-235 | a successful fan-out gives what one worker would for the whole list, in order |
| `Dispatch.DispatchOutlinks` | src/Crawler.js:119-145 | the fan-out is rejected exactly when there are no workers and some ids |
| `Dispatch.DispatchOutlinksIsFetch` | src/Crawler.js:130-145 | a successful fan-out gives the outlinks of every id, in id order |
| `Sequences.DedupSpec` | src/Crawler.js:147 | a `Set` built from a list holds each element once, exactly the list's elements, in first-occurrence order |
| `Sequences.FilterOrder` | src/Crawler.js:366-368 | filtering a duplicate-free list keeps its order |
| `Outlinks.UnvisitedSpec` | src/Crawler.js:364-368 | the unvisited outlinks hold no duplicates; they are exactly the outlinks not in `visited`; they come in first-occurrence order |
| `Crawlers.DeleteVisited` | src/Crawler.js:150-153 | deleting every visited id from the outlink set leaves the unvisited outlinks in order |
| `Crawlers.GetterOutlinks` | src/Crawler.js:360-364 | the accessor's outlinks over all docs are rejected exactly when some id is invalid; otherwise they are what the workers would read |
| `Crawlers.NewDocuments` | src/Crawler.js:221-235 | one new document per record received, with its id and text and no scores |
| `Crawlers.RateAll` | src/Crawler.js:240-243 | the raters run in configured order over the same documents; each ends with the chain's scores and its text unchanged |
| `Crawlers.DeleteTexts` | src/Crawler.js:245-249 | every document loses its text and keeps its scores |
| `Crawlers.Reconcile` | src/Crawler.js:309-316 | the loop succeeds exactly when each recomputed id equals the heap id at its position; it then yields one pair per recomputed document with that heap id |
| `Crawlers.Crawler.constructor` | src/Crawler.js:45-56 | the queue and visited set start empty; content is required exactly when some rater requires text |
| `Crawlers.Crawler.Visit` | src/Crawler.js:66 | adding an id to the set appends it unless it is already there |
| `Crawlers.Crawler.VisitAll` | src/Crawler.js:330-336 | adding the found ids one by one makes `visited` the set of the old ids followed by the new |
| `Crawlers.Crawler.PutOne` | src/Crawler.js:64-67 | one pair is appended to the queue and its id added to the set |
| `Crawlers.Crawler.PutIntoQueue` | src/Crawler.js:63-69 | one `[annotations, docid]` pair per document is appended in input order; earlier entries are unchanged; `visited` becomes the old set with the new ids added in order |
| `Crawlers.Crawler.PopFromQueue` | src/Crawler.js:100-116 | the new queue is that of the pop specification whether or not the call throws; it throws exactly when an annotation popped is `undefined` (reading `scores` in `getMeanScoreForLogging`), and otherwise returns the ids of the pop specification |
| `Frontier.PopSpecSpec` | src/Crawler.js:100-111 | at most `n` ids come back; the `i`-th is the id of the `i`-th pair from the end; the queue left is a prefix; besides the popped pairs, at most one non-pair entry is lost |
| `Frontier.PopSpecOfPairs` | src/Crawler.js:103-111 | on a queue of pairs, exactly `min(n, length)` ids come back and nothing else is lost |
| `Frontier.PopAnnotationsSpec` | src/Crawler.js:103-107 | the annotations collected are one per popped id, each the first element of the pair `i` places from the end |
| `Frontier.PopThrowsExactly` | src/Crawler.js:70-75 | logging the popped annotations throws exactly when one of the popped pairs, the last entries of the queue, has `undefined` annotations |
| `Crawlers.Crawler.PopDocs` | src/Crawler.js:347-357 | the returned entries followed by the new queue are the old queue; `min(count, length)` entries are returned, and none from an empty queue |
| `Frontier.LookupFails` | src/Crawler.js:329-337 | the `getDoc` lookups reject exactly when some id is invalid |
| `Frontier.LookupFound` | src/Crawler.js:329-339 | a successful lookup pairs every id with a document, and only such ids, with the document the accessor reads |
| `Frontier.LookupAppend` | src/Crawler.js:329-339 | looking up a concatenation is looking up each part in turn: the first rejection wins, and when both parts succeed the found pairs are those of the first followed by those of the second, so the order and the repeats of the ids are kept |
| `Frontier.LookupSingle` | src/Crawler.js:329-339 | a single id is rejected exactly when the accessor throws on it, and otherwise yields itself with its document, or nothing when the accessor gives null |
| `Frontier.RefetchFindsSameText` | src/Crawler.js:342 | a document found by the accessor is read again from the same file when it is scored, unless its trimmed id is empty |
| `Crawlers.Crawler.PutDocs` | src/Crawler.js:328-345 | a rejected lookup changes nothing; otherwise only ids unvisited at entry and having a document are added to `visited`; nothing is queued when none is found or when scoring fails; otherwise the old queue gains the scored documents at its end |
| `Crawlers.Crawler.ScorePartition` | src/Crawler.js:207-252 | fails exactly when content is needed, there are ids and there are no workers; otherwise yields fresh documents, one per readable id, with its id, the chain's scores and no text; without content, one placeholder per id |
| `Crawlers.Crawler.ScoredFromAppend` | src/Crawler.js:197 | scoring two lists one after the other is scoring their concatenation |
| `Crawlers.Crawler.ScorePartitions` | src/Crawler.js:185-198 | the partitions are scored in turn and concatenated in partition order; the first partition fails exactly when there are no workers for content |
| `Crawlers.Crawler.GetScoresForDocs` | src/Crawler.js:176-205 | the scored entries for the whole list are those of scoring it at once; failure exactly when content is needed, there are ids and there are no workers |
| `Crawlers.Crawler.FindOutlinks` | src/Crawler.js:118-155 | rejected exactly when there are no workers and some ids; otherwise the workers' outlinks, each once, in first-occurrence order, without visited ids |
| `Crawlers.Crawler.GetOutlinks` | src/Crawler.js:359-368 | rejected exactly when some doc id is invalid; otherwise the unvisited outlinks, each once, in first-occurrence order |
| `Checkpoint.PadStart` | src/Crawler.js:267 | the padded text has the target width (or the original length), the original at its end and the fill before it |
| `Checkpoint.PadStartValue` | src/Crawler.js:267 | zero-padding digits keeps them digits and keeps their value |
| `Checkpoint.NumberField` | src/Crawler.js:279 | in any directory, the field `split("_").pop().split(".")[0]` of `state_<p>.json` is `p` |
| `Checkpoint.ParseDigits` | src/Crawler.js:279 | `parseInt` reads a non-empty digit string as its decimal value |
| `Checkpoint.StateFileNameRoundTrip` | src/Crawler.js:265-279 | a checkpoint named for a non-negative iteration up to `Number.MAX_SAFE_INTEGER`, in any directory, parses back to that iteration |
| `Checkpoint.NegativeIterNumReadsAsZero` | src/Crawler.js:265-279 | a negative iteration of up to four digits is padded to `0000-5` and the like, and parses back as 0 |
| `Crawlers.Crawler.SaveState` | src/Crawler.js:259-270 | fails exactly when the queue is not a heap; otherwise the checkpoint holds the queue's pairs, the visited ids and the count, and, for an iteration from 0 to `Number.MAX_SAFE_INTEGER`, its name parses back to the iteration |
| `Frontier.PeekScores` | src/Crawler.js:287-289 | the top's scores are read exactly when the heap is non-empty and its top is a pair with a score map, and the result is that map |
| `Frontier.SizeOnlyComparison` | src/Crawler.js:294 | stored raters `A, B` against configured `A, C` trigger no recomputation |
| `Crawlers.LengthNamesAreRaterNames` | src/Crawler.js:290-292 | with only `length` raters, the score names they write are exactly the distinct rater names |
| `Crawlers.SameRatersNoRecompute` | src/Crawler.js:287-294 | a heap top scored from scratch by the same `length` raters never triggers recomputation, even with duplicate names |
| `Frontier.RecomputedIdsMatch` | src/Crawler.js:305-315 | when every heap id is a trimmed, valid id whose file exists, the recomputed ids equal the heap ids |
| `Frontier.RebuiltLosesScores` | src/Crawler.js:309-322 | a heap rebuilt from recomputed documents holds no scores, so its peek fails |
| `Crawlers.Crawler.ScoredIds` | src/Crawler.js:305-315 | the recomputed entries carry the recomputed ids; when those match the heap's, the reconciled pairs are the rebuilt heap |
| `Crawlers.Crawler.RecomputeHeap` | src/Crawler.js:303-319 | fails exactly when scoring fails or the recomputed ids do not line up with the heap's; otherwise yields one pair per recomputed document, with the heap id at its position |
| `Crawlers.Crawler.InitOrResumeState` | src/Crawler.js:272-326 | with no state file, `[0, 0]` and nothing changes; with an unreadable one, failure and nothing changes; otherwise the heap and visited set are restored and the parsed iteration and count returned; a failing peek fails; recomputation runs exactly when the name counts differ; it fails exactly when scoring fails or ids mismatch; on success the heap holds the rebuilt pairs |

## Left out

- Worker threads, `postMessage`, `Promise.all` and their completion order: each worker is a sequential call of its handler on its chunk, and replies are joined in chunk order, as the code joins them.
- In `putDocs`, all `visited.has` checks run before any `add`, and lookups run concurrently. The model checks every id against `visited` as it was at entry. It leaves out the `add`s of lookups still in flight after another lookup has rejected.
- File I/O and JSON: reads are the `fs` map, `saveState` returns the path and the object it would write, and `initOrResumeState` takes the parsed state (`None` when reading or parsing fails). `writeOutput` and `src/index.js` are not part of this model.
- `path.join` is plain concatenation with `/`; its normalisation of `..`, repeated separators and absolute names is not modelled.
- The `heap` library: the order in which the heap keeps its entries is the parameter `heapArray`, a permutation of the stored queue. `compareAnnotations` is not modelled.
- Logging, telemetry and floating point: the winston logger, `logAll`, the means `getMeanScoreForLogging` computes, the expansion and unvisited ratios, the average length and the hit rate.
- The `withPredecessorInfo` branch of `findOutlinks`.
- `DocumentAnnotation` of `src/Crawler.js` is never used by the core and is not modelled.
- Scores are integers. Text length is counted in characters, not UTF-16 code units. Error messages are fixed strings. Documents of `src/Crawler.js` are values; their object identity is not modelled.
- PutIntoQueue (`Crawlers.Crawler.PutIntoQueue`): requires that the queue is still an array. On a resumed heap the source calls the heap's own `push`, which this model does not follow.
- PopFromQueue (`Crawlers.Crawler.PopFromQueue`): requires that the queue is still an array; the heap's `pop` order is not modelled. Of `getMeanScoreForLogging` only the `TypeError` on an `undefined` annotation is modelled; the means it logs are not.
- StateFileNameRoundTrip (`Checkpoint.StateFileNameRoundTrip`): stated only for iterations up to `Number.MAX_SAFE_INTEGER`. Past it, iterations are not exact JavaScript numbers. From 10^21 on, `toString` writes exponent form, so `state_1e+21.json` reads back as 1. `NumberToString` writes exact digits there and does not model either.
- SaveState (`Crawlers.Crawler.SaveState`): its round-trip clause is bounded by `Number.MAX_SAFE_INTEGER`, for the same reason.
- GetScore (`Documents.Document.GetScore`): the score map is a plain object in the source, so keys naming `Object.prototype` properties (`constructor`, `toString`, `__proto__` and the like) read inherited values, and `setScore("__proto__", v)` adds no key. The model reads every absent name as 0, inherited ones included.
- PutDocs (`Crawlers.Crawler.PutDocs`): requires that the queue is still an array, and a positive `maxNumInMemDocs`: with 0, the partition loop of `getScoresForDocs` never ends on a non-empty list.
- PopDocs (`Crawlers.Crawler.PopDocs`): requires that the queue is still an array; a heap has no `splice`.
- InitOrResumeState (`Crawlers.Crawler.InitOrResumeState`): requires a positive `maxNumInMemDocs`, for the same reason as `PutDocs`. It requires that `heapArray`, the heap's arrangement of the stored queue, is a permutation of it. It promises the rebuilt heap only as a multiset of pairs, because the heap's arrangement is not modelled.
