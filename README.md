# Review back end, modelled in Dafny

This project models the sequential core of a small customer-review back end:

- **Enrichment** (`enrichment.dfy`, module `Enrichment`): the sentiment class of a
  compound polarity score at the fixed thresholds ±0.05, and the topic labels of a
  review text, found by whole-word matching against a fixed, ordered keyword table
  with the fallback label `general`.
- **Review store** (`store.dfy`, module `ReviewStore`): the reviews table as a class
  `ReviewDatabase` whose field `rows: map<string, Row>` maps a review id to the
  enriched review and its nullable suggested reply. A second field `order` lists the
  ids in insertion order, the order a full scan returns them in. A third field,
  `reachable`, stands for a storage engine that fails every statement: each
  operation then takes its error path (a `False` result, an empty scan, an absent reply).
- **Request handlers** (`api.dfy`, module `ReviewApi`): class `ReviewApp` holds the
  in-memory list `reviewsDb`, the store, the reply generator and the polarity scorer.
  It ingests one review or a batch (memory first, then the store, whose failures are
  ignored), lists reviews with the in-memory fallback, serves or generates suggested
  replies, and fetches a stored reply. The reply cache is specified by the pure
  function `ReplyFlow`, and the cache properties are lemmas about it.
- **Similar reviews** (`similarity.dfy`, module `Similarity`): corpus choice, the
  fewer-than-two guard, the lookup of the last position carrying the query id, and the
  top-2 selection after the query's own score is forced to -1.
- `reviews.dfy` (module `Reviews`) holds the shared datatypes.

External services are inputs, not code:

- The VADER compound score is `polarity: string -> real`, a field of the app.
- The reply generator is class `ReplyGenerator`. Its `compose` function is the reply
  the service drafts for a text, and this includes the service's own fallback
  apologies. While its `outage` field holds a message, every call raises. Its `calls`
  field counts invocations.
- TF-IDF with cosine similarity is `similarity(texts, target)`. It returns one
  non-negative score per text, or `None` when the texts leave the vectoriser an empty
  vocabulary, in which case the lookup raises that ValueError.

Behaviour of the code that the model keeps:

- A batch is rejected only when an item's id is already in the in-memory list. Items
  of one batch are not compared with each other. Two items of one batch with one fresh
  id both pass the memory check and are both appended to memory, while the store's
  batch insert rolls back (`ReviewApi.RepeatedIdInBatchIsNotCaught`).
- The duplicate check consults only the in-memory list, not the store.
- Matching respects word boundaries, so "unprofessional" does not trigger
  `professionalism` (`Enrichment.InsideWordIsNoMatch`).
- A rating outside SQLite's signed 64-bit INTEGER range cannot be bound. The store
  then returns false and inserts nothing, while the handlers still keep the review in
  memory (`ReviewStore.FitsInteger`).
- An empty generated reply is stored but reads as absent, so the next request
  generates again (`ReviewApi.EmptyReplyIsRegenerated`).

## Model

| member | source | states |
|---|---|---|
| `Enrichment.AnalyzeSentiment` | main.py:97-110 | positive iff score ≥ 0.05, negative iff score ≤ -0.05, neutral iff strictly between |
| `Enrichment.SentimentMonotone` | main.py:105-110 | a higher compound score never gives a lower sentiment class |
| `Enrichment.TopicNamesDistinct` | main.py:55-66 | the ten topic labels are pairwise different and none is `general` |
| `Enrichment.Lower` | main.py:118 | same length; every ASCII capital becomes its small letter, every other character is kept, no capital remains, and word characters stay word characters |
| `Enrichment.IsWordChar` | main.py:124 | the ASCII word class of `\b`: a character lies between `0` and `z`, and is a word character iff its lower-case form is a small letter, or it is a digit or `_` |
| `Enrichment.Boundary` | main.py:124 | `\b` holds only inside a non-empty text; at either end it holds iff the character next to it is a word character |
| `Enrichment.MatchesAt` | main.py:124-125 | a match at a position spells the keyword there, and a keyword starting with a word character is not preceded by one |
| `Enrichment.SearchWholeWord` | main.py:124-125 | finds the keyword exactly when `\b keyword \b` matches at some position of the text |
| `Enrichment.InsideWordIsNoMatch` | main.py:124-125 | a keyword preceded by a word character does not match there ("unprofessional" does not match "professional") |
| `Enrichment.DelimitedKeywordMatches` | main.py:124-125 | a keyword, multi-word phrases included, matches when it is delimited by non-word characters or the ends of the text |
| `Enrichment.OnTimeGivesTimeliness` | main.py:61 | "on time" delimited in the lower-cased text puts `timeliness` among the topics |
| `Enrichment.Topics` | main.py:129 | the topic list is never empty |
| `Enrichment.MatchedTopicsExact` | main.py:121-127 | the matched labels are the labels at the strictly increasing table positions whose keyword lists match, and at no other positions |
| `Enrichment.MatchedMembership` | main.py:121-127 | with distinct labels, a label is matched iff one of its keywords occurs as a whole word |
| `Enrichment.TopicMembership` | main.py:118-127 | a table topic is returned iff one of its keywords occurs as a whole word in the lower-cased text |
| `Enrichment.TopicsNoDuplicates` | main.py:126-127 | no topic appears twice in the result |
| `Enrichment.TopicsInTableOrder` | main.py:121-127 | the returned topics are table labels in table order, at strictly increasing positions |
| `Enrichment.GeneralFallback` | main.py:119-129 | the result is exactly `["general"]` iff no keyword of any topic matches |
| `Enrichment.SearchKeywords` | main.py:122-127 | the keyword loop of one topic stops with a hit exactly when one of its keywords matches as a whole word |
| `Enrichment.ExtractTopics` | main.py:113-129 | the nested keyword loop with its `break` computes `Topics(text)` |
| `ReviewStore.VisibleReply` | database.py:209-211 | a NULL and an empty reply both read as absent; a non-empty one is returned verbatim |
| `ReviewStore.RecordOf` | database.py:169-180 | a read keeps the row's review and includes its reply exactly when the reply is non-empty |
| `ReviewStore.FitsInteger` | database.py:54-65 | a rating binds to an INTEGER column iff it has a signed 64-bit two's-complement encoding |
| `ReviewStore.RatingsFit` | database.py:106-109 | every rating of the batch, taken as an element, binds to an INTEGER column |
| `ReviewStore.BatchFits` | database.py:106-117 | a batch that inserts without an integrity error has no item whose id is already in the table (`BatchFitsMeaning` gives the full iff) |
| `ReviewStore.InsertAll` | database.py:106-109 | inserting a batch adds exactly the batch's ids to the table's keys |
| `ReviewStore.WithReply` | database.py:138-142 | the UPDATE sets the reply of row `id` and keeps its review, the keys and every other row |
| `ReviewStore.ListAll` | database.py:164-182 | a scan of a reachable store yields one record per id in scan order with its review and visible reply; an unreachable store yields none |
| `ReviewStore.BatchFitsMeaning` | database.py:106-117 | the batch inserts without an integrity error exactly when no item's id is in the table and no two items share an id |
| `ReviewStore.StageBatch` | database.py:105-117 | the executemany inserts either stage exactly `InsertAll` with the batch ids appended to the scan order, or stop with failure exactly when the batch does not fit |
| `ReviewStore.ReplyLookup` | database.py:203-214 | a reply is visible iff the store is reachable, the row exists and its reply is non-empty; it is then the stored string |
| `ReviewStore.PreferStored` | main.py:230-242 | the store's reviews when its scan yields any (replies dropped), otherwise the in-memory list |
| `ReviewStore.InsertAllEffect` | database.py:106-109 | a fitting batch leaves existing rows unchanged and adds every item with a NULL reply |
| `ReviewStore.InsertAllKeepsInvariant` | database.py:106-111 | a fitting batch keeps ids unique, the scan order complete, and each row under its own id |
| `ReviewStore.ReplyReadAfterWrite` | database.py:138-148 | a written reply reads back verbatim when non-empty and as absent when empty; other ids and all reviews are unchanged |
| `ReviewStore.ListAllComplete` | database.py:164-182 | a scan holds one record per stored row, with no id twice |
| `ReviewStore.ReviewDatabase.constructor` | database.py:8-28 | a new store has an empty, reachable table |
| `ReviewStore.ReviewDatabase.AddReview` | database.py:37-73 | inserts with a NULL reply and returns true on a fresh id whose rating fits in 64 bits; returns false and changes nothing on a duplicate id, an unbindable rating or an unreachable store |
| `ReviewStore.ReviewDatabase.AddReviewsBatch` | database.py:75-121 | all-or-nothing: on success every item is inserted after the existing rows; on any collision with the table or within the batch, or any rating outside 64 bits, it rolls back and returns false |
| `ReviewStore.ReviewDatabase.AddSuggestedReply` | database.py:123-151 | overwrites the reply of an existing row and nothing else; returns false and changes nothing on an unknown id |
| `ReviewStore.ReviewDatabase.GetAllReviewsAsJson` | database.py:153-187 | one record per row in scan order with its fields, the reply omitted when empty; an empty list when the store fails |
| `ReviewStore.ReviewDatabase.GetSuggestedReply` | database.py:189-214 | the stored reply when the row exists and the reply is non-empty, otherwise absent |
| `ReviewStore.ReviewDatabase.GetReview` | database.py:216-254 | absent for an unknown id; otherwise the inserted fields with the reply present only when non-empty |
| `ReviewApi.ReplyGenerator.constructor` | main.py:51-52 | a new generator has made no calls and has no outage, and drafts with the given function |
| `ReviewApi.ReplyGenerator.GenerateReply` | main.py:301 | one invocation per call: the drafted reply, or the exception of a total outage |
| `ReviewApi.FirstKnown` | main.py:183-184 | the first batch position whose id is already in memory, or none when no input collides |
| `ReviewApi.Enrich` | main.py:158-173 | the enriched review copies the input's id, location, rating, date and text, adds the sentiment class of the score and a non-empty topic list |
| `ReviewApi.BatchOutcome` | main.py:182-185 | 400 iff some input's id is in memory, with the detail of the first such input; otherwise one review per input, in order, with its id, text and rating |
| `ReviewApi.RepeatedIdInBatchIsNotCaught` | main.py:152 | two batch items sharing a fresh id both pass the memory check, while the store rejects the batch |
| `ReviewApi.FindInMemory` | main.py:260 | the in-memory review with the id at a position before which no review carries it, so the first one; absent iff no review carries it |
| `ReviewApi.FindInRecords` | main.py:268-270 | the scanned review with the id at a position before which no record carries it, so the first one; absent iff no record carries it |
| `ReviewApi.ResolveReview` | main.py:259-277 | memory is consulted first; a resolved review carries the requested id and comes from memory or from a row of a reachable store |
| `ReviewApi.ReplyFlow` | main.py:259-322 | the generator runs iff the review resolves and no reply is visible; errors are 404 or 500 and write nothing; a success answers for the requested id; only row `id`'s reply can change |
| `ReviewApi.GetReplyResponse` | main.py:329-333 | 404 with its message iff no reply is visible; otherwise the id with the stored non-empty reply |
| `ReviewApi.ResolveNoneIff` | main.py:260-278 | a reply request finds no review iff neither memory nor a reachable store has the id |
| `ReviewApi.UnknownReviewIsNotFound` | main.py:278-280 | 404 iff the id is in neither memory nor a reachable store; the generator is then not called and nothing is written |
| `ReviewApi.CachedReplyIsServed` | main.py:284-292 | a non-empty stored reply is returned verbatim without calling the generator or writing |
| `ReviewApi.MissGeneratesOnce` | main.py:298-316 | without a visible reply the generator runs once and its reply is returned; it is written only when the row exists in a reachable store |
| `ReviewApi.ResolveIgnoresReplies` | main.py:260-270 | writing a reply does not change which review a request resolves to |
| `ReviewApi.ReplyIsIdempotent` | main.py:284-316 | after a generated non-empty reply was written back, a second request returns the identical response without calling the generator |
| `ReviewApi.EmptyReplyIsRegenerated` | main.py:286 | after an empty reply is generated, the next request calls the generator again |
| `ReviewApi.MemoryOnlyReviewIsRegenerated` | main.py:306-316 | a review absent from the store never gets a cached reply, so every request calls the generator |
| `ReviewApi.FetchAfterGenerate` | main.py:324-333 | after a generated non-empty reply was written back, fetching the reply returns it verbatim |
| `ReviewApi.ReviewApp.constructor` | main.py:44-52 | the app starts with an empty in-memory list over a given store, generator and scorer |
| `ReviewApi.ReviewApp.ProcessSingleReview` | main.py:149-175 | 400 with its message for an id already in memory; otherwise the input's fields with the sentiment of its score and its topics |
| `ReviewApi.ReviewApp.ProcessBatch` | main.py:182-185 | the first input whose id is in memory fails the batch with 400; otherwise every input is enriched, in order |
| `ReviewApi.ReviewApp.IngestReview` | main.py:208-222 | on a duplicate id, 400 and no state change; otherwise the review is appended to memory, and inserted into the store exactly when the store is reachable, the id is new there and the rating fits in 64 bits; a store failure is ignored |
| `ReviewApi.ReviewApp.IngestBatch` | main.py:177-207 | on a collision, 400 and no state change; otherwise memory is extended in input order, and the store holds the whole batch exactly when it is reachable, the batch fits and every rating fits in 64 bits, and none of it otherwise |
| `ReviewApi.ReviewApp.GetAllReviews` | main.py:225-242 | the store's reviews when its scan yields any, otherwise the in-memory list |
| `ReviewApi.ReviewApp.GenerateReply` | main.py:249-322 | the response, the table after the write-back, and one generator call exactly when `ReplyFlow` generates |
| `ReviewApi.ReviewApp.GetReply` | main.py:324-337 | the reply-fetch response of the current table |
| `ReviewApi.GenerateTwiceThenFetch` | main.py:284-316 | for a stored review without a reply, two requests return the same non-empty reply with one generator call, and the fetch returns it |
| `Reviews.HasId` | main.py:152 | some review carries the id iff the id is among the set of the list's ids |
| `Similarity.IdsAt` | search_service.py:61 | one id per chosen position, the id of the corpus review at that position, in order |
| `Similarity.IsTopK` | search_service.py:58-59 | the reference definition of the slice: `min(2, n-1)` distinct positions other than the query's, in non-increasing score order, with no unchosen non-query position scoring above the last one (`GreedyIsTopK` is proved against it) |
| `Similarity.LastIndexOf` | search_service.py:35-41 | the last corpus position carrying the id, or none iff no review carries it |
| `Similarity.IndexCorpus` | search_service.py:35-41 | the enumerate loop collects every id and text in corpus order and the last position of the query id |
| `Similarity.BestRemaining` | search_service.py:59 | a position not yet chosen whose score is at least that of every other unchosen position |
| `Similarity.GreedyIsTopK` | search_service.py:56-61 | picking maxima one at a time after forcing the target's score to -1 yields a top-k choice that excludes the target |
| `Similarity.TopSimilar` | search_service.py:56-61 | `min(2, n-1)` distinct non-target positions in non-increasing score order, none of the others scoring above the last |
| `Similarity.FindSimilarReviews` | search_service.py:7-63 | corpus = store scan if non-empty else memory; `[]` below two reviews; ValueError for an unknown id; ValueError for an empty vocabulary; otherwise the ids at the top positions |
| `Similarity.QueryIdNotReturned` | search_service.py:56-61 | with unique ids, the query id is never returned |
| `Similarity.TopKDominates` | search_service.py:59 | every returned position scores at least as high as every non-target position left out |

## Left out

- HTTP routing, CORS, request and response schemas, the server entry point, `.env`
  loading and the lexicon download: framework and I/O plumbing. Errors are modelled as
  an HTTP status with its detail message.
- The VADER scorer: it is a foreign library with floating-point output. Only the
  thresholds over an abstract `real` score are modelled.
- The regular-expression engine: `\b` is modelled by an explicit boundary predicate
  over ASCII word characters. `lower()` is modelled on ASCII letters only. Unicode word
  characters and case mappings are not modelled.
- The topics list goes through a JSON encoding in the store. This is modelled as the
  identity, and the `indent` formatting of the scan is not modelled.
- SQLite connections, thread-local sessions, `close` and the context manager are
  concurrency and storage-engine detail and are not modelled. An engine failure is
  modelled as all-or-nothing through `reachable`: a statement's partial failure or an
  engine that fails and recovers between two statements of one call is not modelled.
- `CREATE TABLE IF NOT EXISTS` can reopen a table that already holds rows. The model's
  constructor opens an empty table, but `ReviewApp` accepts a store in any valid state.
- Scan order: SQLite returns `SELECT *` without `ORDER BY` in an unspecified order. The
  model fixes it to insertion order.
- The per-item fallback of batch ingestion (main.py:196-203) runs only when the store
  has no batch method. The store always has one, so that branch is not modelled.
- The `except Exception` handlers around `add_review`, `get_all_reviews_as_json`,
  `get_suggested_reply` and `add_suggested_reply` in the handlers never fire, because
  those store methods catch their own errors. The 500 path of `get_reply` is left out for
  the same reason.
- ReviewStore.ReviewDatabase.AddReviewsBatch: when opening the connection fails
  (database.py:88), both handlers call `conn.rollback()` with `conn` unbound
  (database.py:115, 119), so an UnboundLocalError escapes instead of `False`. The model
  returns false on an unreachable store. The exception is caught at main.py:204, so the
  handler's behaviour is the same: memory is extended and nothing is stored.
- The generator service (ai_services.py): it is a network call to an unseen library.
  It is modelled by `ReplyGenerator`, whose drafted reply is an arbitrary function of
  the text. That function is fixed for the generator's lifetime, so the model always
  drafts the same reply for one text, while the service may answer differently on each
  call. No lemma depends on this: `ReviewApi.ReplyIsIdempotent` takes any generator state
  for its second request.
- TF-IDF vectorisation and cosine similarity: sklearn and floating-point linear algebra.
  They are the input `similarity`, which returns one non-negative score per text or
  reports an empty vocabulary. Which texts leave the vocabulary empty (the tokeniser and
  the English stop-word list) is not modelled: the scorer decides.
- `argsort`: the selection is modelled as `min(2, n-1)` rounds of picking a remaining maximum. Which
  equally scored positions are chosen, and in what order, is left open, as in the source:
  a tie at the last chosen score may pick a different position than `argsort` does.
- The root endpoint's review count, logging and prints: they have no behaviour worth
  verifying.
- The example texts of the test script are not evaluated as whole strings. The verifier
  does not compute over long string literals, so the boundary lemmas above state the
  behaviour those examples show.
