/**
 * The request handlers of the review back end: ingestion into the in-memory
 * list and the store, the listing fallback, and the reply cache in front of
 * the reply generator.
 */
module ReviewApi {
  import opened Reviews
  import opened Enrichment
  import opened ReviewStore

  // ---------------------------------------------------------------------------
  // The reply generator, an external service
  // ---------------------------------------------------------------------------

  /** What one generator call produces: a reply, or the exception of a total outage. */
  datatype Generated = Generated(reply: string) | Raised(message: string)

  /**
   * The external reply generator. `compose` is the reply the service drafts for
   * a review text (its own fallback apologies included); while `outage` holds a
   * message, every call raises it. `calls` counts the invocations.
   */
  class ReplyGenerator {
    var calls: nat
    var outage: Option<string>
    const compose: string -> string

    constructor (compose: string -> string)
      ensures calls == 0 && outage == None && this.compose == compose
    {
      this.compose := compose;
      calls, outage := 0, None;
    }

    method GenerateReply(text: string) returns (g: Generated)
      modifies this`calls
      ensures calls == old(calls) + 1
      ensures g == if outage.Some? then Raised(outage.value) else Generated(compose(text))
    {
      calls := calls + 1;
      g := if outage.Some? then Raised(outage.value) else Generated(compose(text));
    }
  }

  // ---------------------------------------------------------------------------
  // Ingestion
  // ---------------------------------------------------------------------------

  /** The detail of the 400 response for an id already ingested. */
  function DuplicateDetail(id: string): (detail: string) {
    "Review with id " + id + " already exists"
  }

  /** The enriched form of an input, given the compound polarity score of its text. */
  ghost function Enrich(input: ReviewInput, compound: real): (e: Review)
    ensures e.id == input.id && e.location == input.location && e.rating == input.rating
    ensures e.date == input.date && e.text == input.text
    ensures e.sentiment == AnalyzeSentiment(compound) && e.topics != []
  {
    Review(input.id, input.location, input.rating, input.date, input.text, AnalyzeSentiment(compound), Topics(input.text))
  }

  ghost function EnrichAll(inputs: seq<ReviewInput>, polarity: string -> real): (es: seq<Review>)
    ensures |es| == |inputs|
    ensures forall i :: 0 <= i < |inputs| ==> es[i] == Enrich(inputs[i], polarity(inputs[i].text))
  {
    seq(|inputs|, i requires 0 <= i < |inputs| => Enrich(inputs[i], polarity(inputs[i].text)))
  }

  /** The position of the first input whose id is already in memory. */
  function FirstKnown(memory: seq<Review>, inputs: seq<ReviewInput>): (r: Option<nat>)
    ensures r.None? <==> forall i :: 0 <= i < |inputs| ==> !HasId(memory, inputs[i].id)
    ensures r.Some? ==> r.value < |inputs| && HasId(memory, inputs[r.value].id)
    ensures r.Some? ==> forall j :: 0 <= j < r.value ==> !HasId(memory, inputs[j].id)
  {
    if inputs == [] then None
    else if HasId(memory, inputs[0].id) then Some(0)
    else
      match FirstKnown(memory, inputs[1..])
      case None => None
      case Some(k) => Some(k + 1)
  }

  /**
   * What the processing loop of a batch yields: the first input whose id is
   * already in memory fails the whole batch; otherwise every input is enriched.
   * Ids repeated inside the batch are not compared with each other.
   */
  ghost function BatchOutcome(memory: seq<Review>, inputs: seq<ReviewInput>, polarity: string -> real): (r: Response<seq<Review>>)
    ensures r.HttpError? <==> exists i :: 0 <= i < |inputs| && HasId(memory, inputs[i].id)
    ensures r.HttpError? ==> r == HttpError(400, DuplicateDetail(inputs[FirstKnown(memory, inputs).value].id))
    ensures r.Ok? ==> |r.value| == |inputs| && forall i :: 0 <= i < |inputs| ==>
      r.value[i].id == inputs[i].id && r.value[i].text == inputs[i].text && r.value[i].rating == inputs[i].rating
  {
    match FirstKnown(memory, inputs)
    case Some(i) => HttpError(400, DuplicateDetail(inputs[i].id))
    case None => Ok(EnrichAll(inputs, polarity))
  }

  /** Two inputs sharing a fresh id pass the memory check together, while the store rejects them as a batch. */
  lemma RepeatedIdInBatchIsNotCaught(memory: seq<Review>, rows: map<string, Row>, a: ReviewInput, b: ReviewInput, polarity: string -> real)
    requires a.id == b.id && !HasId(memory, a.id)
    ensures BatchOutcome(memory, [a, b], polarity).Ok?
    ensures var es := BatchOutcome(memory, [a, b], polarity).value; |es| == 2 && es[0].id == es[1].id
    ensures !BatchFits(rows, BatchOutcome(memory, [a, b], polarity).value)
  {
    assert FirstKnown(memory, [a, b]) == None;
  }

  // ---------------------------------------------------------------------------
  // The reply cache
  // ---------------------------------------------------------------------------

  /** The body of a generate-reply response. */
  datatype ReplyBody = ReplyBody(reviewId: string, reviewText: string, suggestedReply: string)

  /** The body of a fetch-reply response. */
  datatype StoredReplyBody = StoredReplyBody(reviewId: string, reply: string)

  /** The first review in memory carrying `id`. */
  function FindInMemory(memory: seq<Review>, id: string): (r: Option<Review>)
    ensures r.None? <==> !HasId(memory, id)
    ensures r.Some? ==> r.value.id == id && r.value in memory
    ensures r.Some? ==> exists i :: 0 <= i < |memory| && memory[i] == r.value && forall j :: 0 <= j < i ==> memory[j].id != id
  {
    if memory == [] then None
    else if memory[0].id == id then Some(memory[0])
    else FindInMemory(memory[1..], id)
  }

  /** The review of the first scanned record carrying `id`. */
  function FindInRecords(records: seq<ReviewRecord>, id: string): (r: Option<Review>)
    ensures r.None? <==> forall i :: 0 <= i < |records| ==> records[i].review.id != id
    ensures r.Some? ==> r.value.id == id && exists i :: 0 <= i < |records| && records[i].review == r.value
    ensures r.Some? ==> exists i :: 0 <= i < |records| && records[i].review == r.value && forall j :: 0 <= j < i ==> records[j].review.id != id
  {
    if records == [] then None
    else if records[0].review.id == id then Some(records[0].review)
    else FindInRecords(records[1..], id)
  }

  /** The review a reply request is about: memory first, then a scan of the store. */
  function ResolveReview(memory: seq<Review>, rows: map<string, Row>, order: seq<string>, reachable: bool, id: string): (r: Option<Review>)
    requires Covers(rows, order)
    ensures HasId(memory, id) ==> r == FindInMemory(memory, id)
    ensures r.Some? ==> r.value.id == id
    ensures r.Some? ==> r.value in memory || (reachable && exists k :: k in rows && rows[k].review == r.value)
  {
    match FindInMemory(memory, id)
    case Some(r) => Some(r)
    case None => FindInRecords(ListAll(rows, order, reachable), id)
  }

  /** The response, whether the generator ran, and the table after one generate-reply request. */
  datatype ReplyOutcome = ReplyOutcome(response: Response<ReplyBody>, generated: bool, rows: map<string, Row>)

  /** The detail of the 404 response for an unknown review. */
  function NotFoundDetail(id: string): (detail: string) {
    "Review with id " + id + " not found"
  }

  /** One generate-reply request: resolve the review, serve a cached reply, or generate and write back. */
  function ReplyFlow(memory: seq<Review>, rows: map<string, Row>, order: seq<string>, reachable: bool,
                     outage: Option<string>, compose: string -> string, id: string): (o: ReplyOutcome)
    requires Covers(rows, order)
    ensures o.generated <==> ResolveReview(memory, rows, order, reachable, id).Some? && ReplyLookup(rows, reachable, id).None?
    ensures o.response.HttpError? ==> o.rows == rows && (o.response.status == 404 || o.response.status == 500)
    ensures !o.generated ==> o.rows == rows
    ensures o.response.Ok? ==> o.response.value.reviewId == id
    ensures o.rows.Keys == rows.Keys
    ensures forall k :: k in rows ==> o.rows[k].review == rows[k].review
    ensures forall k :: k in rows && k != id ==> o.rows[k] == rows[k]
  {
    match ResolveReview(memory, rows, order, reachable, id)
    case None => ReplyOutcome(HttpError(404, NotFoundDetail(id)), false, rows)
    case Some(review) =>
      match ReplyLookup(rows, reachable, id)
      case Some(cached) => ReplyOutcome(Ok(ReplyBody(id, review.text, cached)), false, rows)
      case None =>
        if outage.Some? then
          ReplyOutcome(HttpError(500, "Failed to generate reply: " + outage.value), true, rows)
        else
          var reply := compose(review.text);
          ReplyOutcome(Ok(ReplyBody(id, review.text, reply)), true,
                       if reachable && id in rows then WithReply(rows, id, reply) else rows)
  }

  /** What a fetch-reply request returns. */
  function GetReplyResponse(rows: map<string, Row>, reachable: bool, id: string): (r: Response<StoredReplyBody>)
    ensures r.HttpError? <==> ReplyLookup(rows, reachable, id).None?
    ensures r.HttpError? ==> r == HttpError(404, "No reply found for review " + id)
    ensures r.Ok? ==> r.value.reviewId == id && Some(r.value.reply) == rows[id].reply && r.value.reply != ""
  {
    match ReplyLookup(rows, reachable, id)
    case None => HttpError(404, "No reply found for review " + id)
    case Some(reply) => Ok(StoredReplyBody(id, reply))
  }

  // ---------------------------------------------------------------------------
  // Properties of the reply cache
  // ---------------------------------------------------------------------------

  /** With a consistent table, the review is unresolvable exactly when neither memory nor a reachable store has it. */
  lemma ResolveNoneIff(memory: seq<Review>, rows: map<string, Row>, order: seq<string>, reachable: bool, id: string)
    requires Covers(rows, order) && (forall k :: k in rows <==> k in order) && (forall k :: k in rows ==> rows[k].review.id == k)
    ensures ResolveReview(memory, rows, order, reachable, id).None? <==> !HasId(memory, id) && !(reachable && id in rows)
  {
    if !HasId(memory, id) && reachable && id in rows {
      var i :| 0 <= i < |order| && order[i] == id;
      assert ListAll(rows, order, reachable)[i].review.id == id;
    }
  }

  /** An unknown id yields 404 without calling the generator or writing anything. */
  lemma UnknownReviewIsNotFound(memory: seq<Review>, rows: map<string, Row>, order: seq<string>, reachable: bool,
                                outage: Option<string>, compose: string -> string, id: string)
    requires Covers(rows, order) && (forall k :: k in rows <==> k in order) && (forall k :: k in rows ==> rows[k].review.id == k)
    ensures var o := ReplyFlow(memory, rows, order, reachable, outage, compose, id);
      (o.response.HttpError? && o.response.status == 404) <==> !HasId(memory, id) && !(reachable && id in rows)
    ensures var o := ReplyFlow(memory, rows, order, reachable, outage, compose, id);
      o.response.HttpError? && o.response.status == 404 ==> !o.generated && o.rows == rows && o.response.detail == NotFoundDetail(id)
  {
    ResolveNoneIff(memory, rows, order, reachable, id);
  }

  /** A non-empty stored reply is returned verbatim; the generator is not called and nothing is written. */
  lemma CachedReplyIsServed(memory: seq<Review>, rows: map<string, Row>, order: seq<string>, reachable: bool,
                            outage: Option<string>, compose: string -> string, id: string)
    requires Covers(rows, order)
    requires ResolveReview(memory, rows, order, reachable, id).Some?
    requires reachable && id in rows && rows[id].reply.Some? && rows[id].reply.value != ""
    ensures var o := ReplyFlow(memory, rows, order, reachable, outage, compose, id);
      && o.response.Ok? && o.response.value.suggestedReply == rows[id].reply.value
      && o.response.value.reviewId == id && !o.generated && o.rows == rows
  {
  }

  /**
   * Without a visible stored reply the generator is called once; its reply is
   * returned even when the write-back fails, and written when the row exists.
   */
  lemma MissGeneratesOnce(memory: seq<Review>, rows: map<string, Row>, order: seq<string>, reachable: bool,
                          compose: string -> string, id: string)
    requires Covers(rows, order)
    requires ResolveReview(memory, rows, order, reachable, id).Some?
    requires ReplyLookup(rows, reachable, id).None?
    ensures var o := ReplyFlow(memory, rows, order, reachable, None, compose, id);
      var text := ResolveReview(memory, rows, order, reachable, id).value.text;
      && o.generated
      && o.response == Ok(ReplyBody(id, text, compose(text)))
      && o.rows == if reachable && id in rows then WithReply(rows, id, compose(text)) else rows
  {
  }

  /** Lookups by id over two scans with the same reviews agree. */
  lemma {:induction false} FindInRecordsSameReviews(a: seq<ReviewRecord>, b: seq<ReviewRecord>, id: string)
    requires |a| == |b| && forall i :: 0 <= i < |a| ==> a[i].review == b[i].review
    ensures FindInRecords(a, id) == FindInRecords(b, id)
  {
    if a != [] {
      FindInRecordsSameReviews(a[1..], b[1..], id);
    }
  }

  /** Writing a reply does not change which review a request resolves to. */
  lemma ResolveIgnoresReplies(memory: seq<Review>, rows: map<string, Row>, order: seq<string>, reachable: bool, id: string, reply: string, other: string)
    requires Covers(rows, order) && id in rows
    ensures Covers(WithReply(rows, id, reply), order)
    ensures ResolveReview(memory, WithReply(rows, id, reply), order, reachable, other) == ResolveReview(memory, rows, order, reachable, other)
  {
    var rows' := WithReply(rows, id, reply);
    FindInRecordsSameReviews(ListAll(rows', order, reachable), ListAll(rows, order, reachable), other);
  }

  /**
   * After a request that generated a non-empty reply and wrote it back, a
   * second request returns the identical response and does not call the
   * generator, whatever state the generator is in.
   */
  lemma ReplyIsIdempotent(memory: seq<Review>, rows: map<string, Row>, order: seq<string>, reachable: bool,
                          outage: Option<string>, compose: string -> string, id: string,
                          outage2: Option<string>, compose2: string -> string)
    requires Covers(rows, order)
    requires var o := ReplyFlow(memory, rows, order, reachable, outage, compose, id);
      o.response.Ok? && o.response.value.suggestedReply != "" && reachable && id in rows
    ensures var o := ReplyFlow(memory, rows, order, reachable, outage, compose, id);
      Covers(o.rows, order) &&
      var o2 := ReplyFlow(memory, o.rows, order, reachable, outage2, compose2, id);
      o2.response == o.response && !o2.generated && o2.rows == o.rows
  {
    var o := ReplyFlow(memory, rows, order, reachable, outage, compose, id);
    if o.generated {
      ResolveIgnoresReplies(memory, rows, order, reachable, id, o.response.value.suggestedReply, id);
    }
  }

  /** A generated empty reply is stored but reads as absent, so the next request generates again. */
  lemma EmptyReplyIsRegenerated(memory: seq<Review>, rows: map<string, Row>, order: seq<string>, reachable: bool,
                                compose: string -> string, id: string, outage2: Option<string>)
    requires Covers(rows, order)
    requires var o := ReplyFlow(memory, rows, order, reachable, None, compose, id);
      o.generated && o.response.Ok? && o.response.value.suggestedReply == ""
    ensures var o := ReplyFlow(memory, rows, order, reachable, None, compose, id);
      Covers(o.rows, order) && ReplyFlow(memory, o.rows, order, reachable, outage2, compose, id).generated
  {
    var o := ReplyFlow(memory, rows, order, reachable, None, compose, id);
    if reachable && id in rows {
      ResolveIgnoresReplies(memory, rows, order, reachable, id, "", id);
    }
  }

  /** A review known only in memory never gets a stored reply, so every request generates anew. */
  lemma MemoryOnlyReviewIsRegenerated(memory: seq<Review>, rows: map<string, Row>, order: seq<string>, reachable: bool,
                                      outage: Option<string>, compose: string -> string, id: string)
    requires Covers(rows, order)
    requires HasId(memory, id) && !(reachable && id in rows)
    ensures var o := ReplyFlow(memory, rows, order, reachable, outage, compose, id);
      o.generated && o.rows == rows
  {
  }

  /** After a generated non-empty reply was written back, fetching the reply returns it verbatim. */
  lemma FetchAfterGenerate(memory: seq<Review>, rows: map<string, Row>, order: seq<string>, reachable: bool,
                           compose: string -> string, id: string)
    requires Covers(rows, order)
    requires var o := ReplyFlow(memory, rows, order, reachable, None, compose, id);
      o.response.Ok? && o.response.value.suggestedReply != "" && reachable && id in rows
    ensures var o := ReplyFlow(memory, rows, order, reachable, None, compose, id);
      GetReplyResponse(o.rows, reachable, id) == Ok(StoredReplyBody(id, o.response.value.suggestedReply))
  {
  }

  // ---------------------------------------------------------------------------
  // The application state and its handlers
  // ---------------------------------------------------------------------------

  class ReviewApp {
    /** The in-memory list of ingested reviews. */
    var reviewsDb: seq<Review>
    const db: ReviewDatabase
    const generator: ReplyGenerator
    /** The compound polarity score the sentiment analyser gives a text. */
    const polarity: string -> real

    ghost predicate Valid()
      reads this, db
    {
      db.Valid()
    }

    constructor (db: ReviewDatabase, generator: ReplyGenerator, polarity: string -> real)
      requires db.Valid()
      ensures Valid() && reviewsDb == []
      ensures this.db == db && this.generator == generator && this.polarity == polarity
    {
      this.db, this.generator, this.polarity := db, generator, polarity;
      reviewsDb := [];
    }

    /** Rejects an id already in memory with 400, otherwise enriches the input. */
    method ProcessSingleReview(input: ReviewInput) returns (r: Response<Review>)
      ensures HasId(reviewsDb, input.id) ==> r == HttpError(400, DuplicateDetail(input.id))
      ensures !HasId(reviewsDb, input.id) ==> r == Ok(Enrich(input, polarity(input.text)))
    {
      if HasId(reviewsDb, input.id) {
        return HttpError(400, DuplicateDetail(input.id));
      }
      var sentiment := AnalyzeSentiment(polarity(input.text));
      var topics := ExtractTopics(input.text);
      r := Ok(Review(input.id, input.location, input.rating, input.date, input.text, sentiment, topics));
    }

    /** Processes every input of a batch in order; the first failure aborts the batch. */
    method ProcessBatch(inputs: seq<ReviewInput>) returns (r: Response<seq<Review>>)
      ensures r == BatchOutcome(reviewsDb, inputs, polarity)
    {
      var enriched: seq<Review> := [];
      var i := 0;
      while i < |inputs|
        invariant 0 <= i <= |inputs|
        invariant forall j :: 0 <= j < i ==> !HasId(reviewsDb, inputs[j].id)
        invariant |enriched| == i
        invariant forall j :: 0 <= j < i ==> enriched[j] == Enrich(inputs[j], polarity(inputs[j].text))
      {
        var one := ProcessSingleReview(inputs[i]);
        if one.HttpError? {
          assert FirstKnown(reviewsDb, inputs) == Some(i);
          return HttpError(one.status, one.detail);
        }
        enriched := enriched + [one.value];
        i := i + 1;
      }
      assert enriched == EnrichAll(inputs, polarity);
      r := Ok(enriched);
    }

    /** Ingests one review: memory first, then the store, whose failure is ignored. */
    method IngestReview(input: ReviewInput) returns (r: Response<Review>)
      requires Valid()
      modifies this`reviewsDb, db`rows, db`order
      ensures Valid()
      ensures HasId(old(reviewsDb), input.id) ==>
        r == HttpError(400, DuplicateDetail(input.id)) && reviewsDb == old(reviewsDb) && unchanged(db)
      ensures !HasId(old(reviewsDb), input.id) ==>
        var e := Enrich(input, polarity(input.text));
        var stored := db.reachable && input.id !in old(db.rows) && FitsInteger(input.rating);
        && r == Ok(e)
        && reviewsDb == old(reviewsDb) + [e]
        && db.rows == (if stored then old(db.rows)[input.id := NewRow(e)] else old(db.rows))
        && db.order == (if stored then old(db.order) + [input.id] else old(db.order))
    {
      r := ProcessSingleReview(input);
      if r.HttpError? {
        return;
      }
      reviewsDb := reviewsDb + [r.value];
      var _ := db.AddReview(r.value);
    }

    /** Ingests a batch: memory is extended only when every input passes, then the store batch is attempted. */
    method IngestBatch(inputs: seq<ReviewInput>) returns (r: Response<seq<Review>>)
      requires Valid()
      modifies this`reviewsDb, db`rows, db`order
      ensures Valid()
      ensures r == BatchOutcome(old(reviewsDb), inputs, polarity)
      ensures r.HttpError? ==> reviewsDb == old(reviewsDb) && unchanged(db)
      ensures r.Ok? ==>
        var stored := db.reachable && BatchFits(old(db.rows), r.value) && RatingsFit(r.value);
        && reviewsDb == old(reviewsDb) + r.value
        && db.rows == (if stored then InsertAll(old(db.rows), r.value) else old(db.rows))
        && db.order == (if stored then old(db.order) + IdsOf(r.value) else old(db.order))
    {
      r := ProcessBatch(inputs);
      if r.HttpError? {
        return;
      }
      reviewsDb := reviewsDb + r.value;
      var _ := db.AddReviewsBatch(r.value);
    }

    /** Lists the stored reviews, or the in-memory list when the store yields none. */
    method GetAllReviews() returns (list: seq<Review>)
      requires Valid()
      ensures list == PreferStored(ListAll(db.rows, db.order, db.reachable), reviewsDb)
    {
      var records := db.GetAllReviewsAsJson();
      list := PreferStored(records, reviewsDb);
    }

    /** Returns the cached reply of a review, or generates, writes back and returns a new one. */
    method GenerateReply(id: string) returns (r: Response<ReplyBody>)
      requires Valid()
      modifies db`rows, generator`calls
      ensures Valid()
      ensures var o := ReplyFlow(reviewsDb, old(db.rows), db.order, db.reachable, generator.outage, generator.compose, id);
        && r == o.response
        && db.rows == o.rows
        && generator.calls == old(generator.calls) + (if o.generated then 1 else 0)
    {
      var review := FindInMemory(reviewsDb, id);
      if review.None? {
        var records := db.GetAllReviewsAsJson();
        review := FindInRecords(records, id);
      }
      if review.None? {
        return HttpError(404, NotFoundDetail(id));
      }
      var existing := db.GetSuggestedReply(id);
      if existing.Some? {
        return Ok(ReplyBody(id, review.value.text, existing.value));
      }
      var g := generator.GenerateReply(review.value.text);
      if g.Raised? {
        return HttpError(500, "Failed to generate reply: " + g.message);
      }
      var _ := db.AddSuggestedReply(id, g.reply);
      r := Ok(ReplyBody(id, review.value.text, g.reply));
    }

    /** Returns the stored reply of a review, or 404 when none is visible. */
    method GetReply(id: string) returns (r: Response<StoredReplyBody>)
      requires Valid()
      ensures r == GetReplyResponse(db.rows, db.reachable, id)
    {
      var reply := db.GetSuggestedReply(id);
      if reply.None? {
        return HttpError(404, "No reply found for review " + id);
      }
      r := Ok(StoredReplyBody(id, reply.value));
    }
  }

  /**
   * Two reply requests followed by a fetch, for a review the reachable store
   * holds without a reply: the generator runs once, both requests return the
   * same reply, and the fetch returns it too (when the reply is non-empty).
   */
  method GenerateTwiceThenFetch(app: ReviewApp, id: string)
      returns (first: Response<ReplyBody>, second: Response<ReplyBody>, fetched: Response<StoredReplyBody>)
    requires app.Valid() && app.db.reachable && id in app.db.rows && app.db.rows[id].reply.None?
    requires app.generator.outage.None?
    modifies app.db`rows, app.generator`calls
    ensures first.Ok? && first.value.reviewId == id
    ensures first.value.suggestedReply != "" ==>
      second == first && fetched == Ok(StoredReplyBody(id, first.value.suggestedReply))
      && app.generator.calls == old(app.generator.calls) + 1
  {
    ResolveNoneIff(app.reviewsDb, app.db.rows, app.db.order, app.db.reachable, id);
    ghost var rows0 := app.db.rows;
    first := app.GenerateReply(id);
    ghost var calls1 := app.generator.calls;
    second := app.GenerateReply(id);
    if first.value.suggestedReply != "" {
      ReplyIsIdempotent(app.reviewsDb, rows0, app.db.order, app.db.reachable, None, app.generator.compose, id,
                        None, app.generator.compose);
    }
    fetched := app.GetReply(id);
  }
}
