/** The entities the review back end passes between its components. */
module Reviews {

  datatype Option<+T> = None | Some(value: T)

  /** The three sentiment classes, stored and returned as "positive", "negative" and "neutral". */
  datatype Sentiment = Positive | Negative | Neutral

  /** A review as a caller submits it for ingestion. */
  datatype ReviewInput = ReviewInput(id: string, location: string, rating: int, date: string, text: string)

  /** A review after enrichment: the input fields plus the derived sentiment and topics. */
  datatype Review = Review(
    id: string,
    location: string,
    rating: int,
    date: string,
    text: string,
    sentiment: Sentiment,
    topics: seq<string>)

  /** The outcome of an HTTP endpoint: a value, or an error status with its detail message. */
  datatype Response<+T> = Ok(value: T) | HttpError(status: int, detail: string)

  /** True when some review in `memory` carries `id`. */
  predicate HasId(memory: seq<Review>, id: string): (b: bool)
    ensures b <==> id in (set r | r in memory :: r.id)
  {
    exists i :: 0 <= i < |memory| && memory[i].id == id
  }
}
