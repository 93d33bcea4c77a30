/**
 * Similar-review lookup: choose the corpus, locate the query review, and
 * return the ids of the two reviews whose texts score highest against it.
 * The text scores (TF-IDF vectors compared by cosine similarity) are an input;
 * the vectoriser yields no scores when the texts leave it an empty vocabulary.
 */
module Similarity {
  import opened Reviews
  import opened ReviewStore

  /** The outcome of a lookup: the ids found, or the ValueError raised for an unknown id or an empty vocabulary. */
  datatype SimilarOutcome = Similar(ids: seq<string>) | ValueError(message: string)

  /** At most this many similar reviews are returned. */
  const MaxSimilar: nat := 2

  /** The message of the ValueError the vectoriser raises when no term survives tokenising. */
  const EmptyVocabulary: string := "empty vocabulary; perhaps the documents only contain stop words"

  /**
   * A scorer gives every text of a corpus a non-negative similarity to the
   * text at position `target`, as cosine similarity of non-negative TF-IDF
   * vectors does, or None when the texts leave the vectoriser no vocabulary.
   */
  ghost predicate WellFormedScorer(similarity: (seq<string>, nat) -> Option<seq<real>>) {
    forall texts: seq<string>, target: nat {:trigger similarity(texts, target)} :: target < |texts| && similarity(texts, target).Some? ==>
      && |similarity(texts, target).value| == |texts|
      && forall j :: 0 <= j < |texts| ==> similarity(texts, target).value[j] >= 0.0
  }

  function TextsOf(corpus: seq<Review>): (texts: seq<string>)
    ensures |texts| == |corpus| && forall i :: 0 <= i < |corpus| ==> texts[i] == corpus[i].text
  {
    seq(|corpus|, i requires 0 <= i < |corpus| => corpus[i].text)
  }

  /** The last position of the corpus whose id is `id`. */
  function LastIndexOf(corpus: seq<Review>, id: string): (r: Option<nat>)
    ensures r.None? <==> forall i :: 0 <= i < |corpus| ==> corpus[i].id != id
    ensures r.Some? ==> r.value < |corpus| && corpus[r.value].id == id
    ensures r.Some? ==> forall i :: r.value < i < |corpus| ==> corpus[i].id != id
  {
    if corpus == [] then None
    else if corpus[|corpus| - 1].id == id then Some(|corpus| - 1)
    else LastIndexOf(corpus[..|corpus| - 1], id)
  }

  function IdsAt(corpus: seq<Review>, positions: seq<nat>): (ids: seq<string>)
    requires forall i :: 0 <= i < |positions| ==> positions[i] < |corpus|
    ensures |ids| == |positions| && forall i :: 0 <= i < |positions| ==> ids[i] == corpus[positions[i]].id
  {
    seq(|positions|, i requires 0 <= i < |positions| => corpus[positions[i]].id)
  }

  function Min(a: int, b: int): (m: int)
    ensures m <= a && m <= b && (m == a || m == b)
  {
    if a < b then a else b
  }

  /**
   * `sel` lists min(2, n - 1) distinct positions other than `target`, in
   * non-increasing score order, and no other non-target position scores above
   * the last of them.
   */
  ghost predicate IsTopK(scores: seq<real>, target: nat, sel: seq<nat>) {
    && |scores| >= 2
    && |sel| == Min(MaxSimilar, |scores| - 1)
    && (forall i :: 0 <= i < |sel| ==> sel[i] < |scores| && sel[i] != target)
    && (forall i, j :: 0 <= i < j < |sel| ==> sel[i] != sel[j])
    && (forall i, j :: 0 <= i < j < |sel| ==> scores[sel[i]] >= scores[sel[j]])
    && (forall p :: 0 <= p < |scores| && p != target && p !in sel ==> scores[p] <= scores[sel[|sel| - 1]])
  }

  /** Each chosen position scores at least as high as every position not chosen before it. */
  ghost predicate GreedyPrefix(s: seq<real>, sel: seq<nat>) {
    && (forall i :: 0 <= i < |sel| ==> sel[i] < |s|)
    && (forall i, j :: 0 <= i < j < |sel| ==> sel[i] != sel[j])
    && (forall i, p :: 0 <= i < |sel| && 0 <= p < |s| && p !in sel[..i] ==> s[p] <= s[sel[i]])
  }

  /** While fewer than n - 1 positions are chosen, some position is neither chosen nor the target. */
  lemma SomeCandidate(n: nat, target: nat, sel: seq<nat>)
    requires target < n && |sel| <= 1 && |sel| + 2 <= n
    ensures exists q :: 0 <= q < n && q != target && q !in sel
  {
    if 0 != target && 0 !in sel {
      assert 0 < n;
    } else if 1 != target && 1 !in sel {
      assert 1 < n;
    } else {
      assert 2 != target && 2 !in sel && 2 < n;
    }
  }

  /** The first highest-scoring position of `sims` not yet in `sel`. */
  method BestRemaining(sims: array<real>, sel: seq<nat>) returns (best: nat)
    requires exists q :: 0 <= q < sims.Length && q !in sel
    ensures best < sims.Length && best !in sel
    ensures forall q :: 0 <= q < sims.Length && q !in sel ==> sims[q] <= sims[best]
  {
    var found := -1;
    var p := 0;
    while p < sims.Length
      invariant 0 <= p <= sims.Length
      invariant -1 <= found < p
      invariant found >= 0 ==> found !in sel
      invariant found >= 0 ==> forall q :: 0 <= q < p && q !in sel ==> sims[q] <= sims[found]
      invariant found < 0 ==> forall q :: 0 <= q < p ==> q in sel
    {
      if p !in sel && (found < 0 || sims[p] > sims[found]) {
        found := p;
      }
      p := p + 1;
    }
    best := found;
  }

  /** A greedy choice over the scores with the target forced to -1 is a top-k choice over the scores. */
  lemma GreedyIsTopK(scores: seq<real>, sims: seq<real>, target: nat, sel: seq<nat>)
    requires |scores| >= 2 && target < |scores| && |sims| == |scores| && sims[target] == -1.0
    requires forall p :: 0 <= p < |scores| && p != target ==> sims[p] == scores[p]
    requires GreedyPrefix(sims, sel) && |sel| == Min(MaxSimilar, |scores| - 1)
    requires forall i :: 0 <= i < |sel| ==> sel[i] != target
    ensures IsTopK(scores, target, sel)
  {
    forall i, j | 0 <= i < j < |sel|
      ensures scores[sel[i]] >= scores[sel[j]]
    {
      assert sel[j] !in sel[..i];
    }
    forall p | 0 <= p < |scores| && p != target && p !in sel
      ensures scores[p] <= scores[sel[|sel| - 1]]
    {
      assert p !in sel[..|sel| - 1];
    }
  }

  /**
   * Overwrites the target's score with -1 and picks the highest-scoring
   * positions one at a time, so the target is never picked.
   */
  method TopSimilar(scores: seq<real>, target: nat) returns (sel: seq<nat>)
    requires |scores| >= 2 && target < |scores|
    requires forall p :: 0 <= p < |scores| ==> scores[p] >= 0.0
    ensures IsTopK(scores, target, sel)
  {
    var sims := new real[|scores|](i requires 0 <= i < |scores| => scores[i]);
    sims[target] := -1.0;
    var k := Min(MaxSimilar, |scores| - 1);
    sel := [];
    while |sel| < k
      invariant |sel| <= k
      invariant sims.Length == |scores| && sims[target] == -1.0
      invariant forall p :: 0 <= p < |scores| && p != target ==> sims[p] == scores[p]
      invariant GreedyPrefix(sims[..], sel)
      invariant forall i :: 0 <= i < |sel| ==> sel[i] != target
    {
      SomeCandidate(|scores|, target, sel);
      var q :| 0 <= q < |scores| && q != target && q !in sel;
      var best := BestRemaining(sims, sel);
      assert sims[best] >= sims[q] >= 0.0;
      assert sel + [best] == (sel + [best])[..|sel|] + [best];
      sel := sel + [best];
    }
    GreedyIsTopK(scores, sims[..], target, sel);
  }

  /** Collects the ids and texts of the corpus and the last position carrying `reviewId`. */
  method IndexCorpus(corpus: seq<Review>, reviewId: string) returns (ids: seq<string>, texts: seq<string>, target: Option<nat>)
    ensures ids == IdsOf(corpus) && texts == TextsOf(corpus)
    ensures target == LastIndexOf(corpus, reviewId)
  {
    ids, texts, target := [], [], None;
    var idx := 0;
    while idx < |corpus|
      invariant 0 <= idx <= |corpus|
      invariant ids == IdsOf(corpus[..idx]) && texts == TextsOf(corpus[..idx])
      invariant target == LastIndexOf(corpus[..idx], reviewId)
    {
      assert corpus[..idx + 1][..idx] == corpus[..idx];
      ids := ids + [corpus[idx].id];
      texts := texts + [corpus[idx].text];
      if corpus[idx].id == reviewId {
        target := Some(idx);
      }
      idx := idx + 1;
    }
    assert corpus[..|corpus|] == corpus;
  }

  /**
   * The ids of the reviews most similar to `reviewId`, most similar first.
   * The corpus is the store's scan when it yields any, else the in-memory list.
   */
  method FindSimilarReviews(reviewId: string, db: ReviewDatabase, memory: seq<Review>,
                            similarity: (seq<string>, nat) -> Option<seq<real>>)
      returns (r: SimilarOutcome, ghost positions: seq<nat>)
    requires db.Valid() && WellFormedScorer(similarity)
    ensures var corpus := PreferStored(ListAll(db.rows, db.order, db.reachable), memory);
      |corpus| < 2 ==> r == Similar([])
    ensures var corpus := PreferStored(ListAll(db.rows, db.order, db.reachable), memory);
      |corpus| >= 2 && LastIndexOf(corpus, reviewId).None? ==>
        r == ValueError("Review with ID " + reviewId + " not found")
    ensures var corpus := PreferStored(ListAll(db.rows, db.order, db.reachable), memory);
      |corpus| >= 2 && LastIndexOf(corpus, reviewId).Some? &&
      similarity(TextsOf(corpus), LastIndexOf(corpus, reviewId).value).None? ==>
        r == ValueError(EmptyVocabulary)
    ensures var corpus := PreferStored(ListAll(db.rows, db.order, db.reachable), memory);
      |corpus| >= 2 && LastIndexOf(corpus, reviewId).Some? &&
      similarity(TextsOf(corpus), LastIndexOf(corpus, reviewId).value).Some? ==>
        var target := LastIndexOf(corpus, reviewId).value;
        && IsTopK(similarity(TextsOf(corpus), target).value, target, positions)
        && r == Similar(IdsAt(corpus, positions))
  {
    var records := db.GetAllReviewsAsJson();
    var corpus := PreferStored(records, memory);
    if |corpus| < 2 {
      return Similar([]), [];
    }
    var ids, texts, target := IndexCorpus(corpus, reviewId);
    if target.None? {
      return ValueError("Review with ID " + reviewId + " not found"), [];
    }
    var scores := similarity(texts, target.value);
    if scores.None? {
      return ValueError(EmptyVocabulary), [];
    }
    var sel := TopSimilar(scores.value, target.value);
    positions := sel;
    r := Similar(seq(|sel|, i requires 0 <= i < |sel| => ids[sel[i]]));
  }

  /** With unique ids in the corpus, the query id is never among the returned ids. */
  lemma QueryIdNotReturned(corpus: seq<Review>, reviewId: string, scores: seq<real>, positions: seq<nat>)
    requires forall i, j :: 0 <= i < j < |corpus| ==> corpus[i].id != corpus[j].id
    requires LastIndexOf(corpus, reviewId).Some?
    requires |scores| == |corpus| && IsTopK(scores, LastIndexOf(corpus, reviewId).value, positions)
    ensures reviewId !in IdsAt(corpus, positions)
  {
    var target := LastIndexOf(corpus, reviewId).value;
    var ids := IdsAt(corpus, positions);
    forall i | 0 <= i < |ids|
      ensures ids[i] != reviewId
    {
      assert positions[i] != target;
      if positions[i] < target {
        assert corpus[positions[i]].id != corpus[target].id;
      } else {
        assert corpus[target].id != corpus[positions[i]].id;
      }
    }
  }

  /** Every chosen position scores at least as high as every non-target position left out. */
  lemma TopKDominates(scores: seq<real>, target: nat, sel: seq<nat>, i: nat, p: nat)
    requires IsTopK(scores, target, sel)
    requires i < |sel| && p < |scores| && p != target && p !in sel
    ensures scores[p] <= scores[sel[i]]
  {
    if i < |sel| - 1 {
      assert scores[sel[i]] >= scores[sel[|sel| - 1]];
    }
  }
}
