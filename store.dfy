/**
 * The durable review store: a keyed table from review id to the enriched
 * review and its nullable suggested reply.
 */
module ReviewStore {
  import opened Reviews

  /** One row of the table: the enriched review and the suggested_reply column (None is NULL). */
  datatype Row = Row(review: Review, reply: Option<string>)

  /** A review as a read returns it: suggestedReply is present only for a non-empty reply. */
  datatype ReviewRecord = ReviewRecord(review: Review, suggestedReply: Option<string>)

  /** A stored reply as reads see it: NULL and the empty string are both absent. */
  function VisibleReply(reply: Option<string>): (r: Option<string>)
    ensures r.Some? <==> reply.Some? && reply.value != ""
    ensures r.Some? ==> r == reply
  {
    if reply.Some? && reply.value != "" then reply else None
  }

  /** What a read returns for a row: its review, and its reply only when that is non-empty. */
  function RecordOf(row: Row): (r: ReviewRecord)
    ensures r.review == row.review
    ensures r.suggestedReply.Some? <==> row.reply.Some? && row.reply.value != ""
    ensures r.suggestedReply.Some? ==> r.suggestedReply == row.reply
  {
    ReviewRecord(row.review, VisibleReply(row.reply))
  }

  /** A freshly inserted row: the reply column starts as NULL. */
  function NewRow(review: Review): (row: Row)
    ensures row.review == review && row.reply.None?
  {
    Row(review, None)
  }

  /** The smallest and largest value an SQLite INTEGER column holds (signed 64-bit). */
  const MinInteger: int := -0x8000_0000_0000_0000
  const MaxInteger: int := 0x7FFF_FFFF_FFFF_FFFF

  /** A value the driver can bind to an INTEGER column; a larger one raises OverflowError. */
  predicate FitsInteger(v: int): (b: bool)
    ensures b <==> 0 <= v + 0x8000_0000_0000_0000 < 0x1_0000_0000_0000_0000
  {
    MinInteger <= v <= MaxInteger
  }

  /** Every rating of the batch can be bound. */
  predicate RatingsFit(batch: seq<Review>): (b: bool)
    ensures b <==> forall r :: r in batch ==> FitsInteger(r.rating)
  {
    forall i :: 0 <= i < |batch| ==> FitsInteger(batch[i].rating)
  }

  function IdsOf(batch: seq<Review>): (ids: seq<string>)
    ensures |ids| == |batch| && forall i :: 0 <= i < |batch| ==> ids[i] == batch[i].id
  {
    seq(|batch|, i requires 0 <= i < |batch| => batch[i].id)
  }

  ghost predicate Distinct(ids: seq<string>) {
    forall i, j :: 0 <= i < j < |ids| ==> ids[i] != ids[j]
  }

  /** Every id in `order` names a row. */
  ghost predicate Covers(rows: map<string, Row>, order: seq<string>) {
    forall i :: 0 <= i < |order| ==> order[i] in rows
  }

  /**
   * Every item of the batch inserts without an integrity error: its id is free
   * in the table the items before it have built (`BatchFitsMeaning` restates
   * this as "no id is in the table and no two items share an id").
   */
  predicate BatchFits(rows: map<string, Row>, batch: seq<Review>): (b: bool)
    ensures b ==> forall i :: 0 <= i < |batch| ==> batch[i].id !in rows
  {
    batch == [] ||
    (BatchFits(rows, batch[..|batch| - 1]) && batch[|batch| - 1].id !in InsertAll(rows, batch[..|batch| - 1]))
  }

  /** The table after inserting the batch items one after another. */
  function InsertAll(rows: map<string, Row>, batch: seq<Review>): (r: map<string, Row>)
    ensures forall k :: k in r <==> k in rows || k in IdsOf(batch)
  {
    if batch == [] then rows
    else
      var last := batch[|batch| - 1];
      InsertAll(rows, batch[..|batch| - 1])[last.id := NewRow(last)]
  }

  /** The table after the reply of row `id` is overwritten. */
  function WithReply(rows: map<string, Row>, id: string, reply: string): (r: map<string, Row>)
    requires id in rows
    ensures r.Keys == rows.Keys
    ensures r[id].review == rows[id].review && r[id].reply == Some(reply)
    ensures forall k :: k in rows && k != id ==> r[k] == rows[k]
  {
    rows[id := Row(rows[id].review, Some(reply))]
  }

  /** What a full scan yields: one record per id of `order`, in that order; nothing when unreachable. */
  function ListAll(rows: map<string, Row>, order: seq<string>, reachable: bool): (records: seq<ReviewRecord>)
    requires Covers(rows, order)
    ensures !reachable ==> records == []
    ensures reachable ==> |records| == |order|
    ensures reachable ==> forall i :: 0 <= i < |order| ==>
      records[i].review == rows[order[i]].review && records[i].suggestedReply == VisibleReply(rows[order[i]].reply)
  {
    if reachable then seq(|order|, i requires 0 <= i < |order| => RecordOf(rows[order[i]])) else []
  }

  /** What a reply read yields. */
  function ReplyLookup(rows: map<string, Row>, reachable: bool, id: string): (r: Option<string>)
    ensures r.Some? <==> reachable && id in rows && rows[id].reply.Some? && rows[id].reply.value != ""
    ensures r.Some? ==> r == rows[id].reply
  {
    if reachable && id in rows then VisibleReply(rows[id].reply) else None
  }

  /** The reviews of a scan when it yields any, otherwise the in-memory list; replies are dropped. */
  function PreferStored(stored: seq<ReviewRecord>, memory: seq<Review>): (r: seq<Review>)
    ensures stored == [] ==> r == memory
    ensures stored != [] ==> |r| == |stored| && forall i :: 0 <= i < |stored| ==> r[i] == stored[i].review
  {
    if stored != [] then seq(|stored|, i requires 0 <= i < |stored| => stored[i].review) else memory
  }

  // ---------------------------------------------------------------------------
  // Properties of the table operations
  // ---------------------------------------------------------------------------

  /** Appending an id keeps a list of ids distinct exactly when the id is new. */
  lemma DistinctSnoc(ids: seq<string>, x: string)
    ensures Distinct(ids + [x]) <==> Distinct(ids) && x !in ids
  {
    var s := ids + [x];
    if Distinct(ids) && x !in ids {
      forall i, j | 0 <= i < j < |s|
        ensures s[i] != s[j]
      {
        if j == |ids| {
          assert s[i] == ids[i];
        }
      }
    }
    if Distinct(s) {
      forall i, j | 0 <= i < j < |ids|
        ensures ids[i] != ids[j]
      {
        assert s[i] == ids[i] && s[j] == ids[j];
      }
      forall i | 0 <= i < |ids|
        ensures ids[i] != x
      {
        assert s[i] == ids[i] && s[|ids|] == x;
      }
    }
  }

  /** No item of the batch has an id the table already holds. */
  ghost predicate FreshIds(rows: map<string, Row>, batch: seq<Review>) {
    forall i :: 0 <= i < |batch| ==> batch[i].id !in rows
  }

  /** A batch fits exactly when no item's id is in the table and no two items share an id. */
  lemma {:induction false} BatchFitsMeaning(rows: map<string, Row>, batch: seq<Review>)
    ensures BatchFits(rows, batch) <==> FreshIds(rows, batch) && Distinct(IdsOf(batch))
  {
    if batch != [] {
      var init, last := batch[..|batch| - 1], batch[|batch| - 1];
      BatchFitsMeaning(rows, init);
      assert IdsOf(batch) == IdsOf(init) + [last.id];
      DistinctSnoc(IdsOf(init), last.id);
      assert FreshIds(rows, batch) <==> FreshIds(rows, init) && last.id !in rows by {
        assert forall i :: 0 <= i < |init| ==> init[i] == batch[i];
      }
    }
  }

  /**
   * A fitting batch leaves every existing row as it was and adds each batch
   * item as a row with no reply.
   */
  lemma {:induction false} InsertAllEffect(rows: map<string, Row>, batch: seq<Review>)
    requires BatchFits(rows, batch)
    ensures forall k :: k in rows ==> InsertAll(rows, batch)[k] == rows[k]
    ensures forall i :: 0 <= i < |batch| ==> InsertAll(rows, batch)[batch[i].id] == NewRow(batch[i])
  {
    if batch != [] {
      var init := batch[..|batch| - 1];
      InsertAllEffect(rows, init);
      var last := batch[|batch| - 1];
      forall i | 0 <= i < |batch|
        ensures InsertAll(rows, batch)[batch[i].id] == NewRow(batch[i])
      {
        if i < |batch| - 1 {
          assert batch[i] == init[i];
          assert batch[i].id in IdsOf(init);
        }
      }
    }
  }

  /** A fitting batch keeps the table invariant: order still lists every row once, under its own id. */
  lemma {:induction false} InsertAllKeepsInvariant(rows: map<string, Row>, order: seq<string>, batch: seq<Review>)
    requires Distinct(order) && (forall k :: k in rows <==> k in order) && (forall k :: k in rows ==> rows[k].review.id == k)
    requires BatchFits(rows, batch)
    ensures var rows', order' := InsertAll(rows, batch), order + IdsOf(batch);
      && Distinct(order')
      && (forall k :: k in rows' <==> k in order')
      && (forall k :: k in rows' ==> rows'[k].review.id == k)
  {
    InsertAllEffect(rows, batch);
    BatchFitsMeaning(rows, batch);
    var rows', order' := InsertAll(rows, batch), order + IdsOf(batch);
    forall i, j | 0 <= i < j < |order'|
      ensures order'[i] != order'[j]
    {
      if j >= |order| && i < |order| {
        assert order'[j] == batch[j - |order|].id;
        assert order[i] in rows;
      }
    }
    forall k | k in rows'
      ensures k in order' && rows'[k].review.id == k
    {
      if k !in rows {
        var i :| 0 <= i < |batch| && batch[i].id == k;
        assert order'[|order| + i] == k;
      }
    }
  }

  /** A reply write is read back verbatim when non-empty, and never shows through on another id. */
  lemma ReplyReadAfterWrite(rows: map<string, Row>, id: string, reply: string, other: string)
    requires id in rows
    ensures ReplyLookup(WithReply(rows, id, reply), true, id) == if reply == "" then None else Some(reply)
    ensures other != id ==> ReplyLookup(WithReply(rows, id, reply), true, other) == ReplyLookup(rows, true, other)
    ensures WithReply(rows, id, reply).Keys == rows.Keys
    ensures forall k :: k in rows ==> WithReply(rows, id, reply)[k].review == rows[k].review
  {
  }

  /** A scan lists every stored review exactly once. */
  lemma ListAllComplete(rows: map<string, Row>, order: seq<string>, k: string)
    requires Covers(rows, order) && Distinct(order) && (forall key :: key in rows <==> key in order)
    requires forall key :: key in rows ==> rows[key].review.id == key
    ensures k in rows ==> exists i :: 0 <= i < |order| && ListAll(rows, order, true)[i] == RecordOf(rows[k])
    ensures forall i, j :: 0 <= i < j < |order| ==> ListAll(rows, order, true)[i].review.id != ListAll(rows, order, true)[j].review.id
  {
    var l := ListAll(rows, order, true);
    if k in rows {
      var i :| 0 <= i < |order| && order[i] == k;
      assert l[i] == RecordOf(rows[k]);
    }
    forall i, j | 0 <= i < j < |order|
      ensures l[i].review.id != l[j].review.id
    {
      assert l[i].review.id == order[i] && l[j].review.id == order[j];
    }
  }

  /** An item whose id is already staged makes the whole batch unfit. */
  lemma CollisionBreaksFit(rows: map<string, Row>, batch: seq<Review>, i: nat)
    requires i < |batch| && batch[i].id in InsertAll(rows, batch[..i])
    ensures !BatchFits(rows, batch)
  {
    BatchFitsMeaning(rows, batch);
    if batch[i].id !in rows {
      assert batch[i].id in IdsOf(batch[..i]);
      var j :| 0 <= j < i && batch[..i][j].id == batch[i].id;
      assert batch[j].id == batch[i].id;
    }
  }

  /** An item whose id is not yet staged extends a fitting prefix of the batch. */
  lemma FreshItemFits(rows: map<string, Row>, batch: seq<Review>, i: nat)
    requires i < |batch| && BatchFits(rows, batch[..i]) && batch[i].id !in InsertAll(rows, batch[..i])
    ensures BatchFits(rows, batch[..i + 1])
    ensures InsertAll(rows, batch[..i + 1]) == InsertAll(rows, batch[..i])[batch[i].id := NewRow(batch[i])]
    ensures IdsOf(batch[..i + 1]) == IdsOf(batch[..i]) + [batch[i].id]
  {
    assert batch[..i + 1][..i] == batch[..i];
  }

  /**
   * Runs the inserts of a batch inside an open transaction: the table and scan
   * order it would commit, or failure at the first item whose id is already taken.
   */
  method StageBatch(rows: map<string, Row>, order: seq<string>, batch: seq<Review>)
      returns (ok: bool, staged: map<string, Row>, stagedOrder: seq<string>)
    ensures ok == BatchFits(rows, batch)
    ensures ok ==> staged == InsertAll(rows, batch) && stagedOrder == order + IdsOf(batch)
  {
    staged, stagedOrder := rows, order;
    var i := 0;
    while i < |batch|
      invariant 0 <= i <= |batch|
      invariant BatchFits(rows, batch[..i])
      invariant staged == InsertAll(rows, batch[..i])
      invariant stagedOrder == order + IdsOf(batch[..i])
    {
      if batch[i].id in staged {
        // the integrity error rolls the transaction back
        CollisionBreaksFit(rows, batch, i);
        return false, rows, order;
      }
      FreshItemFits(rows, batch, i);
      staged := staged[batch[i].id := NewRow(batch[i])];
      stagedOrder := stagedOrder + [batch[i].id];
      i := i + 1;
    }
    assert batch[..|batch|] == batch;
    ok := true;
  }

  // ---------------------------------------------------------------------------
  // The store object
  // ---------------------------------------------------------------------------

  class ReviewDatabase {
    /** The rows of the reviews table, keyed by review id. */
    var rows: map<string, Row>
    /** The ids in insertion order, which is the order a full scan returns. */
    var order: seq<string>
    /** False while the storage engine fails every statement. */
    var reachable: bool

    ghost predicate Valid()
      reads this
    {
      && Distinct(order)
      && (forall k :: k in rows <==> k in order)
      && (forall k :: k in rows ==> rows[k].review.id == k)
    }

    /** Opens a store with an empty reviews table. */
    constructor ()
      ensures Valid() && rows == map[] && order == [] && reachable
    {
      rows, order, reachable := map[], [], true;
    }

    /**
     * Inserts one review with a NULL reply; fails on a duplicate id, on a
     * rating outside the INTEGER range, or on an unreachable store.
     */
    method AddReview(review: Review) returns (ok: bool)
      requires Valid()
      modifies this`rows, this`order
      ensures Valid()
      ensures ok == (reachable && review.id !in old(rows) && FitsInteger(review.rating))
      ensures rows == if ok then old(rows)[review.id := NewRow(review)] else old(rows)
      ensures order == if ok then old(order) + [review.id] else old(order)
    {
      if !reachable || review.id in rows || !FitsInteger(review.rating) {
        return false;
      }
      rows := rows[review.id := NewRow(review)];
      order := order + [review.id];
      ok := true;
    }

    /**
     * Inserts a batch in one transaction: every item, or none when an id
     * collides with the table or with another item, or a rating cannot be bound.
     */
    method AddReviewsBatch(batch: seq<Review>) returns (ok: bool)
      requires Valid()
      modifies this`rows, this`order
      ensures Valid()
      ensures ok == (reachable && BatchFits(old(rows), batch) && RatingsFit(batch))
      ensures rows == if ok then InsertAll(old(rows), batch) else old(rows)
      ensures order == if ok then old(order) + IdsOf(batch) else old(order)
    {
      if !reachable {
        return false;
      }
      if !RatingsFit(batch) {
        // the OverflowError of an unbindable rating rolls the transaction back
        return false;
      }
      var staged, stagedOrder;
      ok, staged, stagedOrder := StageBatch(rows, order, batch);
      if ok {
        InsertAllKeepsInvariant(rows, order, batch);
        rows, order := staged, stagedOrder;
      }
    }

    /** Overwrites the reply of an existing row; fails on an unknown id or an unreachable store. */
    method AddSuggestedReply(id: string, reply: string) returns (ok: bool)
      requires Valid()
      modifies this`rows
      ensures Valid()
      ensures ok == (reachable && id in old(rows))
      ensures rows == if ok then WithReply(old(rows), id, reply) else old(rows)
    {
      if !reachable || id !in rows {
        return false;
      }
      rows := WithReply(rows, id, reply);
      ok := true;
    }

    /** Scans the whole table; yields nothing when the store is unreachable. */
    method GetAllReviewsAsJson() returns (records: seq<ReviewRecord>)
      requires Valid()
      ensures !reachable ==> records == []
      ensures reachable ==> |records| == |order|
      ensures reachable ==> forall i :: 0 <= i < |order| ==>
        records[i].review == rows[order[i]].review && records[i].suggestedReply == VisibleReply(rows[order[i]].reply)
      ensures records == ListAll(rows, order, reachable)
    {
      if !reachable {
        return [];
      }
      records := [];
      var i := 0;
      while i < |order|
        invariant 0 <= i <= |order|
        invariant |records| == i
        invariant forall j :: 0 <= j < i ==> records[j] == RecordOf(rows[order[j]])
      {
        records := records + [RecordOf(rows[order[i]])];
        i := i + 1;
      }
    }

    /** The stored reply of `id`, absent for an unknown id, a NULL or an empty reply. */
    method GetSuggestedReply(id: string) returns (reply: Option<string>)
      ensures reply.Some? <==> reachable && id in rows && rows[id].reply.Some? && rows[id].reply.value != ""
      ensures reply.Some? ==> reply == rows[id].reply
    {
      if !reachable || id !in rows {
        return None;
      }
      reply := VisibleReply(rows[id].reply);
    }

    /** The stored review `id` with its reply (when non-empty), or None. */
    method GetReview(id: string) returns (record: Option<ReviewRecord>)
      ensures record.Some? <==> reachable && id in rows
      ensures record.Some? ==> record.value.review == rows[id].review
      ensures record.Some? ==> record.value.suggestedReply == VisibleReply(rows[id].reply)
    {
      if !reachable || id !in rows {
        return None;
      }
      record := Some(RecordOf(rows[id]));
    }
  }
}
