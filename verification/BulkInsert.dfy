/** `SemanticFactRepository.create_many`: batches of inserts, each committed on a pooled handle
    whose check-in rolls back what was not committed. */
module BulkInsert {
  import opened Sequences
  import opened Rows

  datatype Item = Item(record: Row, scope: Scope)

  /** What may go wrong outside the program: an INSERT, a COMMIT (named by the
      index its batch starts at), the check-in rollback, whose own failure `get_connection` suppresses. */
  datatype Weather = Weather(insertFails: nat -> bool, commitFails: nat -> bool, rollbackFails: bool)

  /** The row `create_many` builds: no dedup, and an id only where the caller left it empty. */
  function Stamp(item: Item, k: nat, now: Time, hash: string -> string, newId: nat -> Id): Row {
    var r := item.record;
    Inserted(if r.id == "" then r.(id := newId(k)) else r, item.scope, now, hash)
  }

  function StampAll(items: seq<Item>, now: Time, hash: string -> string, newId: nat -> Id): (rows: seq<Row>)
    ensures |rows| == |items|
    ensures forall k :: 0 <= k < |items| ==> rows[k] == Stamp(items[k], k, now, hash, newId)
    ensures forall k :: 0 <= k < |items| ==>
      var r := items[k].record;
      rows[k] == Row(if r.id == "" then newId(k) else r.id, items[k].scope, r.body, r.origin, hash(r.body.content),
                     now, now, r.expiresAt, 1, r.deletedAt, None, None, None, "")
  {
    seq(|items|, k requires 0 <= k < |items| => Stamp(items[k], k, now, hash, newId))
  }

  predicate Raises(items: seq<Item>, w: Weather, k: nat)
    requires k < |items|
  {
    items[k].scope.agent == "" || w.insertFails(k)
  }

  /** Some insert of batch `b` raises, or its commit does. */
  ghost predicate BatchFails(items: seq<Item>, every: int, w: Weather, b: nat) {
    var i := Steps(b, every);
    0 <= i < |items| && StretchFails(items, i, Min(i + every, |items|), w)
  }

  ghost predicate StretchFails(items: seq<Item>, start: nat, end: int, w: Weather)
    requires end <= |items|
  {
    (exists k :: start <= k < end && Raises(items, w, k)) || w.commitFails(start)
  }

  /** One handle: rows its transactions made durable, and rows of the transaction it has open. */
  class Connection {
    var durable: seq<Row>
    var open: seq<Row>

    constructor ()
      ensures durable == [] && open == []
    {
      durable, open := [], [];
    }

    method Commit()
      modifies this
      ensures durable == old(durable) + old(open) && open == []
    {
      durable, open := durable + open, [];
    }

    /** The `finally` of `get_connection`. */
    method Checkin(w: Weather)
      modifies this
      ensures durable == old(durable) && open == if w.rollbackFails then old(open) else []
    {
      if !w.rollbackFails {
        open := [];
      }
    }

    /** The inner loop: one batch of inserts on the open transaction. */
    method InsertBatch(items: seq<Item>, start: nat, end: nat, now: Time, hash: string -> string, newId: nat -> Id,
                       w: Weather)
      returns (failure: Option<Failure>, done: nat)
      requires start <= end <= |items| && open == []
      modifies this
      ensures durable == old(durable) && start + done <= end
      ensures open == StampAll(items, now, hash, newId)[start..start + done]
      ensures failure.None? <==> forall m :: start <= m < end ==> !Raises(items, w, m)
      ensures failure.None? ==> start + done == end
      ensures start < end ==> (done == 0 <==> Raises(items, w, start))
    {
      done := 0;
      while start + done < end
        invariant start + done <= end && durable == old(durable)
        invariant open == StampAll(items, now, hash, newId)[start..start + done]
        invariant forall m :: start <= m < start + done ==> !Raises(items, w, m)
      {
        var k := start + done;
        if items[k].scope.agent == "" {
          assert Raises(items, w, k);
          return Some(MissingAgentId), done;
        }
        var row := Stamp(items[k], k, now, hash, newId);
        if w.insertFails(k) {
          assert Raises(items, w, k);
          return Some(StatementFailed), done;
        }
        open := open + [row];
        done := done + 1;
      }
      return None, done;
    }

    /** One `with get_connection()` block: a batch, its commit, the check-in. */
    method OneBatch(items: seq<Item>, start: nat, end: nat, now: Time, hash: string -> string, newId: nat -> Id,
                    w: Weather)
      returns (failure: Option<Failure>, done: nat)
      requires start < end <= |items| && open == []
      modifies this
      ensures failure.Some? <==> StretchFails(items, start, end, w)
      ensures failure.None? ==>
        start + done == end && open == [] && durable == old(durable) + StampAll(items, now, hash, newId)[start..end]
      ensures failure.Some? ==>
        && durable == old(durable) && |open| <= end - start
        && open <= StampAll(items, now, hash, newId)[start..]
        && (open != [] <==> w.rollbackFails && !Raises(items, w, start))
    {
      failure, done := InsertBatch(items, start, end, now, hash, newId, w);
      if failure.None? {
        if w.commitFails(start) {
          failure := Some(StatementFailed);
        } else {
          Commit();
        }
      }
      Checkin(w);
    }

    lemma Abut(rows: seq<Row>, i: nat, j: nat)
      requires i <= j <= |rows|
      ensures rows[..i] + rows[i..j] == rows[..j]
    {
    }

    /** `batches` counts the batches committed before the call returned or raised. */
    method CreateMany(items: seq<Item>, every: int, now: Time, hash: string -> string, newId: nat -> Id, w: Weather)
      returns (r: Reply<nat>, ghost batches: nat)
      requires (every >= 1 || items == []) && open == []
      modifies this
      // no failure: every record is durable, in order, and their number is returned
      ensures r.Returned? ==>
        durable == old(durable) + StampAll(items, now, hash, newId) && r.value == |items| && open == []
      // a failure: the durable rows are exactly the whole batches before the first failing one
      ensures r.Raised? ==>
        var whole := Steps(batches, every);
        && 0 <= whole < |items| && BatchFails(items, every, w, batches)
        && durable == old(durable) + StampAll(items, now, hash, newId)[..whole]
        && (!w.rollbackFails ==> open == [])
        && |open| <= every && open <= StampAll(items, now, hash, newId)[whole..]
        && (open != [] <==> w.rollbackFails && !Raises(items, w, whole))
      ensures forall b: nat :: b < batches ==> !BatchFails(items, every, w, b)
      ensures r.Returned? ==> |items| <= Steps(batches, every)
      // the first failing batch holds a record without an agent, or an insert or its commit fails
      ensures r.Raised? ==>
        var whole := Steps(batches, every);
        || w.commitFails(whole)
        || exists k :: whole <= k < whole + every && k < |items| && (items[k].scope.agent == "" || w.insertFails(k))
      ensures r.Returned? ==> forall k :: 0 <= k < |items| ==> items[k].scope.agent != "" && !w.insertFails(k)
    {
      ghost var rows := StampAll(items, now, hash, newId);
      var inserted := 0;
      var i := 0;
      batches := 0;
      while i < |items|
        invariant 0 <= i == Steps(batches, every) && inserted == Min(i, |items|)
        invariant durable == old(durable) + rows[..inserted] && open == []
        invariant forall k :: 0 <= k < inserted ==> !Raises(items, w, k)
        invariant forall b: nat :: b < batches ==> !BatchFails(items, every, w, b)
        decreases |items| - i
      {
        var failure, done := OneBatch(items, i, Min(i + every, |items|), now, hash, newId, w);
        if failure.Some? {
          return Raised(failure.value), batches;
        }
        inserted := inserted + done;
        Abut(rows, i, Min(i + every, |items|));
        batches := batches + 1;
        i := i + every;
      }
      forall k | 0 <= k < |items| ensures items[k].scope.agent != "" && !w.insertFails(k) {
        assert !Raises(items, w, k);
      }
      return Returned(inserted), batches;
    }
  }

  // ---------------------------------------------------------------- when the loop ends

  /** The `while i < len(records)` loop ends exactly when `commit_every` is positive or there is nothing
      to insert: the source does not check it. */
  lemma LoopEndsIffPositiveStep(count: nat, every: int)
    ensures (exists steps: nat :: Steps(steps, every) >= count) <==> every >= 1 || count == 0
  {
    if every >= 1 {
      StepsGrow(count, every);
    } else if count == 0 {
      assert Steps(0, every) >= count;
    } else {
      forall steps: nat ensures Steps(steps, every) < count {
        StepsGrow(steps, every);
      }
    }
  }

  // ---------------------------------------------------------------- a failed rollback

  /** A failed call followed by any other borrower's commit on the same handle: rows of the failed
      batch become durable after all exactly when the rollback failed and the batch had begun. */
  method FailThenCommit(c: Connection, items: seq<Item>, every: nat, now: Time, hash: string -> string,
                        newId: nat -> Id, w: Weather)
    returns (r: Reply<nat>, ghost whole: int, ghost leaked: seq<Row>)
    requires every >= 1 && c.open == [] && c.durable == []
    modifies c
    ensures r.Raised? ==> 0 <= whole < |items| && c.durable == StampAll(items, now, hash, newId)[..whole] + leaked
    ensures r.Raised? ==> |leaked| <= every && leaked <= StampAll(items, now, hash, newId)[whole..]
    ensures r.Raised? ==> (leaked != [] <==> w.rollbackFails && !Raises(items, w, whole))
  {
    ghost var batches;
    r, batches := c.CreateMany(items, every, now, hash, newId, w);
    whole, leaked := Steps(batches, every), c.open;
    c.Commit();
  }
}
