/** `BaseRepository` and `SemanticFactRepository` as an object whose table is
    changed in place, each method proved against the statement it sends. */
module Repositories {
  import opened Rows
  import R = Rows

  class Repository {
    var rows: Table
    const dedup: bool
    const hash: string -> string

    constructor (dedup: bool, hash: string -> string)
      ensures rows == map[] && this.dedup == dedup && this.hash == hash
    {
      rows := map[];
      this.dedup := dedup;
      this.hash := hash;
    }

    /** The dedup SELECT finds a row. */
    predicate Absorbed(t: Table, record: Row, scope: Scope) {
      dedup && DedupHits(t, scope, hash(record.body.content)) != {}
    }

    /** It finds nothing, and the INSERT meets the primary key. */
    predicate Collides(t: Table, record: Row, scope: Scope) {
      !Absorbed(t, record, scope) && record.id in t
    }

    /** FETCH FIRST 1 ROWS returns any one of the rows the dedup SELECT finds. */
    method Create(record: Row, scope: Scope, now: Time) returns (r: Reply<Row>)
      modifies this
      ensures scope.agent == "" ==> r == Raised(MissingAgentId) && rows == old(rows)
      ensures scope.agent != "" ==> rows == R.Create(old(rows), record, scope, now, hash, dedup).table
      ensures scope.agent != "" ==> (r.Raised? <==> Collides(old(rows), record, scope))
      ensures scope.agent != "" && r.Raised? ==> r == Raised(DuplicateKey) && rows == old(rows)
      // absorbed by dedup: the answer is one of the rows the SELECT found
      ensures scope.agent != "" && Absorbed(old(rows), record, scope) ==>
        rows == old(rows) && r.Returned? && exists id ::
          id in DedupHits(rows, scope, hash(record.body.content)) && r.value == rows[id]
      // inserted: the answer is the one new row, the record under the caller's scope
      ensures r.Returned? && !Absorbed(old(rows), record, scope) ==>
        && record.id !in old(rows) && record.id in rows && r.value == rows[record.id]
        && rows == old(rows)[record.id := r.value]
        && r.value == Row(record.id, scope, record.body, record.origin, hash(record.body.content), now, now,
                          record.expiresAt, 1, record.deletedAt, None, None, None, "")
    {
      if scope.agent == "" {
        return Raised(MissingAgentId);
      }
      var h := hash(record.body.content);
      if dedup {
        var hits := DedupHits(rows, scope, h);
        if hits != {} {
          var pick :| pick in hits;
          return Returned(rows[pick]);
        }
      }
      if record.id in rows {
        return Raised(DuplicateKey);
      }
      var stored := Inserted(record, scope, now, hash);
      rows := rows[record.id := stored];
      return Returned(stored);
    }

    method Forget(id: Id, scope: Scope, now: Time) returns (r: Reply<bool>)
      modifies this
      ensures scope.agent == "" ==> r == Raised(MissingAgentId) && rows == old(rows)
      ensures scope.agent != "" ==> r.Returned? && Outcome(rows, r.value) == R.Forget(old(rows), id, scope, now)
    {
      if scope.agent == "" {
        return Raised(MissingAgentId);
      }
      if id in rows && Admits(scope, rows[id].scope) && rows[id].deletedAt.None? {
        var row := rows[id];
        rows := rows[id := row.(deletedAt := Some(now), updatedAt := now, version := row.version + 1)];
        return Returned(true);
      }
      return Returned(false);
    }

    method Supersede(loser: Id, winner: Id, reason: string, scope: Scope, now: Time) returns (r: Reply<bool>)
      modifies this
      ensures scope.agent == "" ==> r == Raised(MissingAgentId) && rows == old(rows)
      ensures scope.agent != "" ==>
        r.Returned? && Outcome(rows, r.value) == R.Supersede(old(rows), loser, winner, reason, scope, now)
    {
      if scope.agent == "" {
        return Raised(MissingAgentId);
      }
      if loser in rows && Admits(scope, rows[loser].scope) && Live(rows[loser]) {
        var row := rows[loser];
        rows := rows[loser := row.(supersededBy := Some(winner), supersededAt := Some(now),
                                   supersedeReason := Truncate(reason), updatedAt := now, version := row.version + 1)];
        return Returned(true);
      }
      return Returned(false);
    }

    method Update(record: Row, scope: Scope, now: Time) returns (r: Reply<Row>)
      modifies this
      ensures scope.agent == "" ==> r == Raised(MissingAgentId) && rows == old(rows)
      ensures scope.agent != "" ==> rows == R.Update(old(rows), record, scope, now, hash).table
      ensures scope.agent != "" ==> (r.Raised? <==> !R.Update(old(rows), record, scope, now, hash).hit)
      ensures r.Returned? ==>
        r.value == record.(version := record.version + 1, updatedAt := now, hash := hash(record.body.content))
      ensures scope.agent != "" && r.Raised? ==> r == Raised(StaleWrite) && rows == old(rows)
    {
      if scope.agent == "" {
        return Raised(MissingAgentId);
      }
      if record.id in rows && Admits(scope, rows[record.id].scope) && rows[record.id].version == record.version
         && rows[record.id].deletedAt.None? {
        var h := hash(record.body.content);
        rows := rows[record.id := rows[record.id].(body := record.body, hash := h, updatedAt := now,
                                                   version := record.version + 1)];
        return Returned(record.(version := record.version + 1, updatedAt := now, hash := h));
      }
      return Raised(StaleWrite);
    }

    method ClaimConsolidated(id: Id, scope: Scope, now: Time) returns (r: Reply<bool>)
      modifies this
      ensures scope.agent == "" ==> r == Raised(MissingAgentId) && rows == old(rows)
      ensures scope.agent != "" ==> r.Returned? && Outcome(rows, r.value) == R.Claim(old(rows), id, scope, now)
    {
      if scope.agent == "" {
        return Raised(MissingAgentId);
      }
      if id in rows && Admits(scope, rows[id].scope) && rows[id].consolidatedAt.None? {
        rows := rows[id := rows[id].(consolidatedAt := Some(now))];
        return Returned(true);
      }
      return Returned(false);
    }

    lemma PageOfOrder(order: seq<Id>, limit: nat, offset: nat, ids: seq<Id>)
      requires IsPage(order, limit, offset, ids)
      ensures |ids| == |Page(order, limit, offset)| && forall id :: id in ids ==> id in order
    {
      var page := Page(order, limit, offset);
      assert |multiset(ids)| == |multiset(page)|;
      forall id | id in ids ensures id in order {
        assert id in multiset(ids) && id in multiset(page);
      }
    }

    /** `order` is the database's answer to the ORDER BY of this one query, `ids` the page it returns. */
    method ListAll(scope: Scope, limit: nat, offset: nat, includeExpired: bool, now: Time, ghost order: seq<Id>,
                   ids: seq<Id>)
      returns (r: Reply<seq<Row>>)
      requires IsOrdering(rows, Selected(rows, scope, includeExpired, now), order) && IsPage(order, limit, offset, ids)
      ensures scope.agent == "" <==> r == Raised(MissingAgentId)
      ensures |ids| <= limit && |ids| <= LIST_CAP && forall id :: id in ids ==> id in rows
      ensures scope.agent != "" ==> r == Returned(RowsAt(rows, ids))
      // live rows of the scope alone, and unexpired ones unless asked for
      ensures r.Returned? ==> forall row :: row in r.value ==>
        && row.scope.agent == scope.agent && (scope.tenant.Some? ==> row.scope.tenant == scope.tenant)
        && (scope.user.Some? ==> row.scope.user == scope.user)
        && (scope.thread.Some? ==> row.scope.thread == scope.thread)
        && row.deletedAt.None? && row.supersededAt.None?
        && (includeExpired || row.expiresAt.None? || now < row.expiresAt.value)
    {
      PageOfOrder(order, limit, offset, ids);
      if scope.agent == "" {
        return Raised(MissingAgentId);
      }
      var out: seq<Row> := [];
      for i := 0 to |ids|
        invariant |out| == i
        invariant forall k :: 0 <= k < i ==> out[k] == rows[ids[k]]
      {
        out := out + [rows[ids[i]]];
      }
      assert out == RowsAt(rows, ids);
      assert forall k :: 0 <= k < |ids| ==> ids[k] in order && ids[k] in Selected(rows, scope, includeExpired, now);
      return Returned(out);
    }
  }
}
