/** `MemoryStore._resolve_and_act`: the resolver's decision turned into at most one write. */
module Ingest {
  import opened Rows
  import R = Rows
  import opened Repositories

  datatype Action = Add | Merge | Drop | Noop

  /** `action` None: the resolver raised.  `target` None: it named no target. */
  datatype IngestDecision = IngestDecision(action: Action, target: Option<Id>)

  const INGEST_RESOLVER := "ingest_resolver"

  /** The record a merge sends: the target's row with the candidate's body, stamped as a resolver write. */
  function Merged(target: Row, candidate: Row): Row {
    target.(body := candidate.body, origin := INGEST_RESOLVER)
  }

  /** A merge lands if nothing writes between its read and its update; it rewrites only its target's body,
      hash, time and version, and the origin stamped on the record never reaches the table: `update` does
      not SET that column. */
  lemma UndisturbedMergeLosesItsOrigin(t: Table, id: Id, candidate: Row, scope: Scope, now: Time,
                                       hash: string -> string)
    requires Consistent(t) && GetById(t, id, scope).Some?
    ensures var o := R.Update(t, Merged(t[id], candidate), scope, now, hash);
      && o.hit
      && o.table == t[id := t[id].(body := candidate.body, hash := hash(candidate.body.content), updatedAt := now,
                                   version := t[id].version + 1)]
      && o.table[id].origin == t[id].origin
  {
  }

  /** A merge defeated by a write in between leaves the table to that write and raises. */
  lemma DisturbedMergeIsStale(read: Table, later: Table, id: Id, candidate: Row, scope: Scope, now: Time,
                              hash: string -> string)
    requires GetById(read, id, scope).Some? && Consistent(read)
    requires id in later ==> later[id].version > read[id].version || later[id].deletedAt.Some?
    ensures R.Update(later, Merged(read[id], candidate), scope, now, hash) == Outcome(later, false)
  {
  }

  /** The candidate went through `create` on the table `met`, and nothing else changed. */
  ghost predicate Added(repo: Repository, met: Table, record: Row, scope: Scope, now: Time, r: Reply<Row>)
    reads repo
  {
    && repo.rows == R.Create(met, record, scope, now, repo.hash, repo.dedup).table
    && (r.Raised? <==> repo.Collides(met, record, scope))
    && (r.Returned? ==> r.value in repo.rows.Values)
  }

  /** `others` is what other clients write between a merge's read and its update (or the insert it falls back to). */
  method ResolveAndAct(repo: Repository, record: Row, scope: Scope, decided: Option<IngestDecision>, now: Time,
                       others: Table -> Table)
    returns (r: Reply<Row>, didAdd: bool)
    modifies repo
    // ADD, or a resolver that raised
    ensures scope.agent != "" && (decided.None? || decided.value.action.Add?) ==>
      didAdd && Added(repo, old(repo.rows), record, scope, now, r)
    // MERGE without a target, with one the scope cannot see, and with one it can: then one guarded update of
    // the target's row, on the table as the update finds it
    ensures scope.agent != "" && decided.Some? && decided.value.action.Merge? ==>
      if decided.value.target.None? || decided.value.target.value == ""
      then didAdd && Added(repo, old(repo.rows), record, scope, now, r)
      else if GetById(old(repo.rows), decided.value.target.value, scope).None?
      then didAdd && Added(repo, others(old(repo.rows)), record, scope, now, r)
      else
        var read := old(repo.rows)[decided.value.target.value];
        var o := R.Update(others(old(repo.rows)), read.(body := record.body), scope, now, repo.hash);
        && !didAdd && repo.rows == o.table && (r.Returned? <==> o.hit) && (r.Raised? ==> r.error == StaleWrite)
        && (r.Returned? ==> r.value.id == read.id && r.value.body == record.body && r.value.origin == INGEST_RESOLVER)
    // DROP tombstones its target, if it names one; NOOP writes nothing; both hand the candidate back
    ensures scope.agent != "" && decided.Some? && decided.value.action.Drop? ==>
      && !didAdd && r == Returned(record)
      && repo.rows == if decided.value.target.Some? && decided.value.target.value != ""
                      then R.Forget(old(repo.rows), decided.value.target.value, scope, now).table else old(repo.rows)
    ensures decided.Some? && decided.value.action.Noop? ==>
      !didAdd && r == Returned(record) && repo.rows == old(repo.rows)
    // without an agent nothing is written, and everything that would read or write raises
    ensures scope.agent == "" ==> repo.rows == old(repo.rows)
    ensures scope.agent == "" ==>
      r == if decided.Some?
              && (decided.value.action.Noop?
                  || (decided.value.action.Drop? && decided.value.target in {None, Some("")}))
           then Returned(record) else Raised(MissingAgentId)
  {
    if decided.None? || decided.value.action.Add? {
      r := repo.Create(record, scope, now);
      return r, true;
    }
    var target := decided.value.target;
    if decided.value.action.Merge? {
      if target.None? || target.value == "" {
        r := repo.Create(record, scope, now);
        return r, true;
      }
      if scope.agent == "" {
        return Raised(MissingAgentId), false;
      }
      var found := GetById(repo.rows, target.value, scope);
      repo.rows := others(repo.rows);
      if found.None? {
        r := repo.Create(record, scope, now);
        return r, true;
      }
      r := repo.Update(Merged(found.value, record), scope, now);
      return r, false;
    }
    if decided.value.action.Drop? {
      if target.Some? && target.value != "" {
        var ok := repo.Forget(target.value, scope, now);
        if ok.Raised? {
          return Raised(ok.error), false;
        }
      }
    }
    return Returned(record), false;
  }
}
