/** The governed row and the guarded SQL statements of `BaseRepository`.

    A table is a map from primary key to row.  Every statement the repositories
    send is one function on tables; `Repositories` holds the class that
    performs them in place.  Reads that order rows by `created_at DESC` leave ties to the database,
    so an order is a parameter, constrained by `IsOrdering`. */
module Rows {
  import opened Sequences

  datatype Option<+T> = None | Some(value: T)

  datatype Failure =
    | MissingAgentId
    | DuplicateKey
    | StaleWrite
    | StatementFailed
    | ScopeMismatch
    | UnknownType
    | MissingType
    | ChunkingDisabled
    | BadArgument
    | DivisionByZero

  datatype Reply<+T> = Returned(value: T) | Raised(error: Failure)

  type Id = string
  type Time = int

  /** `MemoryScope`: only the agent is mandatory. */
  datatype Scope = Scope(tenant: Option<string>, agent: string, user: Option<string>, thread: Option<string>)

  predicate FieldAdmits(wanted: Option<string>, actual: Option<string>) {
    wanted.None? || wanted == actual
  }

  /** The WHERE fragment of `_scope_predicates`: a null field adds no predicate. */
  predicate Admits(filter: Scope, actual: Scope) {
    && filter.agent == actual.agent
    && FieldAdmits(filter.tenant, actual.tenant)
    && FieldAdmits(filter.user, actual.user)
    && FieldAdmits(filter.thread, actual.thread)
  }

  /** What `update()` may rewrite. */
  datatype Body = Body(content: string, metadata: map<string, string>, embedding: seq<real>, confidence: real)

  datatype Row = Row(
    id: Id,
    scope: Scope,
    body: Body,
    origin: string,
    hash: string,
    createdAt: Time,
    updatedAt: Time,
    expiresAt: Option<Time>,
    version: int,
    deletedAt: Option<Time>,
    consolidatedAt: Option<Time>,
    supersededBy: Option<Id>,
    supersededAt: Option<Time>,
    supersedeReason: string)

  type Table = map<Id, Row>

  /** A statement's effect and whether its row count was positive. */
  datatype Outcome = Outcome(table: Table, hit: bool)

  // ---------------------------------------------------------------- reads

  /** Not tombstoned and not superseded.  Tables without supersession columns never set them. */
  predicate Live(r: Row) {
    r.deletedAt.None? && r.supersededAt.None?
  }

  predicate Unexpired(r: Row, now: Time) {
    r.expiresAt.None? || r.expiresAt.value > now
  }

  /** The rows `list_all` filters to. */
  function Selected(t: Table, scope: Scope, includeExpired: bool, now: Time): set<Id> {
    set id | id in t && Admits(scope, t[id].scope) && Live(t[id]) && (includeExpired || Unexpired(t[id], now))
  }

  /** `order` is one answer the database may give to ORDER BY created_at DESC over `chosen`. */
  ghost predicate IsOrdering(t: Table, chosen: set<Id>, order: seq<Id>) {
    && Distinct(order)
    && (forall id :: id in order <==> id in chosen)
    && (forall id :: id in chosen ==> id in t)
    && (forall i, j :: 0 <= i < j < |order| ==> t[order[i]].createdAt >= t[order[j]].createdAt)
  }

  const LIST_CAP := 1000

  /** Both SQL shapes of `list_all`: FETCH FIRST, or ROW_NUMBER in (offset, offset + limit]. */
  function Page<T>(order: seq<T>, limit: nat, offset: nat): seq<T> {
    var capped := Min(limit, LIST_CAP);
    order[Min(offset, |order|)..Min(offset + capped, |order|)]
  }

  /** What a query may return for its page of `order`.  With an offset, ROW_NUMBER picks the rows but the
      outer SELECT has no ORDER BY: they are the right rows, in any order. */
  ghost predicate IsPage(order: seq<Id>, limit: nat, offset: nat, page: seq<Id>) {
    if offset == 0 then page == Page(order, limit, 0) else multiset(page) == multiset(Page(order, limit, offset))
  }

  /** The model instances a query returns for the ids it selected. */
  function RowsAt(t: Table, ids: seq<Id>): (rows: seq<Row>)
    requires forall id :: id in ids ==> id in t
    ensures |rows| == |ids|
  {
    seq(|ids|, i requires 0 <= i < |ids| => assert ids[i] in ids; t[ids[i]])
  }

  /** `get_by_id`: tombstoned rows are invisible, superseded rows are not. */
  function GetById(t: Table, id: Id, scope: Scope): Option<Row> {
    if id in t && Admits(scope, t[id].scope) && t[id].deletedAt.None? then Some(t[id]) else None
  }

  // ---------------------------------------------------------------- writes

  /** The row `create` inserts: scope overwritten, version and timestamps reset,
      supersession and consolidation columns left null. */
  function Inserted(record: Row, scope: Scope, now: Time, hash: string -> string): Row {
    record.(scope := scope, hash := hash(record.body.content), createdAt := now, updatedAt := now, version := 1,
            consolidatedAt := None, supersededBy := None, supersededAt := None, supersedeReason := "")
  }

  /** Rows the write-time dedup SELECT of `create` finds; expiry is not looked at. */
  function DedupHits(t: Table, scope: Scope, hash: string): set<Id> {
    set id | id in t && Admits(scope, t[id].scope) && t[id].hash == hash && Live(t[id])
  }

  function Insert(t: Table, record: Row, scope: Scope, now: Time, hash: string -> string): Outcome {
    if record.id in t then Outcome(t, false) else Outcome(t[record.id := Inserted(record, scope, now, hash)], true)
  }

  function Create(t: Table, record: Row, scope: Scope, now: Time, hash: string -> string, dedup: bool): Outcome {
    if dedup && DedupHits(t, scope, hash(record.body.content)) != {} then Outcome(t, false)
    else Insert(t, record, scope, now, hash)
  }

  function Forget(t: Table, id: Id, scope: Scope, now: Time): Outcome {
    if id in t && Admits(scope, t[id].scope) && t[id].deletedAt.None? then
      var r := t[id];
      Outcome(t[id := r.(deletedAt := Some(now), updatedAt := now, version := r.version + 1)], true)
    else Outcome(t, false)
  }

  function Truncate(reason: string): string {
    reason[..Min(|reason|, 255)]
  }

  function Supersede(t: Table, loser: Id, winner: Id, reason: string, scope: Scope, now: Time): Outcome {
    if loser in t && Admits(scope, t[loser].scope) && Live(t[loser]) then
      var r := t[loser];
      Outcome(t[loser := r.(supersededBy := Some(winner), supersededAt := Some(now),
                            supersedeReason := Truncate(reason), updatedAt := now, version := r.version + 1)], true)
    else Outcome(t, false)
  }

  /** `update` writes the body of `record` if the stored version is the record's version.
      A superseded row is not excluded; the origin column is not among those SET. */
  function Update(t: Table, record: Row, scope: Scope, now: Time, hash: string -> string): Outcome {
    if record.id in t && Admits(scope, t[record.id].scope) && t[record.id].version == record.version
       && t[record.id].deletedAt.None? then
      var r := t[record.id];
      Outcome(t[record.id := r.(body := record.body, hash := hash(record.body.content), updatedAt := now,
                                version := record.version + 1)], true)
    else Outcome(t, false)
  }

  /** `_claim_consolidated`: the guard is `consolidated_at IS NULL` alone, the version stays. */
  function Claim(t: Table, id: Id, scope: Scope, now: Time): Outcome {
    if id in t && Admits(scope, t[id].scope) && t[id].consolidatedAt.None? then
      Outcome(t[id := t[id].(consolidatedAt := Some(now))], true)
    else Outcome(t, false)
  }

  function Purge(t: Table, scope: Scope): Table {
    map id | id in t && !(t[id].deletedAt.Some? && Admits(scope, t[id].scope)) :: t[id]
  }

  function EraseAll(t: Table, scope: Scope): Table {
    map id | id in t && !Admits(scope, t[id].scope) :: t[id]
  }

  // ---------------------------------------------------------------- table invariant

  /** Keys agree with ids, link and stamp are null together, versions start at 1. */
  ghost predicate Consistent(t: Table) {
    forall id :: id in t ==>
      && t[id].id == id
      && (t[id].supersededBy.Some? <==> t[id].supersededAt.Some?)
      && t[id].version >= 1
  }

  lemma EveryStatementKeepsTheTableConsistent(t: Table, record: Row, id: Id, winner: Id, reason: string,
                                              scope: Scope, now: Time, hash: string -> string, dedup: bool)
    requires Consistent(t)
    ensures Consistent(Create(t, record, scope, now, hash, dedup).table)
    ensures Consistent(Forget(t, id, scope, now).table)
    ensures Consistent(Supersede(t, id, winner, reason, scope, now).table)
    ensures Consistent(Update(t, record, scope, now, hash).table)
    ensures Consistent(Claim(t, id, scope, now).table)
    ensures Consistent(Purge(t, scope))
    ensures Consistent(EraseAll(t, scope))
  {
  }

  // ---------------------------------------------------------------- scope isolation

  /** A row of another agent, or of another tenant, user or thread than the one the scope names. */
  predicate Foreign(scope: Scope, row: Row) {
    || row.scope.agent != scope.agent
    || (scope.tenant.Some? && row.scope.tenant != scope.tenant)
    || (scope.user.Some? && row.scope.user != scope.user)
    || (scope.thread.Some? && row.scope.thread != scope.thread)
  }

  /** A statement run under `scope` leaves every foreign row exactly as it was, and makes none. */
  ghost predicate Isolated(t: Table, t': Table, scope: Scope) {
    && (forall id :: id in t && Foreign(scope, t[id]) ==> id in t' && t'[id] == t[id])
    && (forall id :: id in t' && Foreign(scope, t'[id]) ==> id in t && t'[id] == t[id])
  }

  lemma InScopeWriteIsIsolated(t: Table, id: Id, r: Row, scope: Scope)
    requires id in t ==> Admits(scope, t[id].scope)
    requires Admits(scope, r.scope)
    ensures Isolated(t, t[id := r], scope)
  {
  }

  lemma CreateStaysInScope(t: Table, record: Row, scope: Scope, now: Time, hash: string -> string, dedup: bool)
    ensures Isolated(t, Create(t, record, scope, now, hash, dedup).table, scope)
  {
    if record.id !in t {
      InScopeWriteIsIsolated(t, record.id, Inserted(record, scope, now, hash), scope);
    }
  }

  lemma RemovalsStayInScope(t: Table, scope: Scope)
    ensures Isolated(t, Purge(t, scope), scope) && Isolated(t, EraseAll(t, scope), scope)
  {
  }

  lemma UpdateStaysInScope(t: Table, record: Row, scope: Scope, now: Time, hash: string -> string)
    ensures Isolated(t, Update(t, record, scope, now, hash).table, scope)
  {
    if Update(t, record, scope, now, hash).hit {
      InScopeWriteIsIsolated(t, record.id, Update(t, record, scope, now, hash).table[record.id], scope);
    }
  }

  lemma NoStatementCrossesItsScope(t: Table, record: Row, id: Id, winner: Id, reason: string,
                                   scope: Scope, now: Time, hash: string -> string)
    ensures Isolated(t, Forget(t, id, scope, now).table, scope)
    ensures Isolated(t, Supersede(t, id, winner, reason, scope, now).table, scope)
    ensures Isolated(t, Update(t, record, scope, now, hash).table, scope)
    ensures Isolated(t, Claim(t, id, scope, now).table, scope)
    ensures Isolated(t, Purge(t, scope), scope)
    ensures Isolated(t, EraseAll(t, scope), scope)
  {
    if id in t && Admits(scope, t[id].scope) {
      InScopeWriteIsIsolated(t, id, Forget(t, id, scope, now).table[id], scope);
      InScopeWriteIsIsolated(t, id, Supersede(t, id, winner, reason, scope, now).table[id], scope);
      InScopeWriteIsIsolated(t, id, Claim(t, id, scope, now).table[id], scope);
    }
    UpdateStaysInScope(t, record, scope, now, hash);
    RemovalsStayInScope(t, scope);
  }
}
