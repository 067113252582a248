/** The background consolidation workers: any number of them fetch overlapping batches and race
    to claim each row with one compare-and-set before running the consolidator.

    A purged or erased id can come back, for a restore keeps the exported ids: every row is
    therefore named by its id and by which insert of that id made it. */
module Claims {
  import opened Sequences
  import opened Rows

  type Worker = nat

  /** The `birth`-th row stored under `id`. */
  datatype Key = Key(id: Id, birth: nat)

  /** `todo` holds the fetched copies; `claimed` is the row the claim hit, `read` the copy in hand. */
  datatype Phase =
    | Working(scope: Scope, todo: seq<Key>)
    | Holding(scope: Scope, read: Key, claimed: Key, todo: seq<Key>)  // consolidator not yet called
    | Stopped(scope: Scope, held: Option<Key>, todo: seq<Key>)  // killed, or its consolidator raised
    | Finished

  /** `fed` lists the rows claimed for the workers' consolidator calls and `shown` the copies they were given;
      `inline` lists the rows `remember` consolidated itself.  `births`, `fetched` and `claimed` are history. */
  datatype State = State(
    table: Table, births: map<Id, nat>, workers: map<Worker, Phase>, fed: seq<Key>, shown: seq<Key>,
    inline: seq<Key>, fetched: set<Key>, claimed: set<Key>)

  datatype Event =
    | InsertRow(record: Row, scope: Scope, now: Time)
    | ConsolidateInline(id: Id)  // `remember`, on the row it inserted or its dedup found
    | ForgetRow(id: Id, scope: Scope, now: Time)
    | PurgeRows(scope: Scope)
    | EraseRows(scope: Scope)
    | Fetch(worker: Worker, scope: Scope, batch: seq<Id>)
    | TryClaim(worker: Worker, now: Time)
    | Consolidate(worker: Worker)
    | Stop(worker: Worker)
    | Finish(worker: Worker)

  const EMPTY := State(map[], map[], map[], [], [], [], {}, {})

  /** The rows `_fetch_pending` selects from: neither tombstoned nor claimed. */
  predicate Pending(t: Table, scope: Scope, id: Id) {
    id in t && Admits(scope, t[id].scope) && t[id].deletedAt.None? && t[id].consolidatedAt.None?
  }

  predicate Ready(s: State, w: Worker) {
    w !in s.workers || (s.workers[w].Working? && s.workers[w].todo == [])
  }

  function Current(s: State, id: Id): Key {
    Key(id, Count(s.births, id))
  }

  function Copies(s: State, batch: seq<Id>): (copies: seq<Key>)
    ensures |copies| == |batch| && forall i :: 0 <= i < |batch| ==> copies[i] == Current(s, batch[i])
  {
    seq(|batch|, i requires 0 <= i < |batch| => Current(s, batch[i]))
  }

  function StoppedFrom(p: Phase): Phase
    requires p.Working? || p.Holding?
  {
    Stopped(p.scope, if p.Holding? then Some(p.claimed) else None, p.todo)
  }

  /** A fetch may return any pending rows, in any order. */
  ghost function Next(s: State, e: Event, hash: string -> string): State {
    match e
    case InsertRow(record, scope, now) =>
      var o := Insert(s.table, record, scope, now, hash);
      if o.hit then s.(table := o.table, births := s.births[record.id := Count(s.births, record.id) + 1]) else s
    case ConsolidateInline(id) =>
      // the stamp stays null
      if id in s.table && Live(s.table[id]) then s.(inline := s.inline + [Current(s, id)]) else s
    case ForgetRow(id, scope, now) => s.(table := Forget(s.table, id, scope, now).table)
    case PurgeRows(scope) => s.(table := Purge(s.table, scope))
    case EraseRows(scope) => s.(table := EraseAll(s.table, scope))
    case Fetch(w, scope, batch) =>
      if Ready(s, w) && Distinct(batch) && (forall id :: id in batch ==> Pending(s.table, scope, id)) then
        var copies := Copies(s, batch);
        s.(workers := s.workers[w := Working(scope, copies)], fetched := s.fetched + Elements(copies))
      else s
    case TryClaim(w, now) =>
      if w in s.workers && s.workers[w].Working? && s.workers[w].todo != [] then
        var p := s.workers[w];
        var k := Current(s, p.todo[0].id);
        var o := Claim(s.table, k.id, p.scope, now);
        if o.hit then
          s.(table := o.table, claimed := s.claimed + {k},
             workers := s.workers[w := Holding(p.scope, p.todo[0], k, p.todo[1..])])
        else s.(workers := s.workers[w := Working(p.scope, p.todo[1..])])
      else s
    case Consolidate(w) =>
      if w in s.workers && s.workers[w].Holding? then
        var p := s.workers[w];
        s.(fed := s.fed + [p.claimed], shown := s.shown + [p.read],
           workers := s.workers[w := Working(p.scope, p.todo)])
      else s
    case Stop(w) =>
      if w in s.workers && (s.workers[w].Working? || s.workers[w].Holding?) then
        s.(workers := s.workers[w := StoppedFrom(s.workers[w])])
      else s
    case Finish(w) => if w in s.workers && Ready(s, w) then s.(workers := s.workers[w := Finished]) else s
  }

  ghost function Run(s: State, es: seq<Event>, hash: string -> string): State {
    if es == [] then s else Next(Run(s, es[..|es| - 1], hash), es[|es| - 1], hash)
  }

  // ---------------------------------------------------------------- who has what

  /** The row a phase has claimed and not yet fed. */
  function Held(p: Phase): Option<Key> {
    match p
    case Holding(_, _, claimed, _) => Some(claimed)
    case Stopped(_, held, _) => held
    case _ => None
  }

  function Todo(p: Phase): seq<Key> {
    if p.Finished? then [] else p.todo
  }

  predicate Covers(p: Phase, r: Row) {
    p.Finished? || Admits(p.scope, r.scope)
  }

  ghost predicate HeldBy(s: State, w: Worker, k: Key) {
    w in s.workers && Held(s.workers[w]) == Some(k)
  }

  ghost predicate QueuedBy(s: State, w: Worker, k: Key) {
    w in s.workers && k in Todo(s.workers[w])
  }

  /** The row named `k` is still stored. */
  predicate Stored(s: State, k: Key) {
    k.id in s.table && k == Current(s, k.id)
  }

  predicate Born(s: State, k: Key) {
    1 <= k.birth <= Count(s.births, k.id)
  }

  ghost predicate RowsInv(s: State) {
    && Consistent(s.table)
    && (forall id :: id in s.table ==> Count(s.births, id) >= 1)
    && (forall k :: k in s.claimed ==> Born(s, k))
    && (forall id :: id in s.table ==> (Current(s, id) in s.claimed <==> s.table[id].consolidatedAt.Some?))
  }

  /** Each claimed row has exactly one fate: fed once, or held by exactly one worker. */
  ghost predicate FateInv(s: State) {
    && Distinct(s.fed)
    && (forall k :: k in s.fed ==> k in s.claimed)
    && (forall w, k :: HeldBy(s, w, k) ==> k in s.claimed && k !in s.fed)
    && (forall w, v, k :: HeldBy(s, w, k) && HeldBy(s, v, k) ==> w == v)
    && (forall k :: k in s.claimed && k !in s.fed ==> exists w :: HeldBy(s, w, k))
  }

  /** Every fetched row is claimed, still queued at a worker, or removed before anyone claimed it. */
  ghost predicate QueueInv(s: State) {
    && (forall k :: k in s.fetched ==> Born(s, k))
    && (forall w, k :: QueuedBy(s, w, k) ==> k in s.fetched && (Stored(s, k) ==> Covers(s.workers[w], s.table[k.id])))
    && (forall k :: k in s.fetched && Stored(s, k) && k !in s.claimed ==> exists w :: QueuedBy(s, w, k))
  }

  /** A consolidator is shown a copy of the row claimed for it, or of an earlier row of the same id. */
  ghost predicate ShownInv(s: State) {
    && |s.shown| == |s.fed|
    && (forall i :: 0 <= i < |s.fed| ==> EarlierCopy(s.shown[i], s.fed[i]))
    && (forall w :: w in s.workers && s.workers[w].Holding? ==> EarlierCopy(s.workers[w].read, s.workers[w].claimed))
  }

  predicate EarlierCopy(read: Key, claimed: Key) {
    read.id == claimed.id && 1 <= read.birth <= claimed.birth
  }

  ghost predicate Inv(s: State) {
    RowsInv(s) && FateInv(s) && QueueInv(s) && ShownInv(s)
  }

  // ---------------------------------------------------------------- every event keeps the invariant

  /** Tombstones and removals change no count of births; an insert adds one. */
  ghost predicate TableMoves(s: State, t: Table, births: map<Id, nat>) {
    && Consistent(t)
    && (forall id :: Count(births, id) >= Count(s.births, id))
    && (forall id :: id in t && id in s.table ==>
          && Count(births, id) == Count(s.births, id)
          && t[id].consolidatedAt == s.table[id].consolidatedAt && t[id].scope == s.table[id].scope)
    && (forall id :: id in t && id !in s.table ==>
          Count(births, id) > Count(s.births, id) && t[id].consolidatedAt.None?)
  }

  lemma TableEventsKeepInv(s: State, t: Table, births: map<Id, nat>)
    requires Inv(s) && TableMoves(s, t, births)
    requires forall id :: id in t ==> Count(births, id) >= 1
    ensures Inv(s.(table := t, births := births))
  {
    var s' := s.(table := t, births := births);
    assert forall w, k :: HeldBy(s', w, k) <==> HeldBy(s, w, k);
    assert forall w, k :: QueuedBy(s', w, k) <==> QueuedBy(s, w, k);
    forall k | Stored(s', k) && Born(s, k) ensures Stored(s, k) {
    }
    TableKeepsFate(s, s');
    TableKeepsQueue(s, s');
  }

  lemma TableKeepsFate(s: State, s': State)
    requires FateInv(s) && s'.fed == s.fed && s'.claimed == s.claimed && s'.workers == s.workers
    ensures FateInv(s')
  {
    assert forall w, k :: HeldBy(s', w, k) <==> HeldBy(s, w, k);
    forall k | k in s'.claimed && k !in s'.fed ensures exists w :: HeldBy(s', w, k) {
      var w :| HeldBy(s, w, k);
      assert HeldBy(s', w, k);
    }
  }

  lemma TableKeepsQueue(s: State, s': State)
    requires QueueInv(s) && s'.workers == s.workers && s'.fetched == s.fetched && s'.claimed == s.claimed
    requires forall id :: Count(s'.births, id) >= Count(s.births, id)
    requires forall k :: Stored(s', k) && Born(s, k) ==> Stored(s, k) && s'.table[k.id].scope == s.table[k.id].scope
    ensures QueueInv(s')
  {
    assert forall w, k :: QueuedBy(s', w, k) <==> QueuedBy(s, w, k);
    forall k | k in s'.fetched && Stored(s', k) && k !in s'.claimed ensures exists w :: QueuedBy(s', w, k) {
      assert Born(s, k);
      var w :| QueuedBy(s, w, k);
      assert QueuedBy(s', w, k);
    }
  }

  /** A worker changes phase without letting go of what it holds or dropping a row nobody claimed. */
  lemma PhaseChangeKeepsInv(s: State, w: Worker, p: Phase, fetched: set<Key>)
    requires Inv(s) && s.fetched <= fetched && !p.Holding? && forall k :: k in fetched ==> Born(s, k)
    requires Held(p) == (if w in s.workers then Held(s.workers[w]) else None)
    requires forall k :: k in Todo(p) ==> k in fetched && (Stored(s, k) ==> Covers(p, s.table[k.id]))
    requires forall k :: QueuedBy(s, w, k) && Stored(s, k) && k !in s.claimed ==> k in Todo(p)
    requires forall k :: k in fetched && k !in s.fetched ==> k in Todo(p)
    ensures Inv(s.(workers := s.workers[w := p], fetched := fetched))
  {
    var s' := s.(workers := s.workers[w := p], fetched := fetched);
    assert forall v, k :: HeldBy(s', v, k) <==> HeldBy(s, v, k);
    assert forall v, k :: v != w ==> (QueuedBy(s', v, k) <==> QueuedBy(s, v, k));
    forall k | k in s'.claimed && k !in s'.fed ensures exists v :: HeldBy(s', v, k) {
      var v :| HeldBy(s, v, k);
      assert HeldBy(s', v, k);
    }
    forall k | k in s'.fetched && Stored(s', k) && k !in s'.claimed ensures exists v :: QueuedBy(s', v, k) {
      if k in Todo(p) {
        assert QueuedBy(s', w, k);
      } else {
        var v :| QueuedBy(s, v, k);
        assert QueuedBy(s', v, k);
      }
    }
  }

  lemma ClaimKeepsInv(s: State, w: Worker, now: Time, hash: string -> string)
    requires Inv(s) && w in s.workers && s.workers[w].Working? && s.workers[w].todo != []
    requires Claim(s.table, s.workers[w].todo[0].id, s.workers[w].scope, now).hit
    ensures Inv(Next(s, TryClaim(w, now), hash))
  {
    var s' := Next(s, TryClaim(w, now), hash);
    var k := Current(s, s.workers[w].todo[0].id);
    assert QueuedBy(s, w, s.workers[w].todo[0]);
    assert k !in s.claimed && k !in s.fed;
    ClaimKeepsRows(s, s', k, s.workers[w].scope, now);
    ClaimKeepsFate(s, s', w, k);
    ClaimKeepsQueue(s, s', w, k);
    assert ShownInv(s');
  }

  lemma ClaimKeepsRows(s: State, s': State, k: Key, scope: Scope, now: Time)
    requires RowsInv(s) && Stored(s, k) && Claim(s.table, k.id, scope, now).hit
    requires s'.table == Claim(s.table, k.id, scope, now).table && s'.births == s.births
    requires s'.claimed == s.claimed + {k}
    ensures RowsInv(s')
  {
  }

  lemma ClaimKeepsFate(s: State, s': State, w: Worker, k: Key)
    requires FateInv(s) && k !in s.claimed && w in s.workers && Held(s.workers[w]).None?
    requires s'.fed == s.fed && s'.claimed == s.claimed + {k}
    requires s'.workers.Keys == s.workers.Keys && Held(s'.workers[w]) == Some(k)
    requires forall v :: v in s.workers && v != w ==> s'.workers[v] == s.workers[v]
    ensures FateInv(s')
  {
    assert forall v, x :: v != w ==> (HeldBy(s', v, x) <==> HeldBy(s, v, x));
    assert HeldBy(s', w, k);
    assert forall v :: !HeldBy(s, v, k);
    forall x | x in s'.claimed && x !in s'.fed ensures exists v :: HeldBy(s', v, x) {
      if x != k {
        var v :| HeldBy(s, v, x);
        assert HeldBy(s', v, x);
      }
    }
  }

  lemma ClaimKeepsQueue(s: State, s': State, w: Worker, k: Key)
    requires QueueInv(s) && w in s.workers && s.workers[w].Working? && s.workers[w].todo != []
    requires k == Current(s, s.workers[w].todo[0].id)
    requires s'.claimed == s.claimed + {k} && s'.fetched == s.fetched && s'.births == s.births
    requires s'.workers == s.workers[w := Holding(s.workers[w].scope, s.workers[w].todo[0], k, s.workers[w].todo[1..])]
    requires s'.table.Keys == s.table.Keys && forall x :: x in s.table ==> s'.table[x].scope == s.table[x].scope
    ensures QueueInv(s')
  {
    var todo := s.workers[w].todo;
    assert todo == [todo[0]] + todo[1..];
    assert forall v, x :: v != w ==> (QueuedBy(s', v, x) <==> QueuedBy(s, v, x));
    forall x | QueuedBy(s', w, x) ensures QueuedBy(s, w, x) {
    }
    forall x | x in s'.fetched && Stored(s', x) && x !in s'.claimed ensures exists v :: QueuedBy(s', v, x) {
      var v :| QueuedBy(s, v, x);
      assert QueuedBy(s', v, x);
    }
  }

  lemma ConsolidateKeepsInv(s: State, w: Worker, hash: string -> string)
    requires Inv(s) && w in s.workers && s.workers[w].Holding?
    ensures Inv(Next(s, Consolidate(w), hash))
  {
    var p := s.workers[w];
    var s' := Next(s, Consolidate(w), hash);
    assert HeldBy(s, w, p.claimed);
    assert forall v, x :: v != w ==> (HeldBy(s', v, x) <==> HeldBy(s, v, x));
    assert forall v, x :: QueuedBy(s', v, x) <==> QueuedBy(s, v, x);
    assert forall x :: x in s'.fed <==> x in s.fed || x == p.claimed;
    forall x | x in s'.claimed && x !in s'.fed ensures exists v :: HeldBy(s', v, x) {
      var v :| HeldBy(s, v, x);
      assert HeldBy(s', v, x);
    }
    forall x | x in s'.fetched && Stored(s', x) && x !in s'.claimed ensures exists v :: QueuedBy(s', v, x) {
      assert Stored(s, x);
      var v :| QueuedBy(s, v, x);
      assert QueuedBy(s', v, x);
    }
  }

  lemma FetchKeepsInv(s: State, w: Worker, scope: Scope, batch: seq<Id>, hash: string -> string)
    requires Inv(s)
    ensures Inv(Next(s, Fetch(w, scope, batch), hash))
  {
    if Ready(s, w) && Distinct(batch) && (forall id :: id in batch ==> Pending(s.table, scope, id)) {
      var copies := Copies(s, batch);
      forall k | k in copies ensures Pending(s.table, scope, k.id) && k == Current(s, k.id) {
        var i :| 0 <= i < |copies| && copies[i] == k;
        assert batch[i] in batch;
      }
      PhaseChangeKeepsInv(s, w, Working(scope, copies), s.fetched + Elements(copies));
    }
  }

  lemma InsertKeepsInv(s: State, record: Row, scope: Scope, now: Time, hash: string -> string)
    requires Inv(s)
    ensures Inv(Next(s, InsertRow(record, scope, now), hash))
  {
    if record.id !in s.table {
      var births := s.births[record.id := Count(s.births, record.id) + 1];
      InsertMovesTable(s, record, scope, now, hash);
      TableEventsKeepInv(s, Insert(s.table, record, scope, now, hash).table, births);
    }
  }

  lemma InsertMovesTable(s: State, record: Row, scope: Scope, now: Time, hash: string -> string)
    requires RowsInv(s) && record.id !in s.table
    ensures var births := s.births[record.id := Count(s.births, record.id) + 1];
      var t := Insert(s.table, record, scope, now, hash).table;
      TableMoves(s, t, births) && forall id :: id in t ==> Count(births, id) >= 1
  {
  }

  lemma TryClaimKeepsInv(s: State, w: Worker, now: Time, hash: string -> string)
    requires Inv(s)
    ensures Inv(Next(s, TryClaim(w, now), hash))
  {
    if w in s.workers && s.workers[w].Working? && s.workers[w].todo != [] {
      var p := s.workers[w];
      assert p.todo == [p.todo[0]] + p.todo[1..];
      if Claim(s.table, p.todo[0].id, p.scope, now).hit {
        ClaimKeepsInv(s, w, now, hash);
      } else {
        assert QueuedBy(s, w, p.todo[0]);
        assert forall k :: k in p.todo[1..] ==> QueuedBy(s, w, k);
        PhaseChangeKeepsInv(s, w, Working(p.scope, p.todo[1..]), s.fetched);
      }
    }
  }

  lemma InlineKeepsInv(s: State, id: Id, hash: string -> string)
    requires Inv(s)
    ensures Inv(Next(s, ConsolidateInline(id), hash))
  {
    var s' := Next(s, ConsolidateInline(id), hash);
    TableKeepsFate(s, s');
    TableKeepsQueue(s, s');
  }

  lemma ForgetKeepsInv(s: State, id: Id, scope: Scope, now: Time, hash: string -> string)
    requires Inv(s)
    ensures Inv(Next(s, ForgetRow(id, scope, now), hash))
  {
    TableEventsKeepInv(s, Forget(s.table, id, scope, now).table, s.births);
  }

  /** A purge or an erasure. */
  lemma RemovalKeepsInv(s: State, t: Table)
    requires Inv(s) && forall id :: id in t ==> id in s.table && t[id] == s.table[id]
    ensures Inv(s.(table := t))
  {
    TableEventsKeepInv(s, t, s.births);
  }

  lemma StopKeepsInv(s: State, w: Worker, hash: string -> string)
    requires Inv(s)
    ensures Inv(Next(s, Stop(w), hash))
  {
    if w in s.workers && (s.workers[w].Working? || s.workers[w].Holding?) {
      assert forall k :: k in Todo(s.workers[w]) ==> QueuedBy(s, w, k);
      PhaseChangeKeepsInv(s, w, StoppedFrom(s.workers[w]), s.fetched);
    }
  }

  lemma FinishKeepsInv(s: State, w: Worker, hash: string -> string)
    requires Inv(s)
    ensures Inv(Next(s, Finish(w), hash))
  {
    if w in s.workers && Ready(s, w) {
      PhaseChangeKeepsInv(s, w, Finished, s.fetched);
    }
  }

  lemma NextKeepsInv(s: State, e: Event, hash: string -> string)
    requires Inv(s)
    ensures Inv(Next(s, e, hash))
  {
    match e
    case InsertRow(record, scope, now) => InsertKeepsInv(s, record, scope, now, hash);
    case ConsolidateInline(id) => InlineKeepsInv(s, id, hash);
    case ForgetRow(id, scope, now) => ForgetKeepsInv(s, id, scope, now, hash);
    case PurgeRows(scope) => RemovalKeepsInv(s, Purge(s.table, scope));
    case EraseRows(scope) => RemovalKeepsInv(s, EraseAll(s.table, scope));
    case Fetch(w, scope, batch) => FetchKeepsInv(s, w, scope, batch, hash);
    case TryClaim(w, now) => TryClaimKeepsInv(s, w, now, hash);
    case Consolidate(w) =>
      if w in s.workers && s.workers[w].Holding? { ConsolidateKeepsInv(s, w, hash); }
    case Stop(w) => StopKeepsInv(s, w, hash);
    case Finish(w) => FinishKeepsInv(s, w, hash);
  }

  lemma {:induction false} RunKeepsInv(s: State, es: seq<Event>, hash: string -> string)
    requires Inv(s)
    ensures Inv(Run(s, es, hash))
  {
    if es != [] {
      RunKeepsInv(s, es[..|es| - 1], hash);
      NextKeepsInv(Run(s, es[..|es| - 1], hash), es[|es| - 1], hash);
    }
  }
}
