/** Optimistic concurrency: any number of clients read, change and write back rows while
    resolver merges, supersessions, tombstones, claims, purges and erasures go on. */
module Versions {
  import opened Sequences
  import opened Rows

  type Client = nat

  /** A client's copy of a row, with the incarnation of the id it was read from. */
  datatype Copy = Copy(row: Row, birth: nat)

  /** `births` counts the inserts of an id, `writes` the successful writes since the last insert. */
  datatype State = State(table: Table, births: map<Id, nat>, writes: map<Id, nat>, copies: map<Client, Copy>)

  datatype Event =
    | Insert(record: Row, scope: Scope, now: Time)
    | Read(client: Client, id: Id, scope: Scope)
    | WriteBack(client: Client, body: Body, origin: string, scope: Scope, now: Time)
    | SupersedeRow(id: Id, winner: Id, reason: string, scope: Scope, now: Time)
    | ForgetRow(id: Id, scope: Scope, now: Time)
    | ClaimRow(id: Id, scope: Scope, now: Time)
    | PurgeRows(scope: Scope)
    | EraseRows(scope: Scope)

  const EMPTY := State(map[], map[], map[], map[])

  /** The record a client sends: its copy with a new body and, for a resolver merge, a new origin. */
  function Outgoing(copy: Copy, body: Body, origin: string): Row {
    copy.row.(body := body, origin := origin)
  }

  function Bumped(s: State, o: Outcome, id: Id): State {
    if o.hit then s.(table := o.table, writes := s.writes[id := Count(s.writes, id) + 1]) else s
  }

  function Next(s: State, e: Event, hash: string -> string): State {
    match e
    case Insert(record, scope, now) =>
      var o := Rows.Insert(s.table, record, scope, now, hash);
      var births := s.births[record.id := Count(s.births, record.id) + 1];
      if o.hit then State(o.table, births, s.writes[record.id := 0], s.copies) else s
    case Read(c, id, scope) =>
      var found := GetById(s.table, id, scope);
      if found.Some? then s.(copies := s.copies[c := Copy(found.value, Count(s.births, id))]) else s
    case WriteBack(c, body, origin, scope, now) =>
      if c !in s.copies then s
      else
        var record := Outgoing(s.copies[c], body, origin);
        var o := Update(s.table, record, scope, now, hash);
        if o.hit then
          var stored := record.(version := record.version + 1, updatedAt := now, hash := hash(body.content));
          Bumped(s, o, record.id).(copies := s.copies[c := s.copies[c].(row := stored)])
        else s
    case SupersedeRow(id, winner, reason, scope, now) =>
      Bumped(s, Supersede(s.table, id, winner, reason, scope, now), id)
    case ForgetRow(id, scope, now) => Bumped(s, Forget(s.table, id, scope, now), id)
    case ClaimRow(id, scope, now) => s.(table := Claim(s.table, id, scope, now).table)
    case PurgeRows(scope) => s.(table := Purge(s.table, scope))
    case EraseRows(scope) => s.(table := EraseAll(s.table, scope))
  }

  function RunFrom(s: State, es: seq<Event>, hash: string -> string): State {
    if es == [] then s else Next(RunFrom(s, es[..|es| - 1], hash), es[|es| - 1], hash)
  }

  function Run(es: seq<Event>, hash: string -> string): State {
    RunFrom(EMPTY, es, hash)
  }

  /** Equal except for the two columns no version guards: the claim stamp, and the origin a client
      may have changed on its own copy. */
  predicate SameRow(a: Row, b: Row) {
    a.(consolidatedAt := b.consolidatedAt, origin := b.origin) == b
  }

  ghost predicate CopyIsPast(s: State, copy: Copy) {
    var id := copy.row.id;
    && 1 <= copy.birth <= Count(s.births, id) && copy.row.version >= 1
    && (copy.birth == Count(s.births, id) && id in s.table ==>
          && copy.row.version <= s.table[id].version
          && (copy.row.version == s.table[id].version ==> SameRow(copy.row, s.table[id])))
  }

  ghost predicate Inv(s: State) {
    && Consistent(s.table)
    && (forall id :: id in s.table ==> Count(s.births, id) >= 1 && s.table[id].version == 1 + Count(s.writes, id))
    && (forall c :: c in s.copies ==> CopyIsPast(s, s.copies[c]))
  }

  lemma GuardedWriteKeepsInv(s: State, o: Outcome, id: Id)
    requires Inv(s) && id in s.table && o.hit
    requires o.table.Keys == s.table.Keys && forall x :: x in s.table && x != id ==> o.table[x] == s.table[x]
    requires Consistent(o.table) && o.table[id].version == s.table[id].version + 1
    ensures Inv(Bumped(s, o, id))
  {
    var s' := Bumped(s, o, id);
    forall c | c in s'.copies ensures CopyIsPast(s', s'.copies[c]) {
      assert CopyIsPast(s, s.copies[c]);
    }
  }

  lemma InsertKeepsInv(s: State, record: Row, scope: Scope, now: Time, hash: string -> string)
    requires Inv(s)
    ensures Inv(Next(s, Insert(record, scope, now), hash))
  {
    var s' := Next(s, Insert(record, scope, now), hash);
    forall c | c in s'.copies ensures CopyIsPast(s', s'.copies[c]) {
      assert CopyIsPast(s, s.copies[c]);
    }
  }

  lemma WriteBackKeepsInv(s: State, c: Client, body: Body, origin: string, scope: Scope, now: Time,
                          hash: string -> string)
    requires Inv(s)
    ensures Inv(Next(s, WriteBack(c, body, origin, scope, now), hash))
  {
    if c in s.copies {
      var record := Outgoing(s.copies[c], body, origin);
      var o := Update(s.table, record, scope, now, hash);
      assert CopyIsPast(s, s.copies[c]);
      if o.hit {
        GuardedWriteKeepsInv(s, o, record.id);
      }
    }
  }

  lemma TableOnlyKeepsInv(s: State, t: Table)
    requires Inv(s) && Consistent(t)
    requires forall id :: id in t ==>
      id in s.table && t[id].version == s.table[id].version && SameRow(t[id], s.table[id])
    requires forall id :: id in t ==> t[id].origin == s.table[id].origin
    ensures Inv(s.(table := t))
  {
    var s' := s.(table := t);
    forall c | c in s'.copies ensures CopyIsPast(s', s'.copies[c]) {
      assert CopyIsPast(s, s.copies[c]);
    }
  }

  lemma ReadKeepsInv(s: State, c: Client, id: Id, scope: Scope, hash: string -> string)
    requires Inv(s)
    ensures Inv(Next(s, Read(c, id, scope), hash))
  {
    var s' := Next(s, Read(c, id, scope), hash);
    forall d | d in s'.copies ensures CopyIsPast(s', s'.copies[d]) {
      if d in s.copies { assert CopyIsPast(s, s.copies[d]); }
    }
  }

  lemma NextKeepsInv(s: State, e: Event, hash: string -> string)
    requires Inv(s)
    ensures Inv(Next(s, e, hash))
  {
    match e
    case Insert(record, scope, now) => InsertKeepsInv(s, record, scope, now, hash);
    case Read(c, id, scope) => ReadKeepsInv(s, c, id, scope, hash);
    case WriteBack(c, body, origin, scope, now) => WriteBackKeepsInv(s, c, body, origin, scope, now, hash);
    case SupersedeRow(id, winner, reason, scope, now) =>
      SupersedeKeepsInv(s, id, winner, reason, scope, now, hash);
    case ForgetRow(id, scope, now) => ForgetKeepsInv(s, id, scope, now, hash);
    case ClaimRow(id, scope, now) => ClaimKeepsInv(s, id, scope, now, hash);
    case PurgeRows(scope) => RemovalKeepsInv(s, Purge(s.table, scope));
    case EraseRows(scope) => RemovalKeepsInv(s, EraseAll(s.table, scope));
  }

  lemma ClaimKeepsInv(s: State, id: Id, scope: Scope, now: Time, hash: string -> string)
    requires Inv(s)
    ensures Inv(Next(s, ClaimRow(id, scope, now), hash))
  {
    TableOnlyKeepsInv(s, Claim(s.table, id, scope, now).table);
  }

  /** A purge or an erasure. */
  lemma RemovalKeepsInv(s: State, t: Table)
    requires Inv(s) && forall id :: id in t ==> id in s.table && t[id] == s.table[id]
    ensures Inv(s.(table := t))
  {
    TableOnlyKeepsInv(s, t);
  }

  lemma SupersedeKeepsInv(s: State, id: Id, winner: Id, reason: string, scope: Scope, now: Time, hash: string -> string)
    requires Inv(s)
    ensures Inv(Next(s, SupersedeRow(id, winner, reason, scope, now), hash))
  {
    var o := Supersede(s.table, id, winner, reason, scope, now);
    if o.hit {
      GuardedWriteKeepsInv(s, o, id);
    }
  }

  lemma ForgetKeepsInv(s: State, id: Id, scope: Scope, now: Time, hash: string -> string)
    requires Inv(s)
    ensures Inv(Next(s, ForgetRow(id, scope, now), hash))
  {
    var o := Forget(s.table, id, scope, now);
    if o.hit {
      GuardedWriteKeepsInv(s, o, id);
    }
  }

  lemma {:induction false} RunKeepsInv(es: seq<Event>, hash: string -> string)
    ensures Inv(Run(es, hash))
  {
    if es != [] {
      RunKeepsInv(es[..|es| - 1], hash);
      NextKeepsInv(Run(es[..|es| - 1], hash), es[|es| - 1], hash);
    }
  }

  // ---------------------------------------------------------------- the guarantees

  /** The version of every row is one more than its successful writes: a claim is not a write. */
  lemma VersionCountsWrites(es: seq<Event>, hash: string -> string, id: Id)
    requires id in Run(es, hash).table
    ensures Run(es, hash).table[id].version == 1 + Count(Run(es, hash).writes, id)
  {
    RunKeepsInv(es, hash);
  }

  /** No update is lost: a write-back succeeds only from a copy of the row as the preceding
      successful write left it, unless the id was purged and inserted anew in between. */
  lemma NoLostUpdate(es: seq<Event>, hash: string -> string, c: Client, body: Body, origin: string, scope: Scope,
                     now: Time)
    requires c in Run(es, hash).copies
    requires Update(Run(es, hash).table, Outgoing(Run(es, hash).copies[c], body, origin), scope, now, hash).hit
    ensures var s := Run(es, hash); var copy := s.copies[c];
      copy.birth == Count(s.births, copy.row.id) ==> SameRow(copy.row, s.table[copy.row.id])
  {
    RunKeepsInv(es, hash);
    assert CopyIsPast(Run(es, hash), Run(es, hash).copies[c]);
  }

  function Inserts(es: seq<Event>, id: Id): nat {
    if es == [] then 0
    else
      var e := es[|es| - 1];
      Inserts(es[..|es| - 1], id) + if e.Insert? && e.record.id == id then 1 else 0
  }

  lemma {:induction false} BirthsAreInserts(es: seq<Event>, hash: string -> string, id: Id)
    ensures Count(Run(es, hash).births, id) <= Inserts(es, id)
  {
    if es != [] {
      BirthsAreInserts(es[..|es| - 1], hash, id);
    }
  }

  /** What a caller can check: when no id is inserted twice, every write-back that succeeds comes from the
      row as the preceding successful write left it. */
  lemma NoLostUpdateWithoutReinsert(es: seq<Event>, hash: string -> string, c: Client, body: Body, origin: string,
                                    scope: Scope, now: Time)
    requires c in Run(es, hash).copies && Inserts(es, Run(es, hash).copies[c].row.id) <= 1
    requires Update(Run(es, hash).table, Outgoing(Run(es, hash).copies[c], body, origin), scope, now, hash).hit
    ensures var s := Run(es, hash); SameRow(s.copies[c].row, s.table[s.copies[c].row.id])
  {
    RunKeepsInv(es, hash);
    assert CopyIsPast(Run(es, hash), Run(es, hash).copies[c]);
    BirthsAreInserts(es, hash, Run(es, hash).copies[c].row.id);
    NoLostUpdate(es, hash, c, body, origin, scope, now);
  }

  /** A write that changed the row (supersession or tombstone) defeats every copy read before it. */
  lemma SupersessionDefeatsEarlierCopies(es: seq<Event>, hash: string -> string, id: Id, winner: Id, reason: string,
                                         at: Scope, when: Time, c: Client, body: Body, origin: string,
                                         scope: Scope, now: Time)
    requires Supersede(Run(es, hash).table, id, winner, reason, at, when).hit
    requires c in Run(es, hash).copies && Run(es, hash).copies[c].row.id == id
    requires Run(es, hash).copies[c].birth == Count(Run(es, hash).births, id)
    ensures var s := Next(Run(es, hash), SupersedeRow(id, winner, reason, at, when), hash);
      Next(s, WriteBack(c, body, origin, scope, now), hash) == s
  {
    RunKeepsInv(es, hash);
    assert CopyIsPast(Run(es, hash), Run(es, hash).copies[c]);
  }

  /** Two clients that read the same version cannot both write it back. */
  lemma OnlyOneOfTwoWriters(es: seq<Event>, hash: string -> string, c: Client, d: Client, scope: Scope,
                            first: Body, second: Body, now: Time, later: Time)
    requires c != d && c in Run(es, hash).copies && d in Run(es, hash).copies
    requires var s := Run(es, hash);
      && s.copies[c].row.id == s.copies[d].row.id && s.copies[c].row.version == s.copies[d].row.version
    requires Update(Run(es, hash).table, Outgoing(Run(es, hash).copies[c], first, ""), scope, now, hash).hit
    ensures var s := Next(Run(es, hash), WriteBack(c, first, "", scope, now), hash);
      Next(s, WriteBack(d, second, "", scope, later), hash) == s
  {
  }

  // ---------------------------------------------------------------- where the guard stops

  /** The premise is needed, always: the version alone does not tell one row of an id from the next.  From
      every reachable state, whatever copy a client holds, one more insert of the id (a restore keeps exported
      ids) lets that copy overwrite a row its client never saw. */
  lemma ReinsertedIdCanBeOverwrittenUnseen(past: seq<Event>, hash: string -> string, c: Client, record: Row,
                                           scope: Scope,
                                           body: Body) returns (es: seq<Event>)
    requires c in Run(past, hash).copies && record.id == Run(past, hash).copies[c].row.id
    requires record.deletedAt.None? && Admits(scope, scope)
    ensures Inserts(es, record.id) == 1
    ensures var s := RunFrom(Run(past, hash), es, hash);
      && c in s.copies && s.copies[c] == Run(past, hash).copies[c]
      && record.id in s.table && s.table[record.id].body == record.body
      && s.copies[c].birth < Count(s.births, record.id)
      && Update(s.table, Outgoing(s.copies[c], body, ""), scope, 0, hash).hit
  {
    RunKeepsInv(past, hash);
    var s, id := Run(past, hash), record.id;
    var copy := s.copies[c];
    assert CopyIsPast(s, copy);
    var d := FreshNumber(s.copies.Keys);
    var remove := if id in s.table then [EraseRows(s.table[id].scope)] else [];
    var begin := remove + [Insert(record, scope, 0), Read(d, id, scope)];
    RestoreAndRead(s, remove, record, scope, d, hash);
    var s1 := RunFrom(s, begin, hash);
    var climb := ClimbTo(s1, d, id, scope, record.body, copy.row.version, hash);
    es := begin + climb;
    RunAppend(s, begin, climb, hash);
    InsertsAdd(begin, climb, id);
    InsertsAdd(remove, [Insert(record, scope, 0), Read(d, id, scope)], id);
    InsertsAdd([Insert(record, scope, 0)], [Read(d, id, scope)], id);
    assert [Insert(record, scope, 0)] + [Read(d, id, scope)] == [Insert(record, scope, 0), Read(d, id, scope)];
    assert Inserts(remove, id) == 0 && Inserts([Insert(record, scope, 0)], id) == 1;
    assert Inserts([Read(d, id, scope)], id) == 0;
  }

  /** The row is removed, stored anew and read by `d`. */
  lemma RestoreAndRead(s: State, remove: seq<Event>, record: Row, scope: Scope, d: Client, hash: string -> string)
    requires Consistent(s.table) && record.deletedAt.None?
    requires remove == if record.id in s.table then [EraseRows(s.table[record.id].scope)] else []
    ensures var stored := Inserted(record, scope, 0, hash); var birth := Count(s.births, record.id) + 1;
      var s' := RunFrom(s, remove + [Insert(record, scope, 0), Read(d, record.id, scope)], hash);
      && s'.births == s.births[record.id := birth] && s'.copies == s.copies[d := Copy(stored, birth)]
      && record.id in s'.table && s'.table[record.id] == stored
  {
    RemoveRow(s, record.id, remove, hash);
    InsertAndRead(RunFrom(s, remove, hash), record, scope, d, hash);
    RunAppend(s, remove, [Insert(record, scope, 0), Read(d, record.id, scope)], hash);
  }

  lemma RemoveRow(s: State, id: Id, remove: seq<Event>, hash: string -> string)
    requires remove == if id in s.table then [EraseRows(s.table[id].scope)] else []
    ensures var s' := RunFrom(s, remove, hash); id !in s'.table && s'.births == s.births && s'.copies == s.copies
  {
    if id in s.table {
      OneStep(s, EraseRows(s.table[id].scope), hash);
    }
  }

  lemma InsertAndRead(s: State, record: Row, scope: Scope, d: Client, hash: string -> string)
    requires record.id !in s.table && record.deletedAt.None?
    ensures var stored := Inserted(record, scope, 0, hash); var birth := Count(s.births, record.id) + 1;
      var s' := RunFrom(s, [Insert(record, scope, 0), Read(d, record.id, scope)], hash);
      && s'.births == s.births[record.id := birth] && s'.copies == s.copies[d := Copy(stored, birth)]
      && record.id in s'.table && s'.table[record.id] == stored
  {
    var first, second := Insert(record, scope, 0), Read(d, record.id, scope);
    assert [first, second] == [first] + [second];
    RunAppend(s, [first], [second], hash);
    OneStep(s, first, hash);
    OneStep(Next(s, first, hash), second, hash);
  }

  /** A client that holds the row as stored writes it back, with the body it has, until its version is `v`. */
  lemma {:induction false} ClimbTo(s: State, d: Client, id: Id, scope: Scope, body: Body, v: int,
                                   hash: string -> string)
    returns (es: seq<Event>)
    requires d in s.copies && id in s.table && s.copies[d].row.id == id
    requires s.copies[d].row.version == s.table[id].version
    requires s.table[id].deletedAt.None? && Admits(scope, s.table[id].scope) && s.table[id].body == body
    requires s.table[id].version <= v
    ensures Inserts(es, id) == 0
    ensures var s' := RunFrom(s, es, hash);
      && s'.births == s.births && (forall c :: c in s.copies && c != d ==>
            c in s'.copies && s'.copies[c] == s.copies[c])
      && id in s'.table && s'.table[id].version == v && s'.table[id].body == body && s'.table[id].deletedAt.None?
      && Admits(scope, s'.table[id].scope)
    decreases v - s.table[id].version
  {
    if s.table[id].version == v {
      es := [];
    } else {
      var e := WriteBack(d, body, "", scope, 0);
      var rest := ClimbTo(Next(s, e, hash), d, id, scope, body, v, hash);
      es := [e] + rest;
      OneStep(s, e, hash);
      RunAppend(s, [e], rest, hash);
      InsertsAdd([e], rest, id);
    }
  }

  lemma {:induction false} RunIsFold(s: State, es: seq<Event>, hash: string -> string, step: (State, Event) -> State)
    requires forall t: State, e: Event :: step(t, e) == Next(t, e, hash)
    ensures RunFrom(s, es, hash) == Fold(step, s, es)
  {
    if es != [] {
      RunIsFold(s, es[..|es| - 1], hash, step);
    }
  }

  lemma RunAppend(s: State, es: seq<Event>, more: seq<Event>, hash: string -> string)
    ensures RunFrom(s, es + more, hash) == RunFrom(RunFrom(s, es, hash), more, hash)
  {
    var step := (t: State, e: Event) => Next(t, e, hash);
    RunIsFold(s, es + more, hash, step);
    RunIsFold(s, es, hash, step);
    RunIsFold(RunFrom(s, es, hash), more, hash, step);
    FoldAppend(step, s, es, more);
  }

  lemma OneStep(s: State, e: Event, hash: string -> string)
    ensures RunFrom(s, [e], hash) == Next(s, e, hash)
  {
    assert [e][..0] == [];
  }

  lemma {:induction false} InsertsAdd(es: seq<Event>, more: seq<Event>, id: Id)
    ensures Inserts(es + more, id) == Inserts(es, id) + Inserts(more, id)
    ensures |more| == 1 ==> Inserts(more, id) == if more[0].Insert? && more[0].record.id == id then 1 else 0
  {
    if more == [] {
      assert es + more == es;
    } else {
      var n := |more| - 1;
      InsertsAdd(es, more[..n], id);
      assert (es + more)[..|es + more| - 1] == es + more[..n];
    }
  }

  /** `update` does not look at `superseded_at`, and `get_by_id` does not hide superseded rows: a client
      that reads after the supersession rewrites the superseded row. */
  lemma SupersededRowStaysWritable(t: Table, id: Id, body: Body, scope: Scope, now: Time, hash: string -> string)
    requires Consistent(t) && id in t && Admits(scope, t[id].scope) && t[id].deletedAt.None? && t[id].supersededAt.Some?
    ensures GetById(t, id, scope) == Some(t[id])
    ensures var o := Update(t, t[id].(body := body), scope, now, hash);
      o.hit && o.table[id].body == body && o.table[id].supersededAt == t[id].supersededAt
  {
  }
}
