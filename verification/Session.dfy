/** `Db2Session`: a chat session kept as rows of the working-memory table. */
module Session {
  import opened Sequences
  import opened Rows
  import opened Repositories
  import opened Paging

  datatype Message = Message(role: Option<string>, content: string)

  // ---------------------------------------------------------------- rows as a list

  /** `ids` are the session's live rows, oldest first, none later than `last`. */
  ghost predicate Records(t: Table, scope: Scope, ids: seq<Id>, last: Time) {
    && Consistent(t)
    && Distinct(ids)
    && (forall id :: id in ids <==> id in t && Admits(scope, t[id].scope) && Live(t[id]))
    && (forall id :: id in ids ==> t[id].expiresAt.None? && t[id].createdAt <= last)
    && (forall i, j :: 0 <= i < j < |ids| ==> t[ids[i]].createdAt < t[ids[j]].createdAt)
  }

  /** The rows leave the database one answer: newest first is exactly the reverse. */
  lemma ListingIsReversed(t: Table, scope: Scope, ids: seq<Id>, last: Time, now: Time, order: seq<Id>)
    requires Records(t, scope, ids, last) && IsOrdering(t, Selected(t, scope, false, now), order)
    ensures order == Reversed(ids)
  {
    var chosen := Selected(t, scope, false, now);
    var rank: Id -> int := id => if id in t then t[id].createdAt else 0;
    var r := Reversed(ids);
    assert forall id :: id in ids <==> id in chosen;
    ReversedHasTheSame(ids);
    OrderingIsSorted(t, chosen, order);
    assert IsSorted(chosen, rank, r);
    forall x, y | x in chosen && y in chosen && x != y ensures rank(x) != rank(y) {
      var i :| 0 <= i < |ids| && ids[i] == x;
      var j :| 0 <= j < |ids| && ids[j] == y;
    }
    OneAnswer(chosen, rank, order, r);
  }

  lemma ReversedHasTheSame(ids: seq<Id>)
    ensures Distinct(ids) ==> Distinct(Reversed(ids))
    ensures forall x :: x in Reversed(ids) <==> x in ids
  {
    forall x | x in ids ensures x in Reversed(ids) {
      var i :| 0 <= i < |ids| && ids[i] == x;
      assert Reversed(ids)[|ids| - 1 - i] == x;
    }
  }

  /** A row is as it was, or was live and is now tombstoned. */
  predicate KeptOrBuried(r: Row, r': Row) {
    || r' == r
    || (r.deletedAt.None? && r'.deletedAt.Some?
        && r' == r.(deletedAt := r'.deletedAt, updatedAt := r'.updatedAt, version := r.version + 1))
  }

  /** All a session ever does to the table: add rows and bury rows, within its scope. */
  ghost predicate OnlyGrows(t: Table, t': Table, scope: Scope) {
    && Isolated(t, t', scope)
    && forall id :: id in t ==> id in t' && KeptOrBuried(t[id], t'[id])
  }

  lemma OnlyGrowsTwice(t: Table, t1: Table, t2: Table, scope: Scope)
    requires OnlyGrows(t, t1, scope) && OnlyGrows(t1, t2, scope)
    ensures OnlyGrows(t, t2, scope)
  {
    forall id | id in t ensures id in t2 && KeptOrBuried(t[id], t2[id]) {
      assert KeptOrBuried(t[id], t1[id]) && KeptOrBuried(t1[id], t2[id]);
    }
  }

  /** Writes under a scope that shares no row with the session's leave its list alone. */
  lemma OthersDoNotDisturb(t: Table, t': Table, scope: Scope, other: Scope, ids: seq<Id>, last: Time)
    requires Records(t, scope, ids, last) && Isolated(t, t', other) && Consistent(t')
    requires forall actual :: !(Admits(scope, actual) && Admits(other, actual))
    ensures Records(t', scope, ids, last) && forall id :: id in ids ==> id in t' && t'[id] == t[id]
  {
    forall id ensures id in ids <==> id in t' && Admits(scope, t'[id].scope) && Live(t'[id]) {
      if id in t { assert !(Admits(scope, t[id].scope) && Admits(other, t[id].scope)); }
      if id in t' { assert !(Admits(scope, t'[id].scope) && Admits(other, t'[id].scope)); }
    }
  }

  lemma AppendRecords(t: Table, scope: Scope, ids: seq<Id>, last: Time, record: Row, now: Time, hash: string -> string)
    requires Records(t, scope, ids, last) && last < now && record.id !in t
    requires record.deletedAt.None? && record.expiresAt.None?
    ensures var t' := Create(t, record, scope, now, hash, false).table;
      && t' == t[record.id := Inserted(record, scope, now, hash)]
      && Records(t', scope, ids + [record.id], now) && OnlyGrows(t, t', scope)
  {
    var t' := Create(t, record, scope, now, hash, false).table;
    CreateStaysInScope(t, record, scope, now, hash, false);
    assert record.id !in ids;
    forall id ensures id in ids + [record.id] <==> id in t' && Admits(scope, t'[id].scope) && Live(t'[id]) {
      assert id in ids + [record.id] <==> id in ids || id == record.id;
    }
  }

  lemma BuryRecords(t: Table, scope: Scope, ids: seq<Id>, last: Time, now: Time)
    requires Records(t, scope, ids, last) && ids != []
    ensures var n := |ids| - 1; var o := Forget(t, ids[n], scope, now);
      && o.hit && Records(o.table, scope, ids[..n], last) && OnlyGrows(t, o.table, scope)
      && forall id :: id in ids[..n] ==> id in o.table && o.table[id] == t[id]
  {
    var n := |ids| - 1;
    assert ids[n] in ids;
    BuryKeepsOthers(t, scope, ids[n], now);
    AllButLast(ids);
    assert Records(Forget(t, ids[n], scope, now).table, scope, ids[..n], last);
  }

  lemma BuryKeepsOthers(t: Table, scope: Scope, id: Id, now: Time)
    requires id in t && Admits(scope, t[id].scope) && t[id].deletedAt.None?
    ensures OnlyGrows(t, Forget(t, id, scope, now).table, scope)
  {
    InScopeWriteIsIsolated(t, id, Forget(t, id, scope, now).table[id], scope);
  }

  lemma AllButLast(ids: seq<Id>)
    requires ids != [] && Distinct(ids)
    ensures Distinct(ids[..|ids| - 1])
    ensures forall id :: id in ids[..|ids| - 1] <==> id in ids && id != ids[|ids| - 1]
  {
    assert ids == ids[..|ids| - 1] + [ids[|ids| - 1]];
  }

  // ---------------------------------------------------------------- Python slicing

  /** Where `xs[-limit:]` starts in a list of `n`. */
  function TailStart(n: nat, limit: int): (start: nat)
    ensures start <= n
  {
    if limit == 0 then 0
    else if limit > 0 then (if limit <= n then n - limit else 0)
    else Min(-limit, n)
  }

  /** A positive limit keeps the most recent `limit`; zero keeps everything, since `-0` is `0`, and a
      negative one drops the oldest instead. */
  lemma TailIsTheMostRecentIffPositive(n: nat, limit: int)
    ensures n - TailStart(n, limit) ==
      if limit > 0 then Min(limit, n) else if limit == 0 then n else if n + limit > 0 then n + limit else 0
    ensures n - TailStart(n, limit) == (if limit <= 0 then 0 else Min(limit, n)) <==> limit > 0 || n == 0 || n <= -limit
  {
  }

  // ---------------------------------------------------------------- the session

  class Db2Session {
    const working: Repository
    const scope: Scope
    const encode: Message -> string
    const decode: string -> Message
    ghost var ids: seq<Id>
    ghost var last: Time

    ghost predicate Valid()
      reads this, working
    {
      && !working.dedup && scope.agent != ""
      && (forall m :: decode(encode(m)) == m)
      && Records(working.rows, scope, ids, last)
    }

    /** The plain list the session stands for. */
    ghost function History(): (h: seq<Message>)
      reads this, working
      requires Valid()
      ensures |h| == |ids|
    {
      MessagesOf(working.rows, ids)
    }

    ghost function MessagesOf(t: Table, ids: seq<Id>): (h: seq<Message>)
      requires forall id :: id in ids ==> id in t
      ensures |h| == |ids|
    {
      seq(|ids|, i requires 0 <= i < |ids| => assert ids[i] in ids; decode(t[ids[i]].body.content))
    }

    constructor (working: Repository, scope: Scope, encode: Message -> string, decode: string -> Message,
                 ghost ids: seq<Id>, ghost last: Time)
      requires !working.dedup && scope.agent != "" && (forall m :: decode(encode(m)) == m)
      requires Records(working.rows, scope, ids, last)
      ensures Valid() && this.working == working && this.ids == ids
    {
      this.working, this.scope, this.encode, this.decode := working, scope, encode, decode;
      this.ids, this.last := ids, last;
    }

    /** The row of a message: its encoding, and its role or "unknown". */
    predicate Carries(row: Row, message: Message, now: Time) {
      && row.body.content == encode(message)
      && row.body.metadata == map["role" := if message.role.Some? then message.role.value else "unknown"]
      && row.scope == scope && row.createdAt == now
    }

    /** `id` is the fresh UUID, `now` the clock at the insert. */
    method PersistMessage(message: Message, id: Id, now: Time)
      requires Valid() && id !in working.rows && last < now
      modifies this`ids, this`last, working
      ensures Valid() && last == now && History() == old(History()) + [message]
      ensures OnlyGrows(old(working.rows), working.rows, scope)
      ensures working.rows.Keys == old(working.rows.Keys) + {id}
      ensures Carries(working.rows[id], message, now)
    {
      var role := if message.role.Some? then message.role.value else "unknown";
      var record := Row(id, scope, Body(encode(message), map["role" := role], [], 1.0),
                        "direct_write", "", now, now, None, 1, None, None, None, None, "");
      AppendRecords(working.rows, scope, ids, last, record, now, working.hash);
      ghost var before := working.rows;
      var r := working.Create(record, scope, now);
      ids, last := ids + [id], now;
      assert forall i :: 0 <= i < |ids| - 1 ==> ids[i] in old(ids);
      assert decode(working.rows[id].body.content) == message;
      assert History() == old(History()) + [message];
    }

    method AddItems(items: seq<Message>, newId: nat -> Id, clock: nat -> Time)
      requires Valid() && Ticks(clock) && last < clock(0)
      requires forall k: nat :: newId(k) !in working.rows
      requires forall j: nat, k: nat :: j != k ==> newId(j) != newId(k)
      modifies this`ids, this`last, working
      ensures Valid() && History() == old(History()) + items
      ensures OnlyGrows(old(working.rows), working.rows, scope)
    {
      for k := 0 to |items|
        invariant Valid() && History() == old(History()) + items[..k] && last < clock(k)
        invariant OnlyGrows(old(working.rows), working.rows, scope)
        invariant forall j: nat :: j >= k ==> newId(j) !in working.rows
      {
        ghost var t := working.rows;
        PersistMessage(items[k], newId(k), clock(k));
        OnlyGrowsTwice(old(working.rows), t, working.rows, scope);
        assert items[..k + 1] == items[..k] + [items[k]];
        assert clock(k) < clock(k + 1);
      }
      assert items[..|items|] == items;
    }

    /** A list of at most 1000 messages is read whole; of a longer one only the last 1000 are seen. */
    method GetItems(limit: Option<int>, now: Time, order: seq<Id>) returns (messages: seq<Message>)
      requires Valid() && IsOrdering(working.rows, Selected(working.rows, scope, false, now), order)
      ensures var seen := History()[if |ids| <= LIST_CAP then 0 else |ids| - LIST_CAP..];
        messages == seen[if limit.None? then 0 else TailStart(|seen|, limit.value)..]
    {
      ListingIsReversed(working.rows, scope, ids, last, now, order);
      var listed := working.ListAll(scope, 1000, 0, false, now, order, Page(order, 1000, 0));
      NewestFirst(listed.value, 1000, order);
      var rows := Reversed(listed.value);
      if limit.Some? {
        rows := rows[TailStart(|rows|, limit.value)..];
      }
      messages := Decoded(rows);
    }

    method Decoded(rows: seq<Row>) returns (messages: seq<Message>)
      ensures |messages| == |rows| && forall k :: 0 <= k < |rows| ==> messages[k] == decode(rows[k].body.content)
    {
      messages := [];
      for i := 0 to |rows|
        invariant |messages| == i && forall k :: 0 <= k < i ==> messages[k] == decode(rows[k].body.content)
      {
        messages := messages + [decode(rows[i].body.content)];
      }
    }

    /** `forget` on the newest live row. */
    method BuryNewest(id: Id, now: Time)
      requires Valid() && ids != [] && id == ids[|ids| - 1]
      modifies this`ids, working
      ensures Valid() && last == old(last) && OnlyGrows(old(working.rows), working.rows, scope)
      ensures ids == old(ids)[..|old(ids)| - 1] && History() == old(History())[..|old(ids)| - 1]
    {
      BuryRecords(working.rows, scope, ids, last, now);
      var ok := working.Forget(id, scope, now);
      ids := ids[..|ids| - 1];
      assert forall i :: 0 <= i < |ids| ==> ids[i] == old(ids)[i] && ids[i] in ids;
    }

    method BuryNext(id: Id, now: Time, ghost start: Table)
      requires Valid() && ids != [] && id == ids[|ids| - 1] && OnlyGrows(start, working.rows, scope)
      modifies this`ids, working
      ensures Valid() && last == old(last) && OnlyGrows(start, working.rows, scope)
      ensures ids == old(ids)[..|old(ids)| - 1] && History() == old(History())[..|old(ids)| - 1]
    {
      ghost var t := working.rows;
      BuryNewest(id, now);
      OnlyGrowsTwice(start, t, working.rows, scope);
    }

    lemma NewestFirst(listed: seq<Row>, limit: nat, order: seq<Id>)
      requires Valid() && order == Reversed(ids) && limit <= LIST_CAP
      requires (forall id :: id in Page(order, limit, 0) ==> id in working.rows)
      requires listed == RowsAt(working.rows, Page(order, limit, 0))
      ensures |listed| == Min(limit, |ids|)
      ensures forall i :: 0 <= i < |listed| ==>
        listed[i].id == ids[|ids| - 1 - i] && decode(listed[i].body.content) == History()[|ids| - 1 - i]
    {
      forall i | 0 <= i < |listed|
        ensures listed[i].id == ids[|ids| - 1 - i] && decode(listed[i].body.content) == History()[|ids| - 1 - i] {
        assert ids[|ids| - 1 - i] in ids;
      }
    }

    method PopItem(now: Time, order: seq<Id>) returns (popped: Option<Message>)
      requires Valid() && IsOrdering(working.rows, Selected(working.rows, scope, false, now), order)
      modifies this`ids, working
      ensures Valid() && last == old(last) && OnlyGrows(old(working.rows), working.rows, scope)
      ensures old(History()) == [] ==> popped.None? && working.rows == old(working.rows) && History() == []
      ensures old(History()) != [] ==>
        popped == Some(old(History())[|old(History())| - 1]) && History() == old(History())[..|old(History())| - 1]
    {
      ListingIsReversed(working.rows, scope, ids, last, now, order);
      var listed := working.ListAll(scope, 1, 0, false, now, order, Page(order, 1, 0));
      NewestFirst(listed.value, 1, order);
      if listed.value == [] {
        return None;
      }
      var row := listed.value[0];
      BuryNewest(row.id, now);
      return Some(decode(row.body.content));
    }

    /** Leaves an empty list exactly when there were at most 1000 messages. */
    method ClearSession(now: Time, order: seq<Id>)
      requires Valid() && IsOrdering(working.rows, Selected(working.rows, scope, false, now), order)
      modifies this`ids, working
      ensures Valid() && last == old(last) && OnlyGrows(old(working.rows), working.rows, scope)
      ensures History() == old(History())[..if |old(History())| <= LIST_CAP then 0 else |old(History())| - LIST_CAP]
    {
      ListingIsReversed(working.rows, scope, ids, last, now, order);
      var listed := working.ListAll(scope, 1000, 0, false, now, order, Page(order, 1000, 0));
      NewestFirst(listed.value, 1000, order);
      BuryAll(listed.value, now);
    }

    method BuryAll(doomed: seq<Row>, now: Time)
      requires Valid() && |doomed| <= |ids| && forall i :: 0 <= i < |doomed| ==> doomed[i].id == ids[|ids| - 1 - i]
      modifies this`ids, working
      ensures Valid() && last == old(last) && OnlyGrows(old(working.rows), working.rows, scope)
      ensures History() == old(History())[..|old(History())| - |doomed|]
    {
      ghost var n := |ids|;
      for i := 0 to |doomed|
        invariant Valid() && last == old(last) && ids == old(ids)[..n - i] && History() == old(History())[..n - i]
        invariant OnlyGrows(old(working.rows), working.rows, scope)
      {
        BuryNext(doomed[i].id, now, old(working.rows));
      }
    }
  }
}
