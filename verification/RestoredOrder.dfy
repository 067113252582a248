/** In which order a restored table lists. */
module RestoredOrder {
  import opened Sequences
  import opened Rows
  import opened Paging
  import opened PageLoops
  import opened Portability
  import opened RoundTrips

  /** Export is newest first and each import takes a later timestamp than the one before, so a restored
      table lists in exactly the opposite order. */
  lemma ImportReversesTheOrder(ts: Tables, scope: Scope, now: Time, listed: Listing, to: Target, kind: Kind,
                               back: Table,
                               later: Time, order: seq<Id>)
    requires Compatible(ts, scope, now, listed, to) && ComesBack(ts, scope, listed, to, kind, back)
    requires !Dedups(kind) || DistinctHashes(ts, listed, to, kind)
    requires Ticks(to.clock)
    ensures IsOrdering(back, Selected(back, to.scope, true, later), order) <==>
      order == Reversed(Names(listed, scope, to, kind))
  {
    NamesAreDistinct(ts, scope, now, listed, to, kind);
    ListedAreUndeleted(ts, scope, now, listed, kind);
    ReversesIfRestored(ts, scope, listed, to, kind, back, later, order);
  }

  lemma ListedAreUndeleted(ts: Tables, scope: Scope, now: Time, listed: Listing, kind: Kind)
    requires Exports(ts, scope, now, listed)
    ensures forall id :: id in listed[kind] ==> ts[kind][id].deletedAt.None?
  {
    assert IsListing(Selected(ts[kind], scope, true, now), listed[kind]);
  }

  lemma ReversesIfRestored(ts: Tables, scope: Scope, listed: Listing, to: Target, kind: Kind, back: Table,
                           later: Time, order: seq<Id>)
    requires Lists(ts, listed) && ComesBack(ts, scope, listed, to, kind, back)
    requires Distinct(Names(listed, scope, to, kind)) && forall id :: id in listed[kind] ==>
      ts[kind][id].deletedAt.None?
    requires (!Dedups(kind) || DistinctHashes(ts, listed, to, kind)) && Ticks(to.clock)
    ensures IsOrdering(back, Selected(back, to.scope, true, later), order) <==>
      order == Reversed(Names(listed, scope, to, kind))
  {
    var names := Names(listed, scope, to, kind);
    KeysAreNames(ts, scope, listed, to, kind, back);
    RestoredRows(ts, scope, listed, to, kind, back, later);
    OnlyReversed(back, to, later, names, Base(listed, IndexOf(kind)), order);
  }

  lemma OnlyReversed(back: Table, to: Target, later: Time, names: seq<Id>, base: nat, order: seq<Id>)
    requires Distinct(names) && Ticks(to.clock)
    requires forall i: nat :: i < |names| ==> RestoredRow(back, to, later, names[i], base + i)
    requires forall id :: id in back ==> id in names
    ensures IsOrdering(back, Selected(back, to.scope, true, later), order) <==> order == Reversed(names)
  {
    var chosen := Selected(back, to.scope, true, later);
    RestoredOrder(back, to, later, names, base);
    OrderingIsSorted(back, chosen, order);
    if IsSorted(chosen, Rank(back), order) {
      OneAnswer(chosen, Rank(back), order, Reversed(names));
    }
  }

  /** Of the rows of one hash, an export that is newest first brings back the newest. */
  lemma SurvivorIsNewest(ts: Tables, scope: Scope, now: Time, listed: Listing, to: Target, kind: Kind, i: nat, j: nat)
    requires ExportsInOrder(ts, scope, now, listed) && Dedups(kind) && i < |listed[kind]| && j < |listed[kind]|
    requires Survives(ts, listed, to, kind, i) && SameHash(ts[kind], listed[kind], to, j, i)
    ensures ts[kind][listed[kind][i]].createdAt >= ts[kind][listed[kind][j]].createdAt
  {
    assert IsOrdering(ts[kind], Selected(ts[kind], scope, true, now), listed[kind]);
    assert j >= i;
  }

  ghost predicate RestoredRow(back: Table, to: Target, later: Time, id: Id, k: nat) {
    id in Selected(back, to.scope, true, later) && back[id].createdAt == to.clock(k)
  }

  lemma KeysAreNames(ts: Tables, scope: Scope, listed: Listing, to: Target, kind: Kind, back: Table)
    requires Lists(ts, listed) && ComesBack(ts, scope, listed, to, kind, back)
    ensures forall id :: id in back ==> id in Names(listed, scope, to, kind)
  {
    KeysAreKeptNames(ts, scope, listed, to, kind, back);
  }

  lemma RestoredRowIsListed(ts: Tables, scope: Scope, listed: Listing, to: Target, kind: Kind, back: Table,
                            later: Time, i: nat)
    requires Lists(ts, listed) && ComesBack(ts, scope, listed, to, kind, back)
    requires !Dedups(kind) || DistinctHashes(ts, listed, to, kind)
    requires i < |listed[kind]| && listed[kind][i] in ts[kind] && ts[kind][listed[kind][i]].deletedAt.None?
    ensures RestoredRow(back, to, later, Names(listed, scope, to, kind)[i], At(listed, kind, i))
  {
    assert Survives(ts, listed, to, kind, i);
    assert CameBack(ts, listed, scope, to, back, kind, i);
  }

  lemma RestoredRows(ts: Tables, scope: Scope, listed: Listing, to: Target, kind: Kind, back: Table, later: Time)
    requires Lists(ts, listed) && ComesBack(ts, scope, listed, to, kind, back)
    requires !Dedups(kind) || DistinctHashes(ts, listed, to, kind)
    requires forall id :: id in listed[kind] ==> ts[kind][id].deletedAt.None?
    ensures var names := Names(listed, scope, to, kind);
      forall i: nat :: i < |names| ==> RestoredRow(back, to, later, names[i], Base(listed, IndexOf(kind)) + i)
  {
    var names := Names(listed, scope, to, kind);
    forall i: nat | i < |names| ensures RestoredRow(back, to, later, names[i], Base(listed, IndexOf(kind)) + i) {
      assert listed[kind][i] in listed[kind];
      RestoredRowIsListed(ts, scope, listed, to, kind, back, later, i);
    }
  }

  lemma RestoredOrder(back: Table, to: Target, later: Time, names: seq<Id>, base: nat)
    requires Distinct(names) && Ticks(to.clock)
    requires forall i: nat :: i < |names| ==> RestoredRow(back, to, later, names[i], base + i)
    requires forall id :: id in back ==> id in names
    ensures IsSorted(Selected(back, to.scope, true, later), Rank(back), Reversed(names))
    ensures forall x, y :: x in back && y in back && x != y ==> back[x].createdAt != back[y].createdAt
  {
    var r := Reversed(names);
    forall x ensures x in r <==> x in names {
      if x in names { var i :| 0 <= i < |names| && names[i] == x; assert r[|names| - 1 - i] == x; }
    }
    forall i, j | 0 <= i < j < |r| ensures Rank(back)(r[i]) > Rank(back)(r[j]) {
      assert RestoredRow(back, to, later, names[|names| - 1 - i], base + (|names| - 1 - i));
      assert RestoredRow(back, to, later, names[|names| - 1 - j], base + (|names| - 1 - j));
    }
    forall x, y | x in back && y in back && x != y ensures back[x].createdAt != back[y].createdAt {
      assert x in r && y in r;
    }
  }

  /** A restored row is where it was, with its old content. */
  lemma RowAfterTrip(ts: Tables, scope: Scope, listed: Listing, to: Target, kind: Kind, back: Table, id: Id)
    returns (i: nat)
    requires Lists(ts, listed) && ComesBack(ts, scope, listed, to, kind, back)
    requires to.scope.agent == scope.agent && id in back
    ensures i < |listed[kind]| && listed[kind][i] == id && id in ts[kind]
    ensures back[id] == Inserted(ts[kind][id].(id := id), to.scope, to.clock(At(listed, kind, i)), to.hash)
  {
    assert BackFrom(ts, scope, listed, to, kind, id);
    i :| i < |listed[kind]| && Survives(ts, listed, to, kind, i) && NewName(listed, scope, to, kind, i) == id;
    assert CameBack(ts, listed, scope, to, back, kind, i);
    assert listed[kind][i] in listed[kind];
  }

  lemma TableAfterTrip(ts: Tables, scope: Scope, listed: Listing, to: Target, kind: Kind, back: Table)
    requires Lists(ts, listed) && ComesBack(ts, scope, listed, to, kind, back) && to.scope.agent == scope.agent
    ensures Consistent(back)
    ensures forall id :: id in back ==>
      back[id].scope == to.scope && id in ts[kind] && back[id].body == ts[kind][id].body
  {
    forall id | id in back
      ensures back[id].id == id && back[id].scope == to.scope && back[id].version == 1 && back[id].supersededBy.None?
      ensures back[id].supersededAt.None?
      ensures id in ts[kind] && back[id].body == ts[kind][id].body {
      var i := RowAfterTrip(ts, scope, listed, to, kind, back, id);
    }
  }

  ghost predicate AllReturn(ts: Tables, scope: Scope, listed: Listing, to: Target, back: Tables)
    requires Lists(ts, listed)
  {
    && Full(back)
    && forall kind: Kind ::
         ComesBack(ts, scope, listed, to, kind, back[kind]) && (!Dedups(kind) || DistinctHashes(ts, listed, to, kind))
  }

  lemma NamesKept(listed: Listing, scope: Scope, to: Target, kind: Kind)
    requires (forall k: Kind :: k in listed) && to.scope.agent == scope.agent
    ensures Names(listed, scope, to, kind) == listed[kind]
  {
  }

  /** After a restore under the same agent, the export of the copy is the first export turned round,
      and it can be imported in its turn without losing a row. */
  lemma CopyExportsReversed(ts: Tables, scope: Scope, now: Time, listed: Listing, to: Target, back: Tables,
                            later: Time, listed2: Listing, to2: Target, kind: Kind)
    requires Compatible(ts, scope, now, listed, to) && to.scope.agent == scope.agent && Ticks(to.clock)
    requires AllReturn(ts, scope, listed, to, back)
    requires ExportsInOrder(back, to.scope, later, listed2) && to2.hash == to.hash
    ensures listed2[kind] == Reversed(listed[kind])
    ensures !Dedups(kind) || DistinctHashes(back, listed2, to2, kind)
  {
    NamesKept(listed, scope, to, kind);
    ImportReversesTheOrder(ts, scope, now, listed, to, kind, back[kind], later, listed2[kind]);
    assert ComesBack(ts, scope, listed, to, kind, back[kind]);
    TableAfterTrip(ts, scope, listed, to, kind, back[kind]);
    if Dedups(kind) {
      HashesStayDistinct(ts, listed, back, listed2, to, to2, kind);
    }
  }

  lemma HashesStayDistinct(ts: Tables, listed: Listing, back: Tables, listed2: Listing, to: Target, to2: Target,
                           kind: Kind)
    requires Lists(ts, listed) && Lists(back, listed2) && to2.hash == to.hash && DistinctHashes(ts, listed, to, kind)
    requires listed2[kind] == Reversed(listed[kind])
    requires forall id :: id in back[kind] ==> id in ts[kind] && back[kind][id].body == ts[kind][id].body
    ensures DistinctHashes(back, listed2, to2, kind)
  {
    var n := |listed[kind]|;
    forall j: nat, i: nat | j < i < n ensures !SameHash(back[kind], listed2[kind], to2, j, i) {
      assert listed2[kind][i] in listed2[kind] && listed2[kind][j] in listed2[kind];
      assert !SameHash(ts[kind], listed[kind], to, n - 1 - i, n - 1 - j);
    }
  }

  lemma CopyIsCompatible(ts: Tables, scope: Scope, now: Time, listed: Listing, to: Target, back: Tables,
                         later: Time, listed2: Listing, to2: Target)
    requires Compatible(ts, scope, now, listed, to) && to.scope.agent == scope.agent && to2.scope == to.scope
    requires AllReturn(ts, scope, listed, to, back)
    requires ExportsInOrder(back, to.scope, later, listed2)
    ensures Compatible(back, to.scope, later, listed2, to2)
  {
    forall kind: Kind
      ensures Consistent(back[kind]) && forall id :: id in listed2[kind] ==> Fits(back[kind][id].scope, to2.scope) {
      assert ComesBack(ts, scope, listed, to, kind, back[kind]);
      TableAfterTrip(ts, scope, listed, to, kind, back[kind]);
    }
  }

  /** A second restore puts the original order back. */
  lemma SecondTripRestoresTheOrder(ts: Tables, scope: Scope, now: Time, listed: Listing, to: Target, back: Tables,
                                   later: Time, listed2: Listing, to2: Target, back2: Table, last: Time,
                                   kind: Kind, order: seq<Id>)
    requires Compatible(ts, scope, now, listed, to) && to.scope.agent == scope.agent && Ticks(to.clock)
    requires AllReturn(ts, scope, listed, to, back)
    requires ExportsInOrder(back, to.scope, later, listed2)
    requires to2.scope == to.scope && to2.hash == to.hash && Ticks(to2.clock)
    requires ComesBack(back, to.scope, listed2, to2, kind, back2)
    ensures IsOrdering(back2, Selected(back2, to.scope, true, last), order) <==> order == listed[kind]
  {
    CopyIsCompatible(ts, scope, now, listed, to, back, later, listed2, to2);
    CopyExportsReversed(ts, scope, now, listed, to, back, later, listed2, to2, kind);
    LastTrip(back, to.scope, later, listed2, to2, kind, back2, last, listed[kind], order);
  }

  lemma LastTrip(ts: Tables, scope: Scope, now: Time, listed: Listing, to: Target, kind: Kind, back: Table, later: Time,
                 first: seq<Id>, order: seq<Id>)
    requires Compatible(ts, scope, now, listed, to) && ComesBack(ts, scope, listed, to, kind, back) && to.scope == scope
    requires (!Dedups(kind) || DistinctHashes(ts, listed, to, kind)) && Ticks(to.clock)
    requires listed[kind] == Reversed(first)
    ensures IsOrdering(back, Selected(back, scope, true, later), order) <==> order == first
  {
    assert Reversed(Reversed(first)) == first;
    NamesKept(listed, scope, to, kind);
    ImportReversesTheOrder(ts, scope, now, listed, to, kind, back, later, order);
  }
}
