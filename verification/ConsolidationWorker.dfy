/** One worker's loop over a fetched batch: claim, consolidate, write what was derived. */
module ConsolidationWorker {
  import opened Sequences
  import opened Rows
  import opened Repositories

  datatype Kind = SemanticFact | EntityProfile | ProceduralMemory | OtherType

  datatype Derived = Derived(kind: Kind, record: Row)

  /** The table after claiming `records` in order, and the records whose claim succeeded. */
  datatype Drained = Drained(table: Table, fed: seq<Row>)

  function Drain(t: Table, records: seq<Row>, scope: Scope, clock: nat -> Time): Drained {
    if records == [] then Drained(t, [])
    else
      var n := |records| - 1;
      var before := Drain(t, records[..n], scope, clock);
      var o := Claim(before.table, records[n].id, scope, clock(n));
      Drained(o.table, if o.hit then before.fed + [records[n]] else before.fed)
  }

  /** The create calls a consolidator's output leads to: records of another type are passed over. */
  function Storable(derived: seq<Derived>): seq<Derived> {
    if derived == [] then []
    else
      var last := derived[|derived| - 1];
      Storable(derived[..|derived| - 1]) + if last.kind.OtherType? then [] else [last]
  }

  function Writes(consolidator: Row -> Option<seq<Derived>>, fed: seq<Row>): seq<Derived> {
    if fed == [] then []
    else
      var out := consolidator(fed[|fed| - 1]);
      Writes(consolidator, fed[..|fed| - 1]) + if out.Some? then Storable(out.value) else []
  }

  /** The creates of one output are its records of a known type, unchanged and in order. */
  lemma {:induction false} StorableIsTheKnownTypes(derived: seq<Derived>) returns (kept: seq<int>)
    ensures PickedAt(Storable(derived), derived, kept)
    ensures forall i :: i in kept <==>
      0 <= i < |derived| && derived[i].kind in {SemanticFact, EntityProfile, ProceduralMemory}
  {
    kept := [];
    if derived != [] {
      var n := |derived| - 1;
      kept := StorableIsTheKnownTypes(derived[..n]);
      PickMore(Storable(derived[..n]), derived[..n], kept, derived[n]);
      assert derived == derived[..n] + [derived[n]];
      if !derived[n].kind.OtherType? {
        kept := kept + [n];
      }
    }
  }

  lemma Regrouped(a: seq<Derived>, b: seq<Derived>, c: seq<Derived>)
    ensures a + b + c == a + (b + c)
  {
  }

  lemma WritesOfOne(consolidator: Row -> Option<seq<Derived>>, record: Row)
    ensures Writes(consolidator, [record])
      == if consolidator(record).Some? then Storable(consolidator(record).value) else []
  {
  }

  lemma WritesOfOneMore(consolidator: Row -> Option<seq<Derived>>, fed: seq<Row>, record: Row)
    ensures Writes(consolidator, fed + [record]) == Writes(consolidator, fed) + Writes(consolidator, [record])
  {
    WritesStep(consolidator, fed, record);
    WritesOfOne(consolidator, record);
  }

  /** The creates of a batch are those of its records, one after the other. */
  lemma {:induction false} WritesAppend(consolidator: Row -> Option<seq<Derived>>, fed: seq<Row>, more: seq<Row>)
    ensures Writes(consolidator, fed + more) == Writes(consolidator, fed) + Writes(consolidator, more)
  {
    if more == [] {
      assert fed + more == fed;
    } else {
      var front, last := more[..|more| - 1], more[|more| - 1];
      WritesAppend(consolidator, fed, front);
      WritesOfOneMore(consolidator, front, last);
      WritesOfOneMore(consolidator, fed + front, last);
      assert more == front + [last];
      assert fed + more == fed + front + [last];
      Regrouped(Writes(consolidator, fed), Writes(consolidator, front), Writes(consolidator, [last]));
    }
  }

  /** The create calls made for one output, up to the first that raises. */
  datatype Storing = Storing(writes: seq<Derived>, failed: bool)

  /** `fails(i)` says that the create of the i-th derived record raises. */
  function Store(derived: seq<Derived>, fails: nat -> bool): Storing {
    if derived == [] then Storing([], false)
    else
      var n := |derived| - 1;
      var before := Store(derived[..n], fails);
      if before.failed || derived[n].kind.OtherType? then before
      else if fails(n) then Storing(before.writes, true)
      else Storing(before.writes + [derived[n]], false)
  }

  /** What was stored is the storable output, or exactly the part of it before the first failing create. */
  lemma {:induction false} StoreIsAPrefix(derived: seq<Derived>, fails: nat -> bool)
    ensures var st := Store(derived, fails);
      && st.writes <= Storable(derived)
      && (!st.failed <==> st.writes == Storable(derived))
      && (st.failed <==> exists i :: FailsAt(derived, fails, i))
      && (forall i :: FailsFirstAt(derived, fails, i) ==> st.writes == Storable(derived[..i]))
  {
    if derived != [] {
      var n := |derived| - 1;
      var front := derived[..n];
      StoreIsAPrefix(front, fails);
      forall i
        ensures FailsAt(derived, fails, i) <==> FailsAt(front, fails, i) || (i == n && FailsAt(derived, fails, n)) {
        assert 0 <= i < n ==> front[i] == derived[i];
      }
      if i :| FailsAt(front, fails, i) {
        assert FailsAt(derived, fails, i);
      }
      assert FailsAt(derived, fails, n) <==> !derived[n].kind.OtherType? && fails(n);
      forall i | FailsFirstAt(derived, fails, i) ensures Store(derived, fails).writes == Storable(derived[..i]) {
        if i < n {
          assert front[..i] == derived[..i] && FailsFirstAt(front, fails, i);
        }
      }
    }
  }

  /** The create of record `i`, of a known type, raises. */
  predicate FailsAt(derived: seq<Derived>, fails: nat -> bool, i: int) {
    0 <= i < |derived| && !derived[i].kind.OtherType? && fails(i)
  }

  ghost predicate FailsFirstAt(derived: seq<Derived>, fails: nat -> bool, i: int) {
    FailsAt(derived, fails, i) && forall j :: j < i ==> !FailsAt(derived, fails, j)
  }

  /** `consolidator` gives None when it raises; `writes` are the creates that succeeded. */
  method ProcessRecord(repo: Repository, consolidator: Row -> Option<seq<Derived>>, scope: Scope, record: Row,
                       now: Time,
                       fails: nat -> bool)
    returns (r: Reply<bool>, writes: seq<Derived>)
    requires scope.agent != ""
    modifies repo
    ensures repo.rows == Claim(old(repo.rows), record.id, scope, now).table
    ensures r.Raised? <==> Claim(old(repo.rows), record.id, scope, now).hit && Breaks(consolidator, record, fails)
    ensures r.Returned? ==> r.value == Claim(old(repo.rows), record.id, scope, now).hit
    ensures writes ==
      if Claim(old(repo.rows), record.id, scope, now).hit && consolidator(record).Some?
      then Store(consolidator(record).value, fails).writes else []
  {
    var claimed := repo.ClaimConsolidated(record.id, scope, now);
    if !claimed.value {
      return Returned(false), [];
    }
    var out := consolidator(record);
    if out.None? {
      return Raised(StatementFailed), [];
    }
    var failed;
    writes, failed := StoreDerived(out.value, fails);
    return if failed then Raised(StatementFailed) else Returned(true), writes;
  }

  /** The consolidator or one of the creates raises. */
  predicate Breaks(consolidator: Row -> Option<seq<Derived>>, record: Row, fails: nat -> bool) {
    consolidator(record).None? || Store(consolidator(record).value, fails).failed
  }

  /** The `for dr in derived` loop. */
  method StoreDerived(derived: seq<Derived>, fails: nat -> bool) returns (writes: seq<Derived>, failed: bool)
    ensures Storing(writes, failed) == Store(derived, fails)
  {
    writes := [];
    for i := 0 to |derived|
      invariant Store(derived[..i], fails) == Storing(writes, false)
    {
      assert derived[..i + 1][..i] == derived[..i];
      if !derived[i].kind.OtherType? {
        if fails(i) {
          FailureStays(derived, fails, i + 1);
          return writes, true;
        }
        writes := writes + [derived[i]];
      }
    }
    assert derived[..|derived|] == derived;
    return writes, false;
  }

  lemma {:induction false} FailureStays(derived: seq<Derived>, fails: nat -> bool, n: nat)
    requires n <= |derived| && Store(derived[..n], fails).failed
    ensures Store(derived, fails) == Store(derived[..n], fails)
    decreases |derived|
  {
    if n < |derived| {
      var m := |derived| - 1;
      assert derived[..m][..n] == derived[..n];
      FailureStays(derived[..m], fails, n);
    } else {
      assert derived[..n] == derived;
    }
  }

  /** The `for record in records` loop of `main`.  A consolidator or a create that raises ends the worker at
      record `reached`: that record is claimed, what it derived before is stored, the rest are not looked at. */
  method ProcessBatch(repo: Repository, consolidator: Row -> Option<seq<Derived>>, scope: Scope, records: seq<Row>,
                      clock: nat -> Time, fails: nat -> nat -> bool)
    returns (processed: nat, reached: nat, writes: seq<Derived>)
    requires scope.agent != ""
    modifies repo
    ensures reached <= |records|
    ensures reached == |records| ==>
      var d := Drain(old(repo.rows), records, scope, clock);
      repo.rows == d.table && processed == |d.fed| && writes == Writes(consolidator, d.fed)
    ensures reached < |records| ==>
      var before := Drain(old(repo.rows), records[..reached], scope, clock);
      var d := Drain(old(repo.rows), records[..reached + 1], scope, clock);
      var last := records[reached];
      && repo.rows == d.table && processed == |before.fed| && d.fed == before.fed + [last]
      && Breaks(consolidator, last, fails(reached))
      && writes == Writes(consolidator, before.fed)
           + if consolidator(last).Some? then Store(consolidator(last).value, fails(reached)).writes else []
  {
    processed, reached, writes := 0, 0, [];
    ghost var start := repo.rows;
    while reached < |records|
      invariant reached <= |records|
      invariant Batch(repo.rows, processed, writes) == After(start, consolidator, records[..reached], scope, clock)
    {
      ghost var i := reached;
      NextRecord(start, consolidator, records, i, scope, clock, fails(i));
      var r, w := ProcessRecord(repo, consolidator, scope, records[reached], clock(reached), fails(reached));
      writes := writes + w;
      if r.Raised? {
        return;
      }
      if r.value {
        processed := processed + 1;
      }
      reached := reached + 1;
    }
    assert records[..|records|] == records;
  }

  /** What the loop has done after `records`, none of which broke it. */
  datatype Batch = Batch(table: Table, processed: nat, writes: seq<Derived>)

  function After(t: Table, consolidator: Row -> Option<seq<Derived>>, records: seq<Row>, scope: Scope,
                 clock: nat -> Time): Batch {
    var d := Drain(t, records, scope, clock);
    Batch(d.table, |d.fed|, Writes(consolidator, d.fed))
  }

  lemma NextRecord(t: Table, consolidator: Row -> Option<seq<Derived>>, records: seq<Row>, n: nat, scope: Scope,
                   clock: nat -> Time, fails: nat -> bool)
    requires n < |records|
    ensures var before, d := Drain(t, records[..n], scope, clock), Drain(t, records[..n + 1], scope, clock);
      var o := Claim(before.table, records[n].id, scope, clock(n));
      && d == Drained(o.table, if o.hit then before.fed + [records[n]] else before.fed)
      && (o.hit && !Breaks(consolidator, records[n], fails) ==>
            Writes(consolidator, d.fed)
              == Writes(consolidator, before.fed) + Store(consolidator(records[n]).value, fails).writes)
  {
    DrainStep(t, records, n, scope, clock);
    WritesStep(consolidator, Drain(t, records[..n], scope, clock).fed, records[n]);
    if consolidator(records[n]).Some? {
      StoreIsAPrefix(consolidator(records[n]).value, fails);
    }
  }

  lemma DrainStep(t: Table, records: seq<Row>, n: nat, scope: Scope, clock: nat -> Time)
    requires n < |records|
    ensures var before := Drain(t, records[..n], scope, clock);
      var o := Claim(before.table, records[n].id, scope, clock(n));
      Drain(t, records[..n + 1], scope, clock)
        == Drained(o.table, if o.hit then before.fed + [records[n]] else before.fed)
  {
    assert records[..n + 1][..n] == records[..n];
  }

  lemma WritesStep(consolidator: Row -> Option<seq<Derived>>, fed: seq<Row>, record: Row)
    ensures var out := consolidator(record);
      Writes(consolidator, fed + [record]) == Writes(consolidator, fed) + if out.Some? then Storable(out.value) else []
  {
    assert (fed + [record])[..|fed|] == fed;
  }

  ghost predicate DistinctRecords(records: seq<Row>) {
    forall i, j :: 0 <= i < j < |records| ==> records[i].id != records[j].id
  }

  lemma {:induction false} OtherRowsUntouched(t: Table, records: seq<Row>, scope: Scope, clock: nat -> Time, id: Id)
    requires id in t && forall i :: 0 <= i < |records| ==> records[i].id != id
    ensures id in Drain(t, records, scope, clock).table && Drain(t, records, scope, clock).table[id] == t[id]
  {
    if records != [] {
      OtherRowsUntouched(t, records[..|records| - 1], scope, clock, id);
    }
  }

  /** A batch of distinct rows, all still unclaimed in scope, is fed whole and in order, */
  lemma {:induction false} UnclaimedBatchIsFedWhole(t: Table, records: seq<Row>, scope: Scope, clock: nat -> Time)
    requires DistinctRecords(records)
    requires forall i :: 0 <= i < |records| ==>
      records[i].id in t && Admits(scope, t[records[i].id].scope) && t[records[i].id].consolidatedAt.None?
    ensures Drain(t, records, scope, clock).fed == records
  {
    if records != [] {
      var n := |records| - 1;
      UnclaimedBatchIsFedWhole(t, records[..n], scope, clock);
      OtherRowsUntouched(t, records[..n], scope, clock, records[n].id);
      assert records == records[..n] + [records[n]];
    }
  }

  /** and each row is stamped in its turn and not otherwise changed. */
  lemma {:induction false} UnclaimedBatchIsStamped(t: Table, records: seq<Row>, scope: Scope, clock: nat -> Time,
                                                   i: nat)
    requires DistinctRecords(records) && i < |records|
    requires forall j :: 0 <= j < |records| ==>
      records[j].id in t && Admits(scope, t[records[j].id].scope) && t[records[j].id].consolidatedAt.None?
    ensures var id := records[i].id; var t' := Drain(t, records, scope, clock).table;
      id in t' && t'[id] == t[id].(consolidatedAt := Some(clock(i)))
  {
    var n := |records| - 1;
    if i < n {
      UnclaimedBatchIsStamped(t, records[..n], scope, clock, i);
    } else {
      OtherRowsUntouched(t, records[..n], scope, clock, records[n].id);
    }
  }

  /** Draining stamps every in-scope row of the batch and never takes a stamp or a row away. */
  lemma {:induction false} DrainStamps(t: Table, records: seq<Row>, scope: Scope, clock: nat -> Time)
    ensures var d := Drain(t, records, scope, clock);
      && d.table.Keys == t.Keys
      && (forall id :: id in t ==> d.table[id].scope == t[id].scope)
      && (forall id :: id in t && t[id].consolidatedAt.Some? ==> d.table[id] == t[id])
      && (forall r :: r in records && r.id in t && Admits(scope, t[r.id].scope) ==> d.table[r.id].consolidatedAt.Some?)
  {
    if records != [] {
      DrainStamps(t, records[..|records| - 1], scope, clock);
      assert forall r :: r in records ==> r in records[..|records| - 1] || r == records[|records| - 1];
    }
  }

  /** Whoever drains the same batch second feeds nothing and changes nothing. */
  lemma SecondDrainFeedsNothing(t: Table, records: seq<Row>, again: seq<Row>, scope: Scope, clock: nat -> Time,
                                later: nat -> Time)
    requires forall r :: r in again ==> r in records
    ensures var d := Drain(t, records, scope, clock);
      Drain(d.table, again, scope, later) == Drained(d.table, [])
  {
    DrainStamps(t, records, scope, clock);
    StampedBatchFeedsNothing(Drain(t, records, scope, clock).table, again, scope, later);
  }

  lemma {:induction false} StampedBatchFeedsNothing(t: Table, records: seq<Row>, scope: Scope, clock: nat -> Time)
    requires forall r :: r in records && r.id in t && Admits(scope, t[r.id].scope) ==> t[r.id].consolidatedAt.Some?
    ensures Drain(t, records, scope, clock) == Drained(t, [])
  {
    if records != [] {
      var n := |records| - 1;
      assert forall r :: r in records[..n] ==> r in records;
      StampedBatchFeedsNothing(t, records[..n], scope, clock);
      assert records[n] in records;
    }
  }
}
