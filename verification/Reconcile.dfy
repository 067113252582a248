/** `MemoryStore.reconcile`: list candidates, ask the reconciler, apply its decisions. */
module Reconcile {
  import opened Sequences
  import opened Rows
  import opened Links
  import opened Supersession
  import opened Repositories

  function Attempts(ds: seq<Decision>, clock: nat -> Time, faults: nat -> bool): seq<Attempt> {
    seq(|ds|, i requires 0 <= i < |ds| => Attempt(ds[i], clock(i), faults(i)))
  }

  // ---------------------------------------------------------------- the pass, decision by decision

  /** Decision `i` leads to an UPDATE: it names a listed winner other than its loser, and nothing raises. */
  ghost predicate Sent(listed: seq<Id>, ds: seq<Decision>, faults: nat -> bool, i: int) {
    0 <= i < |ds| && ds[i].winner != ds[i].loser && ds[i].winner in listed && !faults(i)
  }

  /** That UPDATE hits: its loser was live in scope when the pass began, and no earlier one named it. */
  ghost predicate TakesEffect(t: Table, listed: seq<Id>, ds: seq<Decision>, faults: nat -> bool, scope: Scope, i: int) {
    && Sent(listed, ds, faults, i)
    && ds[i].loser in t && !Foreign(scope, t[ds[i].loser])
    && t[ds[i].loser].deletedAt.None? && t[ds[i].loser].supersededAt.None?
    && forall j :: 0 <= j < i && Sent(listed, ds, faults, j) ==> ds[j].loser != ds[i].loser
  }

  /** The row that `d`, sent at `at`, makes of its loser: the reason is cut to 255 characters. */
  predicate SupersededAs(r: Row, r': Row, d: Decision, at: Time) {
    && r' == r.(supersededBy := Some(d.winner), supersededAt := Some(at), supersedeReason := r'.supersedeReason,
                updatedAt := at, version := r.version + 1)
    && r'.supersedeReason <= d.reason && |r'.supersedeReason| == Min(|d.reason|, 255)
  }

  /** Exactly the decisions at `taken` took effect, each on its loser, and they are returned in list order. */
  ghost predicate CarriedOut(t: Table, t': Table, listed: seq<Id>, ds: seq<Decision>, clock: nat -> Time,
                             faults: nat -> bool, scope: Scope, returned: seq<Decision>, taken: seq<int>) {
    && PickedAt(returned, ds, taken) && (forall i :: i in taken <==> TakesEffect(t, listed, ds, faults, scope, i))
    && t'.Keys == t.Keys
    && (forall i :: TakesEffect(t, listed, ds, faults, scope, i) ==>
          SupersededAs(t[ds[i].loser], t'[ds[i].loser], ds[i], clock(i)))
    && (forall id :: id in t && (forall i :: TakesEffect(t, listed, ds, faults, scope, i) ==> ds[i].loser != id) ==>
          t'[id] == t[id])
  }

  lemma PassCarriesOut(t: Table, listed: seq<Id>, ds: seq<Decision>, clock: nat -> Time, faults: nat -> bool,
                       scope: Scope) returns (taken: seq<int>)
    ensures var r := ApplyPass(t, Elements(listed), Attempts(ds, clock, faults), scope);
      CarriedOut(t, r.table, listed, ds, clock, faults, scope, r.applied, taken)
  {
    var attempts, candidates := Attempts(ds, clock, faults), Elements(listed);
    taken := AppliedInOrder(t, candidates, attempts, scope);
    PassEffect(t, candidates, attempts, scope);
    DecidesIfTakesEffect(t, listed, ds, clock, faults, scope);
    forall id | id in t {
      RowIsCarriedOut(t, listed, ds, clock, faults, scope, id);
    }
  }

  lemma DecidesIfTakesEffect(t: Table, listed: seq<Id>, ds: seq<Decision>, clock: nat -> Time, faults: nat -> bool,
                             scope: Scope)
    ensures forall i :: TakesEffect(t, listed, ds, faults, scope, i) <==>
      Decides(t, Elements(listed), Attempts(ds, clock, faults), scope, i)
  {
    var attempts := Attempts(ds, clock, faults);
    assert forall j :: 0 <= j < |ds| ==> (Sent(listed, ds, faults, j) <==> Guarded(Elements(listed), attempts[j]));
  }

  lemma RowIsCarriedOut(t: Table, listed: seq<Id>, ds: seq<Decision>, clock: nat -> Time, faults: nat -> bool,
                        scope: Scope, id: Id)
    requires id in t && id in ApplyPass(t, Elements(listed), Attempts(ds, clock, faults), scope).table
    requires var attempts := Attempts(ds, clock, faults);
      RowEffect(t, Elements(listed), attempts, scope, ApplyPass(t, Elements(listed), attempts, scope).table, id)
    ensures var t' := ApplyPass(t, Elements(listed), Attempts(ds, clock, faults), scope).table;
      && (forall i :: TakesEffect(t, listed, ds, faults, scope, i) && ds[i].loser == id ==>
            SupersededAs(t[id], t'[id], ds[i], clock(i)))
      && ((forall i :: TakesEffect(t, listed, ds, faults, scope, i) ==> ds[i].loser != id) ==> t'[id] == t[id])
  {
    DecidesIfTakesEffect(t, listed, ds, clock, faults, scope);
  }

  /** What a listing hands to the reconciler is live: candidates carry no link. */
  lemma ListedAreLive(t: Table, scope: Scope, now: Time, order: seq<Id>, limit: nat)
    requires IsOrdering(t, Selected(t, scope, false, now), order)
    ensures forall id :: id in Page(order, limit, 0) ==> id in order && id in t && Admits(scope, t[id].scope)
    ensures Elements(Page(order, limit, 0)) <= LiveIds(t)
    ensures Distinct(Page(order, limit, 0))
  {
    forall id | id in Page(order, limit, 0) ensures id in order {
    }
  }

  /** `reconciler` is the caller's callback, None when it raises; `faults(i)` says the i-th UPDATE raises. */
  method ReconcileFacts(facts: Repository, memoryType: string, scope: Scope, limit: nat, now: Time, order: seq<Id>,
                        reconciler: seq<Row> -> Option<seq<Decision>>, clock: nat -> Time, faults: nat -> bool)
    returns (r: Reply<seq<Decision>>, ghost taken: seq<int>)
    requires Consistent(facts.rows)
    requires IsOrdering(facts.rows, Selected(facts.rows, scope, false, now), order)
    modifies facts
    ensures Consistent(facts.rows)
    ensures memoryType !in {"facts", "semantic_facts"} ==> r == Raised(UnknownType) && facts.rows == old(facts.rows)
    ensures memoryType in {"facts", "semantic_facts"} && scope.agent == "" ==>
      r == Raised(MissingAgentId) && facts.rows == old(facts.rows)
    ensures forall id :: id in Page(order, limit, 0) ==> id in old(facts.rows)
    ensures memoryType in {"facts", "semantic_facts"} && scope.agent != "" ==>
      var ids := Page(order, limit, 0);
      var decided := reconciler(RowsAt(old(facts.rows), ids));
      if decided.None? then r == Returned([]) && facts.rows == old(facts.rows)
      else
        var pass := ApplyPass(old(facts.rows), Elements(ids), Attempts(decided.value, clock, faults), scope);
        && facts.rows == pass.table && r == Returned(pass.applied)
        && (Acyclic(LinksOf(old(facts.rows))) ==>
              && (Acyclic(LinksOf(facts.rows)) <==> AcyclicBatch(r.value))
              && (Acyclic(LinksOf(facts.rows)) <==>
                    AcyclicBefore(old(facts.rows), Elements(ids), Attempts(decided.value, clock, faults), scope)))
        && |LiveIds(facts.rows)| == |LiveIds(old(facts.rows))| - |r.value|
        && CarriedOut(old(facts.rows), facts.rows, ids, decided.value, clock, faults, scope, r.value, taken)
  {
    taken := [];
    ListedAreLive(facts.rows, scope, now, order, limit);
    if memoryType !in {"facts", "semantic_facts"} {
      return Raised(UnknownType), [];
    }
    assert Page(order, Min(limit, LIST_CAP), 0) == Page(order, limit, 0);
    var listed := facts.ListAll(scope, Min(limit, LIST_CAP), 0, false, now, order, Page(order, limit, 0));
    if listed.Raised? {
      return Raised(listed.error), [];
    }
    var candidates := listed.value;
    var decided := reconciler(candidates);
    if decided.None? {
      return Returned([]), [];
    }
    var decisions := decided.value;
    var candidateIds := set c | c in candidates :: c.id;
    CandidateIds(facts.rows, Page(order, limit, 0));
    ghost var attempts := Attempts(decisions, clock, faults);
    var applied: seq<Decision> := [];
    for i := 0 to |decisions|
      invariant ApplyPass(old(facts.rows), candidateIds, attempts[..i], scope) == PassResult(facts.rows, applied)
    {
      assert attempts[..i + 1][..i] == attempts[..i];
      var d := decisions[i];
      if d.winner == d.loser {
        continue;
      }
      if d.winner !in candidateIds {
        continue;
      }
      if !faults(i) {
        var ok := facts.Supersede(d.loser, d.winner, d.reason, scope, clock(i));
        if ok.value {
          applied := applied + [d];
        }
      }
    }
    assert attempts[..|decisions|] == attempts;
    LinksAfterPass(old(facts.rows), candidateIds, attempts, scope);
    PassRemovesExactlyTheApplied(old(facts.rows), candidateIds, attempts, scope);
    if Acyclic(LinksOf(old(facts.rows))) {
      PassKeepsForestIffAppliedAcyclic(old(facts.rows), candidateIds, attempts, scope);
      PassKeepsForestIffDecidedAcyclic(old(facts.rows), candidateIds, attempts, scope);
    }
    taken := PassCarriesOut(old(facts.rows), Page(order, limit, 0), decisions, clock, faults, scope);
    return Returned(applied), taken;
  }

  lemma CandidateIds(t: Table, ids: seq<Id>)
    requires Consistent(t) && forall id :: id in ids ==> id in t
    ensures (set c | c in RowsAt(t, ids) :: c.id) == Elements(ids)
  {
    forall id | id in ids ensures id in (set c | c in RowsAt(t, ids) :: c.id) {
      var i :| 0 <= i < |ids| && ids[i] == id;
      assert RowsAt(t, ids)[i] == t[id];
    }
  }
}
