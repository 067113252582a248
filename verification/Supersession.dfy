/** One reconcile pass: `MemoryStore.reconcile` over the guarded
    `SemanticFactRepository.supersede`. */
module Supersession {
  import opened Sequences
  import opened Rows
  import opened Links

  function LinksOf(t: Table): Links {
    map id | id in t && t[id].supersededBy.Some? :: t[id].supersededBy.value
  }

  function LiveIds(t: Table): set<Id> {
    set id | id in t && Live(t[id])
  }

  /** One decision as the loop meets it: the time of its UPDATE, and whether the UPDATE raises. */
  datatype Attempt = Attempt(decision: Decision, now: Time, faulted: bool)

  datatype PassResult = PassResult(table: Table, applied: seq<Decision>)

  /** Guards (a) and (b) of `reconcile`, and an UPDATE that does not raise. */
  predicate Guarded(candidates: set<Id>, a: Attempt) {
    a.decision.winner != a.decision.loser && a.decision.winner in candidates && !a.faulted
  }

  function ApplyOne(before: PassResult, candidates: set<Id>, a: Attempt, scope: Scope): PassResult {
    if !Guarded(candidates, a) then before
    else
      var o := Supersede(before.table, a.decision.loser, a.decision.winner, a.decision.reason, scope, a.now);
      if o.hit then PassResult(o.table, before.applied + [a.decision]) else before
  }

  function ApplyPass(t: Table, candidates: set<Id>, attempts: seq<Attempt>, scope: Scope): PassResult {
    if attempts == [] then PassResult(t, [])
    else
      var n := |attempts| - 1;
      ApplyOne(ApplyPass(t, candidates, attempts[..n], scope), candidates, attempts[n], scope)
  }

  // ---------------------------------------------------------------- what a pass does to the table

  /** The loser was live in scope before the pass, and attempt `k` is the first guarded one naming it. */
  ghost predicate Decides(t: Table, candidates: set<Id>, attempts: seq<Attempt>, scope: Scope, k: int) {
    && 0 <= k < |attempts|
    && Guarded(candidates, attempts[k])
    && attempts[k].decision.loser in t
    && Admits(scope, t[attempts[k].decision.loser].scope)
    && Live(t[attempts[k].decision.loser])
    && forall j :: 0 <= j < k && Guarded(candidates, attempts[j]) ==>
          attempts[j].decision.loser != attempts[k].decision.loser
  }

  lemma PassStep(t: Table, candidates: set<Id>, attempts: seq<Attempt>, a: Attempt, scope: Scope)
    ensures ApplyPass(t, candidates, attempts + [a], scope)
         == ApplyOne(ApplyPass(t, candidates, attempts, scope), candidates, a, scope)
  {
    assert (attempts + [a])[..|attempts|] == attempts;
  }

  /** The row a pass leaves at `id`: the first deciding attempt's supersession of it, or the row itself. */
  ghost predicate RowEffect(t: Table, candidates: set<Id>, attempts: seq<Attempt>, scope: Scope, t': Table, id: Id)
    requires id in t && id in t'
  {
    && (forall k :: Decides(t, candidates, attempts, scope, k) && attempts[k].decision.loser == id ==>
          var a := attempts[k];
          t'[id] == Supersede(t, id, a.decision.winner, a.decision.reason, scope, a.now).table[id])
    && ((forall k :: Decides(t, candidates, attempts, scope, k) ==> attempts[k].decision.loser != id) ==>
          t'[id] == t[id])
  }

  /** The whole effect of a pass on the rows, read off the table before it: each row some attempt
      decides is superseded by that attempt, every other row is untouched. */
  lemma {:induction false} PassEffect(t: Table, candidates: set<Id>, attempts: seq<Attempt>, scope: Scope)
    ensures var r := ApplyPass(t, candidates, attempts, scope);
      && r.table.Keys == t.Keys
      && (forall id :: id in t ==> RowEffect(t, candidates, attempts, scope, r.table, id))
  {
    if attempts != [] {
      PassEffect(t, candidates, attempts[..|attempts| - 1], scope);
      forall id | id in t
        ensures RowEffect(t, candidates, attempts, scope, ApplyPass(t, candidates, attempts, scope).table, id) {
        RowEffectStep(t, candidates, attempts, scope, id);
      }
    }
  }

  /** `applied` lists exactly the decisions of the deciding attempts. */
  lemma {:induction false} AppliedAreTheDeciding(t: Table, candidates: set<Id>, attempts: seq<Attempt>, scope: Scope,
                                                 d: Decision)
    ensures d in ApplyPass(t, candidates, attempts, scope).applied <==>
      exists k :: Decides(t, candidates, attempts, scope, k) && attempts[k].decision == d
  {
    if attempts != [] {
      var n := |attempts| - 1;
      var front := attempts[..n];
      AppliedAreTheDeciding(t, candidates, front, scope, d);
      DecidedInFront(t, candidates, attempts, scope);
      PassEffect(t, candidates, front, scope);
      LastAttempt(t, candidates, attempts, scope);
      assert forall k :: Decides(t, candidates, front, scope, k) ==> front[k] == attempts[k];
    }
  }

  /** They are listed in the order of their attempts, each attempt once. */
  lemma {:induction false} AppliedInOrder(t: Table, candidates: set<Id>, attempts: seq<Attempt>, scope: Scope)
    returns (taken: seq<int>)
    ensures Ascending(taken) && forall k :: k in taken <==> Decides(t, candidates, attempts, scope, k)
    ensures var applied := ApplyPass(t, candidates, attempts, scope).applied;
      && |applied| == |taken|
      && forall i :: 0 <= i < |taken| ==> 0 <= taken[i] < |attempts| && applied[i] == attempts[taken[i]].decision
  {
    taken := [];
    if attempts != [] {
      var n := |attempts| - 1;
      taken := AppliedInOrder(t, candidates, attempts[..n], scope);
      DecidedInFront(t, candidates, attempts, scope);
      LastIsAppliedIfItDecides(t, candidates, attempts, scope);
      assert forall i :: 0 <= i < |taken| ==> taken[i] in taken && taken[i] < n;
      if Decides(t, candidates, attempts, scope, n) {
        taken := taken + [n];
      }
    }
  }

  lemma LastIsAppliedIfItDecides(t: Table, candidates: set<Id>, attempts: seq<Attempt>, scope: Scope)
    requires attempts != []
    ensures var n := |attempts| - 1;
      ApplyPass(t, candidates, attempts, scope).applied == ApplyPass(t, candidates, attempts[..n], scope).applied
        + if Decides(t, candidates, attempts, scope, n) then [attempts[n].decision] else []
  {
    PassEffect(t, candidates, attempts[..|attempts| - 1], scope);
    LastAttempt(t, candidates, attempts, scope);
  }

  lemma RowEffectStep(t: Table, candidates: set<Id>, attempts: seq<Attempt>, scope: Scope, id: Id)
    requires attempts != [] && id in t
    requires var front := attempts[..|attempts| - 1];
      var before := ApplyPass(t, candidates, front, scope).table;
      && before.Keys == t.Keys
      && RowEffect(t, candidates, front, scope, before, id)
    ensures id in ApplyPass(t, candidates, attempts, scope).table
    ensures RowEffect(t, candidates, attempts, scope, ApplyPass(t, candidates, attempts, scope).table, id)
  {
    var n := |attempts| - 1;
    var front := attempts[..n];
    DecidedInFront(t, candidates, attempts, scope);
    if attempts[n].decision.loser == id {
      LastAttempt(t, candidates, attempts, scope);
      if Decides(t, candidates, attempts, scope, n) {
        assert forall j :: 0 <= j < n ==> attempts[j] == front[j];
        UndecidedInFront(t, candidates, front, scope, id);
      }
    }
  }

  lemma DecidedInFront(t: Table, candidates: set<Id>, attempts: seq<Attempt>, scope: Scope)
    requires attempts != []
    ensures forall k :: Decides(t, candidates, attempts[..|attempts| - 1], scope, k) <==>
      k != |attempts| - 1 && Decides(t, candidates, attempts, scope, k)
  {
    var n := |attempts| - 1;
    var front := attempts[..n];
    forall k ensures Decides(t, candidates, front, scope, k) <==> k != n && Decides(t, candidates, attempts, scope, k) {
      assert 0 <= k < n ==> front[k] == attempts[k] && forall j :: 0 <= j < k ==> front[j] == attempts[j];
    }
  }

  /** No guarded attempt of `front` names `id`: nothing decides it. */
  lemma UndecidedInFront(t: Table, candidates: set<Id>, front: seq<Attempt>, scope: Scope, id: Id)
    requires id in t && id in ApplyPass(t, candidates, front, scope).table
    requires RowEffect(t, candidates, front, scope, ApplyPass(t, candidates, front, scope).table, id)
    requires forall j :: 0 <= j < |front| && Guarded(candidates, front[j]) ==> front[j].decision.loser != id
    ensures ApplyPass(t, candidates, front, scope).table[id] == t[id]
  {
  }

  /** The last attempt hits exactly when it decides its loser. */
  lemma LastAttempt(t: Table, candidates: set<Id>, attempts: seq<Attempt>, scope: Scope)
    requires attempts != []
    requires var r := ApplyPass(t, candidates, attempts[..|attempts| - 1], scope);
      && r.table.Keys == t.Keys
      && (attempts[|attempts| - 1].decision.loser in t ==>
            RowEffect(t, candidates, attempts[..|attempts| - 1], scope, r.table,
                      attempts[|attempts| - 1].decision.loser))
    ensures var n := |attempts| - 1; var a := attempts[n];
      var before := ApplyPass(t, candidates, attempts[..n], scope).table;
      Decides(t, candidates, attempts, scope, n) <==>
        Guarded(candidates, a)
        && Supersede(before, a.decision.loser, a.decision.winner, a.decision.reason, scope, a.now).hit
  {
    var n := |attempts| - 1;
    var front := attempts[..n];
    var id := attempts[n].decision.loser;
    var before := ApplyPass(t, candidates, front, scope).table;
    if Guarded(candidates, attempts[n]) && id in t {
      assert RowEffect(t, candidates, front, scope, before, id);
      if !(Admits(scope, t[id].scope) && Live(t[id])) {
        KeepsScopeAndNeverRevives(t, candidates, front, scope, id);
      } else if j :| 0 <= j < n && Guarded(candidates, front[j]) && front[j].decision.loser == id {
        var m := FirstNaming(candidates, front, id, j);
        assert Decides(t, candidates, front, scope, m);
        assert attempts[j] == front[j];
      } else {
        UndecidedInFront(t, candidates, front, scope, id);
        assert forall j :: 0 <= j < n ==> attempts[j] == front[j];
      }
    }
  }

  lemma {:induction false} FirstNaming(candidates: set<Id>, attempts: seq<Attempt>, id: Id, j: nat) returns (m: nat)
    requires j < |attempts| && Guarded(candidates, attempts[j]) && attempts[j].decision.loser == id
    ensures m <= j && Guarded(candidates, attempts[m]) && attempts[m].decision.loser == id
    ensures forall i :: 0 <= i < m && Guarded(candidates, attempts[i]) ==> attempts[i].decision.loser != id
    decreases j
  {
    if i :| 0 <= i < j && Guarded(candidates, attempts[i]) && attempts[i].decision.loser == id {
      m := FirstNaming(candidates, attempts, id, i);
    } else {
      m := j;
    }
  }

  /** Links are written once: a pass never rewrites, revives or re-scopes a row that was already dead. */
  lemma {:induction false} KeepsScopeAndNeverRevives(t: Table, candidates: set<Id>, attempts: seq<Attempt>,
                                                     scope: Scope, id: Id)
    requires id in t
    ensures var t' := ApplyPass(t, candidates, attempts, scope).table;
      && id in t' && t'[id].scope == t[id].scope
      && (!Live(t[id]) ==> t'[id] == t[id])
      && (t[id].supersededBy.Some? && Consistent(t) ==> t'[id].supersededBy == t[id].supersededBy)
      && t'[id].deletedAt == t[id].deletedAt
  {
    if attempts != [] {
      KeepsScopeAndNeverRevives(t, candidates, attempts[..|attempts| - 1], scope, id);
    }
  }

  // ---------------------------------------------------------------- counting

  ghost function Losers(ds: seq<Decision>): set<Id> {
    set d | d in ds :: d.loser
  }

  /** The live set shrinks by exactly the applied decisions, and they name distinct losers. */
  lemma {:induction false} PassRemovesExactlyTheApplied(t: Table, candidates: set<Id>, attempts: seq<Attempt>,
                                                        scope: Scope)
    ensures var r := ApplyPass(t, candidates, attempts, scope);
      && |LiveIds(r.table)| == |LiveIds(t)| - |r.applied|
      && LiveIds(r.table) == LiveIds(t) - Losers(r.applied)
  {
    if attempts != [] {
      var n := |attempts| - 1;
      PassRemovesExactlyTheApplied(t, candidates, attempts[..n], scope);
      StepRemovesTheApplied(ApplyPass(t, candidates, attempts[..n], scope), candidates, attempts[n], scope);
    }
  }

  lemma StepRemovesTheApplied(before: PassResult, candidates: set<Id>, a: Attempt, scope: Scope)
    ensures var after := ApplyOne(before, candidates, a, scope);
      after == before
        || (&& after.applied == before.applied + [a.decision]
            && a.decision.loser in LiveIds(before.table)
            && LiveIds(after.table) == LiveIds(before.table) - {a.decision.loser}
            && Losers(after.applied) == Losers(before.applied) + {a.decision.loser})
  {
    LosersOfMore(before.applied, a.decision);
  }

  lemma LosersOfMore(ds: seq<Decision>, d: Decision)
    ensures Losers(ds + [d]) == Losers(ds) + {d.loser}
  {
    assert forall e :: e in ds + [d] <==> e in ds || e == d;
  }

  // ---------------------------------------------------------------- the forest

  ghost predicate LinksExtendedBy(before: Links, after: Links, candidates: set<Id>, applied: seq<Decision>) {
    && (forall x :: x in before ==> x in after && after[x] == before[x])
    && (forall d :: d in applied ==>
          && d.winner != d.loser && d.winner in candidates
          && d.loser !in before && d.loser in after && after[d.loser] == d.winner)
    && (forall x :: x in after && x !in before ==> Beats(applied, after[x], x))
  }

  lemma ExtendByOne(start: Links, before: Links, candidates: set<Id>, applied: seq<Decision>, d: Decision)
    requires LinksExtendedBy(start, before, candidates, applied)
    requires d.loser !in before && d.winner in candidates && d.winner != d.loser
    ensures LinksExtendedBy(start, before[d.loser := d.winner], candidates, applied + [d])
  {
    var after := before[d.loser := d.winner];
    forall x | x in after && x !in start ensures Beats(applied + [d], after[x], x) {
      if x == d.loser {
        assert d in applied + [d];
      } else {
        assert Beats(applied, after[x], x);
        var e :| e in applied && e.winner == after[x] && e.loser == x;
        assert e in applied + [d];
      }
    }
  }

  /** The links after a pass are the links before it and one new one for each applied decision, whose loser
      had none. */
  lemma {:induction false} LinksAfterPass(t: Table, candidates: set<Id>, attempts: seq<Attempt>, scope: Scope)
    requires Consistent(t)
    ensures var r := ApplyPass(t, candidates, attempts, scope);
      && Consistent(r.table)
      && LinksExtendedBy(LinksOf(t), LinksOf(r.table), candidates, r.applied)
  {
    if attempts != [] {
      var n := |attempts| - 1;
      LinksAfterPass(t, candidates, attempts[..n], scope);
      var before := ApplyPass(t, candidates, attempts[..n], scope);
      var a := attempts[n];
      var d := a.decision;
      var o := Supersede(before.table, d.loser, d.winner, d.reason, scope, a.now);
      if Guarded(candidates, a) && o.hit {
        assert LinksOf(o.table) == LinksOf(before.table)[d.loser := d.winner];
        ExtendByOne(LinksOf(t), LinksOf(before.table), candidates, before.applied, d);
      }
    }
  }

  lemma {:induction false} AppliedWereDecided(t: Table, candidates: set<Id>, attempts: seq<Attempt>, scope: Scope)
    ensures forall d :: d in ApplyPass(t, candidates, attempts, scope).applied ==> d in DecisionsOf(attempts)
  {
    if attempts != [] {
      var n := |attempts| - 1;
      AppliedWereDecided(t, candidates, attempts[..n], scope);
      assert DecisionsOf(attempts) == DecisionsOf(attempts[..n]) + [attempts[n].decision];
    }
  }

  lemma PassGrowsLinks(t: Table, candidates: set<Id>, attempts: seq<Attempt>, scope: Scope)
    requires Consistent(t)
    ensures var r := ApplyPass(t, candidates, attempts, scope);
      Grown(LinksOf(t), LinksOf(r.table), candidates, r.applied)
  {
    var r := ApplyPass(t, candidates, attempts, scope);
    LinksAfterPass(t, candidates, attempts, scope);
    forall x | x in LinksOf(r.table) && x !in LinksOf(t) ensures LinksOf(r.table)[x] in candidates {
      assert Beats(r.applied, LinksOf(r.table)[x], x);
    }
  }

  /** `winner` beats `loser` by an attempt that decides, which the table before the pass tells. */
  ghost predicate Decided(t: Table, candidates: set<Id>, attempts: seq<Attempt>, scope: Scope, winner: Id, loser: Id) {
    exists k :: Decides(t, candidates, attempts, scope, k) && attempts[k].decision.winner == winner
      && attempts[k].decision.loser == loser
  }

  ghost predicate IsDecidedPath(t: Table, candidates: set<Id>, attempts: seq<Attempt>, scope: Scope, p: seq<Id>) {
    |p| >= 1 && forall i :: 0 <= i < |p| - 1 ==> Decided(t, candidates, attempts, scope, p[i + 1], p[i])
  }

  ghost predicate AcyclicBefore(t: Table, candidates: set<Id>, attempts: seq<Attempt>, scope: Scope) {
    forall p :: IsDecidedPath(t, candidates, attempts, scope, p) && |p| >= 2 ==> p[0] != p[|p| - 1]
  }

  /** The guard a caller can check before the UPDATE: one that hits keeps the forest exactly if the winner's
      chain does not end at the loser. */
  lemma SupersedeKeepsForestIff(t: Table, loser: Id, winner: Id, reason: string, scope: Scope, now: Time)
    requires Consistent(t) && Acyclic(LinksOf(t)) && Supersede(t, loser, winner, reason, scope, now).hit
    ensures Acyclic(LinksOf(Supersede(t, loser, winner, reason, scope, now).table)) <==>
      !EndsAt(LinksOf(t), winner, loser)
  {
    assert LinksOf(Supersede(t, loser, winner, reason, scope, now).table) == LinksOf(t)[loser := winner];
    LinkKeepsForestIff(LinksOf(t), loser, winner);
  }

  lemma BeatsIffDecided(t: Table, candidates: set<Id>, attempts: seq<Attempt>, scope: Scope, winner: Id, loser: Id)
    ensures Beats(ApplyPass(t, candidates, attempts, scope).applied, winner, loser)
      <==> Decided(t, candidates, attempts, scope, winner, loser)
  {
    var applied := ApplyPass(t, candidates, attempts, scope).applied;
    if Beats(applied, winner, loser) {
      var d :| d in applied && d.winner == winner && d.loser == loser;
      AppliedAreTheDeciding(t, candidates, attempts, scope, d);
    }
    if Decided(t, candidates, attempts, scope, winner, loser) {
      var k :| Decides(t, candidates, attempts, scope, k) && attempts[k].decision.winner == winner
        && attempts[k].decision.loser == loser;
      AppliedAreTheDeciding(t, candidates, attempts, scope, attempts[k].decision);
    }
  }

  /** Exactly when a pass over live candidates keeps the forest, as the table before the pass tells: no
      cycle among the decisions that are the first to name a live in-scope loser. */
  lemma PassKeepsForestIffDecidedAcyclic(t: Table, candidates: set<Id>, attempts: seq<Attempt>, scope: Scope)
    requires Consistent(t) && Acyclic(LinksOf(t)) && candidates <= LiveIds(t)
    ensures Acyclic(LinksOf(ApplyPass(t, candidates, attempts, scope).table))
      <==> AcyclicBefore(t, candidates, attempts, scope)
  {
    var applied := ApplyPass(t, candidates, attempts, scope).applied;
    PassKeepsForestIffAppliedAcyclic(t, candidates, attempts, scope);
    forall p ensures IsBeatPath(applied, p) <==> IsDecidedPath(t, candidates, attempts, scope, p) {
      forall i | 0 <= i < |p| - 1
        ensures Beats(applied, p[i + 1], p[i]) <==> Decided(t, candidates, attempts, scope, p[i + 1], p[i]) {
        BeatsIffDecided(t, candidates, attempts, scope, p[i + 1], p[i]);
      }
    }
  }

  /** The same, by the decisions the pass reports. */
  lemma PassKeepsForestIffAppliedAcyclic(t: Table, candidates: set<Id>, attempts: seq<Attempt>, scope: Scope)
    requires Consistent(t) && Acyclic(LinksOf(t)) && candidates <= LiveIds(t)
    ensures var r := ApplyPass(t, candidates, attempts, scope);
      Acyclic(LinksOf(r.table)) <==> AcyclicBatch(r.applied)
  {
    var r := ApplyPass(t, candidates, attempts, scope);
    PassGrowsLinks(t, candidates, attempts, scope);
    LinksAfterPass(t, candidates, attempts, scope);
    if AcyclicBatch(r.applied) {
      GrownForestIsAcyclic(LinksOf(t), LinksOf(r.table), candidates, r.applied);
    } else {
      var p :| IsBeatPath(r.applied, p) && |p| >= 2 && p[0] == p[|p| - 1];
      forall i | 0 <= i < |p| - 1 ensures p[i] in LinksOf(r.table) && LinksOf(r.table)[p[i]] == p[i + 1] {
        assert Beats(r.applied, p[i + 1], p[i]);
      }
      assert IsPath(LinksOf(r.table), p);
    }
  }

  function DecisionsOf(attempts: seq<Attempt>): (ds: seq<Decision>)
    ensures |ds| == |attempts| && forall i :: 0 <= i < |ds| ==> ds[i] == attempts[i].decision
  {
    seq(|attempts|, i requires 0 <= i < |attempts| => attempts[i].decision)
  }

  /** An acyclic decision list keeps the forest whatever faults and stale losers it meets, and
      some candidate is still live afterwards: a pass never empties a live set it was shown. */
  lemma AcyclicPassKeepsForestAndASurvivor(t: Table, candidates: set<Id>, attempts: seq<Attempt>, scope: Scope)
    requires Consistent(t) && Acyclic(LinksOf(t)) && candidates <= LiveIds(t)
    requires AcyclicBatch(DecisionsOf(attempts))
    ensures var r := ApplyPass(t, candidates, attempts, scope);
      && Acyclic(LinksOf(r.table))
      && (candidates != {} ==> candidates * LiveIds(r.table) != {})
  {
    var r := ApplyPass(t, candidates, attempts, scope);
    LinksAfterPass(t, candidates, attempts, scope);
    AppliedWereDecided(t, candidates, attempts, scope);
    SubBatchAcyclic(DecisionsOf(attempts), r.applied);
    PassKeepsForestIffAppliedAcyclic(t, candidates, attempts, scope);
    if c :| c in candidates {
      ChainsEndIfAcyclic(LinksOf(r.table), c);
      var e := ChainEndsAtCandidate(t, candidates, attempts, scope, c, |LinksOf(r.table)|);
      KeepsScopeAndNeverRevives(t, candidates, attempts, scope, e);
      assert e in candidates * LiveIds(r.table);
    }
  }

  lemma {:induction false} ChainEndsAtCandidate(t: Table, candidates: set<Id>, attempts: seq<Attempt>, scope: Scope,
                                                c: Id, n: nat) returns (e: Id)
    requires Consistent(t) && candidates <= LiveIds(t) && c in candidates
    requires EndsWithin(LinksOf(ApplyPass(t, candidates, attempts, scope).table), c, n)
    ensures e in candidates && e !in LinksOf(ApplyPass(t, candidates, attempts, scope).table)
    decreases n
  {
    var links := LinksOf(ApplyPass(t, candidates, attempts, scope).table);
    if c in links {
      PassGrowsLinks(t, candidates, attempts, scope);
      e := ChainEndsAtCandidate(t, candidates, attempts, scope, links[c], n - 1);
    } else {
      e := c;
    }
  }

  // ---------------------------------------------------------------- the premise is needed

  lemma OneDecision(t: Table, candidates: set<Id>, winner: Id, loser: Id, scope: Scope, now: Time)
    requires winner != loser && winner in candidates
    requires loser in t && Live(t[loser]) && Admits(scope, t[loser].scope)
    ensures var a := Attempt(Decision(winner, loser, ""), now, false);
      var r := ApplyPass(t, candidates, [a], scope);
      && r.applied == [a.decision]
      && LinksOf(r.table) == LinksOf(t)[loser := winner]
      && loser in r.table && !Live(r.table[loser])
      && (forall id :: id in t && id != loser ==> id in r.table && r.table[id] == t[id])
  {
    var a := Attempt(Decision(winner, loser, ""), now, false);
    PassStep(t, candidates, [], a, scope);
    assert [] + [a] == [a];
  }

  lemma MutualLinksAreACycle(links: Links, a: Id, b: Id)
    requires a in links && b in links && links[a] == b && links[b] == a
    ensures !Acyclic(links)
  {
    assert IsPath(links, [a, b, a]);
  }

  /** "a beats b" then "b beats a": both guards pass, both facts disappear, and each is the other's winner. */
  lemma TwoWayContradictionRemovesBoth(t: Table, a: Id, b: Id, scope: Scope, now: Time)
    requires a != b && a in t && b in t && Live(t[a]) && Live(t[b])
    requires Admits(scope, t[a].scope) && Admits(scope, t[b].scope)
    ensures var attempts := [Attempt(Decision(a, b, ""), now, false), Attempt(Decision(b, a, ""), now, false)];
      var r := ApplyPass(t, {a, b}, attempts, scope);
      && r.applied == DecisionsOf(attempts)
      && LiveIds(r.table) == LiveIds(t) - {a, b}
      && !Acyclic(LinksOf(r.table))
  {
    var first := Attempt(Decision(a, b, ""), now, false);
    var second := Attempt(Decision(b, a, ""), now, false);
    var r := ApplyPass(t, {a, b}, [first, second], scope);
    TwoDecisions(t, a, b, scope, now);
    assert DecisionsOf([first, second]) == [first.decision, second.decision];
    MutualLinksAreACycle(LinksOf(r.table), a, b);
    PassRemovesExactlyTheApplied(t, {a, b}, [first, second], scope);
    TwoLosers(first.decision, second.decision);
  }

  lemma TwoLosers(first: Decision, second: Decision)
    ensures Losers([first, second]) == {first.loser, second.loser}
  {
    assert [first, second][0] == first && [first, second][1] == second;
  }

  lemma TwoDecisions(t: Table, a: Id, b: Id, scope: Scope, now: Time)
    requires a != b && a in t && b in t && Live(t[a]) && Live(t[b])
    requires Admits(scope, t[a].scope) && Admits(scope, t[b].scope)
    ensures var attempts := [Attempt(Decision(a, b, ""), now, false), Attempt(Decision(b, a, ""), now, false)];
      var r := ApplyPass(t, {a, b}, attempts, scope);
      && r.applied == [Decision(a, b, ""), Decision(b, a, "")]
      && LinksOf(r.table) == LinksOf(t)[b := a][a := b]
  {
    var first := Attempt(Decision(a, b, ""), now, false);
    var second := Attempt(Decision(b, a, ""), now, false);
    OneDecision(t, {a, b}, a, b, scope, now);
    var mid := ApplyPass(t, {a, b}, [first], scope).table;
    OneDecision(mid, {a, b}, b, a, scope, now);
    assert ApplyPass(mid, {a, b}, [second], scope).table
        == ApplyOne(PassResult(mid, []), {a, b}, second, scope).table by {
      PassStep(mid, {a, b}, [], second, scope);
      assert [] + [second] == [second];
    }
    PassStep(t, {a, b}, [first], second, scope);
    assert [first] + [second] == [first, second];
  }

  /** Two passes that both listed before either wrote close a cycle although each list is acyclic:
      the candidate guard looks at the listing, not at the table. */
  lemma OverlappingPassesCanCloseACycle(t: Table, a: Id, b: Id, scope: Scope, now: Time)
    requires a != b && a in t && b in t && Live(t[a]) && Live(t[b])
    requires Admits(scope, t[a].scope) && Admits(scope, t[b].scope)
    ensures var one := [Attempt(Decision(a, b, ""), now, false)];
      var two := [Attempt(Decision(b, a, ""), now, false)];
      && AcyclicBatch(DecisionsOf(one)) && AcyclicBatch(DecisionsOf(two))
      && !Acyclic(LinksOf(ApplyPass(ApplyPass(t, {a, b}, one, scope).table, {a, b}, two, scope).table))
  {
    var one := [Attempt(Decision(a, b, ""), now, false)];
    var two := [Attempt(Decision(b, a, ""), now, false)];
    RankedBatchAcyclic(DecisionsOf(one), map[a := 0, b := 1]);
    RankedBatchAcyclic(DecisionsOf(two), map[b := 0, a := 1]);
    OneDecision(t, {a, b}, a, b, scope, now);
    var mid := ApplyPass(t, {a, b}, one, scope).table;
    OneDecision(mid, {a, b}, b, a, scope, now);
    MutualLinksAreACycle(LinksOf(ApplyPass(mid, {a, b}, two, scope).table), a, b);
  }
}
