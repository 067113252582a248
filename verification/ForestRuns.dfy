/** Exactly which runs of the facts table keep the supersession links a forest, however passes overlap. */
module ForestRuns {
  import opened Rows
  import opened Links
  import opened Supersession
  import opened FactRuns

  /** The next UPDATE of a pass hits a loser at which its winner's chain ends. */
  predicate ClosesCycle(s: State, e: Event) {
    && e.NextDecision? && e.pass in s.passes && s.passes[e.pass].todo != []
    && var p, a := s.passes[e.pass], s.passes[e.pass].todo[0];
       && Guarded(p.candidates, a)
       && Supersede(s.table, a.decision.loser, a.decision.winner, a.decision.reason, p.scope, a.now).hit
       && EndsAt(LinksOf(s.table), a.decision.winner, a.decision.loser)
  }

  lemma StepKeepsForestIff(s: State, e: Event, hash: string -> string)
    requires Consistent(s.table) && Acyclic(LinksOf(s.table))
    ensures Acyclic(LinksOf(Next(s, e, hash).table)) <==> !ClosesCycle(s, e)
  {
    if e.NextDecision? {
      if e.pass in s.passes && s.passes[e.pass].todo != [] {
        var p, a := s.passes[e.pass], s.passes[e.pass].todo[0];
        if Supersede(s.table, a.decision.loser, a.decision.winner, a.decision.reason, p.scope, a.now).hit {
          SupersedeKeepsForestIff(s.table, a.decision.loser, a.decision.winner, a.decision.reason, p.scope, a.now);
        }
      }
    } else {
      OtherEventsKeepForest(s, e, hash);
    }
  }

  lemma OtherEventsKeepForest(s: State, e: Event, hash: string -> string)
    requires Consistent(s.table) && Acyclic(LinksOf(s.table)) && !e.NextDecision?
    ensures Acyclic(LinksOf(Next(s, e, hash).table))
  {
    match e {
      case CreateFact(record, scope, now, dedup) => CreateAddsNoLink(s.table, record, scope, now, hash, dedup);
      case ForgetFact(id, scope, now) => ForgetAddsNoLink(s.table, id, scope, now);
      case UpdateFact(record, scope, now) => UpdateAddsNoLink(s.table, record, scope, now, hash);
      case PurgeFacts(scope) => RemovalAddsNoLink(s.table, scope);
      case EraseFacts(scope) => RemovalAddsNoLink(s.table, scope);
      case BeginPass(_, _, _, _, _, _) =>
      case EndPass(_) =>
    }
    SubLinksAcyclic(LinksOf(Next(s, e, hash).table), LinksOf(s.table));
  }

  ghost predicate ForestAt(es: seq<Event>, hash: string -> string, n: nat)
    requires n <= |es|
  {
    Acyclic(LinksOf(Run(EMPTY, es[..n], hash).table))
  }

  ghost predicate ClosesAt(es: seq<Event>, hash: string -> string, n: nat)
    requires n < |es|
  {
    ClosesCycle(Run(EMPTY, es[..n], hash), es[n])
  }

  lemma StepAt(es: seq<Event>, hash: string -> string, n: nat)
    requires n < |es| && ForestAt(es, hash, n)
    ensures ForestAt(es, hash, n + 1) <==> !ClosesAt(es, hash, n)
  {
    RunKeepsConsistent(EMPTY, es[..n], hash);
    assert es[..n + 1][..n] == es[..n];
    StepKeepsForestIff(Run(EMPTY, es[..n], hash), es[n], hash);
  }

  lemma ForestAtFirst(es: seq<Event>, hash: string -> string)
    ensures ForestAt(es, hash, 0)
  {
    var none: Links := map[];
    assert LinksOf(EMPTY.table) == none && es[..0] == [];
    AcyclicIffEveryChainEnds(none);
  }

  /** A chain of steps each of which stays good exactly unless it is bad. */
  lemma {:induction false} GoodUnlessBad(good: nat -> bool, bad: nat -> bool, n: nat)
    requires good(0) && forall m: nat :: m < n && good(m) ==> (good(m + 1) <==> !bad(m))
    ensures (forall m: nat :: m <= n ==> good(m)) <==> (forall m: nat :: m < n ==> !bad(m))
  {
    if n > 0 {
      GoodUnlessBad(good, bad, n - 1);
      assert good(n - 1) ==> (good(n - 1 + 1) <==> !bad(n - 1));
    }
  }

  ghost predicate ForestThroughout(es: seq<Event>, hash: string -> string) {
    forall m: nat :: m <= |es| ==> ForestAt(es, hash, m)
  }

  ghost predicate NeverCloses(es: seq<Event>, hash: string -> string) {
    forall m: nat :: m < |es| ==> !ClosesAt(es, hash, m)
  }

  /** For every run, whatever the decision lists and however the passes overlap: the links are a forest at
      every moment exactly if no UPDATE hits a loser at which its winner's chain ends. */
  lemma ForestIffNoUpdateClosesACycle(es: seq<Event>, hash: string -> string)
    ensures ForestThroughout(es, hash) <==> NeverCloses(es, hash)
  {
    var good := (m: nat) => m <= |es| && ForestAt(es, hash, m);
    var bad := (m: nat) => m < |es| && ClosesAt(es, hash, m);
    ForestAtFirst(es, hash);
    forall m: nat | m < |es| && good(m) ensures good(m + 1) <==> !bad(m) {
      StepAt(es, hash, m);
    }
    GoodUnlessBad(good, bad, |es|);
    assert forall m: nat :: m <= |es| ==> (good(m) <==> ForestAt(es, hash, m));
    assert forall m: nat :: m < |es| ==> (bad(m) <==> ClosesAt(es, hash, m));
  }

  /** Decision lists that are acyclic put together never close a cycle. */
  lemma AcyclicPeriodsNeverClose(es: seq<Event>, hash: string -> string)
    requires AcyclicPeriods(es, hash)
    ensures NeverCloses(es, hash)
  {
    forall m: nat | m <= |es| ensures ForestAt(es, hash, m) {
      PeriodsOfPrefix(es, m, hash);
      RunKeepsInv(es[..m], hash);
    }
    ForestIffNoUpdateClosesACycle(es, hash);
  }
}
