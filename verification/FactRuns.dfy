/** Whole runs of the facts table: creates, forgets, updates, purges and erasures interleaved with the
    steps of any number of reconcile passes, which may overlap one another. */
module FactRuns {
  import opened Sequences
  import opened Rows
  import opened Links
  import opened Supersession
  import opened Reconcile

  /** A pass in progress: what it listed, and the decisions it has yet to send. */
  datatype Pass = Pass(scope: Scope, candidates: set<Id>, todo: seq<Attempt>)

  /** The rest is history of the busy period, the time since no pass was in progress: the links it began
      with, and what its passes listed and decided. */
  datatype State = State(table: Table, passes: map<nat, Pass>, base: Links, candidates: set<Id>, batch: seq<Decision>)

  datatype Event =
    | CreateFact(record: Row, scope: Scope, now: Time, dedup: bool)  // `create_many` inserts without dedup
    | ForgetFact(id: Id, scope: Scope, now: Time)
    | UpdateFact(record: Row, scope: Scope, now: Time)
    | PurgeFacts(scope: Scope)
    | EraseFacts(scope: Scope)
    | BeginPass(pass: nat, scope: Scope, limit: nat, now: Time, order: seq<Id>, attempts: seq<Attempt>)
    | NextDecision(pass: nat)
    | EndPass(pass: nat)

  const EMPTY := State(map[], map[], map[], {}, [])

  ghost function Begun(s: State, pass: nat, scope: Scope, listed: set<Id>, attempts: seq<Attempt>): State {
    var p := Pass(scope, listed, attempts);
    if s.passes == map[] then State(s.table, map[pass := p], LinksOf(s.table), listed, DecisionsOf(attempts))
    else State(s.table, s.passes[pass := p], s.base - listed, s.candidates + listed, s.batch + DecisionsOf(attempts))
  }

  /** One event.  An event that is not enabled leaves the state alone; the order a pass begins with must
      be one the database can answer. */
  ghost function Next(s: State, e: Event, hash: string -> string): State {
    match e
    case CreateFact(record, scope, now, dedup) => s.(table := Create(s.table, record, scope, now, hash, dedup).table)
    case ForgetFact(id, scope, now) => s.(table := Forget(s.table, id, scope, now).table)
    case UpdateFact(record, scope, now) => s.(table := Update(s.table, record, scope, now, hash).table)
    case PurgeFacts(scope) => s.(table := Purge(s.table, scope))
    case EraseFacts(scope) => s.(table := EraseAll(s.table, scope))
    case BeginPass(pass, scope, limit, now, order, attempts) =>
      if pass !in s.passes && IsOrdering(s.table, Selected(s.table, scope, false, now), order) then
        Begun(s, pass, scope, Elements(Page(order, limit, 0)), attempts)
      else s
    case NextDecision(pass) =>
      if pass in s.passes && s.passes[pass].todo != [] then
        var p := s.passes[pass];
        s.(table := ApplyOne(PassResult(s.table, []), p.candidates, p.todo[0], p.scope).table,
           passes := s.passes[pass := p.(todo := p.todo[1..])])
      else s
    case EndPass(pass) =>
      if pass in s.passes && s.passes[pass].todo == [] then s.(passes := s.passes - {pass}) else s
  }

  ghost function Run(s: State, es: seq<Event>, hash: string -> string): State {
    if es == [] then s else Next(Run(s, es[..|es| - 1], hash), es[|es| - 1], hash)
  }

  /** The decisions of each busy period, put together, are acyclic. */
  ghost predicate AcyclicPeriods(es: seq<Event>, hash: string -> string) {
    forall n :: 0 <= n <= |es| ==> AcyclicBatch(Run(EMPTY, es[..n], hash).batch)
  }

  ghost predicate BusyInv(s: State) {
    && Acyclic(s.base)
    && s.candidates !! s.base.Keys
    && Grown(s.base, LinksOf(s.table), s.candidates, s.batch)
    && (forall pass :: pass in s.passes ==>
          s.passes[pass].candidates <= s.candidates && forall a :: a in s.passes[pass].todo ==> a.decision in s.batch)
  }

  ghost predicate Inv(s: State) {
    Consistent(s.table) && Acyclic(LinksOf(s.table)) && (s.passes != map[] ==> BusyInv(s))
  }

  // Only `supersede` writes a link: every other statement leaves a subset of the links.

  lemma CreateAddsNoLink(t: Table, record: Row, scope: Scope, now: Time, hash: string -> string, dedup: bool)
    requires Consistent(t)
    ensures var t' := Create(t, record, scope, now, hash, dedup).table;
      Consistent(t') && SubLinks(LinksOf(t'), LinksOf(t))
  {
  }

  lemma ForgetAddsNoLink(t: Table, id: Id, scope: Scope, now: Time)
    requires Consistent(t)
    ensures var t' := Forget(t, id, scope, now).table; Consistent(t') && SubLinks(LinksOf(t'), LinksOf(t))
  {
  }

  lemma UpdateAddsNoLink(t: Table, record: Row, scope: Scope, now: Time, hash: string -> string)
    requires Consistent(t)
    ensures var t' := Update(t, record, scope, now, hash).table; Consistent(t') && SubLinks(LinksOf(t'), LinksOf(t))
  {
  }

  lemma RemovalAddsNoLink(t: Table, scope: Scope)
    requires Consistent(t)
    ensures Consistent(Purge(t, scope)) && SubLinks(LinksOf(Purge(t, scope)), LinksOf(t))
    ensures Consistent(EraseAll(t, scope)) && SubLinks(LinksOf(EraseAll(t, scope)), LinksOf(t))
  {
  }

  ghost predicate SubLinks(few: Links, many: Links) {
    forall x :: x in few ==> x in many && many[x] == few[x]
  }

  lemma SubLinksAcyclic(few: Links, many: Links)
    requires SubLinks(few, many) && Acyclic(many)
    ensures Acyclic(few)
  {
    forall p | IsPath(few, p) && |p| >= 2 ensures p[0] != p[|p| - 1] {
      assert IsPath(many, p);
    }
  }

  lemma FewerLinksKeepInv(s: State, t: Table)
    requires Inv(s) && Consistent(t) && SubLinks(LinksOf(t), LinksOf(s.table))
    ensures Inv(s.(table := t))
  {
    SubLinksAcyclic(LinksOf(t), LinksOf(s.table));
  }

  lemma LinksAfterDecision(t: Table, p: Pass, a: Attempt)
    requires Consistent(t)
    ensures var t' := ApplyOne(PassResult(t, []), p.candidates, a, p.scope).table; var d := a.decision;
      && Consistent(t')
      && (LinksOf(t') == LinksOf(t)
          || (LinksOf(t') == LinksOf(t)[d.loser := d.winner] && d.winner != d.loser && d.winner in p.candidates))
  {
    var d := a.decision;
    var o := Supersede(t, d.loser, d.winner, d.reason, p.scope, a.now);
    if o.hit {
      assert LinksOf(o.table) == LinksOf(t)[d.loser := d.winner];
    }
  }

  lemma DecisionKeepsInv(s: State, pass: nat, hash: string -> string)
    requires Inv(s) && pass in s.passes && s.passes[pass].todo != [] && AcyclicBatch(s.batch)
    ensures Inv(Next(s, NextDecision(pass), hash))
  {
    var p := s.passes[pass];
    var a := p.todo[0];
    var d := a.decision;
    var s' := Next(s, NextDecision(pass), hash);
    LinksAfterDecision(s.table, p, a);
    if LinksOf(s'.table) != LinksOf(s.table) {
      assert Beats(s.batch, d.winner, d.loser);
      GrownByOne(s.base, LinksOf(s.table), s.candidates, s.batch, d.winner, d.loser);
    }
    GrownForestIsAcyclic(s.base, LinksOf(s'.table), s.candidates, s.batch);
  }

  /** A pass that joins others lists rows without a link: what the period began with under their ids is gone. */
  lemma JoinKeepsBusyInv(s: State, pass: nat, scope: Scope, listed: set<Id>, attempts: seq<Attempt>)
    requires BusyInv(s) && s.passes != map[] && pass !in s.passes && listed !! LinksOf(s.table).Keys
    ensures BusyInv(Begun(s, pass, scope, listed, attempts))
  {
    var s' := Begun(s, pass, scope, listed, attempts);
    SubLinksAcyclic(s'.base, s.base);
    var links := LinksOf(s.table);
    forall x | x in links
      ensures (x in s'.base && s'.base[x] == links[x]) || (links[x] in s'.candidates && Beats(s'.batch, links[x], x)) {
      if !(x in s.base && s.base[x] == links[x]) {
        assert Beats(s.batch, links[x], x);
        var d :| d in s.batch && d.winner == links[x] && d.loser == x;
        assert d in s'.batch;
      }
    }
    TodoIsDecided(attempts);
    forall a | a in attempts ensures a.decision in s'.batch {
    }
  }

  lemma TodoIsDecided(attempts: seq<Attempt>)
    ensures forall a :: a in attempts ==> a.decision in DecisionsOf(attempts)
  {
    forall a | a in attempts ensures a.decision in DecisionsOf(attempts) {
      var i :| 0 <= i < |attempts| && attempts[i] == a;
      assert DecisionsOf(attempts)[i] == a.decision;
    }
  }

  lemma BeginKeepsInv(s: State, e: Event, hash: string -> string)
    requires Inv(s) && e.BeginPass?
    ensures Inv(Next(s, e, hash))
  {
    if e.pass !in s.passes && IsOrdering(s.table, Selected(s.table, e.scope, false, e.now), e.order) {
      ListedAreLive(s.table, e.scope, e.now, e.order, e.limit);
      var listed := Elements(Page(e.order, e.limit, 0));
      assert listed !! LinksOf(s.table).Keys;
      TodoIsDecided(e.attempts);
      if s.passes != map[] {
        JoinKeepsBusyInv(s, e.pass, e.scope, listed, e.attempts);
      }
    }
  }

  lemma NextKeepsInv(s: State, e: Event, hash: string -> string)
    requires Inv(s) && AcyclicBatch(s.batch)
    ensures Inv(Next(s, e, hash))
  {
    match e
    case CreateFact(record, scope, now, dedup) =>
      CreateAddsNoLink(s.table, record, scope, now, hash, dedup);
      FewerLinksKeepInv(s, Create(s.table, record, scope, now, hash, dedup).table);
    case ForgetFact(id, scope, now) =>
      ForgetAddsNoLink(s.table, id, scope, now);
      FewerLinksKeepInv(s, Forget(s.table, id, scope, now).table);
    case UpdateFact(record, scope, now) =>
      UpdateAddsNoLink(s.table, record, scope, now, hash);
      FewerLinksKeepInv(s, Update(s.table, record, scope, now, hash).table);
    case PurgeFacts(scope) =>
      RemovalAddsNoLink(s.table, scope);
      FewerLinksKeepInv(s, Purge(s.table, scope));
    case EraseFacts(scope) =>
      RemovalAddsNoLink(s.table, scope);
      FewerLinksKeepInv(s, EraseAll(s.table, scope));
    case BeginPass(_, _, _, _, _, _) => BeginKeepsInv(s, e, hash);
    case NextDecision(pass) =>
      if pass in s.passes && s.passes[pass].todo != [] {
        DecisionKeepsInv(s, pass, hash);
      }
    case EndPass(_) =>
  }

  lemma {:induction false} RunKeepsInv(es: seq<Event>, hash: string -> string)
    requires AcyclicPeriods(es, hash)
    ensures Inv(Run(EMPTY, es, hash))
  {
    if es != [] {
      var n := |es| - 1;
      PeriodsOfPrefix(es, n, hash);
      RunKeepsInv(es[..n], hash);
      NextKeepsInv(Run(EMPTY, es[..n], hash), es[n], hash);
    } else {
      var none: Links := map[];
      assert LinksOf(EMPTY.table) == none;
      AcyclicIffEveryChainEnds(none);
    }
  }

  lemma PeriodsOfPrefix(es: seq<Event>, n: nat, hash: string -> string)
    requires AcyclicPeriods(es, hash) && n <= |es|
    ensures AcyclicPeriods(es[..n], hash) && AcyclicBatch(Run(EMPTY, es[..n], hash).batch)
  {
    forall m | 0 <= m <= n ensures AcyclicBatch(Run(EMPTY, es[..n][..m], hash).batch) {
      assert es[..n][..m] == es[..m];
    }
  }

  /** Over every run in which the decision lists of overlapping passes are acyclic put together, the
      supersession links form a forest at every moment: no closed path, and from every row the chain ends.
      `Links.ApartBatchesAcyclic` gives the premise for passes whose lists name no row in common. */
  lemma LinksAreAlwaysAForest(es: seq<Event>, hash: string -> string, x: Id)
    requires AcyclicPeriods(es, hash)
    ensures var links := LinksOf(Run(EMPTY, es, hash).table);
      Acyclic(links) && EndsWithin(links, x, |links|)
  {
    RunKeepsInv(es, hash);
    ChainsEndIfAcyclic(LinksOf(Run(EMPTY, es, hash).table), x);
  }

  // ---------------------------------------------------------------- one pass

  function Sends(pass: nat, n: nat): (es: seq<Event>)
    ensures |es| == n
  {
    if n == 0 then [] else Sends(pass, n - 1) + [NextDecision(pass)]
  }

  /** `s` is `start` after the first `n` decisions of a pass that nothing disturbed. */
  ghost predicate SentFrom(start: State, s: State, pass: nat, n: nat)
    requires pass in start.passes && n <= |start.passes[pass].todo|
  {
    var p := start.passes[pass];
    && s.table == ApplyPass(start.table, p.candidates, p.todo[..n], p.scope).table
    && s.passes == start.passes[pass := p.(todo := p.todo[n..])]
  }

  lemma OneMoreSent(start: State, s: State, pass: nat, n: nat, hash: string -> string)
    requires pass in start.passes && n < |start.passes[pass].todo| && SentFrom(start, s, pass, n)
    ensures SentFrom(start, Next(s, NextDecision(pass), hash), pass, n + 1)
  {
    var p := start.passes[pass];
    assert p.todo[n..][0] == p.todo[n] && p.todo[n..][1..] == p.todo[n + 1..];
    assert p.todo[..n + 1] == p.todo[..n] + [p.todo[n]];
    PassStep(start.table, p.candidates, p.todo[..n], p.todo[n], p.scope);
  }

  lemma LastSend(s: State, before: seq<Event>, pass: nat, n: nat, hash: string -> string)
    ensures Run(s, before + Sends(pass, n + 1), hash)
      == Next(Run(s, before + Sends(pass, n), hash), NextDecision(pass), hash)
  {
    var es := before + Sends(pass, n + 1);
    assert es[..|es| - 1] == before + Sends(pass, n) && es[|es| - 1] == NextDecision(pass);
  }

  lemma {:induction false} SentDecisions(s: State, before: seq<Event>, pass: nat, n: nat, hash: string -> string)
    requires pass in Run(s, before, hash).passes && n <= |Run(s, before, hash).passes[pass].todo|
    ensures SentFrom(Run(s, before, hash), Run(s, before + Sends(pass, n), hash), pass, n)
  {
    if n == 0 {
      assert before + Sends(pass, 0) == before;
    } else {
      SentDecisions(s, before, pass, n - 1, hash);
      LastSend(s, before, pass, n - 1, hash);
      OneMoreSent(Run(s, before, hash), Run(s, before + Sends(pass, n - 1), hash), pass, n - 1, hash);
    }
  }

  lemma PassBegins(s: State, begin: Event, hash: string -> string)
    requires begin.BeginPass? && begin.pass !in s.passes
    requires IsOrdering(s.table, Selected(s.table, begin.scope, false, begin.now), begin.order)
    ensures var listed := Elements(Page(begin.order, begin.limit, 0));
      && Run(s, [begin], hash).table == s.table
      && Run(s, [begin], hash).passes == s.passes[begin.pass := Pass(begin.scope, listed, begin.attempts)]
  {
    assert [begin][..0] == [];
  }

  lemma PassEnds(s: State, pass: nat, others: map<nat, Pass>, hash: string -> string)
    requires pass !in others && pass in s.passes && s.passes[pass].todo == []
    requires s.passes == others[pass := s.passes[pass]]
    ensures Next(s, EndPass(pass), hash) == s.(passes := others)
  {
    assert s.passes - {pass} == others;
  }

  lemma AllSent(start: State, s: State, pass: nat, others: map<nat, Pass>, hash: string -> string)
    requires pass !in others && pass in start.passes && start.passes == others[pass := start.passes[pass]]
    requires SentFrom(start, s, pass, |start.passes[pass].todo|)
    ensures var p := start.passes[pass]; s.table == ApplyPass(start.table, p.candidates, p.todo, p.scope).table
    ensures Next(s, EndPass(pass), hash) == s.(passes := others)
  {
    var todo := start.passes[pass].todo;
    assert todo[..|todo|] == todo;
    PassEnds(s, pass, others, hash);
  }

  /** A pass that nothing disturbs is the pass `reconcile` specifies. */
  lemma UndisturbedPassIsApplyPass(s: State, begin: Event, hash: string -> string)
    requires begin.BeginPass? && begin.pass !in s.passes
    requires IsOrdering(s.table, Selected(s.table, begin.scope, false, begin.now), begin.order)
    ensures var sent := Run(s, [begin] + Sends(begin.pass, |begin.attempts|), hash);
      && sent.table
           == ApplyPass(s.table, Elements(Page(begin.order, begin.limit, 0)), begin.attempts, begin.scope).table
      && Next(sent, EndPass(begin.pass), hash) == sent.(passes := s.passes)
  {
    PassBegins(s, begin, hash);
    SentDecisions(s, [begin], begin.pass, |begin.attempts|, hash);
    AllSent(Run(s, [begin], hash), Run(s, [begin] + Sends(begin.pass, |begin.attempts|), hash), begin.pass, s.passes,
            hash);
  }

  lemma PassEndsAfterItsLastDecision(s: State, pass: nat, hash: string -> string)
    requires pass in s.passes
    ensures pass !in Next(s, EndPass(pass), hash).passes <==> s.passes[pass].todo == []
  {
  }

  /** Every pass begins when none is in progress. */
  ghost predicate Sequential(es: seq<Event>, hash: string -> string) {
    forall n :: 0 <= n < |es| && es[n].BeginPass? ==> Run(EMPTY, es[..n], hash).passes == map[]
  }

  ghost predicate AcyclicBatches(es: seq<Event>) {
    forall e :: e in es && e.BeginPass? ==> AcyclicBatch(DecisionsOf(e.attempts))
  }

  /** For passes one after the other it is enough that each list is acyclic. */
  lemma {:induction false} SequentialPassesNeedOwnBatchesOnly(es: seq<Event>, hash: string -> string)
    requires Sequential(es, hash) && AcyclicBatches(es)
    ensures AcyclicPeriods(es, hash)
  {
    if es != [] {
      var n := |es| - 1;
      SequentialPrefix(es, n, hash);
      SequentialPassesNeedOwnBatchesOnly(es[..n], hash);
      assert es[n] in es && es[..n][..n] == es[..n];
      SequentialStep(Run(EMPTY, es[..n], hash), es[n], hash);
      forall m | 0 <= m <= |es| ensures AcyclicBatch(Run(EMPTY, es[..m], hash).batch) {
        if m < |es| { assert es[..m] == es[..n][..m]; } else { assert es[..m] == es; }
      }
    } else {
      RankedBatchAcyclic([], map[]);
    }
  }

  lemma SequentialPrefix(es: seq<Event>, n: nat, hash: string -> string)
    requires Sequential(es, hash) && AcyclicBatches(es) && n <= |es|
    ensures Sequential(es[..n], hash) && AcyclicBatches(es[..n])
  {
    forall m | 0 <= m < n && es[..n][m].BeginPass? ensures Run(EMPTY, es[..n][..m], hash).passes == map[] {
      assert es[..n][..m] == es[..m];
    }
  }

  lemma SequentialStep(s: State, e: Event, hash: string -> string)
    requires AcyclicBatch(s.batch)
    requires e.BeginPass? ==> s.passes == map[] && AcyclicBatch(DecisionsOf(e.attempts))
    ensures AcyclicBatch(Next(s, e, hash).batch)
  {
  }

  // ---------------------------------------------------------------- links are written once

  predicate HardDeletes(e: Event) {
    e.PurgeFacts? || e.EraseFacts?
  }

  /** Whatever the decisions: one event never changes the link of a row that has one and survives. */
  lemma LinkNeverRewritten(s: State, e: Event, hash: string -> string, x: Id)
    requires Consistent(s.table) && x in LinksOf(s.table)
    ensures Consistent(Next(s, e, hash).table)
    ensures x in Next(s, e, hash).table ==>
      x in LinksOf(Next(s, e, hash).table) && LinksOf(Next(s, e, hash).table)[x] == LinksOf(s.table)[x]
    ensures !HardDeletes(e) ==> x in Next(s, e, hash).table
  {
    EventKeepsConsistent(s, e, hash);
  }

  lemma EventKeepsConsistent(s: State, e: Event, hash: string -> string)
    requires Consistent(s.table)
    ensures Consistent(Next(s, e, hash).table)
  {
  }

  lemma {:induction false} RunKeepsConsistent(s: State, es: seq<Event>, hash: string -> string)
    requires Consistent(s.table)
    ensures Consistent(Run(s, es, hash).table)
  {
    if es != [] {
      RunKeepsConsistent(s, es[..|es| - 1], hash);
      var t := Run(s, es[..|es| - 1], hash);
      var e := es[|es| - 1];
      if e.CreateFact? || e.UpdateFact? {
        EveryStatementKeepsTheTableConsistent(t.table, e.record, "", "", "", e.scope, e.now, hash, true);
      }
    }
  }

  /** Without a hard delete a link, once written, is there with the same winner for the rest of the run. */
  lemma {:induction false} LinksAreWrittenOnce(s: State, es: seq<Event>, hash: string -> string, x: Id)
    requires Consistent(s.table) && x in LinksOf(s.table)
    requires forall e :: e in es ==> !HardDeletes(e)
    ensures var links := LinksOf(Run(s, es, hash).table);
      x in links && links[x] == LinksOf(s.table)[x]
  {
    if es != [] {
      var n := |es| - 1;
      assert forall e :: e in es[..n] ==> e in es;
      LinksAreWrittenOnce(s, es[..n], hash, x);
      RunKeepsConsistent(s, es[..n], hash);
      assert es[n] in es;
      LinkNeverRewritten(Run(s, es[..n], hash), es[n], hash, x);
    }
  }

  ghost predicate WinnersPresent(s: State) {
    && (forall x :: x in LinksOf(s.table) ==> LinksOf(s.table)[x] in s.table)
    && (forall pass, c :: pass in s.passes && c in s.passes[pass].candidates ==> c in s.table)
  }

  /** Without a hard delete no link dangles. */
  lemma {:induction false} WinnersStayPresent(es: seq<Event>, hash: string -> string)
    requires forall e :: e in es ==> !HardDeletes(e)
    ensures Consistent(Run(EMPTY, es, hash).table) && WinnersPresent(Run(EMPTY, es, hash))
  {
    if es != [] {
      var n := |es| - 1;
      assert forall e :: e in es[..n] ==> e in es;
      WinnersStayPresent(es[..n], hash);
      RunKeepsConsistent(EMPTY, es, hash);
      assert es[n] in es;
      var s := Run(EMPTY, es[..n], hash);
      if es[n].BeginPass? && IsOrdering(s.table, Selected(s.table, es[n].scope, false, es[n].now), es[n].order) {
        ListedAreLive(s.table, es[n].scope, es[n].now, es[n].order, es[n].limit);
      }
      OneEventKeepsWinners(s, es[n], hash);
    }
  }

  lemma OneEventKeepsWinners(s: State, e: Event, hash: string -> string)
    requires Consistent(s.table) && WinnersPresent(s) && !HardDeletes(e)
    requires e.BeginPass? && IsOrdering(s.table, Selected(s.table, e.scope, false, e.now), e.order) ==>
      Elements(Page(e.order, e.limit, 0)) <= LiveIds(s.table)
    ensures WinnersPresent(Next(s, e, hash))
  {
    match e
    case CreateFact(record, scope, now, dedup) => CreateAddsNoLink(s.table, record, scope, now, hash, dedup);
    case ForgetFact(id, scope, now) => ForgetAddsNoLink(s.table, id, scope, now);
    case UpdateFact(record, scope, now) => UpdateAddsNoLink(s.table, record, scope, now, hash);
    case PurgeFacts(_) =>
    case EraseFacts(_) =>
    case BeginPass(_, _, _, _, _, _) =>
    case NextDecision(pass) => DecisionKeepsWinners(s, pass, hash);
    case EndPass(_) =>
  }

  lemma DecisionKeepsWinners(s: State, pass: nat, hash: string -> string)
    requires Consistent(s.table) && WinnersPresent(s)
    ensures WinnersPresent(Next(s, NextDecision(pass), hash))
  {
    if pass in s.passes && s.passes[pass].todo != [] {
      var p := s.passes[pass];
      var before := PassResult(s.table, []);
      var after := ApplyOne(before, p.candidates, p.todo[0], p.scope);
      assert after.table.Keys == s.table.Keys;
      assert forall x :: x in LinksOf(after.table) ==>
        || (x in LinksOf(s.table) && LinksOf(after.table)[x] == LinksOf(s.table)[x])
        || LinksOf(after.table)[x] in p.candidates;
    }
  }

  lemma {:induction false} ChainEndStays(t: Table, x: Id, n: nat)
    requires Consistent(t) && x in t && EndsWithin(LinksOf(t), x, n)
    requires forall y :: y in LinksOf(t) ==> LinksOf(t)[y] in t
    ensures ChainEnd(LinksOf(t), x, n) in t && t[ChainEnd(LinksOf(t), x, n)].supersededAt.None?
    decreases n
  {
    if x in LinksOf(t) {
      ChainEndStays(t, LinksOf(t)[x], n - 1);
    }
  }

  /** Over every such run without hard deletes, the chain of every row ends at a row that is in the
      table and not superseded. */
  lemma EveryChainEndsAtAnUnsupersededRow(es: seq<Event>, hash: string -> string, x: Id)
    requires AcyclicPeriods(es, hash) && (forall e :: e in es ==> !HardDeletes(e))
    requires x in Run(EMPTY, es, hash).table
    ensures var t := Run(EMPTY, es, hash).table;
      && EndsWithin(LinksOf(t), x, |LinksOf(t)|)
      && ChainEnd(LinksOf(t), x, |LinksOf(t)|) in t
      && t[ChainEnd(LinksOf(t), x, |LinksOf(t)|)].supersededAt.None?
  {
    LinksAreAlwaysAForest(es, hash, x);
    WinnersStayPresent(es, hash);
    ChainEndStays(Run(EMPTY, es, hash).table, x, |LinksOf(Run(EMPTY, es, hash).table)|);
  }
}
