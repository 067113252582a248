/** What every interleaving of the consolidation workers guarantees, and where it stops. */
module ClaimRuns {
  import opened Sequences
  import opened Rows
  import opened Claims

  // ---------------------------------------------------------------- at most once

  /** No stored row is handed to a consolidator twice, and what a consolidator is shown is a copy of the
      row claimed for it or of an earlier row of the same id. */
  lemma FedAtMostOncePerRow(es: seq<Event>, hash: string -> string)
    ensures var s := Run(EMPTY, es, hash);
      && Distinct(s.fed) && |s.shown| == |s.fed|
      && forall i :: 0 <= i < |s.fed| ==> EarlierCopy(s.shown[i], s.fed[i]) && Born(s, s.fed[i])
  {
    EmptyIsInv();
    RunKeepsInv(EMPTY, es, hash);
    var s := Run(EMPTY, es, hash);
    assert forall i :: 0 <= i < |s.fed| ==> s.fed[i] in s.fed;
  }

  lemma EmptyIsInv()
    ensures Inv(EMPTY)
  {
  }

  /** How often `id` was inserted under, and fed. */
  function Inserts(es: seq<Event>, id: Id): nat {
    if es == [] then 0
    else
      var e := es[|es| - 1];
      Inserts(es[..|es| - 1], id) + if e.InsertRow? && e.record.id == id then 1 else 0
  }

  function Feedings(fed: seq<Key>, id: Id): nat {
    |Births(fed, id)|
  }

  function Births(fed: seq<Key>, id: Id): seq<nat> {
    if fed == [] then []
    else
      var k := fed[|fed| - 1];
      Births(fed[..|fed| - 1], id) + if k.id == id then [k.birth] else []
  }

  lemma {:induction false} BirthsAreListed(fed: seq<Key>, id: Id)
    ensures forall b :: b in Births(fed, id) <==> Key(id, b) in fed
    ensures Distinct(fed) ==> Distinct(Births(fed, id))
  {
    if fed != [] {
      var n := |fed| - 1;
      BirthsAreListed(fed[..n], id);
      assert fed == fed[..n] + [fed[n]];
    }
  }

  function UpTo(n: nat): (s: set<nat>)
    ensures |s| == n && forall b: nat :: b in s <==> 1 <= b <= n
  {
    if n == 0 then {} else UpTo(n - 1) + {n}
  }

  lemma {:induction false} BirthsAreInserts(es: seq<Event>, hash: string -> string, id: Id)
    ensures Count(Run(EMPTY, es, hash).births, id) <= Inserts(es, id)
  {
    if es != [] {
      BirthsAreInserts(es[..|es| - 1], hash, id);
    }
  }

  /** An id is fed at most as often as it was inserted.  So a caller who inserts no id twice knows that
      none is fed twice. */
  lemma FedAtMostOncePerInsert(es: seq<Event>, hash: string -> string, id: Id)
    ensures Feedings(Run(EMPTY, es, hash).fed, id) <= Inserts(es, id)
  {
    var s := Run(EMPTY, es, hash);
    FedAtMostOncePerRow(es, hash);
    BirthsAreInserts(es, hash, id);
    BirthsAreListed(s.fed, id);
    forall b | b in Births(s.fed, id) ensures b in UpTo(Count(s.births, id)) {
      var i :| 0 <= i < |s.fed| && s.fed[i] == Key(id, b);
    }
    DistinctFits(Births(s.fed, id), UpTo(Count(s.births, id)));
  }

  /** Without a second insert the consolidator is shown exactly the rows claimed for it. */
  lemma ShownIsFedUnlessReinserted(es: seq<Event>, hash: string -> string, i: nat)
    requires i < |Run(EMPTY, es, hash).fed| && Inserts(es, Run(EMPTY, es, hash).fed[i].id) <= 1
    ensures var s := Run(EMPTY, es, hash); i < |s.shown| && s.shown[i] == s.fed[i]
  {
    FedAtMostOncePerRow(es, hash);
    BirthsAreInserts(es, hash, Run(EMPTY, es, hash).fed[i].id);
  }

  /** `consolidated_at` goes from null to set once and keeps its first value. */
  lemma StampIsWrittenOnce(s: State, e: Event, hash: string -> string, id: Id)
    requires id in s.table && id in Next(s, e, hash).table && s.table[id].consolidatedAt.Some?
    ensures Next(s, e, hash).table[id].consolidatedAt == s.table[id].consolidatedAt
  {
  }

  // ---------------------------------------------------------------- exactly once

  predicate AtRest(s: State) {
    forall w :: w in s.workers ==> s.workers[w].Finished?
  }

  predicate AllEnded(s: State) {
    forall w :: w in s.workers ==> s.workers[w].Finished? || s.workers[w].Stopped?
  }

  ghost predicate Stranded(s: State, k: Key) {
    exists w :: w in s.workers && s.workers[w].Stopped? && s.workers[w].held == Some(k)
  }

  /** When every worker has finished and none stopped midway, each row any worker ever fetched was fed
      exactly once, or was removed before anyone claimed it. */
  lemma EveryFetchedRowFedExactlyOnce(es: seq<Event>, hash: string -> string, k: Key)
    requires AtRest(Run(EMPTY, es, hash)) && k in Run(EMPTY, es, hash).fetched
    ensures var s := Run(EMPTY, es, hash);
      && (k in s.fed || (k !in s.claimed && !Stored(s, k)))
      && (k in s.fed ==> multiset(s.fed)[k] == 1)
      && (k in s.fed <==> k in s.claimed)
  {
    EmptyIsInv();
    RunKeepsInv(EMPTY, es, hash);
    var s := Run(EMPTY, es, hash);
    assert forall w :: !HeldBy(s, w, k) && !QueuedBy(s, w, k);
    if k in s.fed { DistinctOccursOnce(s.fed, k); }
  }

  /** When every worker has finished or stopped: fed exactly if claimed and not stranded. */
  lemma FedIffClaimedAndNotStranded(es: seq<Event>, hash: string -> string, k: Key)
    requires AllEnded(Run(EMPTY, es, hash))
    ensures var s := Run(EMPTY, es, hash);
      k in s.fed <==> k in s.claimed && !Stranded(s, k)
  {
    EmptyIsInv();
    RunKeepsInv(EMPTY, es, hash);
    var s := Run(EMPTY, es, hash);
    if Stranded(s, k) {
      var w :| w in s.workers && s.workers[w].Stopped? && s.workers[w].held == Some(k);
      assert HeldBy(s, w, k);
    } else {
      assert forall w :: !HeldBy(s, w, k);
    }
  }

  /** A worker that stops between its claim and its consolidator strands the row: whatever happens
      afterwards, no worker feeds it. */
  lemma {:induction false} StrandedRowIsNeverFed(s: State, es: seq<Event>, hash: string -> string, k: Key)
    requires Inv(s) && Stranded(s, k)
    ensures Stranded(Run(s, es, hash), k) && k !in Run(s, es, hash).fed
  {
    RunKeepsInv(s, es, hash);
    if es != [] {
      StrandedRowIsNeverFed(s, es[..|es| - 1], hash, k);
      StrandedStays(Run(s, es[..|es| - 1], hash), es[|es| - 1], hash, k);
    }
    var t := Run(s, es, hash);
    var w :| w in t.workers && t.workers[w].Stopped? && t.workers[w].held == Some(k);
    assert HeldBy(t, w, k);
  }

  lemma StrandedStays(s: State, e: Event, hash: string -> string, k: Key)
    requires Stranded(s, k)
    ensures Stranded(Next(s, e, hash), k)
  {
    var w :| w in s.workers && s.workers[w].Stopped? && s.workers[w].held == Some(k);
    assert w in Next(s, e, hash).workers && Next(s, e, hash).workers[w] == s.workers[w];
  }

  /** And a worker that has a row can stop there at any moment: the row is claimed, and lost to the workers. */
  lemma StoppingWithARowStrandsIt(s: State, w: Worker, es: seq<Event>, hash: string -> string)
    requires Inv(s) && w in s.workers && s.workers[w].Holding?
    ensures s.workers[w].claimed in s.claimed
    ensures s.workers[w].claimed !in Run(Next(s, Stop(w), hash), es, hash).fed
  {
    var k := s.workers[w].claimed;
    assert HeldBy(s, w, k);
    NextKeepsInv(s, Stop(w), hash);
    assert Stranded(Next(s, Stop(w), hash), k) by {
      assert Next(s, Stop(w), hash).workers[w] == Stopped(s.workers[w].scope, Some(k), s.workers[w].todo);
    }
    StrandedRowIsNeverFed(Next(s, Stop(w), hash), es, hash, k);
  }

  // ---------------------------------------------------------------- runs one after the other

  lemma {:induction false} RunIsFold(s: State, es: seq<Event>, hash: string -> string, step: (State, Event) -> State)
    requires forall t: State, e: Event :: step(t, e) == Next(t, e, hash)
    ensures Run(s, es, hash) == Fold(step, s, es)
  {
    if es != [] {
      RunIsFold(s, es[..|es| - 1], hash, step);
    }
  }

  lemma RunAppend(s: State, es: seq<Event>, more: seq<Event>, hash: string -> string)
    ensures Run(s, es + more, hash) == Run(Run(s, es, hash), more, hash)
  {
    var step := (t: State, e: Event) => Next(t, e, hash);
    RunIsFold(s, es + more, hash, step);
    RunIsFold(s, es, hash, step);
    RunIsFold(Run(s, es, hash), more, hash, step);
    FoldAppend(step, s, es, more);
  }

  lemma OneStep(s: State, e: Event, hash: string -> string)
    ensures Run(s, [e], hash) == Next(s, e, hash)
  {
    assert [e][..0] == [];
  }

  lemma TwoSteps(s: State, e: Event, f: Event, hash: string -> string)
    ensures Run(s, [e, f], hash) == Next(Next(s, e, hash), f, hash)
  {
    assert [e, f] == [e] + [f];
    RunAppend(s, [e], [f], hash);
    OneStep(s, e, hash);
    OneStep(Next(s, e, hash), f, hash);
  }

  // ---------------------------------------------------------------- progress

  /** A running worker, left to itself, works its list down; then it may fetch again or finish. */
  lemma {:induction false} WorkerWorksItsListDown(s: State, w: Worker, hash: string -> string) returns (es: seq<Event>)
    requires w in s.workers && (s.workers[w].Working? || s.workers[w].Holding?)
    ensures var s' := Run(s, es, hash);
      && w in s'.workers && s'.workers[w] == Working(s.workers[w].scope, [])
      && Ready(s', w) && Next(s', Finish(w), hash).workers == s'.workers[w := Finished]
    decreases |s.workers[w].todo|, s.workers[w].Holding?
  {
    es := [];
    if s.workers[w].Holding? || s.workers[w].todo != [] {
      var e := if s.workers[w].Holding? then Consolidate(w) else TryClaim(w, 0);
      var rest := WorkerWorksItsListDown(Next(s, e, hash), w, hash);
      OneStep(s, e, hash);
      RunAppend(s, [e], rest, hash);
      es := [e] + rest;
    }
  }

  // ---------------------------------------------------------------- inline consolidation

  /** `remember` consolidates live rows only and leaves them pending, so any live row that is pending can be
      consolidated by it and then by a worker. */
  lemma PendingRowCanBeConsolidatedTwice(past: seq<Event>, hash: string -> string, id: Id) returns (es: seq<Event>)
    requires var s := Run(EMPTY, past, hash); id in s.table && Live(s.table[id]) && s.table[id].consolidatedAt.None?
    ensures var s := Run(EMPTY, past, hash);
      && Current(s, id) in Run(s, es, hash).inline && Current(s, id) in Run(s, es, hash).fed
      && Next(s, ConsolidateInline(id), hash).table == s.table
    ensures var s := Run(EMPTY, past, hash);
      forall other :: other !in s.table || !Live(s.table[other]) ==> Next(s, ConsolidateInline(other), hash) == s
  {
    var s := Run(EMPTY, past, hash);
    OneStep(s, ConsolidateInline(id), hash);
    RunAppend(EMPTY, past, [ConsolidateInline(id)], hash);
    var feed := InlineRowCanBeFedToo(past + [ConsolidateInline(id)], hash, id);
    RunAppend(s, [ConsolidateInline(id)], feed, hash);
    es := [ConsolidateInline(id)] + feed;
  }

  /** `remember` does not stamp the rows it consolidates itself: in every reachable state, such a row that is
      still stored, live and unclaimed is pending, and some continuation feeds it to a worker's consolidator. */
  lemma InlineRowCanBeFedToo(past: seq<Event>, hash: string -> string, id: Id) returns (es: seq<Event>)
    requires var s := Run(EMPTY, past, hash);
      Current(s, id) in s.inline && id in s.table && s.table[id].deletedAt.None? && s.table[id].consolidatedAt.None?
    ensures var s := Run(EMPTY, past, hash);
      Current(s, id) in Run(s, es, hash).inline && Current(s, id) in Run(s, es, hash).fed
  {
    var s := Run(EMPTY, past, hash);
    var w := FreshNumber(s.workers.Keys);
    var scope := s.table[id].scope;
    es := [Fetch(w, scope, [id])] + [TryClaim(w, 0), Consolidate(w)];
    FetchAndFeed(s, id, scope, w, hash);
    InlineStays(s, es, hash);
  }

  lemma {:induction false} InlineStays(s: State, es: seq<Event>, hash: string -> string)
    ensures s.inline <= Run(s, es, hash).inline
  {
    if es != [] {
      InlineStays(s, es[..|es| - 1], hash);
      OneEventKeepsInline(Run(s, es[..|es| - 1], hash), es[|es| - 1], hash);
    }
  }

  lemma OneEventKeepsInline(s: State, e: Event, hash: string -> string)
    ensures s.inline <= Next(s, e, hash).inline
  {
  }

  /** Exactly which rows were consolidated more than once: those `remember` consolidated twice, or once and
      a worker was fed too. */
  lemma ConsolidatedOnceUnlessInline(es: seq<Event>, hash: string -> string, k: Key)
    ensures var s := Run(EMPTY, es, hash);
      multiset(s.inline)[k] + multiset(s.fed)[k] <= 1
      <==> k !in s.inline || (k !in s.fed && multiset(s.inline)[k] == 1)
  {
    FedAtMostOncePerRow(es, hash);
    var s := Run(EMPTY, es, hash);
    if k in s.fed {
      DistinctOccursOnce(s.fed, k);
    }
  }

  // ---------------------------------------------------------------- forgotten rows

  predicate Running(p: Phase) {
    p.Working? || p.Holding?
  }

  /** A running worker holds the row, or has its id queued under a scope that admits it while it is unclaimed. */
  ghost predicate WithinReach(s: State, id: Id)
    requires id in s.table
  {
    exists w :: w in s.workers && Reaches(s, s.workers[w], id)
  }

  ghost predicate Reaches(s: State, p: Phase, id: Id)
    requires id in s.table
  {
    || (p.Holding? && p.claimed == Current(s, id))
    || (Running(p) && s.table[id].consolidatedAt.None? && Admits(p.scope, s.table[id].scope) && Queues(p, id))
  }

  ghost predicate Queues(p: Phase, id: Id) {
    exists k :: k in Todo(p) && k.id == id
  }

  /** Nothing that can happen feeds row `k`: it is removed, or tombstoned and out of every running worker's reach. */
  ghost predicate Safe(s: State, k: Key) {
    && Born(s, k) && k !in s.fed
    && (forall w :: w in s.workers && s.workers[w].Holding? ==> s.workers[w].claimed != k)
    && (Stored(s, k) ==> s.table[k.id].deletedAt.Some? && !WithinReach(s, k.id))
  }

  lemma SafeStays(s: State, e: Event, hash: string -> string, k: Key)
    requires Safe(s, k)
    ensures Safe(Next(s, e, hash), k)
  {
    var s' := Next(s, e, hash);
    assert Stored(s', k) ==> Stored(s, k);
    match e
    case TryClaim(w, _) => ClaimKeepsSafe(s, e, hash, k);
    case Fetch(w, scope, batch) => FetchKeepsSafe(s, w, scope, batch, hash, k);
    case _ =>
      if Stored(s', k) {
        forall w | w in s'.workers ensures !Reaches(s', s'.workers[w], k.id) {
          if w in s.workers { assert !Reaches(s, s.workers[w], k.id); }
        }
      }
  }

  lemma FetchKeepsSafe(s: State, w: Worker, scope: Scope, batch: seq<Id>, hash: string -> string, k: Key)
    requires Safe(s, k)
    ensures Safe(Next(s, Fetch(w, scope, batch), hash), k)
  {
    var s' := Next(s, Fetch(w, scope, batch), hash);
    if Stored(s', k) && s' != s {
      assert k.id !in batch;
      forall c | c in Copies(s, batch) ensures c.id != k.id {
        var i :| 0 <= i < |batch| && Copies(s, batch)[i] == c;
        assert batch[i] in batch;
      }
      forall v | v in s'.workers ensures !Reaches(s', s'.workers[v], k.id) {
        if v != w { assert !Reaches(s, s.workers[v], k.id); }
      }
    }
  }

  lemma ClaimKeepsSafe(s: State, e: Event, hash: string -> string, k: Key)
    requires Safe(s, k) && e.TryClaim?
    ensures Safe(Next(s, e, hash), k)
  {
    var s' := Next(s, e, hash);
    if s' != s {
      var p := s.workers[e.worker];
      assert p.todo[0] in p.todo;
      if Stored(s, k) {
        assert !Reaches(s, p, k.id);
        forall v | v in s'.workers ensures !Reaches(s', s'.workers[v], k.id) {
          assert !Reaches(s, s.workers[v], k.id);
        }
      }
    }
  }

  lemma {:induction false} SafeIsNeverFed(s: State, es: seq<Event>, hash: string -> string, k: Key)
    requires Safe(s, k)
    ensures Safe(Run(s, es, hash), k)
  {
    if es != [] {
      SafeIsNeverFed(s, es[..|es| - 1], hash, k);
      SafeStays(Run(s, es[..|es| - 1], hash), es[|es| - 1], hash, k);
    }
  }

  /** A worker works its list down to the row and feeds it. */
  lemma {:induction false} FeedFromQueue(s: State, w: Worker, i: nat, hash: string -> string) returns (es: seq<Event>)
    requires w in s.workers && s.workers[w].Working? && i < |s.workers[w].todo|
    requires var id := s.workers[w].todo[i].id;
      && id in s.table && s.table[id].consolidatedAt.None? && Admits(s.workers[w].scope, s.table[id].scope)
      && forall j :: 0 <= j < i ==> s.workers[w].todo[j].id != id
    ensures Current(s, s.workers[w].todo[i].id) in Run(s, es, hash).fed
    decreases i
  {
    var id := s.workers[w].todo[i].id;
    var s1 := Next(s, TryClaim(w, 0), hash);
    if i == 0 {
      es := [TryClaim(w, 0), Consolidate(w)];
      TwoSteps(s, TryClaim(w, 0), Consolidate(w), hash);
    } else {
      var first := if s1.workers[w].Holding? then [TryClaim(w, 0), Consolidate(w)] else [TryClaim(w, 0)];
      TwoSteps(s, TryClaim(w, 0), Consolidate(w), hash);
      OneStep(s, TryClaim(w, 0), hash);
      var s2 := Run(s, first, hash);
      assert s2.workers[w] == Working(s.workers[w].scope, s.workers[w].todo[1..]);
      var rest := FeedFromQueue(s2, w, i - 1, hash);
      es := first + rest;
      RunAppend(s, first, rest, hash);
    }
  }

  /** The first place of `id` in a list. */
  lemma {:induction false} FirstPlace(todo: seq<Key>, id: Id) returns (i: nat)
    requires exists k :: k in todo && k.id == id
    ensures i < |todo| && todo[i].id == id && forall j :: 0 <= j < i ==> todo[j].id != id
  {
    if todo[0].id == id {
      i := 0;
    } else {
      assert todo == [todo[0]] + todo[1..];
      var k :| k in todo && k.id == id;
      assert k in todo[1..];
      i := FirstPlace(todo[1..], id);
      i := i + 1;
    }
  }

  lemma FeedWithinReach(s: State, w: Worker, id: Id, hash: string -> string) returns (es: seq<Event>)
    requires id in s.table && w in s.workers && Reaches(s, s.workers[w], id)
    ensures Current(s, id) in Run(s, es, hash).fed
  {
    var p := s.workers[w];
    OneStep(s, Consolidate(w), hash);
    if p.Holding? && p.claimed == Current(s, id) {
      es := [Consolidate(w)];
    } else {
      var i := FirstPlace(p.todo, id);
      if p.Holding? {
        var rest := FeedFromQueue(Next(s, Consolidate(w), hash), w, i, hash);
        es := [Consolidate(w)] + rest;
        RunAppend(s, [Consolidate(w)], rest, hash);
      } else {
        es := FeedFromQueue(s, w, i, hash);
      }
    }
  }

  /** The claim does not look at `deleted_at`.  In every reachable state, a tombstoned row not yet fed can
      still be fed by some continuation exactly when it is within a running worker's reach. */
  lemma ForgottenRowCanBeFedIff(past: seq<Event>, hash: string -> string, id: Id)
    requires var s := Run(EMPTY, past, hash);
      id in s.table && s.table[id].deletedAt.Some? && Current(s, id) !in s.fed
    ensures var s := Run(EMPTY, past, hash);
      (exists es :: Current(s, id) in Run(s, es, hash).fed) <==> WithinReach(s, id)
  {
    EmptyIsInv();
    RunKeepsInv(EMPTY, past, hash);
    var s := Run(EMPTY, past, hash);
    if WithinReach(s, id) {
      var w :| w in s.workers && Reaches(s, s.workers[w], id);
      var es := FeedWithinReach(s, w, id, hash);
    } else {
      assert forall w :: w in s.workers ==> !Reaches(s, s.workers[w], id);
      forall es ensures Current(s, id) !in Run(s, es, hash).fed {
        SafeIsNeverFed(s, es, hash, Current(s, id));
      }
    }
  }

  /** So a row forgotten while no worker has its id on a list is never fed: the caller's check. */
  lemma ForgottenBeforeFetchIsNeverFed(past: seq<Event>, hash: string -> string, id: Id, scope: Scope, now: Time,
                                       es: seq<Event>)
    requires var s := Run(EMPTY, past, hash);
      && id in s.table && Forget(s.table, id, scope, now).hit && Current(s, id) !in s.claimed
      && forall w :: w in s.workers ==> !Queues(s.workers[w], id)
    ensures Current(Run(EMPTY, past, hash), id) !in Run(EMPTY, past + [ForgetRow(id, scope, now)] + es, hash).fed
  {
    EmptyIsInv();
    RunKeepsInv(EMPTY, past, hash);
    var s := Run(EMPTY, past, hash);
    var e := ForgetRow(id, scope, now);
    var s' := Next(s, e, hash);
    forall w | w in s.workers && s.workers[w].Holding? ensures s.workers[w].claimed != Current(s, id) {
      assert HeldBy(s, w, s.workers[w].claimed);
    }
    assert Safe(s', Current(s, id));
    SafeIsNeverFed(s', es, hash, Current(s, id));
    OneStep(s, e, hash);
    RunAppend(EMPTY, past, [e], hash);
    RunAppend(EMPTY, past + [e], es, hash);
  }

  // ---------------------------------------------------------------- restored ids

  /** The events that take a row out of the table. */
  lemma RemoveRow(s: State, id: Id, hash: string -> string) returns (es: seq<Event>)
    ensures id !in Run(s, es, hash).table && Inserts(es, id) == 0
    ensures var s' := Run(s, es, hash);
      s'.births == s.births && s'.workers == s.workers && s'.fed == s.fed && s'.shown == s.shown
  {
    if id in s.table {
      es := [EraseRows(s.table[id].scope)];
      OneStep(s, es[0], hash);
      assert es[..0] == [];
    } else {
      es := [];
    }
  }

  /** The condition of `FedAtMostOncePerInsert` is needed, always: from every reachable state, a second
      insert of an id (a restore keeps exported ids and starts with a null stamp) lets the id be fed again. */
  lemma RestoredIdCanBeFedAgain(past: seq<Event>, hash: string -> string, record: Row, scope: Scope)
    returns (es: seq<Event>)
    requires record.deletedAt.None?
    ensures Inserts(es, record.id) == 1
    ensures var s := Run(EMPTY, past, hash);
      Run(s, es, hash).fed == s.fed + [Key(record.id, Count(s.births, record.id) + 1)]
  {
    var s, id := Run(EMPTY, past, hash), record.id;
    var remove := RemoveRow(s, id, hash);
    var s0 := Run(s, remove, hash);
    var w := FreshNumber(s.workers.Keys);
    var insert := [InsertRow(record, scope, 0)];
    var feed := FeedAlone(s0, record, scope, w, hash);
    es := remove + (insert + feed);
    OneStep(s0, InsertRow(record, scope, 0), hash);
    RunAppend(s0, insert, feed, hash);
    RunAppend(s, remove, insert + feed, hash);
    OneInsert(remove, record, scope, feed);
  }

  lemma OneInsert(before: seq<Event>, record: Row, scope: Scope, after: seq<Event>)
    requires Inserts(before, record.id) == 0 && Inserts(after, record.id) == 0
    ensures Inserts(before + ([InsertRow(record, scope, 0)] + after), record.id) == 1
  {
    var insert := [InsertRow(record, scope, 0)];
    InsertsAdd(before, insert + after, record.id);
    InsertsAdd(insert, after, record.id);
    assert insert[..0] == [];
  }

  /** The claim is by id alone: a worker whose copy is of a removed row claims the row that took over the
      id, and the consolidator is shown the old copy.  The new row is stamped without having
      been shown. */
  lemma StaleCopyIsShown(s: State, w: Worker, now: Time, hash: string -> string)
    requires w in s.workers && s.workers[w].Working? && s.workers[w].todo != []
    requires var k := s.workers[w].todo[0];
      && k.id in s.table && k != Current(s, k.id)
      && s.table[k.id].consolidatedAt.None? && Admits(s.workers[w].scope, s.table[k.id].scope)
    ensures var k := s.workers[w].todo[0];
      var s' := Run(s, [TryClaim(w, now), Consolidate(w)], hash);
      && s'.shown == s.shown + [k] && s'.fed == s.fed + [Current(s, k.id)]
      && k.id in s'.table && s'.table[k.id].consolidatedAt == Some(now)
  {
    TwoSteps(s, TryClaim(w, now), Consolidate(w), hash);
  }

  /** Such a state is always within reach: insert, fetch, erase, insert. */
  lemma StaleCopyCanBeShown(past: seq<Event>, hash: string -> string, first: Row, second: Row, scope: Scope)
    returns (es: seq<Event>)
    requires first.id == second.id && first.deletedAt.None? && second.deletedAt.None?
    ensures var s := Run(EMPTY, past, hash); var n := Count(s.births, first.id); var s' := Run(s, es, hash);
      s'.shown == s.shown + [Key(first.id, n + 1)] && s'.fed == s.fed + [Key(first.id, n + 2)]
  {
    var s, id := Run(EMPTY, past, hash), first.id;
    var w := FreshNumber(s.workers.Keys);
    var remove := RemoveRow(s, id, hash);
    var s0 := Run(s, remove, hash);
    var swap := [InsertRow(first, scope, 0), Fetch(w, scope, [id])] + [EraseRows(scope), InsertRow(second, scope, 0)];
    FetchedThenReplaced(s0, first, second, scope, w, hash);
    var s1 := Run(s0, swap, hash);
    StaleCopyIsShown(s1, w, 0, hash);
    var finish := [TryClaim(w, 0), Consolidate(w)];
    es := remove + (swap + finish);
    RunThrice(s, remove, swap, finish, hash);
  }

  lemma RunThrice(s: State, a: seq<Event>, b: seq<Event>, c: seq<Event>, hash: string -> string)
    ensures Run(s, a + (b + c), hash) == Run(Run(Run(s, a, hash), b, hash), c, hash)
  {
    RunAppend(s, a, b + c, hash);
    RunAppend(Run(s, a, hash), b, c, hash);
  }

  lemma FetchedThenReplaced(s: State, first: Row, second: Row, scope: Scope, w: Worker, hash: string -> string)
    requires first.id == second.id && first.id !in s.table && w !in s.workers
    requires first.deletedAt.None? && second.deletedAt.None?
    ensures var id, n := first.id, Count(s.births, first.id);
      var fetch := [InsertRow(first, scope, 0), Fetch(w, scope, [id])];
      var s' := Run(s, fetch + [EraseRows(scope), InsertRow(second, scope, 0)], hash);
      && w in s'.workers && s'.workers[w] == Working(scope, [Key(id, n + 1)])
      && Count(s'.births, id) == n + 2 && Pending(s'.table, scope, id) && s'.fed == s.fed && s'.shown == s.shown
  {
    var fetch, replace := [InsertRow(first, scope, 0), Fetch(w, scope, [first.id])],
                          [EraseRows(scope), InsertRow(second, scope, 0)];
    InsertedAndFetched(s, first, scope, w, hash);
    Replaced(Run(s, fetch, hash), second, scope, hash);
    RunAppend(s, fetch, replace, hash);
  }

  lemma InsertedAndFetched(s: State, record: Row, scope: Scope, w: Worker, hash: string -> string)
    requires record.id !in s.table && w !in s.workers && record.deletedAt.None?
    ensures var id, n := record.id, Count(s.births, record.id);
      var s' := Run(s, [InsertRow(record, scope, 0), Fetch(w, scope, [id])], hash);
      && w in s'.workers && s'.workers[w] == Working(scope, [Key(id, n + 1)])
      && Count(s'.births, id) == n + 1 && Pending(s'.table, scope, id) && s'.fed == s.fed && s'.shown == s.shown
  {
    var s1 := Next(s, InsertRow(record, scope, 0), hash);
    assert s1.table[record.id] == Inserted(record, scope, 0, hash);
    assert Copies(s1, [record.id]) == [Current(s1, record.id)];
    TwoSteps(s, InsertRow(record, scope, 0), Fetch(w, scope, [record.id]), hash);
  }

  lemma Replaced(s: State, record: Row, scope: Scope, hash: string -> string)
    requires Pending(s.table, scope, record.id) && record.deletedAt.None?
    ensures var id := record.id;
      var s' := Run(s, [EraseRows(scope), InsertRow(record, scope, 0)], hash);
      && s'.workers == s.workers && Count(s'.births, id) == Count(s.births, id) + 1
      && Pending(s'.table, scope, id) && s'.fed == s.fed && s'.shown == s.shown
  {
    TwoSteps(s, EraseRows(scope), InsertRow(record, scope, 0), hash);
    var s1 := Next(s, EraseRows(scope), hash);
    var s2 := Next(s1, InsertRow(record, scope, 0), hash);
    assert s2.table[record.id] == Inserted(record, scope, 0, hash);
  }

  /** A worker of its own fetches the new row and feeds it. */
  lemma FeedAlone(s0: State, record: Row, scope: Scope, w: Worker, hash: string -> string) returns (feed: seq<Event>)
    requires record.id !in s0.table && w !in s0.workers && record.deletedAt.None?
    ensures Inserts(feed, record.id) == 0
    ensures var s1 := Next(s0, InsertRow(record, scope, 0), hash);
      Run(s1, feed, hash).fed == s0.fed + [Key(record.id, Count(s0.births, record.id) + 1)]
  {
    var id := record.id;
    var s1 := Next(s0, InsertRow(record, scope, 0), hash);
    assert s1.table[id] == Inserted(record, scope, 0, hash) && Pending(s1.table, scope, id);
    feed := [Fetch(w, scope, [id])] + [TryClaim(w, 0), Consolidate(w)];
    FetchAndFeed(s1, id, scope, w, hash);
    NoInserts(feed, id);
  }

  lemma FetchAndFeed(s: State, id: Id, scope: Scope, w: Worker, hash: string -> string)
    requires w !in s.workers && Pending(s.table, scope, id)
    ensures Run(s, [Fetch(w, scope, [id])] + [TryClaim(w, 0), Consolidate(w)], hash).fed == s.fed + [Current(s, id)]
  {
    var s2 := Next(s, Fetch(w, scope, [id]), hash);
    assert Copies(s, [id]) == [Current(s, id)];
    ClaimAndFeed(s2, Current(s, id), scope, w, hash);
    OneStep(s, Fetch(w, scope, [id]), hash);
    RunAppend(s, [Fetch(w, scope, [id])], [TryClaim(w, 0), Consolidate(w)], hash);
  }

  lemma ClaimAndFeed(s: State, k: Key, scope: Scope, w: Worker, hash: string -> string)
    requires w in s.workers && s.workers[w] == Working(scope, [k]) && Stored(s, k) && Pending(s.table, scope, k.id)
    ensures Run(s, [TryClaim(w, 0), Consolidate(w)], hash).fed == s.fed + [k]
  {
    TwoSteps(s, TryClaim(w, 0), Consolidate(w), hash);
  }

  lemma {:induction false} NoInserts(es: seq<Event>, id: Id)
    requires forall e :: e in es ==> !e.InsertRow?
    ensures Inserts(es, id) == 0
  {
    if es != [] {
      assert forall e :: e in es[..|es| - 1] ==> e in es;
      assert es[|es| - 1] in es;
      NoInserts(es[..|es| - 1], id);
    }
  }

  lemma {:induction false} InsertsAdd(es: seq<Event>, more: seq<Event>, id: Id)
    ensures Inserts(es + more, id) == Inserts(es, id) + Inserts(more, id)
    ensures |more| == 1 ==> Inserts(more, id) == if more[0].InsertRow? && more[0].record.id == id then 1 else 0
  {
    if more == [] {
      assert es + more == es;
    } else {
      var n := |more| - 1;
      InsertsAdd(es, more[..n], id);
      assert (es + more)[..|es + more| - 1] == es + more[..n];
    }
  }
}
