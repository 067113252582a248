/** The template-matching reconciler of the retrieval benchmark.  The correction regex is
    abstract; which fact it beats, and in which order, is not. */
module BenchmarkReconciler {
  import opened Sequences
  import opened Rows
  import opened Links
  import opened Supersession
  import opened Reconcile
  import opened Text

  datatype Correction = Correction(name: string, newValue: string, oldValue: string)

  datatype Matcher = Matcher(
    parse: string -> Option<Correction>, lower: string -> string, explain: Correction -> string)

  /** `_is_matching_loser`: names the person and the old value, and is not itself a "switched" turn. */
  predicate Stale(m: Matcher, content: string, c: Correction) {
    var text := m.lower(content);
    && !(Contains(text, "actually") && Contains(text, "switched"))
    && Contains(text, m.lower(c.name))
    && Contains(text, m.lower(c.oldValue))
  }

  ghost predicate IsFirstStale(m: Matcher, candidates: seq<Row>, i: int, j: int) {
    && 0 <= i < j < |candidates|
    && m.parse(candidates[i].body.content).Some?
    && Stale(m, candidates[j].body.content, m.parse(candidates[i].body.content).value)
    && forall k :: i < k < j ==> !Stale(m, candidates[k].body.content, m.parse(candidates[i].body.content).value)
  }

  /** Candidate `i` is a correction and `d` has it beat the nearest older stale candidate. */
  ghost predicate Corrects(m: Matcher, candidates: seq<Row>, i: int, d: Decision) {
    exists j :: IsFirstStale(m, candidates, i, j)
      && d == Decision(candidates[i].id, candidates[j].id, m.explain(m.parse(candidates[i].body.content).value))
  }

  function FirstStale(m: Matcher, candidates: seq<Row>, c: Correction, j: nat): Option<nat>
    requires j <= |candidates|
    decreases |candidates| - j
  {
    if j == |candidates| then None
    else if Stale(m, candidates[j].body.content, c) then Some(j)
    else FirstStale(m, candidates, c, j + 1)
  }

  lemma {:induction false} FirstStaleIsFirst(m: Matcher, candidates: seq<Row>, c: Correction, j: nat)
    requires j <= |candidates|
    ensures var f := FirstStale(m, candidates, c, j);
      && (f.Some? ==> j <= f.value < |candidates| && Stale(m, candidates[f.value].body.content, c)
                      && forall k :: j <= k < f.value ==> !Stale(m, candidates[k].body.content, c))
      && (f.None? ==> forall k :: j <= k < |candidates| ==> !Stale(m, candidates[k].body.content, c))
    decreases |candidates| - j
  {
    if j < |candidates| && !Stale(m, candidates[j].body.content, c) {
      FirstStaleIsFirst(m, candidates, c, j + 1);
    }
  }

  /** The decision of correction `i`, as a list of at most one. */
  function DecisionOf(m: Matcher, candidates: seq<Row>, i: nat): (ds: seq<Decision>)
    requires i < |candidates|
    ensures |ds| <= 1
  {
    var parsed := m.parse(candidates[i].body.content);
    if parsed.None? then []
    else
      var f := FirstStale(m, candidates, parsed.value, i + 1);
      if f.None? || f.value >= |candidates| then []
      else [Decision(candidates[i].id, candidates[f.value].id, m.explain(parsed.value))]
  }

  function Decisions(m: Matcher, candidates: seq<Row>, n: nat): seq<Decision>
    requires n <= |candidates|
  {
    if n == 0 then [] else Decisions(m, candidates, n - 1) + DecisionOf(m, candidates, n - 1)
  }

  lemma DecisionOfCorrects(m: Matcher, candidates: seq<Row>, i: nat)
    requires i < |candidates|
    ensures forall d :: d in DecisionOf(m, candidates, i) <==> Corrects(m, candidates, i, d)
  {
    var parsed := m.parse(candidates[i].body.content);
    if parsed.Some? {
      FirstStaleIsFirst(m, candidates, parsed.value, i + 1);
      var f := FirstStale(m, candidates, parsed.value, i + 1);
      if f.Some? {
        assert IsFirstStale(m, candidates, i, f.value);
        forall j | IsFirstStale(m, candidates, i, j) ensures j == f.value {
        }
      }
    }
  }

  /** One of the first `n` candidates yields `d`. */
  ghost predicate Corrected(m: Matcher, candidates: seq<Row>, n: nat, d: Decision)
    requires n <= |candidates|
  {
    exists i :: 0 <= i < n && Corrects(m, candidates, i, d)
  }

  /** The decisions are exactly the corrections, one each, in candidate order. */
  lemma {:induction false} DecisionsAreTheCorrections(m: Matcher, candidates: seq<Row>, n: nat)
    requires n <= |candidates|
    ensures forall d :: d in Decisions(m, candidates, n) <==> Corrected(m, candidates, n, d)
    ensures |Decisions(m, candidates, n)| <= n
  {
    if n > 0 {
      DecisionsAreTheCorrections(m, candidates, n - 1);
      DecisionOfCorrects(m, candidates, n - 1);
      forall d ensures d in Decisions(m, candidates, n) <==> Corrected(m, candidates, n, d) {
        assert Corrected(m, candidates, n, d) <==>
          Corrected(m, candidates, n - 1, d) || Corrects(m, candidates, n - 1, d);
      }
    }
  }

  ghost predicate HasFirstStale(m: Matcher, candidates: seq<Row>, i: int) {
    exists j :: IsFirstStale(m, candidates, i, j)
  }

  /** They come in candidate order, one for each correction that has an older row to beat: decision `k` is that
      of correction `at[k]`. */
  lemma DecisionsInOrder(m: Matcher, candidates: seq<Row>, n: nat) returns (at: seq<int>)
    requires n <= |candidates|
    ensures |at| == |Decisions(m, candidates, n)| && Ascending(at)
    ensures forall i :: i in at <==> 0 <= i < n && HasFirstStale(m, candidates, i)
    ensures forall k :: 0 <= k < |at| ==> at[k] in at && Corrects(m, candidates, at[k], Decisions(m, candidates, n)[k])
  {
    var lists := DecisionLists(m, candidates, n);
    at := Filled(lists);
    DecisionsAreFlat(m, candidates, n);
    FilledAscends(lists);
    FlattenAt(lists, 0);
    forall i | 0 <= i < n ensures lists[i] != [] <==> HasFirstStale(m, candidates, i) {
      DecidesIfFirstStale(m, candidates, i);
    }
    forall k | 0 <= k < |at| ensures at[k] in at && Corrects(m, candidates, at[k], Decisions(m, candidates, n)[k]) {
      DecisionAt(m, candidates, n, k);
    }
  }

  lemma DecisionAt(m: Matcher, candidates: seq<Row>, n: nat, k: nat)
    requires n <= |candidates| && k < |Decisions(m, candidates, n)|
    ensures var at := Filled(DecisionLists(m, candidates, n));
      k < |at| && at[k] in at && Corrects(m, candidates, at[k], Decisions(m, candidates, n)[k])
  {
    var lists := DecisionLists(m, candidates, n);
    DecisionsAreFlat(m, candidates, n);
    FlattenAt(lists, k);
    var i := Filled(lists)[k];
    assert i in Filled(lists);
    DecidesIfFirstStale(m, candidates, i);
  }

  function DecisionLists(m: Matcher, candidates: seq<Row>, n: nat): (lists: seq<seq<Decision>>)
    requires n <= |candidates|
    ensures |lists| == n && forall i :: 0 <= i < n ==> lists[i] == DecisionOf(m, candidates, i)
  {
    if n == 0 then [] else DecisionLists(m, candidates, n - 1) + [DecisionOf(m, candidates, n - 1)]
  }

  lemma {:induction false} DecisionsAreFlat(m: Matcher, candidates: seq<Row>, n: nat)
    requires n <= |candidates|
    ensures Decisions(m, candidates, n) == Flatten(DecisionLists(m, candidates, n))
  {
    if n > 0 {
      DecisionsAreFlat(m, candidates, n - 1);
      var lists := DecisionLists(m, candidates, n);
      assert lists[..n - 1] == DecisionLists(m, candidates, n - 1);
    }
  }

  lemma DecidesIfFirstStale(m: Matcher, candidates: seq<Row>, i: nat)
    requires i < |candidates|
    ensures |DecisionOf(m, candidates, i)| == if HasFirstStale(m, candidates, i) then 1 else 0
    ensures HasFirstStale(m, candidates, i) ==> Corrects(m, candidates, i, DecisionOf(m, candidates, i)[0])
  {
    DecisionOfCorrects(m, candidates, i);
    if HasFirstStale(m, candidates, i) {
      var j :| IsFirstStale(m, candidates, i, j);
      var c := m.parse(candidates[i].body.content).value;
      assert Corrects(m, candidates, i, Decision(candidates[i].id, candidates[j].id, m.explain(c)));
      assert DecisionOf(m, candidates, i)[0] in DecisionOf(m, candidates, i);
    }
    assert |DecisionOf(m, candidates, i)| == 1 ==> DecisionOf(m, candidates, i)[0] in DecisionOf(m, candidates, i);
  }

  /** A decision has a correction beat an older row that names the person and the old value and is not itself a
      correction, and every correction with such a row behind it beats one no farther away. */
  lemma CorrectionsBeatOldValues(m: Matcher, candidates: seq<Row>)
    ensures forall d :: d in Decisions(m, candidates, |candidates|) ==>
      exists i, j :: Outdates(m, candidates, i, j) && d.winner == candidates[i].id && d.loser == candidates[j].id
    ensures forall i, j :: Outdates(m, candidates, i, j) ==>
      exists k, d ::
        && i < k <= j && d in Decisions(m, candidates, |candidates|)
        && d.winner == candidates[i].id && d.loser == candidates[k].id
  {
    DecisionsAreTheCorrections(m, candidates, |candidates|);
    forall d | d in Decisions(m, candidates, |candidates|)
      ensures exists i, j ::
        Outdates(m, candidates, i, j) && d.winner == candidates[i].id && d.loser == candidates[j].id {
      var i :| 0 <= i < |candidates| && Corrects(m, candidates, i, d);
      var j :| IsFirstStale(m, candidates, i, j) && d.loser == candidates[j].id;
      assert Outdates(m, candidates, i, j);
    }
    forall i, j | Outdates(m, candidates, i, j)
      ensures exists k, d ::
        && i < k <= j && d in Decisions(m, candidates, |candidates|)
        && d.winner == candidates[i].id && d.loser == candidates[k].id {
      var c := m.parse(candidates[i].body.content).value;
      FirstStaleIsFirst(m, candidates, c, i + 1);
      var k := FirstStale(m, candidates, c, i + 1).value;
      assert IsFirstStale(m, candidates, i, k);
      var d := Decision(candidates[i].id, candidates[k].id, m.explain(c));
      assert Corrects(m, candidates, i, d);
    }
  }

  /** Row `i` is a correction, and the older row `j` tells the old value of the person it names. */
  ghost predicate Outdates(m: Matcher, candidates: seq<Row>, i: int, j: int) {
    && 0 <= i < j < |candidates|
    && m.parse(candidates[i].body.content).Some?
    && var c, text := m.parse(candidates[i].body.content).value, m.lower(candidates[j].body.content);
       && Contains(text, m.lower(c.name)) && Contains(text, m.lower(c.oldValue))
       && (Contains(text, "actually") ==> !Contains(text, "switched"))
  }

  /** The nested loops of `__call__`. */
  method Call(m: Matcher, candidates: seq<Row>) returns (decisions: seq<Decision>)
    ensures decisions == Decisions(m, candidates, |candidates|)
    ensures forall d :: d in decisions <==> Corrected(m, candidates, |candidates|, d)
  {
    DecisionsAreTheCorrections(m, candidates, |candidates|);
    decisions := [];
    if |candidates| < 2 {
      assert |candidates| == 1 ==> DecisionOf(m, candidates, 0) == [];
      return;
    }
    for i := 0 to |candidates|
      invariant decisions == Decisions(m, candidates, i)
    {
      var parsed := m.parse(candidates[i].body.content);
      if parsed.Some? {
        var j := FindLoser(m, candidates, i, parsed.value);
        if j < |candidates| {
          decisions := decisions + [Decision(candidates[i].id, candidates[j].id, m.explain(parsed.value))];
        }
      }
    }
  }

  /** The inner loop, up to its `break`. */
  method FindLoser(m: Matcher, candidates: seq<Row>, i: nat, c: Correction) returns (j: nat)
    requires i < |candidates|
    ensures i < j <= |candidates| && FirstStale(m, candidates, c, i + 1) == if j < |candidates| then Some(j) else None
  {
    j := i + 1;
    while j < |candidates| && !Stale(m, candidates[j].body.content, c)
      invariant i < j <= |candidates|
      invariant FirstStale(m, candidates, c, i + 1) == FirstStale(m, candidates, c, j)
    {
      j := j + 1;
    }
  }

  ghost predicate DistinctIds(candidates: seq<Row>) {
    forall i, j :: 0 <= i < j < |candidates| ==> candidates[i].id != candidates[j].id
  }

  function Position(candidates: seq<Row>): map<Id, int> {
    if candidates == [] then map[]
    else Position(candidates[..|candidates| - 1])[candidates[|candidates| - 1].id := |candidates| - 1]
  }

  lemma {:induction false} PositionIsIndex(candidates: seq<Row>, i: nat)
    requires DistinctIds(candidates) && i < |candidates|
    ensures candidates[i].id in Position(candidates) && Position(candidates)[candidates[i].id] == i
  {
    var n := |candidates| - 1;
    if i < n {
      PositionIsIndex(candidates[..n], i);
      assert candidates[i].id != candidates[n].id;
    }
  }

  /** Winner strictly before loser in the list: the batch is acyclic, nobody beats itself,
      and the newest candidate is never a loser. */
  lemma WinnersPrecedeLosers(m: Matcher, candidates: seq<Row>)
    requires DistinctIds(candidates)
    ensures forall d :: d in Decisions(m, candidates, |candidates|) ==>
      exists i, j :: 0 <= i < j < |candidates| && d.winner == candidates[i].id && d.loser == candidates[j].id
    ensures AcyclicBatch(Decisions(m, candidates, |candidates|))
    ensures candidates != [] ==> forall d :: d in Decisions(m, candidates, |candidates|) ==> d.loser != candidates[0].id
  {
    DecisionsAreTheCorrections(m, candidates, |candidates|);
    var rank := Position(candidates);
    forall d | d in Decisions(m, candidates, |candidates|)
      ensures exists i, j :: 0 <= i < j < |candidates| && d.winner == candidates[i].id && d.loser == candidates[j].id
      ensures d.winner in rank && d.loser in rank && rank[d.winner] < rank[d.loser]
      ensures d.loser != candidates[0].id
    {
      var i :| 0 <= i < |candidates| && Corrects(m, candidates, i, d);
      var j :| IsFirstStale(m, candidates, i, j) && d.loser == candidates[j].id;
      PositionIsIndex(candidates, i);
      PositionIsIndex(candidates, j);
    }
    RankedBatchAcyclic(Decisions(m, candidates, |candidates|), rank);
  }

  /** A pass driven by this reconciler keeps the forest, and the newest row it was shown stays live. */
  lemma BenchmarkPassKeepsForestAndNewest(m: Matcher, t: Table, scope: Scope, now: Time, order: seq<Id>, limit: nat,
                                          clock: nat -> Time, faults: nat -> bool)
    requires Consistent(t) && Acyclic(LinksOf(t))
    requires IsOrdering(t, Selected(t, scope, false, now), order)
    requires forall id :: id in Page(order, limit, 0) ==> id in t
    ensures var ids := Page(order, limit, 0);
      var candidates := RowsAt(t, ids);
      var r := ApplyPass(t, Elements(ids), Attempts(Decisions(m, candidates, |candidates|), clock, faults), scope);
      && Acyclic(LinksOf(r.table))
      && (ids != [] ==> ids[0] in LiveIds(r.table))
  {
    var ids := Page(order, limit, 0);
    var candidates := RowsAt(t, ids);
    ListedAreLive(t, scope, now, order, limit);
    assert forall i :: 0 <= i < |ids| ==> ids[i] in ids && candidates[i].id == ids[i];
    WinnersPrecedeLosers(m, candidates);
    var ds := Decisions(m, candidates, |candidates|);
    var attempts := Attempts(ds, clock, faults);
    assert DecisionsOf(attempts) == ds;
    AcyclicPassKeepsForestAndASurvivor(t, Elements(ids), attempts, scope);
    if ids != [] {
      AppliedWereDecided(t, Elements(ids), attempts, scope);
      PassRemovesExactlyTheApplied(t, Elements(ids), attempts, scope);
      assert ids[0] in Elements(ids);
    }
  }
}
