/** Supersession links as a partial function on ids, and two ways to say they form
    a forest: no closed path, and every chain ends. */
module Links {
  import opened Sequences
  import opened Rows

  type Links = map<Id, Id>

  /** `p[i + 1]` is the row that superseded `p[i]`. */
  ghost predicate IsPath(links: Links, p: seq<Id>) {
    |p| >= 1 && forall i :: 0 <= i < |p| - 1 ==> p[i] in links && links[p[i]] == p[i + 1]
  }

  ghost predicate Acyclic(links: Links) {
    forall p :: IsPath(links, p) && |p| >= 2 ==> p[0] != p[|p| - 1]
  }

  /** Following at most `n` links from `x` reaches an id without one. */
  predicate EndsWithin(links: Links, x: Id, n: nat)
    decreases n
  {
    x !in links || (n > 0 && EndsWithin(links, links[x], n - 1))
  }

  function Walk(links: Links, x: Id, n: nat): seq<Id>
    decreases n
  {
    if n == 0 || x !in links then [x] else [x] + Walk(links, links[x], n - 1)
  }

  lemma WalkIsPath(links: Links, x: Id, n: nat)
    ensures IsPath(links, Walk(links, x, n)) && Walk(links, x, n)[0] == x
    ensures !EndsWithin(links, x, n) ==>
      |Walk(links, x, n)| == n + 1 && forall y :: y in Walk(links, x, n) ==> y in links
    decreases n
  {
    if n > 0 && x in links {
      WalkIsPath(links, links[x], n - 1);
    }
  }

  lemma RevisitIsACycle(links: Links, p: seq<Id>, i: nat, j: nat)
    requires IsPath(links, p) && i < j < |p| && p[i] == p[j]
    ensures !Acyclic(links)
  {
    var q := p[i..j + 1];
    forall k | 0 <= k < |q| - 1 ensures q[k] in links && links[q[k]] == q[k + 1] {
      assert q[k] == p[i + k] && q[k + 1] == p[i + k + 1];
    }
    assert IsPath(links, q) && q[0] == q[|q| - 1];
  }

  /** No cycle: every chain ends, after at most as many steps as there are links. */
  lemma ChainsEndIfAcyclic(links: Links, x: Id)
    requires Acyclic(links)
    ensures EndsWithin(links, x, |links|)
  {
    if !EndsWithin(links, x, |links|) {
      var p := Walk(links, x, |links|);
      WalkIsPath(links, x, |links|);
      if Distinct(p) {
        DistinctFits(p, links.Keys);
        assert false;
      }
      var i, j :| 0 <= i < j < |p| && p[i] == p[j];
      RevisitIsACycle(links, p, i, j);
    }
  }

  lemma {:induction false} ClosedPathNeverEnds(links: Links, p: seq<Id>, i: nat, n: nat)
    requires IsPath(links, p) && |p| >= 2 && p[0] == p[|p| - 1] && i < |p| - 1
    ensures !EndsWithin(links, p[i], n)
    decreases n
  {
    if n > 0 {
      ClosedPathNeverEnds(links, p, if i + 1 == |p| - 1 then 0 else i + 1, n - 1);
    }
  }

  /** The two definitions of a forest agree. */
  lemma AcyclicIffEveryChainEnds(links: Links)
    ensures Acyclic(links) <==> forall x :: EndsWithin(links, x, |links|)
  {
    if Acyclic(links) {
      forall x ensures EndsWithin(links, x, |links|) { ChainsEndIfAcyclic(links, x); }
    } else {
      var p :| IsPath(links, p) && |p| >= 2 && p[0] == p[|p| - 1];
      ClosedPathNeverEnds(links, p, 0, |links|);
    }
  }

  // ---------------------------------------------------------------- one more link

  function ChainEnd(links: Links, x: Id, n: nat): Id
    requires EndsWithin(links, x, n)
    decreases n
  {
    if x in links then ChainEnd(links, links[x], n - 1) else x
  }

  /** The chain from `x` ends, and at `end`. */
  predicate EndsAt(links: Links, x: Id, end: Id) {
    EndsWithin(links, x, |links|) && ChainEnd(links, x, |links|) == end
  }

  /** A chain that does not end at `a` does not notice a link from `a`. */
  lemma {:induction false} ChainElsewhere(links: Links, a: Id, b: Id, x: Id, n: nat)
    requires a !in links && EndsWithin(links, x, n) && ChainEnd(links, x, n) != a
    ensures EndsWithin(links[a := b], x, n)
    decreases n
  {
    if x in links {
      ChainElsewhere(links, a, b, links[x], n - 1);
    }
  }

  /** One that does goes on along the chain from `b`. */
  lemma {:induction false} ChainThrough(links: Links, a: Id, b: Id, x: Id, n: nat, m: nat)
    requires a !in links && EndsWithin(links, x, n) && ChainEnd(links, x, n) == a && EndsWithin(links[a := b], b, m)
    ensures EndsWithin(links[a := b], x, n + 1 + m)
    decreases n
  {
    if x in links {
      ChainThrough(links, a, b, links[x], n - 1, m);
    } else {
      MoreStepsEndToo(links[a := b], b, m, n + m);
    }
  }

  lemma {:induction false} MoreStepsEndToo(links: Links, x: Id, m: nat, n: nat)
    requires EndsWithin(links, x, m) && m <= n
    ensures EndsWithin(links, x, n)
    decreases n
  {
    if x in links {
      MoreStepsEndToo(links, links[x], m - 1, n - 1);
    }
  }

  /** If the chain from `b` ends at `a`, a link from `a` to `b` keeps every chain into `a` going for ever. */
  lemma {:induction false} LoopNeverEnds(links: Links, a: Id, b: Id, x: Id, k: nat, m: nat, n: nat)
    requires a !in links && EndsWithin(links, x, k) && ChainEnd(links, x, k) == a
    requires EndsWithin(links, b, m) && ChainEnd(links, b, m) == a
    ensures !EndsWithin(links[a := b], x, n)
    decreases n
  {
    if n > 0 {
      if x in links {
        LoopNeverEnds(links, a, b, links[x], k - 1, m, n - 1);
      } else {
        LoopNeverEnds(links, a, b, b, m, m, n - 1);
      }
    }
  }

  /** A new link keeps a forest a forest exactly if the chain from its target does not end at its source. */
  lemma LinkKeepsForestIff(links: Links, a: Id, b: Id)
    requires Acyclic(links) && a !in links
    ensures Acyclic(links[a := b]) <==> !EndsAt(links, b, a)
  {
    var after := links[a := b];
    ChainsEndIfAcyclic(links, b);
    if EndsAt(links, b, a) {
      LoopNeverEnds(links, a, b, b, |links|, |links|, |after|);
      if Acyclic(after) { ChainsEndIfAcyclic(after, b); }
    } else {
      ChainElsewhere(links, a, b, b, |links|);
      forall p | IsPath(after, p) && |p| >= 2 ensures p[0] != p[|p| - 1] {
        ChainsEndIfAcyclic(links, p[0]);
        EveryChainStillEnds(links, a, b, p[0]);
        if p[0] == p[|p| - 1] { ClosedPathNeverEnds(after, p, 0, |links| + 1 + |links|); }
      }
    }
  }

  lemma EveryChainStillEnds(links: Links, a: Id, b: Id, x: Id)
    requires a !in links && EndsWithin(links, x, |links|) && EndsWithin(links[a := b], b, |links|)
    ensures EndsWithin(links[a := b], x, |links| + 1 + |links|)
  {
    if ChainEnd(links, x, |links|) == a {
      ChainThrough(links, a, b, x, |links|, |links|);
    } else {
      ChainElsewhere(links, a, b, x, |links|);
      MoreStepsEndToo(links[a := b], x, |links|, |links| + 1 + |links|);
    }
  }

  // ---------------------------------------------------------------- decisions

  datatype Decision = Decision(winner: Id, loser: Id, reason: string)

  /** A self-supersession beats nobody: `reconcile` skips it. */
  ghost predicate Beats(ds: seq<Decision>, winner: Id, loser: Id) {
    winner != loser && exists d :: d in ds && d.winner == winner && d.loser == loser
  }

  ghost predicate IsBeatPath(ds: seq<Decision>, p: seq<Id>) {
    |p| >= 1 && forall i :: 0 <= i < |p| - 1 ==> Beats(ds, p[i + 1], p[i])
  }

  /** The decisions as a loser-to-winner relation have no closed path. */
  ghost predicate AcyclicBatch(ds: seq<Decision>) {
    forall p :: IsBeatPath(ds, p) && |p| >= 2 ==> p[0] != p[|p| - 1]
  }

  lemma SubBatchAcyclic(ds: seq<Decision>, sub: seq<Decision>)
    requires AcyclicBatch(ds) && forall d :: d in sub ==> d in ds
    ensures AcyclicBatch(sub)
  {
    forall p | IsBeatPath(sub, p) && |p| >= 2 ensures p[0] != p[|p| - 1] {
      forall i | 0 <= i < |p| - 1 ensures Beats(ds, p[i + 1], p[i]) {
        assert Beats(sub, p[i + 1], p[i]);
      }
      assert IsBeatPath(ds, p);
    }
  }

  function Named(ds: seq<Decision>): set<Id> {
    (set d | d in ds :: d.winner) + (set d | d in ds :: d.loser)
  }

  /** Lists that name no row in common cannot close a cycle together. */
  lemma ApartBatchesAcyclic(ds: seq<Decision>, es: seq<Decision>)
    requires AcyclicBatch(ds) && AcyclicBatch(es) && Named(ds) !! Named(es)
    ensures AcyclicBatch(ds + es)
  {
    forall p | IsBeatPath(ds + es, p) && |p| >= 2 ensures p[0] != p[|p| - 1] {
      assert Beats(ds + es, p[1], p[0]);
      if p[0] in Named(ds) {
        StaysInBatch(ds, es, p);
      } else {
        forall i | 0 <= i < |p| - 1 ensures Beats(es + ds, p[i + 1], p[i]) {
          assert Beats(ds + es, p[i + 1], p[i]);
        }
        StaysInBatch(es, ds, p);
      }
    }
  }

  lemma {:induction false} StaysInBatch(ds: seq<Decision>, es: seq<Decision>, p: seq<Id>)
    requires Named(ds) !! Named(es) && IsBeatPath(ds + es, p) && p[0] in Named(ds)
    ensures IsBeatPath(ds, p)
  {
    if |p| >= 2 {
      assert Beats(ds + es, p[1], p[0]);
      assert Beats(ds, p[1], p[0]) && p[1] in Named(ds);
      forall i | 0 <= i < |p[1..]| - 1 ensures Beats(ds + es, p[1..][i + 1], p[1..][i]) {
        assert Beats(ds + es, p[i + 2], p[i + 1]);
      }
      StaysInBatch(ds, es, p[1..]);
      forall i | 0 <= i < |p| - 1 ensures Beats(ds, p[i + 1], p[i]) {
        if i > 0 { assert Beats(ds, p[1..][i], p[1..][i - 1]); }
      }
    }
  }

  /** A batch whose winners all rank strictly before their losers is acyclic. */
  lemma RankedBatchAcyclic(ds: seq<Decision>, rank: map<Id, int>)
    requires forall d :: d in ds ==> d.winner in rank && d.loser in rank && rank[d.winner] < rank[d.loser]
    ensures AcyclicBatch(ds)
  {
    forall p | IsBeatPath(ds, p) && |p| >= 2 ensures p[0] != p[|p| - 1] {
      RankFalls(ds, rank, p);
    }
  }

  lemma {:induction false} RankFalls(ds: seq<Decision>, rank: map<Id, int>, p: seq<Id>)
    requires forall d :: d in ds ==> d.winner in rank && d.loser in rank && rank[d.winner] < rank[d.loser]
    requires IsBeatPath(ds, p) && |p| >= 2
    ensures p[0] in rank && p[|p| - 1] in rank && rank[p[|p| - 1]] < rank[p[0]]
  {
    assert Beats(ds, p[1], p[0]);
    if |p| > 2 {
      forall i | 0 <= i < |p[1..]| - 1 ensures Beats(ds, p[1..][i + 1], p[1..][i]) {
        assert Beats(ds, p[i + 2], p[i + 1]);
      }
      RankFalls(ds, rank, p[1..]);
    }
  }

  // ---------------------------------------------------------------- growing a forest

  /** Every link is old, or points at a candidate that beats its source. */
  ghost predicate Grown(before: Links, after: Links, candidates: set<Id>, ds: seq<Decision>) {
    forall x :: x in after ==>
      || (x in before && before[x] == after[x])
      || (after[x] in candidates && Beats(ds, after[x], x))
  }

  lemma GrownByOne(before: Links, after: Links, candidates: set<Id>, ds: seq<Decision>, winner: Id, loser: Id)
    requires Grown(before, after, candidates, ds) && winner in candidates && Beats(ds, winner, loser)
    ensures Grown(before, after[loser := winner], candidates, ds)
  {
  }

  ghost predicate NewEdge(candidates: set<Id>, ds: seq<Decision>, p: seq<Id>, i: int)
    requires 0 <= i < |p| - 1
  {
    p[i + 1] in candidates && Beats(ds, p[i + 1], p[i])
  }

  /** Candidates carry no old link, so once a path takes a new edge it only takes new edges. */
  lemma {:induction false} NewEdgesPersist(before: Links, after: Links, candidates: set<Id>, ds: seq<Decision>,
                                           p: seq<Id>, k: nat, j: nat)
    requires Grown(before, after, candidates, ds) && candidates !! before.Keys
    requires IsPath(after, p) && k <= j < |p| - 1 && NewEdge(candidates, ds, p, k)
    ensures NewEdge(candidates, ds, p, j)
    decreases j
  {
    if k < j {
      NewEdgesPersist(before, after, candidates, ds, p, k, j - 1);
      assert p[j] in candidates;
    }
  }

  lemma GrownForestIsAcyclic(before: Links, after: Links, candidates: set<Id>, ds: seq<Decision>)
    requires Acyclic(before) && AcyclicBatch(ds)
    requires Grown(before, after, candidates, ds) && candidates !! before.Keys
    ensures Acyclic(after)
  {
    forall p | IsPath(after, p) && |p| >= 2 ensures p[0] != p[|p| - 1] {
      if p[0] == p[|p| - 1] {
        if k :| 0 <= k < |p| - 1 && NewEdge(candidates, ds, p, k) {
          NewEdgesPersist(before, after, candidates, ds, p, k, |p| - 2);
          assert p[0] in candidates;
          forall j | 0 <= j < |p| - 1 ensures Beats(ds, p[j + 1], p[j]) {
            NewEdgesPersist(before, after, candidates, ds, p, 0, j);
          }
          assert IsBeatPath(ds, p);
        } else {
          forall i | 0 <= i < |p| - 1 ensures p[i] in before && before[p[i]] == p[i + 1] {
            assert !NewEdge(candidates, ds, p, i);
          }
          assert IsPath(before, p);
        }
        assert false;
      }
    }
  }
}
