/** Recall@k, MRR and nDCG@k over a ranked list.  The log2 discount is any discount that is positive
    and strictly decreasing from rank 1 on; rounding is left out. */
module RankMetrics {
  import opened Sequences

  type SessionId = string
  type Discount = nat -> real

  ghost predicate IsDiscount(d: Discount) {
    && (forall i: nat :: i >= 1 ==> d(i) > 0.0)
    && (forall i: nat, j: nat :: 1 <= i < j ==> d(i) > d(j))
  }

  /** The slice `ranked[:k]`: a negative k drops from the end. */
  function Top(ranked: seq<SessionId>, k: int): (top: seq<SessionId>)
    ensures k >= 0 ==> |top| == Min(k, |ranked|)
  {
    if k >= 0 then ranked[..Min(k, |ranked|)]
    else if |ranked| + k >= 0 then ranked[..|ranked| + k] else []
  }

  function FirstRanks(n: int): (ranks: set<nat>)
    ensures forall r :: r in ranks <==> 1 <= r <= n
  {
    if n <= 0 then {} else FirstRanks(n - 1) + {n}
  }

  /** The ranks of the cut at `k` that hold a relevant entry. */
  function HitRanks(ranked: seq<SessionId>, evidence: set<SessionId>, k: int): set<nat> {
    set r | r in FirstRanks(|ranked|) && r <= (if k >= 0 then k else |ranked| + k) && ranked[r - 1] in evidence
  }

  // ---------------------------------------------------------------- recall and MRR

  function Recall(ranked: seq<SessionId>, evidence: set<SessionId>, k: int): real {
    if evidence == {} then 0.0 else Found(Top(ranked, k), evidence) as real / |evidence| as real
  }

  /** Recall is the share of the evidence that stands at a hit rank, each session counted once. */
  lemma RecallIsTheShareFound(ranked: seq<SessionId>, evidence: set<SessionId>, k: int)
    requires evidence != {}
    ensures Recall(ranked, evidence, k) * |evidence| as real
      == |set r | r in HitRanks(ranked, evidence, k) :: ranked[r - 1]| as real
  {
    var at := set r | r in HitRanks(ranked, evidence, k) :: ranked[r - 1];
    var top := Top(ranked, k);
    forall e | e in Elements(top) * evidence ensures e in at {
      var i :| 0 <= i < |top| && top[i] == e;
      assert i + 1 in HitRanks(ranked, evidence, k);
    }
    forall r | r in HitRanks(ranked, evidence, k) ensures ranked[r - 1] in Elements(top) {
      assert top[r - 1] == ranked[r - 1];
    }
    assert at == Elements(top) * evidence;
  }

  /** Repeats never count twice: recall stays in [0, 1], is 1 exactly when all the evidence is in the
      top k, and never falls when k grows. */
  lemma RecallBounds(ranked: seq<SessionId>, evidence: set<SessionId>, k: int, larger: int)
    requires evidence != {} && 0 <= k <= larger
    ensures 0.0 <= Recall(ranked, evidence, k) <= Recall(ranked, evidence, larger) <= 1.0
    ensures Recall(ranked, evidence, k) == 1.0 <==> evidence <= Elements(Top(ranked, k))
  {
    FoundGrows(ranked, evidence, k, larger);
    Quotient(Found(Top(ranked, k), evidence), Found(Top(ranked, larger), evidence), |evidence|);
    Quotient(Found(Top(ranked, larger), evidence), |evidence|, |evidence|);
    Whole(|evidence|);
  }

  lemma Whole(n: nat)
    requires n > 0
    ensures n as real / n as real == 1.0
  {
  }

  lemma FoundGrows(ranked: seq<SessionId>, evidence: set<SessionId>, k: nat, larger: nat)
    requires k <= larger
    ensures Found(Top(ranked, k), evidence) <= Found(Top(ranked, larger), evidence) <= |evidence|
    ensures Found(Top(ranked, k), evidence) == |evidence| <==> evidence <= Elements(Top(ranked, k))
  {
    LargerTop(ranked, k, larger);
    SubsetSize(Elements(Top(ranked, k)) * evidence, Elements(Top(ranked, larger)) * evidence);
    SubsetSize(Elements(Top(ranked, larger)) * evidence, evidence);
    AllFoundIff(Elements(Top(ranked, k)), evidence);
  }

  lemma LargerTop(ranked: seq<SessionId>, k: nat, larger: nat)
    requires k <= larger
    ensures Elements(Top(ranked, k)) <= Elements(Top(ranked, larger))
  {
    assert Top(ranked, k) == Top(ranked, larger)[..|Top(ranked, k)|];
  }

  lemma AllFoundIff(found: set<SessionId>, evidence: set<SessionId>)
    ensures |found * evidence| == |evidence| <==> evidence <= found
  {
    if x :| x in evidence && x !in found {
      SubsetSize(found * evidence, evidence - {x});
    } else {
      assert found * evidence == evidence;
    }
  }

  lemma Quotient(a: nat, b: nat, n: nat)
    requires a <= b && n > 0
    ensures 0.0 <= a as real / n as real <= b as real / n as real
    ensures a as real / n as real == 1.0 <==> a == n
  {
    var x, y, m := a as real, b as real, n as real;
    Ratio(x, m);
    Ratio(y, m);
    RatioOrder(x, y, m);
  }

  lemma RatioOrder(x: real, y: real, m: real)
    requires x <= y && m > 0.0
    ensures x / m <= y / m
  {
    var p, q := x / m, y / m;
    assert p * m == x && q * m == y;
    Scaled(q, p, m);
  }

  lemma Scaled(a: real, b: real, y: real)
    requires y > 0.0
    ensures a < b <==> a * y < b * y
  {
    assert (b - a) * y == b * y - a * y;
  }

  /** 1/rank of the first relevant entry: 1 exactly when rank 1 is relevant, 0 exactly when none is. */
  method Mrr(ranked: seq<SessionId>, evidence: set<SessionId>) returns (score: real, ghost rank: nat)
    ensures score == 0.0 <==> forall i :: 0 <= i < |ranked| ==> ranked[i] !in evidence
    ensures score != 0.0 ==>
      && 1 <= rank <= |ranked| && score * rank as real == 1.0 && ranked[rank - 1] in evidence
      && forall i :: 0 <= i < rank - 1 ==> ranked[i] !in evidence
  {
    for i := 0 to |ranked|
      invariant forall j :: 0 <= j < i ==> ranked[j] !in evidence
    {
      if ranked[i] in evidence {
        score, rank := 1.0 / (i + 1) as real, i + 1;
        assert score * rank as real == 1.0;
        return;
      }
    }
    return 0.0, 0;
  }

  // ---------------------------------------------------------------- nDCG

  /** DCG of the first `n` entries. */
  function Gain(ranked: seq<SessionId>, evidence: set<SessionId>, d: Discount, n: nat): real
    requires n <= |ranked|
  {
    if n == 0 then 0.0 else Gain(ranked, evidence, d, n - 1) + if ranked[n - 1] in evidence then d(n) else 0.0
  }

  function Hits(ranked: seq<SessionId>, evidence: set<SessionId>, n: nat): (h: nat)
    requires n <= |ranked|
    ensures h <= n
  {
    if n == 0 then 0 else Hits(ranked, evidence, n - 1) + if ranked[n - 1] in evidence then 1 else 0
  }

  /** The sum of the first `m` discounts. */
  function Ideal(d: Discount, m: nat): real {
    if m == 0 then 0.0 else Ideal(d, m - 1) + d(m)
  }

  /** `min(len(evidence), k)` as a range bound. */
  function Depth(evidence: set<SessionId>, k: int): nat {
    if k <= 0 then 0 else Min(|evidence|, k)
  }

  function Ndcg(ranked: seq<SessionId>, evidence: set<SessionId>, k: int, d: Discount): real {
    var idcg := Ideal(d, Depth(evidence, k));
    if evidence == {} || idcg == 0.0 then 0.0
    else Gain(Top(ranked, k), evidence, d, |Top(ranked, k)|) / idcg
  }

  method NdcgAtK(ranked: seq<SessionId>, evidence: set<SessionId>, k: int, d: Discount) returns (score: real)
    ensures score == Ndcg(ranked, evidence, k, d)
  {
    if evidence == {} {
      return 0.0;
    }
    var top := Top(ranked, k);
    var dcg := 0.0;
    for i := 0 to |top|
      invariant dcg == Gain(top, evidence, d, i)
    {
      if top[i] in evidence {
        dcg := dcg + d(i + 1);
      }
    }
    var idcg := 0.0;
    for m := 0 to Depth(evidence, k)
      invariant idcg == Ideal(d, m)
    {
      idcg := idcg + d(m + 1);
    }
    if idcg == 0.0 {
      return 0.0;
    }
    return dcg / idcg;
  }

  // ---------------------------------------------------------------- what the score is

  /** The ranks a perfect ranking fills. */
  function IdealRanks(evidence: set<SessionId>, k: int): set<nat> {
    FirstRanks(Min(|evidence|, k))
  }

  ghost function SumOver(d: Discount, ranks: set<nat>): real
  {
    if ranks == {} then 0.0 else var r :| r in ranks; d(r) + SumOver(d, ranks - {r})
  }

  lemma {:induction false} SumOverMore(d: Discount, ranks: set<nat>, r: nat)
    requires r !in ranks
    ensures SumOver(d, ranks + {r}) == SumOver(d, ranks) + d(r)
  {
    var all := ranks + {r};
    var q :| q in all && SumOver(d, all) == d(q) + SumOver(d, all - {q});
    if q == r {
      assert all - {q} == ranks;
    } else {
      SumOverMore(d, ranks - {q}, r);
      assert all - {q} == ranks - {q} + {r};
      assert ranks == ranks - {q} + {q};
      SumOverMore(d, ranks - {q}, q);
    }
  }

  lemma {:induction false} GainIsASum(ranked: seq<SessionId>, evidence: set<SessionId>, d: Discount, n: nat)
    requires n <= |ranked|
    ensures Gain(ranked, evidence, d, n) == SumOver(d, HitRanks(ranked, evidence, n))
  {
    if n > 0 {
      GainIsASum(ranked, evidence, d, n - 1);
      var before, all := HitRanks(ranked, evidence, n - 1), HitRanks(ranked, evidence, n);
      if ranked[n - 1] in evidence {
        assert all == before + {n};
        SumOverMore(d, before, n);
      } else {
        assert all == before;
      }
    }
  }

  lemma {:induction false} IdealIsASum(d: Discount, m: nat)
    ensures Ideal(d, m) == SumOver(d, FirstRanks(m))
  {
    if m > 0 {
      IdealIsASum(d, m - 1);
      SumOverMore(d, FirstRanks(m - 1), m);
    }
  }

  /** The score is the share of the first min(|evidence|, k) discounts that the hit ranks earn. */
  lemma NdcgIsTheShareEarned(ranked: seq<SessionId>, evidence: set<SessionId>, k: int, d: Discount)
    requires IsDiscount(d) && evidence != {} && k >= 1
    ensures SumOver(d, IdealRanks(evidence, k)) > 0.0
    ensures Ndcg(ranked, evidence, k, d) * SumOver(d, IdealRanks(evidence, k))
      == SumOver(d, HitRanks(ranked, evidence, k))
  {
    var top, m := Top(ranked, k), Depth(evidence, k);
    GainIsASum(top, evidence, d, |top|);
    HitsOfTop(ranked, evidence, k);
    IdealIsASum(d, m);
    IdealGrows(d, 0, m);
  }

  lemma HitsOfTop(ranked: seq<SessionId>, evidence: set<SessionId>, k: nat)
    ensures HitRanks(Top(ranked, k), evidence, |Top(ranked, k)|) == HitRanks(ranked, evidence, k)
  {
  }

  /** A relevant entry in place of an irrelevant one, at any rank of the cut, is worth that rank's discount. */
  lemma OneMoreHitEarnsItsDiscount(ranked: seq<SessionId>, evidence: set<SessionId>, k: int, d: Discount, r: nat,
                                   id: SessionId)
    requires IsDiscount(d) && 1 <= r <= |ranked| && r <= k && ranked[r - 1] !in evidence && id in evidence
    ensures Ndcg(ranked[r - 1 := id], evidence, k, d) * SumOver(d, IdealRanks(evidence, k))
      == Ndcg(ranked, evidence, k, d) * SumOver(d, IdealRanks(evidence, k)) + d(r)
  {
    OneMoreHit(ranked, evidence, k, r, id);
    HitIsWorthItsDiscount(ranked, ranked[r - 1 := id], evidence, k, d, r);
  }

  lemma HitIsWorthItsDiscount(ranked: seq<SessionId>, better: seq<SessionId>, evidence: set<SessionId>, k: int,
                              d: Discount, r: nat)
    requires IsDiscount(d) && evidence != {} && k >= 1
    requires r !in HitRanks(ranked, evidence, k)
    requires HitRanks(better, evidence, k) == HitRanks(ranked, evidence, k) + {r}
    ensures Ndcg(better, evidence, k, d) * SumOver(d, IdealRanks(evidence, k))
      == Ndcg(ranked, evidence, k, d) * SumOver(d, IdealRanks(evidence, k)) + d(r)
  {
    NdcgIsTheShareEarned(ranked, evidence, k, d);
    NdcgIsTheShareEarned(better, evidence, k, d);
    SumOverMore(d, HitRanks(ranked, evidence, k), r);
  }

  lemma OneMoreHit(ranked: seq<SessionId>, evidence: set<SessionId>, k: int, r: nat, id: SessionId)
    requires 1 <= r <= |ranked| && r <= k && ranked[r - 1] !in evidence && id in evidence
    ensures HitRanks(ranked[r - 1 := id], evidence, k) == HitRanks(ranked, evidence, k) + {r}
  {
  }

  // ---------------------------------------------------------------- the bound

  lemma {:induction false} IdealGrows(d: Discount, m: nat, n: nat)
    requires IsDiscount(d) && m <= n
    ensures 0.0 <= Ideal(d, m) <= Ideal(d, n)
    ensures m < n ==> Ideal(d, m) < Ideal(d, n)
    decreases n
  {
    if m < n {
      IdealGrows(d, m, n - 1);
    } else if m > 0 {
      IdealGrows(d, m - 1, m - 1);
    }
  }

  predicate AllRelevant(ranked: seq<SessionId>, evidence: set<SessionId>, m: nat) {
    m <= |ranked| && forall i :: 0 <= i < m ==> ranked[i] in evidence
  }

  /** The exchange argument: moving every hit to the front can only gain, and gains nothing exactly when
      they are there already. */
  lemma {:induction false} HitsAreBestInFront(ranked: seq<SessionId>, evidence: set<SessionId>, d: Discount, n: nat)
    requires IsDiscount(d) && n <= |ranked|
    ensures 0.0 <= Gain(ranked, evidence, d, n) <= Ideal(d, Hits(ranked, evidence, n))
    ensures Gain(ranked, evidence, d, n) == Ideal(d, Hits(ranked, evidence, n)) <==>
      AllRelevant(ranked, evidence, Hits(ranked, evidence, n))
  {
    if n > 0 {
      HitsAreBestInFront(ranked, evidence, d, n - 1);
      var h := Hits(ranked, evidence, n - 1);
      if ranked[n - 1] in evidence {
        if h < n - 1 {
          assert d(h + 1) > d(n);
          if AllRelevant(ranked, evidence, h + 1) {
            FrontCounts(ranked, evidence, h + 1, n - 1);
          }
        }
      }
    }
  }

  /** `m` relevant entries in front are `m` hits. */
  lemma {:induction false} FrontCounts(ranked: seq<SessionId>, evidence: set<SessionId>, m: nat, n: nat)
    requires m <= n <= |ranked| && AllRelevant(ranked, evidence, m)
    ensures Hits(ranked, evidence, n) >= m
    decreases n
  {
    if n > m {
      FrontCounts(ranked, evidence, m, n - 1);
    } else if n > 0 {
      FrontCounts(ranked, evidence, m - 1, n - 1);
    }
  }

  lemma {:induction false} DistinctHits(ids: seq<SessionId>, evidence: set<SessionId>)
    requires Distinct(ids)
    ensures Hits(ids, evidence, |ids|) == Found(ids, evidence)
  {
    if ids != [] {
      var n := |ids| - 1;
      DistinctHits(ids[..n], evidence);
      HitsOfPrefix(ids, evidence, n, n);
      LastIsNew(ids);
      FoundMore(ids[..n], ids[n], evidence);
    }
  }

  function Found(ids: seq<SessionId>, evidence: set<SessionId>): nat {
    |Elements(ids) * evidence|
  }

  lemma LastIsNew(ids: seq<SessionId>)
    requires Distinct(ids) && ids != []
    ensures var n := |ids| - 1; ids == ids[..n] + [ids[n]] && ids[n] !in ids[..n]
  {
  }

  lemma {:induction false} HitsOfPrefix(ids: seq<SessionId>, evidence: set<SessionId>, m: nat, n: nat)
    requires n <= m <= |ids|
    ensures Hits(ids[..m], evidence, n) == Hits(ids, evidence, n)
  {
    if n > 0 {
      HitsOfPrefix(ids, evidence, m, n - 1);
    }
  }

  lemma FoundMore(ids: seq<SessionId>, id: SessionId, evidence: set<SessionId>)
    requires id !in ids
    ensures Found(ids + [id], evidence) == Found(ids, evidence) + if id in evidence then 1 else 0
  {
    ElementsOfMore(ids, id);
    OneMore(Elements(ids), id, evidence);
  }

  lemma OneMore(seen: set<SessionId>, id: SessionId, evidence: set<SessionId>)
    requires id !in seen
    ensures |(seen + {id}) * evidence| == |seen * evidence| + if id in evidence then 1 else 0
  {
    assert (seen + {id}) * evidence == if id in evidence then seen * evidence + {id} else seen * evidence;
  }

  /** Whenever the top k holds no more hits than there is evidence, nDCG@k is in [0, 1], and it is 1
      exactly when the first min(|evidence|, k) ranks are all relevant. */
  lemma BoundFromHits(ranked: seq<SessionId>, evidence: set<SessionId>, k: int, d: Discount)
    requires IsDiscount(d) && k >= 1 && evidence != {}
    requires Hits(Top(ranked, k), evidence, |Top(ranked, k)|) <= |evidence|
    ensures 0.0 <= Ndcg(ranked, evidence, k, d) <= 1.0
    ensures Ndcg(ranked, evidence, k, d) == 1.0 <==> AllRelevant(ranked, evidence, Depth(evidence, k))
  {
    var top := Top(ranked, k);
    var h := Hits(top, evidence, |top|);
    var m := Depth(evidence, k);
    HitsAreBestInFront(top, evidence, d, |top|);
    IdealGrows(d, h, m);
    IdealGrows(d, 0, m);
    Ratio(Gain(top, evidence, d, |top|), Ideal(d, m));
    if AllRelevant(ranked, evidence, m) {
      FrontCounts(top, evidence, m, |top|);
    }
  }

  lemma Ratio(x: real, y: real)
    requires 0.0 <= x && 0.0 < y
    ensures 0.0 <= x / y && (x / y <= 1.0 <==> x <= y) && (x / y == 1.0 <==> x == y)
  {
    var q := x / y;
    assert q * y == x;
    Scaled(q, 0.0, y);
    Scaled(1.0, q, y);
    Scaled(q, 1.0, y);
  }

  /** For every ranked list without repeated ids and every k. */
  lemma NdcgIsARatio(ranked: seq<SessionId>, evidence: set<SessionId>, k: int, d: Discount)
    requires IsDiscount(d) && Distinct(ranked)
    ensures 0.0 <= Ndcg(ranked, evidence, k, d) <= 1.0
    ensures k >= 1 && evidence != {} ==>
      (Ndcg(ranked, evidence, k, d) == 1.0 <==> AllRelevant(ranked, evidence, Depth(evidence, k)))
    ensures k <= 0 || evidence == {} ==> Ndcg(ranked, evidence, k, d) == 0.0
  {
    if k >= 1 && evidence != {} {
      var top := Top(ranked, k);
      DistinctHits(top, evidence);
      SubsetSize(Elements(top) * evidence, evidence);
      BoundFromHits(ranked, evidence, k, d);
    }
  }

  // ---------------------------------------------------------------- repeated ids

  /** A discount that hardly falls. */
  function Flat(n: nat): Discount {
    (r: nat) => 1.0 + 1.0 / ((n + 1) * (r + 1)) as real
  }

  lemma FlatIsADiscount(n: nat)
    ensures IsDiscount(Flat(n))
    ensures forall r: nat :: r >= 1 ==> 1.0 < Flat(n)(r) <= 1.0 + 1.0 / (n + 1) as real
  {
    forall i: nat, j: nat | i < j ensures Flat(n)(i) > Flat(n)(j) > 1.0 {
      Steeper(n + 1, i + 1, j + 1);
    }
    forall r: nat | r >= 1 ensures 1.0 < Flat(n)(r) <= 1.0 + 1.0 / (n + 1) as real {
      Steeper(n + 1, 1, r + 1);
    }
  }

  lemma Steeper(n: nat, i: nat, j: nat)
    requires n >= 1 && 1 <= i < j
    ensures 1.0 / (n * i) as real > 1.0 / (n * j) as real > 0.0
  {
    assert n * i < n * j;
    Inverse((n * i) as real, (n * j) as real);
  }

  lemma Inverse(x: real, y: real)
    requires 0.0 < x < y
    ensures 1.0 / x > 1.0 / y > 0.0
  {
    var a, b := 1.0 / x, 1.0 / y;
    assert a * x == 1.0 && b * y == 1.0;
    Scaled(0.0, b, y);
    Scaled(b, a, x);
    assert b * (y - x) > 0.0;
  }

  lemma {:induction false} FlatGain(ranked: seq<SessionId>, evidence: set<SessionId>, n: nat, c: nat)
    requires n <= |ranked|
    ensures Gain(ranked, evidence, Flat(c), n) >= Hits(ranked, evidence, n) as real
  {
    FlatIsADiscount(c);
    if n > 0 { FlatGain(ranked, evidence, n - 1, c); }
  }

  lemma {:induction false} FlatIdeal(m: nat, c: nat)
    ensures Ideal(Flat(c), m) <= m as real * (1.0 + 1.0 / (c + 1) as real)
  {
    FlatIsADiscount(c);
    if m > 0 {
      FlatIdeal(m - 1, c);
      var u := 1.0 + 1.0 / (c + 1) as real;
      assert m as real * u == (m - 1) as real * u + u;
    }
  }

  /** Repeats are what breaks the bound: it holds for every discount exactly when the top k does not hit
      more often than there is evidence. */
  lemma BoundedIffHitsWithinEvidence(ranked: seq<SessionId>, evidence: set<SessionId>, k: int)
    requires k >= 1 && evidence != {}
    ensures (forall d: Discount :: IsDiscount(d) ==> Ndcg(ranked, evidence, k, d) <= 1.0)
      <==> Hits(Top(ranked, k), evidence, |Top(ranked, k)|) <= |evidence|
  {
    var top, c := Top(ranked, k), |evidence|;
    if Hits(top, evidence, |top|) <= c {
      forall d: Discount | IsDiscount(d) ensures Ndcg(ranked, evidence, k, d) <= 1.0 {
        BoundFromHits(ranked, evidence, k, d);
      }
    } else {
      ManyHitsExceed(ranked, evidence, k);
      FlatIsADiscount(|evidence|);
    }
  }

  lemma ManyHitsExceed(ranked: seq<SessionId>, evidence: set<SessionId>, k: int)
    requires k >= 1 && evidence != {} && Hits(Top(ranked, k), evidence, |Top(ranked, k)|) > |evidence|
    ensures Ndcg(ranked, evidence, k, Flat(|evidence|)) > 1.0
  {
    var top, c := Top(ranked, k), |evidence|;
    FlatGain(top, evidence, |top|, c);
    FlatIdealIsSmall(c);
    Ratio(Gain(top, evidence, Flat(c), |top|), Ideal(Flat(c), c));
  }

  lemma FlatIdealIsSmall(c: nat)
    requires c >= 1
    ensures 0.0 < Ideal(Flat(c), c) < c as real + 1.0
  {
    FlatIsADiscount(c);
    IdealGrows(Flat(c), 0, c);
    FlatIdeal(c, c);
    UnitFraction(c);
    Almost(c as real, 1.0 / (c + 1) as real);
  }

  lemma UnitFraction(c: nat)
    ensures 1.0 / (c + 1) as real * (c as real + 1.0) == 1.0
  {
    var n := (c + 1) as real;
    assert n == c as real + 1.0;
  }

  lemma Almost(c: real, u: real)
    requires c >= 1.0 && u * (c + 1.0) == 1.0
    ensures c * (1.0 + u) < c + 1.0
  {
    Scaled(0.0, u, c + 1.0);
  }

  /** Under every discount, one relevant session returned twice in front scores above 1. */
  lemma RepeatedIdScoresAboveOne(id: SessionId, d: Discount)
    requires IsDiscount(d)
    ensures Ndcg([id, id], {id}, 2, d) > 1.0
  {
    var ranked := [id, id];
    assert Top(ranked, 2) == ranked;
    assert Gain(ranked, {id}, d, 1) == d(1);
    assert Gain(ranked, {id}, d, 2) == d(1) + d(2);
    assert Ideal(d, 1) == d(1);
    assert Depth({id}, 2) == 1;
    Ratio(d(1) + d(2), d(1));
  }
}
