/** The benchmark scorecard: latency normalisation, weight loading and the composite score.
    Floats are reals. */
module Scorecard {
  import opened Sequences
  import opened Rows
  import opened Text

  predicate Percent(x: real) { 0.0 <= x <= 100.0 }

  // ---------------------------------------------------------------- latency

  function NormalizeOpScore(pct: real): real {
    if pct <= 1.0 then 100.0
    else if pct <= 1.5 then 100.0 - 25.0 * (pct - 1.0) / 0.5
    else if pct >= 3.0 then 0.0
    else 75.0 - 75.0 * (pct - 1.5) / 1.5
  }

  /** The four pieces are one line, clamped to [0, 100]: continuous, never rising, and falling by at most
      50 points for a unit of latency ratio. */
  lemma NormalizationIsOneClampedLine(p: real, q: real)
    requires p <= q
    ensures NormalizeOpScore(p) == (if p <= 1.0 then 100.0 else if p >= 3.0 then 0.0 else 150.0 - 50.0 * p)
    ensures Percent(NormalizeOpScore(p))
    ensures 0.0 <= NormalizeOpScore(p) - NormalizeOpScore(q) <= 50.0 * (q - p)
  {
  }

  datatype Bench = Bench(name: string, mean: Option<real>)
  datatype Entry = Entry(key: string, value: real)

  function Last(name: string, n: nat): string
    requires n <= |name|
  {
    name[|name| - n..]
  }

  ghost predicate Names(name: string, key: string) {
    (|key| <= |name| && Last(name, |key|) == key) || Contains(name, key)
  }

  /** The first baseline whose key names the benchmark. */
  ghost function Baseline(name: string, baselines: seq<Entry>): Option<real> {
    if baselines == [] then None
    else if Names(name, baselines[0].key) then Some(baselines[0].value)
    else Baseline(name, baselines[1..])
  }

  /** The key that matched is the first in the file that ends or occurs in the name. */
  lemma {:induction false} BaselineIsTheFirstNamed(name: string, baselines: seq<Entry>, i: nat)
    requires i < |baselines| && Contains(name, baselines[i].key)
    requires forall j :: 0 <= j < i ==> !Contains(name, baselines[j].key)
    ensures Baseline(name, baselines) == Some(baselines[i].value)
  {
    if i > 0 {
      var key := baselines[0].key;
      if |key| <= |name| && Last(name, |key|) == key {
        assert OccursAt(name, key, |name| - |key|);
      }
      BaselineIsTheFirstNamed(name, baselines[1..], i - 1);
    }
  }

  ghost predicate Counts(b: Bench, baselines: seq<Entry>) {
    b.mean.Some? && Baseline(b.name, baselines).Some?
  }

  ghost function OpScore(b: Bench, baselines: seq<Entry>): real
    requires Counts(b, baselines)
  {
    var base := Baseline(b.name, baselines).value;
    if base == 0.0 then 0.0 else NormalizeOpScore(b.mean.value / base)
  }

  /** An operation as fast as its baseline or faster scores 100, one three times as slow 0, and in between a
      point is lost for every fiftieth part of the baseline. */
  lemma OpScoreOfLatency(b: Bench, baselines: seq<Entry>)
    requires Counts(b, baselines) && Baseline(b.name, baselines).value > 0.0
    ensures var mean, base := b.mean.value, Baseline(b.name, baselines).value;
      && (mean <= base ==> OpScore(b, baselines) == 100.0)
      && (mean >= 3.0 * base ==> OpScore(b, baselines) == 0.0)
      && (base < mean < 3.0 * base ==> OpScore(b, baselines) * base == 150.0 * base - 50.0 * mean)
  {
    var mean, base := b.mean.value, Baseline(b.name, baselines).value;
    assert mean / base * base == mean;
    ScoreOfRatio(mean / base, mean, base);
  }

  lemma ScoreOfRatio(pct: real, mean: real, base: real)
    requires base > 0.0 && pct * base == mean
    ensures mean <= base ==> NormalizeOpScore(pct) == 100.0
    ensures mean >= 3.0 * base ==> NormalizeOpScore(pct) == 0.0
    ensures base < mean < 3.0 * base ==> NormalizeOpScore(pct) * base == 150.0 * base - 50.0 * mean
  {
    NormalizationIsOneClampedLine(pct, pct);
    RatioAgainst(pct, 1.0, base);
    RatioAgainst(pct, 3.0, base);
    assert (150.0 - 50.0 * pct) * base == 150.0 * base - 50.0 * (pct * base);
  }

  lemma RatioAgainst(pct: real, bound: real, base: real)
    requires base > 0.0
    ensures pct <= bound <==> pct * base <= bound * base
    ensures pct >= bound <==> pct * base >= bound * base
  {
    assert (bound - pct) * base == bound * base - pct * base;
  }

  /** The scores of the operations that have a mean and a baseline, in order. */
  ghost function OpScores(benches: seq<Bench>, baselines: seq<Entry>): seq<real> {
    if benches == [] then []
    else
      var b := benches[|benches| - 1];
      OpScores(benches[..|benches| - 1], baselines) + if Counts(b, baselines) then [OpScore(b, baselines)] else []
  }

  /** One score for each operation that counts, in the order of the file. */
  lemma {:induction false} OpScoresAreTheCounted(benches: seq<Bench>, baselines: seq<Entry>) returns (at: seq<int>)
    ensures Ascending(at) && forall i :: i in at <==> 0 <= i < |benches| && Counts(benches[i], baselines)
    ensures |OpScores(benches, baselines)| == |at|
    ensures forall k :: 0 <= k < |at| ==>
      at[k] in at && OpScores(benches, baselines)[k] == OpScore(benches[at[k]], baselines)
  {
    at := [];
    if benches != [] {
      var n := |benches| - 1;
      at := OpScoresAreTheCounted(benches[..n], baselines);
      if Counts(benches[n], baselines) {
        at := at + [n];
      }
    }
  }

  ghost predicate DividesByZero(benches: seq<Bench>, baselines: seq<Entry>) {
    exists i :: 0 <= i < |benches| && Counts(benches[i], baselines) && Baseline(benches[i].name, baselines) == Some(0.0)
  }

  ghost function PerOp(benches: seq<Bench>, baselines: seq<Entry>): map<string, real> {
    if benches == [] then map[]
    else
      var b := benches[|benches| - 1];
      var front := PerOp(benches[..|benches| - 1], baselines);
      if Counts(b, baselines) then front[b.name := OpScore(b, baselines)] else front
  }

  ghost predicate LastScore(benches: seq<Bench>, baselines: seq<Entry>, name: string, i: int) {
    && 0 <= i < |benches| && benches[i].name == name && Counts(benches[i], baselines)
    && forall j :: i < j < |benches| && benches[j].name == name ==> !Counts(benches[j], baselines)
  }

  /** The per-operation table has exactly the names that were scored, each with its last score. */
  lemma {:induction false} PerOpHoldsLastScores(benches: seq<Bench>, baselines: seq<Entry>, name: string)
    ensures name in PerOp(benches, baselines) <==> exists i :: LastScore(benches, baselines, name, i)
    ensures forall i :: LastScore(benches, baselines, name, i) ==>
      name in PerOp(benches, baselines) && PerOp(benches, baselines)[name] == OpScore(benches[i], baselines)
  {
    if benches != [] {
      var n := |benches| - 1;
      var front := benches[..n];
      PerOpHoldsLastScores(front, baselines, name);
      if Counts(benches[n], baselines) && benches[n].name == name {
        assert LastScore(benches, baselines, name, n);
      } else {
        forall i ensures LastScore(benches, baselines, name, i) <==> LastScore(front, baselines, name, i) {
          assert 0 <= i < n ==> front[i] == benches[i] && forall j :: i < j < n ==> front[j] == benches[j];
        }
      }
    }
  }

  function Sum(xs: seq<real>): real {
    if xs == [] then 0.0 else Sum(xs[..|xs| - 1]) + xs[|xs| - 1]
  }

  datatype PerformanceScore = PerformanceScore(score: Option<real>, perOp: map<string, real>)

  method FindBaseline(name: string, baselines: seq<Entry>) returns (r: Option<real>)
    ensures r == Baseline(name, baselines)
  {
    for i := 0 to |baselines|
      invariant Baseline(name, baselines) == Baseline(name, baselines[i..])
    {
      var key := baselines[i].key;
      if (|key| <= |name| && Last(name, |key|) == key) || Contains(name, key) {
        return Some(baselines[i].value);
      }
    }
    return None;
  }

  /** None stands for a missing file; a baseline of zero is the one input that raises. */
  method ComputePerformance(perf: Option<seq<Bench>>, baselines: Option<seq<Entry>>)
    returns (r: Reply<PerformanceScore>)
    ensures baselines.None? || perf.None? ==> r == Returned(PerformanceScore(None, map[]))
    ensures baselines.Some? && perf.Some? ==>
      var scores := OpScores(perf.value, baselines.value);
      && (DividesByZero(perf.value, baselines.value) <==> r.Raised?)
      && (r.Raised? <==> exists i ::
            && 0 <= i < |perf.value| && Counts(perf.value[i], baselines.value)
            && Baseline(perf.value[i].name, baselines.value).value == 0.0)
      && (r.Raised? ==> r == Raised(DivisionByZero))
      && (r.Returned? ==> r.value.score == if scores == [] then None else Some(Sum(scores) / |scores| as real))
      && (r.Returned? ==> r.value.perOp == if scores == [] then map[] else PerOp(perf.value, baselines.value))
  {
    if baselines.None? {
      return Returned(PerformanceScore(None, map[]));
    }
    if perf.None? {
      return Returned(PerformanceScore(None, map[]));
    }
    var benches := perf.value;
    var perOp: map<string, real> := map[];
    var opScores: seq<real> := [];
    for i := 0 to |benches|
      invariant opScores == OpScores(benches[..i], baselines.value)
      invariant !DividesByZero(benches[..i], baselines.value)
      invariant perOp == PerOp(benches[..i], baselines.value)
    {
      assert benches[..i + 1][..i] == benches[..i];
      var b := benches[i];
      if b.mean.None? {
        continue;
      }
      var baseline := FindBaseline(b.name, baselines.value);
      if baseline.None? {
        continue;
      }
      if baseline.value == 0.0 {
        return Raised(DivisionByZero);
      }
      var opScore := NormalizeOpScore(b.mean.value / baseline.value);
      perOp := perOp[b.name := opScore];
      opScores := opScores + [opScore];
    }
    assert benches[..|benches|] == benches;
    if opScores == [] {
      return Returned(PerformanceScore(None, map[]));
    }
    return Returned(PerformanceScore(Some(Sum(opScores) / |opScores| as real), perOp));
  }

  /** The same benchmarks, none of them faster. */
  ghost predicate Slower(fast: seq<Bench>, slow: seq<Bench>) {
    && |slow| == |fast|
    && forall i :: 0 <= i < |fast| ==>
         && slow[i].name == fast[i].name && (slow[i].mean.Some? <==> fast[i].mean.Some?)
         && (fast[i].mean.Some? ==> slow[i].mean.value >= fast[i].mean.value)
  }

  /** A latency is not negative, or its baseline is positive. */
  ghost predicate Timed(benches: seq<Bench>, baselines: seq<Entry>) {
    forall i :: 0 <= i < |benches| && Counts(benches[i], baselines) ==>
      benches[i].mean.value >= 0.0 || Baseline(benches[i].name, baselines).value > 0.0
  }

  lemma {:induction false} ScoresArePercentages(benches: seq<Bench>, baselines: seq<Entry>)
    ensures var scores := OpScores(benches, baselines); 0.0 <= Sum(scores) <= 100.0 * |scores| as real
  {
    if benches != [] {
      var n := |benches| - 1;
      ScoresArePercentages(benches[..n], baselines);
      var front := OpScores(benches[..n], baselines);
      if Counts(benches[n], baselines) {
        OpScoreIsPercentage(benches[n], baselines);
        SumOfMore(front, OpScore(benches[n], baselines));
        assert OpScores(benches, baselines) == front + [OpScore(benches[n], baselines)];
      } else {
        assert OpScores(benches, baselines) == front;
      }
    }
  }

  lemma OpScoreIsPercentage(b: Bench, baselines: seq<Entry>)
    requires Counts(b, baselines)
    ensures Percent(OpScore(b, baselines))
  {
    var base := Baseline(b.name, baselines).value;
    if base != 0.0 {
      NormalizationIsOneClampedLine(b.mean.value / base, b.mean.value / base);
    }
  }

  /** Raising any latency raises no operation's score and matches the same operations. */
  lemma {:induction false} SlowerScoresNoHigher(fast: seq<Bench>, slow: seq<Bench>, baselines: seq<Entry>)
    requires Slower(fast, slow) && Timed(fast, baselines)
    ensures NoneHigher(OpScores(slow, baselines), OpScores(fast, baselines))
    decreases |fast|
  {
    if fast != [] {
      var n := |fast| - 1;
      SlowerScoresNoHigher(fast[..n], slow[..n], baselines);
      SlowerOne(fast, slow, baselines, n);
      NextScore(fast, baselines);
      NextScore(slow, baselines);
    }
  }

  lemma SlowerOne(fast: seq<Bench>, slow: seq<Bench>, baselines: seq<Entry>, i: nat)
    requires Slower(fast, slow) && Timed(fast, baselines) && i < |fast|
    ensures NoneHigher(ScoreOf(slow[i], baselines), ScoreOf(fast[i], baselines))
  {
    SlowerBench(fast[i], slow[i], baselines);
  }

  ghost predicate NoneHigher(low: seq<real>, high: seq<real>) {
    |low| == |high| && forall i :: 0 <= i < |low| ==> low[i] <= high[i]
  }

  ghost function ScoreOf(b: Bench, baselines: seq<Entry>): seq<real> {
    if Counts(b, baselines) then [OpScore(b, baselines)] else []
  }

  lemma NextScore(benches: seq<Bench>, baselines: seq<Entry>)
    requires benches != []
    ensures var n := |benches| - 1;
      OpScores(benches, baselines) == OpScores(benches[..n], baselines) + ScoreOf(benches[n], baselines)
  {
  }

  lemma SlowerBench(fast: Bench, slow: Bench, baselines: seq<Entry>)
    requires Slower([fast], [slow]) && Timed([fast], baselines)
    ensures NoneHigher(ScoreOf(slow, baselines), ScoreOf(fast, baselines))
  {
    assert [fast][0] == fast && [slow][0] == slow;
    if Counts(fast, baselines) {
      var base := Baseline(fast.name, baselines).value;
      if base != 0.0 {
        SlowerOperation(fast.mean.value, slow.mean.value, base);
      }
    }
  }

  lemma {:induction false} SumsOrdered(low: seq<real>, high: seq<real>)
    requires NoneHigher(low, high)
    ensures Sum(low) <= Sum(high)
  {
    if low != [] {
      SumsOrdered(low[..|low| - 1], high[..|high| - 1]);
    }
  }

  lemma SumOfMore(xs: seq<real>, x: real)
    ensures Sum(xs + [x]) == Sum(xs) + x
  {
    assert (xs + [x])[..|xs|] == xs;
  }

  lemma SlowerOperation(fast: real, slow: real, base: real)
    requires fast <= slow && base != 0.0 && (base > 0.0 || fast >= 0.0)
    ensures 0.0 <= NormalizeOpScore(slow / base) <= NormalizeOpScore(fast / base) <= 100.0
  {
    NormalizationIsOneClampedLine(slow / base, slow / base);
    if base > 0.0 {
      DivisionKeepsOrder(fast, slow, base);
      NormalizationIsOneClampedLine(fast / base, slow / base);
    } else {
      NotPositive(fast, base);
      NotPositive(slow, base);
    }
  }

  /** A negative baseline gives every latency the full score. */
  lemma NotPositive(x: real, n: real)
    requires x >= 0.0 && n < 0.0
    ensures x / n <= 0.0
  {
    var q := x / n;
    assert q * n == x;
    SignOf(-q, -n, 1.0, x);
  }

  lemma DivisionKeepsOrder(x: real, y: real, n: real)
    requires x <= y && n > 0.0
    ensures x / n <= y / n
  {
    var a, b := x / n, y / n;
    assert a * n == x && b * n == y;
    assert (b - a) * n == y - x;
  }

  /** The performance score: in [0, 100], and no higher for a slower run. */
  lemma PerformanceIsMonotone(fast: seq<Bench>, slow: seq<Bench>, baselines: seq<Entry>)
    requires Slower(fast, slow) && Timed(fast, baselines) && OpScores(fast, baselines) != []
    ensures var f, s := OpScores(fast, baselines), OpScores(slow, baselines);
      && |s| == |f| && 0.0 <= Sum(s) / |s| as real <= Sum(f) / |f| as real <= 100.0
  {
    var f, s := OpScores(fast, baselines), OpScores(slow, baselines);
    SlowerScoresNoHigher(fast, slow, baselines);
    SumsOrdered(s, f);
    ScoresArePercentages(fast, baselines);
    ScoresArePercentages(slow, baselines);
    Means(Sum(s), Sum(f), |f| as real);
  }

  lemma Means(low: real, high: real, n: real)
    requires n > 0.0 && 0.0 <= low <= high <= 100.0 * n
    ensures 0.0 <= low / n <= high / n <= 100.0
  {
    DivisionKeepsOrder(0.0, low, n);
    DivisionKeepsOrder(low, high, n);
    DivisionKeepsOrder(high, 100.0 * n, n);
    assert 100.0 * n / n == 100.0;
  }

  // ---------------------------------------------------------------- weights

  const REQUIRED: set<string> := {"performance", "retrieval_accuracy", "agent_quality"}

  ghost predicate DistinctKeys(w: seq<Entry>) {
    forall i, j :: 0 <= i < j < |w| ==> w[i].key != w[j].key
  }

  function Total(w: seq<Entry>): real {
    if w == [] then 0.0 else Total(w[..|w| - 1]) + w[|w| - 1].value
  }

  function Weight(w: seq<Entry>, key: string): real {
    if w == [] then 0.0
    else if w[|w| - 1].key == key then w[|w| - 1].value
    else Weight(w[..|w| - 1], key)
  }

  predicate Has(w: seq<Entry>, key: string) {
    exists i :: 0 <= i < |w| && w[i].key == key
  }

  predicate Accepted(w: seq<Entry>) {
    && (forall key :: key in REQUIRED ==> Has(w, key))
    && 0.999 <= Total(w) <= 1.001
  }

  /** `_load_weights` after parsing. */
  method LoadWeights(w: seq<Entry>) returns (r: Reply<seq<Entry>>)
    ensures r == if Accepted(w) then Returned(w) else Raised(BadArgument)
    ensures r.Returned? <==>
      && {"performance", "retrieval_accuracy", "agent_quality"} <= (set e | e in w :: e.key)
      && -0.001 <= Total(w) - 1.0 <= 0.001
  {
    var keys := set i | 0 <= i < |w| :: w[i].key;
    assert keys == set e | e in w :: e.key by {
      forall e | e in w ensures e.key in keys {
        var i :| 0 <= i < |w| && w[i] == e;
      }
    }
    var missing := REQUIRED - keys;
    if missing != {} {
      var key :| key in missing;
      assert !Has(w, key);
      return Raised(BadArgument);
    }
    forall key | key in REQUIRED ensures Has(w, key) {
      assert key !in missing;
      assert key in keys;
    }
    var total := 0.0;
    for i := 0 to |w|
      invariant total == Total(w[..i])
    {
      assert w[..i + 1][..i] == w[..i];
      total := total + w[i].value;
    }
    assert w[..|w|] == w;
    var off := if total - 1.0 < 0.0 then 1.0 - total else total - 1.0;
    if off > 0.001 {
      return Raised(BadArgument);
    }
    return Returned(w);
  }

  predicate NonNegative(w: seq<Entry>) {
    forall i :: 0 <= i < |w| ==> w[i].value >= 0.0
  }

  /** What the scorecard reads of the weights is at most their total. */
  lemma {:induction false} ThreeWithinTotal(w: seq<Entry>)
    requires DistinctKeys(w) && NonNegative(w)
    ensures forall key :: Weight(w, key) >= 0.0
    ensures Weight(w, "performance") + Weight(w, "retrieval_accuracy") + Weight(w, "agent_quality") <= Total(w)
  {
    if w != [] {
      var n := |w| - 1;
      ThreeWithinTotal(w[..n]);
      NoWeightWithoutKey(w[..n], w[n].key);
    }
  }

  lemma {:induction false} NoWeightWithoutKey(w: seq<Entry>, key: string)
    requires forall i :: 0 <= i < |w| ==> w[i].key != key
    ensures Weight(w, key) == 0.0
  {
    if w != [] {
      NoWeightWithoutKey(w[..|w| - 1], key);
    }
  }

  lemma {:induction false} WeightOfKey(w: seq<Entry>, i: nat)
    requires DistinctKeys(w) && i < |w|
    ensures Weight(w, w[i].key) == w[i].value
  {
    var n := |w| - 1;
    if i < n {
      WeightOfKey(w[..n], i);
    }
  }

  // ---------------------------------------------------------------- the composite

  datatype RetrievalScore = RetrievalScore(det: Option<real>, judged: Option<real>)

  datatype Quality = Quality(pass1: real, groundedness: real, coherence: real, fluency: real)

  /** `None` for the file, or for a file without the key. */
  function ComputeRetrieval(recall: Option<real>, accuracy: Option<real>): RetrievalScore {
    RetrievalScore(if recall.Some? then Some(recall.value * 100.0) else None, accuracy)
  }

  function ComputeAgentQuality(agq: Option<Quality>): Option<real> {
    if agq.None? then None
    else
      var q := agq.value;
      Some((q.pass1 * 100.0 + q.groundedness * 20.0 + q.coherence * 20.0 + q.fluency * 20.0) / 4.0)
  }

  /** The four terms count alike: a whole pass rate is worth 25 points, a Likert point of any of the three 5. */
  lemma QualityTermsCountAlike(q: Quality, more: real)
    ensures var score := (q: Quality) => ComputeAgentQuality(Some(q)).value;
      && score(q.(pass1 := q.pass1 + more)) == score(q) + 25.0 * more
      && score(q.(groundedness := q.groundedness + more)) == score(q) + 5.0 * more
      && score(q.(coherence := q.coherence + more)) == score(q) + 5.0 * more
      && score(q.(fluency := q.fluency + more)) == score(q) + 5.0 * more
    ensures ComputeAgentQuality(Some(Quality(1.0, 5.0, 5.0, 5.0))) == Some(100.0)
  {
  }

  datatype Mode = Full | Partial | Incomplete
  datatype Scores = Scores(mbs: Option<real>, partial: Option<real>, mode: Mode)

  /** What a run's performance score is, when no baseline is zero. */
  ghost function PerformanceOf(benches: seq<Bench>, baselines: seq<Entry>): Option<real> {
    var scores := OpScores(benches, baselines);
    if scores == [] then None else Some(Sum(scores) / |scores| as real)
  }

  function Mbs(perf: Option<real>, retrieval: RetrievalScore, quality: Option<real>, w: seq<Entry>): Option<real> {
    if perf.Some? && retrieval.det.Some? && retrieval.judged.Some? && quality.Some? then
      Some(Composite(perf.value, 0.5 * retrieval.det.value + 0.5 * retrieval.judged.value, quality.value, w))
    else None
  }

  function PartialMbs(perf: Option<real>, retrieval: RetrievalScore, w: seq<Entry>): Option<real> {
    var total := Weight(w, "performance") + Weight(w, "retrieval_accuracy");
    if perf.Some? && retrieval.det.Some? && retrieval.judged.None? && total > 0.0 then
      Some(Blend(Weight(w, "performance") / total, perf.value,
                 Weight(w, "retrieval_accuracy") / total, retrieval.det.value))
    else None
  }

  function Blend(a: real, x: real, b: real, y: real): real {
    a * x + b * y
  }

  method ComputeScorecard(perf: Option<seq<Bench>>, baselines: Option<seq<Entry>>, recall: Option<real>,
                          accuracy: Option<real>,
                          agq: Option<Quality>, w: seq<Entry>) returns (r: Reply<Scores>)
    ensures baselines.Some? && perf.Some? && DividesByZero(perf.value, baselines.value) <==> r.Raised?
    ensures r.Returned? ==>
      var scores := if baselines.Some? && perf.Some? then OpScores(perf.value, baselines.value) else [];
      var p := if scores == [] then None else Some(Sum(scores) / |scores| as real);
      && r.value.mbs == Mbs(p, ComputeRetrieval(recall, accuracy), ComputeAgentQuality(agq), w)
      && r.value.partial == PartialMbs(p, ComputeRetrieval(recall, accuracy), w)
      && !(r.value.mbs.Some? && r.value.partial.Some?)
      && (r.value.mode == Full <==> r.value.mbs.Some?) && (r.value.mode == Partial <==> r.value.partial.Some?)
  {
    var scored := ComputePerformance(perf, baselines);
    if scored.Raised? {
      return Raised(scored.error);
    }
    var p := scored.value.score;
    assert p == if baselines.Some? && perf.Some? then PerformanceOf(perf.value, baselines.value) else None;
    var retrieval := ComputeRetrieval(recall, accuracy);
    var quality := ComputeAgentQuality(agq);
    var wp, wr, wa := Weight(w, "performance"), Weight(w, "retrieval_accuracy"), Weight(w, "agent_quality");
    var mbs, partial := None, None;
    if p.Some? && retrieval.det.Some? && retrieval.judged.Some? && quality.Some? {
      var full := 0.5 * retrieval.det.value + 0.5 * retrieval.judged.value;
      mbs := Some(wp * p.value + wr * full + wa * quality.value);
      assert mbs.value == Composite(p.value, full, quality.value, w);
    }
    assert mbs == Mbs(p, retrieval, quality, w);
    if p.Some? && retrieval.det.Some? && retrieval.judged.None? {
      var total := wp + wr;
      if total > 0.0 {
        partial := Some(Blend(wp / total, p.value, wr / total, retrieval.det.value));
      }
    }
    assert partial == PartialMbs(p, retrieval, w);
    return Returned(Scores(mbs, partial, if mbs.Some? then Full else if partial.Some? then Partial else Incomplete));
  }

  /** Which inputs give which score, and the documented formulas on the inputs themselves. */
  lemma ScoresFromInputs(p: Option<real>, recall: Option<real>, accuracy: Option<real>, agq: Option<Quality>,
                         w: seq<Entry>)
    ensures var wp, wr, wa := Weight(w, "performance"), Weight(w, "retrieval_accuracy"), Weight(w, "agent_quality");
      var mbs := Mbs(p, ComputeRetrieval(recall, accuracy), ComputeAgentQuality(agq), w);
      var partial := PartialMbs(p, ComputeRetrieval(recall, accuracy), w);
      && (mbs.Some? <==> p.Some? && recall.Some? && accuracy.Some? && agq.Some?)
      && (mbs.Some? ==> var q := agq.value;
            mbs.value == wp * p.value + wr * ((100.0 * recall.value + accuracy.value) / 2.0)
                         + wa * (25.0 * q.pass1 + 5.0 * (q.groundedness + q.coherence + q.fluency)))
      && (partial.Some? <==> p.Some? && recall.Some? && accuracy.None? && wp + wr > 0.0)
      && (partial.Some? ==> partial.value * (wp + wr) == wp * p.value + wr * (100.0 * recall.value))
  {
    var wp, wr := Weight(w, "performance"), Weight(w, "retrieval_accuracy");
    if p.Some? && recall.Some? {
      if accuracy.Some? && agq.Some? {
        var q := agq.value;
        assert ComputeAgentQuality(agq).value == 25.0 * q.pass1 + 5.0 * (q.groundedness + q.coherence + q.fluency);
        assert 0.5 * (recall.value * 100.0) + 0.5 * accuracy.value == (100.0 * recall.value + accuracy.value) / 2.0;
      } else if accuracy.None? && wp + wr > 0.0 {
        Renormalized(wp, wr, p.value, recall.value * 100.0);
      }
    }
  }

  lemma Renormalized(a: real, b: real, x: real, y: real)
    requires a + b > 0.0
    ensures (a / (a + b) * x + b / (a + b) * y) * (a + b) == a * x + b * y
  {
    var p, q, t := a / (a + b), b / (a + b), a + b;
    assert p * t == a && q * t == b;
    assert p * x * t == (p * t) * x && q * y * t == (q * t) * y;
  }

  function Composite(p: real, r: real, a: real, w: seq<Entry>): real {
    Weight(w, "performance") * p + Weight(w, "retrieval_accuracy") * r + Weight(w, "agent_quality") * a
  }

  ghost predicate AlwaysInRange(w: seq<Entry>) {
    forall p: real, r: real, a: real ::
      Percent(p) && Percent(r) && Percent(a) ==> 0.0 <= Composite(p, r, a, w) <= 100.1
  }

  predicate ProperWeights(w: seq<Entry>) {
    var x, y, z := Weight(w, "performance"), Weight(w, "retrieval_accuracy"), Weight(w, "agent_quality");
    x >= 0.0 && y >= 0.0 && z >= 0.0 && x + y + z <= 1.001
  }

  /** Exactly which weights keep the composite within [0, 100.1] whatever the sub-scores: three
      non-negative ones of sum at most 1.001. */
  lemma CompositeInRangeIff(w: seq<Entry>)
    ensures AlwaysInRange(w) <==> ProperWeights(w)
  {
    if AlwaysInRange(w) {
      Corners(w);
    }
    if ProperWeights(w) {
      forall p: real, r: real, a: real | Percent(p) && Percent(r) && Percent(a)
        ensures 0.0 <= Composite(p, r, a, w) <= 100.1 {
        Within(p, r, a, w);
      }
    }
  }

  lemma Corners(w: seq<Entry>)
    requires 0.0 <= Composite(100.0, 0.0, 0.0, w) && 0.0 <= Composite(0.0, 100.0, 0.0, w)
    requires 0.0 <= Composite(0.0, 0.0, 100.0, w)
    requires Composite(100.0, 100.0, 100.0, w) <= 100.1
    ensures ProperWeights(w)
  {
  }

  lemma Within(p: real, r: real, a: real, w: seq<Entry>)
    requires Percent(p) && Percent(r) && Percent(a) && ProperWeights(w)
    ensures 0.0 <= Composite(p, r, a, w) <= 100.1
  {
    var x, y, z := Weight(w, "performance"), Weight(w, "retrieval_accuracy"), Weight(w, "agent_quality");
    Shares(x, y, z, p, r, a);
    assert Composite(p, r, a, w) == x * p + y * r + z * a;
  }

  lemma Shares(x: real, y: real, z: real, p: real, r: real, a: real)
    requires x >= 0.0 && y >= 0.0 && z >= 0.0 && Percent(p) && Percent(r) && Percent(a)
    ensures 0.0 <= x * p + y * r + z * a <= 100.0 * (x + y + z)
  {
    Share(x, p);
    Share(y, r);
    Share(z, a);
    Added(x * p, y * r, z * a, x, y, z);
  }

  lemma Added(u: real, v: real, t: real, x: real, y: real, z: real)
    requires 0.0 <= u <= 100.0 * x && 0.0 <= v <= 100.0 * y && 0.0 <= t <= 100.0 * z
    ensures 0.0 <= u + v + t <= 100.0 * (x + y + z)
  {
  }

  lemma Share(w: real, score: real)
    requires w >= 0.0 && Percent(score)
    ensures 0.0 <= w * score <= 100.0 * w
  {
    assert w * (100.0 - score) >= 0.0;
  }

  /** So loaded weights that are all non-negative do, with any number of extra keys. */
  lemma LoadedWeightsKeepTheRange(w: seq<Entry>, p: real, r: real, a: real)
    requires DistinctKeys(w) && Accepted(w) && NonNegative(w) && Percent(p) && Percent(r) && Percent(a)
    ensures 0.0 <= Composite(p, r, a, w) <= 100.1
  {
    ThreeWithinTotal(w);
    CompositeInRangeIff(w);
  }

  /** The loader does not look at signs: these weights pass it, and the composite reaches 300. */
  lemma NegativeExtraWeightBreaksTheRange() returns (w: seq<Entry>)
    ensures DistinctKeys(w) && Accepted(w)
    ensures Composite(100.0, 100.0, 100.0, w) == 300.0
  {
    var one := [Entry("performance", 1.0)];
    var two := one + [Entry("retrieval_accuracy", 1.0)];
    var three := two + [Entry("agent_quality", 1.0)];
    w := three + [Entry("other", -2.0)];
    OneEntryMore([], one[0]);
    assert [] + [one[0]] == one;
    OneEntryMore(one, two[1]);
    OneEntryMore(two, three[2]);
    OneEntryMore(three, w[3]);
    assert w[0].key == "performance" && w[1].key == "retrieval_accuracy" && w[2].key == "agent_quality";
  }

  lemma OneEntryMore(w: seq<Entry>, e: Entry)
    ensures Total(w + [e]) == Total(w) + e.value
    ensures forall key :: Weight(w + [e], key) == if e.key == key then e.value else Weight(w, key)
  {
    assert (w + [e])[..|w|] == w;
  }

  /** The partial score is a weighted mean of its two parts. */
  lemma PartialIsBetween(wp: real, wr: real, p: real, r: real, score: real)
    requires wp >= 0.0 && wr >= 0.0 && wp + wr > 0.0 && score * (wp + wr) == wp * p + wr * r
    ensures (p <= score <= r) || (r <= score <= p)
  {
    var t := wp + wr;
    assert (score - p) * t == wr * (r - p);
    assert (r - score) * t == wp * (r - p);
    SignOf(score - p, t, wr, r - p);
    SignOf(r - score, t, wp, r - p);
  }

  lemma SignOf(x: real, t: real, w: real, y: real)
    requires t > 0.0 && w >= 0.0 && x * t == w * y
    ensures y >= 0.0 ==> x >= 0.0
    ensures y <= 0.0 ==> x <= 0.0
  {
  }

  /** In-range inputs give in-range sub-scores. */
  lemma SubScoresInRange(recall: real, accuracy: real, q: Quality)
    requires 0.0 <= recall <= 1.0 && Percent(accuracy)
    requires 0.0 <= q.pass1 <= 1.0 && 1.0 <= q.groundedness <= 5.0 && 1.0 <= q.coherence <= 5.0
    requires 1.0 <= q.fluency <= 5.0
    ensures var det := ComputeRetrieval(Some(recall), Some(accuracy)).det.value;
      Percent(det) && Percent(0.5 * det + 0.5 * accuracy)
    ensures 15.0 <= ComputeAgentQuality(Some(q)).value <= 100.0
  {
  }

  /** Raising any operation's latency never raises the composite or the partial composite, and never
      makes either appear or disappear. */
  lemma SlowerRunNeverScoresHigher(fast: seq<Bench>, slow: seq<Bench>, baselines: seq<Entry>, retrieval: RetrievalScore,
                                   quality: Option<real>, w: seq<Entry>)
    requires Slower(fast, slow) && Timed(fast, baselines) && Weight(w, "performance") >= 0.0
    ensures var f, s := PerformanceOf(fast, baselines), PerformanceOf(slow, baselines);
      && (NoHigher(Mbs(s, retrieval, quality, w), Mbs(f, retrieval, quality, w)))
      && (NoHigher(PartialMbs(s, retrieval, w), PartialMbs(f, retrieval, w)))
  {
    SlowerScoresNoHigher(fast, slow, baselines);
    var f, s := PerformanceOf(fast, baselines), PerformanceOf(slow, baselines);
    if f.Some? {
      PerformanceIsMonotone(fast, slow, baselines);
      LowerMbs(f.value, s.value, retrieval, quality, w);
      LowerPartial(f.value, s.value, retrieval, w);
    }
  }

  lemma LowerMbs(p: real, slower: real, retrieval: RetrievalScore, quality: Option<real>, w: seq<Entry>)
    requires slower <= p && Weight(w, "performance") >= 0.0
    ensures NoHigher(Mbs(Some(slower), retrieval, quality, w), Mbs(Some(p), retrieval, quality, w))
  {
    var wp := Weight(w, "performance");
    ProductNonNegative(wp, p - slower);
    assert wp * (p - slower) == wp * p - wp * slower;
  }

  lemma LowerPartial(p: real, slower: real, retrieval: RetrievalScore, w: seq<Entry>)
    requires slower <= p && Weight(w, "performance") >= 0.0
    ensures NoHigher(PartialMbs(Some(slower), retrieval, w), PartialMbs(Some(p), retrieval, w))
  {
    var total := Weight(w, "performance") + Weight(w, "retrieval_accuracy");
    if total > 0.0 {
      var share := Weight(w, "performance") / total;
      DivisionKeepsOrder(0.0, Weight(w, "performance"), total);
      ProductNonNegative(share, p - slower);
      assert share * (p - slower) == share * p - share * slower;
    }
  }

  predicate NoHigher(after: Option<real>, before: Option<real>) {
    (after.Some? <==> before.Some?) && (after.Some? ==> after.value <= before.value)
  }

  /** With in-range inputs and loaded weights that are not negative, the composite lies in [0, 100.1] and
      the partial composite in [0, 100], between its two parts. */
  lemma ScoresInRange(benches: seq<Bench>, baselines: seq<Entry>, recall: real, accuracy: Option<real>, q: Quality,
                      w: seq<Entry>)
    requires DistinctKeys(w) && Accepted(w) && NonNegative(w)
    requires 0.0 <= recall <= 1.0 && (accuracy.Some? ==> Percent(accuracy.value))
    requires 0.0 <= q.pass1 <= 1.0 && 1.0 <= q.groundedness <= 5.0 && 1.0 <= q.coherence <= 5.0
    requires 1.0 <= q.fluency <= 5.0
    ensures var p := PerformanceOf(benches, baselines); var retrieval := ComputeRetrieval(Some(recall), accuracy);
      var mbs, partial := Mbs(p, retrieval, ComputeAgentQuality(Some(q)), w), PartialMbs(p, retrieval, w);
      && (mbs.Some? ==> 0.0 <= mbs.value <= 100.1)
      && (partial.Some? ==> Percent(partial.value))
  {
    var p, retrieval := PerformanceOf(benches, baselines), ComputeRetrieval(Some(recall), accuracy);
    ThreeWithinTotal(w);
    if p.Some? {
      ScoresArePercentages(benches, baselines);
      var scores := OpScores(benches, baselines);
      Means(Sum(scores), Sum(scores), |scores| as real);
      if accuracy.Some? {
        SubScoresInRange(recall, accuracy.value, q);
        LoadedWeightsKeepTheRange(w, p.value, 0.5 * retrieval.det.value + 0.5 * accuracy.value,
                                  ComputeAgentQuality(Some(q)).value);
      } else {
        SubScoresInRange(recall, 0.0, q);
        var wp, wr := Weight(w, "performance"), Weight(w, "retrieval_accuracy");
        if wp + wr > 0.0 {
          Renormalized(wp, wr, p.value, retrieval.det.value);
          PartialIsBetween(wp, wr, p.value, retrieval.det.value, PartialMbs(p, retrieval, w).value);
        }
      }
    }
  }

  lemma ProductNonNegative(w: real, x: real)
    requires w >= 0.0 && x >= 0.0
    ensures w * x >= 0.0
  {
  }
}
