/** The paging loops of `export_scope` and `list_all_for_scope`, on pages as the database returns them. */
module PageLoops {
  import opened Sequences
  import opened Rows
  import opened Paging

  /** One page query: the order ROW_NUMBER counted the rows in, and the page as it came. */
  datatype Query = Query(order: seq<Id>, page: seq<Id>)

  ghost predicate Serves(chosen: set<Id>, rank: Id -> int, size: nat, queries: nat -> Query) {
    forall k: nat :: ServesPage(chosen, rank, size, queries(k), k)
  }

  ghost predicate ServesPage(chosen: set<Id>, rank: Id -> int, size: nat, q: Query, k: nat) {
    IsSorted(chosen, rank, q.order) && IsPage(q.order, size, StepsNat(k, size), q.page)
  }

  /** The pages of the first `n` queries, one after the other. */
  function Collected(queries: nat -> Query, n: nat): seq<Id> {
    if n == 0 then [] else Collected(queries, n - 1) + queries(n - 1).page
  }

  /** How many of `total` rows are left for page `k`. */
  function Width(total: nat, size: nat, k: nat): nat {
    var offset := StepsNat(k, size);
    if offset >= total then 0 else Min(size, total - offset)
  }

  lemma PageLength(chosen: set<Id>, rank: Id -> int, size: nat, q: Query, k: nat)
    requires ServesPage(chosen, rank, size, q, k) && size <= LIST_CAP
    ensures |q.page| == Width(|chosen|, size, k)
  {
    SortedLength(chosen, rank, q.order);
    var page := Page(q.order, size, StepsNat(k, size));
    assert |multiset(q.page)| == |multiset(page)|;
  }

  /** `list_all_for_scope`: stop at the first short page.  The last query always returns fewer than
      `size` rows, so a row count that is an exact multiple costs one empty query more. */
  method ListAllForScope(ghost chosen: set<Id>, ghost rank: Id -> int, queries: nat -> Query, size: nat)
    returns (results: seq<Id>, ghost sent: nat)
    requires 1 <= size <= LIST_CAP && Serves(chosen, rank, size, queries)
    ensures results == Collected(queries, sent) && |results| == |chosen|
    ensures sent >= 1 && Steps(sent - 1, size) <= |chosen| < Steps(sent, size)
  {
    results, sent := [], 0;
    var offset := 0;
    var k := 0;
    while true
      invariant sent == k && offset == Steps(k, size) == |results| <= |chosen| && results == Collected(queries, k)
      decreases |chosen| - offset
    {
      assert ServesPage(chosen, rank, size, queries(k), k);
      PageLength(chosen, rank, size, queries(k), k);
      var page := queries(k).page;
      results := results + page;
      k := k + 1;
      sent := sent + 1;
      if |page| < size {
        break;
      }
      offset := offset + size;
    }
  }

  /** The per-table loop of `export_scope`: also stops on an empty page. */
  method ExportPages(ghost chosen: set<Id>, ghost rank: Id -> int, queries: nat -> Query, size: nat)
    returns (yielded: seq<Id>, ghost sent: nat)
    requires 1 <= size <= LIST_CAP && Serves(chosen, rank, size, queries)
    ensures yielded == Collected(queries, sent) && |yielded| == |chosen|
    ensures sent >= 1 && Steps(sent - 1, size) <= |chosen| < Steps(sent, size)
  {
    yielded, sent := [], 0;
    var offset := 0;
    var k := 0;
    while true
      invariant sent == k && offset == Steps(k, size) == |yielded| <= |chosen| && yielded == Collected(queries, k)
      decreases |chosen| - offset
    {
      assert ServesPage(chosen, rank, size, queries(k), k);
      PageLength(chosen, rank, size, queries(k), k);
      var batch := queries(k).page;
      sent := sent + 1;
      if batch == [] {
        assert yielded + batch == yielded;
        break;
      }
      yielded := yielded + batch;
      k := k + 1;
      if |batch| < size {
        break;
      }
      offset := offset + size;
    }
  }

  // ---------------------------------------------------------------- what the pages add up to

  function Orders(queries: nat -> Query): nat -> seq<Id> {
    (k: nat) => queries(k).order
  }

  lemma OrdersAnswer(chosen: set<Id>, rank: Id -> int, size: nat, queries: nat -> Query)
    requires Serves(chosen, rank, size, queries)
    ensures Answers(chosen, rank, Orders(queries))
  {
    forall k: nat ensures IsSorted(chosen, rank, Orders(queries)(k)) {
      assert ServesPage(chosen, rank, size, queries(k), k);
    }
  }

  /** Each page is a rearrangement of the sorted one. */
  ghost predicate Shuffles(size: nat, orders: nat -> seq<Id>, queries: nat -> Query) {
    forall k: nat :: SameRows(queries(k).page, Page(orders(k), size, StepsNat(k, size)))
  }

  ghost predicate SameRows(a: seq<Id>, b: seq<Id>) {
    multiset(a) == multiset(b)
  }

  function Concat(parts: nat -> seq<Id>, n: nat): seq<Id> {
    if n == 0 then [] else Concat(parts, n - 1) + parts(n - 1)
  }

  lemma {:induction false} SameParts(f: nat -> seq<Id>, g: nat -> seq<Id>, n: nat)
    requires forall k: nat :: SameRows(f(k), g(k))
    ensures SameRows(Concat(f, n), Concat(g, n))
  {
    if n > 0 {
      SameParts(f, g, n - 1);
      BothLonger(Concat(f, n - 1), f(n - 1), Concat(g, n - 1), g(n - 1));
    }
  }

  lemma {:induction false} CollectedIsConcat(queries: nat -> Query, parts: nat -> seq<Id>, n: nat)
    requires forall k: nat :: parts(k) == queries(k).page
    ensures Collected(queries, n) == Concat(parts, n)
  {
    if n > 0 {
      CollectedIsConcat(queries, parts, n - 1);
    }
  }

  lemma {:induction false} PagedIsConcat(orders: nat -> seq<Id>, size: nat, parts: nat -> seq<Id>, n: nat)
    requires forall k: nat :: parts(k) == Page(orders(k), size, StepsNat(k, size))
    ensures Paged(orders, size, n) == Concat(parts, n)
  {
    if n > 0 {
      PagedIsConcat(orders, size, parts, n - 1);
    }
  }

  /** However a page is shuffled, the pages hold what the sorted pages would. */
  lemma SameRowsAsSorted(size: nat, orders: nat -> seq<Id>, queries: nat -> Query, n: nat)
    requires Shuffles(size, orders, queries)
    ensures SameRows(Collected(queries, n), Paged(orders, size, n))
  {
    var got := (k: nat) => queries(k).page;
    var sorted := (k: nat) => Page(orders(k), size, StepsNat(k, size));
    CollectedIsConcat(queries, got, n);
    PagedIsConcat(orders, size, sorted, n);
    forall k: nat ensures SameRows(got(k), sorted(k)) {
      assert SameRows(queries(k).page, Page(orders(k), size, StepsNat(k, size)));
    }
    SameParts(got, sorted, n);
  }

  lemma SameLength(a: seq<Id>, b: seq<Id>)
    requires SameRows(a, b)
    ensures |a| == |b|
  {
    assert |multiset(a)| == |multiset(b)|;
  }

  lemma ServesShuffles(chosen: set<Id>, rank: Id -> int, size: nat, queries: nat -> Query)
    requires Serves(chosen, rank, size, queries)
    ensures Shuffles(size, Orders(queries), queries)
  {
    forall k: nat ensures SameRows(queries(k).page, Page(Orders(queries)(k), size, StepsNat(k, size))) {
      SamePage(chosen, rank, size, queries, k);
    }
  }

  lemma SamePage(chosen: set<Id>, rank: Id -> int, size: nat, queries: nat -> Query, k: nat)
    requires Serves(chosen, rank, size, queries)
    ensures multiset(queries(k).page) == multiset(Page(Orders(queries)(k), size, StepsNat(k, size)))
  {
    assert ServesPage(chosen, rank, size, queries(k), k);
  }

  lemma BothLonger(a: seq<Id>, b: seq<Id>, c: seq<Id>, d: seq<Id>)
    requires SameRows(a, c) && SameRows(b, d)
    ensures SameRows(a + b, c + d)
  {
  }

  lemma {:induction false} CollectedStartsWith(queries: nat -> Query, m: nat, n: nat)
    requires m <= n
    ensures Collected(queries, m) <= Collected(queries, n)
    decreases n
  {
    if m < n {
      CollectedStartsWith(queries, m, n - 1);
    }
  }

  lemma {:induction false} PagedStartsWith(orders: nat -> seq<Id>, size: nat, m: nat, n: nat)
    requires m <= n
    ensures Paged(orders, size, m) <= Paged(orders, size, n)
    decreases n
  {
    if m < n {
      PagedStartsWith(orders, size, m, n - 1);
    }
  }

  /** Every chosen row, once. */
  ghost predicate IsListing(chosen: set<Id>, ids: seq<Id>) {
    Distinct(ids) && forall x :: x in ids <==> x in chosen
  }

  /** No row of a page ranks below a row of a later page. */
  ghost predicate OrderedAcross(rank: Id -> int, size: nat, ids: seq<Id>) {
    forall k: nat :: OrderedAt(rank, ids, Steps(k, size))
  }

  ghost predicate OrderedAt(rank: Id -> int, ids: seq<Id>, b: int) {
    forall i, j :: 0 <= i < b <= j < |ids| ==> rank(ids[i]) >= rank(ids[j])
  }

  /** Each page comes in the order its rows were counted in. */
  ghost predicate PagesInOrder(size: nat, queries: nat -> Query) {
    forall k: nat :: queries(k).page == Page(queries(k).order, size, StepsNat(k, size))
  }

  lemma {:induction false} InOrderIsSorted(size: nat, queries: nat -> Query, n: nat)
    requires PagesInOrder(size, queries)
    ensures Collected(queries, n) == Paged(Orders(queries), size, n)
  {
    if n > 0 {
      InOrderIsSorted(size, queries, n - 1);
    }
  }

  /** A rearrangement of a listing is one. */
  lemma SameRowsSameListing(chosen: set<Id>, ids: seq<Id>, other: seq<Id>)
    requires IsListing(chosen, ids) && multiset(other) == multiset(ids)
    ensures IsListing(chosen, other)
  {
    forall x ensures x in other <==> x in chosen {
      assert x in other <==> x in multiset(other);
      assert x in ids <==> x in multiset(ids);
    }
    forall i, j | 0 <= i < j < |other| ensures other[i] != other[j] {
      if other[i] == other[j] {
        TwiceInMultiset(other, i, j);
        assert other[i] in multiset(other);
        DistinctOccursOnce(ids, other[i]);
      }
    }
  }

  lemma TwiceInMultiset(s: seq<Id>, i: nat, j: nat)
    requires i < j < |s| && s[i] == s[j]
    ensures multiset(s)[s[i]] >= 2
  {
    assert s == s[..i] + [s[i]] + s[i + 1..j] + [s[j]] + s[j + 1..];
  }

  /** If no page boundary splits a group of equal keys, the pages together hold every row once, and in order
      from page to page, however each query broke its ties and shuffled its page; if the pages come in
      order, they are one full sorted answer. */
  lemma PagesConcatenate(chosen: set<Id>, rank: Id -> int, queries: nat -> Query, o: seq<Id>, size: nat, n: nat)
    requires 1 <= size <= LIST_CAP && Serves(chosen, rank, size, queries) && IsSorted(chosen, rank, o)
    requires NoTieAcrossPages(rank, o, size) && |chosen| <= Steps(n, size)
    ensures IsListing(chosen, Collected(queries, n)) && OrderedAcross(rank, size, Collected(queries, n))
    ensures PagesInOrder(size, queries) ==> IsSorted(chosen, rank, Collected(queries, n))
  {
    OrdersAnswer(chosen, rank, size, queries);
    SortedPagesConcatenate(chosen, rank, Orders(queries), o, size, n);
    ServesShuffles(chosen, rank, size, queries);
    SameRowsAsSorted(size, Orders(queries), queries, n);
    SameRowsSameListing(chosen, Paged(Orders(queries), size, n), Collected(queries, n));
    forall k: nat ensures OrderedAt(rank, Collected(queries, n), Steps(k, size)) {
      PagesOrderedAt(chosen, rank, queries, o, size, k, n);
    }
    if PagesInOrder(size, queries) {
      InOrderIsSorted(size, queries, n);
    }
  }

  lemma PagesOrderedAt(chosen: set<Id>, rank: Id -> int, queries: nat -> Query, o: seq<Id>, size: nat, k: nat, n: nat)
    requires 1 <= size <= LIST_CAP && Serves(chosen, rank, size, queries) && IsSorted(chosen, rank, o)
    requires NoTieAcrossPages(rank, o, size) && |chosen| <= Steps(n, size)
    ensures OrderedAt(rank, Collected(queries, n), Steps(k, size))
  {
    var sorted, got := Paged(Orders(queries), size, n), Collected(queries, n);
    OrdersAnswer(chosen, rank, size, queries);
    SortedPagesConcatenate(chosen, rank, Orders(queries), o, size, n);
    ServesShuffles(chosen, rank, size, queries);
    SameRowsAsSorted(size, Orders(queries), queries, n);
    SameLength(got, sorted);
    SortedLength(chosen, rank, sorted);
    if Steps(k, size) < |got| {
      AllWidths(chosen, rank, size, queries);
      StepsMonotone(k, n, size);
      FrontsAgree(|chosen|, size, Orders(queries), queries, k, n);
      SplitInOrder(rank, sorted, got, StepsNat(k, size));
    }
  }

  ghost predicate HaveWidths(total: nat, size: nat, queries: nat -> Query) {
    forall m: nat :: |queries(m).page| == Width(total, size, m)
  }

  lemma AllWidths(chosen: set<Id>, rank: Id -> int, size: nat, queries: nat -> Query)
    requires 1 <= size <= LIST_CAP && Serves(chosen, rank, size, queries)
    ensures HaveWidths(|chosen|, size, queries)
  {
    forall m: nat ensures |queries(m).page| == Width(|chosen|, size, m) {
      assert ServesPage(chosen, rank, size, queries(m), m);
      PageLength(chosen, rank, size, queries(m), m);
    }
  }

  lemma FrontsAgree(total: nat, size: nat, orders: nat -> seq<Id>, queries: nat -> Query, k: nat, n: nat)
    requires Shuffles(size, orders, queries) && HaveWidths(total, size, queries) && Steps(k, size) <= total && k <= n
    ensures var b := StepsNat(k, size);
      && b <= |Collected(queries, n)| && b <= |Paged(orders, size, n)|
      && SameRows(Collected(queries, n)[..b], Paged(orders, size, n)[..b])
  {
    CollectedLength(total, size, queries, k);
    SameRowsAsSorted(size, orders, queries, k);
    SameLength(Collected(queries, k), Paged(orders, size, k));
    CollectedStartsWith(queries, k, n);
    PagedStartsWith(orders, size, k, n);
    FrontSlices(Collected(queries, k), Collected(queries, n), Paged(orders, size, k), Paged(orders, size, n));
  }

  lemma FrontSlices(a: seq<Id>, c: seq<Id>, d: seq<Id>, e: seq<Id>)
    requires a <= c && d <= e && SameRows(a, d) && |a| == |d|
    ensures SameRows(c[..|a|], e[..|a|])
  {
    assert c[..|a|] == a && e[..|a|] == d;
  }

  lemma {:induction false} CollectedLength(total: nat, size: nat, queries: nat -> Query, k: nat)
    requires HaveWidths(total, size, queries) && Steps(k, size) <= total
    ensures |Collected(queries, k)| == Steps(k, size)
  {
    if k > 0 {
      CollectedLength(total, size, queries, k - 1);
    }
  }

  lemma SameRest(a: seq<Id>, c: seq<Id>, b: nat)
    requires b <= |a| == |c| && multiset(a) == multiset(c) && multiset(a[..b]) == multiset(c[..b])
    ensures multiset(a[b..]) == multiset(c[b..])
  {
    assert a == a[..b] + a[b..] && c == c[..b] + c[b..];
    assert multiset(a) == multiset(a[..b]) + multiset(a[b..]);
    assert multiset(c) == multiset(c[..b]) + multiset(c[b..]);
    assert multiset(a[b..]) == multiset(a) - multiset(a[..b]);
    assert multiset(c[b..]) == multiset(c) - multiset(c[..b]);
  }

  /** Two rearrangements that agree up to `b` agree after it too. */
  lemma SplitInOrder(rank: Id -> int, sorted: seq<Id>, got: seq<Id>, b: nat)
    requires |got| == |sorted| && b <= |got| && multiset(got) == multiset(sorted)
    requires multiset(got[..b]) == multiset(sorted[..b])
    requires forall i, j :: 0 <= i < j < |sorted| ==> rank(sorted[i]) >= rank(sorted[j])
    ensures OrderedAt(rank, got, b)
  {
    SameRest(got, sorted, b);
    forall i, j | 0 <= i < b <= j < |got| ensures rank(got[i]) >= rank(got[j]) {
      assert got[..b][i] in multiset(got[..b]) && got[b..][j - b] in multiset(got[b..]);
      var m :| 0 <= m < b && sorted[..b][m] == got[i];
      var n :| 0 <= n < |sorted| - b && sorted[b..][n] == got[j];
      assert sorted[m] == got[i] && sorted[b + n] == got[j];
    }
  }

  /** Ties or not, a page holds only rows the query selects. */
  lemma CollectedRowsAreChosen(chosen: set<Id>, rank: Id -> int, size: nat, queries: nat -> Query, n: nat)
    requires Serves(chosen, rank, size, queries)
    ensures AllIn(Collected(queries, n), chosen)
  {
    forall k: nat ensures AllIn(queries(k).page, chosen) {
      PageRowsAreChosen(chosen, rank, size, queries, k);
    }
    AllCollectedIn(chosen, queries, n);
  }

  ghost predicate AllIn(ids: seq<Id>, chosen: set<Id>) {
    forall x :: x in ids ==> x in chosen
  }

  lemma {:induction false} AllCollectedIn(chosen: set<Id>, queries: nat -> Query, n: nat)
    requires forall k: nat :: AllIn(queries(k).page, chosen)
    ensures AllIn(Collected(queries, n), chosen)
  {
    if n > 0 {
      AllCollectedIn(chosen, queries, n - 1);
    }
  }

  lemma PageRowsAreChosen(chosen: set<Id>, rank: Id -> int, size: nat, queries: nat -> Query, k: nat)
    requires Serves(chosen, rank, size, queries)
    ensures AllIn(queries(k).page, chosen)
  {
    SamePage(chosen, rank, size, queries, k);
    var q := queries(k);
    assert ServesPage(chosen, rank, size, q, k);
    var page := Page(q.order, size, StepsNat(k, size));
    forall x | x in q.page ensures x in chosen {
      assert x in multiset(q.page) && x in multiset(page);
      assert x in page && x in q.order;
    }
  }

  /** Conversely, one boundary inside a tie is enough, even with every page in order: the database may answer
      so that one row comes twice and another never. */
  lemma SplitTieLosesARow(chosen: set<Id>, rank: Id -> int, o: seq<Id>, size: nat, k: nat, n: nat)
    returns (queries: nat -> Query, twice: nat, never: Id)
    requires 1 <= size <= LIST_CAP && IsSorted(chosen, rank, o) && !CleanCut(rank, o, Steps(k, size))
    requires |chosen| <= Steps(n, size)
    ensures Serves(chosen, rank, size, queries) && PagesInOrder(size, queries)
    ensures never in chosen && never !in Collected(queries, n)
    ensures 0 < twice < |Collected(queries, n)| && Collected(queries, n)[twice - 1] == Collected(queries, n)[twice]
  {
    var orders;
    orders, twice, never := SplitTieLosesARowIn(chosen, rank, o, size, k, n);
    queries := (m: nat) => Query(orders(m), Page(orders(m), size, StepsNat(m, size)));
    forall m: nat ensures ServesPage(chosen, rank, size, queries(m), m) {
      assert IsSorted(chosen, rank, orders(m));
    }
    InOrderIsSorted(size, queries, n);
    SameOrders(orders, Orders(queries), size, n);
  }

  lemma {:induction false} SameOrders(orders: nat -> seq<Id>, others: nat -> seq<Id>, size: nat, n: nat)
    requires forall k: nat :: orders(k) == others(k)
    ensures Paged(orders, size, n) == Paged(others, size, n)
  {
    if n > 0 {
      SameOrders(orders, others, size, n - 1);
    }
  }
}
