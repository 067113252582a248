/** `MemoryStore._relevant_with_backfill`: search results first, recent rows up to a minimum. */
module Backfill {
  import opened Sequences
  import opened Rows
  import opened Repositories

  function Unseen(ids: seq<Id>, seen: set<Id>): seq<Id> {
    if ids == [] then []
    else Unseen(ids[..|ids| - 1], seen) + if ids[|ids| - 1] in seen then [] else [ids[|ids| - 1]]
  }

  /** The ids of the section: `found` are those of the search, `order` the recency order. */
  function Section(found: seq<Id>, order: seq<Id>, minimum: int): seq<Id> {
    if |found| >= minimum then found
    else
      var needed := minimum - |found|;
      var rest := Unseen(Page(order, needed + |Elements(found)|, 0), Elements(found));
      found + rest[..Min(needed, |rest|)]
  }

  function Ids(rows: seq<Row>): (ids: seq<Id>)
    ensures |ids| == |rows|
  {
    seq(|rows|, i requires 0 <= i < |rows| => rows[i].id)
  }

  /** `found` is what search returned: None without a query embedding or when it raised. */
  method RelevantWithBackfill(repo: Repository, scope: Scope, found: Option<seq<Row>>, minimum: int, now: Time,
                              order: seq<Id>)
    returns (r: Reply<seq<Row>>)
    requires Consistent(repo.rows) && IsOrdering(repo.rows, Selected(repo.rows, scope, false, now), order)
    ensures var relevant := if found.Some? then found.value else [];
      if |relevant| < minimum && scope.agent == "" then r == Raised(MissingAgentId)
      else r.Returned? && relevant <= r.value && Ids(r.value) == Section(Ids(relevant), order, minimum)
           && forall i :: |relevant| <= i < |r.value| ==> r.value[i] in repo.rows.Values
  {
    var results := [];
    if found.Some? {
      results := found.value;
    }
    if |results| >= minimum {
      return Returned(results);
    }
    var seen := set row | row in results :: row.id;
    SeenIds(results);
    var needed := minimum - |results|;
    var recent := RecentFresh(repo, scope, needed + |seen|, seen, now, order);
    if recent.Raised? {
      return Raised(recent.error);
    }
    var backfill := recent.value;
    Together(results, backfill, Page(order, needed + |seen|, 0), order, minimum);
    return Returned(results + backfill[..Min(needed, |backfill|)]);
  }

  method RecentFresh(repo: Repository, scope: Scope, limit: nat, seen: set<Id>, now: Time, order: seq<Id>)
    returns (r: Reply<seq<Row>>)
    requires Consistent(repo.rows) && IsOrdering(repo.rows, Selected(repo.rows, scope, false, now), order)
    ensures if scope.agent == "" then r == Raised(MissingAgentId)
      else r.Returned? && Ids(r.value) == Unseen(Page(order, limit, 0), seen)
           && forall i :: 0 <= i < |r.value| ==> r.value[i] in repo.rows.Values
  {
    var recent := repo.ListAll(scope, limit, 0, false, now, order, Page(order, limit, 0));
    if recent.Raised? {
      return Raised(recent.error);
    }
    IdsOfPage(repo.rows, Page(order, limit, 0));
    var backfill := FreshRows(recent.value, seen);
    return Returned(backfill);
  }

  lemma Together(results: seq<Row>, backfill: seq<Row>, page: seq<Id>, order: seq<Id>, minimum: int)
    requires |results| < minimum && page == Page(order, minimum - |results| + |Elements(Ids(results))|, 0)
    requires Ids(backfill) == Unseen(page, Elements(Ids(results)))
    ensures Ids(results + backfill[..Min(minimum - |results|, |backfill|)]) == Section(Ids(results), order, minimum)
  {
    var taken := backfill[..Min(minimum - |results|, |backfill|)];
    assert Ids(results + taken) == Ids(results) + Ids(backfill)[..Min(minimum - |results|, |backfill|)];
  }

  lemma IdsOfPage(t: Table, ids: seq<Id>)
    requires Consistent(t) && forall id :: id in ids ==> id in t
    ensures Ids(RowsAt(t, ids)) == ids && forall row :: row in RowsAt(t, ids) ==> row in t.Values
  {
    forall i | 0 <= i < |ids| ensures Ids(RowsAt(t, ids))[i] == ids[i] {
      assert ids[i] in ids;
    }
  }

  method FreshRows(recent: seq<Row>, seen: set<Id>) returns (backfill: seq<Row>)
    ensures Ids(backfill) == Unseen(Ids(recent), seen)
    ensures forall k :: 0 <= k < |backfill| ==> backfill[k] in recent
  {
    backfill := [];
    ghost var ids := Ids(recent);
    for i := 0 to |recent|
      invariant Ids(backfill) == Unseen(ids[..i], seen)
      invariant forall k :: 0 <= k < |backfill| ==> backfill[k] in recent
    {
      assert ids[..i + 1][..i] == ids[..i];
      if recent[i].id !in seen {
        backfill := backfill + [recent[i]];
      }
    }
    assert ids[..|ids|] == ids;
  }

  lemma SeenIds(rows: seq<Row>)
    ensures (set row | row in rows :: row.id) == Elements(Ids(rows))
  {
    forall id | id in Elements(Ids(rows)) ensures id in (set row | row in rows :: row.id) {
      var i :| 0 <= i < |rows| && Ids(rows)[i] == id;
      assert rows[i] in rows;
    }
    forall row | row in rows ensures row.id in Ids(rows) {
      var i :| 0 <= i < |rows| && rows[i] == row;
      assert Ids(rows)[i] == row.id;
    }
  }

  // ---------------------------------------------------------------- filtering

  lemma {:induction false} UnseenKeepsTheFresh(ids: seq<Id>, seen: set<Id>)
    ensures forall id :: id in Unseen(ids, seen) <==> id in ids && id !in seen
    ensures Distinct(ids) ==> Distinct(Unseen(ids, seen))
  {
    if ids != [] {
      var n := |ids| - 1;
      UnseenKeepsTheFresh(ids[..n], seen);
      assert ids == ids[..n] + [ids[n]];
    }
  }

  /** Filtering keeps the order: the fresh ids stand as they stood. */
  lemma {:induction false} UnseenInOrder(ids: seq<Id>, seen: set<Id>) returns (at: seq<int>)
    ensures PickedAt(Unseen(ids, seen), ids, at)
    ensures forall i :: i in at <==> 0 <= i < |ids| && ids[i] !in seen
  {
    at := [];
    if ids != [] {
      var n := |ids| - 1;
      at := UnseenInOrder(ids[..n], seen);
      PickMore(Unseen(ids[..n], seen), ids[..n], at, ids[n]);
      assert ids == ids[..n] + [ids[n]];
      if ids[n] !in seen {
        at := at + [n];
      }
    }
  }

  /** The fresh rows of the page are the most recent fresh rows of all. */
  lemma {:induction false} UnseenOfPrefix(ids: seq<Id>, n: nat, seen: set<Id>)
    requires n <= |ids|
    ensures Unseen(ids[..n], seen) <= Unseen(ids, seen)
    decreases |ids|
  {
    if n < |ids| {
      var m := |ids| - 1;
      UnseenOfPrefix(ids[..m], n, seen);
      assert ids[..m][..n] == ids[..n];
    } else {
      assert ids[..n] == ids;
    }
  }

  /** Rows of `ids` are either fresh or among the search results. */
  lemma UnseenCount(ids: seq<Id>, found: seq<Id>)
    requires Distinct(ids) && Distinct(found)
    ensures |Unseen(ids, Elements(found))| == |ids| - |found| + |Elements(found) - Elements(ids)|
  {
    var seen, here := Elements(found), Elements(ids);
    DistinctSetSize(ids);
    DistinctSetSize(found);
    UnseenSize(ids, seen);
    Overlap(here, seen);
    Overlap(seen, here);
    assert here * seen == seen * here;
  }

  lemma UnseenSize(ids: seq<Id>, seen: set<Id>)
    requires Distinct(ids)
    ensures |Unseen(ids, seen)| == |Elements(ids) - seen|
  {
    UnseenKeepsTheFresh(ids, seen);
    DistinctSetSize(Unseen(ids, seen));
    assert Elements(Unseen(ids, seen)) == Elements(ids) - seen;
  }

  lemma Overlap(a: set<Id>, b: set<Id>)
    ensures |a| == |a - b| + |a * b|
  {
    assert a == (a - b) + (a * b);
  }

  // ---------------------------------------------------------------- the section

  /** Results found among rows that a listing never reaches. */
  function Beyond(found: seq<Id>, order: seq<Id>): nat {
    |Elements(found) - Elements(order[..Min(LIST_CAP, |order|)])|
  }

  /** What search returns: distinct rows that a listing of the scope would show. */
  ghost predicate FoundLive(found: seq<Id>, order: seq<Id>) {
    Distinct(found) && Distinct(order) && forall id :: id in found ==> id in order
  }

  /** The section is the search results followed by the most recent rows not among them, without repeats;
      its length is the promised max(n, min(minimum, live)) but for the listing cap. */
  lemma SectionHasTheMinimum(found: seq<Id>, order: seq<Id>, minimum: int)
    requires FoundLive(found, order)
    ensures var s := Section(found, order, minimum);
      var reach := Min(Min(minimum, |order|), LIST_CAP + Beyond(found, order));
      && found <= s && Distinct(s)
      && s[|found|..] <= Unseen(order, Elements(found))
      && |s| == if |found| >= reach then |found| else reach
  {
    if |found| < minimum {
      SectionLength(found, order, minimum);
      SectionContents(found, order, minimum);
    } else {
      assert Section(found, order, minimum)[|found|..] == [];
      FoundFits(found, order);
    }
  }

  lemma SectionContents(found: seq<Id>, order: seq<Id>, minimum: int)
    requires FoundLive(found, order) && |found| < minimum
    ensures var s := Section(found, order, minimum); var p := Min(Min(minimum, LIST_CAP), |order|);
      && found <= s && Distinct(s) && s[|found|..] <= Unseen(order, Elements(found))
      && |s| == Min(minimum, p + |Elements(found) - Elements(order[..p])|)
  {
    var p := Min(Min(minimum, LIST_CAP), |order|);
    SectionIs(found, order, minimum, p);
    FreshOfPage(found, order, p);
    var rest := Unseen(order[..p], Elements(found));
    var taken := rest[..Min(minimum - |found|, |rest|)];
    TailIsFresh(found, rest, taken);
    FoundThenTaken(found, taken, rest, Unseen(order, Elements(found)));
  }

  lemma SectionIs(found: seq<Id>, order: seq<Id>, minimum: int, p: nat)
    requires Distinct(found) && |found| < minimum && p == Min(Min(minimum, LIST_CAP), |order|)
    ensures var rest := Unseen(order[..p], Elements(found));
      Section(found, order, minimum) == found + rest[..Min(minimum - |found|, |rest|)]
  {
    DistinctSetSize(found);
    assert Page(order, minimum - |found| + |Elements(found)|, 0) == order[..p];
  }

  lemma FoundThenTaken(found: seq<Id>, taken: seq<Id>, rest: seq<Id>, all: seq<Id>)
    requires taken <= rest <= all
    ensures found <= found + taken && (found + taken)[|found|..] <= all && |found + taken| == |found| + |taken|
  {
    assert (found + taken)[|found|..] == taken;
  }

  lemma FreshOfPage(found: seq<Id>, order: seq<Id>, p: nat)
    requires FoundLive(found, order) && p <= |order|
    ensures var rest := Unseen(order[..p], Elements(found));
      && rest <= Unseen(order, Elements(found)) && Distinct(rest) && (forall id :: id in rest ==>
            id !in Elements(found))
      && |rest| == p - |found| + |Elements(found) - Elements(order[..p])|
  {
    UnseenOfPrefix(order, p, Elements(found));
    UnseenKeepsTheFresh(order[..p], Elements(found));
    UnseenCount(order[..p], found);
  }

  lemma TailIsFresh(found: seq<Id>, rest: seq<Id>, taken: seq<Id>)
    requires Distinct(found) && Distinct(rest) && taken <= rest && forall id :: id in rest ==> id !in Elements(found)
    ensures Distinct(found + taken)
  {
    forall i, j | 0 <= i < |found| <= j < |found + taken| ensures found[i] != (found + taken)[j] {
      assert rest[j - |found|] in rest;
    }
  }

  lemma FoundFits(found: seq<Id>, order: seq<Id>)
    requires FoundLive(found, order)
    ensures |found| <= |order|
  {
    DistinctSetSize(order);
    DistinctFits(found, Elements(order));
  }

  /** The pigeonhole: a page of `minimum` rows holds enough fresh ones, unless the cap cut it. */
  lemma SectionLength(found: seq<Id>, order: seq<Id>, minimum: int)
    requires FoundLive(found, order) && |found| < minimum
    ensures var p := Min(Min(minimum, LIST_CAP), |order|); var missed := |Elements(found) - Elements(order[..p])|;
      && Min(minimum, p + missed) == Min(Min(minimum, |order|), LIST_CAP + Beyond(found, order))
      && |found| <= |order|
      && (|found| <= p + missed)
  {
    var p := Min(Min(minimum, LIST_CAP), |order|);
    FoundFits(found, order);
    DistinctSetSize(found);
    DistinctSetSize(order[..p]);
    if p == |order| {
      assert order[..p] == order && Elements(found) - Elements(order) == {};
    }
    var reached := order[..Min(LIST_CAP, |order|)];
    if minimum <= LIST_CAP {
      assert p <= |reached|;
    }
    var missed := Elements(found) - Elements(order[..p]);
    assert Elements(found) <= missed + Elements(order[..p]);
    SubsetSize(Elements(found), missed + Elements(order[..p]));
    AllInOrder(found, order, Min(LIST_CAP, |order|));
  }

  lemma AllInOrder(found: seq<Id>, order: seq<Id>, p: nat)
    requires FoundLive(found, order) && p <= |order|
    ensures p + |Elements(found) - Elements(order[..p])| <= |order|
  {
    var rest := order[p..];
    DistinctSetSize(rest);
    assert order == order[..p] + rest;
    SubsetSize(Elements(found) - Elements(order[..p]), Elements(rest));
  }

  /** The promise is kept exactly when enough rows lie within a listing's reach: always for a minimum
      of at most 1000. */
  lemma PromiseKeptIffWithinReach(found: seq<Id>, order: seq<Id>, minimum: int)
    requires FoundLive(found, order)
    ensures var promised := Min(minimum, |order|); var kept := if |found| >= promised then |found| else promised;
      |Section(found, order, minimum)| == kept <==> |found| >= promised || promised <= LIST_CAP + Beyond(found, order)
  {
    SectionHasTheMinimum(found, order, minimum);
  }
}
