/** Pages cut from sorted answers.  Each page is a query of its own, sorted by a key that need not be
    unique, so each query may break ties its own way. */
module Paging {
  import opened Sequences
  import opened Rows

  /** One answer to ORDER BY rank DESC over `chosen`. */
  ghost predicate IsSorted(chosen: set<Id>, rank: Id -> int, order: seq<Id>) {
    && Distinct(order)
    && (forall x :: x in order <==> x in chosen)
    && (forall i, j :: 0 <= i < j < |order| ==> rank(order[i]) >= rank(order[j]))
  }

  /** The orders of the repositories are of this kind. */
  lemma OrderingIsSorted(t: Table, chosen: set<Id>, order: seq<Id>)
    requires forall id :: id in chosen ==> id in t
    ensures IsOrdering(t, chosen, order) <==> IsSorted(chosen, id => if id in t then t[id].createdAt else 0, order)
  {
  }

  /** The first `pages` pages, page `k` taken from the answer `orders(k)` of its own query. */
  function Paged(orders: nat -> seq<Id>, size: nat, pages: nat): seq<Id> {
    if pages == 0 then []
    else Paged(orders, size, pages - 1) + Page(orders(pages - 1), size, StepsNat(pages - 1, size))
  }

  function StepsNat(n: nat, step: nat): nat {
    StepsGrow(n, step);
    StepsAreNatural(n, step);
    Steps(n, step)
  }

  lemma {:induction false} StepsAreNatural(n: nat, step: nat)
    ensures Steps(n, step) >= 0
  {
    if n > 0 { StepsAreNatural(n - 1, step); }
  }

  lemma {:induction false} SortedLength(chosen: set<Id>, rank: Id -> int, order: seq<Id>)
    requires IsSorted(chosen, rank, order)
    ensures |order| == |chosen|
  {
    DistinctSetSize(order);
    assert (set x | x in order) == chosen;
  }

  ghost predicate Answers(chosen: set<Id>, rank: Id -> int, orders: nat -> seq<Id>) {
    forall k: nat :: IsSorted(chosen, rank, orders(k))
  }

  // ---------------------------------------------------------------- what ties do

  /** Two answers to the same query agree on the rank at every position. */
  lemma RanksAgree(chosen: set<Id>, rank: Id -> int, o: seq<Id>, p: seq<Id>, i: nat)
    requires IsSorted(chosen, rank, o) && IsSorted(chosen, rank, p) && i < |o|
    ensures |o| == |p| && rank(o[i]) == rank(p[i])
  {
    SortedLength(chosen, rank, o);
    SortedLength(chosen, rank, p);
    RankAtMost(chosen, rank, o, p, i);
    RankAtMost(chosen, rank, p, o, i);
  }

  /** Otherwise the first `i + 1` rows of `o` would all have to be among the first `i` of `p`. */
  lemma RankAtMost(chosen: set<Id>, rank: Id -> int, o: seq<Id>, p: seq<Id>, i: nat)
    requires IsSorted(chosen, rank, o) && IsSorted(chosen, rank, p) && i < |o| == |p|
    ensures rank(o[i]) <= rank(p[i])
  {
    if rank(o[i]) > rank(p[i]) {
      var front := o[..i + 1];
      var few := set x | x in p[..i];
      DistinctSetSize(p[..i]);
      forall x | x in front ensures x in few {
        var k :| 0 <= k < |front| && front[k] == x;
        assert x == o[k] && rank(x) >= rank(o[i]);
        assert x in p;
        var m :| 0 <= m < |p| && p[m] == x;
        assert m < i;
        assert p[..i][m] == x;
      }
      DistinctFits(front, few);
    }
  }

  /** A sort without equal keys has one answer. */
  lemma OneAnswer(chosen: set<Id>, rank: Id -> int, o: seq<Id>, p: seq<Id>)
    requires IsSorted(chosen, rank, o) && IsSorted(chosen, rank, p)
    requires forall x, y :: x in chosen && y in chosen && x != y ==> rank(x) != rank(y)
    ensures o == p
  {
    SortedLength(chosen, rank, o);
    SortedLength(chosen, rank, p);
    forall i | 0 <= i < |o| ensures o[i] == p[i] {
      RanksAgree(chosen, rank, o, p, i);
      assert o[i] in o && p[i] in p;
    }
  }

  /** `b` does not fall between two rows of equal rank. */
  ghost predicate CleanCut(rank: Id -> int, order: seq<Id>, b: int) {
    0 < b < |order| ==> rank(order[b - 1]) > rank(order[b])
  }

  /** At a clean cut (or the end) every answer has the same rows before it. */
  lemma SameRowsBeforeCut(chosen: set<Id>, rank: Id -> int, o: seq<Id>, p: seq<Id>, b: nat)
    requires IsSorted(chosen, rank, o) && IsSorted(chosen, rank, p) && b <= |o| && CleanCut(rank, o, b)
    ensures |o| == |p| && forall x :: x in o[..b] <==> x in p[..b]
  {
    SortedLength(chosen, rank, o);
    SortedLength(chosen, rank, p);
    if 0 < b < |o| {
      RanksAgree(chosen, rank, o, p, b);
      RanksAgree(chosen, rank, o, p, b - 1);
      BeforeCutStaysBefore(chosen, rank, o, p, b);
      BeforeCutStaysBefore(chosen, rank, p, o, b);
    } else if b == |o| {
      assert o[..b] == o && p[..b] == p;
    }
  }

  lemma BeforeCutStaysBefore(chosen: set<Id>, rank: Id -> int, o: seq<Id>, p: seq<Id>, b: nat)
    requires IsSorted(chosen, rank, o) && IsSorted(chosen, rank, p) && 0 < b < |o| == |p|
    requires rank(o[b - 1]) > rank(p[b])
    ensures forall x :: x in o[..b] ==> x in p[..b]
  {
    forall x | x in o[..b] ensures x in p[..b] {
      var k :| 0 <= k < b && o[k] == x;
      assert rank(x) >= rank(o[b - 1]);
      assert x in p;
      var m :| 0 <= m < |p| && p[m] == x;
      assert m < b;
      assert p[..b][m] == x;
    }
  }

  /** No page boundary falls inside a group of equally ranked rows. */
  ghost predicate NoTieAcrossPages(rank: Id -> int, order: seq<Id>, size: nat) {
    forall k: nat :: CleanCut(rank, order, Steps(k, size))
  }

  /** The invariant of the loop: the first `e` rows are the rows every answer puts first, each once,
      with the ranks of the full order. */
  ghost predicate GoodFront(rank: Id -> int, front: seq<Id>, order: seq<Id>) {
    && |front| <= |order|
    && Distinct(front)
    && (forall x :: x in front <==> x in order[..|front|])
    && (forall i :: 0 <= i < |front| ==> rank(front[i]) == rank(order[i]))
  }

  lemma ExtendFront(chosen: set<Id>, rank: Id -> int, front: seq<Id>, o: seq<Id>, p: seq<Id>, e: nat)
    requires IsSorted(chosen, rank, o) && IsSorted(chosen, rank, p) && GoodFront(rank, front, o)
    requires |front| <= e <= |o| && |o| == |p| && CleanCut(rank, o, |front|) && CleanCut(rank, o, e)
    ensures GoodFront(rank, front + p[|front|..e], o)
  {
    var b := |front|;
    var next := p[b..e];
    SameRowsBeforeCut(chosen, rank, o, p, b);
    SameRowsBeforeCut(chosen, rank, o, p, e);
    assert p[..e] == p[..b] + next;
    DistinctTogether(front, p, b, e);
    forall x ensures x in front + next <==> x in o[..e] {
      assert x in front + next <==> x in front || x in next;
      assert x in p[..e] <==> x in p[..b] || x in next;
    }
    forall i | b <= i < e ensures rank((front + next)[i]) == rank(o[i]) {
      RanksAgree(chosen, rank, o, p, i);
    }
  }

  lemma DistinctTogether(front: seq<Id>, p: seq<Id>, b: nat, e: nat)
    requires Distinct(front) && Distinct(p) && |front| == b <= e <= |p|
    requires forall x :: x in front <==> x in p[..b]
    ensures Distinct(front + p[b..e])
  {
    forall i, j | 0 <= i < b <= j < e ensures front[i] != (front + p[b..e])[j] {
      assert front[i] in front;
      var m :| 0 <= m < b && p[m] == front[i];
    }
  }

  lemma {:induction false} PagedFront(chosen: set<Id>, rank: Id -> int, orders: nat -> seq<Id>, o: seq<Id>, size: nat,
                                      pages: nat)
    requires 1 <= size <= LIST_CAP && Answers(chosen, rank, orders) && IsSorted(chosen, rank, o)
    requires NoTieAcrossPages(rank, o, size)
    ensures FrontOf(rank, Paged(orders, size, pages), o, Steps(pages, size))
  {
    if pages > 0 {
      PagedFront(chosen, rank, orders, o, size, pages - 1);
      NextPageExtends(chosen, rank, orders, o, size, pages - 1);
    }
  }

  lemma NextPageExtends(chosen: set<Id>, rank: Id -> int, orders: nat -> seq<Id>, o: seq<Id>, size: nat, k: nat)
    requires 1 <= size <= LIST_CAP && Answers(chosen, rank, orders) && IsSorted(chosen, rank, o)
    requires NoTieAcrossPages(rank, o, size) && FrontOf(rank, Paged(orders, size, k), o, Steps(k, size))
    ensures FrontOf(rank, Paged(orders, size, k + 1), o, Steps(k + 1, size))
  {
    AnswersSorted(chosen, rank, orders, k);
    CutsAreClean(rank, o, size, k);
    CutsAreClean(rank, o, size, k + 1);
    PageExtends(chosen, rank, Paged(orders, size, k), o, orders(k), size, StepsNat(k, size));
  }

  ghost predicate FrontOf(rank: Id -> int, front: seq<Id>, o: seq<Id>, b: int) {
    GoodFront(rank, front, o) && |front| == Min(b, |o|)
  }

  lemma AnswersSorted(chosen: set<Id>, rank: Id -> int, orders: nat -> seq<Id>, k: nat)
    requires Answers(chosen, rank, orders)
    ensures IsSorted(chosen, rank, orders(k))
  {
  }

  lemma CutsAreClean(rank: Id -> int, o: seq<Id>, size: nat, k: nat)
    requires NoTieAcrossPages(rank, o, size)
    ensures CleanCut(rank, o, Steps(k, size))
  {
  }

  lemma PageExtends(chosen: set<Id>, rank: Id -> int, front: seq<Id>, o: seq<Id>, p: seq<Id>, size: nat, b: nat)
    requires 1 <= size <= LIST_CAP && IsSorted(chosen, rank, o) && IsSorted(chosen, rank, p)
    requires FrontOf(rank, front, o, b) && CleanCut(rank, o, b) && CleanCut(rank, o, b + size)
    ensures FrontOf(rank, front + Page(p, size, b), o, b + size)
  {
    SortedLength(chosen, rank, p);
    SortedLength(chosen, rank, o);
    var e := Min(b + size, |o|);
    assert Page(p, size, b) == p[|front|..e];
    ExtendFront(chosen, rank, front, o, p, e);
  }

  /** If no boundary splits a tie, the concatenated pages are themselves one full answer: every row
      once, in order, however each query broke its ties. */
  lemma SortedPagesConcatenate(chosen: set<Id>, rank: Id -> int, orders: nat -> seq<Id>, o: seq<Id>, size: nat,
                               pages: nat)
    requires 1 <= size <= LIST_CAP && Answers(chosen, rank, orders) && IsSorted(chosen, rank, o)
    requires NoTieAcrossPages(rank, o, size) && |chosen| <= Steps(pages, size)
    ensures IsSorted(chosen, rank, Paged(orders, size, pages))
  {
    PagedFront(chosen, rank, orders, o, size, pages);
    SortedLength(chosen, rank, o);
    assert o[..|o|] == o;
  }

  /** In particular a unique sort key makes paging exact. */
  lemma UniqueKeysNeverTie(chosen: set<Id>, rank: Id -> int, o: seq<Id>, size: nat)
    requires IsSorted(chosen, rank, o)
    requires forall x, y :: x in chosen && y in chosen && x != y ==> rank(x) != rank(y)
    ensures NoTieAcrossPages(rank, o, size)
  {
    forall k: nat ensures CleanCut(rank, o, Steps(k, size)) {
      var b := Steps(k, size);
      if 0 < b < |o| {
        assert o[b - 1] in o && o[b] in o;
      }
    }
  }

  /** The first `k` queries are answered with `o`, the later ones with `p`. */
  function Switch(o: seq<Id>, p: seq<Id>, k: nat): nat -> seq<Id> {
    (n: nat) => if n < k then o else p
  }

  lemma {:induction false} BeforeSwitch(o: seq<Id>, p: seq<Id>, size: nat, k: nat, pages: nat)
    requires 1 <= size <= LIST_CAP && |o| == |p| && pages <= k
    ensures Steps(pages, size) >= 0
    ensures Paged(Switch(o, p, k), size, pages) == o[..Min(Steps(pages, size), |o|)]
  {
    StepsAreNatural(pages, size);
    if pages > 0 {
      BeforeSwitch(o, p, size, k, pages - 1);
      NextPage(o, o, size, 0, StepsNat(pages - 1, size));
      assert o[..0] == [];
    }
  }

  lemma {:induction false} AfterSwitch(o: seq<Id>, p: seq<Id>, size: nat, k: nat, pages: nat)
    requires 1 <= size <= LIST_CAP && |o| == |p| && pages >= k
    ensures 0 <= Steps(k, size) <= Steps(pages, size)
    ensures var b := Min(Steps(k, size), |o|); var e := Min(Steps(pages, size), |o|);
      Paged(Switch(o, p, k), size, pages) == o[..b] + p[b..e]
    decreases pages
  {
    StepsAreNatural(k, size);
    if pages > k {
      AfterSwitch(o, p, size, k, pages - 1);
      NextPage(o, p, size, Steps(k, size), StepsNat(pages - 1, size));
    } else {
      BeforeSwitch(o, p, size, k, k);
    }
  }

  lemma NextPage(o: seq<Id>, p: seq<Id>, size: nat, cut: nat, offset: nat)
    requires size <= LIST_CAP && |o| == |p| && cut <= offset
    ensures var b := Min(cut, |o|); var e0 := Min(offset, |o|); var e := Min(offset + size, |o|);
      o[..b] + p[b..e0] + Page(p, size, offset) == o[..b] + p[b..e]
  {
  }

  /** Conversely, one boundary inside a tie is enough: the database may answer the page after it so that
      one row comes twice and another never. */
  lemma SplitTieLosesARowIn(chosen: set<Id>, rank: Id -> int, o: seq<Id>, size: nat, k: nat, pages: nat)
    returns (orders: nat -> seq<Id>, twice: nat, never: Id)
    requires 1 <= size <= LIST_CAP && IsSorted(chosen, rank, o) && !CleanCut(rank, o, Steps(k, size))
    requires |chosen| <= Steps(pages, size)
    ensures Answers(chosen, rank, orders)
    ensures never in chosen && never !in Paged(orders, size, pages)
    ensures 0 < twice < |Paged(orders, size, pages)|
    ensures Paged(orders, size, pages)[twice - 1] == Paged(orders, size, pages)[twice]
  {
    var b := StepsNat(k, size);
    var p := o[b - 1 := o[b]][b := o[b - 1]];
    SwapStaysSorted(chosen, rank, o, b);
    SortedLength(chosen, rank, o);
    orders, twice, never := Switch(o, p, k), b, o[b];
    assert never in o;
    StepsMonotone(k, pages, size);
    AfterSwitch(o, p, size, k, pages);
    var out := Paged(orders, size, pages);
    assert out == o[..b] + p[b..];
    forall i | 0 <= i < |out| ensures out[i] != never {
      assert out[i] == if i < b then o[i] else p[i];
    }
  }

  /** Fewer rounds than `pages` end before `pages` rounds do. */
  lemma {:induction false} StepsMonotone(k: nat, pages: nat, size: nat)
    requires size >= 1
    ensures Steps(k, size) < Steps(pages, size) ==> k < pages
    decreases k
  {
    if k >= pages {
      if k > pages {
        StepsMonotone(k - 1, pages, size);
      }
    }
  }

  lemma SwapStaysSorted(chosen: set<Id>, rank: Id -> int, o: seq<Id>, b: nat)
    requires IsSorted(chosen, rank, o) && 0 < b < |o| && rank(o[b - 1]) == rank(o[b])
    ensures IsSorted(chosen, rank, o[b - 1 := o[b]][b := o[b - 1]])
  {
    var p := o[b - 1 := o[b]][b := o[b - 1]];
    forall x ensures x in p <==> x in o {
      if x in o {
        var i :| 0 <= i < |o| && o[i] == x;
        assert p[if i == b then b - 1 else if i == b - 1 then b else i] == x;
      }
    }
  }
}
