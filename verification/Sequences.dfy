/** Facts about sequences that several components share. */
module Sequences {

  ghost predicate Distinct<T>(s: seq<T>) {
    forall i, j :: 0 <= i < j < |s| ==> s[i] != s[j]
  }

  ghost predicate Ascending(s: seq<int>) {
    forall i, j :: 0 <= i < j < |s| ==> s[i] < s[j]
  }

  /** `picked` are the elements of `s` at the positions `at`, in the order of `s`. */
  ghost predicate PickedAt<T>(picked: seq<T>, s: seq<T>, at: seq<int>) {
    && Ascending(at) && |picked| == |at|
    && forall k :: 0 <= k < |at| ==> 0 <= at[k] < |s| && picked[k] == s[at[k]]
  }

  lemma PickMore<T>(picked: seq<T>, s: seq<T>, at: seq<int>, x: T)
    requires PickedAt(picked, s, at)
    ensures PickedAt(picked, s + [x], at) && PickedAt(picked + [x], s + [x], at + [|s|])
    ensures forall i :: i in at + [|s|] <==> i in at || i == |s|
  {
  }

  function Flatten<T>(lists: seq<seq<T>>): seq<T> {
    if lists == [] then [] else Flatten(lists[..|lists| - 1]) + lists[|lists| - 1]
  }

  /** The positions of the lists that are not empty. */
  function Filled<T>(lists: seq<seq<T>>): (at: seq<int>)
    ensures forall i :: i in at <==> 0 <= i < |lists| && |lists[i]| > 0
  {
    if lists == [] then []
    else
      var n := |lists| - 1;
      if |lists[n]| > 0 then Filled(lists[..n]) + [n] else Filled(lists[..n])
  }

  lemma {:induction false} FilledAscends<T>(lists: seq<seq<T>>)
    ensures Ascending(Filled(lists))
  {
    if lists != [] {
      var rest := Filled(lists[..|lists| - 1]);
      FilledAscends(lists[..|lists| - 1]);
      assert forall k :: 0 <= k < |rest| ==> rest[k] in rest;
    }
  }

  /** Of lists of at most one element, one after the other, element `k` comes from the `k`-th that is not empty. */
  lemma {:induction false} FlattenAt<T>(lists: seq<seq<T>>, k: nat)
    requires forall i :: 0 <= i < |lists| ==> |lists[i]| <= 1
    ensures |Filled(lists)| == |Flatten(lists)|
    ensures k < |Flatten(lists)| ==> Filled(lists)[k] in Filled(lists) && lists[Filled(lists)[k]] == [Flatten(lists)[k]]
  {
    if lists != [] {
      var n := |lists| - 1;
      var front := lists[..n];
      FlattenAt(front, k);
      if k < |Flatten(front)| {
        assert Filled(lists)[k] == Filled(front)[k] && Flatten(lists)[k] == Flatten(front)[k];
        assert Filled(front)[k] in Filled(front);
        assert front[Filled(front)[k]] == lists[Filled(front)[k]];
      }
    }
  }

  function Min(a: int, b: int): int { if a <= b then a else b }

  function Elements<T(==)>(s: seq<T>): set<T> {
    set x | x in s
  }

  lemma ElementsOfMore<T>(s: seq<T>, x: T)
    ensures Elements(s + [x]) == Elements(s) + {x}
  {
  }

  lemma {:induction false} DistinctFits<T>(s: seq<T>, domain: set<T>)
    requires Distinct(s) && forall x :: x in s ==> x in domain
    ensures |s| <= |domain|
  {
    if s != [] {
      var rest := s[..|s| - 1];
      DistinctFits(rest, domain - {s[|s| - 1]});
    }
  }

  lemma {:induction false} DistinctSetSize<T>(s: seq<T>)
    requires Distinct(s)
    ensures |set x | x in s| == |s|
  {
    if s != [] {
      var rest := s[..|s| - 1];
      DistinctSetSize(rest);
      assert (set x | x in s) == (set x | x in rest) + {s[|s| - 1]};
    }
  }

  lemma SubsetSize<T>(a: set<T>, b: set<T>)
    requires a <= b
    ensures |a| <= |b|
  {
    assert b == a + (b - a);
  }

  lemma {:induction false} DistinctOccursOnce<T>(s: seq<T>, x: T)
    requires Distinct(s) && x in s
    ensures multiset(s)[x] == 1
  {
    var n := |s| - 1;
    assert s == s[..n] + [s[n]];
    if x == s[n] {
      assert x !in s[..n];
    } else {
      DistinctOccursOnce(s[..n], x);
    }
  }

  function Reversed<T>(s: seq<T>): (r: seq<T>)
    ensures |r| == |s| && forall i :: 0 <= i < |s| ==> r[i] == s[|s| - 1 - i]
  {
    seq(|s|, i requires 0 <= i < |s| => s[|s| - 1 - i])
  }

  lemma {:induction false} FreshNumber(taken: set<nat>) returns (n: nat)
    ensures n !in taken && forall m :: m in taken ==> m < n
  {
    if taken == {} {
      n := 0;
    } else {
      var m :| m in taken;
      var rest := FreshNumber(taken - {m});
      assert taken == taken - {m} + {m};
      n := if rest > m then rest else m + 1;
    }
  }

  /** A run of steps. */
  function Fold<S, E>(step: (S, E) -> S, s: S, es: seq<E>): S {
    if es == [] then s else step(Fold(step, s, es[..|es| - 1]), es[|es| - 1])
  }

  lemma {:induction false} FoldAppend<S, E>(step: (S, E) -> S, s: S, es: seq<E>, more: seq<E>)
    ensures Fold(step, s, es + more) == Fold(step, Fold(step, s, es), more)
  {
    if more == [] {
      assert es + more == es;
    } else {
      var n := |more| - 1;
      FoldAppend(step, s, es, more[..n]);
      assert (es + more)[..|es| + n] == es + more[..n];
    }
  }

  /** A tally kept in a map, zero where the map says nothing. */
  function Count<K>(m: map<K, nat>, k: K): nat {
    if k in m then m[k] else 0
  }

  /** Strictly increasing: no two readings are equal. */
  ghost predicate Ticks(clock: nat -> int) {
    forall i: nat, j: nat :: i < j ==> clock(i) < clock(j)
  }

  /** A loop variable after `n` rounds of `i += step`, from 0. */
  function Steps(n: nat, step: int): int {
    if n == 0 then 0 else Steps(n - 1, step) + step
  }

  lemma {:induction false} StepsGrow(n: nat, step: int)
    ensures step >= 1 ==> Steps(n, step) >= n
    ensures step <= 0 ==> Steps(n, step) <= 0
  {
    if n > 0 {
      StepsGrow(n - 1, step);
    }
  }
}
