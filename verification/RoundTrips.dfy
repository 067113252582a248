/** What `import_scope` makes of what `export_scope` yields. */
module RoundTrips {
  import opened Sequences
  import opened Rows
  import opened PageLoops
  import opened Portability

  function Base(listed: Listing, m: nat): nat
    requires m <= |KINDS| && forall kind: Kind :: kind in listed
  {
    if m == 0 then 0 else Base(listed, m - 1) + |listed[KINDS[m - 1]]|
  }

  function IndexOf(kind: Kind): (m: nat)
    ensures m < |KINDS| && KINDS[m] == kind
  {
    match kind
    case Working => 0
    case Episodic => 1
    case Facts => 2
    case Profiles => 3
    case Procedures => 4
  }

  /** The position in the stream of row `i` of table `kind`. */
  function At(listed: Listing, kind: Kind, i: nat): nat
    requires forall k: Kind :: k in listed
  {
    Base(listed, IndexOf(kind)) + i
  }

  datatype Place = Place(kind: Kind, i: nat)

  /** `At` the other way round. */
  function Where(listed: Listing, m: nat, k: nat): (p: Place)
    requires m <= |KINDS| && (forall kind: Kind :: kind in listed) && k < Base(listed, m)
    ensures IndexOf(p.kind) < m && p.i < |listed[p.kind]| && At(listed, p.kind, p.i) == k
  {
    if k >= Base(listed, m - 1) then assert IndexOf(KINDS[m - 1]) == m - 1; Place(KINDS[m - 1], k - Base(listed, m - 1))
    else Where(listed, m - 1, k)
  }

  lemma {:induction false} StreamAt(ts: Tables, listed: Listing, m: nat, kind: Kind, i: nat)
    requires Lists(ts, listed) && IndexOf(kind) < m <= |KINDS| && i < |listed[kind]|
    ensures |Stream(ts, listed, m)| == Base(listed, m) && At(listed, kind, i) < Base(listed, m)
    ensures Stream(ts, listed, m)[At(listed, kind, i)] == Segment(kind, ts[kind], listed[kind])[i]
  {
    StreamLength(ts, listed, m);
    StreamLength(ts, listed, m - 1);
    if IndexOf(kind) < m - 1 {
      StreamAt(ts, listed, m - 1, kind, i);
    }
  }

  lemma {:induction false} StreamLength(ts: Tables, listed: Listing, m: nat)
    requires Lists(ts, listed) && m <= |KINDS|
    ensures |Stream(ts, listed, m)| == Base(listed, m)
  {
    if m > 0 {
      StreamLength(ts, listed, m - 1);
    }
  }

  /** Later tables, and later rows of one table, come later in the stream. */
  lemma PlacesAreApart(listed: Listing, k1: nat, k2: nat)
    requires (forall kind: Kind :: kind in listed) && k1 < Base(listed, |KINDS|) && k2 < Base(listed, |KINDS|)
    ensures var p, q := Where(listed, |KINDS|, k1), Where(listed, |KINDS|, k2);
      p.kind == q.kind ==> (k1 < k2 <==> p.i < q.i)
  {
  }

  /** An export of `scope`, about to be imported at `to`. */
  ghost predicate Moving(ts: Tables, scope: Scope, now: Time, listed: Listing, to: Target) {
    && Exports(ts, scope, now, listed)
    && scope.agent != "" && to.scope.agent != ""
    && (forall kind: Kind :: Consistent(ts[kind]))
    && (to.scope.agent == scope.agent || forall q: nat, k: nat :: q != k ==> to.newId(q) != to.newId(k))
  }

  /** Of one tenant, user and thread. */
  predicate SamePlace(from: Scope, to: Scope) {
    Scope(from.tenant, to.agent, from.user, from.thread) == to
  }

  ghost predicate AllFit(ts: Tables, listed: Listing, to: Target)
    requires Lists(ts, listed)
  {
    forall kind: Kind, id :: id in listed[kind] ==> SamePlace(ts[kind][id].scope, to.scope)
  }

  ghost predicate Compatible(ts: Tables, scope: Scope, now: Time, listed: Listing, to: Target) {
    Moving(ts, scope, now, listed, to) && AllFit(ts, listed, to)
  }

  lemma ExportedRecord(ts: Tables, scope: Scope, now: Time, listed: Listing, to: Target, k: nat)
    requires Moving(ts, scope, now, listed, to) && k < Base(listed, |KINDS|)
    ensures |Stream(ts, listed, |KINDS|)| == Base(listed, |KINDS|)
    ensures var p := Where(listed, |KINDS|, k);
      var id := listed[p.kind][p.i];
      && id in listed[p.kind] && id in ts[p.kind] && Live(ts[p.kind][id]) && ts[p.kind][id].scope.agent == scope.agent
      && Stream(ts, listed, |KINDS|)[k] == Ported(Of(p.kind), Some(id), ts[p.kind][id])
  {
    var p := Where(listed, |KINDS|, k);
    StreamAt(ts, listed, |KINDS|, p.kind, p.i);
    assert listed[p.kind][p.i] in listed[p.kind];
    assert IsListing(Selected(ts[p.kind], scope, true, now), listed[p.kind]);
  }

  /** The only thing an import can hold against an exported record is where it came from. */
  lemma RefusedIffMisfit(ts: Tables, scope: Scope, now: Time, listed: Listing, to: Target, k: nat)
    requires Moving(ts, scope, now, listed, to) && k < |Stream(ts, listed, |KINDS|)|
    ensures var records := Stream(ts, listed, |KINDS|);
      && records[k].row.deletedAt.None?
      && Refused(records[k], records[0].row.scope.agent, to.scope)
           == if Fits(records[k].row.scope, to.scope) then None else Some(ScopeMismatch)
  {
    StreamLength(ts, listed, |KINDS|);
    ExportedRecord(ts, scope, now, listed, to, k);
    ExportedRecord(ts, scope, now, listed, to, 0);
  }

  lemma NamesDiffer(ts: Tables, scope: Scope, now: Time, listed: Listing, to: Target, q: nat, k: nat)
    requires Moving(ts, scope, now, listed, to) && q < k < |Stream(ts, listed, |KINDS|)|
    requires Stream(ts, listed, |KINDS|)[q].tag == Stream(ts, listed, |KINDS|)[k].tag
    ensures Name(Stream(ts, listed, |KINDS|)[q], q, to) != Name(Stream(ts, listed, |KINDS|)[k], k, to)
  {
    StreamLength(ts, listed, |KINDS|);
    ExportedRecord(ts, scope, now, listed, to, q);
    ExportedRecord(ts, scope, now, listed, to, k);
    PlacesAreApart(listed, q, k);
    var kind := Where(listed, |KINDS|, k).kind;
    assert IsListing(Selected(ts[kind], scope, true, now), listed[kind]);
  }

  /** As far as the rows fit, the stream is clean. */
  lemma FittingPrefixIsClean(ts: Tables, scope: Scope, now: Time, listed: Listing, to: Target, n: nat)
    requires Moving(ts, scope, now, listed, to) && n <= |Stream(ts, listed, |KINDS|)|
    requires forall k :: 0 <= k < n ==> Fits(Stream(ts, listed, |KINDS|)[k].row.scope, to.scope)
    ensures Clean(Stream(ts, listed, |KINDS|)[..n], to)
  {
    var records := Stream(ts, listed, |KINDS|);
    forall k | 0 <= k < n
      ensures Refused(records[k], records[0].row.scope.agent, to.scope).None? && records[k].row.deletedAt.None? {
      RefusedIffMisfit(ts, scope, now, listed, to, k);
    }
    forall q, k | 0 <= q < k < n && records[q].tag == records[k].tag
      ensures Name(records[q], q, to) != Name(records[k], k, to) {
      NamesDiffer(ts, scope, now, listed, to, q, k);
    }
  }

  lemma ExportIsClean(ts: Tables, scope: Scope, now: Time, listed: Listing, to: Target)
    requires Compatible(ts, scope, now, listed, to)
    ensures Clean(Stream(ts, listed, |KINDS|), to)
  {
    var records := Stream(ts, listed, |KINDS|);
    StreamLength(ts, listed, |KINDS|);
    forall k | 0 <= k < |records| ensures Fits(records[k].row.scope, to.scope) {
      ExportedRecord(ts, scope, now, listed, to, k);
    }
    FittingPrefixIsClean(ts, scope, now, listed, to, |records|);
    assert records[..|records|] == records;
  }

  // ---------------------------------------------------------------- when an export can be imported

  lemma {:induction false} ImportOfPrefix(ts: Tables, records: seq<Ported>, k: nat, n: nat, to: Target)
    requires Full(ts) && n <= k <= |records|
    ensures Import(ts, records[..k], n, to) == Import(ts, records, n, to)
  {
    if n > 0 {
      ImportOfPrefix(ts, records, k, n - 1, to);
    }
  }

  lemma {:induction false} FirstMisfit(records: seq<Ported>, to: Target, k: nat) returns (first: nat)
    requires k < |records| && !Fits(records[k].row.scope, to.scope)
    ensures first <= k && !Fits(records[first].row.scope, to.scope)
    ensures forall j :: 0 <= j < first ==> Fits(records[j].row.scope, to.scope)
    decreases k
  {
    if j: nat :| j < k && !Fits(records[j].row.scope, to.scope) {
      first := FirstMisfit(records, to, j);
    } else {
      first := k;
    }
  }

  /** An export imports exactly if every exported row has the target's tenant, user and thread.  A scope
      with a null field admits rows that set it, so the whole backup of an agent that has threads is refused,
      with the rows before the first misfit already imported. */
  lemma ImportableIffAllFit(ts: Tables, scope: Scope, now: Time, listed: Listing, to: Target)
    requires Moving(ts, scope, now, listed, to)
    ensures var records := Stream(ts, listed, |KINDS|);
      var p := Import(NothingStored(), records, |records|, to);
      && (p.failure.None? <==> AllFit(ts, listed, to))
      && (p.failure.Some? ==>
            && p.failure == Some(ScopeMismatch)
            && exists n: nat ::
              n < |records| && Recreated(p.tables, records[..n], n, to) && !SamePlace(records[n].row.scope, to.scope))
  {
    var records := Stream(ts, listed, |KINDS|);
    if AllFit(ts, listed, to) {
      ExportIsClean(ts, scope, now, listed, to);
      CleanImportSucceeds(records, |records|, to);
    } else {
      var kind: Kind, id :| id in listed[kind] && !Fits(ts[kind][id].scope, to.scope);
      var i :| 0 <= i < |listed[kind]| && listed[kind][i] == id;
      StreamAt(ts, listed, |KINDS|, kind, i);
      var n := FirstMisfit(records, to, At(listed, kind, i));
      StopsAtMisfit(ts, scope, now, listed, to, n);
    }
  }

  lemma StopsAtMisfit(ts: Tables, scope: Scope, now: Time, listed: Listing, to: Target, n: nat)
    requires Moving(ts, scope, now, listed, to) && n < |Stream(ts, listed, |KINDS|)|
    requires !Fits(Stream(ts, listed, |KINDS|)[n].row.scope, to.scope)
    requires forall j :: 0 <= j < n ==> Fits(Stream(ts, listed, |KINDS|)[j].row.scope, to.scope)
    ensures var records := Stream(ts, listed, |KINDS|); var p := Import(NothingStored(), records, |records|, to);
      p.failure == Some(ScopeMismatch) && Recreated(p.tables, records[..n], n, to)
  {
    var records := Stream(ts, listed, |KINDS|);
    FittingPrefixIsClean(ts, scope, now, listed, to, n);
    CleanImportSucceeds(records[..n], n, to);
    RefusedIffMisfit(ts, scope, now, listed, to, n);
    StopsAtRefusal(NothingStored(), records, n, to);
  }

  /** An import that came to record `n` and refuses it ends there, with the first `n` imported. */
  lemma StopsAtRefusal(ts: Tables, records: seq<Ported>, n: nat, to: Target)
    requires Full(ts) && n < |records| && Import(ts, records[..n], n, to).failure.None?
    requires Refused(records[n], records[0].row.scope.agent, to.scope).Some?
    ensures Import(ts, records, |records|, to).tables == Import(ts, records[..n], n, to).tables
    ensures Import(ts, records, |records|, to).failure == Refused(records[n], records[0].row.scope.agent, to.scope)
  {
    ImportOfPrefix(ts, records, n, n, to);
    var before := Import(ts, records, n, to);
    RefusalEnds(ts, records, n, to, before.tables, before.counts);
  }

  lemma RefusalEnds(ts: Tables, records: seq<Ported>, n: nat, to: Target, now: Tables, counts: map<Tag, nat>)
    requires Full(ts) && Full(now) && n < |records| && Import(ts, records, n, to) == Progress(now, counts, None)
    requires Refused(records[n], records[0].row.scope.agent, to.scope).Some?
    ensures Import(ts, records, |records|, to).tables == now
    ensures Import(ts, records, |records|, to).failure == Refused(records[n], records[0].row.scope.agent, to.scope)
  {
    var failure := Refused(records[n], records[0].row.scope.agent, to.scope);
    RefusalIsNext(ts, records, n, to, now, counts);
    StaysFailed(ts, records, n + 1, to, now, failure);
  }

  lemma RefusalIsNext(ts: Tables, records: seq<Ported>, n: nat, to: Target, now: Tables, counts: map<Tag, nat>)
    requires Full(ts) && Full(now) && n < |records| && Import(ts, records, n, to) == Progress(now, counts, None)
    requires Refused(records[n], records[0].row.scope.agent, to.scope).Some?
    ensures Import(ts, records, n + 1, to).tables == now
    ensures Import(ts, records, n + 1, to).failure == Refused(records[n], records[0].row.scope.agent, to.scope)
  {
    NextProgress(ts, records, n, to, now, counts);
  }

  lemma StaysFailed(ts: Tables, records: seq<Ported>, n: nat, to: Target, now: Tables, failure: Option<Failure>)
    requires Full(ts) && n <= |records| && failure.Some?
    requires Import(ts, records, n, to).tables == now && Import(ts, records, n, to).failure == failure
    ensures Import(ts, records, |records|, to).tables == now && Import(ts, records, |records|, to).failure == failure
  {
    FailureStops(ts, records, n, |records|, to);
  }

  // ---------------------------------------------------------------- what comes back

  /** The key under which row `i` of `kind` comes back. */
  function NewName(listed: Listing, scope: Scope, to: Target, kind: Kind, i: nat): Id
    requires (forall k: Kind :: k in listed) && i < |listed[kind]|
  {
    if to.scope.agent == scope.agent then listed[kind][i] else to.newId(At(listed, kind, i))
  }

  /** No newer exported row of the same deduplicating table has the same content hash. */
  ghost predicate Survives(ts: Tables, listed: Listing, to: Target, kind: Kind, i: nat)
    requires Lists(ts, listed) && i < |listed[kind]|
  {
    kind.Working? || forall j: nat :: j < i ==> !SameHash(ts[kind], listed[kind], to, j, i)
  }

  predicate SameHash(t: Table, ids: seq<Id>, to: Target, j: nat, i: nat)
    requires j < |ids| && i < |ids| && forall id :: id in ids ==> id in t
  {
    assert ids[i] in ids && ids[j] in ids;
    to.hash(t[ids[j]].body.content) == to.hash(t[ids[i]].body.content)
  }

  ghost predicate CameBack(ts: Tables, listed: Listing, scope: Scope, to: Target, back: Table, kind: Kind, i: nat)
    requires Lists(ts, listed) && i < |listed[kind]|
  {
    var name := NewName(listed, scope, to, kind, i);
    assert listed[kind][i] in listed[kind];
    var row, now := ts[kind][listed[kind][i]], to.clock(At(listed, kind, i));
    name in back && back[name] == Row(name, to.scope, row.body, row.origin, to.hash(row.body.content), now, now,
                                      row.expiresAt, 1, row.deletedAt, None, None, None, "")
  }

  lemma SurvivesIffLands(ts: Tables, scope: Scope, now: Time, listed: Listing, to: Target, kind: Kind, i: nat)
    requires Compatible(ts, scope, now, listed, to) && i < |listed[kind]|
    ensures |Stream(ts, listed, |KINDS|)| == Base(listed, |KINDS|) && At(listed, kind, i) < Base(listed, |KINDS|)
    ensures Survives(ts, listed, to, kind, i) <==> Lands(Stream(ts, listed, |KINDS|), to, At(listed, kind, i))
  {
    var records, k := Stream(ts, listed, |KINDS|), At(listed, kind, i);
    StreamAt(ts, listed, |KINDS|, kind, i);
    if j: nat :| j < i && SameHash(ts[kind], listed[kind], to, j, i) {
      SameHashIsSameKey(ts, listed, to, kind, j, i);
    } else if q: nat :| q < k && SameKey(records, to, q, k) {
      var j := SameKeyIsSameHash(ts, scope, now, listed, to, kind, i, q);
      assert false;
    }
  }

  lemma SameHashIsSameKey(ts: Tables, listed: Listing, to: Target, kind: Kind, j: nat, i: nat)
    requires Lists(ts, listed) && j < i < |listed[kind]|
    ensures |Stream(ts, listed, |KINDS|)| == Base(listed, |KINDS|) && At(listed, kind, i) < Base(listed, |KINDS|)
    ensures SameKey(Stream(ts, listed, |KINDS|), to, At(listed, kind, j), At(listed, kind, i)) <==>
      SameHash(ts[kind], listed[kind], to, j, i)
  {
    StreamAt(ts, listed, |KINDS|, kind, i);
    StreamAt(ts, listed, |KINDS|, kind, j);
  }

  lemma SameKeyIsSameHash(ts: Tables, scope: Scope, now: Time, listed: Listing, to: Target, kind: Kind, i: nat,
                          q: nat) returns (j: nat)
    requires Compatible(ts, scope, now, listed, to) && i < |listed[kind]|
    requires q < At(listed, kind, i) < |Stream(ts, listed, |KINDS|)|
    requires SameKey(Stream(ts, listed, |KINDS|), to, q, At(listed, kind, i))
    ensures j < i && SameHash(ts[kind], listed[kind], to, j, i)
  {
    StreamLength(ts, listed, |KINDS|);
    StreamAt(ts, listed, |KINDS|, kind, i);
    ExportedRecord(ts, scope, now, listed, to, q);
    var p := Where(listed, |KINDS|, q);
    j := p.i;
    SameHashIsSameKey(ts, listed, to, kind, j, i);
  }

  /** Table `kind` comes back: for every dedup hash its newest row, with a new version and new timestamps
      and otherwise (but for the claim stamp, which is cleared) as it was, and nothing else. */
  ghost predicate ComesBack(ts: Tables, scope: Scope, listed: Listing, to: Target, kind: Kind, back: Table)
    requires Lists(ts, listed)
  {
    && (forall i: nat :: i < |listed[kind]| && Survives(ts, listed, to, kind, i) ==>
          CameBack(ts, listed, scope, to, back, kind, i))
    && (forall id {:trigger BackFrom(ts, scope, listed, to, kind, id)} :: id in back ==>
          BackFrom(ts, scope, listed, to, kind, id))
  }

  ghost predicate BackFrom(ts: Tables, scope: Scope, listed: Listing, to: Target, kind: Kind, id: Id)
    requires Lists(ts, listed)
  {
    exists i: nat ::
      i < |listed[kind]| && Survives(ts, listed, to, kind, i) && NewName(listed, scope, to, kind, i) == id
  }

  /** Exporting a scope and importing it into an empty store: the import succeeds, counts every exported
      row, and every table comes back. */
  lemma RoundTrip(ts: Tables, scope: Scope, now: Time, listed: Listing, to: Target)
    requires Compatible(ts, scope, now, listed, to)
    ensures var records := Stream(ts, listed, |KINDS|); var p := Import(NothingStored(), records, |records|, to);
      && p.failure.None?
      && (forall kind: Kind :: p.counts[Of(kind)] == |listed[kind]|)
      && (forall kind: Kind :: ComesBack(ts, scope, listed, to, kind, p.tables[kind]))
  {
    var records := Stream(ts, listed, |KINDS|);
    ExportIsClean(ts, scope, now, listed, to);
    CleanImportSucceeds(records, |records|, to);
    var p := Import(NothingStored(), records, |records|, to);
    forall kind: Kind ensures p.counts[Of(kind)] == |listed[kind]| {
      EveryRecordIsCounted(NothingStored(), records, |records|, to, kind);
      StreamCount(ts, listed, |KINDS|, kind);
    }
    forall kind: Kind ensures ComesBack(ts, scope, listed, to, kind, p.tables[kind]) {
      TableReturns(ts, scope, now, listed, to, kind, p.tables);
    }
  }

  lemma TableReturns(ts: Tables, scope: Scope, now: Time, listed: Listing, to: Target, kind: Kind, back: Tables)
    requires Compatible(ts, scope, now, listed, to)
    requires var records := Stream(ts, listed, |KINDS|); Recreated(back, records, |records|, to)
    ensures ComesBack(ts, scope, listed, to, kind, back[kind])
  {
    forall i: nat | i < |listed[kind]| && Survives(ts, listed, to, kind, i)
      ensures CameBack(ts, listed, scope, to, back[kind], kind, i) {
      RowReturns(ts, scope, now, listed, to, kind, i, back);
    }
    forall id | id in back[kind] ensures BackFrom(ts, scope, listed, to, kind, id) {
      ArrivedFromExport(ts, scope, now, listed, to, kind, id);
    }
  }

  lemma RowReturns(ts: Tables, scope: Scope, now: Time, listed: Listing, to: Target, kind: Kind, i: nat, back: Tables)
    requires Compatible(ts, scope, now, listed, to) && i < |listed[kind]| && Survives(ts, listed, to, kind, i)
    requires var records := Stream(ts, listed, |KINDS|); Recreated(back, records, |records|, to)
    ensures CameBack(ts, listed, scope, to, back[kind], kind, i)
  {
    var records, k := Stream(ts, listed, |KINDS|), At(listed, kind, i);
    SurvivesIffLands(ts, scope, now, listed, to, kind, i);
    StreamAt(ts, listed, |KINDS|, kind, i);
    ExportedRecord(ts, scope, now, listed, to, k);
    assert Holds(back, records[k], k, to);
  }

  lemma ArrivedFromExport(ts: Tables, scope: Scope, now: Time, listed: Listing, to: Target, kind: Kind, id: Id)
    requires Compatible(ts, scope, now, listed, to)
    requires var records := Stream(ts, listed, |KINDS|); Arrived(records, to, |records|, kind, id)
    ensures BackFrom(ts, scope, listed, to, kind, id)
  {
    var records := Stream(ts, listed, |KINDS|);
    StreamLength(ts, listed, |KINDS|);
    var k: nat :| k < |records| && Lands(records, to, k) && records[k].tag == Of(kind) && Name(records[k], k, to) == id;
    ExportedRecord(ts, scope, now, listed, to, k);
    var p := Where(listed, |KINDS|, k);
    SurvivesIffLands(ts, scope, now, listed, to, kind, p.i);
    assert NewName(listed, scope, to, kind, p.i) == id;
  }

  lemma IndexOfKind(m: nat)
    requires m < |KINDS|
    ensures IndexOf(KINDS[m]) == m
  {
  }

  lemma {:induction false} StreamCount(ts: Tables, listed: Listing, m: nat, kind: Kind)
    requires Lists(ts, listed) && m <= |KINDS|
    ensures CountOf(Stream(ts, listed, m), |Stream(ts, listed, m)|, kind)
      == if IndexOf(kind) < m then |listed[kind]| else 0
  {
    if m > 0 {
      StreamCount(ts, listed, m - 1, kind);
      var k := KINDS[m - 1];
      IndexOfKind(m - 1);
      CountOfSegment(Stream(ts, listed, m - 1), k, ts[k], listed[k], kind);
    }
  }

  lemma CountOfSegment(before: seq<Ported>, k: Kind, t: Table, ids: seq<Id>, kind: Kind)
    requires forall id :: id in ids ==> id in t
    ensures var all := before + Segment(k, t, ids);
      CountOf(all, |all|, kind) == CountOf(before, |before|, kind) + if k == kind then |ids| else 0
  {
    CountOfMore(before, Segment(k, t, ids), k, |ids|, kind);
  }

  lemma {:induction false} CountOfMore(before: seq<Ported>, last: seq<Ported>, k: Kind, n: nat, kind: Kind)
    requires n <= |last| && forall i :: 0 <= i < |last| ==> last[i].tag == Of(k)
    ensures CountOf(before + last, |before| + n, kind) == CountOf(before, |before|, kind) + if k == kind then n else 0
  {
    if n > 0 {
      CountOfMore(before, last, k, n - 1, kind);
    } else {
      CountOfPrefix(before, last, |before|, kind);
    }
  }

  lemma {:induction false} CountOfPrefix(before: seq<Ported>, last: seq<Ported>, n: nat, kind: Kind)
    requires n <= |before|
    ensures CountOf(before + last, n, kind) == CountOf(before, n, kind)
  {
    if n > 0 {
      CountOfPrefix(before, last, n - 1, kind);
    }
  }

  // ---------------------------------------------------------------- when every row comes back

  ghost predicate DistinctHashes(ts: Tables, listed: Listing, to: Target, kind: Kind)
    requires Lists(ts, listed)
  {
    forall j: nat, i: nat :: j < i < |listed[kind]| ==> !SameHash(ts[kind], listed[kind], to, j, i)
  }

  function Names(listed: Listing, scope: Scope, to: Target, kind: Kind): (names: seq<Id>)
    requires forall k: Kind :: k in listed
    ensures |names| == |listed[kind]|
  {
    seq(|listed[kind]|, i requires 0 <= i < |listed[kind]| => NewName(listed, scope, to, kind, i))
  }

  lemma NamesAreDistinct(ts: Tables, scope: Scope, now: Time, listed: Listing, to: Target, kind: Kind)
    requires Compatible(ts, scope, now, listed, to)
    ensures Distinct(Names(listed, scope, to, kind))
  {
    assert IsListing(Selected(ts[kind], scope, true, now), listed[kind]);
  }

  /** All exported rows of a table come back exactly when it does not dedup or no two of them have one
      content hash. */
  lemma AllComeBackIffHashesDiffer(ts: Tables, scope: Scope, now: Time, listed: Listing, to: Target, kind: Kind,
                                   back: Table)
    requires Compatible(ts, scope, now, listed, to) && ComesBack(ts, scope, listed, to, kind, back)
    ensures |back| == |listed[kind]| <==> kind.Working? || DistinctHashes(ts, listed, to, kind)
  {
    var names := Names(listed, scope, to, kind);
    NamesAreDistinct(ts, scope, now, listed, to, kind);
    KeysAreKeptNames(ts, scope, listed, to, kind, back);
    CountKept(names, Kept(ts, listed, to, kind), back.Keys);
    AllKeptIffHashesDiffer(ts, listed, to, kind);
    assert |back.Keys| == |back|;
  }

  ghost function Kept(ts: Tables, listed: Listing, to: Target, kind: Kind): set<int>
    requires Lists(ts, listed)
  {
    set i | 0 <= i < |listed[kind]| && Survives(ts, listed, to, kind, i)
  }

  lemma AllKeptIffHashesDiffer(ts: Tables, listed: Listing, to: Target, kind: Kind)
    requires Lists(ts, listed)
    ensures (forall i :: 0 <= i < |listed[kind]| ==>
      i in Kept(ts, listed, to, kind)) <==> !Dedups(kind) || DistinctHashes(ts, listed, to, kind)
  {
    if Dedups(kind) && (forall i :: 0 <= i < |listed[kind]| ==> i in Kept(ts, listed, to, kind)) {
      forall j: nat, i: nat | j < i < |listed[kind]| ensures !SameHash(ts[kind], listed[kind], to, j, i) {
        assert i in Kept(ts, listed, to, kind);
      }
    }
  }

  lemma KeysAreKeptNames(ts: Tables, scope: Scope, listed: Listing, to: Target, kind: Kind, back: Table)
    requires Lists(ts, listed) && ComesBack(ts, scope, listed, to, kind, back)
    ensures var names, kept := Names(listed, scope, to, kind), Kept(ts, listed, to, kind);
      && (forall i :: i in kept ==> 0 <= i < |names| && names[i] in back)
      && (forall id :: id in back ==> exists i :: i in kept && names[i] == id)
  {
    var names, kept := Names(listed, scope, to, kind), Kept(ts, listed, to, kind);
    forall i | i in kept ensures names[i] in back {
      assert CameBack(ts, listed, scope, to, back, kind, i);
    }
    forall id | id in back ensures exists i :: i in kept && names[i] == id {
      assert BackFrom(ts, scope, listed, to, kind, id);
      var i: nat :|
        i < |listed[kind]| && Survives(ts, listed, to, kind, i) && NewName(listed, scope, to, kind, i) == id;
      assert i in kept && names[i] == id;
    }
  }

  lemma CountKept(names: seq<Id>, kept: set<int>, keys: set<Id>)
    requires Distinct(names)
    requires forall i :: i in kept ==> 0 <= i < |names| && names[i] in keys
    requires forall id :: id in keys ==> exists i :: i in kept && names[i] == id
    ensures |keys| == |names| <==> forall i :: 0 <= i < |names| ==> i in kept
  {
    DistinctSetSize(names);
    var all := set x | x in names;
    assert keys <= all;
    if i :| 0 <= i < |names| && i !in kept {
      assert names[i] !in keys;
      assert names[i] in all;
      SubsetSize(keys, all - {names[i]});
    } else {
      assert all <= keys;
      assert keys == all;
    }
  }
}
