/** `MemoryStore.export_scope` and `import_scope`, with chunking off. */
module Portability {
  import opened Sequences
  import opened Rows
  import opened Repositories
  import opened Paging
  import opened PageLoops

  datatype Kind = Working | Episodic | Facts | Profiles | Procedures

  /** The `_type` of an exported record. */
  datatype Tag = Missing | Unknown | Chunk | Of(kind: Kind)

  /** The order of `_EXPORT_TYPE_TO_REPO_ATTR`. */
  const KINDS: seq<Kind> := [Working, Episodic, Facts, Profiles, Procedures]
  const EXPORT_BATCH_SIZE := 500

  /** The class constant of each repository: only working memory turns dedup off. */
  predicate Dedups(kind: Kind) {
    kind != Working
  }

  lemma EveryKindIsListed()
    ensures forall kind: Kind :: kind in KINDS
  {
    forall kind: Kind ensures kind in KINDS {
      match kind {
        case Working => assert KINDS[0] == kind;
        case Episodic => assert KINDS[1] == kind;
        case Facts => assert KINDS[2] == kind;
        case Profiles => assert KINDS[3] == kind;
        case Procedures => assert KINDS[4] == kind;
      }
    }
  }

  /** One exported record. */
  datatype Ported = Ported(tag: Tag, id: Option<Id>, row: Row)

  /** Where an import writes; the clock and the fresh ids are those of the k-th record. */
  datatype Target = Target(scope: Scope, clock: nat -> Time, newId: nat -> Id, hash: string -> string)

  type Tables = map<Kind, Table>

  predicate Full(ts: Tables) {
    forall kind: Kind :: kind in ts
  }

  // ---------------------------------------------------------------- one record

  /** The three scope fields an import does not let differ. */
  predicate Fits(actual: Scope, wanted: Scope) {
    actual.tenant == wanted.tenant && actual.user == wanted.user && actual.thread == wanted.thread
  }

  /** The checks before the insert, in their order; `source` is the agent of the first record. */
  function Refused(rec: Ported, source: string, scope: Scope): Option<Failure> {
    if rec.tag.Missing? then Some(MissingType)
    else if !Fits(rec.row.scope, scope) then Some(ScopeMismatch)
    else if rec.row.scope.agent != source then Some(ScopeMismatch)
    else if rec.tag.Chunk? then Some(ChunkingDisabled)
    else if rec.tag.Unknown? then Some(UnknownType)
    else if scope.agent == "" then Some(MissingAgentId)
    else None
  }

  /** The id survives only a restore under the same agent. */
  function Name(rec: Ported, k: nat, to: Target): Id {
    if rec.id.None? || rec.row.scope.agent != to.scope.agent then to.newId(k) else rec.id.value
  }

  function Prepared(rec: Ported, k: nat, to: Target): Row {
    rec.row.(id := Name(rec, k, to))
  }

  function Landed(rec: Ported, k: nat, to: Target): Row {
    Inserted(Prepared(rec, k, to), to.scope, to.clock(k), to.hash)
  }

  // ---------------------------------------------------------------- a whole stream

  datatype Progress = Progress(tables: Tables, counts: map<Tag, nat>, failure: Option<Failure>)

  function NoCounts(): map<Tag, nat> {
    (map kind: Kind | true :: Of(kind) := 0)[Chunk := 0]
  }

  function Counted(counts: map<Tag, nat>, rec: Ported, failure: Option<Failure>): map<Tag, nat> {
    if failure.None? && rec.tag in counts then counts[rec.tag := counts[rec.tag] + 1] else counts
  }

  predicate Sound(p: Progress) {
    Full(p.tables) && forall kind: Kind :: Of(kind) in p.counts
  }

  /** What `create` makes of a record that passed the checks. */
  predicate Collides(t: Table, row: Row, kind: Kind, to: Target) {
    !(Dedups(kind) && DedupHits(t, to.scope, to.hash(row.body.content)) != {}) && row.id in t
  }

  function Trouble(ts: Tables, records: seq<Ported>, k: nat, to: Target): Option<Failure>
    requires Full(ts) && k < |records|
  {
    var rec := records[k];
    var refused := Refused(rec, records[0].row.scope.agent, to.scope);
    if refused.Some? then refused
    else if Collides(ts[rec.tag.kind], Prepared(rec, k, to), rec.tag.kind, to) then Some(DuplicateKey)
    else None
  }

  function Step(p: Progress, records: seq<Ported>, k: nat, to: Target): (next: Progress)
    requires Sound(p) && k < |records|
    ensures Sound(next)
  {
    var rec, failure := records[k], Trouble(p.tables, records, k, to);
    if p.failure.Some? then p
    else if failure.Some? then p.(failure := failure)
    else Progress(WithCreated(p.tables, rec, k, to), Counted(p.counts, rec, None), None)
  }

  function WithCreated(ts: Tables, rec: Ported, k: nat, to: Target): Tables
    requires Full(ts) && rec.tag.Of?
  {
    var kind := rec.tag.kind;
    ts[kind := Create(ts[kind], Prepared(rec, k, to), to.scope, to.clock(k), to.hash, Dedups(kind)).table]
  }

  /** The first `n` records, stopping for good at the first failure. */
  function Import(ts: Tables, records: seq<Ported>, n: nat, to: Target): (p: Progress)
    requires Full(ts) && n <= |records|
    ensures Sound(p)
  {
    if n == 0 then Progress(ts, NoCounts(), None) else Step(Import(ts, records, n - 1, to), records, n - 1, to)
  }

  lemma {:induction false} FailureStops(ts: Tables, records: seq<Ported>, n: nat, m: nat, to: Target)
    requires Full(ts) && n <= m <= |records| && Import(ts, records, n, to).failure.Some?
    ensures Import(ts, records, m, to) == Import(ts, records, n, to)
    decreases m
  {
    if n < m {
      FailureStops(ts, records, n, m - 1, to);
    }
  }

  lemma NextProgress(ts: Tables, records: seq<Ported>, k: nat, to: Target, now: Tables, counts: map<Tag, nat>)
    requires Full(ts) && k < |records| && Full(now) && Import(ts, records, k, to) == Progress(now, counts, None)
    ensures var failure := Trouble(now, records, k, to);
      Import(ts, records, k + 1, to) == Progress(
        if failure.Some? then now
        else WithCreated(now, records[k], k, to), Counted(counts, records[k], failure), failure)
  {
  }

  /** The five repositories of a store. */
  class MemoryStore {
    const repos: map<Kind, Repository>

    ghost predicate Valid() {
      && (forall kind: Kind :: kind in repos)
      && (forall k1: Kind, k2: Kind :: k1 != k2 ==> repos[k1] != repos[k2])
      && (forall kind: Kind :: repos[kind].dedup == Dedups(kind))
    }

    ghost function View(): Tables
      reads repos.Values
    {
      map kind | kind in repos :: repos[kind].rows
    }

    constructor (hash: string -> string)
      ensures Valid() && fresh(repos.Values)
      ensures forall kind: Kind :: repos[kind].rows == map[] && repos[kind].hash == hash
    {
      var m: map<Kind, Repository> := map[];
      for i := 0 to |KINDS|
        invariant forall kind :: kind in m <==> kind in KINDS[..i]
        invariant forall kind :: kind in m ==>
          fresh(m[kind]) && m[kind].dedup == Dedups(kind) && m[kind].rows == map[] && m[kind].hash == hash
        invariant forall k1, k2 :: k1 in m && k2 in m && k1 != k2 ==> m[k1] != m[k2]
      {
        var repo := new Repository(Dedups(KINDS[i]), hash);
        m := m[KINDS[i] := repo];
      }
      EveryKindIsListed();
      assert KINDS[..|KINDS|] == KINDS;
      repos := m;
    }

    method CreateRecord(rec: Ported, k: nat, to: Target) returns (failure: Option<Failure>)
      requires Valid() && (forall kind: Kind :: kind in repos ==> repos[kind].hash == to.hash)
      requires rec.tag.Of?
      modifies repos.Values
      ensures Full(old(View()))
      ensures to.scope.agent == "" ==> failure == Some(MissingAgentId) && View() == old(View())
      ensures to.scope.agent != "" && Collides(old(View())[rec.tag.kind], Prepared(rec, k, to), rec.tag.kind, to) ==>
        failure == Some(DuplicateKey) && View() == old(View())
      ensures to.scope.agent != "" && !Collides(old(View())[rec.tag.kind], Prepared(rec, k, to), rec.tag.kind, to) ==>
        failure == None && View() == WithCreated(old(View()), rec, k, to)
    {
      var repo := repos[rec.tag.kind];
      var made := repo.Create(Prepared(rec, k, to), to.scope, to.clock(k));
      assert View() == old(View())[rec.tag.kind := repo.rows];
      return if made.Raised? then Some(made.error) else None;
    }

    /** One round of the loop: the checks in order, then `create`. */
    method ImportRecord(records: seq<Ported>, k: nat, to: Target, source: Option<string>)
      returns (failure: Option<Failure>)
      requires Valid() && (forall kind: Kind :: kind in repos ==> repos[kind].hash == to.hash)
      requires k < |records| && source == if k == 0 then None else Some(records[0].row.scope.agent)
      modifies repos.Values
      ensures Full(old(View())) && failure == Trouble(old(View()), records, k, to)
      ensures View() == if failure.Some? then old(View()) else WithCreated(old(View()), records[k], k, to)
      ensures var rec := records[k]; var from := rec.row.scope;
        failure == if rec.tag.Missing? then Some(MissingType)
          else if from.tenant != to.scope.tenant || from.user != to.scope.user || from.thread != to.scope.thread
            then Some(ScopeMismatch)
          else if from.agent != records[0].row.scope.agent then Some(ScopeMismatch)
          else if rec.tag.Chunk? then Some(ChunkingDisabled)
          else if rec.tag.Unknown? then Some(UnknownType)
          else if to.scope.agent == "" then Some(MissingAgentId)
          else if Name(rec, k, to) in old(View())[rec.tag.kind]
               && (rec.tag.kind.Working?
                   || DedupHits(old(View())[rec.tag.kind], to.scope, to.hash(rec.row.body.content)) == {})
            then Some(DuplicateKey)
          else None
    {
      var rec := records[k];
      if rec.tag.Missing? {
        return Some(MissingType);
      }
      if !Fits(rec.row.scope, to.scope) {
        return Some(ScopeMismatch);
      }
      if source.Some? && rec.row.scope.agent != source.value {
        return Some(ScopeMismatch);
      }
      if rec.tag.Chunk? {
        return Some(ChunkingDisabled);
      }
      if rec.tag.Unknown? {
        return Some(UnknownType);
      }
      failure := CreateRecord(rec, k, to);
    }

    /** A failure leaves every record before the bad one imported. */
    method ImportScope(records: seq<Ported>, to: Target) returns (r: Reply<map<Tag, nat>>)
      requires Valid() && forall kind: Kind :: kind in repos ==> repos[kind].hash == to.hash
      modifies repos.Values
      ensures Full(old(View()))
      ensures var p := Import(old(View()), records, |records|, to);
        View() == p.tables && r == if p.failure.Some? then Raised(p.failure.value) else Returned(p.counts)
    {
      ghost var before := View();
      var counts := NoCounts();
      var source: Option<string> := None;
      for k := 0 to |records|
        invariant Full(before) && Import(before, records, k, to) == Progress(View(), counts, None)
        invariant source == if k == 0 then None else Some(records[0].row.scope.agent)
      {
        NextProgress(before, records, k, to, View(), counts);
        var failure := ImportRecord(records, k, to, source);
        counts := Counted(counts, records[k], failure);
        if failure.Some? {
          FailureStops(before, records, k + 1, |records|, to);
          return Raised(failure.value);
        }
        if source.None? {
          source := Some(records[k].row.scope.agent);
        }
      }
      return Returned(counts);
    }
  }

  // ---------------------------------------------------------------- what an import leaves alone

  ghost predicate Extends(ts: Tables, ts': Tables) {
    && Full(ts) && Full(ts')
    && forall kind: Kind, id :: id in ts[kind] ==> id in ts'[kind] && ts'[kind][id] == ts[kind][id]
  }

  /** Whatever the stream, failing or not, no row that was there is changed or lost; in particular
      copying to another agent leaves the source agent's rows alone. */
  lemma {:induction false} ImportOnlyAdds(ts: Tables, records: seq<Ported>, n: nat, to: Target)
    requires Full(ts) && n <= |records|
    ensures Extends(ts, Import(ts, records, n, to).tables)
  {
    if n > 0 {
      ImportOnlyAdds(ts, records, n - 1, to);
      StepOnlyAdds(ts, Import(ts, records, n - 1, to), records, n - 1, to);
      assert Import(ts, records, n, to) == Step(Import(ts, records, n - 1, to), records, n - 1, to);
    }
  }

  lemma StepOnlyAdds(ts: Tables, p: Progress, records: seq<Ported>, k: nat, to: Target)
    requires Sound(p) && k < |records| && Extends(ts, p.tables)
    ensures Extends(ts, Step(p, records, k, to).tables)
  {
  }

  // ---------------------------------------------------------------- what an import into an empty store makes

  /** A stream the checks let through, with live rows and without a repeated key. */
  ghost predicate Clean(records: seq<Ported>, to: Target) {
    && (forall k :: 0 <= k < |records| ==> Refused(records[k], records[0].row.scope.agent, to.scope).None?)
    && (forall k :: 0 <= k < |records| ==> records[k].row.deletedAt.None?)
    && (forall q, k :: 0 <= q < k < |records| && records[q].tag == records[k].tag ==>
          Name(records[q], q, to) != Name(records[k], k, to))
  }

  ghost predicate SameKey(records: seq<Ported>, to: Target, q: nat, k: nat)
    requires q < |records| && k < |records|
  {
    && records[q].tag == records[k].tag
    && to.hash(records[q].row.body.content) == to.hash(records[k].row.body.content)
  }

  /** Record `k` is inserted: its table does not dedup, or no earlier record for it has its hash. */
  ghost predicate Lands(records: seq<Ported>, to: Target, k: nat)
    requires k < |records|
  {
    && records[k].tag.Of?
    && (Dedups(records[k].tag.kind) ==> forall q: nat :: q < k ==> !SameKey(records, to, q, k))
  }

  lemma {:induction false} FirstOfItsKeyLands(records: seq<Ported>, to: Target, k: nat) returns (first: nat)
    requires k < |records| && records[k].tag.Of?
    ensures first <= k && SameKey(records, to, first, k) && Lands(records, to, first)
  {
    if exists q: nat :: q < k && SameKey(records, to, q, k) {
      var q: nat :| q < k && SameKey(records, to, q, k);
      first := FirstOfItsKeyLands(records, to, q);
    } else {
      first := k;
    }
  }

  /** `id` is the key under which one of the first `n` records landed in table `kind`. */
  ghost predicate Arrived(records: seq<Ported>, to: Target, n: nat, kind: Kind, id: Id)
    requires n <= |records|
  {
    exists k: nat :: k < n && Lands(records, to, k) && records[k].tag == Of(kind) && Name(records[k], k, to) == id
  }

  predicate Holds(ts: Tables, rec: Ported, k: nat, to: Target)
    requires Full(ts) && rec.tag.Of?
  {
    Name(rec, k, to) in ts[rec.tag.kind] && ts[rec.tag.kind][Name(rec, k, to)] == Landed(rec, k, to)
  }

  /** The tables hold the landed records, reset by `create`, and nothing else. */
  ghost predicate Recreated(ts: Tables, records: seq<Ported>, n: nat, to: Target)
    requires n <= |records|
  {
    && Full(ts)
    && (forall kind: Kind, id {:trigger Arrived(records, to, n, kind, id)} :: id in ts[kind] ==>
          Arrived(records, to, n, kind, id))
    && (forall k: nat :: k < n && Lands(records, to, k) ==> Holds(ts, records[k], k, to))
  }

  lemma HitMeansEarlierKey(ts: Tables, records: seq<Ported>, k: nat, to: Target, id: Id)
    requires k < |records| && records[k].tag.Of? && Recreated(ts, records, k, to)
    requires id in DedupHits(ts[records[k].tag.kind], to.scope, to.hash(records[k].row.body.content))
    ensures exists q: nat :: q < k && SameKey(records, to, q, k)
  {
    var kind := records[k].tag.kind;
    assert Arrived(records, to, k, kind, id);
    var q: nat :| q < k && Lands(records, to, q) && records[q].tag == Of(kind) && Name(records[q], q, to) == id;
    assert Holds(ts, records[q], q, to);
    assert SameKey(records, to, q, k);
  }

  lemma EarlierKeyMeansHit(ts: Tables, records: seq<Ported>, k: nat, to: Target, q: nat)
    requires q < k < |records| && records[k].tag.Of? && Recreated(ts, records, k, to) && SameKey(records, to, q, k)
    requires forall i :: 0 <= i < |records| ==> records[i].row.deletedAt.None?
    ensures DedupHits(ts[records[k].tag.kind], to.scope, to.hash(records[k].row.body.content)) != {}
  {
    var first := FirstOfItsKeyLands(records, to, q);
    var id := Name(records[first], first, to);
    var row := Landed(records[first], first, to);
    assert Holds(ts, records[first], first, to);
    assert row.hash == to.hash(records[k].row.body.content) && row.scope == to.scope && Live(row);
    assert id in DedupHits(ts[records[k].tag.kind], to.scope, to.hash(records[k].row.body.content));
  }

  /** The dedup SELECT hits exactly when an earlier record has the same key. */
  lemma DedupHitIffEarlierKey(ts: Tables, records: seq<Ported>, k: nat, to: Target)
    requires k < |records| && records[k].tag.Of? && Recreated(ts, records, k, to)
    requires forall i :: 0 <= i < |records| ==> records[i].row.deletedAt.None?
    ensures var kind := records[k].tag.kind;
      Dedups(kind) && DedupHits(ts[kind], to.scope, to.hash(records[k].row.body.content)) != {} <==>
      !Lands(records, to, k)
  {
    var hits := DedupHits(ts[records[k].tag.kind], to.scope, to.hash(records[k].row.body.content));
    if hits != {} {
      var id :| id in hits;
      HitMeansEarlierKey(ts, records, k, to, id);
    }
    if q: nat :| q < k && SameKey(records, to, q, k) {
      EarlierKeyMeansHit(ts, records, k, to, q);
    }
  }

  lemma StepMakes(p: Progress, records: seq<Ported>, k: nat, to: Target)
    requires Sound(p) && Clean(records, to) && k < |records| && p.failure.None? && Recreated(p.tables, records, k, to)
    ensures records[k].tag.Of?
    ensures Step(p, records, k, to) == Progress(
      if Lands(records, to, k) then WithLanded(p.tables, records[k], k, to)
      else p.tables, Counted(p.counts, records[k], None), None)
  {
    assert Refused(records[k], records[0].row.scope.agent, to.scope).None?;
    DedupHitIffEarlierKey(p.tables, records, k, to);
    KeyIsNew(p.tables, records, k, to);
  }

  function WithLanded(ts: Tables, rec: Ported, k: nat, to: Target): Tables
    requires Full(ts) && rec.tag.Of?
  {
    ts[rec.tag.kind := ts[rec.tag.kind][Name(rec, k, to) := Landed(rec, k, to)]]
  }

  lemma KeyIsNew(ts: Tables, records: seq<Ported>, k: nat, to: Target)
    requires Clean(records, to) && k < |records| && records[k].tag.Of? && Recreated(ts, records, k, to)
    ensures Name(records[k], k, to) !in ts[records[k].tag.kind]
  {
    assert !Arrived(records, to, k, records[k].tag.kind, Name(records[k], k, to));
  }

  lemma StillRecreated(ts: Tables, records: seq<Ported>, k: nat, to: Target)
    requires Clean(records, to) && k < |records| && records[k].tag.Of? && Recreated(ts, records, k, to)
    ensures Recreated(if Lands(records, to, k) then WithLanded(ts, records[k], k, to) else ts, records, k + 1, to)
  {
    if Lands(records, to, k) {
      KeyIsNew(ts, records, k, to);
      LandedStays(ts, records, k, to);
    } else {
      ArrivedLater(records, to, k);
      forall kind: Kind, id | id in ts[kind] ensures Arrived(records, to, k + 1, kind, id) {
        assert Arrived(records, to, k, kind, id);
      }
    }
  }

  lemma LandedStays(ts: Tables, records: seq<Ported>, k: nat, to: Target)
    requires k < |records| && records[k].tag.Of? && Recreated(ts, records, k, to)
    requires Lands(records, to, k) && Name(records[k], k, to) !in ts[records[k].tag.kind]
    ensures Recreated(WithLanded(ts, records[k], k, to), records, k + 1, to)
  {
    ArrivedLater(records, to, k);
    var next := WithLanded(ts, records[k], k, to);
    forall kind: Kind, id | id in next[kind] ensures Arrived(records, to, k + 1, kind, id) {
      if id in ts[kind] {
        assert Arrived(records, to, k, kind, id);
      } else {
        assert records[k].tag == Of(kind) && Name(records[k], k, to) == id;
      }
    }
    forall q: nat | q < k + 1 && Lands(records, to, q) ensures Holds(next, records[q], q, to) {
      if q < k {
        assert Holds(ts, records[q], q, to);
      }
    }
  }

  lemma ArrivedLater(records: seq<Ported>, to: Target, k: nat)
    requires k < |records|
    ensures forall kind: Kind, id :: Arrived(records, to, k, kind, id) ==> Arrived(records, to, k + 1, kind, id)
  {
  }

  ghost predicate Succeeds(p: Progress, records: seq<Ported>, n: nat, to: Target)
    requires n <= |records|
  {
    p.failure.None? && Recreated(p.tables, records, n, to)
  }

  function CountOf(records: seq<Ported>, n: nat, kind: Kind): nat
    requires n <= |records|
  {
    if n == 0 then 0 else CountOf(records, n - 1, kind) + if records[n - 1].tag == Of(kind) then 1 else 0
  }

  function NothingStored(): (ts: Tables)
    ensures Full(ts)
  {
    EveryKindIsListed();
    map kind: Kind | kind in KINDS :: map[]
  }

  /** Importing a clean stream into an empty store never fails, and stores exactly the first record of
      every dedup key (every record of working memory). */
  lemma {:induction false} CleanImportSucceeds(records: seq<Ported>, n: nat, to: Target)
    requires Clean(records, to) && n <= |records|
    ensures Succeeds(Import(NothingStored(), records, n, to), records, n, to)
  {
    if n > 0 {
      CleanImportSucceeds(records, n - 1, to);
      NextRecord(Import(NothingStored(), records, n - 1, to), records, n - 1, to);
    }
  }

  lemma NextRecord(p: Progress, records: seq<Ported>, k: nat, to: Target)
    requires Sound(p) && Clean(records, to) && k < |records| && Succeeds(p, records, k, to)
    ensures Succeeds(Step(p, records, k, to), records, k + 1, to)
  {
    StepMakes(p, records, k, to);
    StillRecreated(p.tables, records, k, to);
  }

  lemma {:induction false} EveryRecordIsCounted(ts: Tables, records: seq<Ported>, n: nat, to: Target, kind: Kind)
    requires Full(ts) && n <= |records| && Import(ts, records, n, to).failure.None?
    ensures Import(ts, records, n, to).counts[Of(kind)] == CountOf(records, n, kind)
  {
    if n > 0 {
      EveryRecordIsCounted(ts, records, n - 1, to, kind);
    }
  }

  // ---------------------------------------------------------------- export

  function Segment(kind: Kind, t: Table, ids: seq<Id>): (records: seq<Ported>)
    requires forall id :: id in ids ==> id in t
    ensures |records| == |ids|
  {
    seq(|ids|, i requires 0 <= i < |ids| => assert ids[i] in ids; Ported(Of(kind), Some(t[ids[i]].id), t[ids[i]]))
  }

  type Listing = map<Kind, seq<Id>>

  ghost predicate Lists(ts: Tables, listed: Listing) {
    && Full(ts) && (forall kind: Kind :: kind in listed)
    && forall kind: Kind, id :: id in listed[kind] ==> id in ts[kind]
  }

  /** The first `m` tables, in export order. */
  ghost function Stream(ts: Tables, listed: Listing, m: nat): seq<Ported>
    requires Lists(ts, listed) && m <= |KINDS|
  {
    if m == 0 then [] else Stream(ts, listed, m - 1) + Segment(KINDS[m - 1], ts[KINDS[m - 1]], listed[KINDS[m - 1]])
  }

  function Rank(t: Table): Id -> int {
    id => if id in t then t[id].createdAt else 0
  }

  /** What a listing must be for an export of `scope`: each table's live rows, expired ones included,
      each once. */
  ghost predicate Exports(ts: Tables, scope: Scope, now: Time, listed: Listing) {
    && Lists(ts, listed)
    && forall kind: Kind :: IsListing(Selected(ts[kind], scope, true, now), listed[kind])
  }

  /** An export that is newest first throughout. */
  ghost predicate ExportsInOrder(ts: Tables, scope: Scope, now: Time, listed: Listing) {
    && Exports(ts, scope, now, listed)
    && forall kind: Kind :: IsOrdering(ts[kind], Selected(ts[kind], scope, true, now), listed[kind])
  }

  /** What the database replies to the page queries of each table. */
  type Replies = map<Kind, nat -> Query>

  ghost predicate Answered(ts: Tables, scope: Scope, now: Time, replies: Replies) {
    && Full(ts) && (forall kind: Kind :: kind in replies)
    && forall kind: Kind ::
         Serves(Selected(ts[kind], scope, true, now), Rank(ts[kind]), EXPORT_BATCH_SIZE, replies[kind])
  }

  ghost predicate NoTieAnywhere(ts: Tables, replies: Replies)
    requires Full(ts) && forall kind: Kind :: kind in replies
  {
    forall kind: Kind :: NoTieAcrossPages(Rank(ts[kind]), replies[kind](0).order, EXPORT_BATCH_SIZE)
  }

  ghost predicate AllInOrder(replies: Replies)
    requires forall kind: Kind :: kind in replies
  {
    forall kind: Kind :: PagesInOrder(EXPORT_BATCH_SIZE, replies[kind])
  }

  /** Where no page boundary falls inside a group of rows with equal `created_at`, the stream is a whole
      export, newest first from page to page, and throughout if each page comes in order. */
  method ExportScope(store: MemoryStore, scope: Scope, now: Time, replies: Replies)
    returns (r: Reply<seq<Ported>>, ghost listed: Listing)
    requires store.Valid() && Answered(store.View(), scope, now, replies)
    ensures r.Raised? <==> scope.agent == ""
    ensures r.Raised? ==> r == Raised(MissingAgentId)
    ensures r.Returned? ==> Lists(store.View(), listed) && r.value == Stream(store.View(), listed, |KINDS|)
    ensures r.Returned? && NoTieAnywhere(store.View(), replies) ==>
      && Exports(store.View(), scope, now, listed)
      && forall kind: Kind :: OrderedAcross(Rank(store.View()[kind]), EXPORT_BATCH_SIZE, listed[kind])
    ensures r.Returned? && NoTieAnywhere(store.View(), replies) && AllInOrder(replies) ==>
      ExportsInOrder(store.View(), scope, now, listed)
  {
    ghost var ts := store.View();
    listed := NothingListed();
    if scope.agent == "" {
      return Raised(MissingAgentId), listed;
    }
    var stream := [];
    for m := 0 to |KINDS|
      invariant Lists(ts, listed) && stream == Stream(ts, listed, m)
      invariant DoneUpTo(ts, scope, now, replies, listed, m)
    {
      var kind := KINDS[m];
      var t := store.repos[kind].rows;
      assert t == ts[kind] && Serves(Selected(t, scope, true, now), Rank(t), EXPORT_BATCH_SIZE, replies[kind]);
      var ids := ExportTable(t, scope, now, replies[kind]);
      OneMoreTable(ts, scope, now, replies, listed, m, ids);
      stream := stream + Segment(kind, t, ids);
      listed := listed[kind := ids];
    }
    AllTablesDone(ts, scope, now, replies, listed);
    return Returned(stream), listed;
  }

  function NothingListed(): (listed: Listing)
    ensures forall kind: Kind :: kind in listed && listed[kind] == []
  {
    EveryKindIsListed();
    map kind: Kind | kind in KINDS :: []
  }

  /** The first `m` tables are listed whole, if their page boundaries are. */
  ghost predicate DoneUpTo(ts: Tables, scope: Scope, now: Time, replies: Replies, listed: Listing, m: nat)
    requires Lists(ts, listed) && m <= |KINDS| && forall kind: Kind :: kind in replies
  {
    forall i :: 0 <= i < m ==> TableDone(ts[KINDS[i]], scope, now, replies[KINDS[i]], listed[KINDS[i]])
  }

  ghost predicate TableDone(t: Table, scope: Scope, now: Time, queries: nat -> Query, ids: seq<Id>) {
    NoTieAcrossPages(Rank(t), queries(0).order, EXPORT_BATCH_SIZE) ==>
      && IsListing(Selected(t, scope, true, now), ids) && OrderedAcross(Rank(t), EXPORT_BATCH_SIZE, ids)
      && (PagesInOrder(EXPORT_BATCH_SIZE, queries) ==> IsOrdering(t, Selected(t, scope, true, now), ids))
  }

  lemma AllTablesDone(ts: Tables, scope: Scope, now: Time, replies: Replies, listed: Listing)
    requires Lists(ts, listed) && (forall kind: Kind :: kind in replies)
    requires DoneUpTo(ts, scope, now, replies, listed, |KINDS|)
    ensures NoTieAnywhere(ts, replies) ==>
      && Exports(ts, scope, now, listed)
      && forall kind: Kind :: OrderedAcross(Rank(ts[kind]), EXPORT_BATCH_SIZE, listed[kind])
    ensures NoTieAnywhere(ts, replies) && AllInOrder(replies) ==> ExportsInOrder(ts, scope, now, listed)
  {
    if NoTieAnywhere(ts, replies) {
      forall kind: Kind
        ensures IsListing(Selected(ts[kind], scope, true, now), listed[kind])
        ensures OrderedAcross(Rank(ts[kind]), EXPORT_BATCH_SIZE, listed[kind])
        ensures AllInOrder(replies) ==> IsOrdering(ts[kind], Selected(ts[kind], scope, true, now), listed[kind])
      {
        TableIsDone(ts, scope, now, replies, listed, kind);
      }
    }
  }

  lemma TableIsDone(ts: Tables, scope: Scope, now: Time, replies: Replies, listed: Listing,
                    kind: Kind)
    requires Lists(ts, listed) && (forall k: Kind :: k in replies) && DoneUpTo(ts, scope, now, replies, listed, |KINDS|)
    ensures TableDone(ts[kind], scope, now, replies[kind], listed[kind])
  {
    EveryKindIsListed();
    assert kind in KINDS;
    var i :| 0 <= i < |KINDS| && KINDS[i] == kind;
  }

  lemma OneMoreTable(ts: Tables, scope: Scope, now: Time, replies: Replies, listed: Listing, m: nat,
                     ids: seq<Id>)
    requires Lists(ts, listed) && m < |KINDS| && forall kind: Kind :: kind in replies
    requires forall id :: id in ids ==> id in ts[KINDS[m]]
    requires DoneUpTo(ts, scope, now, replies, listed, m)
    requires TableDone(ts[KINDS[m]], scope, now, replies[KINDS[m]], ids)
    ensures var next := listed[KINDS[m] := ids];
      && Lists(ts, next) && DoneUpTo(ts, scope, now, replies, next, m + 1)
      && Stream(ts, next, m + 1) == Stream(ts, listed, m) + Segment(KINDS[m], ts[KINDS[m]], ids)
  {
    KindsAreDistinct();
    StreamIgnoresLaterTables(ts, listed, listed[KINDS[m] := ids], m);
  }

  lemma KindsAreDistinct()
    ensures Distinct(KINDS)
  {
  }

  method ExportTable(t: Table, scope: Scope, now: Time, queries: nat -> Query) returns (ids: seq<Id>)
    requires Serves(Selected(t, scope, true, now), Rank(t), EXPORT_BATCH_SIZE, queries)
    ensures forall id :: id in ids ==> id in t
    ensures TableDone(t, scope, now, queries, ids)
  {
    ghost var chosen := Selected(t, scope, true, now);
    ghost var sent;
    ids, sent := ExportPages(chosen, Rank(t), queries, EXPORT_BATCH_SIZE);
    CollectedRowsAreChosen(chosen, Rank(t), EXPORT_BATCH_SIZE, queries, sent);
    TableIsWhole(t, scope, now, queries, sent);
  }

  lemma TableIsWhole(t: Table, scope: Scope, now: Time, queries: nat -> Query, sent: nat)
    requires Serves(Selected(t, scope, true, now), Rank(t), EXPORT_BATCH_SIZE, queries)
    requires |Selected(t, scope, true, now)| <= Steps(sent, EXPORT_BATCH_SIZE)
    ensures TableDone(t, scope, now, queries, Collected(queries, sent))
  {
    var chosen := Selected(t, scope, true, now);
    if NoTieAcrossPages(Rank(t), queries(0).order, EXPORT_BATCH_SIZE) {
      assert ServesPage(chosen, Rank(t), EXPORT_BATCH_SIZE, queries(0), 0);
      PagesConcatenate(chosen, Rank(t), queries, queries(0).order, EXPORT_BATCH_SIZE, sent);
      OrderingIsSorted(t, chosen, Collected(queries, sent));
    }
  }

  lemma {:induction false} StreamIgnoresLaterTables(ts: Tables, listed: Listing, other: Listing, m: nat)
    requires Lists(ts, listed) && Lists(ts, other) && m <= |KINDS|
    requires forall i :: 0 <= i < m ==> listed[KINDS[i]] == other[KINDS[i]]
    ensures Stream(ts, listed, m) == Stream(ts, other, m)
  {
    if m > 0 {
      StreamIgnoresLaterTables(ts, listed, other, m - 1);
    }
  }
}
