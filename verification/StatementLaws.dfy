/** What the reads and statements of `Rows` reach and what they write, read off the columns. */
module StatementLaws {
  import opened Rows

  /** Every read returns exactly the rows that are not foreign and that its own conditions let through: by id
      until they are tombstoned, in a listing until they are tombstoned, superseded or expired, to the dedup
      SELECT while they are live, expired or not. */
  lemma ReadsReturnOwnRowsOnly(t: Table, id: Id, scope: Scope, includeExpired: bool, now: Time, hash: string)
    requires id in t
    ensures GetById(t, id, scope) == if !Foreign(scope, t[id]) && t[id].deletedAt.None? then Some(t[id]) else None
    ensures id in Selected(t, scope, includeExpired, now) <==>
      && !Foreign(scope, t[id]) && t[id].deletedAt.None? && t[id].supersededAt.None?
      && (includeExpired || t[id].expiresAt.None? || now < t[id].expiresAt.value)
    ensures id in DedupHits(t, scope, hash) <==>
      !Foreign(scope, t[id]) && t[id].deletedAt.None? && t[id].supersededAt.None? && t[id].hash == hash
  {
  }

  /** A null field of the scope excludes nothing: a statement reaches every row that is not foreign and that
      its guard lets through, and no other. */
  lemma StatementsHitOwnRowsOnly(t: Table, id: Id, scope: Scope, winner: Id, reason: string, record: Row, now: Time,
                                 hash: string -> string)
    requires Consistent(t) && id in t && record.id == id
    ensures Forget(t, id, scope, now).hit <==> !Foreign(scope, t[id]) && t[id].deletedAt.None?
    ensures Supersede(t, id, winner, reason, scope, now).hit <==>
      !Foreign(scope, t[id]) && t[id].deletedAt.None? && t[id].supersededAt.None?
    ensures Update(t, record, scope, now, hash).hit <==>
      !Foreign(scope, t[id]) && t[id].deletedAt.None? && t[id].version == record.version
    ensures Claim(t, id, scope, now).hit <==> !Foreign(scope, t[id]) && t[id].consolidatedAt.None?
    ensures id !in Purge(t, scope) <==> !Foreign(scope, t[id]) && t[id].deletedAt.Some?
    ensures id !in EraseAll(t, scope) <==> !Foreign(scope, t[id])
  {
  }

  /** The columns no statement ever writes to a stored row. */
  predicate SameIdentity(r: Row, r': Row) {
    && r'.id == r.id && r'.scope == r.scope && r'.origin == r.origin
    && r'.createdAt == r.createdAt && r'.expiresAt == r.expiresAt
  }

  predicate SameBody(r: Row, r': Row) {
    r'.body == r.body && r'.hash == r.hash
  }

  predicate SameSupersession(r: Row, r': Row) {
    r'.supersededBy == r.supersededBy && r'.supersededAt == r.supersededAt && r'.supersedeReason == r.supersedeReason
  }

  predicate Touched(r: Row, r': Row, now: Time) {
    r'.updatedAt == now && r'.version == r.version + 1
  }

  /** A statement that misses changes nothing; one that hits changes one row, in the columns it SETs. */
  ghost predicate WritesOneRow(t: Table, o: Outcome, id: Id) {
    if !o.hit then o.table == t
    else id in t && id in o.table && o.table == t[id := o.table[id]] && SameIdentity(t[id], o.table[id])
  }

  lemma EachStatementWritesItsColumns(t: Table, id: Id, scope: Scope, winner: Id, reason: string, record: Row,
                                      now: Time, hash: string -> string)
    requires record.id == id
    ensures var o := Forget(t, id, scope, now);
      WritesOneRow(t, o, id) && (o.hit ==> var r, r' := t[id], o.table[id];
        && SameBody(r, r') && SameSupersession(r, r') && Touched(r, r', now) && r'.consolidatedAt == r.consolidatedAt
        && r'.deletedAt == Some(now))
    ensures var o := Supersede(t, id, winner, reason, scope, now);
      WritesOneRow(t, o, id) && (o.hit ==> var r, r' := t[id], o.table[id];
        && SameBody(r, r') && Touched(r, r', now)
        && r'.consolidatedAt == r.consolidatedAt && r'.deletedAt == r.deletedAt
        && r'.supersededBy == Some(winner) && r'.supersededAt == Some(now)
        && r'.supersedeReason <= reason && (r'.supersedeReason == reason || |r'.supersedeReason| == 255 < |reason|))
    ensures var o := Update(t, record, scope, now, hash);
      WritesOneRow(t, o, id) && (o.hit ==> var r, r' := t[id], o.table[id];
        && SameSupersession(r, r') && Touched(r, r', now)
        && r'.consolidatedAt == r.consolidatedAt && r'.deletedAt == r.deletedAt
        && r'.body == record.body && r'.hash == hash(record.body.content))
    ensures var o := Claim(t, id, scope, now);
      WritesOneRow(t, o, id) && (o.hit ==> var r, r' := t[id], o.table[id];
        && SameBody(r, r') && SameSupersession(r, r') && r'.deletedAt == r.deletedAt
        && r'.updatedAt == r.updatedAt && r'.version == r.version && r'.consolidatedAt == Some(now))
  {
  }

  /** A new row keeps the record's id, body, origin, expiry and tombstone, carries the caller's scope, and
      starts at version 1, neither superseded nor consolidated. */
  predicate StartsAs(stored: Row, record: Row, scope: Scope, hash: string, now: Time) {
    && stored.id == record.id && stored.body == record.body && stored.origin == record.origin
    && stored.expiresAt == record.expiresAt && stored.deletedAt == record.deletedAt
    && stored.scope == scope && stored.hash == hash && stored.createdAt == now && stored.updatedAt == now
    && stored.version == 1 && stored.consolidatedAt.None?
    && stored.supersededBy.None? && stored.supersededAt.None? && stored.supersedeReason == ""
  }

  /** With dedup on, a live row of the scope with the same content hash keeps the record out; a key that is
      taken does too; otherwise the record is the one row added. */
  lemma CreateAddsTheRecordUnlessItsHashIsLive(t: Table, record: Row, scope: Scope, now: Time, hash: string -> string,
                                               dedup: bool)
    ensures var o := Create(t, record, scope, now, hash, dedup);
      && (o.hit <==>
            && record.id !in t
            && (dedup ==> forall id :: id in t && !Foreign(scope, t[id]) && t[id].hash == hash(record.body.content) ==>
                  t[id].deletedAt.Some? || t[id].supersededAt.Some?))
      && (!o.hit ==> o.table == t)
      && (o.hit ==>
            && record.id in o.table && o.table == t[record.id := o.table[record.id]]
            && StartsAs(o.table[record.id], record, scope, hash(record.body.content), now))
  {
    forall id | id in t { ReadsReturnOwnRowsOnly(t, id, scope, true, now, hash(record.body.content)); }
  }
}
