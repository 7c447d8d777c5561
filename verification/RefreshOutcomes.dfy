/**
What the calls achieve: replay detection and revocation end a whole family or, when their clean-up
fails, at least leave its tombstone; an undisturbed sequence of refreshes builds one linear chain.
*/
module RefreshOutcomes {
  import opened RefreshDb
  import opened RefreshInvariant
  import opened RefreshProtocol
  import opened RefreshSequential

  // ----- families are ended whole -----

  /** The row has taken the status, was stamped if it is reuse and the stamp was still open, and is otherwise
      as it was. */
  predicate Turned(a: RefreshRow, b: RefreshRow, status: Status, now: int) {
    && b.id == a.id && b.request == a.request && b.family == a.family && b.parent == a.parent
    && b.rotatedAt == a.rotatedAt && b.expires == a.expires
    && b.status == status
    && b.reusedAt == if status == Reused && a.reusedAt == 0 then now else a.reusedAt
  }

  /** Exactly the request's rows have turned. */
  predicate FamilyTurned(db: Db, db': Db, rq: Request, status: Status, now: int) {
    && db'.refresh.Keys == db.refresh.Keys
    && forall k :: k in db.refresh ==>
         if RequestOfRow(k, db.refresh[k]) == rq then Turned(db.refresh[k], db'.refresh[k], status, now)
         else db'.refresh[k] == db.refresh[k]
  }

  /** Every refresh row of the request took the terminal status, its access rows are gone, its tombstone
      stands, and nothing else in the database changed. */
  ghost predicate FamilyEnded(db: Db, db': Db, rq: Request, status: Status, now: int) {
    && FamilyTurned(db, db', rq, status, now)
    && db'.access == db.access - AccessOf(db, rq).Keys
    && rq in db'.tombs
    && db'.tombs - {rq} == db.tombs - {rq}
  }

  /** mutateRefreshFamily and revokeRefreshFamilyByRequestID reach all rows of the family's request, and
      only those. */
  lemma MutationIsComplete(db: Db, rq: Request, families: set<Id>, status: Status, now: int)
    requires Inv(db) && RefreshOf(db, rq) != map[] && families == FamiliesOf(RefreshOf(db, rq))
    ensures var db' := MutateFamilies(db, rq.prefix, families, status, now);
            && FamilyTurned(db, db', rq, status, now)
            && db'.access == db.access - AccessOf(db, rq).Keys
            && db'.tombs == db.tombs && db'.drawn == db.drawn
  {
    var rows, db' := RefreshOf(db, rq), MutateFamilies(db, rq.prefix, families, status, now);
    forall k | k in db.refresh
      ensures (k.prefix == rq.prefix && db.refresh[k].family in families) <==> k in rows
    {
      if k.prefix == rq.prefix && db.refresh[k].family in families {
        var w :| w in rows && rows[w].family == db.refresh[k].family;
        assert PairInv(db, w, k);
      }
      assert k in rows ==> rows[k].family in families;
    }
    var w :| w in rows;
    assert RowInv(db, w);
    assert RequestsOf(db, rq.prefix, families) == {rq.id} by {
      assert db.refresh[w].request in RequestsOf(db, rq.prefix, families);
    }
    assert db'.access == db.access - AccessOf(db, rq).Keys;
  }

  /** With one family per request a commit for that family, or for none, is never refused. */
  lemma CommitSucceeds(db: Db, rq: Request, family: Id, expires: int, id: Id)
    requires Inv(db) && rq.id != ""
    requires family == NO_ID || exists k :: k in RefreshOf(db, rq) && RefreshOf(db, rq)[k].family == family
    ensures var (db', done) := Commit(db, rq, family, expires, id);
            && done && rq in db'.tombs && db'.refresh == db.refresh && db'.access == db.access
            && db'.tombs - {rq} == db.tombs - {rq}
  {
    hide AccessOf, ArtifactExpiry;
    var rows := RefreshOf(db, rq);
    forall j, k | j in rows && k in rows ensures rows[j].family == rows[k].family { assert PairInv(db, j, k); }
    forall k | k in rows ensures rows[k].family != NO_ID && (rq in db.tombs ==> db.tombs[rq].family in {NO_ID, rows[k].family}) {
      assert RowInv(db, k);
    }
  }

  lemma SameQueries(db: Db, db': Db, rq: Request)
    requires db'.refresh == db.refresh && db'.access == db.access
    ensures RefreshOf(db', rq) == RefreshOf(db, rq) && AccessOf(db', rq) == AccessOf(db, rq)
  {}

  lemma OneFamily(db: Db, key: Key)
    requires Inv(db) && key in db.refresh
    ensures var rq := RequestOfRow(key, db.refresh[key]);
            && key in RefreshOf(db, rq)
            && FamiliesOf(RefreshOf(db, rq)) == {db.refresh[key].family}
            && db.refresh[key].family != NO_ID && rq.id != ""
  {
    assert RowInv(db, key);
    var rows := RefreshOf(db, RequestOfRow(key, db.refresh[key]));
    forall k | k in rows ensures rows[k].family == db.refresh[key].family { assert PairInv(db, key, k); }
    assert rows[key].family in FamiliesOf(rows);
  }

  /** Committing the tombstone and invalidating the family of a stored token ends the family; if the
      invalidation fails the tombstone stands and the rows are as they were. */
  lemma InvalidationEndsFamily(db: Db, clock: int, key: Key, sweep: bool, id: Id, uuid: Id, breaks: bool)
    requires Inv(db) && key in db.refresh && Fresh(db, id)
    ensures var row := db.refresh[key];
            var rq := RequestOfRow(key, row);
            var (db', t) := Alone(db, clock, CommitClock(rq, row.family, row.expires, ThenInvalidate(row.family, sweep)), id, uuid, breaks);
            && t.Done?
            && (breaks ==> t.reply.Failed? && rq in db'.tombs && db'.refresh == db.refresh && db'.access == db.access)
            && (!breaks ==> t.reply.Inactive? && FamilyEnded(db, db', rq, Reused, clock))
  {
    hide Alone, Inv, Commit, RefreshOf, MutateFamilies;
    var row := db.refresh[key];
    var rq := RequestOfRow(key, row);
    var until := Max(row.expires, Seconds(clock) + TOMBSTONE_LIFETIME);
    OneFamily(db, key);
    CommitAlone(db, clock, rq, row.family, row.expires, ThenInvalidate(row.family, sweep), id, uuid, breaks);
    CommitSucceeds(db, rq, row.family, until, id);
    CommitKeepsInv(db, rq, row.family, until, id);
    var db1 := Commit(db, rq, row.family, until, id).0;
    InvalidateAlone(db1, clock, rq, row.family, sweep, until, id, uuid, breaks);
    SameQueries(db, db1, rq);
    if !breaks {
      MutationIsComplete(db1, rq, {row.family}, Reused, clock);
      NothingLeftToSweep(db1, Invalidate(db1, rq.prefix, row.family, clock), rq);
    }
  }

  lemma NothingLeftToSweep(db: Db, db': Db, rq: Request)
    requires db'.access == db.access - AccessOf(db, rq).Keys
    ensures WithoutAccessOf(db', rq) == db'
  {
    assert AccessOf(db', rq) == map[];
    assert db'.access - AccessOf(db', rq).Keys == db'.access;
  }

  /** Replaying a refresh token that is no longer active ends its family. */
  lemma ReplayEndsFamily(db: Db, clock: int, key: Key, id: Id, uuid: Id, breaks: bool)
    requires Inv(db) && key in db.refresh && Fresh(db, id)
    requires !db.refresh[key].status.Active? && RequestOfRow(key, db.refresh[key]) !in db.tombs
    ensures var rq := RequestOfRow(key, db.refresh[key]);
            var (db', t) := Alone(db, clock, GetRefreshCall(key), id, uuid, breaks);
            && t.Done?
            && (breaks ==> t.reply.Failed? && rq in db'.tombs && db'.refresh == db.refresh && db'.access == db.access)
            && (!breaks ==> t.reply.Inactive? && FamilyEnded(db, db', rq, Reused, clock))
  {
    hide Alone;
    GetRefreshAlone(db, clock, key, id, uuid, breaks);
    InvalidationEndsFamily(db, clock, key, false, id, uuid, breaks);
  }

  /** So does presenting it to RotateRefreshToken after another call has rotated it. */
  lemma LateRotationEndsFamily(db: Db, clock: int, key: Key, id: Id, uuid: Id, breaks: bool)
    requires Inv(db) && key in db.refresh && Fresh(db, id)
    requires db.refresh[key].status.Rotated? && RequestOfRow(key, db.refresh[key]) !in db.tombs
    ensures var rq := RequestOfRow(key, db.refresh[key]);
            var (db', t) := Alone(db, clock, RotateCall(rq, key.signature), id, uuid, breaks);
            && t.Done?
            && (breaks ==> t.reply.Failed? && rq in db'.tombs && db'.refresh == db.refresh && db'.access == db.access)
            && (!breaks ==> t.reply.Inactive? && FamilyEnded(db, db', rq, Reused, clock))
  {
    hide Alone;
    RotateAlone(db, clock, RequestOfRow(key, db.refresh[key]), key.signature, id, uuid, breaks);
    InvalidationEndsFamily(db, clock, key, true, id, uuid, breaks);
  }

  /** Revoking a request that has refresh rows ends its family; revoking one that has none leaves a
      tombstone and its access rows. */
  lemma RevocationEndsFamily(db: Db, clock: int, rq: Request, id: Id, uuid: Id, breaks: bool)
    requires Inv(db) && Fresh(db, id) && rq.id != ""
    ensures var (db', t) := Alone(db, clock, RevokeRefreshCall(rq), id, uuid, breaks);
            && t.Done? && rq in db'.tombs
            && (breaks ==> t.reply.Failed? && db'.refresh == db.refresh && db'.access == db.access)
            && (!breaks ==> t.reply.Ok?)
            && (!breaks && RefreshOf(db, rq) != map[] ==> FamilyEnded(db, db', rq, Revoked, clock))
            && (!breaks && RefreshOf(db, rq) == map[] ==> db'.refresh == db.refresh && db'.access == db.access)
  {
    hide Alone;
    var until := Max(0, Seconds(clock) + TOMBSTONE_LIFETIME);
    CommitAlone(db, clock, rq, NO_ID, 0, ThenRevoke, id, uuid, breaks);
    CommitSucceeds(db, rq, NO_ID, until, id);
    CommitKeepsInv(db, rq, NO_ID, until, id);
    var db1 := Commit(db, rq, NO_ID, until, id).0;
    RevokeTxAlone(db1, clock, rq, until, id, uuid, breaks);
    SameQueries(db, db1, rq);
    var rows := RefreshOf(db, rq);
    forall k | k in rows ensures rows[k].family != NO_ID { assert RowInv(db, k); }
    if rows != map[] {
      MutationIsComplete(db1, rq, FamiliesOf(rows), Revoked, clock);
    } else {
      assert FamiliesOf(rows) == {};
      assert MutateFamilies(db1, rq.prefix, {}, Revoked, clock) == db1 by { MutateNothing(db1, rq.prefix, clock); }
    }
  }

  lemma MutateNothing(db: Db, prefix: string, now: int)
    ensures MutateFamilies(db, prefix, {}, Revoked, now) == db
  {
    var db' := MutateFamilies(db, prefix, {}, Revoked, now);
    assert RequestsOf(db, prefix, {}) == {};
    assert db'.refresh == db.refresh && db'.access == db.access;
  }
}
