/**
What the store's operations do to the tables and what they answer, told from the tables alone, and the
proof that the calls of RefreshSequential do it. Times are microseconds, tombstone expiries seconds.
*/
module RefreshEffects {
  import opened RefreshDb
  import opened RefreshInvariant
  import opened RefreshProtocol
  import opened RefreshSequential
  import opened RefreshOutcomes

  predicate OwnsRefresh(rq: Request, k: Key, row: RefreshRow) { k.prefix == rq.prefix && row.request == rq.id }

  predicate OwnsAccess(rq: Request, k: Key, row: AccessRow) { k.prefix == rq.prefix && row.request == rq.id }

  predicate SameTables(db: Db, db': Db) { db'.refresh == db.refresh && db'.access == db.access && db'.tombs == db.tombs }

  /** The request has a tombstone that lasts at least so long and no shorter than before; no other tombstone
      changes. */
  ghost predicate Entombs(db: Db, db': Db, rq: Request, least: int) {
    && rq in db'.tombs && least <= db'.tombs[rq].expires
    && (rq in db.tombs ==> db.tombs[rq].expires <= db'.tombs[rq].expires)
    && (forall q :: q != rq ==> (q in db'.tombs <==> q in db.tombs))
    && (forall q :: q != rq && q in db.tombs && q in db'.tombs ==> db'.tombs[q] == db.tombs[q])
  }

  /** Only access rows of the two requests go; of `owner` and `rq` all go, unless the call got stuck on one of
      `rq`. */
  predicate SweepsBoth(db: Db, db': Db, rq: Request, owner: Request, stuck: bool) {
    && (forall k :: k in db'.access ==> k in db.access && db'.access[k] == db.access[k])
    && (forall k :: k in db.access && k !in db'.access ==> OwnsAccess(rq, k, db.access[k]) || OwnsAccess(owner, k, db.access[k]))
    && (forall k :: k in db'.access && OwnsAccess(rq, k, db'.access[k]) ==> stuck)
    && (forall k :: k in db'.access && OwnsAccess(owner, k, db'.access[k]) ==> stuck && OwnsAccess(rq, k, db'.access[k]))
  }

  predicate Sweeps(db: Db, db': Db, rq: Request, stuck: bool) { SweepsBoth(db, db', rq, rq, stuck) }

  // ----- the effects -----

  /** CreateAccessTokenSession. */
  predicate AccessCreated(db: Db, rq: Request, signature: string, expires: int, id: Id, db': Db, reply: Reply) {
    var k := Key(rq.prefix, signature);
    if rq.id != "" && rq in db.tombs then SameTables(db, db') && reply == Inactive
    else if k in db.access then SameTables(db, db') && reply == Failed
    else
      && db'.access == db.access[k := AccessRow(id, rq.id, expires)]
      && db'.refresh == db.refresh && db'.tombs == db.tombs && reply == Ok
  }

  /** The row's place in its family: a root of family `uuid` where the request has no row, and otherwise a
      child, in the family that all its rows share, of the one rotated last. */
  ghost predicate TakesPlace(db: Db, rq: Request, row: RefreshRow, uuid: Id) {
    if forall k :: k in db.refresh ==> !OwnsRefresh(rq, k, db.refresh[k]) then row.family == uuid && row.parent == 0
    else
      && (forall k :: k in db.refresh && OwnsRefresh(rq, k, db.refresh[k]) ==> db.refresh[k].family == row.family)
      && exists p :: IsLastRotated(db, rq, p) && row.parent == db.refresh[p].id
  }

  ghost predicate IsLastRotated(db: Db, rq: Request, p: Key) {
    && p in db.refresh && OwnsRefresh(rq, p, db.refresh[p])
    && forall k :: k in db.refresh && OwnsRefresh(rq, k, db.refresh[k]) ==>
         || db.refresh[k].rotatedAt < db.refresh[p].rotatedAt
         || (db.refresh[k].rotatedAt == db.refresh[p].rotatedAt && db.refresh[k].id <= db.refresh[p].id)
  }

  /** The request has a tombstone, or a row that was reused or revoked. */
  ghost predicate IsEnded(db: Db, rq: Request) {
    || rq in db.tombs
    || exists k :: k in db.refresh && OwnsRefresh(rq, k, db.refresh[k])
                   && (db.refresh[k].status == Reused || db.refresh[k].status == Revoked)
  }

  ghost predicate HasActiveRow(db: Db, rq: Request) {
    exists k :: k in db.refresh && OwnsRefresh(rq, k, db.refresh[k]) && db.refresh[k].status == Active
  }

  /** The access rows that refusing a refresh row takes away: all of an ended request, the candidate alone
      otherwise. */
  ghost predicate CleansUp(db: Db, rq: Request, accessSignature: string, k: Key) {
    && k in db.access
    && if rq.id != "" && IsEnded(db, rq) then OwnsAccess(rq, k, db.access[k])
       else (rq.id == "" || HasActiveRow(db, rq)) && accessSignature != "" && k == Key(rq.prefix, accessSignature)
  }

  ghost predicate CleanUpFails(db: Db, rq: Request, accessSignature: string, failing: set<Id>) {
    exists k :: CleansUp(db, rq, accessSignature, k) && db.access[k].id in failing
  }

  /** CreateRefreshTokenSession. */
  ghost predicate RefreshCreated(db: Db, rq: Request, signature: string, accessSignature: string, expires: int, id: Id, uuid: Id,
                                 db': Db, reply: Reply, stuck: bool)
  {
    var key, candidate := Key(rq.prefix, signature), Key(rq.prefix, accessSignature);
    if stuck then SameTables(db, db') && reply == Failed
    else if rq.id != "" && IsEnded(db, rq) then
      reply == Inactive && db'.refresh == db.refresh && db'.tombs == db.tombs && Sweeps(db, db', rq, false)
    else if rq.id == "" || HasActiveRow(db, rq) then
      && reply == (if rq.id == "" then Failed else Conflict)
      && db'.refresh == db.refresh && db'.tombs == db.tombs
      && db'.access == if accessSignature == "" then db.access else db.access - {candidate}
    else if key in db.refresh then SameTables(db, db') && reply == Failed
    else
      && reply == Ok && db'.access == db.access && db'.tombs == db.tombs
      && key in db'.refresh && db'.refresh == db.refresh[key := db'.refresh[key]]
      && var row := db'.refresh[key];
         && row.id == id && row.request == rq.id && row.status == Active && row.rotatedAt == 0 && row.reusedAt == 0
         && row.expires == expires && TakesPlace(db, rq, row, uuid)
  }

  /** GetRefreshTokenSession. */
  ghost predicate RefreshGot(db: Db, key: Key, now: int, db': Db, reply: Reply, broke: bool) {
    if key !in db.refresh then !broke && SameTables(db, db') && reply == NotFound
    else
      var row := db.refresh[key];
      var rq := Request(key.prefix, row.request);
      if rq in db.tombs then !broke && SameTables(db, db') && reply == Inactive
      else if row.status == Active then !broke && SameTables(db, db') && reply == Found(row)
      else
        && Entombs(db, db', rq, now / 1_000_000 + 86_400) && row.expires <= db'.tombs[rq].expires
        && if broke then db'.refresh == db.refresh && db'.access == db.access && reply == Failed
           else FamilyTurned(db, db', rq, Reused, now) && Sweeps(db, db', rq, false) && reply == Inactive
  }

  /** The row under the signature belongs to another request than the caller's, which has rows of its own. */
  ghost predicate IsForeign(db: Db, rq: Request, key: Key) {
    key in db.refresh && db.refresh[key].request != rq.id && exists k :: k in db.refresh && OwnsRefresh(rq, k, db.refresh[k])
  }

  /** RotateRefreshToken. */
  ghost predicate RefreshRotated(db: Db, rq: Request, signature: string, now: int, db': Db, reply: Reply, broke: bool, stuck: bool) {
    var key := Key(rq.prefix, signature);
    if rq.id != "" && rq in db.tombs then
      && !broke && db'.refresh == db.refresh && db'.tombs == db.tombs
      && Sweeps(db, db', rq, stuck) && reply == (if stuck then Failed else Inactive)
    else if key in db.refresh && db.refresh[key].status == Active then
      && !broke && db'.refresh == db.refresh[key := db.refresh[key].(status := Rotated, rotatedAt := now)] && db'.tombs == db.tombs
      && Sweeps(db, db', rq, stuck) && reply == (if stuck then Failed else Ok)
    else if rq.id == "" || IsForeign(db, rq, key) then !broke && !stuck && SameTables(db, db') && reply == Failed
    else
      && Entombs(db, db', rq, now / 1_000_000 + 86_400)
      && (key in db.refresh ==> db.refresh[key].expires <= db'.tombs[rq].expires)
      && reply == (if broke || stuck then Failed else Inactive)
      && if key in db.refresh && db.refresh[key].status == Rotated then
           if broke then db'.refresh == db.refresh && db'.access == db.access
           else
             var owner := Request(key.prefix, db.refresh[key].request);
             FamilyTurned(db, db', owner, Reused, now) && SweepsBoth(db, db', rq, owner, stuck)
         else !broke && db'.refresh == db.refresh && Sweeps(db, db', rq, stuck)
  }

  /** The caller lost a rotation to one that came before: the row has been rotated, and nothing yet told. */
  ghost predicate IsReplay(db: Db, rq: Request, key: Key) {
    rq.id != "" && rq !in db.tombs && key in db.refresh && db.refresh[key].status == Rotated && !IsForeign(db, rq, key)
  }

  /** RevokeRefreshToken. */
  ghost predicate RefreshRevoked(db: Db, rq: Request, now: int, db': Db, reply: Reply, broke: bool) {
    if rq.id == "" then !broke && SameTables(db, db') && reply == Failed
    else
      && Entombs(db, db', rq, now / 1_000_000 + 86_400)
      && if broke then db'.refresh == db.refresh && db'.access == db.access && reply == Failed
         else
           && reply == Ok
           && if exists k :: k in db.refresh && OwnsRefresh(rq, k, db.refresh[k])
              then FamilyTurned(db, db', rq, Revoked, now) && Sweeps(db, db', rq, false)
              else db'.refresh == db.refresh && db'.access == db.access
  }

  /** The non-empty family ids that a commit for the request meets: the caller's, those of the request's rows,
      and that of its tombstone. */
  ghost function FamiliesMet(db: Db, rq: Request, family: Id): set<Id> {
    (if family == 0 then {} else {family})
    + (set k | k in db.refresh && OwnsRefresh(rq, k, db.refresh[k]) && db.refresh[k].family != 0 :: db.refresh[k].family)
    + (if rq in db.tombs && db.tombs[rq].family != 0 then {db.tombs[rq].family} else {})
  }

  /** A tombstone of the request must last at least until `until`. */
  ghost predicate MustOutlast(db: Db, rq: Request, expires: int, now: int, until: int) {
    && expires <= until && now / 1_000_000 + 86_400 <= until
    && (rq in db.tombs ==> db.tombs[rq].expires <= until)
    && (forall k :: k in db.refresh && OwnsRefresh(rq, k, db.refresh[k]) ==> db.refresh[k].expires <= until)
    && (forall k :: k in db.access && OwnsAccess(rq, k, db.access[k]) ==> db.access[k].expires <= until)
  }

  /** commitRefreshTerminalAuthority: refused exactly without a request id or where families differ; otherwise
      the tombstone takes the one family met and the least expiry that outlasts everything. */
  ghost predicate AuthorityCommitted(db: Db, rq: Request, family: Id, expires: int, now: int, id: Id, db': Db, done: bool) {
    var met := FamiliesMet(db, rq, family);
    && (done <==> rq.id != "" && forall f, g :: f in met && g in met ==> f == g)
    && db'.refresh == db.refresh && db'.access == db.access
    && if !done then db'.tombs == db.tombs
       else
         && Entombs(db, db', rq, now / 1_000_000 + 86_400)
         && db'.tombs[rq].id == (if rq in db.tombs then db.tombs[rq].id else id)
         && (forall f :: f in met ==> db'.tombs[rq].family == f) && (met == {} ==> db'.tombs[rq].family == 0)
         && MustOutlast(db, rq, expires, now, db'.tombs[rq].expires)
         && forall e :: MustOutlast(db, rq, expires, now, e) ==> db'.tombs[rq].expires <= e
  }

  // ----- creating rows -----

  lemma AccessCreationEffect(db: Db, rq: Request, signature: string, expires: int, id: Id)
    ensures var (db', reply) := CreateAccess(db, rq, signature, expires, id);
            AccessCreated(db, rq, signature, expires, id, db', reply)
  {}

  lemma WithoutAccessSweeps(db: Db, mid: Db, rq: Request)
    requires mid.access == db.access
    ensures Sweeps(db, WithoutAccessOf(mid, rq), rq, false)
  {}

  lemma ChildTakesPlace(db: Db, rq: Request, uuid: Id, row: RefreshRow)
    requires Inv(db) && Fresh(db, uuid)
    requires ResolveLineage(db, rq, uuid).Root? ==> row.family == uuid && row.parent == NO_ID
    requires ResolveLineage(db, rq, uuid).Child? ==> ResolveLineage(db, rq, uuid) == Child(row.family, row.parent)
    requires ResolveLineage(db, rq, uuid).Root? || ResolveLineage(db, rq, uuid).Child?
    ensures TakesPlace(db, rq, row, uuid)
  {
    var rows := RefreshOf(db, rq);
    ChildOfRotated(db, rq, uuid);
    if rows != map[] {
      var w :| w in rows;
      assert OwnsRefresh(rq, w, db.refresh[w]);
      var p := LatestRotated(rows);
      forall k | k in db.refresh && OwnsRefresh(rq, k, db.refresh[k])
        ensures || db.refresh[k].rotatedAt < db.refresh[p].rotatedAt
                || (db.refresh[k].rotatedAt == db.refresh[p].rotatedAt && db.refresh[k].id <= db.refresh[p].id)
      {
        assert k in rows && k in RotatedKeys(rows) && !Later(rows[k], rows[p]);
      }
      assert IsLastRotated(db, rq, p);
    } else {
      forall k | k in db.refresh ensures !OwnsRefresh(rq, k, db.refresh[k]) { assert k !in rows; }
    }
  }

  lemma LineageFromRows(db: Db, rq: Request, uuid: Id)
    requires Inv(db)
    ensures var rows, l := RefreshOf(db, rq), ResolveLineage(db, rq, uuid);
            && (l.Terminal? <==> rq.id != "" && IsEnded(db, rq))
            && (l.Busy? <==> rq.id != "" && !IsEnded(db, rq) && HasActiveRow(db, rq))
            && (l.Corrupt? <==> rq.id == "")
  {
    var rows := RefreshOf(db, rq);
    assert HasTerminal(rows) <==> exists k :: k in db.refresh && OwnsRefresh(rq, k, db.refresh[k])
                                              && (db.refresh[k].status == Reused || db.refresh[k].status == Revoked) by {
      if k :| k in rows && IsTerminal(rows[k].status) { assert k in db.refresh && OwnsRefresh(rq, k, db.refresh[k]); }
      if k :| k in db.refresh && OwnsRefresh(rq, k, db.refresh[k]) && (db.refresh[k].status == Reused || db.refresh[k].status == Revoked) {
        assert k in rows;
      }
    }
    assert HasActive(rows) <==> exists k :: k in db.refresh && OwnsRefresh(rq, k, db.refresh[k]) && db.refresh[k].status == Active by {
      if k :| k in rows && rows[k].status.Active? { assert k in db.refresh && OwnsRefresh(rq, k, db.refresh[k]); }
      if k :| k in db.refresh && OwnsRefresh(rq, k, db.refresh[k]) && db.refresh[k].status == Active { assert k in rows; }
    }
    SoundRows(db, rq);
    if rows != map[] && !HasTerminal(rows) && !HasActive(rows) {
      var k :| k in rows;
      assert k in RotatedKeys(rows);
    }
  }

  lemma SoundRows(db: Db, rq: Request)
    requires Inv(db)
    ensures !IsCorrupt(RefreshOf(db, rq)) && !Spans(RefreshOf(db, rq))
    ensures forall j, k :: j in RefreshOf(db, rq) && k in RefreshOf(db, rq) ==> db.refresh[j].family == db.refresh[k].family
    ensures forall k :: k in RefreshOf(db, rq) ==> db.refresh[k].family != NO_ID && !db.refresh[k].status.Unknown?
  {
    var rows := RefreshOf(db, rq);
    forall j, k | j in rows && k in rows ensures db.refresh[j].family == db.refresh[k].family { assert PairInv(db, j, k); }
    forall k | k in rows ensures db.refresh[k].family != NO_ID && !db.refresh[k].status.Unknown? { assert RowInv(db, k); }
  }

  lemma RefreshCreationEffect(db: Db, rq: Request, signature: string, accessSignature: string, expires: int, id: Id, uuid: Id)
    requires Inv(db) && Fresh(db, uuid)
    ensures var (db', reply) := CreateRefresh(db, rq, signature, accessSignature, expires, id, uuid);
            RefreshCreated(db, rq, signature, accessSignature, expires, id, uuid, db', reply, false)
  {
    hide ResolveLineage, RefreshOf, Inv, TakesPlace, SweepsBoth;
    var l := ResolveLineage(db, rq, uuid);
    LineageFromRows(db, rq, uuid);
    WithoutAccessSweeps(db, db, rq);
    if (l.Root? || l.Child?) && Key(rq.prefix, signature) !in db.refresh {
      var row := RefreshRow(id, rq.id, l.family, if l.Root? then NO_ID else l.parent, Active, 0, 0, expires);
      assert l.Root? ==> l.family == uuid by { ChildOfRotated(db, rq, uuid); }
      ChildTakesPlace(db, rq, uuid, row);
    }
  }

  /** Which rows go is told by the tables before. */
  lemma CleanUpIsWhatGoes(db: Db, rq: Request, signature: string, accessSignature: string, expires: int, id: Id, uuid: Id,
                          db': Db, reply: Reply, k: Key)
    requires RefreshCreated(db, rq, signature, accessSignature, expires, id, uuid, db', reply, false)
    ensures CleansUp(db, rq, accessSignature, k) <==> k in db.access && k !in db'.access
  {
    hide TakesPlace;
  }

  // ----- committing a tombstone -----

  lemma CommitEffect(db: Db, rq: Request, family: Id, until: int, id: Id)
    ensures var (db', done) := Commit(db, rq, family, until, id);
            && db'.refresh == db.refresh && db'.access == db.access
            && (if done then Entombs(db, db', rq, until) else db' == db)
  {
    hide RefreshOf, AccessOf;
  }

  lemma FamiliesAgree(db: Db, rq: Request, family: Id)
    ensures var rows, met := RefreshOf(db, rq), FamiliesMet(db, rq, family);
            var found := ArtifactFamily(rows);
            && (Spans(rows) ==> exists f, g :: f in met && g in met && f != g)
            && (found != 0 ==> found in met)
            && (!Spans(rows) ==> forall f :: f in met ==> f == family || f == found || (rq in db.tombs && f == db.tombs[rq].family))
            && (family != 0 ==> family in met) && (rq in db.tombs && db.tombs[rq].family != 0 ==> db.tombs[rq].family in met)
            && 0 !in met
  {
    var rows, met := RefreshOf(db, rq), FamiliesMet(db, rq, family);
    forall k | k in rows && rows[k].family != 0 ensures rows[k].family in met { assert OwnsRefresh(rq, k, db.refresh[k]); }
    forall k | k in db.refresh && OwnsRefresh(rq, k, db.refresh[k]) && !Spans(rows) && db.refresh[k].family != 0
      ensures db.refresh[k].family == ArtifactFamily(rows)
    {
      assert k in rows;
    }
  }

  lemma CommitEffectExact(db: Db, rq: Request, family: Id, expires: int, now: nat, id: Id)
    ensures var (db', done) := Commit(db, rq, family, Max(expires, Seconds(now) + TOMBSTONE_LIFETIME), id);
            AuthorityCommitted(db, rq, family, expires, now, id, db', done)
  {
    hide Spans, FamiliesMet, RefreshOf, AccessOf, MustOutlast, Entombs;
    var until := Max(expires, Seconds(now) + TOMBSTONE_LIFETIME);
    var (db', done) := Commit(db, rq, family, until, id);
    FamiliesAgree(db, rq, family);
    CommitEffect(db, rq, family, until, id);
    if done {
      assert Entombs(db, db', rq, now / 1_000_000 + 86_400) by { EntombsLess(db, db', rq, until, now / 1_000_000 + 86_400); }
      LeastExpiry(db, rq, expires, now, db'.tombs[rq].expires);
    }
  }

  lemma EntombsLess(db: Db, db': Db, rq: Request, until: int, least: int)
    requires Entombs(db, db', rq, until) && least <= until
    ensures Entombs(db, db', rq, least)
  {}

  lemma LeastExpiry(db: Db, rq: Request, expires: int, now: nat, until: int)
    requires var all := Max(Max(expires, Seconds(now) + TOMBSTONE_LIFETIME), ArtifactExpiry(RefreshOf(db, rq), AccessOf(db, rq)));
             until == if rq in db.tombs then Max(db.tombs[rq].expires, all) else all
    ensures MustOutlast(db, rq, expires, now, until)
    ensures forall e :: MustOutlast(db, rq, expires, now, e) ==> until <= e
  {
    var rows, own := RefreshOf(db, rq), AccessOf(db, rq);
    forall k | k in db.refresh && OwnsRefresh(rq, k, db.refresh[k]) ensures db.refresh[k].expires <= until { assert k in rows; }
    forall k | k in db.access && OwnsAccess(rq, k, db.access[k]) ensures db.access[k].expires <= until { assert k in own; }
    forall e | MustOutlast(db, rq, expires, now, e) ensures until <= e {
      var a := ArtifactExpiry(rows, own);
      if k :| k in rows && rows[k].expires == a { assert OwnsRefresh(rq, k, db.refresh[k]); }
      if k :| k in own && own[k].expires == a { assert OwnsAccess(rq, k, db.access[k]); }
    }
  }

  /** The commit of a lost rotation is refused exactly for a row that is not the caller's. */
  lemma LostCommit(db: Db, rq: Request, key: Key, until: int, id: Id)
    requires Inv(db) && key.prefix == rq.prefix && rq !in db.tombs && rq.id != ""
    ensures Commit(db, rq, if key in db.refresh then db.refresh[key].family else NO_ID, until, id).1 <==> !IsForeign(db, rq, key)
  {
    var rows := RefreshOf(db, rq);
    SoundRows(db, rq);
    if key in db.refresh {
      assert RowInv(db, key);
      forall k | k in rows ensures (db.refresh[k].family == db.refresh[key].family) == (db.refresh[key].request == rq.id) {
        assert PairInv(db, k, key);
      }
      if k :| k in db.refresh && OwnsRefresh(rq, k, db.refresh[k]) { assert k in rows; }
      if k :| k in rows { assert OwnsRefresh(rq, k, db.refresh[k]); }
    }
  }

  lemma MutationEffect(db: Db, rq: Request, owner: Request, families: set<Id>, status: Status, now: int)
    requires Inv(db) && RefreshOf(db, owner) != map[] && families == FamiliesOf(RefreshOf(db, owner)) && rq.prefix == owner.prefix
    ensures var db' := MutateFamilies(db, owner.prefix, families, status, now);
            && FamilyTurned(db, db', owner, status, now) && db'.tombs == db.tombs
            && Sweeps(db, db', owner, false)
            && SweepsBoth(db, WithoutAccessOf(db', rq), rq, owner, false)
  {
    hide Inv, MutateFamilies, FamilyTurned, FamiliesOf;
    MutationIsComplete(db, owner, families, status, now);
    OwnAccessGone(db, MutateFamilies(db, owner.prefix, families, status, now), rq, owner);
  }

  lemma OwnAccessGone(db: Db, db': Db, rq: Request, owner: Request)
    requires db'.access == db.access - AccessOf(db, owner).Keys
    ensures Sweeps(db, db', owner, false) && SweepsBoth(db, WithoutAccessOf(db', rq), rq, owner, false)
  {}

  // ----- the calls -----

  lemma GetEffect(db: Db, now: int, key: Key, id: Id, breaks: bool)
    requires Inv(db) && Fresh(db, id)
    requires breaks ==> key in db.refresh && RequestOfRow(key, db.refresh[key]) !in db.tombs && !db.refresh[key].status.Active?
    ensures var (db', t) := Alone(db, now, GetRefreshCall(key), id, NO_ID, breaks);
            t.Done? && RefreshGot(db, key, now, db', t.reply, breaks)
  {
    hide Alone, Commit, MutateFamilies, FamilyTurned, SweepsBoth, RefreshOf, Inv;
    GetRefreshAlone(db, now, key, id, NO_ID, breaks);
    if key in db.refresh {
      var row := db.refresh[key];
      var rq := RequestOfRow(key, row);
      OneFamily(db, key);
      if rq !in db.tombs && !row.status.Active? {
        var until := Max(row.expires, Seconds(now) + TOMBSTONE_LIFETIME);
        CommitAlone(db, now, rq, row.family, row.expires, ThenInvalidate(row.family, false), id, NO_ID, breaks);
        CommitSucceeds(db, rq, row.family, until, id);
        CommitEffect(db, rq, row.family, until, id);
        CommitKeepsInv(db, rq, row.family, until, id);
        var db1 := Commit(db, rq, row.family, until, id).0;
        SameQueries(db, db1, rq);
        InvalidateAlone(db1, now, rq, row.family, false, until, id, NO_ID, breaks);
        assert RefreshOf(db1, rq) != map[];
        MutationEffect(db1, rq, rq, {row.family}, Reused, now);
        SameBase(db, db1, Invalidate(db1, rq.prefix, row.family, now), rq, Reused, now);
      }
    }
  }

  /** What is told of the rows after the commit of the tombstone is told of the rows before it. */
  lemma SameBase(db: Db, db1: Db, db': Db, rq: Request, status: Status, now: int)
    requires db1.refresh == db.refresh && db1.access == db.access
    ensures FamilyTurned(db1, db', rq, status, now) == FamilyTurned(db, db', rq, status, now)
    ensures forall stuck :: Sweeps(db1, db', rq, stuck) == Sweeps(db, db', rq, stuck)
  {}

  lemma RevokeEffect(db: Db, now: int, rq: Request, id: Id, breaks: bool)
    requires Inv(db) && Fresh(db, id) && (breaks ==> rq.id != "")
    ensures var (db', t) := Alone(db, now, RevokeRefreshCall(rq), id, NO_ID, breaks);
            t.Done? && RefreshRevoked(db, rq, now, db', t.reply, breaks)
  {
    hide Alone, Commit, MutateFamilies, FamilyTurned, SweepsBoth, Inv;
    var until := Max(0, Seconds(now) + TOMBSTONE_LIFETIME);
    CommitAlone(db, now, rq, NO_ID, 0, ThenRevoke, id, NO_ID, breaks);
    CommitEffect(db, rq, NO_ID, until, id);
    if rq.id == "" {
      assert !Commit(db, rq, NO_ID, until, id).1 by { NamelessCommit(db, rq, NO_ID, until, id); }
    } else {
      CommitSucceeds(db, rq, NO_ID, until, id);
      CommitKeepsInv(db, rq, NO_ID, until, id);
      var db1 := Commit(db, rq, NO_ID, until, id).0;
      RevokeTxAlone(db1, now, rq, until, id, NO_ID, breaks);
      SameQueries(db, db1, rq);
      SoundRows(db, rq);
      var rows := RefreshOf(db, rq);
      if rows == map[] {
        assert FamiliesOf(rows) == {};
        MutateNothing(db1, rq.prefix, now);
        forall k | k in db.refresh ensures !OwnsRefresh(rq, k, db.refresh[k]) { assert k !in rows; }
      } else {
        var w :| w in rows;
        assert OwnsRefresh(rq, w, db.refresh[w]);
        MutationEffect(db1, rq, rq, FamiliesOf(rows), Revoked, now);
        SameBase(db, db1, MutateFamilies(db1, rq.prefix, FamiliesOf(rows), Revoked, now), rq, Revoked, now);
      }
    }
  }

  lemma NamelessCommit(db: Db, rq: Request, family: Id, until: int, id: Id)
    requires rq.id == ""
    ensures !Commit(db, rq, family, until, id).1
  {}

  lemma RotateEffect(db: Db, now: int, rq: Request, signature: string, id: Id, breaks: bool)
    requires Inv(db) && Fresh(db, id)
    requires var key := Key(rq.prefix, signature);
             breaks ==> !(rq.id != "" && rq in db.tombs) && key in db.refresh && db.refresh[key].status.Rotated?
                        && rq.id != "" && !IsForeign(db, rq, key)
    ensures var (db', t) := Alone(db, now, RotateCall(rq, signature), id, NO_ID, breaks);
            t.Done? && RefreshRotated(db, rq, signature, now, db', t.reply, breaks, false)
  {
    hide Alone, Commit, SweepsBoth, FamilyTurned, Inv, IsForeign, WithoutAccessOf;
    var key := Key(rq.prefix, signature);
    var (db1, hit) := MarkRotated(db, key, now);
    RotateAlone(db, now, rq, signature, id, NO_ID, breaks);
    WithoutAccessSweeps(db, db, rq);
    WithoutAccessSweeps(db, db1, rq);
    WithoutAccessOnly(db, rq);
    WithoutAccessOnly(db1, rq);
    if !HasAuthority(db, rq) && !hit { LostEffect(db, now, rq, key, id, breaks); }
  }

  lemma WithoutAccessOnly(db: Db, rq: Request)
    ensures var db' := WithoutAccessOf(db, rq); db'.refresh == db.refresh && db'.tombs == db.tombs
  {}

  lemma LostEffect(db: Db, now: int, rq: Request, key: Key, id: Id, breaks: bool)
    requires Inv(db) && Fresh(db, id) && key.prefix == rq.prefix && !HasAuthority(db, rq)
    requires key in db.refresh ==> !db.refresh[key].status.Active?
    requires breaks ==> key in db.refresh && db.refresh[key].status.Rotated? && rq.id != "" && !IsForeign(db, rq, key)
    ensures var (db', t) := Alone(db, now, AfterLookup(db, rq, key.signature), id, NO_ID, breaks);
            t.Done? && RefreshRotated(db, rq, key.signature, now, db', t.reply, breaks, false)
  {
    hide Alone, Commit, SweepsBoth, FamilyTurned, Inv, IsForeign, WithoutAccessOf, RefreshOf, MutateFamilies;
    assert key == Key(rq.prefix, key.signature);
    var found := key in db.refresh;
    var family, expires := if found then db.refresh[key].family else NO_ID, if found then db.refresh[key].expires else 0;
    var late := found && db.refresh[key].status.Rotated?;
    var next := if late then ThenInvalidate(family, true) else ThenSweep;
    var until := Max(expires, Seconds(now) + TOMBSTONE_LIFETIME);
    CommitAlone(db, now, rq, family, expires, next, id, NO_ID, breaks);
    CommitEffect(db, rq, family, until, id);
    CommitKeepsInv(db, rq, family, until, id);
    if rq.id == "" {
      NamelessCommit(db, rq, family, until, id);
    } else {
      LostCommit(db, rq, key, until, id);
      var db1 := Commit(db, rq, family, until, id).0;
      WithoutAccessSweeps(db, db1, rq);
      WithoutAccessOnly(db1, rq);
      if late {
        var owner := Request(key.prefix, db.refresh[key].request);
        OneFamily(db, key);
        SameQueries(db, db1, owner);
        InvalidateAlone(db1, now, rq, family, true, until, id, NO_ID, breaks);
        assert RefreshOf(db1, owner) != map[];
        MutationEffect(db1, rq, owner, {family}, Reused, now);
        var db2 := MutateFamilies(db1, rq.prefix, {family}, Reused, now);
        WithoutAccessOnly(db2, rq);
        SameBase2(db, db1, db2, WithoutAccessOf(db2, rq), rq, owner, now);
      } else {
        SweepFindAlone(db1, now, rq, Inactive, Marked(rq, until), id, NO_ID, breaks);
      }
    }
  }

  lemma SameBase2(db: Db, db1: Db, db2: Db, db': Db, rq: Request, owner: Request, now: int)
    requires db1.refresh == db.refresh && db1.access == db.access && db'.refresh == db2.refresh
    ensures FamilyTurned(db1, db2, owner, Reused, now) == FamilyTurned(db, db', owner, Reused, now)
    ensures SweepsBoth(db1, db', rq, owner, false) == SweepsBoth(db, db', rq, owner, false)
  {}
}
