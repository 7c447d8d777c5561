/**
The tables behind refresh-token families, and the transactions that storage.go runs on them.

A table is a map from its unique index to the row: refresh and access rows are keyed by
(provider_prefix, signature), tombstones by (provider_prefix, request_id). Every row also
carries the record id it was saved under. Record ids and family ids are numbers here; zero
stands for the empty string. `drawn` remembers every id handed out so far together with the
provider it was drawn for, which is how the freshness of generated ids is expressed.
Row times follow the source: expiry in Unix seconds, rotated_at and reused_at in microseconds.
*/
module RefreshDb {

  type Id = nat

  const NO_ID: Id := 0

  /** missingRefreshTombstoneLifetime, in seconds. */
  const TOMBSTONE_LIFETIME := 86400

  datatype Key = Key(prefix: string, signature: string)

  datatype Request = Request(prefix: string, id: string)

  datatype Status = Active | Rotated | Reused | Revoked | Unknown(text: string)

  datatype RefreshRow = RefreshRow(id: Id, request: string, family: Id, parent: Id,
                                   status: Status, rotatedAt: int, reusedAt: int, expires: int)

  datatype AccessRow = AccessRow(id: Id, request: string, expires: int)

  datatype Tombstone = Tombstone(id: Id, family: Id, expires: int)

  datatype Db = Db(refresh: map<Key, RefreshRow>, access: map<Key, AccessRow>,
                   tombs: map<Request, Tombstone>, drawn: map<Id, string>)

  /** What one store call answers. `Inactive` is fosite.ErrInactiveToken, `Conflict` is
      fosite.ErrSerializationFailure and `Failed` stands for every other error. `Found` is a refresh
      session handed out, `Accepted` an access token let through, `Attested` one vouched for by
      ValidateAccessTokenAuthorityAt. */
  datatype Reply = Ok | Found(row: RefreshRow) | Accepted(access: AccessRow) | Attested(access: AccessRow)
                 | NotFound | Inactive | Conflict | Failed

  datatype Lineage = Root(family: Id) | Child(family: Id, parent: Id) | Terminal | Busy | Corrupt

  function Seconds(micros: int): int { micros / 1_000_000 }

  predicate IsTerminal(s: Status) { s.Reused? || s.Revoked? }

  /** The rows a provider-scoped query by request id returns. */
  ghost function RefreshOf(db: Db, rq: Request): map<Key, RefreshRow> {
    map k | k in db.refresh && k.prefix == rq.prefix && db.refresh[k].request == rq.id :: db.refresh[k]
  }

  ghost function AccessOf(db: Db, rq: Request): map<Key, AccessRow> {
    map k | k in db.access && k.prefix == rq.prefix && db.access[k].request == rq.id :: db.access[k]
  }

  /** hasRefreshTerminalAuthority. */
  predicate HasAuthority(db: Db, rq: Request) { rq.id != "" && rq in db.tombs }

  // ----- ordering of rotated rows: rotated_at DESC, id DESC -----

  predicate Later(a: RefreshRow, b: RefreshRow) {
    a.rotatedAt > b.rotatedAt || (a.rotatedAt == b.rotatedAt && a.id > b.id)
  }

  ghost predicate IsLatest(rows: map<Key, RefreshRow>, ks: set<Key>, k: Key)
    requires ks <= rows.Keys
  {
    k in ks && forall j :: j in ks ==> !Later(rows[j], rows[k])
  }

  lemma LatestExists(rows: map<Key, RefreshRow>, ks: set<Key>)
    requires ks <= rows.Keys && ks != {}
    ensures exists k :: IsLatest(rows, ks, k)
  {
    var x :| x in ks;
    if ks == {x} {
      assert IsLatest(rows, ks, x);
    } else {
      LatestExists(rows, ks - {x});
      var y :| IsLatest(rows, ks - {x}, y);
      assert IsLatest(rows, ks, if Later(rows[x], rows[y]) then x else y);
    }
  }

  ghost function RotatedKeys(rows: map<Key, RefreshRow>): (ks: set<Key>)
    ensures ks <= rows.Keys
  {
    set k | k in rows && rows[k].status.Rotated?
  }

  ghost function LatestRotated(rows: map<Key, RefreshRow>): (k: Key)
    requires RotatedKeys(rows) != {}
    ensures IsLatest(rows, RotatedKeys(rows), k)
  {
    LatestExists(rows, RotatedKeys(rows));
    var k :| IsLatest(rows, RotatedKeys(rows), k);
    k
  }

  // ----- resolveRefreshLineage -----

  ghost predicate HasTerminal(rows: map<Key, RefreshRow>) {
    exists k :: k in rows && IsTerminal(rows[k].status)
  }

  ghost predicate HasActive(rows: map<Key, RefreshRow>) {
    exists k :: k in rows && rows[k].status.Active?
  }

  ghost predicate IsCorrupt(rows: map<Key, RefreshRow>) {
    || (exists k :: k in rows && (rows[k].family == NO_ID || rows[k].status.Unknown?))
    || Spans(rows)
  }

  /** request_id spans multiple refresh families. */
  ghost predicate Spans(rows: map<Key, RefreshRow>) {
    exists j, k :: j in rows && k in rows && rows[j].family != NO_ID && rows[k].family != NO_ID
                   && rows[j].family != rows[k].family
  }

  ghost function ResolveLineage(db: Db, rq: Request, uuid: Id): Lineage {
    var rows := RefreshOf(db, rq);
    if rq.id == "" then Corrupt
    else if rq in db.tombs then Terminal
    else if rows == map[] then Root(uuid)
    else if HasTerminal(rows) then Terminal
    else if IsCorrupt(rows) then Corrupt
    else if HasActive(rows) then Busy
    else if RotatedKeys(rows) == {} then Corrupt
    else
      var parent := rows[LatestRotated(rows)];
      Child(parent.family, parent.id)
  }

  // ----- scopedRefreshArtifactAuthority -----

  ghost function MaxOf(s: set<int>): (m: int)
    requires exists x :: x in s
    ensures m in s
    ensures forall x :: x in s ==> x <= m
  {
    var x :| x in s;
    if y :| y in s && y != x then
      assert y in s - {x};
      var m := MaxOf(s - {x});
      assert forall z :: z in s ==> z == x || z in s - {x};
      Max(x, m)
    else x
  }

  ghost function ArtifactFamily(rows: map<Key, RefreshRow>): (family: Id)
    ensures family == NO_ID <==> forall k :: k in rows ==> rows[k].family == NO_ID
    ensures family != NO_ID ==> exists k :: k in rows && rows[k].family == family
  {
    if exists k :: k in rows && rows[k].family != NO_ID then
      var k :| k in rows && rows[k].family != NO_ID;
      rows[k].family
    else NO_ID
  }

  ghost function ArtifactExpiry(rows: map<Key, RefreshRow>, access: map<Key, AccessRow>): (e: int)
    ensures e >= 0
    ensures forall k :: k in rows ==> rows[k].expires <= e
    ensures forall k :: k in access ==> access[k].expires <= e
    ensures e == 0 || (exists k :: k in rows && rows[k].expires == e) || (exists k :: k in access && access[k].expires == e)
  {
    var all := {0} + (set k | k in rows :: rows[k].expires) + (set k | k in access :: access[k].expires);
    assert 0 in all;
    assert forall k :: k in rows ==> rows[k].expires in all;
    assert forall k :: k in access ==> access[k].expires in all;
    MaxOf(all)
  }

  // ----- the transactions -----

  predicate Fresh(db: Db, id: Id) { id != NO_ID && id !in db.drawn }

  function Max(a: int, b: int): int { if a < b then b else a }

  /** CreateAccessTokenSession. */
  function CreateAccess(db: Db, rq: Request, signature: string, expires: int, id: Id): (Db, Reply) {
    var k := Key(rq.prefix, signature);
    if HasAuthority(db, rq) then (db, Inactive)
    else if k in db.access then (db, Failed)
    else (db.(access := db.access[k := AccessRow(id, rq.id, expires)], drawn := db.drawn[id := rq.prefix]), Ok)
  }

  ghost function WithoutAccessOf(db: Db, rq: Request): Db {
    db.(access := db.access - AccessOf(db, rq).Keys)
  }

  /** The committed clean-up of a rejected replacement that owns only its candidate access row. */
  function WithoutCandidate(db: Db, prefix: string, accessSignature: string): Db {
    if accessSignature == "" then db else db.(access := db.access - {Key(prefix, accessSignature)})
  }

  /** CreateRefreshTokenSession. */
  ghost function CreateRefresh(db: Db, rq: Request, signature: string, accessSignature: string, expires: int,
                               id: Id, uuid: Id): (Db, Reply) {
    var k := Key(rq.prefix, signature);
    match ResolveLineage(db, rq, uuid)
    case Terminal => (WithoutAccessOf(db, rq), Inactive)
    case Busy => (WithoutCandidate(db, rq.prefix, accessSignature), Conflict)
    case Corrupt => (WithoutCandidate(db, rq.prefix, accessSignature), Failed)
    case Root(family) =>
      if k in db.refresh then (db, Failed)
      else (db.(refresh := db.refresh[k := RefreshRow(id, rq.id, family, NO_ID, Active, 0, 0, expires)],
                drawn := db.drawn[id := rq.prefix][family := rq.prefix]), Ok)
    case Child(family, parent) =>
      if k in db.refresh then (db, Failed)
      else (db.(refresh := db.refresh[k := RefreshRow(id, rq.id, family, parent, Active, 0, 0, expires)],
                drawn := db.drawn[id := rq.prefix]), Ok)
  }

  /** The conditional UPDATE of markRefreshRotated: the new database and whether a row was affected. */
  function MarkRotated(db: Db, k: Key, at: int): (Db, bool) {
    if k in db.refresh && db.refresh[k].status.Active? then
      (db.(refresh := db.refresh[k := db.refresh[k].(status := Rotated, rotatedAt := at)]), true)
    else (db, false)
  }

  /** commitRefreshTerminalAuthority, from the start of its transaction: `expires` has already been
      raised to the minimum lifetime. Answers whether the transaction committed. */
  ghost function Commit(db: Db, rq: Request, family: Id, expires: int, id: Id): (Db, bool) {
    var rows := RefreshOf(db, rq);
    var found := ArtifactFamily(rows);
    var family' := if family == NO_ID then found else family;
    var expires' := Max(expires, ArtifactExpiry(rows, AccessOf(db, rq)));
    if rq.id == "" || Spans(rows) || (family != NO_ID && found != NO_ID && family != found) then (db, false)
    else if rq in db.tombs then
      var t := db.tombs[rq];
      if t.family != NO_ID && family' != NO_ID && t.family != family' then (db, false)
      else
        (db.(tombs := db.tombs[rq := t.(family := if t.family == NO_ID then family' else t.family,
                                        expires := Max(t.expires, expires'))]), true)
    else (db.(tombs := db.tombs[rq := Tombstone(id, family', expires')], drawn := db.drawn[id := rq.prefix]), true)
  }

  function Condemn(row: RefreshRow, status: Status, now: int): RefreshRow {
    row.(status := status,
         reusedAt := if status.Reused? && row.reusedAt == 0 then now else row.reusedAt)
  }

  /** The request ids of the rows of some families, as mutateRefreshFamily collects them. */
  ghost function RequestsOf(db: Db, prefix: string, families: set<Id>): set<string> {
    set k | k in db.refresh && k.prefix == prefix && db.refresh[k].family in families && db.refresh[k].request != ""
      :: db.refresh[k].request
  }

  /** Every row of the families becomes terminal and every access row of their requests goes. */
  ghost function MutateFamilies(db: Db, prefix: string, families: set<Id>, status: Status, now: int): Db {
    var seen := RequestsOf(db, prefix, families);
    db.(refresh := map k | k in db.refresh ::
                     if k.prefix == prefix && db.refresh[k].family in families
                     then Condemn(db.refresh[k], status, now) else db.refresh[k],
        access := map k | k in db.access && !(k.prefix == prefix && db.access[k].request in seen) :: db.access[k])
  }

  /** invalidateRefreshFamily: mutateRefreshFamily with status reused. */
  ghost function Invalidate(db: Db, prefix: string, family: Id, now: int): Db {
    if family == NO_ID then db else MutateFamilies(db, prefix, {family}, Reused, now)
  }

  ghost function FamiliesOf(rows: map<Key, RefreshRow>): set<Id> {
    set k | k in rows :: rows[k].family
  }

  /** revokeRefreshFamilyByRequestID: the new database and whether it committed. */
  ghost function RevokeByRequest(db: Db, rq: Request, now: int): (Db, bool) {
    var rows := RefreshOf(db, rq);
    if NO_ID in FamiliesOf(rows) then (db, false)
    else (MutateFamilies(db, rq.prefix, FamiliesOf(rows), Revoked, now), true)
  }

  /** app.Delete of a record read earlier: deletes the row only while it is still that record. */
  function DeleteRefreshRecord(db: Db, k: Key, id: Id): Db {
    if k in db.refresh && db.refresh[k].id == id then db.(refresh := db.refresh - {k}) else db
  }

  function DeleteAccessRecord(db: Db, k: Key, id: Id): Db {
    if k in db.access && db.access[k].id == id then db.(access := db.access - {k}) else db
  }

  /** One transaction of cleanupExpiredRefreshTombstones: `at` is the time read when the job started and
      `now` the current time, both in microseconds. */
  ghost function CleanTombstone(db: Db, rq: Request, id: Id, at: int, now: int): Db {
    var rows, access := RefreshOf(db, rq), AccessOf(db, rq);
    if rq !in db.tombs || db.tombs[rq].id != id || db.tombs[rq].expires >= Seconds(at) || Spans(rows) then db
    else if rows != map[] || access != map[] then
      var retry := Max(Seconds(now) + TOMBSTONE_LIFETIME, ArtifactExpiry(rows, access));
      db.(tombs := db.tombs[rq := db.tombs[rq].(expires := retry)])
    else db.(tombs := db.tombs - {rq})
  }

  /** One row deletion of the session cleanup job. */
  function ExpireRefresh(db: Db, k: Key, at: int): Db {
    if k in db.refresh && db.refresh[k].expires < Seconds(at) then db.(refresh := db.refresh - {k}) else db
  }

  function ExpireAccess(db: Db, k: Key, at: int): Db {
    if k in db.access && db.access[k].expires < Seconds(at) then db.(access := db.access - {k}) else db
  }

  const EMPTY := Db(map[], map[], map[], map[])
}
