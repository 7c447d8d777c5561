/**
The undisturbed life of a session: n refreshes in a row all succeed and leave one linear chain.
*/
module RefreshChain {
  import opened RefreshDb
  import opened RefreshInvariant
  import opened RefreshProtocol
  import opened RefreshSequential

  /** What one refresh exchange brings along: its time, the signatures and expiries of the two new tokens,
      and the record ids it draws. */
  datatype Grant = Grant(clock: int, signature: string, expires: int, accessSignature: string, accessExpires: int,
                         refreshId: Id, accessId: Id, uuid: Id)

  /** The calls of one refresh grant in the order in which fosite makes them, each presented with what the
      one before answered. */
  ghost function Exchange(db: Db, key: Key, g: Grant): (Db, bool) {
    var (db1, got) := Alone(db, g.clock, GetRefreshCall(key), g.refreshId, g.uuid, false);
    if !got.Done? || !got.reply.Found? then (db1, false)
    else
      var rq := Request(key.prefix, got.reply.row.request);
      var (db2, rotated) := Alone(db1, g.clock, RotateCall(rq, key.signature), g.refreshId, g.uuid, false);
      if !rotated.Done? || !rotated.reply.Ok? then (db2, false)
      else
        var (db3, access) := Alone(db2, g.clock, CreateAccessCall(rq, g.accessSignature, g.accessExpires), g.accessId, g.uuid, false);
        if !access.Done? || !access.reply.Ok? then (db3, false)
        else
          var (db4, refresh) := Alone(db3, g.clock, CreateRefreshCall(rq, g.signature, g.accessSignature, g.expires),
                                      g.refreshId, g.uuid, false);
          (db4, refresh.Done? && refresh.reply.Ok?)
  }

  /** Refreshing again and again, each time with the token just issued. */
  ghost function Exchanges(db: Db, key: Key, gs: seq<Grant>): (Db, bool)
    decreases |gs|
  {
    if gs == [] then (db, true)
    else
      var (db', ok) := Exchange(db, key, gs[0]);
      if ok then Exchanges(db', Key(key.prefix, gs[0].signature), gs[1..]) else (db', false)
  }

  /** New signatures and ids, and a clock that has moved on. */
  predicate Brings(db: Db, prefix: string, since: int, g: Grant) {
    && since < g.clock
    && Key(prefix, g.signature) !in db.refresh && Key(prefix, g.accessSignature) !in db.access
    && Fresh(db, g.refreshId) && Fresh(db, g.accessId) && Fresh(db, g.uuid)
    && g.refreshId != g.accessId && g.refreshId != g.uuid && g.accessId != g.uuid
  }

  ghost predicate AllBring(db: Db, key: Key, since: int, gs: seq<Grant>)
    decreases |gs|
  {
    gs != [] ==> Brings(db, key.prefix, since, gs[0])
                 && AllBring(Exchange(db, key, gs[0]).0, Key(key.prefix, gs[0].signature), gs[0].clock, gs[1..])
  }

  /** All rows of the chain but the last are rotated, at strictly increasing times up to `since`; the last
      is active; each is the child of the one before. */
  predicate Linear(rows: map<Key, RefreshRow>, chain: seq<Key>, since: int) {
    && chain != [] && (forall i :: 0 <= i < |chain| ==> chain[i] in rows)
    && (forall i, j :: 0 <= i < j < |chain| ==> chain[i] != chain[j])
    && (forall i :: 0 <= i < |chain| - 1 ==> rows[chain[i]].status.Rotated? && rows[chain[i]].rotatedAt <= since)
    && (forall i, j :: 0 <= i < j < |chain| - 1 ==> rows[chain[i]].rotatedAt < rows[chain[j]].rotatedAt)
    && rows[chain[|chain| - 1]].status.Active?
    && rows[chain[0]].parent == NO_ID
    && (forall i :: 0 < i < |chain| ==> rows[chain[i]].parent == rows[chain[i - 1]].id)
  }

  /** The chain holds exactly the request's rows, in the order of creation, and the request has exactly one
      access row. */
  ghost predicate IsChain(db: Db, rq: Request, chain: seq<Key>, since: int) {
    && rq.id != "" && rq !in db.tombs
    && Linear(RefreshOf(db, rq), chain, since)
    && (forall k :: k in RefreshOf(db, rq) ==> k in chain)
    && |AccessOf(db, rq)| == 1
  }

  // ----- one exchange -----

  lemma ActiveIsFound(db: Db, clock: int, key: Key, id: Id, uuid: Id)
    requires key in db.refresh && db.refresh[key].status.Active? && RequestOfRow(key, db.refresh[key]) !in db.tombs
    ensures Alone(db, clock, GetRefreshCall(key), id, uuid, false) == (db, Done(key.prefix, Found(db.refresh[key]), Unmarked))
  {
    hide Alone;
    GetRefreshAlone(db, clock, key, id, uuid, false);
  }

  lemma ActiveIsRotated(db: Db, clock: int, key: Key, id: Id, uuid: Id)
    requires key in db.refresh && db.refresh[key].status.Active? && RequestOfRow(key, db.refresh[key]) !in db.tombs
    ensures var rq := RequestOfRow(key, db.refresh[key]);
            Alone(db, clock, RotateCall(rq, key.signature), id, uuid, false)
            == (WithoutAccessOf(MarkRotated(db, key, clock).0, rq), Done(key.prefix, Ok, Unmarked))
  {
    hide Alone;
    RotateAlone(db, clock, RequestOfRow(key, db.refresh[key]), key.signature, id, uuid, false);
  }

  lemma CreationAlone(db: Db, clock: int, t: Task, id: Id, uuid: Id)
    requires t.CreateAccessCall? || t.CreateRefreshCall?
    ensures var (db', reply) := if t.CreateAccessCall? then CreateAccess(db, t.rq, t.signature, t.expires, id)
                                else CreateRefresh(db, t.rq, t.signature, t.accessSignature, t.expires, id, uuid);
            Alone(db, clock, t, id, uuid, false) == (db', Done(t.rq.prefix, reply, Unmarked))
  {
    hide Alone, CreateAccess, CreateRefresh;
    AloneUnfolds(db, clock, t, id, uuid, false);
    var (db', t') := Exec(db, clock, t, Draw(t, id, uuid, false));
    AloneEnds(db', clock, t', id, uuid, false);
  }

  /** The database after rotating the active row and creating the access row. */
  ghost function Rotate(db: Db, key: Key, rq: Request, g: Grant): Db {
    var db2 := WithoutAccessOf(MarkRotated(db, key, g.clock).0, rq);
    CreateAccess(db2, rq, g.accessSignature, g.accessExpires, g.accessId).0
  }

  lemma RotateFacts(db: Db, key: Key, g: Grant)
    requires key in db.refresh && db.refresh[key].status.Active? && RequestOfRow(key, db.refresh[key]) !in db.tombs
    requires Key(key.prefix, g.accessSignature) !in db.access
    ensures var rq := RequestOfRow(key, db.refresh[key]);
            var db3 := Rotate(db, key, rq, g);
            && CreateAccess(WithoutAccessOf(MarkRotated(db, key, g.clock).0, rq), rq, g.accessSignature, g.accessExpires, g.accessId).1.Ok?
            && db3.refresh == db.refresh[key := db.refresh[key].(status := Rotated, rotatedAt := g.clock)]
            && db3.tombs == db.tombs && db3.drawn == db.drawn[g.accessId := key.prefix]
            && AccessOf(db3, rq) == map[Key(key.prefix, g.accessSignature) := AccessRow(g.accessId, rq.id, g.accessExpires)]
            && (forall k :: k in RefreshOf(db3, rq) <==> k in RefreshOf(db, rq))
  {
    var rq := RequestOfRow(key, db.refresh[key]);
    var db1 := MarkRotated(db, key, g.clock).0;
    var db2 := WithoutAccessOf(db1, rq);
    assert AccessOf(db2, rq) == map[];
    var db3 := Rotate(db, key, rq, g);
    forall k | k in AccessOf(db3, rq) ensures k == Key(key.prefix, g.accessSignature) {
      assert k in AccessOf(db2, rq) || k == Key(key.prefix, g.accessSignature);
    }
  }

  /** With every row rotated, at strictly increasing times, the last row of the chain is the parent. */
  lemma LastIsParent(db: Db, rq: Request, chain: seq<Key>, uuid: Id)
    requires Inv(db) && chain != [] && rq.id != "" && rq !in db.tombs
    requires forall k :: k in RefreshOf(db, rq) <==> k in chain
    requires forall i :: 0 <= i < |chain| ==> chain[i] in db.refresh && db.refresh[chain[i]].status.Rotated?
    requires forall i, j :: 0 <= i < j < |chain| ==> db.refresh[chain[i]].rotatedAt < db.refresh[chain[j]].rotatedAt
    ensures ResolveLineage(db, rq, uuid)
            == Child(db.refresh[chain[|chain| - 1]].family, db.refresh[chain[|chain| - 1]].id)
  {
    var rows, last := RefreshOf(db, rq), chain[|chain| - 1];
    assert last in rows;
    forall k | k in rows ensures rows[k].status.Rotated? && rows[k].family == rows[last].family != NO_ID {
      var i :| 0 <= i < |chain| && chain[i] == k;
      assert RowInv(db, k) && PairInv(db, k, last);
    }
    assert last in RotatedKeys(rows);
    var p := LatestRotated(rows);
    var i :| 0 <= i < |chain| && chain[i] == p;
    assert !Later(rows[last], rows[p]);
  }

  lemma ExchangeSteps(db: Db, key: Key, g: Grant)
    requires key in db.refresh && db.refresh[key].status.Active? && RequestOfRow(key, db.refresh[key]) !in db.tombs
    requires Key(key.prefix, g.accessSignature) !in db.access
    ensures var rq := RequestOfRow(key, db.refresh[key]);
            var (db4, reply) := CreateRefresh(Rotate(db, key, rq, g), rq, g.signature, g.accessSignature, g.expires, g.refreshId, g.uuid);
            Exchange(db, key, g) == (db4, reply.Ok?)
  {
    hide Alone, CreateRefresh, CreateAccess, MarkRotated, WithoutAccessOf;
    var rq := RequestOfRow(key, db.refresh[key]);
    ActiveIsFound(db, g.clock, key, g.refreshId, g.uuid);
    ActiveIsRotated(db, g.clock, key, g.refreshId, g.uuid);
    var db2 := WithoutAccessOf(MarkRotated(db, key, g.clock).0, rq);
    CreationAlone(db2, g.clock, CreateAccessCall(rq, g.accessSignature, g.accessExpires), g.accessId, g.uuid);
    RotateFacts(db, key, g);
    CreationAlone(Rotate(db, key, rq, g), g.clock, CreateRefreshCall(rq, g.signature, g.accessSignature, g.expires), g.refreshId, g.uuid);
  }

  lemma RotateKeepsInv(db: Db, key: Key, rq: Request, g: Grant)
    requires Inv(db) && Fresh(db, g.accessId)
    ensures Inv(Rotate(db, key, rq, g))
  {
    var db1 := MarkRotated(db, key, g.clock).0;
    MarkRotatedKeepsInv(db, key, g.clock);
    DeletionKeepsInv(db1, WithoutAccessOf(db1, rq));
    CreateAccessKeepsInv(WithoutAccessOf(db1, rq), rq, g.accessSignature, g.accessExpires, g.accessId);
  }

  /** Rotating the last row and adding its child keeps the chain linear. */
  lemma LinearGrows(rows: map<Key, RefreshRow>, chain: seq<Key>, since: int, at: int, n: Key, row: RefreshRow)
    requires Linear(rows, chain, since) && since < at && n !in rows
    requires row.status.Active? && row.parent == rows[chain[|chain| - 1]].id
    ensures var last := chain[|chain| - 1];
            Linear(rows[last := rows[last].(status := Rotated, rotatedAt := at)][n := row], chain + [n], at)
  {
    var last, chain' := chain[|chain| - 1], chain + [n];
    var rows' := rows[last := rows[last].(status := Rotated, rotatedAt := at)][n := row];
    forall i | 0 <= i < |chain| ensures chain'[i] == chain[i] && chain[i] != n && rows'[chain[i]].id == rows[chain[i]].id {}
  }

  /** The request's rows after one exchange. */
  lemma RowsAfterExchange(db: Db, db3: Db, rq: Request, key: Key, g: Grant)
    requires key in RefreshOf(db, rq) && Key(rq.prefix, g.signature) !in db.refresh
    requires db3.refresh == db.refresh[key := db.refresh[key].(status := Rotated, rotatedAt := g.clock)]
    requires ResolveLineage(db3, rq, g.uuid) == Child(db.refresh[key].family, db.refresh[key].id)
    ensures var (db', reply) := CreateRefresh(db3, rq, g.signature, g.accessSignature, g.expires, g.refreshId, g.uuid);
            var row := RefreshRow(g.refreshId, rq.id, db.refresh[key].family, db.refresh[key].id, Active, 0, 0, g.expires);
            && reply.Ok? && db'.tombs == db3.tombs && db'.access == db3.access
            && RefreshOf(db', rq) == RefreshOf(db, rq)[key := db.refresh[key].(status := Rotated, rotatedAt := g.clock)]
                                                      [Key(rq.prefix, g.signature) := row]
  {
    hide ResolveLineage;
  }

  lemma ChainEnds(db: Db, rq: Request, chain: seq<Key>, since: int)
    requires IsChain(db, rq, chain, since)
    ensures chain != [] && chain[|chain| - 1] in RefreshOf(db, rq)
  {}

  lemma ParentAfterRotation(db: Db, db3: Db, rq: Request, chain: seq<Key>, since: int, g: Grant)
    requires Inv(db3) && IsChain(db, rq, chain, since) && since < g.clock
    requires var key := chain[|chain| - 1];
             key in db.refresh && db3.refresh == db.refresh[key := db.refresh[key].(status := Rotated, rotatedAt := g.clock)]
    requires db3.tombs == db.tombs && forall k :: k in RefreshOf(db3, rq) <==> k in RefreshOf(db, rq)
    ensures var key := chain[|chain| - 1];
            ResolveLineage(db3, rq, g.uuid) == Child(db.refresh[key].family, db.refresh[key].id)
  {
    hide Inv, ResolveLineage;
    LastIsParent(db3, rq, chain, g.uuid);
  }

  /** One refresh with the active token of a chain succeeds and appends its token to the chain. */
  lemma ChainGrows(db: Db, rq: Request, chain: seq<Key>, since: int, g: Grant)
    requires Inv(db) && IsChain(db, rq, chain, since) && Brings(db, rq.prefix, since, g)
    ensures var (db', ok) := Exchange(db, chain[|chain| - 1], g);
            ok && Inv(db') && IsChain(db', rq, chain + [Key(rq.prefix, g.signature)], g.clock)
  {
    hide Exchange, CreateRefresh, ResolveLineage, Inv, Rotate, MarkRotated, CreateAccess, WithoutAccessOf;
    ChainEnds(db, rq, chain, since);
    var key, rows := chain[|chain| - 1], RefreshOf(db, rq);
    ExchangeSteps(db, key, g);
    RotateFacts(db, key, g);
    RotateKeepsInv(db, key, rq, g);
    var db3 := Rotate(db, key, rq, g);
    ParentAfterRotation(db, db3, rq, chain, since, g);
    CreateRefreshKeepsInv(db3, rq, g.signature, g.accessSignature, g.expires, g.refreshId, g.uuid);
    RowsAfterExchange(db, db3, rq, key, g);
    var db' := CreateRefresh(db3, rq, g.signature, g.accessSignature, g.expires, g.refreshId, g.uuid).0;
    var n := Key(rq.prefix, g.signature);
    LinearGrows(rows, chain, since, g.clock, n, RefreshOf(db', rq)[n]);
    assert AccessOf(db', rq) == AccessOf(db3, rq);
  }

  /** n refreshes in a row with no deletion, revocation or replay and a strictly increasing clock all
      succeed; they leave the old chain extended by exactly the n new tokens in order. */
  lemma {:induction false} SessionsFormAChain(db: Db, rq: Request, chain: seq<Key>, since: int, gs: seq<Grant>)
    requires Inv(db) && IsChain(db, rq, chain, since) && AllBring(db, chain[|chain| - 1], since, gs)
    ensures var (db', ok) := Exchanges(db, chain[|chain| - 1], gs);
            && ok && Inv(db')
            && IsChain(db', rq, chain + Issued(rq.prefix, gs), if gs == [] then since else gs[|gs| - 1].clock)
    decreases |gs|
  {
    hide Exchange, Inv, Linear, Brings;
    assert chain != [] && chain[|chain| - 1] in RefreshOf(db, rq) by { ChainEnds(db, rq, chain, since); }
    if gs == [] {
      assert chain + Issued(rq.prefix, gs) == chain;
    } else {
      ChainGrows(db, rq, chain, since, gs[0]);
      var db1 := Exchange(db, chain[|chain| - 1], gs[0]).0;
      var chain1 := chain + [Key(rq.prefix, gs[0].signature)];
      SessionsFormAChain(db1, rq, chain1, gs[0].clock, gs[1..]);
      assert chain1 + Issued(rq.prefix, gs[1..]) == chain + Issued(rq.prefix, gs);
    }
  }

  /** The keys of the refresh tokens issued, in order. */
  function Issued(prefix: string, gs: seq<Grant>): (ks: seq<Key>)
    ensures |ks| == |gs| && forall i :: 0 <= i < |gs| ==> ks[i] == Key(prefix, gs[i].signature)
  {
    seq(|gs|, i requires 0 <= i < |gs| => Key(prefix, gs[i].signature))
  }

  /** Redeeming an authorization code for a request without any row starts a chain of one. */
  lemma CodeRedemptionStartsChain(db: Db, rq: Request, g: Grant, since: int)
    requires Inv(db) && rq.id != "" && rq !in db.tombs && RefreshOf(db, rq) == map[] && AccessOf(db, rq) == map[]
    requires Brings(db, rq.prefix, since, g)
    ensures var (db1, t1) := Alone(db, g.clock, CreateAccessCall(rq, g.accessSignature, g.accessExpires), g.accessId, g.uuid, false);
            var (db2, t2) := Alone(db1, g.clock, CreateRefreshCall(rq, g.signature, g.accessSignature, g.expires), g.refreshId, g.uuid, false);
            && t1 == Done(rq.prefix, Ok, Unmarked) && t2 == Done(rq.prefix, Ok, Unmarked)
            && Inv(db2) && IsChain(db2, rq, [Key(rq.prefix, g.signature)], g.clock)
  {
    hide Alone;
    CreationAlone(db, g.clock, CreateAccessCall(rq, g.accessSignature, g.accessExpires), g.accessId, g.uuid);
    var db1 := CreateAccess(db, rq, g.accessSignature, g.accessExpires, g.accessId).0;
    CreationAlone(db1, g.clock, CreateRefreshCall(rq, g.signature, g.accessSignature, g.expires), g.refreshId, g.uuid);
    CreateAccessKeepsInv(db, rq, g.accessSignature, g.accessExpires, g.accessId);
    CreateRefreshKeepsInv(db1, rq, g.signature, g.accessSignature, g.expires, g.refreshId, g.uuid);
    RootStartsChain(db, db1, rq, g);
  }

  lemma RootStartsChain(db: Db, db1: Db, rq: Request, g: Grant)
    requires rq.id != "" && rq !in db.tombs && RefreshOf(db, rq) == map[] && AccessOf(db, rq) == map[]
    requires db1 == CreateAccess(db, rq, g.accessSignature, g.accessExpires, g.accessId).0
    requires Key(rq.prefix, g.signature) !in db.refresh && Key(rq.prefix, g.accessSignature) !in db.access
    ensures var (db2, reply) := CreateRefresh(db1, rq, g.signature, g.accessSignature, g.expires, g.refreshId, g.uuid);
            reply.Ok? && IsChain(db2, rq, [Key(rq.prefix, g.signature)], g.clock)
  {
    var n, a := Key(rq.prefix, g.signature), Key(rq.prefix, g.accessSignature);
    assert RefreshOf(db1, rq) == map[];
    var db2 := CreateRefresh(db1, rq, g.signature, g.accessSignature, g.expires, g.refreshId, g.uuid).0;
    forall k | k in RefreshOf(db2, rq) ensures k == n { assert k != n ==> k in RefreshOf(db, rq); }
    assert AccessOf(db2, rq) == map[a := AccessRow(g.accessId, rq.id, g.accessExpires)] by {
      forall k | k in AccessOf(db2, rq) ensures k == a { assert k != a ==> k in AccessOf(db, rq); }
    }
  }
}
