/**
What every reachable database satisfies, and that every transaction keeps it. The invariant is
stated row by row and pair by pair, so that each proof looks only at the rows it is about.
*/
module RefreshInvariant {
  import opened RefreshDb

  predicate Drawn(db: Db, id: Id, prefix: string) {
    id != NO_ID && id in db.drawn && db.drawn[id] == prefix
  }

  function RequestOfRow(k: Key, row: RefreshRow): Request { Request(k.prefix, row.request) }

  /** A row is well formed, its ids were drawn for its provider, and a tombstone of its request
      outlives it and names no other family. */
  predicate RowInv(db: Db, k: Key)
    requires k in db.refresh
  {
    var row := db.refresh[k];
    var rq := RequestOfRow(k, row);
    && Drawn(db, row.id, k.prefix)
    && Drawn(db, row.family, k.prefix)
    && row.request != ""
    && !row.status.Unknown?
    && (rq in db.tombs ==>
          && row.expires <= db.tombs[rq].expires
          && (db.tombs[rq].family == NO_ID || db.tombs[rq].family == row.family))
  }

  predicate AccessInv(db: Db, k: Key)
    requires k in db.access
  {
    var row := db.access[k];
    var rq := Request(k.prefix, row.request);
    && Drawn(db, row.id, k.prefix)
    && (rq in db.tombs ==> row.expires <= db.tombs[rq].expires)
  }

  predicate TombInv(db: Db, rq: Request)
    requires rq in db.tombs
  {
    rq.id != "" && Drawn(db, db.tombs[rq].id, rq.prefix)
  }

  predicate SameRequest(db: Db, j: Key, k: Key)
    requires j in db.refresh && k in db.refresh
  {
    j.prefix == k.prefix && db.refresh[j].request == db.refresh[k].request
  }

  /** Two rows share a family exactly when they share a request; then at most one of them is active, and
      without a tombstone either both are terminal or neither is. */
  predicate PairInv(db: Db, j: Key, k: Key)
    requires j in db.refresh && k in db.refresh
  {
    var a, b := db.refresh[j], db.refresh[k];
    && (a.id == b.id ==> j == k)
    && (SameRequest(db, j, k) <==> a.family == b.family)
    && (SameRequest(db, j, k) ==>
          && (a.status.Active? && b.status.Active? ==> j == k)
          && (RequestOfRow(j, a) !in db.tombs ==> (IsTerminal(a.status) <==> IsTerminal(b.status))))
  }

  predicate AccessPairInv(db: Db, j: Key, k: Key)
    requires j in db.access && k in db.access
  {
    db.access[j].id == db.access[k].id ==> j == k
  }

  predicate TombPairInv(db: Db, q: Request, r: Request)
    requires q in db.tombs && r in db.tombs
  {
    db.tombs[q].id == db.tombs[r].id ==> q == r
  }

  ghost predicate Inv(db: Db) {
    && (forall k {:trigger RowInv(db, k)} :: k in db.refresh ==> RowInv(db, k))
    && (forall k {:trigger AccessInv(db, k)} :: k in db.access ==> AccessInv(db, k))
    && (forall rq {:trigger TombInv(db, rq)} :: rq in db.tombs ==> TombInv(db, rq))
    && (forall j, k {:trigger PairInv(db, j, k)} :: j in db.refresh && k in db.refresh ==> PairInv(db, j, k))
    && (forall j, k {:trigger AccessPairInv(db, j, k)} :: j in db.access && k in db.access ==> AccessPairInv(db, j, k))
    && (forall q, r {:trigger TombPairInv(db, q, r)} :: q in db.tombs && r in db.tombs ==> TombPairInv(db, q, r))
  }

  lemma EmptyInv()
    ensures Inv(EMPTY)
  {}

  /** Deleting rows, whichever and in whatever order, keeps the invariant. */
  lemma DeletionKeepsInv(db: Db, db': Db)
    requires Inv(db)
    requires db'.tombs == db.tombs && db'.drawn == db.drawn
    requires forall k :: k in db'.refresh ==> k in db.refresh && db'.refresh[k] == db.refresh[k]
    requires forall k :: k in db'.access ==> k in db.access && db'.access[k] == db.access[k]
    ensures Inv(db')
  {
    forall k | k in db'.refresh ensures RowInv(db', k) { assert RowInv(db, k); }
    forall k | k in db'.access ensures AccessInv(db', k) { assert AccessInv(db, k); }
    forall rq | rq in db'.tombs ensures TombInv(db', rq) { assert TombInv(db, rq); }
    forall j, k | j in db'.refresh && k in db'.refresh ensures PairInv(db', j, k) { assert PairInv(db, j, k); }
    forall j, k | j in db'.access && k in db'.access ensures AccessPairInv(db', j, k) { assert AccessPairInv(db, j, k); }
    forall q, r | q in db'.tombs && r in db'.tombs ensures TombPairInv(db', q, r) { assert TombPairInv(db, q, r); }
  }

  lemma CreateAccessKeepsInv(db: Db, rq: Request, signature: string, expires: int, id: Id)
    requires Inv(db) && Fresh(db, id)
    ensures Inv(CreateAccess(db, rq, signature, expires, id).0)
  {
    var db' := CreateAccess(db, rq, signature, expires, id).0;
    var n := Key(rq.prefix, signature);
    forall k | k in db'.refresh ensures RowInv(db', k) { assert RowInv(db, k); }
    forall k | k in db'.access ensures AccessInv(db', k) {
      if k in db.access { assert AccessInv(db, k); }
      if rq in db.tombs { assert TombInv(db, rq); }
    }
    forall r | r in db'.tombs ensures TombInv(db', r) { assert TombInv(db, r); }
    forall j, k | j in db'.refresh && k in db'.refresh ensures PairInv(db', j, k) { assert PairInv(db, j, k); }
    forall j, k | j in db'.access && k in db'.access ensures AccessPairInv(db', j, k) {
      if j in db.access { assert AccessInv(db, j); }
      if k in db.access { assert AccessInv(db, k); }
      if j in db.access && k in db.access { assert AccessPairInv(db, j, k); }
    }
    forall q, r | q in db'.tombs && r in db'.tombs ensures TombPairInv(db', q, r) { assert TombPairInv(db, q, r); }
  }

  lemma MarkRotatedKeepsInv(db: Db, n: Key, at: int)
    requires Inv(db)
    ensures Inv(MarkRotated(db, n, at).0)
  {
    var db' := MarkRotated(db, n, at).0;
    forall k | k in db'.refresh ensures RowInv(db', k) { assert RowInv(db, k); }
    forall k | k in db'.access ensures AccessInv(db', k) { assert AccessInv(db, k); }
    forall r | r in db'.tombs ensures TombInv(db', r) { assert TombInv(db, r); }
    forall j, k | j in db'.refresh && k in db'.refresh ensures PairInv(db', j, k) { assert PairInv(db, j, k); }
    forall j, k | j in db'.access && k in db'.access ensures AccessPairInv(db', j, k) { assert AccessPairInv(db, j, k); }
    forall q, r | q in db'.tombs && r in db'.tombs ensures TombPairInv(db', q, r) { assert TombPairInv(db, q, r); }
  }

  /** A new row may join only a request without tombstone whose rows, if any, are all rotated and of the
      row's family; a root brings a family never seen before. */
  lemma InsertRefreshKeepsInv(db: Db, n: Key, row: RefreshRow, db': Db)
    requires Inv(db)
    requires n !in db.refresh && Request(n.prefix, row.request) !in db.tombs
    requires row.request != "" && row.status.Active?
    requires Fresh(db, row.id)
    requires row.family != NO_ID && (row.family in db.drawn ==> db.drawn[row.family] == n.prefix)
    requires forall k :: k in db.refresh && k.prefix == n.prefix && db.refresh[k].request == row.request ==>
                           db.refresh[k].status.Rotated? && db.refresh[k].family == row.family
    requires row.family in db.drawn ==>
               exists k :: k in db.refresh && k.prefix == n.prefix && db.refresh[k].request == row.request
    requires db' == db.(refresh := db.refresh[n := row], drawn := db'.drawn)
    requires db'.drawn == db.drawn[row.id := n.prefix] || db'.drawn == db.drawn[row.id := n.prefix][row.family := n.prefix]
    requires row.family in db'.drawn && row.id != row.family
    ensures Inv(db')
  {
    assert forall id :: id in db.drawn ==> id in db'.drawn && db'.drawn[id] == db.drawn[id];
    forall k | k in db'.refresh ensures RowInv(db', k) {
      if k != n { assert RowInv(db, k); }
    }
    forall k | k in db'.access ensures AccessInv(db', k) { assert AccessInv(db, k); }
    forall r | r in db'.tombs ensures TombInv(db', r) { assert TombInv(db, r); }
    forall j, k | j in db'.refresh && k in db'.refresh ensures PairInv(db', j, k) {
      if j != n && k != n { assert PairInv(db, j, k); }
      if j != n { InsertedPair(db, n, row, j); }
      if k != n { InsertedPair(db, n, row, k); }
    }
    forall j, k | j in db'.access && k in db'.access ensures AccessPairInv(db', j, k) { assert AccessPairInv(db, j, k); }
    forall q, r | q in db'.tombs && r in db'.tombs ensures TombPairInv(db', q, r) { assert TombPairInv(db, q, r); }
  }

  lemma InsertedPair(db: Db, n: Key, row: RefreshRow, k: Key)
    requires Inv(db) && k in db.refresh && Fresh(db, row.id)
    requires forall k :: k in db.refresh && k.prefix == n.prefix && db.refresh[k].request == row.request ==>
                           db.refresh[k].status.Rotated? && db.refresh[k].family == row.family
    requires row.family in db.drawn ==>
               exists k :: k in db.refresh && k.prefix == n.prefix && db.refresh[k].request == row.request
    ensures db.refresh[k].id != row.id
    ensures (k.prefix == n.prefix && db.refresh[k].request == row.request) <==> db.refresh[k].family == row.family
  {
    assert RowInv(db, k);
    if db.refresh[k].family == row.family {
      var w :| w in db.refresh && w.prefix == n.prefix && db.refresh[w].request == row.request;
      assert PairInv(db, w, k);
    }
  }

  lemma CreateRefreshKeepsInv(db: Db, rq: Request, signature: string, accessSignature: string, expires: int,
                              id: Id, uuid: Id)
    requires Inv(db) && Fresh(db, id) && Fresh(db, uuid) && id != uuid
    ensures Inv(CreateRefresh(db, rq, signature, accessSignature, expires, id, uuid).0)
  {
    var (db', reply) := CreateRefresh(db, rq, signature, accessSignature, expires, id, uuid);
    var l := ResolveLineage(db, rq, uuid);
    if (l.Root? || l.Child?) && Key(rq.prefix, signature) !in db.refresh {
      AllowedRowKeepsInv(db, rq, signature, expires, id, uuid, db');
    } else {
      assert db'.tombs == db.tombs && db'.drawn == db.drawn && db'.refresh == db.refresh;
      assert forall k :: k in db'.access ==> k in db.access && db'.access[k] == db.access[k];
      DeletionKeepsInv(db, db');
    }
  }

  lemma AllowedRowKeepsInv(db: Db, rq: Request, signature: string, expires: int, id: Id, uuid: Id, db': Db)
    requires Inv(db) && Fresh(db, id) && Fresh(db, uuid) && id != uuid
    requires ResolveLineage(db, rq, uuid).Root? || ResolveLineage(db, rq, uuid).Child?
    requires var l, n := ResolveLineage(db, rq, uuid), Key(rq.prefix, signature);
             && n !in db.refresh
             && db' == db.(refresh := db.refresh[n := RefreshRow(id, rq.id, l.family, if l.Root? then NO_ID else l.parent,
                                                                 Active, 0, 0, expires)],
                           drawn := if l.Root? then db.drawn[id := rq.prefix][l.family := rq.prefix]
                                    else db.drawn[id := rq.prefix])
    ensures Inv(db')
  {
    var n := Key(rq.prefix, signature);
    ChildOfRotated(db, rq, uuid);
    InsertRefreshKeepsInv(db, n, db'.refresh[n], db');
  }

  ghost predicate IsRowOf(db: Db, rq: Request, id: Id) {
    exists k :: k in db.refresh && k.prefix == rq.prefix && db.refresh[k].request == rq.id && db.refresh[k].id == id
  }

  /** When resolveRefreshLineage allows a row, the request has no tombstone and every row it has is a
      rotated one of the family handed out. */
  lemma ChildOfRotated(db: Db, rq: Request, uuid: Id)
    requires Inv(db) && Fresh(db, uuid)
    requires ResolveLineage(db, rq, uuid).Root? || ResolveLineage(db, rq, uuid).Child?
    ensures var l := ResolveLineage(db, rq, uuid);
            && rq.id != "" && rq !in db.tombs
            && (forall k :: k in db.refresh && k.prefix == rq.prefix && db.refresh[k].request == rq.id ==>
                 db.refresh[k].status.Rotated? && db.refresh[k].family == l.family)
            && (l.Root? ==> l.family == uuid)
            && (l.Child? ==> Drawn(db, l.family, rq.prefix) && IsRowOf(db, rq, l.parent))
  {
    var l, rows := ResolveLineage(db, rq, uuid), RefreshOf(db, rq);
    assert forall k :: k in db.refresh && k.prefix == rq.prefix && db.refresh[k].request == rq.id ==> k in rows;
    if l.Child? {
      assert !HasTerminal(rows) && !HasActive(rows);
      var p := LatestRotated(rows);
      assert RowInv(db, p);
      forall k | k in rows ensures rows[k].status.Rotated? && rows[k].family == l.family {
        assert RowInv(db, k);
        assert PairInv(db, p, k);
      }
    }
  }

  lemma MutateKeepsInv(db: Db, prefix: string, families: set<Id>, status: Status, now: int)
    requires Inv(db) && IsTerminal(status)
    ensures Inv(MutateFamilies(db, prefix, families, status, now))
  {
    var db' := MutateFamilies(db, prefix, families, status, now);
    forall k | k in db'.refresh ensures RowInv(db', k) { assert RowInv(db, k); }
    forall k | k in db'.access ensures AccessInv(db', k) { assert AccessInv(db, k); }
    forall r | r in db'.tombs ensures TombInv(db', r) { assert TombInv(db, r); }
    forall j, k | j in db'.refresh && k in db'.refresh ensures PairInv(db', j, k) { assert PairInv(db, j, k); }
    forall j, k | j in db'.access && k in db'.access ensures AccessPairInv(db', j, k) { assert AccessPairInv(db, j, k); }
    forall q, r | q in db'.tombs && r in db'.tombs ensures TombPairInv(db', q, r) { assert TombPairInv(db, q, r); }
  }

  /** Writing a tombstone keeps the invariant when it outlives the rows of its request and names no other
      family; removing one does when its request has no row at all. */
  lemma PutTombstoneKeepsInv(db: Db, rq: Request, t: Tombstone, db': Db)
    requires Inv(db) && rq.id != ""
    requires if rq in db.tombs then t.id == db.tombs[rq].id && db'.drawn == db.drawn
             else Fresh(db, t.id) && db'.drawn == db.drawn[t.id := rq.prefix]
    requires db' == db.(tombs := db.tombs[rq := t], drawn := db'.drawn)
    requires forall k :: k in db.refresh && RequestOfRow(k, db.refresh[k]) == rq ==>
                           db.refresh[k].expires <= t.expires && (t.family == NO_ID || t.family == db.refresh[k].family)
    requires forall k :: k in db.access && Request(k.prefix, db.access[k].request) == rq ==> db.access[k].expires <= t.expires
    ensures Inv(db')
  {
    forall k | k in db'.refresh ensures RowInv(db', k) { assert RowInv(db, k); }
    forall k | k in db'.access ensures AccessInv(db', k) { assert AccessInv(db, k); }
    forall r | r in db'.tombs ensures TombInv(db', r) {
      if r in db.tombs { assert TombInv(db, r); }
    }
    forall j, k | j in db'.refresh && k in db'.refresh ensures PairInv(db', j, k) { assert PairInv(db, j, k); }
    forall j, k | j in db'.access && k in db'.access ensures AccessPairInv(db', j, k) { assert AccessPairInv(db, j, k); }
    forall q, r | q in db'.tombs && r in db'.tombs ensures TombPairInv(db', q, r) {
      if q in db.tombs { assert TombInv(db, q); }
      if r in db.tombs { assert TombInv(db, r); }
      if q in db.tombs && r in db.tombs { assert TombPairInv(db, q, r); }
    }
  }

  lemma RemoveTombstoneKeepsInv(db: Db, rq: Request)
    requires Inv(db)
    requires forall k :: k in db.refresh ==> RequestOfRow(k, db.refresh[k]) != rq
    ensures Inv(db.(tombs := db.tombs - {rq}))
  {
    var db' := db.(tombs := db.tombs - {rq});
    forall k | k in db'.refresh ensures RowInv(db', k) { assert RowInv(db, k); }
    forall k | k in db'.access ensures AccessInv(db', k) { assert AccessInv(db, k); }
    forall r | r in db'.tombs ensures TombInv(db', r) { assert TombInv(db, r); }
    forall j, k | j in db'.refresh && k in db'.refresh ensures PairInv(db', j, k) { assert PairInv(db, j, k); }
    forall j, k | j in db'.access && k in db'.access ensures AccessPairInv(db', j, k) { assert AccessPairInv(db, j, k); }
    forall q, r | q in db'.tombs && r in db'.tombs ensures TombPairInv(db', q, r) { assert TombPairInv(db, q, r); }
  }

  lemma RowsOfRequest(db: Db, rq: Request)
    ensures forall k :: k in db.refresh && RequestOfRow(k, db.refresh[k]) == rq ==> k in RefreshOf(db, rq)
    ensures forall k :: k in db.access && Request(k.prefix, db.access[k].request) == rq ==> k in AccessOf(db, rq)
  {}

  lemma CommitKeepsInv(db: Db, rq: Request, family: Id, expires: int, id: Id)
    requires Inv(db) && Fresh(db, id)
    ensures Inv(Commit(db, rq, family, expires, id).0)
  {
    var (db', done) := Commit(db, rq, family, expires, id);
    if done {
      var t := db'.tombs[rq];
      RowsOfRequest(db, rq);
      forall k | k in db.refresh && RequestOfRow(k, db.refresh[k]) == rq
        ensures db.refresh[k].expires <= t.expires && t.family == db.refresh[k].family
      {
        CommittedFamily(db, rq, family, expires, id, k);
      }
      PutTombstoneKeepsInv(db, rq, t, db');
    }
  }

  lemma CommittedFamily(db: Db, rq: Request, family: Id, expires: int, id: Id, k: Key)
    requires Inv(db) && Commit(db, rq, family, expires, id).1
    requires k in db.refresh && RequestOfRow(k, db.refresh[k]) == rq
    ensures Commit(db, rq, family, expires, id).0.tombs[rq].family == db.refresh[k].family
  {
    var rows := RefreshOf(db, rq);
    assert k in rows && RowInv(db, k);
    var w :| w in rows && rows[w].family == ArtifactFamily(rows);
    assert PairInv(db, w, k);
  }

  lemma CleanTombstoneKeepsInv(db: Db, rq: Request, id: Id, at: int, now: int)
    requires Inv(db)
    ensures Inv(CleanTombstone(db, rq, id, at, now))
  {
    var db' := CleanTombstone(db, rq, id, at, now);
    RowsOfRequest(db, rq);
    if rq !in db'.tombs {
      if rq in db.tombs { RemoveTombstoneKeepsInv(db, rq); }
    } else if db' != db {
      assert TombInv(db, rq);
      forall k | k in db.refresh && RequestOfRow(k, db.refresh[k]) == rq
        ensures db'.tombs[rq].family == NO_ID || db'.tombs[rq].family == db.refresh[k].family
      {
        assert RowInv(db, k);
      }
      PutTombstoneKeepsInv(db, rq, db'.tombs[rq], db');
    }
  }
}
