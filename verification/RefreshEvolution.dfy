/**
What a single step can do to the database, whichever step it is: every step keeps the invariant and
stays within `Evolves`, from which the safety theorems follow without looking at the calls again.
*/
module RefreshEvolution {
  import opened RefreshDb
  import opened RefreshInvariant
  import opened RefreshProtocol

  /** How a record may change: its status only moves forward and reused_at sticks. */
  predicate RowMoves(a: RefreshRow, b: RefreshRow) {
    && a.id == b.id && a.request == b.request && a.family == b.family && a.parent == b.parent && a.expires == b.expires
    && (a.status != b.status ==> !b.status.Active? && (IsTerminal(b.status) || (a.status.Active? && b.status.Rotated?)))
    && (a.reusedAt != 0 ==> b.reusedAt == a.reusedAt)
  }

  /** A tombstone's expiry never falls and its family never changes once set. */
  predicate TombMoves(a: Tombstone, b: Tombstone) {
    a.id == b.id && a.expires <= b.expires && (a.family != NO_ID ==> b.family == a.family)
  }

  predicate RefreshKept(db: Db, db': Db, k: Key)
    requires k in db.refresh && k in db'.refresh
  {
    RowMoves(db.refresh[k], db'.refresh[k])
  }

  /** A row is born active, and only where there is no tombstone, no active and no terminal row. */
  ghost predicate RefreshBorn(db: Db, db': Db, k: Key)
    requires k in db'.refresh
  {
    var b := db'.refresh[k];
    var rows := RefreshOf(db, RequestOfRow(k, b));
    && Fresh(db, b.id) && b.status.Active? && b.reusedAt == 0
    && RequestOfRow(k, b) !in db.tombs && !HasActive(rows) && !HasTerminal(rows)
  }

  /** When a row turns terminal, every row of its request does in the same step. */
  ghost predicate Judged(db: Db, db': Db, k: Key)
    requires k in db.refresh && k in db'.refresh
  {
    !IsTerminal(db.refresh[k].status) && IsTerminal(db'.refresh[k].status) ==>
      forall j :: j in db'.refresh && RequestOfRow(j, db'.refresh[j]) == RequestOfRow(k, db'.refresh[k]) ==>
                    IsTerminal(db'.refresh[j].status)
  }

  predicate AccessBorn(db: Db, db': Db, k: Key)
    requires k in db'.access
  {
    Fresh(db, db'.access[k].id) && !HasAuthority(db, Request(k.prefix, db'.access[k].request))
  }

  predicate TombKept(db: Db, db': Db, rq: Request)
    requires rq in db.tombs && rq in db'.tombs
  {
    TombMoves(db.tombs[rq], db'.tombs[rq])
  }

  /** A tombstone goes only after its expiry, and only when its request has no row. */
  ghost predicate TombGone(db: Db, db': Db, rq: Request, now: int)
    requires rq in db.tombs
  {
    && db.tombs[rq].expires < Seconds(now)
    && RefreshOf(db, rq) == map[] && AccessOf(db, rq) == map[]
    && db'.refresh == db.refresh && db'.access == db.access
  }

  ghost predicate Evolves(db: Db, db': Db, now: int) {
    && (forall id {:trigger id in db'.drawn} :: id in db.drawn ==> id in db'.drawn && db'.drawn[id] == db.drawn[id])
    && (forall k {:trigger RefreshKept(db, db', k)} :: k in db.refresh && k in db'.refresh ==> RefreshKept(db, db', k))
    && (forall k {:trigger RefreshBorn(db, db', k)} :: k !in db.refresh && k in db'.refresh ==> RefreshBorn(db, db', k))
    && (forall k {:trigger Judged(db, db', k)} :: k in db.refresh && k in db'.refresh ==> Judged(db, db', k))
    && (forall k {:trigger db'.access[k]} :: k in db.access && k in db'.access ==> db'.access[k] == db.access[k])
    && (forall k {:trigger AccessBorn(db, db', k)} :: k !in db.access && k in db'.access ==> AccessBorn(db, db', k))
    && (forall rq {:trigger TombKept(db, db', rq)} :: rq in db.tombs && rq in db'.tombs ==> TombKept(db, db', rq))
    && (forall rq {:trigger TombGone(db, db', rq, now)} :: rq in db.tombs && rq !in db'.tombs ==> TombGone(db, db', rq, now))
    && (forall rq {:trigger rq in db'.tombs} :: rq !in db.tombs && rq in db'.tombs ==> Fresh(db, db'.tombs[rq].id))
  }

  lemma DeletionEvolves(db: Db, db': Db, now: int)
    requires Inv(db)
    requires db'.tombs == db.tombs && db'.drawn == db.drawn
    requires forall k :: k in db'.refresh ==> k in db.refresh && db'.refresh[k] == db.refresh[k]
    requires forall k :: k in db'.access ==> k in db.access && db'.access[k] == db.access[k]
    ensures Inv(db') && Evolves(db, db', now)
  {
    DeletionKeepsInv(db, db');
  }

  lemma CreateAccessEvolves(db: Db, rq: Request, signature: string, expires: int, id: Id, now: int)
    requires Inv(db) && Fresh(db, id)
    ensures var db' := CreateAccess(db, rq, signature, expires, id).0; Inv(db') && Evolves(db, db', now)
  {
    CreateAccessKeepsInv(db, rq, signature, expires, id);
  }

  lemma CreateRefreshEvolves(db: Db, rq: Request, signature: string, accessSignature: string, expires: int,
                             id: Id, uuid: Id, now: int)
    requires Inv(db) && Fresh(db, id) && Fresh(db, uuid) && id != uuid
    ensures var db' := CreateRefresh(db, rq, signature, accessSignature, expires, id, uuid).0;
            Inv(db') && Evolves(db, db', now)
  {
    hide Inv, Evolves, RefreshOf;
    var db' := CreateRefresh(db, rq, signature, accessSignature, expires, id, uuid).0;
    CreateRefreshKeepsInv(db, rq, signature, accessSignature, expires, id, uuid);
    var l, n := ResolveLineage(db, rq, uuid), Key(rq.prefix, signature);
    if (l.Root? || l.Child?) && n !in db.refresh {
      AllowedRowEvolves(db, rq, uuid, n, db', now);
    } else {
      assert db'.tombs == db.tombs && db'.drawn == db.drawn && db'.refresh == db.refresh;
      assert forall k :: k in db'.access ==> k in db.access && db'.access[k] == db.access[k];
      DeletionEvolves(db, db', now);
    }
  }

  lemma AllowedRowEvolves(db: Db, rq: Request, uuid: Id, n: Key, db': Db, now: int)
    requires Inv(db) && Fresh(db, uuid)
    requires ResolveLineage(db, rq, uuid).Root? || ResolveLineage(db, rq, uuid).Child?
    requires n.prefix == rq.prefix && n !in db.refresh && n in db'.refresh
    requires db'.refresh == db.refresh[n := db'.refresh[n]] && db'.access == db.access && db'.tombs == db.tombs
    requires forall id :: id in db.drawn ==> id in db'.drawn && db'.drawn[id] == db.drawn[id]
    requires var b := db'.refresh[n]; Fresh(db, b.id) && b.status.Active? && b.reusedAt == 0 && b.request == rq.id
    ensures Evolves(db, db', now)
  {
    ChildOfRotated(db, rq, uuid);
    InsertionEvolves(db, n, db', now);
  }

  lemma InsertionEvolves(db: Db, n: Key, db': Db, now: int)
    requires n !in db.refresh && n in db'.refresh
    requires db'.refresh == db.refresh[n := db'.refresh[n]] && db'.access == db.access && db'.tombs == db.tombs
    requires forall id :: id in db.drawn ==> id in db'.drawn && db'.drawn[id] == db.drawn[id]
    requires var b := db'.refresh[n];
             && Fresh(db, b.id) && b.status.Active? && b.reusedAt == 0 && RequestOfRow(n, b) !in db.tombs
             && forall k :: k in db.refresh && k.prefix == n.prefix && db.refresh[k].request == b.request ==>
                              db.refresh[k].status.Rotated?
    ensures Evolves(db, db', now)
  {
    assert RefreshBorn(db, db', n);
  }

  lemma MarkRotatedEvolves(db: Db, k: Key, at: int, now: int)
    requires Inv(db)
    ensures var db' := MarkRotated(db, k, at).0; Inv(db') && Evolves(db, db', now)
  {
    MarkRotatedKeepsInv(db, k, at);
  }

  lemma MutateEvolves(db: Db, prefix: string, families: set<Id>, status: Status, now: int)
    requires Inv(db) && IsTerminal(status)
    ensures var db' := MutateFamilies(db, prefix, families, status, now); Inv(db') && Evolves(db, db', now)
  {
    var db' := MutateFamilies(db, prefix, families, status, now);
    MutateKeepsInv(db, prefix, families, status, now);
    forall k | k in db.refresh && k in db'.refresh ensures Judged(db, db', k) {
      forall j | j in db'.refresh && RequestOfRow(j, db'.refresh[j]) == RequestOfRow(k, db'.refresh[k])
        ensures db'.refresh[j].family == db'.refresh[k].family
      {
        assert PairInv(db, j, k);
      }
    }
  }

  lemma CommitEvolves(db: Db, rq: Request, family: Id, expires: int, id: Id, now: int)
    requires Inv(db) && Fresh(db, id)
    ensures var db' := Commit(db, rq, family, expires, id).0; Inv(db') && Evolves(db, db', now)
  {
    CommitKeepsInv(db, rq, family, expires, id);
    var (db', done) := Commit(db, rq, family, expires, id);
    if done {
      assert db' == db.(tombs := db.tombs[rq := db'.tombs[rq]], drawn := db'.drawn);
      if rq in db.tombs { assert TombKept(db, db', rq); }
      TombstoneWriteEvolves(db, rq, db', now);
    }
  }

  lemma TombstoneWriteEvolves(db: Db, rq: Request, db': Db, now: int)
    requires rq in db'.tombs && db' == db.(tombs := db.tombs[rq := db'.tombs[rq]], drawn := db'.drawn)
    requires forall id :: id in db.drawn ==> id in db'.drawn && db'.drawn[id] == db.drawn[id]
    requires if rq in db.tombs then TombKept(db, db', rq) else Fresh(db, db'.tombs[rq].id)
    ensures Evolves(db, db', now)
  {}

  lemma CleanTombstoneEvolves(db: Db, rq: Request, id: Id, at: int, now: int)
    requires Inv(db) && 0 <= at <= now
    ensures var db' := CleanTombstone(db, rq, id, at, now); Inv(db') && Evolves(db, db', now)
  {
    CleanTombstoneKeepsInv(db, rq, id, at, now);
    assert Seconds(at) <= Seconds(now);
  }

  lemma WriteEvolves(db: Db, clock: int, t: Task, c: Choice)
    requires Writes(t) && Inv(db) && Fresh(db, c.id) && Fresh(db, c.uuid) && c.id != c.uuid
    ensures var db' := Write(db, clock, t, c).0; Inv(db') && Evolves(db, db', clock)
  {
    hide Evolves, Inv, CreateAccess, CreateRefresh, Commit;
    match t
    case CreateAccessCall(rq, signature, expires) => CreateAccessEvolves(db, rq, signature, expires, c.id, clock);
    case CreateRefreshCall(rq, signature, accessSignature, expires) =>
      CreateRefreshEvolves(db, rq, signature, accessSignature, expires, c.id, c.uuid, clock);
    case RotateUpdate(rq, signature, at) => MarkRotatedEvolves(db, Key(rq.prefix, signature), at, clock);
    case CommitTx(rq, family, expires, _) => CommitEvolves(db, rq, family, expires, c.id, clock);
    case InvalidateTx(rq, family, _, _) =>
      MutateEvolves(db, rq.prefix, {family}, Reused, clock);
      DeletionEvolves(db, db, clock);
    case RevokeTx(rq, _) =>
      MutateEvolves(db, rq.prefix, FamiliesOf(RefreshOf(db, rq)), Revoked, clock);
      DeletionEvolves(db, db, clock);
    case Sweep(_, _, _, _) =>
      DeletionEvolves(db, DeleteAccessRecord(db, c.victim.key, c.victim.id), clock);
      DeletionEvolves(db, db, clock);
    case DeleteRefreshRow(key, id) => DeletionEvolves(db, DeleteRefreshRecord(db, key, id), clock);
    case DeleteAccessRow(key, id) => DeletionEvolves(db, DeleteAccessRecord(db, key, id), clock);
  }

  /** One step of any call. */
  lemma ExecEvolves(db: Db, clock: int, t: Task, c: Choice)
    requires Inv(db) && Fresh(db, c.id) && Fresh(db, c.uuid) && c.id != c.uuid
    ensures var db' := Exec(db, clock, t, c).0; Inv(db') && Evolves(db, db', clock)
  {
    if Writes(t) && c.fault.NoFault? {
      WriteEvolves(db, clock, t, c);
    } else if t.CreateRefreshCall? {
      DeletionEvolves(db, WithoutCandidate(db, t.rq.prefix, t.accessSignature), clock);
      DeletionEvolves(db, db, clock);
    } else {
      DeletionEvolves(db, db, clock);
    }
  }

  lemma StepEvolves(s: Sys, e: Event)
    requires Inv(s.db) && Enabled(s, e)
    ensures Inv(Step(s, e).db) && Evolves(s.db, Step(s, e).db, s.clock)
    ensures s.clock <= Step(s, e).clock
  {
    match e
    case Run(tid, c) => ExecEvolves(s.db, s.clock, s.threads[tid], c);
    case CleanExpiredTombstone(rq, id, at) => CleanTombstoneEvolves(s.db, rq, id, at, s.clock);
    case ExpireRefreshRow(_, _) => DeletionEvolves(s.db, Step(s, e).db, s.clock);
    case ExpireAccessRow(_, _) => DeletionEvolves(s.db, Step(s, e).db, s.clock);
    case _ => DeletionEvolves(s.db, s.db, s.clock);
  }

  /** Every state of every run satisfies the invariant. */
  lemma {:induction false} RunKeepsInv(s: Sys, es: seq<Event>)
    requires Inv(s.db) && Valid(s, es)
    ensures Inv(After(s, es).db) && s.clock <= After(s, es).clock
  {
    if es != [] {
      RunKeepsInv(s, es[..|es|-1]);
      StepEvolves(After(s, es[..|es|-1]), es[|es|-1]);
    }
  }
}
