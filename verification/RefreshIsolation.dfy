/**
Providers do not interfere: what a run leaves behind for one provider prefix, replies included, is what
that prefix's own steps would have left behind alone. Request ids, signatures and the order of events
may collide across prefixes at will.
*/
module RefreshIsolation {
  import opened RefreshDb
  import opened RefreshInvariant
  import opened RefreshProtocol

  ghost function OwnRows<V>(m: map<Key, V>, p: string): map<Key, V> {
    map k | k in m && k.prefix == p :: m[k]
  }

  ghost function OwnTombs(m: map<Request, Tombstone>, p: string): map<Request, Tombstone> {
    map rq | rq in m && rq.prefix == p :: m[rq]
  }

  ghost function OwnIds(m: map<Id, string>, p: string): map<Id, string> {
    map id | id in m && m[id] == p :: m[id]
  }

  /** The part of the database that belongs to one provider. */
  ghost function Restrict(db: Db, p: string): Db {
    Db(OwnRows(db.refresh, p), OwnRows(db.access, p), OwnTombs(db.tombs, p), OwnIds(db.drawn, p))
  }

  ghost function Project(s: Sys, p: string): Sys {
    Sys(Restrict(s.db, p), s.clock, map tid | tid in s.threads && PrefixOf(s.threads[tid]) == p :: s.threads[tid])
  }

  predicate Concerns(s: Sys, e: Event, p: string)
    requires Enabled(s, e)
  {
    match e
    case Tick(_) => true
    case Spawn(_, task) => PrefixOf(task) == p
    case Run(tid, _) => PrefixOf(s.threads[tid]) == p
    case ExpireRefreshRow(key, _) => key.prefix == p
    case ExpireAccessRow(key, _) => key.prefix == p
    case CleanExpiredTombstone(rq, _, _) => rq.prefix == p
  }

  /** The events of a run that belong to one provider, with the ticks of the common clock. */
  ghost function Own(s: Sys, es: seq<Event>, p: string): seq<Event>
    requires Valid(s, es)
  {
    if es == [] then []
    else
      var before := es[..|es|-1];
      Own(s, before, p) + if Concerns(After(s, before), es[|es|-1], p) then [es[|es|-1]] else []
  }

  /** A sweep only ever holds records of its own provider. */
  predicate TaskScoped(t: Task) {
    t.Sweep? ==> forall r :: r in t.todo ==> r.key.prefix == t.rq.prefix
  }

  predicate Scoped(s: Sys) {
    forall tid :: tid in s.threads ==> TaskScoped(s.threads[tid])
  }

  lemma PutOwn<V>(m: map<Key, V>, k: Key, v: V)
    ensures OwnRows(m[k := v], k.prefix) == OwnRows(m, k.prefix)[k := v]
  {}

  lemma RemoveOwn<V>(m: map<Key, V>, ks: set<Key>, p: string)
    ensures OwnRows(m - ks, p) == OwnRows(m, p) - ks
  {}

  lemma PutOwnTomb(m: map<Request, Tombstone>, rq: Request, t: Tombstone)
    ensures OwnTombs(m[rq := t], rq.prefix) == OwnTombs(m, rq.prefix)[rq := t]
    ensures OwnTombs(m - {rq}, rq.prefix) == OwnTombs(m, rq.prefix) - {rq}
  {}

  lemma DrawOwn(m: map<Id, string>, id: Id, p: string)
    ensures OwnIds(m[id := p], p) == OwnIds(m, p)[id := p]
  {}

  /** Only rows, tombstones and ids of provider `p` differ. */
  ghost predicate OnlyTouches(db: Db, db': Db, p: string) {
    && (forall k: Key :: k.prefix != p ==> (k in db.refresh <==> k in db'.refresh) && (k in db.refresh ==> db.refresh[k] == db'.refresh[k]))
    && (forall k: Key :: k.prefix != p ==> (k in db.access <==> k in db'.access) && (k in db.access ==> db.access[k] == db'.access[k]))
    && (forall rq: Request :: rq.prefix != p ==> (rq in db.tombs <==> rq in db'.tombs) && (rq in db.tombs ==> db.tombs[rq] == db'.tombs[rq]))
    && (forall id :: id in db.drawn ==> id in db'.drawn && db'.drawn[id] == db.drawn[id])
    && (forall id :: id in db'.drawn && id !in db.drawn ==> db'.drawn[id] == p)
  }

  lemma OthersUntouched(db: Db, db': Db, p: string, q: string)
    requires OnlyTouches(db, db', p) && q != p
    ensures Restrict(db', q) == Restrict(db, q)
  {
    SameOwnRows(db.refresh, db'.refresh, q);
    SameOwnRows(db.access, db'.access, q);
    SameOwnTombs(db.tombs, db'.tombs, q);
    SameOwnIds(db.drawn, db'.drawn, p, q);
  }

  lemma SameOwnRows<V>(m: map<Key, V>, m': map<Key, V>, q: string)
    requires forall k: Key :: k.prefix == q ==> (k in m <==> k in m') && (k in m ==> m[k] == m'[k])
    ensures OwnRows(m', q) == OwnRows(m, q)
  {}

  lemma SameOwnTombs(m: map<Request, Tombstone>, m': map<Request, Tombstone>, q: string)
    requires forall rq: Request :: rq.prefix == q ==> (rq in m <==> rq in m') && (rq in m ==> m[rq] == m'[rq])
    ensures OwnTombs(m', q) == OwnTombs(m, q)
  {}

  lemma SameOwnIds(m: map<Id, string>, m': map<Id, string>, p: string, q: string)
    requires (forall id :: id in m ==> id in m' && m'[id] == m[id]) && (forall id :: id in m' && id !in m ==> m'[id] == p) && p != q
    ensures OwnIds(m', q) == OwnIds(m, q)
  {}

  lemma QueriesAreLocal(db: Db, rq: Request)
    ensures RefreshOf(Restrict(db, rq.prefix), rq) == RefreshOf(db, rq)
    ensures AccessOf(Restrict(db, rq.prefix), rq) == AccessOf(db, rq)
    ensures rq in Restrict(db, rq.prefix).tombs <==> rq in db.tombs
    ensures rq in db.tombs ==> Restrict(db, rq.prefix).tombs[rq] == db.tombs[rq]
  {}

  lemma CreateAccessIsLocal(db: Db, rq: Request, signature: string, expires: int, id: Id)
    requires Fresh(db, id)
    ensures var (db', r) := CreateAccess(db, rq, signature, expires, id);
            && CreateAccess(Restrict(db, rq.prefix), rq, signature, expires, id) == (Restrict(db', rq.prefix), r)
            && OnlyTouches(db, db', rq.prefix)
  {
    hide OnlyTouches;
    QueriesAreLocal(db, rq);
    PutOwn(db.access, Key(rq.prefix, signature), AccessRow(id, rq.id, expires));
    DrawOwn(db.drawn, id, rq.prefix);
    CreateAccessOnlyTouches(db, rq, signature, expires, id);
  }

  lemma CreateAccessOnlyTouches(db: Db, rq: Request, signature: string, expires: int, id: Id)
    requires Fresh(db, id)
    ensures OnlyTouches(db, CreateAccess(db, rq, signature, expires, id).0, rq.prefix)
  {}

  lemma LineageIsLocal(db: Db, rq: Request, uuid: Id)
    ensures ResolveLineage(Restrict(db, rq.prefix), rq, uuid) == ResolveLineage(db, rq, uuid)
  {
    QueriesAreLocal(db, rq);
  }

  lemma CreateRefreshIsLocal(db: Db, rq: Request, signature: string, accessSignature: string, expires: int, id: Id, uuid: Id)
    requires Fresh(db, id) && Fresh(db, uuid) && id != uuid
    ensures var (db', r) := CreateRefresh(db, rq, signature, accessSignature, expires, id, uuid);
            && CreateRefresh(Restrict(db, rq.prefix), rq, signature, accessSignature, expires, id, uuid)
               == (Restrict(db', rq.prefix), r)
            && OnlyTouches(db, db', rq.prefix)
  {
    hide OnlyTouches, ResolveLineage;
    var l := ResolveLineage(db, rq, uuid);
    LineageIsLocal(db, rq, uuid);
    if l.Root? || l.Child? {
      AllowedRefreshIsLocal(db, rq, signature, accessSignature, expires, id, uuid);
    } else {
      QueriesAreLocal(db, rq);
      RemoveOwn(db.access, AccessOf(db, rq).Keys, rq.prefix);
      RemoveOwn(db.access, {Key(rq.prefix, accessSignature)}, rq.prefix);
      NothingTouched(db, rq.prefix);
      AccessOnlyTouches(db, AccessOf(db, rq).Keys, rq.prefix);
      AccessOnlyTouches(db, {Key(rq.prefix, accessSignature)}, rq.prefix);
    }
  }

  lemma AccessOnlyTouches(db: Db, ks: set<Key>, p: string)
    requires forall k :: k in ks ==> k.prefix == p
    ensures OnlyTouches(db, db.(access := db.access - ks), p)
  {}

  lemma AllowedRefreshIsLocal(db: Db, rq: Request, signature: string, accessSignature: string, expires: int, id: Id, uuid: Id)
    requires Fresh(db, id) && Fresh(db, uuid) && id != uuid
    requires ResolveLineage(db, rq, uuid).Root? || ResolveLineage(db, rq, uuid).Child?
    requires ResolveLineage(Restrict(db, rq.prefix), rq, uuid) == ResolveLineage(db, rq, uuid)
    ensures var (db', r) := CreateRefresh(db, rq, signature, accessSignature, expires, id, uuid);
            && CreateRefresh(Restrict(db, rq.prefix), rq, signature, accessSignature, expires, id, uuid)
               == (Restrict(db', rq.prefix), r)
            && OnlyTouches(db, db', rq.prefix)
  {
    hide OnlyTouches, RefreshOf, IsCorrupt, HasTerminal, HasActive;
    var l, k := ResolveLineage(db, rq, uuid), Key(rq.prefix, signature);
    var row := RefreshRow(id, rq.id, l.family, if l.Root? then NO_ID else l.parent, Active, 0, 0, expires);
    NothingTouched(db, rq.prefix);
    if l.Root? {
      RootIsFresh(db, rq, uuid);
      InsertIsLocal(db, k, row, id, l.family);
    } else {
      InsertIsLocal(db, k, row, id, id);
      assert db.drawn[id := k.prefix][id := k.prefix] == db.drawn[id := k.prefix];
      assert OwnIds(db.drawn, k.prefix)[id := k.prefix][id := k.prefix] == OwnIds(db.drawn, k.prefix)[id := k.prefix];
    }
  }

  lemma InsertIsLocal(db: Db, k: Key, row: RefreshRow, id: Id, uuid: Id)
    requires Fresh(db, id) && Fresh(db, uuid)
    ensures var db' := db.(refresh := db.refresh[k := row], drawn := db.drawn[id := k.prefix][uuid := k.prefix]);
            var own := Restrict(db, k.prefix);
            && own.(refresh := own.refresh[k := row], drawn := own.drawn[id := k.prefix][uuid := k.prefix]) == Restrict(db', k.prefix)
            && OnlyTouches(db, db', k.prefix)
  {
    PutOwn(db.refresh, k, row);
    DrawOwn(db.drawn, id, k.prefix);
    DrawOwn(db.drawn[id := k.prefix], uuid, k.prefix);
  }

  lemma RootIsFresh(db: Db, rq: Request, uuid: Id)
    requires ResolveLineage(db, rq, uuid).Root?
    ensures ResolveLineage(db, rq, uuid).family == uuid
  {}

  lemma MarkRotatedIsLocal(db: Db, k: Key, at: int)
    ensures var (db', r) := MarkRotated(db, k, at);
            && MarkRotated(Restrict(db, k.prefix), k, at) == (Restrict(db', k.prefix), r)
            && OnlyTouches(db, db', k.prefix)
  {
    if k in db.refresh { PutOwn(db.refresh, k, db.refresh[k].(status := Rotated, rotatedAt := at)); }
  }

  lemma CommitIsLocal(db: Db, rq: Request, family: Id, expires: int, id: Id)
    requires Fresh(db, id)
    ensures var (db', r) := Commit(db, rq, family, expires, id);
            && Commit(Restrict(db, rq.prefix), rq, family, expires, id) == (Restrict(db', rq.prefix), r)
            && OnlyTouches(db, db', rq.prefix)
  {
    QueriesAreLocal(db, rq);
    var (db', r) := Commit(db, rq, family, expires, id);
    if r {
      PutOwnTomb(db.tombs, rq, db'.tombs[rq]);
      DrawOwn(db.drawn, id, rq.prefix);
    }
  }

  lemma CleanTombstoneIsLocal(db: Db, rq: Request, id: Id, at: int, now: int)
    ensures CleanTombstone(Restrict(db, rq.prefix), rq, id, at, now) == Restrict(CleanTombstone(db, rq, id, at, now), rq.prefix)
    ensures OnlyTouches(db, CleanTombstone(db, rq, id, at, now), rq.prefix)
  {
    QueriesAreLocal(db, rq);
    var db' := CleanTombstone(db, rq, id, at, now);
    if rq in db.tombs { PutOwnTomb(db.tombs, rq, if rq in db'.tombs then db'.tombs[rq] else db.tombs[rq]); }
  }

  lemma MutateIsLocal(db: Db, p: string, families: set<Id>, status: Status, now: int)
    ensures MutateFamilies(Restrict(db, p), p, families, status, now) == Restrict(MutateFamilies(db, p, families, status, now), p)
    ensures OnlyTouches(db, MutateFamilies(db, p, families, status, now), p)
  {
    hide OnlyTouches;
    var db' := MutateFamilies(db, p, families, status, now);
    var own := MutateFamilies(Restrict(db, p), p, families, status, now);
    assert RequestsOf(Restrict(db, p), p, families) == RequestsOf(db, p, families);
    assert own.refresh == OwnRows(db'.refresh, p);
    assert own.access == OwnRows(db'.access, p);
    MutateOnlyTouches(db, p, families, status, now);
  }

  lemma MutateOnlyTouches(db: Db, p: string, families: set<Id>, status: Status, now: int)
    ensures OnlyTouches(db, MutateFamilies(db, p, families, status, now), p)
  {}

  lemma ExpiryIsLocal(db: Db, k: Key, at: int)
    ensures var db' := ExpireRefresh(db, k, at);
            ExpireRefresh(Restrict(db, k.prefix), k, at) == Restrict(db', k.prefix) && OnlyTouches(db, db', k.prefix)
    ensures var db' := ExpireAccess(db, k, at);
            ExpireAccess(Restrict(db, k.prefix), k, at) == Restrict(db', k.prefix) && OnlyTouches(db, db', k.prefix)
  {
    RemoveOwn(db.refresh, {k}, k.prefix);
    RemoveOwn(db.access, {k}, k.prefix);
  }

  lemma RefreshDeletionIsLocal(db: Db, k: Key, id: Id)
    ensures var db' := DeleteRefreshRecord(db, k, id);
            DeleteRefreshRecord(Restrict(db, k.prefix), k, id) == Restrict(db', k.prefix) && OnlyTouches(db, db', k.prefix)
  {
    RemoveOwn(db.refresh, {k}, k.prefix);
  }

  lemma AccessDeletionIsLocal(db: Db, k: Key, id: Id)
    ensures var db' := DeleteAccessRecord(db, k, id);
            DeleteAccessRecord(Restrict(db, k.prefix), k, id) == Restrict(db', k.prefix) && OnlyTouches(db, db', k.prefix)
  {
    RemoveOwn(db.access, {k}, k.prefix);
  }

  /** The writing step reads and writes its own provider's rows only. */
  ghost predicate WritesLocally(db: Db, clock: int, t: Task, c: Choice)
    requires Writes(t)
  {
    var (db', t') := Write(db, clock, t, c);
    && Write(Restrict(db, PrefixOf(t)), clock, t, c) == (Restrict(db', PrefixOf(t)), t')
    && OnlyTouches(db, db', PrefixOf(t))
  }

  lemma CreationIsLocal(db: Db, clock: int, t: Task, c: Choice)
    requires t.CreateAccessCall? || t.CreateRefreshCall?
    requires Fresh(db, c.id) && Fresh(db, c.uuid) && c.id != c.uuid
    ensures WritesLocally(db, clock, t, c)
  {
    if t.CreateAccessCall? {
      CreateAccessIsLocal(db, t.rq, t.signature, t.expires, c.id);
    } else {
      CreateRefreshIsLocal(db, t.rq, t.signature, t.accessSignature, t.expires, c.id, c.uuid);
    }
  }

  lemma UpdateIsLocal(db: Db, clock: int, t: Task, c: Choice)
    requires t.RotateUpdate? || t.CommitTx?
    requires Fresh(db, c.id)
    ensures WritesLocally(db, clock, t, c)
  {
    if t.RotateUpdate? {
      MarkRotatedIsLocal(db, Key(t.rq.prefix, t.signature), t.at);
    } else {
      CommitIsLocal(db, t.rq, t.family, t.expires, c.id);
    }
  }

  lemma InvalidateIsLocal(db: Db, clock: int, t: Task, c: Choice)
    requires t.InvalidateTx?
    ensures WritesLocally(db, clock, t, c)
  {
    MutateIsLocal(db, t.rq.prefix, {t.family}, Reused, clock);
  }

  lemma RevokeIsLocal(db: Db, clock: int, t: Task, c: Choice)
    requires t.RevokeTx?
    ensures WritesLocally(db, clock, t, c)
  {
    hide RefreshOf, AccessOf, MutateFamilies, OnlyTouches, FamiliesOf;
    QueriesAreLocal(db, t.rq);
    NothingTouched(db, t.rq.prefix);
    MutateIsLocal(db, t.rq.prefix, FamiliesOf(RefreshOf(db, t.rq)), Revoked, clock);
  }

  lemma RecordDeletionIsLocal(db: Db, clock: int, t: Task, c: Choice)
    requires t.DeleteRefreshRow? || t.DeleteAccessRow?
    ensures WritesLocally(db, clock, t, c)
  {
    hide DeleteRefreshRecord, DeleteAccessRecord, OnlyTouches, Restrict;
    if t.DeleteRefreshRow? { RefreshDeletionIsLocal(db, t.key, t.id); } else { AccessDeletionIsLocal(db, t.key, t.id); }
  }

  lemma SweepIsLocal(db: Db, clock: int, t: Task, c: Choice)
    requires t.Sweep? && TaskScoped(t)
    ensures WritesLocally(db, clock, t, c)
  {
    hide DeleteAccessRecord, OnlyTouches, Restrict;
    NothingTouched(db, t.rq.prefix);
    if c.victim in t.todo { AccessDeletionIsLocal(db, c.victim.key, c.victim.id); }
  }

  /** The request whose rows and tombstone a reading step looks at. */
  function ReadOf(t: Task): Request {
    match t
    case GetRefreshAuthority(key, row) => RequestOfRow(key, row)
    case CheckAuthority(key, access, _) => Request(key.prefix, access.request)
    case CheckFamily(key, access, _) => Request(key.prefix, access.request)
    case RotateCall(rq, _) => rq
    case SweepFind(rq, _, _) => rq
    case _ => Request(PrefixOf(t), "")
  }

  lemma LookIsLocal(db: Db, clock: int, t: Task)
    requires !Writes(t)
    ensures Look(Restrict(db, PrefixOf(t)), clock, t) == Look(db, clock, t)
  {
    QueriesAreLocal(db, ReadOf(t));
  }

  lemma WriteIsLocal(db: Db, clock: int, t: Task, c: Choice)
    requires Writes(t) && TaskScoped(t) && Fresh(db, c.id) && Fresh(db, c.uuid) && c.id != c.uuid
    ensures WritesLocally(db, clock, t, c)
  {
    match t
    case CreateAccessCall(_, _, _) => CreationIsLocal(db, clock, t, c);
    case CreateRefreshCall(_, _, _, _) => CreationIsLocal(db, clock, t, c);
    case RotateUpdate(_, _, _) => UpdateIsLocal(db, clock, t, c);
    case CommitTx(_, _, _, _) => UpdateIsLocal(db, clock, t, c);
    case InvalidateTx(_, _, _, _) => InvalidateIsLocal(db, clock, t, c);
    case RevokeTx(_, _) => RevokeIsLocal(db, clock, t, c);
    case Sweep(_, _, _, _) => SweepIsLocal(db, clock, t, c);
    case DeleteRefreshRow(_, _) => RecordDeletionIsLocal(db, clock, t, c);
    case DeleteAccessRow(_, _) => RecordDeletionIsLocal(db, clock, t, c);
  }

  /** One step of a call reads and writes its own provider's rows only. */
  lemma ExecActsLocally(db: Db, clock: int, t: Task, c: Choice)
    requires TaskScoped(t) && Fresh(db, c.id) && Fresh(db, c.uuid) && c.id != c.uuid
    ensures var (db', t') := Exec(db, clock, t, c);
            && Exec(Restrict(db, PrefixOf(t)), clock, t, c) == (Restrict(db', PrefixOf(t)), t')
            && OnlyTouches(db, db', PrefixOf(t))
  {
    hide Write, Look, OnlyTouches;
    if !Writes(t) {
      LookIsLocal(db, clock, t);
    } else if c.fault.NoFault? {
      WriteIsLocal(db, clock, t, c);
    } else if t.CreateRefreshCall? {
      CandidateIsLocal(db, t.rq.prefix, t.accessSignature);
    }
    NothingTouched(db, PrefixOf(t));
  }

  lemma NothingTouched(db: Db, p: string)
    ensures OnlyTouches(db, db, p)
  {}

  lemma CandidateIsLocal(db: Db, p: string, signature: string)
    ensures var db' := WithoutCandidate(db, p, signature);
            WithoutCandidate(Restrict(db, p), p, signature) == Restrict(db', p) && OnlyTouches(db, db', p)
  {
    RemoveOwn(db.access, {Key(p, signature)}, p);
  }

  lemma LookStaysScoped(db: Db, clock: int, t: Task)
    requires !Writes(t)
    ensures PrefixOf(Look(db, clock, t)) == PrefixOf(t) && TaskScoped(Look(db, clock, t))
  {}

  lemma WriteStaysScoped(db: Db, clock: int, t: Task, c: Choice)
    requires Writes(t) && TaskScoped(t)
    ensures PrefixOf(Write(db, clock, t, c).1) == PrefixOf(t) && TaskScoped(Write(db, clock, t, c).1)
  {
    hide CreateAccess, CreateRefresh, Commit, MutateFamilies, RevokeByRequest, Invalidate, MarkRotated;
  }

  lemma TasksStayScoped(db: Db, clock: int, t: Task, c: Choice)
    requires TaskScoped(t)
    ensures PrefixOf(Exec(db, clock, t, c).1) == PrefixOf(t) && TaskScoped(Exec(db, clock, t, c).1)
  {
    hide Write, Look;
    if Writes(t) { WriteStaysScoped(db, clock, t, c); } else { LookStaysScoped(db, clock, t); }
  }

  lemma RunIsLocal(s: Sys, e: Event, p: string)
    requires Scoped(s) && Enabled(s, e) && e.Run?
    ensures Scoped(Step(s, e))
    ensures if Concerns(s, e, p) then Enabled(Project(s, p), e) && Step(Project(s, p), e) == Project(Step(s, e), p)
            else Project(Step(s, e), p) == Project(s, p)
  {
    var s', own, t := Step(s, e), Project(s, p), s.threads[e.tid];
    ExecActsLocally(s.db, s.clock, t, e.choice);
    TasksStayScoped(s.db, s.clock, t, e.choice);
    assert Project(s', p).threads == if PrefixOf(t) == p then own.threads[e.tid := s'.threads[e.tid]] else own.threads;
    if PrefixOf(t) != p { OthersUntouched(s.db, s'.db, PrefixOf(t), p); }
  }

  lemma StepIsLocal(s: Sys, e: Event, p: string)
    requires Scoped(s) && Enabled(s, e)
    ensures Scoped(Step(s, e))
    ensures if Concerns(s, e, p) then Enabled(Project(s, p), e) && Step(Project(s, p), e) == Project(Step(s, e), p)
            else Project(Step(s, e), p) == Project(s, p)
  {
    var s', own := Step(s, e), Project(s, p);
    match e
    case Tick(_) =>
    case Spawn(tid, task) =>
      assert Project(s', p).threads == if PrefixOf(task) == p then own.threads[tid := task] else own.threads;
    case Run(_, _) => RunIsLocal(s, e, p);
    case ExpireRefreshRow(key, _) =>
      ExpiryIsLocal(s.db, key, e.at);
      if key.prefix != p { OthersUntouched(s.db, s'.db, key.prefix, p); }
    case ExpireAccessRow(key, _) =>
      ExpiryIsLocal(s.db, key, e.at);
      if key.prefix != p { OthersUntouched(s.db, s'.db, key.prefix, p); }
    case CleanExpiredTombstone(rq, id, at) =>
      CleanTombstoneIsLocal(s.db, rq, id, at, s.clock);
      if rq.prefix != p { OthersUntouched(s.db, s'.db, rq.prefix, p); }
  }

  /** Projecting any interleaved run onto a prefix gives a valid run of that prefix's steps alone, with the
      same rows, tombstones and replies. */
  lemma {:induction false} ProvidersDoNotInterfere(s: Sys, es: seq<Event>, p: string)
    requires Scoped(s) && Valid(s, es)
    ensures Scoped(After(s, es))
    ensures Valid(Project(s, p), Own(s, es, p))
    ensures After(Project(s, p), Own(s, es, p)) == Project(After(s, es), p)
  {
    if es != [] {
      var before, e := es[..|es|-1], es[|es|-1];
      ProvidersDoNotInterfere(s, before, p);
      StepIsLocal(After(s, before), e, p);
      if Concerns(After(s, before), e, p) {
        var own := Own(s, before, p);
        assert Own(s, es, p) == own + [e];
        assert (own + [e])[..|own + [e]|-1] == own;
      } else {
        assert Own(s, es, p) == Own(s, before, p);
      }
    }
  }
}
