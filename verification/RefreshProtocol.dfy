/**
The store's operations as concurrent calls over one shared database.

A call in progress is a `Task`: where the call stands, with the local values it has read so far. One
`Exec` is one atomic step of a call: a transaction, the conditional UPDATE, a lone read, a lone
delete, or a reading of the clock. Calls interleave freely with each other, with the passing of time
and with the row-by-row deletions of the cleanup job. Any database access may fail; a failed
transaction leaves no trace.
*/
module RefreshProtocol {
  import opened RefreshDb
  import opened RefreshInvariant

  datatype Record = Record(key: Key, id: Id)

  /** What a call remembers of the tombstone it committed: the request and the expiry it asked for. */
  datatype Mark = Unmarked | Marked(rq: Request, until: int)

  /** What follows commitRefreshTerminalAuthority in the different callers. */
  datatype Next = ThenInvalidate(family: Id, sweep: bool) | ThenSweep | ThenRevoke

  datatype Task =
    | CreateAccessCall(rq: Request, signature: string, expires: int)
    | CreateRefreshCall(rq: Request, signature: string, accessSignature: string, expires: int)
    | GetRefreshCall(key: Key)
    | GetRefreshAuthority(key: Key, row: RefreshRow)
    | RotateCall(rq: Request, signature: string)
    | RotateClock(rq: Request, signature: string)
    | RotateUpdate(rq: Request, signature: string, at: int)
    | RotateLookup(rq: Request, signature: string)
    | CommitClock(rq: Request, family: Id, expires: int, next: Next)
    | CommitTx(rq: Request, family: Id, expires: int, next: Next)
    | InvalidateTx(rq: Request, family: Id, sweep: bool, until: int)
    | RevokeTx(rq: Request, until: int)
    | SweepFind(rq: Request, reply: Reply, mark: Mark)
    | Sweep(rq: Request, todo: set<Record>, reply: Reply, mark: Mark)
    | DeleteRefreshCall(key: Key)
    | DeleteRefreshRow(key: Key, id: Id)
    | DeleteAccessCall(key: Key)
    | DeleteAccessRow(key: Key, id: Id)
    | CheckCall(key: Key, attest: bool)
    | CheckAuthority(key: Key, access: AccessRow, attest: bool)
    | CheckFamily(key: Key, access: AccessRow, attest: bool)
    | CheckExpiry(key: Key, access: AccessRow)
    | Done(prefix: string, reply: Reply, mark: Mark)

  /** The public calls: CreateAccessTokenSession, CreateRefreshTokenSession, GetRefreshTokenSession,
      RotateRefreshToken, RevokeRefreshToken, RevokeAccessToken, the two deletions, and the acceptance
      checks (GetAccessTokenSession, ValidateAccessToken, RevokedTokenGuardAt without, and
      ValidateAccessTokenAuthorityAt with attestation). */
  predicate IsCall(t: Task) {
    || t.CreateAccessCall? || t.CreateRefreshCall? || t.GetRefreshCall? || t.RotateCall?
    || t.DeleteRefreshCall? || t.DeleteAccessCall? || t.CheckCall?
    || (t.CommitClock? && t == RevokeRefreshCall(t.rq))
    || (t.SweepFind? && t == RevokeAccessCall(t.rq))
  }

  function RevokeRefreshCall(rq: Request): Task { CommitClock(rq, NO_ID, 0, ThenRevoke) }

  function RevokeAccessCall(rq: Request): Task { SweepFind(rq, Ok, Unmarked) }

  function PrefixOf(t: Task): string {
    match t
    case GetRefreshCall(key) => key.prefix
    case GetRefreshAuthority(key, _) => key.prefix
    case DeleteRefreshCall(key) => key.prefix
    case DeleteRefreshRow(key, _) => key.prefix
    case DeleteAccessCall(key) => key.prefix
    case DeleteAccessRow(key, _) => key.prefix
    case CheckCall(key, _) => key.prefix
    case CheckAuthority(key, _, _) => key.prefix
    case CheckFamily(key, _, _) => key.prefix
    case CheckExpiry(key, _) => key.prefix
    case Done(prefix, _, _) => prefix
    case _ => t.rq.prefix
  }

  /** Abort fails the step's database access. ReadError is a failing read inside the transaction of
      CreateRefreshTokenSession, which the source answers by removing the candidate access row. */
  datatype Fault = NoFault | Abort | ReadError

  datatype Choice = Choice(id: Id, uuid: Id, victim: Record, fault: Fault)

  function Stop(t: Task, reply: Reply): Task { Done(PrefixOf(t), reply, MarkOf(t)) }

  function MarkOf(t: Task): Mark {
    match t
    case InvalidateTx(rq, _, _, until) => Marked(rq, until)
    case RevokeTx(rq, until) => Marked(rq, until)
    case SweepFind(_, _, mark) => mark
    case Sweep(_, _, _, mark) => mark
    case Done(_, _, mark) => mark
    case _ => Unmarked
  }

  ghost predicate HasUnknown(rows: map<Key, RefreshRow>) {
    exists k :: k in rows && rows[k].status.Unknown?
  }

  ghost function RecordsOf(access: map<Key, AccessRow>): set<Record> {
    set k | k in access :: Record(k, access[k].id)
  }

  function AfterCommit(rq: Request, expires: int, next: Next): Task {
    match next
    case ThenInvalidate(family, sweep) => InvalidateTx(rq, family, sweep, expires)
    case ThenSweep => SweepFind(rq, Inactive, Marked(rq, expires))
    case ThenRevoke => RevokeTx(rq, expires)
  }

  function AfterFamily(key: Key, access: AccessRow, attest: bool): Task {
    if attest then CheckExpiry(key, access) else Done(key.prefix, Accepted(access), Unmarked)
  }

  /** What a lost rotation does about the row it finds. */
  function AfterLookup(db: Db, rq: Request, signature: string): Task {
    var k := Key(rq.prefix, signature);
    if k !in db.refresh then CommitClock(rq, NO_ID, 0, ThenSweep)
    else
      var row := db.refresh[k];
      CommitClock(rq, row.family, row.expires, if row.status.Rotated? then ThenInvalidate(row.family, true) else ThenSweep)
  }

  predicate Writes(t: Task) {
    t.CreateAccessCall? || t.CreateRefreshCall? || t.RotateUpdate? || t.CommitTx? || t.InvalidateTx? || t.RevokeTx?
    || t.Sweep? || t.DeleteRefreshRow? || t.DeleteAccessRow?
  }

  /** A step that changes rows: what it leaves and where the call then stands. */
  ghost function Write(db: Db, clock: int, t: Task, c: Choice): (Db, Task)
    requires Writes(t)
  {
    match t
    case CreateAccessCall(rq, signature, expires) =>
      var (db', reply) := CreateAccess(db, rq, signature, expires, c.id);
      (db', Stop(t, reply))
    case CreateRefreshCall(rq, signature, accessSignature, expires) =>
      var (db', reply) := CreateRefresh(db, rq, signature, accessSignature, expires, c.id, c.uuid);
      (db', Stop(t, reply))
    case RotateUpdate(rq, signature, at) =>
      var (db', hit) := MarkRotated(db, Key(rq.prefix, signature), at);
      (db', if hit then SweepFind(rq, Ok, Unmarked) else RotateLookup(rq, signature))
    case CommitTx(rq, family, expires, next) =>
      var (db', done) := Commit(db, rq, family, expires, c.id);
      (db', if done then AfterCommit(rq, expires, next) else Stop(t, Failed))
    case InvalidateTx(rq, family, sweep, until) =>
      (Invalidate(db, rq.prefix, family, clock),
       if sweep then SweepFind(rq, Inactive, Marked(rq, until)) else Stop(t, Inactive))
    case RevokeTx(rq, until) =>
      var (db', done) := RevokeByRequest(db, rq, clock);
      (db', Stop(t, if done then Ok else Failed))
    case Sweep(rq, todo, reply, mark) =>
      if todo == {} then (db, Stop(t, reply))
      else if c.victim in todo then
        (DeleteAccessRecord(db, c.victim.key, c.victim.id), Sweep(rq, todo - {c.victim}, reply, mark))
      else (db, t)
    case DeleteRefreshRow(key, id) => (DeleteRefreshRecord(db, key, id), Stop(t, Ok))
    case DeleteAccessRow(key, id) => (DeleteAccessRecord(db, key, id), Stop(t, Ok))
  }

  /** A step that only reads, the clock included: where the call then stands. */
  ghost function Look(db: Db, clock: int, t: Task): Task
    requires !Writes(t)
  {
    match t
    case GetRefreshCall(key) =>
      if key in db.refresh then GetRefreshAuthority(key, db.refresh[key]) else Stop(t, NotFound)
    case GetRefreshAuthority(key, row) =>
      if HasAuthority(db, RequestOfRow(key, row)) then Stop(t, Inactive)
      else if row.status.Active? then Stop(t, Found(row))
      else CommitClock(RequestOfRow(key, row), row.family, row.expires, ThenInvalidate(row.family, false))
    case RotateCall(rq, signature) =>
      if HasAuthority(db, rq) then SweepFind(rq, Inactive, Unmarked) else RotateClock(rq, signature)
    case RotateClock(rq, signature) => RotateUpdate(rq, signature, clock)
    case RotateLookup(rq, signature) => AfterLookup(db, rq, signature)
    case CommitClock(rq, family, expires, next) =>
      CommitTx(rq, family, Max(expires, Seconds(clock) + TOMBSTONE_LIFETIME), next)
    case SweepFind(rq, reply, mark) => Sweep(rq, RecordsOf(AccessOf(db, rq)), reply, mark)
    case DeleteRefreshCall(key) =>
      if key in db.refresh && !IsTerminal(db.refresh[key].status) then DeleteRefreshRow(key, db.refresh[key].id)
      else Stop(t, Ok)
    case DeleteAccessCall(key) => if key in db.access then DeleteAccessRow(key, db.access[key].id) else Stop(t, Ok)
    case CheckCall(key, attest) =>
      if key in db.access then CheckAuthority(key, db.access[key], attest) else Stop(t, NotFound)
    case CheckAuthority(key, access, attest) =>
      if HasAuthority(db, Request(key.prefix, access.request)) then Stop(t, Inactive)
      else if access.request == "" then AfterFamily(key, access, attest)
      else CheckFamily(key, access, attest)
    case CheckFamily(key, access, attest) =>
      var rows := RefreshOf(db, Request(key.prefix, access.request));
      if HasTerminal(rows) then Stop(t, Inactive)
      else if HasUnknown(rows) then Stop(t, Failed)
      else AfterFamily(key, access, attest)
    case CheckExpiry(key, access) => Stop(t, if access.expires * 1_000_000 > clock then Attested(access) else Inactive)
    case Done(_, _, _) => t
  }

  /** Steps that touch no table cannot fail. */
  predicate CannotFail(t: Task) { t.Done? || t.CommitClock? || t.RotateClock? }

  /** One step of a call at time `clock` (microseconds). */
  ghost function Exec(db: Db, clock: int, t: Task, c: Choice): (Db, Task) {
    if CannotFail(t) || (c.fault.NoFault? && !Writes(t)) then (db, Look(db, clock, t))
    else if c.fault.NoFault? then Write(db, clock, t, c)
    else if c.fault.ReadError? && t.CreateRefreshCall? then
      (WithoutCandidate(db, t.rq.prefix, t.accessSignature), Stop(t, Failed))
    else (db, Stop(t, Failed))
  }

  // ----- the system -----

  datatype Sys = Sys(db: Db, clock: nat, threads: map<nat, Task>)

  datatype Event =
    | Tick(to: nat)
    | Spawn(tid: nat, task: Task)
    | Run(tid: nat, choice: Choice)
    | ExpireRefreshRow(key: Key, at: nat)
    | ExpireAccessRow(key: Key, at: nat)
    | CleanExpiredTombstone(rq: Request, id: Id, at: nat)

  predicate Enabled(s: Sys, e: Event) {
    match e
    case Tick(to) => s.clock <= to
    case Spawn(tid, task) => tid !in s.threads && IsCall(task)
    case Run(tid, c) => tid in s.threads && Fresh(s.db, c.id) && Fresh(s.db, c.uuid) && c.id != c.uuid
    case ExpireRefreshRow(_, at) => at <= s.clock
    case ExpireAccessRow(_, at) => at <= s.clock
    case CleanExpiredTombstone(_, _, at) => at <= s.clock
  }

  ghost function Step(s: Sys, e: Event): Sys
    requires Enabled(s, e)
  {
    match e
    case Tick(to) => s.(clock := to)
    case Spawn(tid, task) => s.(threads := s.threads[tid := task])
    case Run(tid, c) =>
      var (db', t') := Exec(s.db, s.clock, s.threads[tid], c);
      s.(db := db', threads := s.threads[tid := t'])
    case ExpireRefreshRow(key, at) => s.(db := ExpireRefresh(s.db, key, at))
    case ExpireAccessRow(key, at) => s.(db := ExpireAccess(s.db, key, at))
    case CleanExpiredTombstone(rq, id, at) => s.(db := CleanTombstone(s.db, rq, id, at, s.clock))
  }

  ghost predicate Valid(s: Sys, es: seq<Event>)
    decreases |es|, 0
  {
    es != [] ==> Valid(s, es[..|es|-1]) && Enabled(After(s, es[..|es|-1]), es[|es|-1])
  }

  /** The state after a run. */
  ghost function After(s: Sys, es: seq<Event>): Sys
    requires Valid(s, es)
    decreases |es|, 1
  {
    if es == [] then s else Step(After(s, es[..|es|-1]), es[|es|-1])
  }

  const START := Sys(EMPTY, 0, map[])

  lemma Extend(s: Sys, es: seq<Event>, e: Event)
    requires Valid(s, es) && Enabled(After(s, es), e)
    ensures Valid(s, es + [e]) && After(s, es + [e]) == Step(After(s, es), e)
  {
    assert (es + [e])[..|es + [e]|-1] == es;
  }

  /** A run and a run from where it ends make one run. */
  lemma {:induction false} Join(s: Sys, es: seq<Event>, more: seq<Event>)
    requires Valid(s, es) && Valid(After(s, es), more)
    ensures Valid(s, es + more) && After(s, es + more) == After(After(s, es), more)
    decreases |more|
  {
    hide Step, Enabled;
    if more == [] {
      assert es + more == es;
    } else {
      var before := more[..|more|-1];
      Join(s, es, before);
      assert (es + more)[..|es + more|-1] == es + before;
    }
  }

  /** The states of a run are those of its prefixes. */
  lemma {:induction false} PrefixIsRun(s: Sys, es: seq<Event>, n: nat)
    requires Valid(s, es) && n <= |es|
    ensures Valid(s, es[..n]) && Valid(After(s, es[..n]), es[n..]) && After(After(s, es[..n]), es[n..]) == After(s, es)
    decreases |es|
  {
    hide Step, Enabled;
    if n == |es| {
      assert es[..n] == es && es[n..] == [];
    } else {
      var before := es[..|es|-1];
      PrefixIsRun(s, before, n);
      assert before[..n] == es[..n] && es[n..][..|es| - n - 1] == before[n..];
    }
  }

  // ----- new ids -----

  /** An id never drawn, other than the one given. */
  lemma FreshId(db: Db, other: Id) returns (id: Id)
    ensures Fresh(db, id) && id != other
  {
    id := Unused(db.drawn.Keys + {NO_ID, other});
  }

  lemma {:induction false} Unused(used: set<nat>) returns (n: nat)
    ensures forall x :: x in used ==> x < n
    decreases |used|
  {
    if used == {} {
      n := 0;
    } else {
      var x :| x in used;
      var m := Unused(used - {x});
      n := if x < m then m else x + 1;
      assert forall y :: y in used ==> y == x || y in used - {x};
    }
  }

  /** The next step of a call, without a fault and drawing new ids. */
  lemma NextChoice(s: Sys, tid: nat) returns (e: Event)
    requires tid in s.threads
    ensures e.Run? && e.tid == tid && Enabled(s, e) && e.choice.fault.NoFault?
  {
    var id := FreshId(s.db, NO_ID);
    var uuid := FreshId(s.db, id);
    e := Run(tid, Choice(id, uuid, Record(Key("", ""), NO_ID), NoFault));
  }
}
