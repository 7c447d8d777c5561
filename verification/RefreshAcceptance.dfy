/**
Dead stays dead for the callers: what becomes of a row that exists when its request's tombstone is in
place. No acceptance check begun later, however its reads interleave with the rest of the system, lets
such a row through until the tombstone's expiry has passed; ValidateAccessTokenAuthorityAt never does.
Past that expiry, and only then, a check that stalls between its reads can, because cleanup may remove
the rows and the tombstone in between.
*/
module RefreshAcceptance {
  import opened RefreshDb
  import opened RefreshInvariant
  import opened RefreshProtocol
  import opened RefreshEvolution
  import opened RefreshSafety

  /** The tombstone stands at least until then, or that time has passed. */
  predicate Shut(s: Sys, rq: Request, until: int) {
    (rq in s.db.tombs && until <= s.db.tombs[rq].expires) || until < Seconds(s.clock)
  }

  /** A record of one request, with the expiry its tombstone had at first, and for a refresh row whether it
      was active then. */
  datatype Target = RefreshTarget(id: Id, rq: Request, until: int, active: bool) | AccessTarget(id: Id, rq: Request, until: int)

  predicate IsRefresh(x: Target, key: Key, row: RefreshRow) {
    x.RefreshTarget? && row.id == x.id
  }

  predicate IsAccess(x: Target, key: Key, row: AccessRow) {
    x.AccessTarget? && row.id == x.id
  }

  /** What a call that started after the burial knows of the record. */
  predicate TaskBuries(s: Sys, t: Task, x: Target) {
    match t
    case GetRefreshAuthority(key, row) =>
      IsRefresh(x, key, row) ==> RequestOfRow(key, row) == x.rq && (row.status.Active? ==> x.active) && Shut(s, x.rq, x.until)
    case CheckAuthority(key, row, _) =>
      IsAccess(x, key, row) ==> Request(key.prefix, row.request) == x.rq && row.expires <= x.until && Shut(s, x.rq, x.until)
    case CheckFamily(key, row, _) => IsAccess(x, key, row) ==> row.expires <= x.until < Seconds(s.clock)
    case CheckExpiry(key, row) => IsAccess(x, key, row) ==> row.expires <= x.until < Seconds(s.clock)
    case SweepFind(_, reply, _) => reply.Ok? || reply.Inactive?
    case Sweep(_, _, reply, _) => reply.Ok? || reply.Inactive?
    case Done(prefix, reply, _) =>
      && (reply.Found? && x.RefreshTarget? && reply.row.id == x.id ==> x.active && x.until < Seconds(s.clock))
      && (reply.Accepted? && x.AccessTarget? && reply.access.id == x.id ==> x.until < Seconds(s.clock))
      && (reply.Attested? && x.AccessTarget? ==> reply.access.id != x.id)
    case _ => true
  }

  /** The record, if still there, lies under a tombstone. */
  ghost predicate RecordBuried(db: Db, x: Target) {
    && x.rq.id != "" && x.id in db.drawn
    && (forall k {:trigger db.refresh[k]} :: k in db.refresh && IsRefresh(x, k, db.refresh[k]) ==>
          RequestOfRow(k, db.refresh[k]) == x.rq && (db.refresh[k].status.Active? ==> x.active)
          && x.rq in db.tombs && x.until <= db.tombs[x.rq].expires)
    && (forall k {:trigger db.access[k]} :: k in db.access && IsAccess(x, k, db.access[k]) ==>
          Request(k.prefix, db.access[k].request) == x.rq && db.access[k].expires <= x.until
          && x.rq in db.tombs && x.until <= db.tombs[x.rq].expires)
  }

  /** ... and every call outside `before` treats it so. */
  ghost predicate Buried(s: Sys, before: set<nat>, x: Target) {
    && RecordBuried(s.db, x)
    && (forall tid {:trigger s.threads[tid]} :: tid in s.threads && tid !in before ==> TaskBuries(s, s.threads[tid], x))
  }

  lemma ShutStep(s: Sys, e: Event, rq: Request, until: int)
    requires Inv(s.db) && Enabled(s, e) && Shut(s, rq, until)
    ensures Shut(Step(s, e), rq, until)
  {
    MarkStep(s, e, Marked(rq, until));
  }

  lemma TaskBuriesStep(s: Sys, e: Event, t: Task, x: Target)
    requires Inv(s.db) && Enabled(s, e) && TaskBuries(s, t, x)
    ensures TaskBuries(Step(s, e), t, x)
  {
    if Shut(s, x.rq, x.until) { ShutStep(s, e, x.rq, x.until); }
    StepEvolves(s, e);
    assert Seconds(s.clock) <= Seconds(Step(s, e).clock);
  }

  lemma LookBuries(s: Sys, t: Task, x: Target)
    requires !Writes(t) && Inv(s.db) && RecordBuried(s.db, x) && TaskBuries(s, t, x)
    ensures TaskBuries(s, Look(s.db, s.clock, t), x)
  {
    hide Inv;
    if t.CheckExpiry? && IsAccess(x, t.key, t.access) { assert t.access.expires * 1_000_000 <= s.clock; }
  }

  lemma ExecBuries(s: Sys, t: Task, c: Choice, x: Target)
    requires Inv(s.db) && RecordBuried(s.db, x) && TaskBuries(s, t, x)
    ensures TaskBuries(s, Exec(s.db, s.clock, t, c).1, x)
  {
    hide Look, Inv, RecordBuried, MutateFamilies, Spans, RefreshOf, AccessOf;
    if !Writes(t) { LookBuries(s, t, x); }
  }

  lemma RecordStaysBuried(db: Db, db': Db, now: int, x: Target)
    requires Evolves(db, db', now) && RecordBuried(db, x)
    ensures RecordBuried(db', x)
  {
    if x.rq in db.tombs && x.rq !in db'.tombs { assert TombGone(db, db', x.rq, now); }
    if x.rq in db.tombs && x.rq in db'.tombs { assert TombKept(db, db', x.rq); }
    forall k | k in db'.refresh && IsRefresh(x, k, db'.refresh[k])
      ensures k in RefreshOf(db, x.rq) && x.rq in db.tombs && x.until <= db.tombs[x.rq].expires
      ensures RequestOfRow(k, db'.refresh[k]) == x.rq && (db'.refresh[k].status.Active? ==> x.active)
    {
      Births(db, db', now, k);
      assert IsRefresh(x, k, db.refresh[k]);
    }
    forall k | k in db'.access && IsAccess(x, k, db'.access[k])
      ensures k in AccessOf(db, x.rq) && db'.access[k] == db.access[k] && x.until <= db.tombs[x.rq].expires
    {
      Births(db, db', now, k);
    }
  }

  lemma {:induction false} BuriedForGood(s: Sys, es: seq<Event>, before: set<nat>, x: Target)
    requires Inv(s.db) && Valid(s, es) && Buried(s, before, x)
    ensures Buried(After(s, es), before, x)
  {
    if es != [] {
      var mid, e := After(s, es[..|es|-1]), es[|es|-1];
      BuriedForGood(s, es[..|es|-1], before, x);
      RunKeepsInv(s, es[..|es|-1]);
      StepEvolves(mid, e);
      RecordStaysBuried(mid.db, Step(mid, e).db, mid.clock, x);
      var s' := Step(mid, e);
      forall tid | tid in s'.threads && tid !in before ensures TaskBuries(s', s'.threads[tid], x) {
        if e.Run? && e.tid == tid {
          ExecBuries(mid, mid.threads[tid], e.choice, x);
          TaskBuriesStep(mid, e, s'.threads[tid], x);
        } else if tid in mid.threads {
          TaskBuriesStep(mid, e, mid.threads[tid], x);
        }
      }
    }
  }

  /** An access row that exists while its request's tombstone stands is never let through by a check
      started later until the tombstone's expiry has passed; it is never attested again; and for as long as
      the row is left in the table the tombstone stands over it. */
  lemma BuriedAccessNeverAccepted(s: Sys, es: seq<Event>, k: Key, tid: nat)
    requires Inv(s.db) && Valid(s, es)
    requires k in s.db.access && Request(k.prefix, s.db.access[k].request) in s.db.tombs
    requires tid in After(s, es).threads && tid !in s.threads
    ensures var row, s', t := s.db.access[k], After(s, es), After(s, es).threads[tid];
            var rq := Request(k.prefix, row.request);
            && (t.Done? && t.reply.Accepted? && t.reply.access.id == row.id ==> s.db.tombs[rq].expires < Seconds(s'.clock))
            && (t.Done? && t.reply.Attested? ==> t.reply.access.id != row.id)
            && (k in s'.db.access && s'.db.access[k].id == row.id ==>
                  rq in s'.db.tombs && s.db.tombs[rq].expires <= s'.db.tombs[rq].expires)
  {
    var row := s.db.access[k];
    var rq := Request(k.prefix, row.request);
    var x := AccessTarget(row.id, rq, s.db.tombs[rq].expires);
    assert AccessInv(s.db, k) && TombInv(s.db, x.rq);
    forall j | j in s.db.access && s.db.access[j].id == row.id ensures j == k { assert AccessPairInv(s.db, j, k); }
    BuriedForGood(s, es, s.threads.Keys, x);
    assert TaskBuries(After(s, es), After(s, es).threads[tid], x);
  }

  /** The same for a refresh row and GetRefreshTokenSession; and a row that is not active under the
      tombstone is never handed out again at all. */
  lemma BuriedRefreshNeverFound(s: Sys, es: seq<Event>, k: Key, tid: nat)
    requires Inv(s.db) && Valid(s, es)
    requires k in s.db.refresh && RequestOfRow(k, s.db.refresh[k]) in s.db.tombs
    requires tid in After(s, es).threads && tid !in s.threads
    ensures var row, s', t := s.db.refresh[k], After(s, es), After(s, es).threads[tid];
            var rq := RequestOfRow(k, row);
            && (t.Done? && t.reply.Found? && t.reply.row.id == row.id ==>
                  row.status.Active? && s.db.tombs[rq].expires < Seconds(s'.clock))
            && (k in s'.db.refresh && s'.db.refresh[k].id == row.id ==>
                  rq in s'.db.tombs && s.db.tombs[rq].expires <= s'.db.tombs[rq].expires)
  {
    var row := s.db.refresh[k];
    var rq := RequestOfRow(k, row);
    var x := RefreshTarget(row.id, rq, s.db.tombs[rq].expires, row.status.Active?);
    assert RowInv(s.db, k);
    forall j | j in s.db.refresh && s.db.refresh[j].id == row.id ensures j == k { assert PairInv(s.db, j, k); }
    BuriedForGood(s, es, s.threads.Keys, x);
    assert TaskBuries(After(s, es), After(s, es).threads[tid], x);
  }

  // ----- past the tombstone's expiry -----

  /** The cleanup job deletes expired refresh rows one by one. */
  lemma {:induction false} ClearRefresh(s: Sys, ks: set<Key>) returns (es: seq<Event>)
    requires ks <= s.db.refresh.Keys && forall k :: k in ks ==> s.db.refresh[k].expires < Seconds(s.clock)
    ensures Valid(s, es) && After(s, es) == s.(db := s.db.(refresh := s.db.refresh - ks))
    decreases |ks|
  {
    if ks == {} {
      assert s.db.refresh - ks == s.db.refresh;
      es := [];
    } else {
      var k :| k in ks;
      var e := ExpireRefreshRow(k, s.clock);
      var rest := ClearRefresh(Step(s, e), ks - {k});
      assert s.db.refresh - {k} - (ks - {k}) == s.db.refresh - ks;
      Extend(s, [], e);
      assert [] + [e] == [e];
      Join(s, [e], rest);
      es := [e] + rest;
    }
  }

  lemma {:induction false} ClearAccess(s: Sys, ks: set<Key>) returns (es: seq<Event>)
    requires ks <= s.db.access.Keys && forall k :: k in ks ==> s.db.access[k].expires < Seconds(s.clock)
    ensures Valid(s, es) && After(s, es) == s.(db := s.db.(access := s.db.access - ks))
    decreases |ks|
  {
    if ks == {} {
      assert s.db.access - ks == s.db.access;
      es := [];
    } else {
      var k :| k in ks;
      var e := ExpireAccessRow(k, s.clock);
      var rest := ClearAccess(Step(s, e), ks - {k});
      assert s.db.access - {k} - (ks - {k}) == s.db.access - ks;
      Extend(s, [], e);
      assert [] + [e] == [e];
      Join(s, [e], rest);
      es := [e] + rest;
    }
  }

  ghost predicate IsForgotten(db: Db, rq: Request) { rq !in db.tombs && RefreshOf(db, rq) == map[] && AccessOf(db, rq) == map[] }

  /** Once a tombstone has expired, the cleanup job can remove every row of its request and then the
      tombstone, whatever calls are in progress. */
  lemma CleanupForgets(s: Sys, rq: Request) returns (es: seq<Event>)
    requires Inv(s.db) && rq in s.db.tombs && s.db.tombs[rq].expires < Seconds(s.clock)
    ensures Valid(s, es) && After(s, es).threads == s.threads && After(s, es).clock == s.clock
    ensures IsForgotten(After(s, es).db, rq) && After(s, es).db.drawn == s.db.drawn
  {
    hide Inv, RefreshOf, AccessOf, Step;
    ExpiredWithTombstone(s, rq);
    var es1 := ClearRefresh(s, RefreshOf(s.db, rq).Keys);
    var s1 := After(s, es1);
    var es2 := ClearAccess(s1, AccessOf(s.db, rq).Keys);
    Join(s, es1, es2);
    var s2 := After(s1, es2);
    NothingLeft(s.db, s2.db, rq);
    var e := CleanExpiredTombstone(rq, s2.db.tombs[rq].id, s.clock);
    Extend(s, es1 + es2, e);
    es := es1 + es2 + [e];
    LoneTombstoneGoes(s2, rq, e.id);
  }

  lemma ExpiredWithTombstone(s: Sys, rq: Request)
    requires Inv(s.db) && rq in s.db.tombs && s.db.tombs[rq].expires < Seconds(s.clock)
    ensures RefreshOf(s.db, rq).Keys <= s.db.refresh.Keys && AccessOf(s.db, rq).Keys <= s.db.access.Keys
    ensures forall k :: k in RefreshOf(s.db, rq) ==> s.db.refresh[k].expires < Seconds(s.clock)
    ensures forall k :: k in AccessOf(s.db, rq) ==> s.db.access[k].expires < Seconds(s.clock)
  {
    forall k | k in RefreshOf(s.db, rq) ensures s.db.refresh[k].expires < Seconds(s.clock) { assert RowInv(s.db, k); }
    forall k | k in AccessOf(s.db, rq) ensures s.db.access[k].expires < Seconds(s.clock) { assert AccessInv(s.db, k); }
  }

  lemma NothingLeft(db: Db, db': Db, rq: Request)
    requires db'.refresh == db.refresh - RefreshOf(db, rq).Keys && db'.access == db.access - AccessOf(db, rq).Keys
    ensures RefreshOf(db', rq) == map[] && AccessOf(db', rq) == map[]
  {}

  lemma LoneTombstoneGoes(s: Sys, rq: Request, id: Id)
    requires rq in s.db.tombs && s.db.tombs[rq].id == id && s.db.tombs[rq].expires < Seconds(s.clock)
    requires RefreshOf(s.db, rq) == map[] && AccessOf(s.db, rq) == map[]
    ensures var e := CleanExpiredTombstone(rq, id, s.clock);
            && Step(s, e).threads == s.threads && Step(s, e).clock == s.clock && Step(s, e).db.drawn == s.db.drawn
            && IsForgotten(Step(s, e).db, rq)
  {
    var db' := s.db.(tombs := s.db.tombs - {rq});
    assert CleanTombstone(s.db, rq, id, s.clock, s.clock) == db';
    assert RefreshOf(db', rq) == RefreshOf(s.db, rq) && AccessOf(db', rq) == AccessOf(s.db, rq);
  }

  /** A call begun at `s` reads first; then time passes to `T` and the cleanup job forgets the request. */
  lemma Stall(s: Sys, call: Task, rq: Request, T: nat) returns (es: seq<Event>, tid: nat)
    requires Inv(s.db) && rq in s.db.tombs && s.clock <= T && s.db.tombs[rq].expires < Seconds(T)
    requires IsCall(call) && !Writes(call)
    ensures Valid(s, es) && After(s, es).clock == T && tid !in s.threads
    ensures tid in After(s, es).threads && After(s, es).threads[tid] == Look(s.db, s.clock, call)
    ensures IsForgotten(After(s, es).db, rq)
  {
    hide Inv;
    tid := Unused(s.threads.Keys);
    var spawn := Spawn(tid, call);
    Extend(s, [], spawn);
    var s1 := Step(s, spawn);
    var read := NextChoice(s1, tid);
    Extend(s, [] + [spawn], read);
    var s2 := Step(s1, read);
    var es2 := [] + [spawn] + [read];
    Extend(s, es2, Tick(T));
    var s3 := Step(s2, Tick(T));
    var more := CleanupForgets(s3, rq);
    Join(s, es2 + [Tick(T)], more);
    es := es2 + [Tick(T)] + more;
  }

  /** A run of a call begun after `s` that lets the record through by time `T`. */
  ghost predicate LetsThrough(s: Sys, es: seq<Event>, tid: nat, id: Id, T: nat) {
    && Valid(s, es) && After(s, es).clock <= T
    && tid in After(s, es).threads && tid !in s.threads
    && var t := After(s, es).threads[tid];
       t.Done? && ((t.reply.Accepted? && t.reply.access.id == id) || (t.reply.Found? && t.reply.row.id == id))
  }

  lemma ForgottenAccess(s: Sys, tid: nat, key: Key, row: AccessRow) returns (es: seq<Event>)
    requires tid in s.threads && s.threads[tid] == CheckAuthority(key, row, false)
    requires IsForgotten(s.db, Request(key.prefix, row.request))
    ensures Valid(s, es) && After(s, es).clock == s.clock && tid in After(s, es).threads
    ensures After(s, es).threads[tid] == Done(key.prefix, Accepted(row), Unmarked)
  {
    var e := NextChoice(s, tid);
    Extend(s, [], e);
    var s1 := Step(s, e);
    es := [] + [e];
    if row.request != "" {
      assert s1.threads[tid] == CheckFamily(key, row, false);
      var f := NextChoice(s1, tid);
      Extend(s, es, f);
      es := es + [f];
    }
  }

  lemma AccessComesBack(s: Sys, k: Key, T: nat) returns (es: seq<Event>, tid: nat)
    requires Inv(s.db) && k in s.db.access && s.clock <= T
    requires var rq := Request(k.prefix, s.db.access[k].request); rq in s.db.tombs && s.db.tombs[rq].expires < Seconds(T)
    ensures Valid(s, es) && After(s, es).clock == T && tid !in s.threads && tid in After(s, es).threads
    ensures After(s, es).threads[tid] == Done(k.prefix, Accepted(s.db.access[k]), Unmarked)
  {
    hide Inv, IsForgotten;
    var row := s.db.access[k];
    es, tid := Stall(s, CheckCall(k, false), Request(k.prefix, row.request), T);
    var more := ForgottenAccess(After(s, es), tid, k, row);
    Join(s, es, more);
    es := es + more;
  }

  lemma RefreshComesBack(s: Sys, k: Key, T: nat) returns (es: seq<Event>, tid: nat)
    requires Inv(s.db) && k in s.db.refresh && s.clock <= T && s.db.refresh[k].status.Active?
    requires var rq := RequestOfRow(k, s.db.refresh[k]); rq in s.db.tombs && s.db.tombs[rq].expires < Seconds(T)
    ensures Valid(s, es) && After(s, es).clock == T && tid !in s.threads && tid in After(s, es).threads
    ensures After(s, es).threads[tid] == Done(k.prefix, Found(s.db.refresh[k]), Unmarked)
  {
    hide Inv;
    var row := s.db.refresh[k];
    es, tid := Stall(s, GetRefreshCall(k), RequestOfRow(k, row), T);
    var e := NextChoice(After(s, es), tid);
    Extend(s, es, e);
    es := es + [e];
  }

  /** Exactly when a buried access token can be accepted again: some run ending by time T lets a check begun
      later accept it if and only if the tombstone's expiry lies before T. */
  lemma AccessAcceptedExactlyPastTombstone(s: Sys, k: Key, T: nat)
    requires Inv(s.db) && k in s.db.access && Request(k.prefix, s.db.access[k].request) in s.db.tombs && s.clock <= T
    ensures (exists es, tid :: LetsThrough(s, es, tid, s.db.access[k].id, T) && After(s, es).threads[tid].reply.Accepted?)
       <==> s.db.tombs[Request(k.prefix, s.db.access[k].request)].expires < Seconds(T)
  {
    hide Inv;
    if es, tid :| LetsThrough(s, es, tid, s.db.access[k].id, T) && After(s, es).threads[tid].reply.Accepted? {
      BuriedAccessNeverAccepted(s, es, k, tid);
    }
    if s.db.tombs[Request(k.prefix, s.db.access[k].request)].expires < Seconds(T) {
      var es, tid := AccessComesBack(s, k, T);
      assert LetsThrough(s, es, tid, s.db.access[k].id, T);
    }
  }

  /** Exactly when a buried refresh token can be found again: it is still active, and the tombstone's expiry
      lies before T. */
  lemma RefreshFoundExactlyPastTombstone(s: Sys, k: Key, T: nat)
    requires Inv(s.db) && k in s.db.refresh && RequestOfRow(k, s.db.refresh[k]) in s.db.tombs && s.clock <= T
    ensures (exists es, tid :: LetsThrough(s, es, tid, s.db.refresh[k].id, T) && After(s, es).threads[tid].reply.Found?)
       <==> s.db.refresh[k].status.Active? && s.db.tombs[RequestOfRow(k, s.db.refresh[k])].expires < Seconds(T)
  {
    hide Inv;
    if es, tid :| LetsThrough(s, es, tid, s.db.refresh[k].id, T) && After(s, es).threads[tid].reply.Found? {
      BuriedRefreshNeverFound(s, es, k, tid);
    }
    if s.db.refresh[k].status.Active? && s.db.tombs[RequestOfRow(k, s.db.refresh[k])].expires < Seconds(T) {
      var es, tid := RefreshComesBack(s, k, T);
      assert LetsThrough(s, es, tid, s.db.refresh[k].id, T);
    }
  }

  // ----- it happens from an empty store -----

  /** The next step of a call with the given ids. */
  function Next(tid: nat, id: Id, uuid: Id, fault: Fault): Event { Run(tid, Choice(id, uuid, Record(Key("", ""), NO_ID), fault)) }

  lemma Commits(db: Db, rq: Request, expires: int, id: Id)
    requires rq.id != "" && rq !in db.tombs && !Spans(RefreshOf(db, rq))
    ensures var (db', done) := Commit(db, rq, NO_ID, expires, id);
            && done && rq in db'.tombs && db'.refresh == db.refresh && db'.access == db.access
            && db'.drawn == db.drawn[id := rq.prefix]
  {}

  /** Thread 1 revokes the request of a state with nothing but one token in it, at time 0. */
  lemma Revocation(es: seq<Event>, rq: Request, fault: Fault) returns (all: seq<Event>)
    requires Valid(START, es) && rq.id != "" && fault != ReadError
    requires var s := After(START, es);
             && s.clock == 0 && 1 !in s.threads && rq !in s.db.tombs && !Spans(RefreshOf(s.db, rq))
             && Fresh(s.db, 3) && Fresh(s.db, 4) && Fresh(s.db, 5)
             && (fault.NoFault? ==> RefreshOf(s.db, rq) == map[])
    ensures Valid(START, all)
    ensures var s, s' := After(START, es), After(START, all);
            && s'.db.refresh == s.db.refresh && s'.db.access == s.db.access && rq in s'.db.tombs
            && s'.clock == 0 && 1 in s'.threads
            && s'.threads[1].Done? && s'.threads[1].reply == if fault.NoFault? then Ok else Failed
  {
    hide After, Valid, Step, Enabled, RefreshOf, Spans;
    var s := After(START, es);
    var until := Max(0, Seconds(0) + TOMBSTONE_LIFETIME);
    var s1 := s.(threads := s.threads[1 := RevokeRefreshCall(rq)]);
    BeginsRevocation(s, rq);
    Extend(START, es, Spawn(1, RevokeRefreshCall(rq)));
    all := es + [Spawn(1, RevokeRefreshCall(rq))];
    Extend(START, all, Next(1, 3, 4, NoFault));
    all := all + [Next(1, 3, 4, NoFault)];
    var s2 := After(START, all);
    CommitsTombstone(s2, rq, until);
    Extend(START, all, Next(1, 3, 4, NoFault));
    all := all + [Next(1, 3, 4, NoFault)];
    var s3 := After(START, all);
    SameRefresh(s2.db, s3.db, rq);
    EndsRevocation(s3, rq, until, fault);
    Extend(START, all, Next(1, 4, 5, fault));
    all := all + [Next(1, 4, 5, fault)];
  }

  lemma BeginsRevocation(s: Sys, rq: Request)
    requires s.clock == 0 && 1 !in s.threads && Fresh(s.db, 3) && Fresh(s.db, 4)
    ensures var spawn, e := Spawn(1, RevokeRefreshCall(rq)), Next(1, 3, 4, NoFault);
            && Enabled(s, spawn) && Enabled(Step(s, spawn), e)
            && Step(Step(s, spawn), e)
               == s.(threads := s.threads[1 := CommitTx(rq, NO_ID, Max(0, Seconds(0) + TOMBSTONE_LIFETIME), ThenRevoke)])
  {
    var s' := Step(Step(s, Spawn(1, RevokeRefreshCall(rq))), Next(1, 3, 4, NoFault));
    assert s'.threads == s.threads[1 := s'.threads[1]];
  }

  lemma CommitsTombstone(s: Sys, rq: Request, until: int)
    requires 1 in s.threads && s.threads[1] == CommitTx(rq, NO_ID, until, ThenRevoke) && Fresh(s.db, 3) && Fresh(s.db, 4)
    requires rq.id != "" && rq !in s.db.tombs && !Spans(RefreshOf(s.db, rq))
    ensures var e := Next(1, 3, 4, NoFault);
            && Enabled(s, e)
            && var s' := Step(s, e);
               && s'.clock == s.clock && 1 in s'.threads && s'.threads[1] == RevokeTx(rq, until) && rq in s'.db.tombs
               && s'.db.refresh == s.db.refresh && s'.db.access == s.db.access && s'.db.drawn == s.db.drawn[3 := rq.prefix]
  {
    hide Spans, RefreshOf;
    Commits(s.db, rq, until, 3);
  }

  lemma EndsRevocation(s: Sys, rq: Request, until: int, fault: Fault)
    requires 1 in s.threads && s.threads[1] == RevokeTx(rq, until) && Fresh(s.db, 4) && Fresh(s.db, 5)
    requires fault != ReadError && (fault.NoFault? ==> RefreshOf(s.db, rq) == map[])
    ensures var e := Next(1, 4, 5, fault);
            && Enabled(s, e)
            && var s' := Step(s, e);
               && s'.db == s.db && s'.clock == s.clock && 1 in s'.threads
               && s'.threads[1].Done? && s'.threads[1].reply == if fault.NoFault? then Ok else Failed
  {
    hide RefreshOf;
    if fault.NoFault? { NothingToRevoke(s.db, rq, s.clock); }
  }

  lemma SameRefresh(db: Db, db': Db, rq: Request)
    requires db'.refresh == db.refresh
    ensures RefreshOf(db', rq) == RefreshOf(db, rq)
  {}

  lemma NothingToRevoke(db: Db, rq: Request, now: int)
    requires RefreshOf(db, rq) == map[]
    ensures RevokeByRequest(db, rq, now) == (db, true)
  {
    assert FamiliesOf(RefreshOf(db, rq)) == {};
    assert RequestsOf(db, rq.prefix, {}) == {};
    var db' := MutateFamilies(db, rq.prefix, {}, Revoked, now);
    assert db'.refresh == db.refresh && db'.access == db.access;
  }

  /** From an empty store, any access token: it is issued, its request is revoked with success, and a check
      begun after that still lets it through, once the tombstone has expired. */
  lemma StalledCheckAccepts(rq: Request, signature: string, expires: int) returns (es: seq<Event>, more: seq<Event>, tid: nat)
    requires rq.id != ""
    ensures Valid(START, es) && Valid(After(START, es), more)
    ensures var s, s', k := After(START, es), After(After(START, es), more), Key(rq.prefix, signature);
            && 1 in s.threads && s.threads[1].Done? && s.threads[1].reply.Ok? && rq in s.db.tombs
            && k in s.db.access && s.db.access[k].request == rq.id && s.db.access[k].expires == expires
            && tid !in s.threads && tid in s'.threads && s'.threads[tid] == Done(rq.prefix, Accepted(s.db.access[k]), Unmarked)
  {
    var k := Key(rq.prefix, signature);
    Extend(START, [], Spawn(0, CreateAccessCall(rq, signature, expires)));
    es := [] + [Spawn(0, CreateAccessCall(rq, signature, expires))];
    Extend(START, es, Next(0, 1, 2, NoFault));
    es := es + [Next(0, 1, 2, NoFault)];
    var s := After(START, es);
    assert s.db == Db(map[], map[k := AccessRow(1, rq.id, expires)], map[], map[1 := rq.prefix]);
    NothingOf(s.db, rq);
    es := Revocation(es, rq, NoFault);
    s := After(START, es);
    EmptyInv();
    RunKeepsInv(START, es);
    more, tid := AccessComesBack(s, k, LateEnough(s.db.tombs[rq].expires));
  }

  lemma NothingOf(db: Db, rq: Request)
    requires db.refresh == map[]
    ensures RefreshOf(db, rq) == map[] && !Spans(RefreshOf(db, rq))
  {}

  /** A time past the second `expires`. */
  function LateEnough(expires: int): (t: nat)
    ensures expires < Seconds(t)
  {
    if expires < 0 then 0 else (expires + 1) * 1_000_000
  }

  /** From an empty store, any refresh token: it is issued, a revocation commits the tombstone and then fails,
      and a lookup begun after that still hands the token out, once the tombstone has expired. */
  lemma StalledLookupFinds(rq: Request, signature: string, expires: int) returns (es: seq<Event>, more: seq<Event>, tid: nat)
    requires rq.id != ""
    ensures Valid(START, es) && Valid(After(START, es), more)
    ensures var s, s', k := After(START, es), After(After(START, es), more), Key(rq.prefix, signature);
            && 1 in s.threads && s.threads[1].Done? && s.threads[1].reply.Failed? && rq in s.db.tombs
            && k in s.db.refresh && RequestOfRow(k, s.db.refresh[k]) == rq && s.db.refresh[k].expires == expires
            && tid !in s.threads && tid in s'.threads && s'.threads[tid] == Done(rq.prefix, Found(s.db.refresh[k]), Unmarked)
  {
    var k := Key(rq.prefix, signature);
    Extend(START, [], Spawn(0, CreateRefreshCall(rq, signature, "", expires)));
    es := [] + [Spawn(0, CreateRefreshCall(rq, signature, "", expires))];
    NothingOf(EMPTY, rq);
    Extend(START, es, Next(0, 1, 2, NoFault));
    es := es + [Next(0, 1, 2, NoFault)];
    var s := After(START, es);
    assert s.db.refresh == map[k := RefreshRow(1, rq.id, 2, NO_ID, Active, 0, 0, expires)] && s.db.tombs == map[];
    es := Revocation(es, rq, Abort);
    s := After(START, es);
    EmptyInv();
    RunKeepsInv(START, es);
    more, tid := RefreshComesBack(s, k, LateEnough(s.db.tombs[rq].expires));
  }
}
