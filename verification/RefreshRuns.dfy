/**
A call run by itself is a run of the system: the events of that call alone, with ids drawn anew at every
step, lead from any state in which the call stands to where it ends. What is proved about runs, the
invariant first of all, therefore holds of the calls of RefreshSequential and of the store's methods.
*/
module RefreshRuns {
  import opened RefreshDb
  import opened RefreshInvariant
  import opened RefreshProtocol
  import opened RefreshEvolution
  import opened RefreshSequential

  /** From this state some run of the call's own steps leads to that database and task, and changes nothing
      else. */
  ghost predicate Leads(s: Sys, tid: nat, db': Db, t': Task) {
    exists es :: Valid(s, es) && After(s, es) == s.(db := db', threads := s.threads[tid := t'])
  }

  /** Wherever the call stands so, it can end so. */
  ghost predicate CanEnd(db: Db, clock: nat, t: Task, db': Db, t': Task) {
    forall s: Sys, tid :: s.db == db && s.clock == clock && tid in s.threads && s.threads[tid] == t ==> Leads(s, tid, db', t')
  }

  lemma EndsHere(db: Db, clock: nat, t: Task)
    ensures CanEnd(db, clock, t, db, t)
  {
    forall s: Sys, tid | s.db == db && s.clock == clock && tid in s.threads && s.threads[tid] == t ensures Leads(s, tid, db, t) {
      assert s.threads[tid := t] == s.threads;
      assert Valid(s, []) && After(s, []) == s;
    }
  }

  /** One step, and then on. */
  lemma StepsOn(db: Db, clock: nat, t: Task, c: Choice, db': Db, t': Task)
    requires Fresh(db, c.id) && Fresh(db, c.uuid) && c.id != c.uuid
    requires CanEnd(Exec(db, clock, t, c).0, clock, Exec(db, clock, t, c).1, db', t')
    ensures CanEnd(db, clock, t, db', t')
  {
    hide Exec;
    var (db1, t1) := Exec(db, clock, t, c);
    forall s: Sys, tid | s.db == db && s.clock == clock && tid in s.threads && s.threads[tid] == t ensures Leads(s, tid, db', t') {
      var e := Run(tid, c);
      Extend(s, [], e);
      var s1 := Step(s, e);
      assert s1.db == db1 && s1.clock == clock && s1.threads[tid] == t1;
      var es :| Valid(s1, es) && After(s1, es) == s1.(db := db', threads := s1.threads[tid := t']);
      Join(s, [] + [e], es);
      assert s1.threads[tid := t'] == s.threads[tid := t'];
    }
  }

  /** What the call reaches keeps the invariant. */
  lemma EndKeepsInv(db: Db, clock: nat, t: Task, db': Db, t': Task)
    requires Inv(db) && CanEnd(db, clock, t, db', t')
    ensures Inv(db')
  {
    hide Inv;
    var s := Sys(db, clock, map[0 := t]);
    assert Leads(s, 0, db', t');
    var es :| Valid(s, es) && After(s, es) == s.(db := db', threads := s.threads[0 := t']);
    RunKeepsInv(s, es);
  }

  /** The steps that draw an id for a record, and for a family. */
  predicate Draws(t: Task) { !t.InvalidateTx? && !t.RevokeTx? && !t.SweepFind? && !t.Sweep? && !t.Done? }

  predicate Supplied(db: Db, t: Task, id: Id, uuid: Id) {
    (Draws(t) ==> Fresh(db, id)) && (t.CreateRefreshCall? ==> Fresh(db, uuid) && id != uuid)
  }

  /** The same step, drawing ids that are new. */
  lemma Redraw(db: Db, clock: int, t: Task, id: Id, uuid: Id, breaks: bool) returns (c: Choice)
    requires Supplied(db, t, id, uuid)
    ensures Fresh(db, c.id) && Fresh(db, c.uuid) && c.id != c.uuid
    ensures Exec(db, clock, t, c) == Exec(db, clock, t, Draw(t, id, uuid, breaks))
  {
    hide CreateAccess, CreateRefresh, Commit, MutateFamilies, RefreshOf, AccessOf;
    c := Draw(t, id, uuid, breaks);
    if !Draws(t) {
      var other := FreshId(db, NO_ID);
      c := c.(id := other);
    }
    if !t.CreateRefreshCall? {
      var other := FreshId(db, c.id);
      c := c.(uuid := other);
    }
    SameStep(db, clock, t, Draw(t, id, uuid, breaks), c);
  }

  lemma SameStep(db: Db, clock: int, t: Task, c: Choice, c': Choice)
    requires c'.victim == c.victim && c'.fault == c.fault && (Draws(t) ==> c'.id == c.id) && (t.CreateRefreshCall? ==> c'.uuid == c.uuid)
    ensures Exec(db, clock, t, c') == Exec(db, clock, t, c)
  {
    hide CreateAccess, CreateRefresh, Commit, MutateFamilies, RefreshOf, AccessOf;
  }

  /** The id is drawn once at most, so it is new until then. */
  lemma StaysSupplied(db: Db, clock: int, t: Task, id: Id, uuid: Id, breaks: bool)
    requires Supplied(db, t, id, uuid) && !t.Done?
    ensures var (db', t') := Exec(db, clock, t, Draw(t, id, uuid, breaks));
            Supplied(db', t', id, uuid)
  {
    hide CreateAccess, CreateRefresh, Commit, RefreshOf, AccessOf, RecordsOf;
  }

  /** A call run alone is a run of the system. */
  lemma {:induction false} AloneIsRun(db: Db, clock: nat, t: Task, id: Id, uuid: Id, breaks: bool)
    requires Supplied(db, t, id, uuid)
    ensures var (db', t') := Alone(db, clock, t, id, uuid, breaks);
            CanEnd(db, clock, t, db', t')
    decreases Rank(t), Left(t)
  {
    hide Exec, CanEnd;
    if t.Done? {
      EndsHere(db, clock, t);
    } else {
      StepsEnd(db, clock, t, Draw(t, id, uuid, breaks));
      StaysSupplied(db, clock, t, id, uuid, breaks);
      var (db1, t1) := Exec(db, clock, t, Draw(t, id, uuid, breaks));
      AloneIsRun(db1, clock, t1, id, uuid, breaks);
      var c := Redraw(db, clock, t, id, uuid, breaks);
      var (db', t') := Alone(db1, clock, t1, id, uuid, breaks);
      StepsOn(db, clock, t, c, db', t');
    }
  }

  /** In particular a call begun in any state and run alone is a valid continuation of any run, and keeps the
      invariant of the tables. */
  lemma AloneContinues(s: Sys, tid: nat, call: Task, id: Id, uuid: Id, breaks: bool) returns (es: seq<Event>)
    requires tid !in s.threads && IsCall(call) && Supplied(s.db, call, id, uuid)
    ensures var (db', t') := Alone(s.db, s.clock, call, id, uuid, breaks);
            Valid(s, es) && After(s, es) == s.(db := db', threads := s.threads[tid := t']) && (Inv(s.db) ==> Inv(db'))
  {
    hide Alone, Inv;
    AloneIsRun(s.db, s.clock, call, id, uuid, breaks);
    var (db', t') := Alone(s.db, s.clock, call, id, uuid, breaks);
    Extend(s, [], Spawn(tid, call));
    var s1 := Step(s, Spawn(tid, call));
    assert Leads(s1, tid, db', t');
    var more :| Valid(s1, more) && After(s1, more) == s1.(db := db', threads := s1.threads[tid := t']);
    Join(s, [] + [Spawn(tid, call)], more);
    es := [] + [Spawn(tid, call)] + more;
    assert s1.threads[tid := t'] == s.threads[tid := t'];
    if Inv(s.db) { EndKeepsInv(s.db, s.clock, call, db', t'); }
  }

  // ----- deletions that fail -----

  /** The rows of `gone` are deleted, in some order. */
  lemma {:induction false} SweepsSome(db: Db, clock: nat, rq: Request, todo: set<Record>, reply: Reply, mark: Mark,
                                      gone: set<Record>, db': Db, t': Task)
    requires gone <= todo && forall r :: r in todo ==> r.key in db.access && db.access[r.key].id == r.id
    requires CanEnd(db.(access := db.access - (set r | r in gone :: r.key)), clock, Sweep(rq, todo - gone, reply, mark), db', t')
    ensures CanEnd(db, clock, Sweep(rq, todo, reply, mark), db', t')
    decreases |gone|
  {
    hide CanEnd;
    if gone == {} {
      assert todo - gone == todo;
      assert db.access - (set r | r in gone :: r.key) == db.access;
    } else {
      var r :| r in gone;
      var db1 := DeleteAccessRecord(db, r.key, r.id);
      forall q | q in todo - {r} ensures q.key in db1.access && db1.access[q.key].id == q.id { assert q.key != r.key; }
      assert todo - {r} - (gone - {r}) == todo - gone;
      assert db1.access - (set q | q in gone - {r} :: q.key) == db.access - (set q | q in gone :: q.key);
      SweepsSome(db1, clock, rq, todo - {r}, reply, mark, gone - {r}, db', t');
      var id := FreshId(db, NO_ID);
      var uuid := FreshId(db, id);
      StepsOn(db, clock, Sweep(rq, todo, reply, mark), Choice(id, uuid, r, NoFault), db', t');
    }
  }

  lemma Stops(db: Db, clock: nat, t: Task)
    requires !CannotFail(t)
    ensures CanEnd(db, clock, t, db, Stop(t, Failed))
  {
    hide CanEnd;
    var id := FreshId(db, NO_ID);
    var uuid := FreshId(db, id);
    EndsHere(db, clock, Stop(t, Failed));
    StepsOn(db, clock, t, Choice(id, uuid, Record(Key("", ""), NO_ID), Abort), db, Stop(t, Failed));
  }

  lemma RecordsCover(db: Db, rq: Request, gone: set<Key>)
    requires gone <= AccessOf(db, rq).Keys
    ensures var todo := RecordsOf(AccessOf(db, rq));
            var out := set r | r in todo && r.key in gone;
            && (set r | r in out :: r.key) == gone && (gone == AccessOf(db, rq).Keys ==> out == todo)
            && forall r :: r in todo ==> r.key in db.access && db.access[r.key].id == r.id
  {
    var out := set r | r in RecordsOf(AccessOf(db, rq)) && r.key in gone;
    forall k | k in gone ensures k in (set r | r in out :: r.key) { assert Record(k, AccessOf(db, rq)[k].id) in out; }
  }

  /** deleteSessionModelsByRequestID: every access row of the request goes, or some of them go and then a
      deletion fails. */
  lemma SweepCanEnd(db: Db, clock: nat, rq: Request, reply: Reply, mark: Mark, gone: set<Key>, ok: bool)
    requires gone <= AccessOf(db, rq).Keys && (ok ==> gone == AccessOf(db, rq).Keys)
    ensures CanEnd(db, clock, SweepFind(rq, reply, mark), db.(access := db.access - gone),
                   Done(rq.prefix, if ok then reply else Failed, mark))
  {
    hide CanEnd, AccessOf, RecordsOf;
    var todo := RecordsOf(AccessOf(db, rq));
    var out := set r | r in todo && r.key in gone;
    RecordsCover(db, rq, gone);
    var db' := db.(access := db.access - gone);
    var rest := Sweep(rq, todo - out, reply, mark);
    var id := FreshId(db, NO_ID);
    var uuid := FreshId(db, id);
    if ok {
      assert todo - out == {};
      EndsHere(db', clock, Done(rq.prefix, reply, mark));
      StepsOn(db', clock, rest, Choice(id, uuid, Record(Key("", ""), NO_ID), NoFault), db', Done(rq.prefix, reply, mark));
    } else {
      Stops(db', clock, rest);
    }
    SweepsSome(db, clock, rq, todo, reply, mark, out, db', Done(rq.prefix, if ok then reply else Failed, mark));
    StepsOn(db, clock, SweepFind(rq, reply, mark), Choice(id, uuid, Record(Key("", ""), NO_ID), NoFault), db',
            Done(rq.prefix, if ok then reply else Failed, mark));
  }

  // ----- the answers of the store's operations -----

  /** Some run of the call's own steps ends with that answer and those tables. */
  ghost predicate Answers(db: Db, clock: nat, call: Task, db': Db, reply: Reply) {
    exists mark :: CanEnd(db, clock, call, db', Done(PrefixOf(call), reply, mark))
  }

  lemma AnswersKeepInv(db: Db, clock: nat, call: Task, db': Db, reply: Reply)
    requires Inv(db) && Answers(db, clock, call, db', reply)
    ensures Inv(db')
  {
    hide Inv, CanEnd;
    var mark :| CanEnd(db, clock, call, db', Done(PrefixOf(call), reply, mark));
    EndKeepsInv(db, clock, call, db', Done(PrefixOf(call), reply, mark));
  }

  /** A step before. */
  lemma AnswersBefore(db: Db, clock: nat, t: Task, c: Choice, db': Db, reply: Reply)
    requires Fresh(db, c.id) && Fresh(db, c.uuid) && c.id != c.uuid
    requires PrefixOf(Exec(db, clock, t, c).1) == PrefixOf(t)
    requires Answers(Exec(db, clock, t, c).0, clock, Exec(db, clock, t, c).1, db', reply)
    ensures Answers(db, clock, t, db', reply)
  {
    hide CanEnd, Exec;
    var (db1, t1) := Exec(db, clock, t, c);
    var mark :| CanEnd(db1, clock, t1, db', Done(PrefixOf(t1), reply, mark));
    StepsOn(db, clock, t, c, db', Done(PrefixOf(t), reply, mark));
  }

  lemma NewChoice(db: Db) returns (c: Choice)
    ensures Fresh(db, c.id) && Fresh(db, c.uuid) && c.id != c.uuid && c.fault.NoFault?
  {
    var id := FreshId(db, NO_ID);
    var uuid := FreshId(db, id);
    c := Choice(id, uuid, Record(Key("", ""), NO_ID), NoFault);
  }

  lemma AnswersDone(db: Db, clock: nat, prefix: string, reply: Reply, mark: Mark)
    ensures Answers(db, clock, Done(prefix, reply, mark), db, reply)
  {
    hide CanEnd;
    EndsHere(db, clock, Done(prefix, reply, mark));
    assert CanEnd(db, clock, Done(prefix, reply, mark), db, Done(PrefixOf(Done(prefix, reply, mark)), reply, mark));
  }

  lemma AnswersFailed(db: Db, clock: nat, t: Task)
    requires !CannotFail(t)
    ensures Answers(db, clock, t, db, Failed)
  {
    hide CanEnd;
    Stops(db, clock, t);
  }

  lemma PrefixStays(db: Db, clock: int, t: Task, c: Choice)
    ensures PrefixOf(Exec(db, clock, t, c).1) == PrefixOf(t)
  {
    hide Look, Write;
    if Writes(t) { WriteKeepsPrefix(db, clock, t, c); } else { LookKeepsPrefix(db, clock, t); }
  }

  lemma WriteKeepsPrefix(db: Db, clock: int, t: Task, c: Choice)
    requires Writes(t)
    ensures PrefixOf(Write(db, clock, t, c).1) == PrefixOf(t)
  {
    hide CreateAccess, CreateRefresh, Commit, Invalidate, RevokeByRequest, MarkRotated, DeleteAccessRecord, DeleteRefreshRecord;
  }

  lemma LookKeepsPrefix(db: Db, clock: int, t: Task)
    requires !Writes(t)
    ensures PrefixOf(Look(db, clock, t)) == PrefixOf(t)
  {
    hide RefreshOf, AccessOf, RecordsOf;
  }

  lemma {:induction false} AloneFinishes(db: Db, clock: int, t: Task, id: Id, uuid: Id, breaks: bool)
    ensures var (_, t') := Alone(db, clock, t, id, uuid, breaks); t'.Done? && PrefixOf(t') == PrefixOf(t)
    decreases Rank(t), Left(t)
  {
    hide Exec;
    if !t.Done? {
      var c := Draw(t, id, uuid, breaks);
      StepsEnd(db, clock, t, c);
      PrefixStays(db, clock, t, c);
      AloneFinishes(Exec(db, clock, t, c).0, clock, Exec(db, clock, t, c).1, id, uuid, breaks);
    }
  }

  /** A call run alone gives the answer of that run. */
  lemma AnswersAlone(db: Db, clock: nat, call: Task, id: Id, uuid: Id, breaks: bool)
    requires Supplied(db, call, id, uuid)
    ensures var (db', t) := Alone(db, clock, call, id, uuid, breaks);
            t.Done? && Answers(db, clock, call, db', t.reply)
  {
    hide CanEnd, Alone;
    AloneIsRun(db, clock, call, id, uuid, breaks);
    AloneFinishes(db, clock, call, id, uuid, breaks);
    var (db', t) := Alone(db, clock, call, id, uuid, breaks);
    assert t == Done(PrefixOf(call), t.reply, t.mark);
  }

  lemma AnswersSwept(db: Db, clock: nat, rq: Request, reply: Reply, mark: Mark, gone: set<Key>, ok: bool)
    requires gone <= AccessOf(db, rq).Keys && (ok ==> gone == AccessOf(db, rq).Keys)
    ensures Answers(db, clock, SweepFind(rq, reply, mark), db.(access := db.access - gone), if ok then reply else Failed)
  {
    hide CanEnd;
    SweepCanEnd(db, clock, rq, reply, mark, gone, ok);
    assert PrefixOf(SweepFind(rq, reply, mark)) == rq.prefix;
  }

  lemma AnswersRefused(db: Db, clock: nat, rq: Request, signature: string, db': Db, reply: Reply)
    requires HasAuthority(db, rq) && Answers(db, clock, SweepFind(rq, Inactive, Unmarked), db', reply)
    ensures Answers(db, clock, RotateCall(rq, signature), db', reply)
  {
    hide Answers;
    var c := NewChoice(db);
    AnswersBefore(db, clock, RotateCall(rq, signature), c, db', reply);
  }

  /** A rotation past the authority check, up to its conditional UPDATE. */
  lemma AnswersUpdated(db: Db, clock: nat, rq: Request, signature: string, db': Db, reply: Reply)
    requires !HasAuthority(db, rq)
    requires var (db1, hit) := MarkRotated(db, Key(rq.prefix, signature), clock);
             Answers(db1, clock, if hit then SweepFind(rq, Ok, Unmarked) else RotateLookup(rq, signature), db', reply)
    ensures Answers(db, clock, RotateCall(rq, signature), db', reply)
  {
    hide Answers, MarkRotated;
    var c := NewChoice(db);
    AnswersBefore(db, clock, RotateUpdate(rq, signature, clock), c, db', reply);
    AnswersBefore(db, clock, RotateClock(rq, signature), c, db', reply);
    AnswersBefore(db, clock, RotateCall(rq, signature), c, db', reply);
  }

  lemma AnswersLost(db: Db, clock: nat, rq: Request, signature: string, db': Db, reply: Reply)
    requires !HasAuthority(db, rq) && !MarkRotated(db, Key(rq.prefix, signature), clock).1
    requires Answers(db, clock, AfterLookup(db, rq, signature), db', reply)
    ensures Answers(db, clock, RotateCall(rq, signature), db', reply)
  {
    hide Answers;
    var c := NewChoice(db);
    assert PrefixOf(AfterLookup(db, rq, signature)) == rq.prefix;
    AnswersBefore(db, clock, RotateLookup(rq, signature), c, db', reply);
    AnswersUpdated(db, clock, rq, signature, db', reply);
  }

  lemma AnswersCommitted(db: Db, clock: nat, rq: Request, family: Id, expires: int, next: Next, id: Id, db': Db, reply: Reply)
    requires Fresh(db, id)
    requires var until := Max(expires, Seconds(clock) + TOMBSTONE_LIFETIME);
             var (db1, done) := Commit(db, rq, family, until, id);
             if done then Answers(db1, clock, AfterCommit(rq, until, next), db', reply) else db' == db && reply == Failed
    ensures Answers(db, clock, CommitClock(rq, family, expires, next), db', reply)
  {
    hide Answers, Commit;
    var until := Max(expires, Seconds(clock) + TOMBSTONE_LIFETIME);
    var c := NewChoice(db);
    var other := FreshId(db, id);
    assert PrefixOf(AfterCommit(rq, until, next)) == rq.prefix;
    if Commit(db, rq, family, until, id).1 {
      AnswersBefore(db, clock, CommitTx(rq, family, until, next), c.(id := id, uuid := other), db', reply);
    } else {
      AnswersFailed(db, clock, CommitTx(rq, family, until, next));
    }
    AnswersBefore(db, clock, CommitClock(rq, family, expires, next), c, db', reply);
  }

  lemma AnswersInvalidated(db: Db, clock: nat, rq: Request, family: Id, sweep: bool, until: int, db': Db, reply: Reply)
    requires var db1 := Invalidate(db, rq.prefix, family, clock);
             if sweep then Answers(db1, clock, SweepFind(rq, Inactive, Marked(rq, until)), db', reply) else db' == db1 && reply == Inactive
    ensures Answers(db, clock, InvalidateTx(rq, family, sweep, until), db', reply)
  {
    hide Answers, Invalidate;
    var c := NewChoice(db);
    if !sweep { AnswersDone(Invalidate(db, rq.prefix, family, clock), clock, rq.prefix, Inactive, Marked(rq, until)); }
    AnswersBefore(db, clock, InvalidateTx(rq, family, sweep, until), c, db', reply);
  }
}
