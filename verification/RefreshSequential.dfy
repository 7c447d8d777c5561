/**
A single call run to its end with nothing in between, and what the calls then achieve. With `breaks`
the transaction that invalidates or revokes the family fails and is rolled back.
*/
module RefreshSequential {
  import opened RefreshDb
  import opened RefreshInvariant
  import opened RefreshProtocol
  import opened RefreshEvolution

  function Rank(t: Task): nat {
    match t
    case RotateCall(_, _) => 9
    case RotateClock(_, _) => 8
    case RotateUpdate(_, _, _) => 7
    case RotateLookup(_, _) => 6
    case GetRefreshCall(_) => 7
    case GetRefreshAuthority(_, _) => 6
    case CommitClock(_, _, _, _) => 5
    case CommitTx(_, _, _, _) => 4
    case InvalidateTx(_, _, _, _) => 3
    case RevokeTx(_, _) => 3
    case SweepFind(_, _, _) => 2
    case Sweep(_, _, _, _) => 1
    case CheckCall(_, _) => 4
    case CheckAuthority(_, _, _) => 3
    case CheckFamily(_, _, _) => 2
    case CheckExpiry(_, _) => 1
    case DeleteRefreshCall(_) => 2
    case DeleteAccessCall(_) => 2
    case Done(_, _, _) => 0
    case _ => 1
  }

  function Left(t: Task): nat { if t.Sweep? then |t.todo| else 0 }

  ghost function Draw(t: Task, id: Id, uuid: Id, breaks: bool): Choice {
    var victim := if t.Sweep? && t.todo != {} then var r :| r in t.todo; r else Record(Key("", ""), NO_ID);
    Choice(id, uuid, victim, if breaks && (t.InvalidateTx? || t.RevokeTx?) then Abort else NoFault)
  }

  predicate Sooner(t': Task, t: Task) { Rank(t') < Rank(t) || (Rank(t') == Rank(t) && Left(t') < Left(t)) }

  lemma LooksEnd(db: Db, clock: int, t: Task)
    requires !Writes(t) && !t.Done?
    ensures Sooner(Look(db, clock, t), t)
  {
    hide RefreshOf, AccessOf, RecordsOf;
  }

  lemma WritesEnd(db: Db, clock: int, t: Task, c: Choice)
    requires Writes(t) && (t.Sweep? && t.todo != {} ==> c.victim in t.todo)
    ensures Sooner(Write(db, clock, t, c).1, t)
  {
    hide CreateAccess, CreateRefresh, Commit, MutateFamilies, RevokeByRequest, Invalidate, MarkRotated, DeleteAccessRecord;
    hide DeleteRefreshRecord;
    if t.Sweep? {
      if t.todo != {} { assert |t.todo - {c.victim}| == |t.todo| - 1; }
    } else if t.CommitTx? {
      match t.next case _ => assert Rank(AfterCommit(t.rq, t.expires, t.next)) < 4;
    }
  }

  lemma StepsEnd(db: Db, clock: int, t: Task, c: Choice)
    requires !t.Done? && (t.Sweep? && t.todo != {} ==> c.victim in t.todo)
    ensures Sooner(Exec(db, clock, t, c).1, t)
  {
    hide Look, Write;
    if Writes(t) { WritesEnd(db, clock, t, c); } else { LooksEnd(db, clock, t); }
  }

  /** The call run to its end at time `clock`, drawing `id` for a record and `uuid` for a family. */
  ghost function Alone(db: Db, clock: int, t: Task, id: Id, uuid: Id, breaks: bool): (Db, Task)
    decreases Rank(t), Left(t)
  {
    if t.Done? then (db, t)
    else
      StepsEnd(db, clock, t, Draw(t, id, uuid, breaks));
      var (db', t') := Exec(db, clock, t, Draw(t, id, uuid, breaks));
      Alone(db', clock, t', id, uuid, breaks)
  }

  // ----- stage by stage -----

  lemma {:induction false} SweepAlone(db: Db, clock: int, rq: Request, todo: set<Record>, reply: Reply, mark: Mark,
                                      id: Id, uuid: Id, breaks: bool)
    requires forall r :: r in todo ==> r.key in db.access && db.access[r.key].id == r.id
    ensures Alone(db, clock, Sweep(rq, todo, reply, mark), id, uuid, breaks)
            == (db.(access := db.access - (set r | r in todo :: r.key)), Done(rq.prefix, reply, mark))
    decreases |todo|
  {
    var t := Sweep(rq, todo, reply, mark);
    var c := Draw(t, id, uuid, breaks);
    if todo == {} {
      assert db.access - (set r | r in todo :: r.key) == db.access;
      assert Exec(db, clock, t, c) == (db, Done(rq.prefix, reply, mark));
    } else {
      var rest := todo - {c.victim};
      var db' := DeleteAccessRecord(db, c.victim.key, c.victim.id);
      assert Exec(db, clock, t, c) == (db', Sweep(rq, rest, reply, mark));
      forall r | r in rest ensures r.key in db'.access && db'.access[r.key].id == r.id {
        assert r.key != c.victim.key;
      }
      assert |rest| == |todo| - 1;
      SweepAlone(db', clock, rq, rest, reply, mark, id, uuid, breaks);
      assert db'.access - (set r | r in rest :: r.key) == db.access - (set r | r in todo :: r.key);
    }
  }

  /** deleteSessionModelsByRequestID removes every access row of the request. */
  lemma SweepFindAlone(db: Db, clock: int, rq: Request, reply: Reply, mark: Mark, id: Id, uuid: Id, breaks: bool)
    ensures Alone(db, clock, SweepFind(rq, reply, mark), id, uuid, breaks)
            == (WithoutAccessOf(db, rq), Done(rq.prefix, reply, mark))
  {
    var todo := RecordsOf(AccessOf(db, rq));
    SweepAlone(db, clock, rq, todo, reply, mark, id, uuid, breaks);
    assert (set r | r in todo :: r.key) == AccessOf(db, rq).Keys by {
      forall k | k in AccessOf(db, rq) ensures k in (set r | r in todo :: r.key) {
        assert Record(k, AccessOf(db, rq)[k].id) in todo;
      }
    }
  }

  lemma CommitAlone(db: Db, clock: int, rq: Request, family: Id, expires: int, next: Next, id: Id, uuid: Id, breaks: bool)
    ensures var until := Max(expires, Seconds(clock) + TOMBSTONE_LIFETIME);
            var (db', done) := Commit(db, rq, family, until, id);
            Alone(db, clock, CommitClock(rq, family, expires, next), id, uuid, breaks)
            == if done then Alone(db', clock, AfterCommit(rq, until, next), id, uuid, breaks)
               else (db', Done(rq.prefix, Failed, Unmarked))
  {
    hide Commit, Alone;
    var until := Max(expires, Seconds(clock) + TOMBSTONE_LIFETIME);
    AloneUnfolds(db, clock, CommitClock(rq, family, expires, next), id, uuid, breaks);
    AloneUnfolds(db, clock, CommitTx(rq, family, until, next), id, uuid, breaks);
    AloneEnds(Commit(db, rq, family, until, id).0, clock, Done(rq.prefix, Failed, Unmarked), id, uuid, breaks);
  }

  lemma InvalidateAlone(db: Db, clock: int, rq: Request, family: Id, sweep: bool, until: int, id: Id, uuid: Id, breaks: bool)
    ensures var db' := Invalidate(db, rq.prefix, family, clock);
            Alone(db, clock, InvalidateTx(rq, family, sweep, until), id, uuid, breaks)
            == if breaks then (db, Done(rq.prefix, Failed, Marked(rq, until)))
               else (if sweep then WithoutAccessOf(db', rq) else db', Done(rq.prefix, Inactive, Marked(rq, until)))
  {
    hide Invalidate;
    var t := InvalidateTx(rq, family, sweep, until);
    var db' := Invalidate(db, rq.prefix, family, clock);
    if breaks {
      assert Exec(db, clock, t, Draw(t, id, uuid, breaks)) == (db, Done(rq.prefix, Failed, Marked(rq, until)));
    } else {
      var t' := if sweep then SweepFind(rq, Inactive, Marked(rq, until)) else Done(rq.prefix, Inactive, Marked(rq, until));
      assert Exec(db, clock, t, Draw(t, id, uuid, breaks)) == (db', t');
      SweepFindAlone(db', clock, rq, Inactive, Marked(rq, until), id, uuid, breaks);
    }
  }

  lemma RevokeTxAlone(db: Db, clock: int, rq: Request, until: int, id: Id, uuid: Id, breaks: bool)
    ensures var (db', done) := RevokeByRequest(db, rq, clock);
            Alone(db, clock, RevokeTx(rq, until), id, uuid, breaks)
            == if breaks then (db, Done(rq.prefix, Failed, Marked(rq, until)))
               else (db', Done(rq.prefix, if done then Ok else Failed, Marked(rq, until)))
  {
    hide RevokeByRequest;
    var t := RevokeTx(rq, until);
    assert Exec(db, clock, t, Draw(t, id, uuid, breaks)).1.Done?;
  }

  /** A step of a call run alone. */
  lemma AloneUnfolds(db: Db, clock: int, t: Task, id: Id, uuid: Id, breaks: bool)
    requires !t.Done?
    ensures var (db', t') := Exec(db, clock, t, Draw(t, id, uuid, breaks));
            Alone(db, clock, t, id, uuid, breaks) == Alone(db', clock, t', id, uuid, breaks)
  {}

  lemma RotateAlone(db: Db, clock: int, rq: Request, signature: string, id: Id, uuid: Id, breaks: bool)
    ensures var (db', hit) := MarkRotated(db, Key(rq.prefix, signature), clock);
            Alone(db, clock, RotateCall(rq, signature), id, uuid, breaks)
            == if HasAuthority(db, rq) then (WithoutAccessOf(db, rq), Done(rq.prefix, Inactive, Unmarked))
               else if hit then (WithoutAccessOf(db', rq), Done(rq.prefix, Ok, Unmarked))
               else Alone(db, clock, AfterLookup(db, rq, signature), id, uuid, breaks)
  {
    hide Alone, WithoutAccessOf;
    var k := Key(rq.prefix, signature);
    var (db', hit) := MarkRotated(db, k, clock);
    AloneUnfolds(db, clock, RotateCall(rq, signature), id, uuid, breaks);
    if HasAuthority(db, rq) {
      SweepFindAlone(db, clock, rq, Inactive, Unmarked, id, uuid, breaks);
    } else {
      AloneUnfolds(db, clock, RotateClock(rq, signature), id, uuid, breaks);
      AloneUnfolds(db, clock, RotateUpdate(rq, signature, clock), id, uuid, breaks);
      SweepFindAlone(db', clock, rq, Ok, Unmarked, id, uuid, breaks);
      AloneUnfolds(db, clock, RotateLookup(rq, signature), id, uuid, breaks);
    }
  }

  lemma GetRefreshAlone(db: Db, clock: int, key: Key, id: Id, uuid: Id, breaks: bool)
    ensures Alone(db, clock, GetRefreshCall(key), id, uuid, breaks)
            == if key !in db.refresh then (db, Done(key.prefix, NotFound, Unmarked))
               else
                 var row := db.refresh[key];
                 var rq := RequestOfRow(key, row);
                 if HasAuthority(db, rq) then (db, Done(key.prefix, Inactive, Unmarked))
                 else if row.status.Active? then (db, Done(key.prefix, Found(row), Unmarked))
                 else Alone(db, clock, CommitClock(rq, row.family, row.expires, ThenInvalidate(row.family, false)), id, uuid, breaks)
  {
    hide Alone;
    AloneUnfolds(db, clock, GetRefreshCall(key), id, uuid, breaks);
    if key in db.refresh {
      AloneUnfolds(db, clock, GetRefreshAuthority(key, db.refresh[key]), id, uuid, breaks);
    }
    forall reply, mark ensures Alone(db, clock, Done(key.prefix, reply, mark), id, uuid, breaks) == (db, Done(key.prefix, reply, mark)) {
      AloneEnds(db, clock, Done(key.prefix, reply, mark), id, uuid, breaks);
    }
  }

  lemma AloneEnds(db: Db, clock: int, t: Task, id: Id, uuid: Id, breaks: bool)
    requires t.Done?
    ensures Alone(db, clock, t, id, uuid, breaks) == (db, t)
  {}
}
