/**
Safety of refresh families over every run: one family per request, what a record can become, the single
winner of a rotation, and what a tombstone shuts.
*/
module RefreshSafety {
  import opened RefreshDb
  import opened RefreshInvariant
  import opened RefreshProtocol
  import opened RefreshEvolution

  /** Where a row of the later database comes from. */
  lemma Births(db: Db, db': Db, now: int, k: Key)
    requires Evolves(db, db', now)
    ensures k in db.refresh && k in db'.refresh ==> RowMoves(db.refresh[k], db'.refresh[k])
    ensures k !in db.refresh && k in db'.refresh ==> RefreshBorn(db, db', k)
    ensures k !in db.access && k in db'.access ==> AccessBorn(db, db', k)
  {
    assert k in db.refresh && k in db'.refresh ==> RefreshKept(db, db', k);
  }

  // ----- one active row, one family -----

  /** From an empty store: at most one active refresh row per request, one non-empty family per request
      and one request per family. */
  lemma OneFamilyPerRequest(es: seq<Event>, rq: Request)
    requires Valid(START, es)
    ensures var db := After(START, es).db;
            var rows := RefreshOf(db, rq);
            && (forall j, k :: j in rows && k in rows && rows[j].status.Active? && rows[k].status.Active? ==> j == k)
            && (forall j, k :: j in rows && k in rows ==> rows[j].family == rows[k].family != NO_ID)
            && (forall j, k :: j in rows && k in db.refresh && db.refresh[k].family == rows[j].family ==> k in rows)
  {
    EmptyInv();
    RunKeepsInv(START, es);
    var db := After(START, es).db;
    var rows := RefreshOf(db, rq);
    forall j, k | j in rows && k in db.refresh
      ensures rows[j].family == db.refresh[k].family ==> k in rows
      ensures k in rows ==> rows[j].family == db.refresh[k].family
      ensures k in rows && rows[j].status.Active? && rows[k].status.Active? ==> j == k
    {
      assert PairInv(db, j, k);
    }
    forall k | k in rows ensures rows[k].family != NO_ID { assert RowInv(db, k); }
  }

  /** From an empty store a tombstone outlives every row of its request and names no other family. */
  lemma TombstoneCoversRequest(es: seq<Event>, rq: Request)
    requires Valid(START, es) && rq in After(START, es).db.tombs
    ensures var db := After(START, es).db;
            var rows, access, t := RefreshOf(db, rq), AccessOf(db, rq), db.tombs[rq];
            && (forall k :: k in rows ==> rows[k].expires <= t.expires && (t.family == NO_ID || t.family == rows[k].family))
            && (forall k :: k in access ==> access[k].expires <= t.expires)
  {
    EmptyInv();
    RunKeepsInv(START, es);
    var db := After(START, es).db;
    forall k | k in RefreshOf(db, rq) ensures RowInv(db, k) {}
    forall k | k in AccessOf(db, rq) ensures AccessInv(db, k) {}
  }

  /** From an empty store the corrupt-history branches of resolveRefreshLineage and the spanning-family
      branch of scopedRefreshArtifactAuthority are never taken. */
  lemma HistoryNeverCorrupt(es: seq<Event>, rq: Request, uuid: Id)
    requires Valid(START, es)
    ensures var db := After(START, es).db;
            && !IsCorrupt(RefreshOf(db, rq)) && !Spans(RefreshOf(db, rq))
            && (ResolveLineage(db, rq, uuid).Corrupt? <==> rq.id == "")
  {
    EmptyInv();
    RunKeepsInv(START, es);
    OneFamilyPerRequest(es, rq);
    var db := After(START, es).db;
    forall k | k in RefreshOf(db, rq) ensures RowInv(db, k) {}
    if rq.id != "" { NotCorrupt(db, rq, uuid); }
  }

  lemma NotCorrupt(db: Db, rq: Request, uuid: Id)
    requires Inv(db) && rq.id != ""
    requires !IsCorrupt(RefreshOf(db, rq))
    ensures !ResolveLineage(db, rq, uuid).Corrupt?
  {
    var rows := RefreshOf(db, rq);
    if rows != map[] && !HasTerminal(rows) && !HasActive(rows) {
      var k :| k in rows;
      assert rows[k].status.Rotated?;
      assert k in RotatedKeys(rows);
    }
  }

  // ----- what a record can become over a run -----

  /** Every record of the later database is either a record of the earlier one that moved as records may,
      or has an id that had not been drawn. */
  ghost predicate History(db: Db, db': Db) {
    && (forall id {:trigger id in db'.drawn} :: id in db.drawn ==> id in db'.drawn)
    && (forall k {:trigger db'.refresh[k]} :: k in db'.refresh ==>
          Fresh(db, db'.refresh[k].id) || (k in db.refresh && RowMoves(db.refresh[k], db'.refresh[k])))
    && (forall k {:trigger db'.access[k]} :: k in db'.access ==>
          Fresh(db, db'.access[k].id) || (k in db.access && db.access[k] == db'.access[k]))
    && (forall rq {:trigger db'.tombs[rq]} :: rq in db'.tombs ==>
          Fresh(db, db'.tombs[rq].id) || (rq in db.tombs && TombMoves(db.tombs[rq], db'.tombs[rq])))
  }

  lemma HistoryStep(db: Db, mid: Db, db': Db, now: int)
    requires History(db, mid) && Evolves(mid, db', now)
    ensures History(db, db')
  {
    forall k | k in db'.refresh
      ensures Fresh(db, db'.refresh[k].id) || (k in db.refresh && RowMoves(db.refresh[k], db'.refresh[k]))
    {
      if k in mid.refresh { assert RefreshKept(mid, db', k); } else { assert RefreshBorn(mid, db', k); }
    }
    forall k | k in db'.access
      ensures Fresh(db, db'.access[k].id) || (k in db.access && db.access[k] == db'.access[k])
    {
      if k !in mid.access { assert AccessBorn(mid, db', k); }
    }
    forall rq | rq in db'.tombs
      ensures Fresh(db, db'.tombs[rq].id) || (rq in db.tombs && TombMoves(db.tombs[rq], db'.tombs[rq]))
    {
      if rq in mid.tombs { assert TombKept(mid, db', rq); }
    }
  }

  /** Over any run a record is never confused with another: reused_at once set never changes, a terminal
      row stays terminal, a row once rotated is never active again, an access row never changes, and a
      tombstone's expiry never falls nor does its family change once set. */
  lemma {:induction false} RecordsOnlyMoveForward(s: Sys, es: seq<Event>)
    requires Inv(s.db) && Valid(s, es)
    ensures History(s.db, After(s, es).db)
  {
    if es == [] {
      assert forall k :: k in s.db.refresh ==> RowMoves(s.db.refresh[k], s.db.refresh[k]);
    } else {
      var before := es[..|es|-1];
      RecordsOnlyMoveForward(s, before);
      RunKeepsInv(s, before);
      StepEvolves(After(s, before), es[|es|-1]);
      HistoryStep(s.db, After(s, before).db, After(s, es).db, After(s, before).clock);
    }
  }

  /** A row that has left {active, rotated} is terminal for good and keeps its reused_at. */
  lemma TerminalForGood(s: Sys, es: seq<Event>, k: Key, k': Key)
    requires Inv(s.db) && Valid(s, es)
    requires k in s.db.refresh && IsTerminal(s.db.refresh[k].status)
    requires k' in After(s, es).db.refresh && After(s, es).db.refresh[k'].id == s.db.refresh[k].id
    ensures k' == k && IsTerminal(After(s, es).db.refresh[k].status)
    ensures s.db.refresh[k].reusedAt != 0 ==> After(s, es).db.refresh[k].reusedAt == s.db.refresh[k].reusedAt
  {
    RecordsOnlyMoveForward(s, es);
    assert RowInv(s.db, k);
    assert k' in s.db.refresh && RowMoves(s.db.refresh[k'], After(s, es).db.refresh[k']);
    assert PairInv(s.db, k, k');
  }

  /** The event is a conditional UPDATE that rotates the record `id`. */
  ghost predicate Wins(s: Sys, e: Event, id: Id)
    requires Enabled(s, e)
  {
    && e.Run? && s.threads[e.tid].RotateUpdate? && e.choice.fault.NoFault?
    && var k := Key(s.threads[e.tid].rq.prefix, s.threads[e.tid].signature);
       k in s.db.refresh && s.db.refresh[k].id == id && MarkRotated(s.db, k, s.threads[e.tid].at).1
  }

  /** However many rotations of one stored token run at once, at most one of them ever wins the row. */
  lemma AtMostOneWinner(s: Sys, first: Event, es: seq<Event>, second: Event, id: Id)
    requires Inv(s.db) && Enabled(s, first) && Wins(s, first, id)
    requires Valid(Step(s, first), es) && Enabled(After(Step(s, first), es), second)
    ensures !Wins(After(Step(s, first), es), second, id)
  {
    StepEvolves(s, first);
    var s1 := Step(s, first);
    RecordsOnlyMoveForward(s1, es);
    var k := Key(s.threads[first.tid].rq.prefix, s.threads[first.tid].signature);
    assert RowInv(s1.db, k);
    forall k' | k' in After(s1, es).db.refresh && After(s1, es).db.refresh[k'].id == id
      ensures !After(s1, es).db.refresh[k'].status.Active?
    {
      assert RowMoves(s1.db.refresh[k'], After(s1, es).db.refresh[k']);
      assert PairInv(s1.db, k, k');
    }
  }

  // ----- tombstones -----

  ghost predicate MarkHolds(s: Sys, m: Mark) {
    m.Marked? ==> (m.rq in s.db.tombs && m.until <= s.db.tombs[m.rq].expires) || m.until < Seconds(s.clock)
  }

  /** A call that committed a tombstone finds it in place at least until the expiry it asked for. */
  ghost predicate MarksHold(s: Sys) {
    forall tid {:trigger s.threads[tid]} :: tid in s.threads ==> MarkHolds(s, MarkOf(s.threads[tid]))
  }

  lemma MarkStep(s: Sys, e: Event, m: Mark)
    requires Inv(s.db) && Enabled(s, e) && MarkHolds(s, m)
    ensures MarkHolds(Step(s, e), m)
  {
    StepEvolves(s, e);
    var s' := Step(s, e);
    if m.Marked? && m.rq in s.db.tombs {
      if m.rq in s'.db.tombs { assert TombKept(s.db, s'.db, m.rq); }
      else { assert TombGone(s.db, s'.db, m.rq, s.clock); assert Seconds(s.clock) <= Seconds(s'.clock); }
    } else {
      assert Seconds(s.clock) <= Seconds(s'.clock);
    }
  }

  /** A mark is only ever made by the commit of its tombstone. */
  lemma NewMark(s: Sys, e: Event)
    requires Inv(s.db) && Enabled(s, e) && e.Run?
    ensures var m' := MarkOf(Step(s, e).threads[e.tid]);
            m' == MarkOf(s.threads[e.tid]) || m' == Unmarked || MarkHolds(Step(s, e), m')
  {
    hide Inv, MutateFamilies, CreateRefresh, RefreshOf, AccessOf;
    var t := s.threads[e.tid];
    var (db', t') := Exec(s.db, s.clock, t, e.choice);
    if t.CommitTx? && e.choice.fault.NoFault? {
      assert MarkOf(t').Marked? ==> t.rq in db'.tombs && t.expires <= db'.tombs[t.rq].expires;
    }
  }

  lemma {:induction false} MarksHoldOverRuns(s: Sys, es: seq<Event>)
    requires Inv(s.db) && MarksHold(s) && Valid(s, es)
    ensures MarksHold(After(s, es))
  {
    if es != [] {
      var mid, e := After(s, es[..|es|-1]), es[|es|-1];
      MarksHoldOverRuns(s, es[..|es|-1]);
      RunKeepsInv(s, es[..|es|-1]);
      forall tid | tid in Step(mid, e).threads ensures MarkHolds(Step(mid, e), MarkOf(Step(mid, e).threads[tid])) {
        if tid in mid.threads { MarkStep(mid, e, MarkOf(mid.threads[tid])); }
        if e.Run? && e.tid == tid { NewMark(mid, e); }
      }
    }
  }

  /** The tasks a rotation goes through once its UPDATE has affected no row. `floor` bounds from below the
      tombstone expiry it will ask for. */
  predicate Lost(t: Task, rq: Request, floor: int) {
    || (t.RotateLookup? && t.rq == rq)
    || (t.CommitClock? && t.rq == rq && !t.next.ThenRevoke?)
    || (t.CommitTx? && t.rq == rq && !t.next.ThenRevoke? && floor <= t.expires)
    || (t.InvalidateTx? && t.rq == rq && floor <= t.until)
    || ((t.SweepFind? || t.Sweep?) && t.rq == rq && t.reply.Inactive? && t.mark.Marked? && t.mark.rq == rq && floor <= t.mark.until)
    || (t.Done? && t.reply.Failed?)
    || (t.Done? && t.reply.Inactive? && t.mark.Marked? && t.mark.rq == rq && floor <= t.mark.until)
  }

  lemma {:induction false} LostStaysLost(s: Sys, es: seq<Event>, tid: nat, rq: Request)
    requires Inv(s.db) && Valid(s, es) && tid in s.threads
    requires Lost(s.threads[tid], rq, Seconds(s.clock) + 86_400)
    ensures tid in After(s, es).threads
    ensures Lost(After(s, es).threads[tid], rq, Seconds(s.clock) + 86_400)
  {
    if es != [] {
      var mid, e := After(s, es[..|es|-1]), es[|es|-1];
      LostStaysLost(s, es[..|es|-1], tid, rq);
      RunKeepsInv(s, es[..|es|-1]);
      assert Seconds(s.clock) <= Seconds(mid.clock);
      if e.Run? && e.tid == tid {
        LostExec(mid.db, mid.clock, mid.threads[tid], e.choice, rq, Seconds(s.clock) + 86_400);
      }
    }
  }

  lemma LostExec(db: Db, clock: int, t: Task, c: Choice, rq: Request, floor: int)
    requires Lost(t, rq, floor) && floor <= Seconds(clock) + 86_400
    ensures Lost(Exec(db, clock, t, c).1, rq, floor)
  {}

  /** A rotation whose UPDATE affected no row never succeeds, and once it answers ErrInactiveToken the
      tombstone stands for at least a day from the moment the row was lost. */
  lemma LosingRotation(s: Sys, es: seq<Event>, tid: nat)
    requires Inv(s.db) && MarksHold(s) && Valid(s, es)
    requires tid in s.threads && s.threads[tid].RotateLookup?
    ensures tid in After(s, es).threads
    ensures var s', rq := After(s, es), s.threads[tid].rq;
            s'.threads[tid].Done? ==>
              && (s'.threads[tid].reply.Failed? || s'.threads[tid].reply.Inactive?)
              && (s'.threads[tid].reply.Inactive? && Seconds(s'.clock) <= Seconds(s.clock) + 86_400 ==>
                    rq in s'.db.tombs && Seconds(s.clock) + 86_400 <= s'.db.tombs[rq].expires)
  {
    LostStaysLost(s, es, tid, s.threads[tid].rq);
    MarksHoldOverRuns(s, es);
    var s' := After(s, es);
    assert MarkHolds(s', MarkOf(s'.threads[tid]));
  }

  /** The rows of a request in the later database are among those of the earlier one. */
  ghost predicate NothingAdded(db: Db, db': Db, rq: Request) {
    RefreshOf(db', rq).Keys <= RefreshOf(db, rq).Keys && AccessOf(db', rq).Keys <= AccessOf(db, rq).Keys
  }

  /** While a tombstone stands, no step adds a refresh or an access row to its request. */
  lemma TombstoneShutsRequest(s: Sys, e: Event, rq: Request)
    requires Inv(s.db) && Enabled(s, e) && rq in s.db.tombs
    ensures NothingAdded(s.db, Step(s, e).db, rq)
  {
    StepEvolves(s, e);
    var db, db' := s.db, Step(s, e).db;
    assert TombInv(db, rq);
    forall k | k in RefreshOf(db', rq) ensures k in RefreshOf(db, rq) {
      Births(db, db', s.clock, k);
    }
    forall k | k in AccessOf(db', rq) ensures k in AccessOf(db, rq) {
      Births(db, db', s.clock, k);
    }
  }

  /** Until a tombstone's expiry has passed it stands, and nothing is added to its request: a winner paused
      between Rotate and Create commits neither an access nor a refresh row. */
  lemma {:induction false} GapStaysShut(s: Sys, es: seq<Event>, rq: Request)
    requires Inv(s.db) && Valid(s, es) && rq in s.db.tombs
    requires Seconds(After(s, es).clock) <= s.db.tombs[rq].expires
    ensures rq in After(s, es).db.tombs && s.db.tombs[rq].expires <= After(s, es).db.tombs[rq].expires
    ensures NothingAdded(s.db, After(s, es).db, rq)
  {
    if es != [] {
      var before := es[..|es|-1];
      var mid, e := After(s, before), es[|es|-1];
      RunKeepsInv(s, before);
      StepEvolves(mid, e);
      assert Seconds(mid.clock) <= Seconds(After(s, es).clock);
      GapStaysShut(s, before, rq);
      TombstoneShutsRequest(mid, e, rq);
      var m := Marked(rq, s.db.tombs[rq].expires);
      MarkStep(mid, e, m);
    }
  }

  /** Two rotations raced for one token and the loser has answered ErrInactiveToken: for a day from the
      moment it lost, the winner can add nothing to the request. */
  lemma WinnerCannotFinish(s: Sys, es: seq<Event>, tid: nat, more: seq<Event>)
    requires Inv(s.db) && MarksHold(s) && Valid(s, es)
    requires tid in s.threads && s.threads[tid].RotateLookup?
    requires tid in After(s, es).threads && After(s, es).threads[tid].Done? && After(s, es).threads[tid].reply.Inactive?
    requires Valid(After(s, es), more)
    requires Seconds(After(After(s, es), more).clock) <= Seconds(s.clock) + 86_400
    ensures NothingAdded(After(s, es).db, After(After(s, es), more).db, s.threads[tid].rq)
    ensures s.threads[tid].rq in After(After(s, es), more).db.tombs
  {
    var s' := After(s, es);
    RunKeepsInv(s, es);
    RunKeepsInv(s', more);
    assert Seconds(s'.clock) <= Seconds(After(s', more).clock);
    LosingRotation(s, es, tid);
    GapStaysShut(s', more, s.threads[tid].rq);
  }
}
