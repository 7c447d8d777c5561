/**
The life cycle of a request as an automaton whose moves are labelled with the steps that make them.
*/
module RefreshLifeCycle {
  import opened RefreshDb
  import opened RefreshInvariant
  import opened RefreshProtocol
  import opened RefreshEvolution

  datatype Phase = Unborn | Live | Gap | Dead

  ghost function PhaseOf(db: Db, rq: Request): Phase {
    var rows := RefreshOf(db, rq);
    if rq in db.tombs || HasTerminal(rows) then Dead
    else if HasActive(rows) then Live
    else if rows != map[] then Gap
    else Unborn
  }

  // ----- the labels -----

  /** The transaction of CreateRefreshTokenSession for the request. */
  predicate IsCreation(s: Sys, e: Event, rq: Request)
    requires Enabled(s, e)
  {
    e.Run? && e.choice.fault.NoFault? && s.threads[e.tid].CreateRefreshCall? && s.threads[e.tid].rq == rq
  }

  /** The conditional UPDATE that rotates the request's active row. */
  ghost predicate IsRotation(s: Sys, e: Event, rq: Request)
    requires Enabled(s, e)
  {
    && e.Run? && e.choice.fault.NoFault? && s.threads[e.tid].RotateUpdate?
    && var k := Key(s.threads[e.tid].rq.prefix, s.threads[e.tid].signature);
       k in RefreshOf(s.db, rq) && s.db.refresh[k].status.Active?
  }

  /** The deletion of one row, by DeleteRefreshTokenSession or because it has expired. */
  predicate IsRemoval(s: Sys, e: Event, k: Key)
    requires Enabled(s, e)
  {
    && k in s.db.refresh
    && match e
       case ExpireRefreshRow(key, at) => key == k && s.db.refresh[k].expires < Seconds(at)
       case Run(tid, c) =>
         c.fault.NoFault? && s.threads[tid].DeleteRefreshRow? && s.threads[tid].key == k && s.threads[tid].id == s.db.refresh[k].id
       case _ => false
  }

  /** The commit of the request's tombstone, the invalidation of its family, or its revocation. */
  ghost predicate IsCondemnation(s: Sys, e: Event, rq: Request)
    requires Enabled(s, e)
  {
    && e.Run? && e.choice.fault.NoFault?
    && var t := s.threads[e.tid];
       || (t.CommitTx? && t.rq == rq)
       || (t.InvalidateTx? && exists k :: k in RefreshOf(s.db, rq) && k.prefix == t.rq.prefix && s.db.refresh[k].family == t.family)
       || (t.RevokeTx? && t.rq == rq)
  }

  /** The cleanup of the request's expired tombstone. */
  predicate IsCleaning(s: Sys, e: Event, rq: Request) {
    e.CleanExpiredTombstone? && e.rq == rq && rq in s.db.tombs && s.db.tombs[rq].expires < Seconds(s.clock)
  }

  // ----- what a step does to a request -----

  ghost predicate Untouched(db: Db, db': Db, rq: Request) {
    RefreshOf(db', rq) == RefreshOf(db, rq) && (rq in db'.tombs <==> rq in db.tombs)
  }

  ghost predicate Adds(db: Db, db': Db, rq: Request) {
    && rq !in db.tombs && rq !in db'.tombs && !HasTerminal(RefreshOf(db, rq)) && !HasActive(RefreshOf(db, rq))
    && exists n, row: RefreshRow :: n !in db.refresh && row.status.Active? && RefreshOf(db', rq) == RefreshOf(db, rq)[n := row]
  }

  ghost predicate Turns(db: Db, db': Db, rq: Request) {
    && (rq in db'.tombs <==> rq in db.tombs)
    && exists k :: k in RefreshOf(db, rq) && db.refresh[k].status.Active? && k in db'.refresh && db'.refresh[k].status.Rotated?
               && RefreshOf(db', rq) == RefreshOf(db, rq)[k := db'.refresh[k]]
  }

  ghost predicate Drops(db: Db, db': Db, rq: Request, k: Key) {
    (rq in db'.tombs <==> rq in db.tombs) && k in RefreshOf(db, rq) && RefreshOf(db', rq) == RefreshOf(db, rq) - {k}
  }

  ghost predicate Condemned(db: Db, db': Db, rq: Request) {
    rq in db'.tombs || (RefreshOf(db', rq) != map[] && forall k :: k in RefreshOf(db', rq) ==> IsTerminal(RefreshOf(db', rq)[k].status))
  }

  ghost predicate Cleaned(db: Db, db': Db, rq: Request) {
    && rq in db.tombs && rq !in db'.tombs
    && RefreshOf(db, rq) == RefreshOf(db', rq) == map[] && AccessOf(db, rq) == AccessOf(db', rq) == map[]
  }

  /** Which effects a step can have, by its label. */
  ghost predicate Explained(s: Sys, e: Event, rq: Request)
    requires Enabled(s, e)
  {
    var db, db' := s.db, Step(s, e).db;
    || Untouched(db, db', rq)
    || (IsCreation(s, e, rq) && Adds(db, db', rq))
    || (IsRotation(s, e, rq) && Turns(db, db', rq))
    || (exists k :: IsRemoval(s, e, k) && Drops(db, db', rq, k))
    || (IsCondemnation(s, e, rq) && Condemned(db, db', rq))
    || (IsCleaning(s, e, rq) && Cleaned(db, db', rq))
  }

  lemma SameRows(db: Db, db': Db, rq: Request)
    requires db'.refresh == db.refresh && db'.tombs == db.tombs
    ensures Untouched(db, db', rq)
  {}

  lemma CreationExplained(s: Sys, e: Event, rq: Request)
    requires Inv(s.db) && Enabled(s, e) && e.Run? && e.choice.fault.NoFault? && s.threads[e.tid].CreateRefreshCall?
    ensures Explained(s, e, rq)
  {
    hide Inv, ResolveLineage, RefreshOf;
    var t, c := s.threads[e.tid], e.choice;
    var db, db' := s.db, Step(s, e).db;
    var l, n := ResolveLineage(db, t.rq, c.uuid), Key(t.rq.prefix, t.signature);
    if (l.Root? || l.Child?) && n !in db.refresh {
      ChildOfRotated(db, t.rq, c.uuid);
      InsertionTouches(db, db', t.rq, n, db'.refresh[n], rq);
    } else {
      SameRows(db, db', rq);
    }
  }

  lemma InsertionTouches(db: Db, db': Db, owner: Request, n: Key, row: RefreshRow, rq: Request)
    requires n !in db.refresh && db'.refresh == db.refresh[n := row] && db'.tombs == db.tombs
    requires RequestOfRow(n, row) == owner && row.status.Active? && owner !in db.tombs
    requires forall k :: k in db.refresh && k.prefix == owner.prefix && db.refresh[k].request == owner.id ==> db.refresh[k].status.Rotated?
    ensures if owner == rq then Adds(db, db', rq) else Untouched(db, db', rq)
  {
    if owner == rq {
      assert RefreshOf(db', rq) == RefreshOf(db, rq)[n := row];
    } else {
      assert RefreshOf(db', rq) == RefreshOf(db, rq);
    }
  }

  lemma RotationExplained(s: Sys, e: Event, rq: Request)
    requires Enabled(s, e) && e.Run? && e.choice.fault.NoFault? && s.threads[e.tid].RotateUpdate?
    ensures Explained(s, e, rq)
  {
    var k := Key(s.threads[e.tid].rq.prefix, s.threads[e.tid].signature);
    var db, db' := s.db, Step(s, e).db;
    if k in RefreshOf(db, rq) && db.refresh[k].status.Active? {
      assert RefreshOf(db', rq) == RefreshOf(db, rq)[k := db'.refresh[k]];
      assert Turns(db, db', rq);
    } else {
      assert RefreshOf(db', rq) == RefreshOf(db, rq);
    }
  }

  lemma RemovalExplained(s: Sys, e: Event, rq: Request, k: Key)
    requires Enabled(s, e) && IsRemoval(s, e, k)
    ensures Explained(s, e, rq)
  {
    var db, db' := s.db, Step(s, e).db;
    assert db' == db.(refresh := db.refresh - {k});
    if k in RefreshOf(db, rq) {
      assert RefreshOf(db', rq) == RefreshOf(db, rq) - {k};
      assert Drops(db, db', rq, k);
    } else {
      assert RefreshOf(db', rq) == RefreshOf(db, rq);
    }
  }

  lemma CommitExplained(s: Sys, e: Event, rq: Request)
    requires Enabled(s, e) && e.Run? && e.choice.fault.NoFault? && s.threads[e.tid].CommitTx?
    ensures Explained(s, e, rq)
  {
    hide AccessOf, ArtifactExpiry;
    var db, db' := s.db, Step(s, e).db;
    var t := s.threads[e.tid];
    assert db'.refresh == db.refresh;
    assert RefreshOf(db', rq) == RefreshOf(db, rq);
    if t.rq == rq && rq in db'.tombs { assert Condemned(db, db', rq); } else { assert Untouched(db, db', rq); }
  }

  /** Condemning families turns all rows of a request terminal, or touches none of them. */
  lemma MutationTouchesAllOrNone(db: Db, prefix: string, families: set<Id>, status: Status, now: int, rq: Request)
    requires Inv(db) && IsTerminal(status)
    ensures var db' := MutateFamilies(db, prefix, families, status, now);
            if exists k :: k in RefreshOf(db, rq) && k.prefix == prefix && db.refresh[k].family in families
            then Condemned(db, db', rq) else Untouched(db, db', rq)
  {
    var db' := MutateFamilies(db, prefix, families, status, now);
    assert RefreshOf(db', rq).Keys == RefreshOf(db, rq).Keys;
    if w :| w in RefreshOf(db, rq) && w.prefix == prefix && db.refresh[w].family in families {
      forall k | k in RefreshOf(db', rq) ensures IsTerminal(db'.refresh[k].status) { assert PairInv(db, w, k); }
      assert w in RefreshOf(db', rq);
    } else {
      assert RefreshOf(db', rq) == RefreshOf(db, rq);
    }
  }

  lemma InvalidationExplained(s: Sys, e: Event, rq: Request)
    requires Inv(s.db) && Enabled(s, e) && e.Run? && e.choice.fault.NoFault? && s.threads[e.tid].InvalidateTx?
    ensures Explained(s, e, rq)
  {
    hide MutateFamilies, Condemned, Inv;
    var t := s.threads[e.tid];
    if t.family == NO_ID { SameRows(s.db, Step(s, e).db, rq); }
    else { MutationTouchesAllOrNone(s.db, t.rq.prefix, {t.family}, Reused, s.clock, rq); }
  }

  lemma RevocationExplained(s: Sys, e: Event, rq: Request)
    requires Inv(s.db) && Enabled(s, e) && e.Run? && e.choice.fault.NoFault? && s.threads[e.tid].RevokeTx?
    ensures Explained(s, e, rq)
  {
    hide MutateFamilies, Condemned;
    var t := s.threads[e.tid];
    var families := FamiliesOf(RefreshOf(s.db, t.rq));
    if NO_ID in families {
      SameRows(s.db, Step(s, e).db, rq);
    } else {
      MutationTouchesAllOrNone(s.db, t.rq.prefix, families, Revoked, s.clock, rq);
      if k :| k in RefreshOf(s.db, rq) && k.prefix == t.rq.prefix && s.db.refresh[k].family in families {
        var j :| j in RefreshOf(s.db, t.rq) && s.db.refresh[j].family == s.db.refresh[k].family;
        assert PairInv(s.db, j, k);
      }
    }
  }

  lemma CleaningExplained(s: Sys, e: Event, rq: Request)
    requires Inv(s.db) && Enabled(s, e) && e.CleanExpiredTombstone?
    ensures Explained(s, e, rq)
  {
    hide Inv;
    var db, db' := s.db, Step(s, e).db;
    assert Seconds(e.at) <= Seconds(s.clock);
    assert RefreshOf(db', rq) == RefreshOf(db, rq) && AccessOf(db', rq) == AccessOf(db, rq);
    if rq in db.tombs && rq !in db'.tombs { assert Cleaned(db, db', rq); } else { assert Untouched(db, db', rq); }
  }

  lemma StepExplained(s: Sys, e: Event, rq: Request)
    requires Inv(s.db) && Enabled(s, e)
    ensures Explained(s, e, rq)
  {
    hide Inv, Explained, Commit, CreateRefresh, MutateFamilies, RefreshOf, CleanTombstone;
    match e
    case CleanExpiredTombstone(_, _, _) => CleaningExplained(s, e, rq);
    case ExpireRefreshRow(key, at) =>
      if IsRemoval(s, e, key) { RemovalExplained(s, e, rq, key); } else { UntouchedExplains(s, e, rq); }
    case Run(tid, c) =>
      var t := s.threads[tid];
      if c.fault.NoFault? && t.CreateRefreshCall? { CreationExplained(s, e, rq); }
      else if c.fault.NoFault? && t.RotateUpdate? { RotationExplained(s, e, rq); }
      else if c.fault.NoFault? && t.CommitTx? { CommitExplained(s, e, rq); }
      else if c.fault.NoFault? && t.InvalidateTx? { InvalidationExplained(s, e, rq); }
      else if c.fault.NoFault? && t.RevokeTx? { RevocationExplained(s, e, rq); }
      else if t.DeleteRefreshRow? && IsRemoval(s, e, t.key) { RemovalExplained(s, e, rq, t.key); }
      else { UntouchedExplains(s, e, rq); }
    case _ => UntouchedExplains(s, e, rq);
  }

  lemma UntouchedExplains(s: Sys, e: Event, rq: Request)
    requires Enabled(s, e) && Step(s, e).db.refresh == s.db.refresh && Step(s, e).db.tombs == s.db.tombs
    ensures Explained(s, e, rq)
  {
    SameRows(s.db, Step(s, e).db, rq);
  }

  // ----- the automaton -----

  /** The moves of the automaton, each with the only steps that make it. */
  ghost predicate Moves(s: Sys, e: Event, rq: Request)
    requires Enabled(s, e)
  {
    var db, db' := s.db, Step(s, e).db;
    var a, b, rows := PhaseOf(db, rq), PhaseOf(db', rq), RefreshOf(db, rq);
    a == b
    || match b
       case Live => (a.Unborn? || a.Gap?) && IsCreation(s, e, rq)
       case Gap => a.Live? && (IsRotation(s, e, rq) || exists k :: k in rows && rows[k].status.Active? && IsRemoval(s, e, k))
       case Unborn =>
         if rq in db.tombs then IsCleaning(s, e, rq) && AccessOf(db', rq) == map[]
         else exists k :: rows.Keys == {k} && IsRemoval(s, e, k)
       case Dead => IsCondemnation(s, e, rq)
  }

  lemma AddedLives(db: Db, db': Db, rq: Request)
    requires Adds(db, db', rq)
    ensures (PhaseOf(db, rq).Unborn? || PhaseOf(db, rq).Gap?) && PhaseOf(db', rq).Live?
  {
    var n, row: RefreshRow :| n !in db.refresh && row.status.Active? && RefreshOf(db', rq) == RefreshOf(db, rq)[n := row];
    var rows, rows' := RefreshOf(db, rq), RefreshOf(db', rq);
    assert rows'[n].status.Active?;
    forall k | k in rows' ensures !IsTerminal(rows'[k].status) { assert k != n ==> k in rows; }
  }

  lemma TurnedGap(db: Db, db': Db, rq: Request)
    requires Inv(db) && Turns(db, db', rq)
    ensures PhaseOf(db, rq) == PhaseOf(db', rq) == Dead || (PhaseOf(db, rq).Live? && PhaseOf(db', rq).Gap?)
  {
    var rows, rows' := RefreshOf(db, rq), RefreshOf(db', rq);
    var k :| k in rows && db.refresh[k].status.Active? && k in db'.refresh && db'.refresh[k].status.Rotated?
             && rows' == rows[k := db'.refresh[k]];
    forall j | j in rows' ensures !rows'[j].status.Active? { assert PairInv(db, j, k); }
    assert rows[k].status.Active? && rows'[k].status.Rotated?;
    forall j | j in rows && IsTerminal(rows[j].status) ensures j in rows' && IsTerminal(rows'[j].status) {}
    forall j | j in rows' && IsTerminal(rows'[j].status) ensures j in rows && IsTerminal(rows[j].status) {}
  }

  lemma DroppedMoves(db: Db, db': Db, rq: Request, k: Key)
    requires Inv(db) && Drops(db, db', rq, k)
    ensures var a, b := PhaseOf(db, rq), PhaseOf(db', rq);
            || a == b
            || (b.Gap? && a.Live? && db.refresh[k].status.Active?)
            || (b.Unborn? && rq !in db.tombs && RefreshOf(db, rq).Keys == {k})
  {
    var rows, rows' := RefreshOf(db, rq), RefreshOf(db', rq);
    forall j | j in rows' ensures j in rows && rows'[j] == rows[j] && j != k {}
    forall j | j in rows && j != k ensures j in rows' && PairInv(db, j, k) {}
    if rows' == map[] { assert rows.Keys == {k}; }
  }

  lemma RotationOpensGap(s: Sys, e: Event, rq: Request)
    requires Inv(s.db) && Enabled(s, e) && IsRotation(s, e, rq) && PhaseOf(s.db, rq).Live?
    ensures PhaseOf(Step(s, e).db, rq).Gap?
  {
    hide Inv, PhaseOf;
    var db, db' := s.db, Step(s, e).db;
    var k := Key(s.threads[e.tid].rq.prefix, s.threads[e.tid].signature);
    assert RefreshOf(db', rq) == RefreshOf(db, rq)[k := db'.refresh[k]];
    assert Turns(db, db', rq);
    TurnedGap(db, db', rq);
  }

  lemma UntouchedStays(db: Db, db': Db, rq: Request)
    requires Untouched(db, db', rq)
    ensures PhaseOf(db', rq) == PhaseOf(db, rq)
  {}

  lemma CondemnedDies(db: Db, db': Db, rq: Request)
    requires Condemned(db, db', rq)
    ensures PhaseOf(db', rq).Dead?
  {
    if rq !in db'.tombs { var k :| k in RefreshOf(db', rq); }
  }

  lemma CleanedForgets(db: Db, db': Db, rq: Request)
    requires Cleaned(db, db', rq)
    ensures PhaseOf(db', rq).Unborn? && rq in db.tombs && AccessOf(db', rq) == map[]
  {}

  lemma ExplainedMoves(s: Sys, e: Event, rq: Request)
    requires Inv(s.db) && Enabled(s, e) && Explained(s, e, rq)
    ensures Moves(s, e, rq)
  {
    hide Step, IsRotation, IsRemoval, IsCreation, IsCondemnation, IsCleaning, Untouched, Adds, Turns, Drops, Condemned, Cleaned, PhaseOf, Inv;
    var db, db' := s.db, Step(s, e).db;
    if Untouched(db, db', rq) { UntouchedStays(db, db', rq); }
    else if IsCreation(s, e, rq) && Adds(db, db', rq) { AddedLives(db, db', rq); }
    else if IsRotation(s, e, rq) && Turns(db, db', rq) { TurnedGap(db, db', rq); }
    else if IsCondemnation(s, e, rq) && Condemned(db, db', rq) { CondemnedDies(db, db', rq); }
    else if IsCleaning(s, e, rq) && Cleaned(db, db', rq) { CleanedForgets(db, db', rq); }
    else {
      var k :| IsRemoval(s, e, k) && Drops(db, db', rq, k);
      DroppedMoves(db, db', rq, k);
      assert k in RefreshOf(db, rq) && RefreshOf(db, rq)[k] == db.refresh[k] by { DropsOwn(db, db', rq, k); }
    }
  }

  lemma DropsOwn(db: Db, db': Db, rq: Request, k: Key)
    requires Drops(db, db', rq, k)
    ensures k in RefreshOf(db, rq) && RefreshOf(db, rq)[k] == db.refresh[k]
  {}

  /** Under every interleaving each step of each request is a labelled move of the automaton: a request
      comes to life only when a refresh row is created for it while it is unborn or in the gap; it falls into
      the gap only when its active row is rotated or deleted; it dies only by a commit of its tombstone, an
      invalidation of its family or its revocation; and it is forgotten only with its last refresh row, or,
      if it died under a tombstone, when that is cleaned up and no row of either kind is left. */
  lemma RequestLifeCycle(es: seq<Event>, e: Event, rq: Request)
    requires Valid(START, es) && Enabled(After(START, es), e)
    ensures Moves(After(START, es), e, rq)
    ensures IsRotation(After(START, es), e, rq) && PhaseOf(After(START, es).db, rq).Live? ==>
              PhaseOf(Step(After(START, es), e).db, rq).Gap?
  {
    hide Moves, Explained, Inv;
    EmptyInv();
    RunKeepsInv(START, es);
    StepExplained(After(START, es), e, rq);
    ExplainedMoves(After(START, es), e, rq);
    if IsRotation(After(START, es), e, rq) && PhaseOf(After(START, es).db, rq).Live? { RotationOpensGap(After(START, es), e, rq); }
  }
}
