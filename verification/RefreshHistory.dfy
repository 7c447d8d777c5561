/**
What the history of a run says about whole calls: what the answer of a rotation means, and how long the
tombstones that the calls leave are bound to last.
*/
module RefreshHistory {
  import opened RefreshDb
  import opened RefreshInvariant
  import opened RefreshProtocol
  import opened RefreshEvolution
  import opened RefreshSafety

  /** The state before the n-th event of the run. */
  ghost function At(s: Sys, es: seq<Event>, n: nat): Sys
    requires Valid(s, es) && n <= |es|
  {
    PrefixIsRun(s, es, n);
    After(s, es[..n])
  }

  lemma AtExtends(s: Sys, es: seq<Event>, n: nat)
    requires es != [] && Valid(s, es) && n < |es|
    ensures Valid(s, es[..|es|-1]) && At(s, es, n) == At(s, es[..|es|-1], n)
    ensures Enabled(At(s, es, n), es[n]) && Step(At(s, es, n), es[n]) == At(s, es, n + 1)
  {
    assert es[..|es|-1][..n] == es[..n];
    PrefixIsRun(s, es, n + 1);
    assert es[..n + 1][..n] == es[..n];
  }

  lemma AtEnd(s: Sys, es: seq<Event>)
    requires Valid(s, es)
    ensures At(s, es, |es|) == After(s, es)
  {
    assert es[..|es|] == es;
  }

  // ----- rotations -----

  predicate Begun(es: seq<Event>, tid: nat, t: Task) { exists i :: 0 <= i < |es| && es[i] == Spawn(tid, t) }

  /** The request had its tombstone at some moment at which the call was in progress. */
  ghost predicate SawTombstone(s: Sys, es: seq<Event>, tid: nat, rq: Request)
    requires Valid(s, es)
  {
    exists n :: 0 <= n <= |es| && tid in At(s, es, n).threads && rq in At(s, es, n).db.tombs
  }

  /** The n-th event is the call's conditional UPDATE, and it rotated the record stored under the key. */
  ghost predicate WonAt(s: Sys, es: seq<Event>, tid: nat, key: Key, n: nat)
    requires Valid(s, es)
  {
    && n < |es| && es[n].Run? && es[n].tid == tid
    && key in At(s, es, n).db.refresh
    && Enabled(At(s, es, n), es[n]) && Wins(At(s, es, n), es[n], At(s, es, n).db.refresh[key].id)
  }

  ghost predicate HasWon(s: Sys, es: seq<Event>, tid: nat, key: Key)
    requires Valid(s, es)
  {
    exists n :: WonAt(s, es, tid, key, n)
  }

  /** Where a rotation can stand, given whether it has won its row and whether it has seen the tombstone. */
  predicate Stands(t: Task, rq: Request, signature: string, won: bool, saw: bool) {
    match t
    case RotateCall(r, g) => r == rq && g == signature
    case RotateClock(r, g) => r == rq && g == signature
    case RotateUpdate(r, g, _) => r == rq && g == signature
    case RotateLookup(r, _) => r == rq
    case CommitClock(r, _, _, next) => r == rq && !next.ThenRevoke?
    case CommitTx(r, _, _, next) => r == rq && !next.ThenRevoke?
    case InvalidateTx(r, _, _, _) => r == rq && saw
    case SweepFind(r, reply, _) => if reply.Ok? then won else reply.Inactive? && saw
    case Sweep(r, _, reply, _) => if reply.Ok? then won else reply.Inactive? && saw
    case Done(_, reply, _) => if reply.Ok? then won else reply.Failed? || (reply.Inactive? && saw)
    case _ => false
  }

  ghost predicate Tracks(s: Sys, es: seq<Event>, tid: nat, rq: Request, signature: string)
    requires Valid(s, es) && tid in After(s, es).threads
  {
    Stands(After(s, es).threads[tid], rq, signature, HasWon(s, es, tid, Key(rq.prefix, signature)), SawTombstone(s, es, tid, rq))
  }

  lemma StandsOn(db: Db, clock: int, t: Task, c: Choice, rq: Request, signature: string, won: bool, saw: bool)
    requires Stands(t, rq, signature, won, saw)
    ensures var (db', t') := Exec(db, clock, t, c);
            Stands(t', rq, signature,
                   won || (t.RotateUpdate? && c.fault.NoFault? && MarkRotated(db, Key(rq.prefix, signature), t.at).1),
                   saw || (t.RotateCall? && HasAuthority(db, rq)) || (t.CommitTx? && rq in db'.tombs))
  {
    hide RefreshOf, AccessOf, RecordsOf, MutateFamilies, ArtifactExpiry, Spans;
  }

  lemma HistoryGrows(s: Sys, es: seq<Event>, tid: nat, rq: Request, key: Key)
    requires es != [] && Valid(s, es)
    ensures SawTombstone(s, es[..|es|-1], tid, rq) ==> SawTombstone(s, es, tid, rq)
    ensures HasWon(s, es[..|es|-1], tid, key) ==> HasWon(s, es, tid, key)
  {
    hide At, Wins;
    var before := es[..|es|-1];
    if SawTombstone(s, before, tid, rq) {
      var n :| 0 <= n <= |before| && tid in At(s, before, n).threads && rq in At(s, before, n).db.tombs;
      AtExtends(s, es, n);
      assert tid in At(s, es, n).threads;
    }
    if HasWon(s, before, tid, key) {
      var n :| WonAt(s, before, tid, key, n);
      AtExtends(s, es, n);
      assert WonAt(s, es, tid, key, n);
    }
  }

  lemma SeenAt(s: Sys, es: seq<Event>, tid: nat, rq: Request, n: nat)
    requires Valid(s, es) && n <= |es| && tid in At(s, es, n).threads && rq in At(s, es, n).db.tombs
    ensures SawTombstone(s, es, tid, rq)
  {}

  /** One step of the rotation itself. */
  lemma TracksExec(s: Sys, es: seq<Event>, tid: nat, rq: Request, signature: string)
    requires es != [] && Valid(s, es) && es[|es|-1].Run? && es[|es|-1].tid == tid
    requires tid in After(s, es[..|es|-1]).threads && Tracks(s, es[..|es|-1], tid, rq, signature)
    ensures tid in After(s, es).threads && Tracks(s, es, tid, rq, signature)
  {
    hide At, SawTombstone, HasWon, Exec, Stands;
    var n := |es| - 1;
    var e, mid, key := es[n], After(s, es[..n]), Key(rq.prefix, signature);
    HistoryGrows(s, es, tid, rq, key);
    AtExtends(s, es, n);
    AtEnd(s, es[..n]);
    AtEnd(s, es);
    var t := mid.threads[tid];
    var won, saw := HasWon(s, es[..n], tid, key), SawTombstone(s, es[..n], tid, rq);
    StandsOn(mid.db, mid.clock, t, e.choice, rq, signature, won, saw);
    if t.RotateCall? && HasAuthority(mid.db, rq) { SeenAt(s, es, tid, rq, n); }
    if t.CommitTx? && rq in After(s, es).db.tombs { SeenAt(s, es, tid, rq, n + 1); }
    if t.RotateUpdate? && e.choice.fault.NoFault? && MarkRotated(mid.db, key, t.at).1 {
      assert t.rq == rq && t.signature == signature by { StandsAtUpdate(t, rq, signature, won, saw); }
      assert WonAt(s, es, tid, key, n);
      WinIsKept(s, es, tid, key, n);
    }
    MoreStands(After(s, es).threads[tid], rq, signature);
  }

  lemma StandsAtUpdate(t: Task, rq: Request, signature: string, won: bool, saw: bool)
    requires t.RotateUpdate? && Stands(t, rq, signature, won, saw)
    ensures t.rq == rq && t.signature == signature
  {}

  lemma MoreStands(t: Task, rq: Request, signature: string)
    ensures forall won, saw, won', saw' :: Stands(t, rq, signature, won, saw) && (won ==> won') && (saw ==> saw') ==>
              Stands(t, rq, signature, won', saw')
  {}

  lemma WinIsKept(s: Sys, es: seq<Event>, tid: nat, key: Key, n: nat)
    requires Valid(s, es) && WonAt(s, es, tid, key, n)
    ensures HasWon(s, es, tid, key)
  {}

  lemma {:induction false} RotationTracked(s: Sys, es: seq<Event>, tid: nat, rq: Request, signature: string)
    requires Valid(s, es) && tid !in s.threads && Begun(es, tid, RotateCall(rq, signature))
    ensures tid in After(s, es).threads && Tracks(s, es, tid, rq, signature)
    decreases |es|
  {
    hide SawTombstone, HasWon, Exec, Stands;
    var i :| 0 <= i < |es| && es[i] == Spawn(tid, RotateCall(rq, signature));
    var before, e := es[..|es|-1], es[|es|-1];
    if i < |es| - 1 {
      assert before[i] == es[i];
      RotationTracked(s, before, tid, rq, signature);
      HistoryGrows(s, es, tid, rq, Key(rq.prefix, signature));
      if e.Run? && e.tid == tid {
        TracksExec(s, es, tid, rq, signature);
      } else {
        assert After(s, es).threads[tid] == After(s, before).threads[tid];
        MoreStands(After(s, es).threads[tid], rq, signature);
      }
    } else {
      assert After(s, es).threads[tid] == RotateCall(rq, signature);
      CallStands(rq, signature);
    }
  }

  lemma CallStands(rq: Request, signature: string)
    ensures forall won, saw :: Stands(RotateCall(rq, signature), rq, signature, won, saw)
  {}

  /** What the answer of a rotation means: success, that its own UPDATE rotated the record stored under the
      token; ErrInactiveToken, that the request had its tombstone at some moment of the call; and there is
      no other answer but failure. */
  lemma RotationAnswers(s: Sys, es: seq<Event>, tid: nat, rq: Request, signature: string)
    requires Valid(s, es) && tid !in s.threads && Begun(es, tid, RotateCall(rq, signature))
    ensures tid in After(s, es).threads
    ensures var t := After(s, es).threads[tid];
            t.Done? ==>
              && (t.reply.Ok? || t.reply.Inactive? || t.reply.Failed?)
              && (t.reply.Ok? ==> HasWon(s, es, tid, Key(rq.prefix, signature)))
              && (t.reply.Inactive? ==> SawTombstone(s, es, tid, rq))
  {
    RotationTracked(s, es, tid, rq, signature);
  }

  /** The run stores one record only under the key. */
  ghost predicate IsSoleRecord(s: Sys, es: seq<Event>, key: Key, id: Id)
    requires Valid(s, es)
  {
    forall n :: 0 <= n <= |es| && key in At(s, es, n).db.refresh ==> At(s, es, n).db.refresh[key].id == id
  }

  lemma {:induction false} NoSecondWin(s: Sys, es: seq<Event>, key: Key, id: Id, i: nat, j: nat, a: nat, b: nat)
    requires Inv(s.db) && Valid(s, es) && IsSoleRecord(s, es, key, id)
    requires WonAt(s, es, a, key, i) && WonAt(s, es, b, key, j)
    ensures i >= j
  {
    if i < j {
      PrefixIsRun(s, es, i);
      PrefixIsRun(s, es, j);
      PrefixIsRun(s, es[..j], i + 1);
      assert es[..j][..i + 1] == es[..i + 1] && es[..i + 1][..i] == es[..i];
      hide Step, Wins;
      RunKeepsInv(s, es[..i]);
      AtMostOneWinner(At(s, es, i), es[i], es[..j][i + 1..], es[j], id);
    }
  }

  /** However many RotateRefreshToken calls for one stored token run at once, at most one succeeds. */
  lemma OneRotationSucceeds(s: Sys, es: seq<Event>, key: Key, id: Id, a: nat, b: nat, ra: Request, rb: Request)
    requires Inv(s.db) && Valid(s, es) && IsSoleRecord(s, es, key, id)
    requires a !in s.threads && b !in s.threads && ra.prefix == rb.prefix == key.prefix
    requires Begun(es, a, RotateCall(ra, key.signature)) && Begun(es, b, RotateCall(rb, key.signature))
    requires a in After(s, es).threads && After(s, es).threads[a].Done? && After(s, es).threads[a].reply.Ok?
    requires b in After(s, es).threads && After(s, es).threads[b].Done? && After(s, es).threads[b].reply.Ok?
    ensures a == b
  {
    hide IsSoleRecord, WonAt;
    RotationAnswers(s, es, a, ra, key.signature);
    RotationAnswers(s, es, b, rb, key.signature);
    var i :| WonAt(s, es, a, key, i);
    var j :| WonAt(s, es, b, key, j);
    NoSecondWin(s, es, key, id, i, j, a, b);
    NoSecondWin(s, es, key, id, j, i, b, a);
    SameWinner(s, es, key, i, a, b);
  }

  lemma SameWinner(s: Sys, es: seq<Event>, key: Key, n: nat, a: nat, b: nat)
    requires Valid(s, es)
    ensures WonAt(s, es, a, key, n) && WonAt(s, es, b, key, n) ==> a == b
  {}

  // ----- the lifetime of tombstones -----

  /** The call read the clock at the n-th event, and `until` lies at least a day after that. */
  ghost predicate AskedAt(s: Sys, es: seq<Event>, tid: nat, until: int, n: nat)
    requires Valid(s, es)
  {
    && n < |es| && es[n].Run? && es[n].tid == tid
    && tid in At(s, es, n).threads && At(s, es, n).threads[tid].CommitClock?
    && Seconds(At(s, es, n).clock) + 86_400 <= until
  }

  lemma AskedGrows(s: Sys, es: seq<Event>, tid: nat, until: int, n: nat)
    requires es != [] && Valid(s, es) && AskedAt(s, es[..|es|-1], tid, until, n)
    ensures AskedAt(s, es, tid, until, n)
  {
    AtExtends(s, es, n);
  }

  /** A call about to commit a tombstone has read the clock for it. */
  lemma {:induction false} CommitHasAsked(es: seq<Event>, tid: nat) returns (n: nat)
    requires Valid(START, es) && tid in After(START, es).threads && After(START, es).threads[tid].CommitTx?
    ensures AskedAt(START, es, tid, After(START, es).threads[tid].expires, n)
    decreases |es|
  {
    hide At, MutateFamilies, RefreshOf, AccessOf;
    assert es != [];
    var before, e := es[..|es|-1], es[|es|-1];
    var t' := After(START, es).threads[tid];
    if e.Run? && e.tid == tid {
      n := |es| - 1;
      AtExtends(START, es, n);
      AtEnd(START, before);
      OnlyFromClock(After(START, before), e);
    } else {
      assert tid in After(START, before).threads && After(START, before).threads[tid] == t';
      n := CommitHasAsked(before, tid);
      AskedGrows(START, es, tid, t'.expires, n);
    }
  }

  lemma OnlyFromClock(s: Sys, e: Event)
    requires Enabled(s, e) && e.Run? && Step(s, e).threads[e.tid].CommitTx?
    ensures s.threads[e.tid].CommitClock? && Seconds(s.clock) + 86_400 <= Step(s, e).threads[e.tid].expires
  {}

  /** How a step can change a tombstone. */
  lemma TombstoneSteps(s: Sys, e: Event, rq: Request)
    requires Inv(s.db) && Enabled(s, e)
    ensures var tombs, tombs' := s.db.tombs, Step(s, e).db.tombs;
            && (rq in tombs && rq !in tombs' ==>
                  e.CleanExpiredTombstone? && e.rq == rq && tombs[rq].expires < Seconds(s.clock)
                  && RefreshOf(s.db, rq) == map[] && AccessOf(s.db, rq) == map[])
            && (rq in tombs && rq in tombs' && tombs'[rq].expires != tombs[rq].expires && !e.Run? ==>
                  e.CleanExpiredTombstone? && Seconds(s.clock) + 86_400 <= tombs'[rq].expires)
            && (rq in tombs' && (rq !in tombs || tombs'[rq].expires != tombs[rq].expires) && e.Run? ==>
                  s.threads[e.tid].CommitTx? && s.threads[e.tid].expires <= tombs'[rq].expires)
            && (rq in tombs' && rq !in tombs ==> e.Run?)
  {
    hide RefreshOf, AccessOf, Inv, Exec;
    if e.Run? { RunTombstones(s.db, s.clock, s.threads[e.tid], e.choice, rq); }
    if rq in s.db.tombs && rq !in Step(s, e).db.tombs {
      StepEvolves(s, e);
      assert TombGone(s.db, Step(s, e).db, rq, s.clock);
    }
  }

  lemma RunTombstones(db: Db, clock: int, t: Task, c: Choice, rq: Request)
    ensures var db' := Exec(db, clock, t, c).0;
            && (rq in db.tombs ==> rq in db'.tombs)
            && (rq in db'.tombs && (rq !in db.tombs || db'.tombs[rq].expires != db.tombs[rq].expires) ==>
                  t.CommitTx? && t.expires <= db'.tombs[rq].expires)
  {
    hide RefreshOf, AccessOf, ArtifactExpiry, RequestsOf, ResolveLineage, Spans;
  }

  /** Over every run: a tombstone comes into being, or gets a new expiry, only by a commit, which sets it at
      least a day after a reading of the clock made by the same call, or by an extension of the cleanup job,
      which sets it at least a day ahead; and it goes only when it has expired and its request has no row. */
  lemma TombstonesLastADay(es: seq<Event>, e: Event, rq: Request)
    requires Valid(START, es) && Enabled(After(START, es), e)
    ensures var s := After(START, es);
            var tombs, tombs' := s.db.tombs, Step(s, e).db.tombs;
            && (rq in tombs && rq !in tombs' ==>
                  tombs[rq].expires < Seconds(s.clock) && RefreshOf(s.db, rq) == map[] && AccessOf(s.db, rq) == map[])
            && (rq in tombs && rq in tombs' ==> tombs[rq].expires <= tombs'[rq].expires)
            && (rq in tombs' && (rq !in tombs || tombs'[rq].expires != tombs[rq].expires) ==>
                  || (e.Run? && exists n :: AskedAt(START, es, e.tid, tombs'[rq].expires, n))
                  || (e.CleanExpiredTombstone? && Seconds(s.clock) + 86_400 <= tombs'[rq].expires))
  {
    hide Inv, Step, Evolves;
    var s := After(START, es);
    EmptyInv();
    RunKeepsInv(START, es);
    StepEvolves(s, e);
    TombstoneSteps(s, e, rq);
    var tombs, tombs' := s.db.tombs, Step(s, e).db.tombs;
    if rq in tombs && rq in tombs' { assert TombMoves(tombs[rq], tombs'[rq]) by { KeptMoves(s.db, Step(s, e).db, s.clock, rq); } }
    if rq in tombs' && (rq !in tombs || tombs'[rq].expires != tombs[rq].expires) && e.Run? {
      var n := CommitHasAsked(es, e.tid);
      assert AskedAt(START, es, e.tid, tombs'[rq].expires, n);
    }
  }

  lemma KeptMoves(db: Db, db': Db, now: int, rq: Request)
    requires Evolves(db, db', now) && rq in db.tombs && rq in db'.tombs
    ensures TombMoves(db.tombs[rq], db'.tombs[rq])
  {
    assert TombKept(db, db', rq);
  }
}
