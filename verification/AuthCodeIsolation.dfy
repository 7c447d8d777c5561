/**
Codes and JTIs of different providers do not interfere, even where signatures or JTIs are the same.
*/
module AuthCodeIsolation {
  import opened AuthCodes
  import RefreshIsolation

  ghost function Restrict(db: Codes, p: string): Codes {
    Codes(RefreshIsolation.OwnRows(db.codes, p), RefreshIsolation.OwnRows(db.jtis, p))
  }

  ghost function Threads(ts: map<nat, Task>, p: string): map<nat, Task> { map t | t in ts && ts[t].key.prefix == p :: ts[t] }

  ghost function Project(s: Sys, p: string): Sys { Sys(Restrict(s.db, p), s.clock, Threads(s.threads, p)) }

  predicate Concerns(s: Sys, e: Event, p: string)
    requires Enabled(s, e)
  {
    match e
    case Tick(_) => true
    case Spawn(_, task) => task.key.prefix == p
    case Run(tid, _) => s.threads[tid].key.prefix == p
    case CleanCode(key, _) => key.prefix == p
    case CleanJti(key, _) => key.prefix == p
  }

  /** The events of a run that belong to one provider, with the ticks of the common clock. */
  ghost function Own(s: Sys, es: seq<Event>, p: string): seq<Event>
    requires Valid(s, es)
  {
    if es == [] then []
    else
      var before := es[..|es|-1];
      Own(s, before, p) + if Concerns(After(s, before), es[|es|-1], p) then [es[|es|-1]] else []
  }

  lemma RowsAreOwn<V>(m: map<Key, V>, k: Key, v: V, p: string)
    ensures var own := RefreshIsolation.OwnRows(m, p);
            && (k.prefix == p ==> (k in own <==> k in m) && (k in m ==> own[k] == m[k]))
            && RefreshIsolation.OwnRows(m[k := v], p) == (if k.prefix == p then own[k := v] else own)
            && RefreshIsolation.OwnRows(m - {k}, p) == (if k.prefix == p then own - {k} else own)
  {
    var own := RefreshIsolation.OwnRows(m, p);
    if k.prefix != p { assert RefreshIsolation.OwnRows(m[k := v], p) == own && RefreshIsolation.OwnRows(m - {k}, p) == own; }
  }

  /** One access of a call sees and changes its own provider's rows only. */
  lemma ExecIsLocal(db: Codes, t: Task, fails: bool, p: string)
    ensures var (db', t') := Exec(db, t, fails);
            && t'.key == t.key
            && (t.key.prefix == p ==> Exec(Restrict(db, p), t, fails) == (Restrict(db', p), t'))
            && (t.key.prefix != p ==> Restrict(db', p) == Restrict(db, p))
  {
    hide RefreshIsolation.OwnRows;
    RowsAreOwn(db.codes, t.key, if t.CreateCall? then t.row else CodeRow("", 0), p);
    RowsAreOwn(db.jtis, t.key, if t.InvalidateInsert? || t.SetAssertionCall? then t.expires else 0, p);
  }

  lemma CleaningIsLocal(s: Sys, e: Event, p: string)
    requires Enabled(s, e) && (e.CleanCode? || e.CleanJti?)
    ensures if Concerns(s, e, p) then Step(Project(s, p), e).db == Restrict(Step(s, e).db, p)
            else Restrict(Step(s, e).db, p) == Restrict(s.db, p)
  {
    hide RefreshIsolation.OwnRows;
    RowsAreOwn(s.db.codes, e.key, CodeRow("", 0), p);
    RowsAreOwn(s.db.jtis, e.key, 0, p);
  }

  lemma StepIsLocal(s: Sys, e: Event, p: string)
    requires Enabled(s, e)
    ensures if Concerns(s, e, p) then Enabled(Project(s, p), e) && Step(Project(s, p), e) == Project(Step(s, e), p)
            else Project(Step(s, e), p) == Project(s, p)
  {
    hide Exec, Restrict;
    match e
    case Tick(_) =>
    case Spawn(tid, task) =>
      assert Threads(s.threads[tid := task], p)
          == if task.key.prefix == p then Threads(s.threads, p)[tid := task] else Threads(s.threads, p);
    case Run(tid, fails) =>
      var t := s.threads[tid];
      ExecIsLocal(s.db, t, fails, p);
      var t' := Exec(s.db, t, fails).1;
      assert Threads(s.threads[tid := t'], p)
          == if t.key.prefix == p then Threads(s.threads, p)[tid := t'] else Threads(s.threads, p);
    case _ => CleaningIsLocal(s, e, p);
  }

  /** Projecting any interleaved run onto a prefix gives a valid run of that prefix's steps alone, with the
      same rows and replies. */
  lemma {:induction false} CodeProvidersDoNotInterfere(s: Sys, es: seq<Event>, p: string)
    requires Valid(s, es)
    ensures Valid(Project(s, p), Own(s, es, p))
    ensures After(Project(s, p), Own(s, es, p)) == Project(After(s, es), p)
    decreases |es|
  {
    hide Project, Concerns;
    if es != [] {
      var before, e := es[..|es|-1], es[|es|-1];
      CodeProvidersDoNotInterfere(s, before, p);
      StepIsLocal(After(s, before), e, p);
      if Concerns(After(s, before), e, p) {
        AfterSnoc(Project(s, p), Own(s, before, p), e);
      } else {
        assert Own(s, es, p) == Own(s, before, p);
      }
    }
  }
}
