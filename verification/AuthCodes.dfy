/**
Authorization codes and the JTI table that makes them single use, as concurrent calls over shared rows.

Both tables have one row per (provider_prefix, signature or jti). A used code keeps its row; what marks it
is a JTI row of the same name, which the unique index lets only one call insert. Client assertions put
their JTIs into the same table. The cleanup job deletes expired rows of either table one by one, and any
of its deletions may fail, so rows go in any order. Times are Unix seconds.
*/
module AuthCodes {
  import opened Options
  import RefreshDb

  type Key = RefreshDb.Key

  datatype CodeRow = CodeRow(request: string, expires: int)

  datatype Codes = Codes(codes: map<Key, CodeRow>, jtis: map<Key, int>)

  /** What a call answers. Used(expires) is an InvalidateAuthorizeCodeSession that inserted the JTI, Gone
      one that found no code; the caller sees no error in either. Invalidated is
      ErrInvalidatedAuthorizeCode, Known ErrJTIKnown. */
  datatype Reply = Stored | Found(row: CodeRow) | Invalidated(row: CodeRow) | NotFound | Used(expires: int) | Gone
                 | Known | Unused | Claimed(expires: int) | Failed

  datatype Task =
    | CreateCall(key: Key, row: CodeRow)
    | GetCall(key: Key)
    | GetJti(key: Key, row: CodeRow)
    | InvalidateCall(key: Key)
    | InvalidateInsert(key: Key, expires: int)
    | CheckAssertionCall(key: Key)
    | SetAssertionCall(key: Key, expires: int)
    | Done(key: Key, reply: Reply)

  predicate IsCall(t: Task) { !t.GetJti? && !t.InvalidateInsert? && !t.Done? }

  /** One database access of a call; `fails` makes it fail. */
  function Exec(db: Codes, t: Task, fails: bool): (Codes, Task) {
    var key := t.key;
    if t.Done? then (db, t)
    else if fails then (db, Done(key, Failed))
    else
      match t
      case CreateCall(_, row) =>
        if key in db.codes then (db, Done(key, Failed)) else (db.(codes := db.codes[key := row]), Done(key, Stored))
      case GetCall(_) => (db, if key in db.codes then GetJti(key, db.codes[key]) else Done(key, NotFound))
      case GetJti(_, row) => (db, Done(key, if key in db.jtis then Invalidated(row) else Found(row)))
      case InvalidateCall(_) =>
        (db, if key in db.codes then InvalidateInsert(key, db.codes[key].expires) else Done(key, Gone))
      case InvalidateInsert(_, expires) =>
        if key in db.jtis then (db, Done(key, Failed)) else (db.(jtis := db.jtis[key := expires]), Done(key, Used(expires)))
      case CheckAssertionCall(_) => (db, Done(key, if key in db.jtis then Known else Unused))
      case SetAssertionCall(_, expires) =>
        if key in db.jtis then (db, Done(key, Failed)) else (db.(jtis := db.jtis[key := expires]), Done(key, Claimed(expires)))
  }

  datatype Sys = Sys(db: Codes, clock: nat, threads: map<nat, Task>)

  datatype Event =
    | Tick(to: nat)
    | Spawn(tid: nat, task: Task)
    | Run(tid: nat, fails: bool)
    | CleanCode(key: Key, at: nat)
    | CleanJti(key: Key, at: nat)

  predicate Enabled(s: Sys, e: Event) {
    match e
    case Tick(to) => s.clock <= to
    case Spawn(tid, task) => tid !in s.threads && IsCall(task)
    case Run(tid, _) => tid in s.threads
    case CleanCode(key, at) => at <= s.clock
    case CleanJti(key, at) => at <= s.clock
  }

  function Step(s: Sys, e: Event): Sys
    requires Enabled(s, e)
  {
    match e
    case Tick(to) => s.(clock := to)
    case Spawn(tid, task) => s.(threads := s.threads[tid := task])
    case Run(tid, fails) =>
      var (db', t') := Exec(s.db, s.threads[tid], fails);
      s.(db := db', threads := s.threads[tid := t'])
    case CleanCode(key, at) =>
      if key in s.db.codes && s.db.codes[key].expires < at then s.(db := s.db.(codes := s.db.codes - {key})) else s
    case CleanJti(key, at) =>
      if key in s.db.jtis && s.db.jtis[key] < at then s.(db := s.db.(jtis := s.db.jtis - {key})) else s
  }

  predicate Valid(s: Sys, es: seq<Event>)
    decreases |es|, 0
  {
    es != [] ==> Valid(s, es[..|es|-1]) && Enabled(After(s, es[..|es|-1]), es[|es|-1])
  }

  function After(s: Sys, es: seq<Event>): Sys
    requires Valid(s, es)
    decreases |es|, 1
  {
    if es == [] then s else Step(After(s, es[..|es|-1]), es[|es|-1])
  }

  const START := Sys(Codes(map[], map[]), 0, map[])

  // ----- single use -----

  /** The call put a JTI row into the table, up to that expiry. */
  predicate Took(t: Task, key: Key, expires: int) { t == Done(key, Used(expires)) || t == Done(key, Claimed(expires)) }

  /** A JTI row lasts until its expiry has passed. */
  ghost predicate Holds(s: Sys) {
    forall tid, expires :: tid in s.threads && Took(s.threads[tid], s.threads[tid].key, expires) ==>
      s.clock > expires || (s.threads[tid].key in s.db.jtis && s.db.jtis[s.threads[tid].key] == expires)
  }

  /** Two calls that took one JTI did so at times apart. */
  ghost predicate Apart(s: Sys) {
    forall a, b, expires, expires' ::
      a in s.threads && b in s.threads && a != b && s.threads[a].key == s.threads[b].key
      && Took(s.threads[a], s.threads[a].key, expires) && Took(s.threads[b], s.threads[b].key, expires') ==>
        s.clock > expires || s.clock > expires'
  }

  lemma StepHolds(s: Sys, e: Event)
    requires Holds(s) && Apart(s) && Enabled(s, e)
    ensures Holds(Step(s, e)) && Apart(Step(s, e))
  {
    hide Apart;
    StepKeepsApart(s, e);
  }

  lemma StepKeepsApart(s: Sys, e: Event)
    requires Holds(s) && Apart(s) && Enabled(s, e)
    ensures Apart(Step(s, e))
  {}

  lemma {:induction false} RunHolds(s: Sys, es: seq<Event>)
    requires Holds(s) && Apart(s) && Valid(s, es)
    ensures Holds(After(s, es)) && Apart(After(s, es)) && After(s, es).clock >= s.clock
    decreases |es|
  {
    hide Holds, Apart;
    if es != [] {
      RunHolds(s, es[..|es|-1]);
      StepHolds(After(s, es[..|es|-1]), es[|es|-1]);
    }
  }

  /** A JTI, of a code or of a client assertion, is taken at most once until it expires. */
  lemma JtiTakenOnce(es: seq<Event>, a: nat, b: nat, key: Key, expires: int, expires': int)
    requires Valid(START, es)
    requires var s := After(START, es);
             a in s.threads && b in s.threads && Took(s.threads[a], key, expires) && Took(s.threads[b], key, expires')
             && s.clock <= expires && s.clock <= expires'
    ensures a == b
  {
    RunHolds(START, es);
  }

  /** Calls begun while the row was stored use its expiry. */
  ghost predicate UsesExpiry(s0: Sys, s: Sys, key: Key) {
    key in s0.db.codes
    && (s.clock <= s0.db.codes[key].expires ==>
          && key in s.db.codes && s.db.codes[key] == s0.db.codes[key]
          && forall tid :: tid in s.threads && tid !in s0.threads && s.threads[tid].key == key ==>
               && (s.threads[tid].InvalidateInsert? ==> s.threads[tid].expires == s0.db.codes[key].expires)
               && (s.threads[tid].Done? && s.threads[tid].reply.Used? ==> s.threads[tid].reply.expires == s0.db.codes[key].expires))
  }

  lemma {:induction false} RunUsesExpiry(s0: Sys, es: seq<Event>, key: Key)
    requires Valid(s0, es) && key in s0.db.codes
    ensures UsesExpiry(s0, After(s0, es), key) && s0.threads.Keys <= After(s0, es).threads.Keys
    decreases |es|
  {
    if es != [] {
      RunUsesExpiry(s0, es[..|es|-1], key);
      var s, e := After(s0, es[..|es|-1]), es[|es|-1];
      assert Enabled(s, e);
    }
  }

  /** Codes are single use: of all the InvalidateAuthorizeCodeSession calls begun while a code is stored,
      at most one takes effect up to the code's expiry, whatever else runs. */
  lemma CodeUsedOnce(before: seq<Event>, es: seq<Event>, key: Key, a: nat, b: nat)
    requires Valid(START, before) && Valid(After(START, before), es)
    requires var s0, s := After(START, before), After(After(START, before), es);
             && key in s0.db.codes && s.clock <= s0.db.codes[key].expires
             && a in s.threads && a !in s0.threads && s.threads[a].key == key && s.threads[a].Done? && s.threads[a].reply.Used?
             && b in s.threads && b !in s0.threads && s.threads[b].key == key && s.threads[b].Done? && s.threads[b].reply.Used?
    ensures a == b
  {
    var s0, s := After(START, before), After(After(START, before), es);
    RunHolds(START, before);
    RunHolds(s0, es);
    RunUsesExpiry(s0, es, key);
    assert Took(s.threads[a], key, s0.db.codes[key].expires) && Took(s.threads[b], key, s0.db.codes[key].expires);
  }

  /** While the JTI row stands, lookups begun since do not find the code. */
  lemma {:induction false} RunRefuses(s0: Sys, es: seq<Event>, key: Key, expires: int)
    requires Valid(s0, es) && key in s0.db.jtis && s0.db.jtis[key] == expires
    ensures var s := After(s0, es);
            && s0.threads.Keys <= s.threads.Keys
            && (s.clock <= expires ==>
                  && key in s.db.jtis && s.db.jtis[key] == expires
                  && forall tid :: tid in s.threads && tid !in s0.threads && s.threads[tid].key == key ==>
                       !(s.threads[tid].Done? && s.threads[tid].reply.Found?))
    decreases |es|
  {
    if es != [] {
      RunRefuses(s0, es[..|es|-1], key, expires);
      var s, e := After(s0, es[..|es|-1]), es[|es|-1];
      assert Enabled(s, e);
    }
  }

  /** Once a code has been used, no lookup begun later returns it without an error up to its expiry. */
  lemma UsedCodeNeverFound(before: seq<Event>, es: seq<Event>, user: nat, lookup: nat, key: Key, expires: int)
    requires Valid(START, before) && Valid(After(START, before), es)
    requires var s0, s := After(START, before), After(After(START, before), es);
             && user in s0.threads && s0.threads[user] == Done(key, Used(expires))
             && lookup in s.threads && lookup !in s0.threads && s.threads[lookup].key == key
             && s.threads[lookup].Done? && s.threads[lookup].reply.Found?
    ensures After(After(START, before), es).clock > expires
  {
    var s0, s := After(START, before), After(After(START, before), es);
    RunHolds(START, before);
    RunHolds(s0, es);
    assert Took(s0.threads[user], key, expires);
    if s.clock <= expires { RunRefuses(s0, es, key, expires); }
  }

  /** The code that a call has used, or is about to, is stored up to its expiry. */
  ghost predicate Backed(s: Sys) {
    forall tid :: tid in s.threads ==>
      var t := s.threads[tid];
      && (t.InvalidateInsert? ==> s.clock > t.expires || (t.key in s.db.codes && s.db.codes[t.key].expires == t.expires))
      && (t.Done? && t.reply.Used? ==>
            s.clock > t.reply.expires || (t.key in s.db.codes && s.db.codes[t.key].expires == t.reply.expires))
  }

  lemma {:induction false} RunBacked(es: seq<Event>)
    requires Valid(START, es)
    ensures Backed(After(START, es))
    decreases |es|
  {
    if es != [] {
      RunBacked(es[..|es|-1]);
      var s, e := After(START, es[..|es|-1]), es[|es|-1];
      assert Enabled(s, e);
    }
  }

  /** Where a lookup of a used code can stand. */
  predicate Looks(t: Task, key: Key, row: CodeRow, failed: bool) {
    || t == GetCall(key) || t == GetJti(key, row) || t == Done(key, Invalidated(row)) || (failed && t == Done(key, Failed))
  }

  predicate Begun(es: seq<Event>, tid: nat, t: Task) { exists i :: 0 <= i < |es| && es[i] == Spawn(tid, t) }

  predicate Fails(es: seq<Event>, tid: nat) { exists i :: 0 <= i < |es| && es[i] == Run(tid, true) }

  lemma {:induction false} RunLooks(s0: Sys, es: seq<Event>, tid: nat, key: Key)
    requires Valid(s0, es) && tid !in s0.threads && Begun(es, tid, GetCall(key))
    requires key in s0.db.codes && key in s0.db.jtis
    requires After(s0, es).clock <= s0.db.codes[key].expires && After(s0, es).clock <= s0.db.jtis[key]
    ensures tid in After(s0, es).threads && Looks(After(s0, es).threads[tid], key, s0.db.codes[key], Fails(es, tid))
    decreases |es|
  {
    var before, e := es[..|es|-1], es[|es|-1];
    var s := After(s0, before);
    assert s.clock <= After(s0, es).clock by { assert Enabled(s, e); }
    RunUsesExpiry(s0, before, key);
    RunRefuses(s0, before, key, s0.db.jtis[key]);
    var i :| 0 <= i < |es| && es[i] == Spawn(tid, GetCall(key));
    if i < |before| {
      assert before[i] == es[i];
      RunLooks(s0, before, tid, key);
      if j :| 0 <= j < |before| && before[j] == Run(tid, true) { assert es[j] == Run(tid, true); }
      if e == Run(tid, true) { assert es[|es|-1] == Run(tid, true); }
    }
  }

  /** The replay of a code is told as such: once a code has been used, a lookup begun later that has ended by
      the code's expiry without a failing access answers ErrInvalidatedAuthorizeCode with the stored row. */
  lemma ReplayIsTold(before: seq<Event>, es: seq<Event>, user: nat, lookup: nat, key: Key, expires: int)
    requires Valid(START, before) && Valid(After(START, before), es)
    requires var s0 := After(START, before);
             && user in s0.threads && s0.threads[user] == Done(key, Used(expires))
             && lookup !in s0.threads && Begun(es, lookup, GetCall(key)) && !Fails(es, lookup)
             && After(s0, es).clock <= expires
    ensures var s0, s := After(START, before), After(After(START, before), es);
            && key in s0.db.codes && lookup in s.threads
            && (s.threads[lookup].Done? ==> s.threads[lookup].reply == Invalidated(s0.db.codes[key]))
  {
    var s0 := After(START, before);
    RunHolds(START, before);
    RunHolds(s0, es);
    RunBacked(before);
    assert Took(s0.threads[user], key, expires);
    RunLooks(s0, es, lookup, key);
  }

  // ----- a call by itself -----

  /** A call run by itself: its one or two database accesses. */
  function Alone(db: Codes, t: Task, fails: bool, fails': bool): (Codes, Task) {
    var (db', t') := Exec(db, t, fails);
    Exec(db', t', fails')
  }

  lemma AfterSnoc(s: Sys, es: seq<Event>, e: Event)
    requires Valid(s, es) && Enabled(After(s, es), e)
    ensures Valid(s, es + [e]) && After(s, es + [e]) == Step(After(s, es), e)
  {
    assert (es + [e])[..|es|] == es;
  }

  /** A call begun in any state of any run and run by itself continues the run. */
  lemma AloneIsRun(s: Sys, es: seq<Event>, tid: nat, call: Task, fails: bool, fails': bool) returns (all: seq<Event>)
    requires Valid(s, es) && tid !in After(s, es).threads && IsCall(call)
    ensures Valid(s, all) && es <= all
    ensures var (db', t') := Alone(After(s, es).db, call, fails, fails');
            After(s, all) == After(s, es).(db := db', threads := After(s, es).threads[tid := t'])
  {
    hide Exec;
    AfterSnoc(s, es, Spawn(tid, call));
    all := es + [Spawn(tid, call)];
    AfterSnoc(s, all, Run(tid, fails));
    all := all + [Run(tid, fails)];
    AfterSnoc(s, all, Run(tid, fails'));
    all := all + [Run(tid, fails')];
    var ts: map<nat, Task> := After(s, es).threads;
    var t', t'' := Exec(After(s, es).db, call, fails).1, Alone(After(s, es).db, call, fails, fails').1;
    assert ts[tid := call][tid := t'][tid := t''] == ts[tid := t''];
  }

  // ----- past the expiry -----

  lemma JtiCleaned(s: Sys, key: Key, later: nat)
    requires key in s.db.jtis && s.db.jtis[key] < later && s.clock <= later
    ensures Step(Step(s, Tick(later)), CleanJti(key, later)) == s.(db := s.db.(jtis := s.db.jtis - {key}), clock := later)
  {}

  /** The bound is tight: once the code has expired, cleanup may have deleted its JTI row and failed to
      delete its own, and then the code is found, and can be used, again. */
  lemma ExpiredCodeComesBack(key: Key, row: CodeRow)
    requires row.expires >= 0
    ensures exists es :: Valid(START, es) && After(START, es).clock > row.expires
              && After(START, es).threads == map[0 := Done(key, Stored), 1 := Done(key, Used(row.expires)),
                                                 2 := Done(key, Found(row)), 3 := Done(key, Used(row.expires))]
  {
    hide After, Valid;
    var later := row.expires + 1;
    var es := AloneIsRun(START, EmptyRun(), 0, CreateCall(key, row), false, false);
    var threads: map<nat, Task> := map[0 := Done(key, Stored)];
    assert After(START, es) == Sys(Codes(map[key := row], map[]), 0, threads);
    es := AloneIsRun(START, es, 1, InvalidateCall(key), false, false);
    threads := threads[1 := Done(key, Used(row.expires))];
    assert After(START, es) == Sys(Codes(map[key := row], map[key := row.expires]), 0, threads);
    JtiCleaned(After(START, es), key, later);
    AfterSnoc(START, es, Tick(later));
    AfterSnoc(START, es + [Tick(later)], CleanJti(key, later));
    es := es + [Tick(later)] + [CleanJti(key, later)];
    assert map[key := row.expires] - {key} == map[];
    assert After(START, es) == Sys(Codes(map[key := row], map[]), later, threads);
    es := AloneIsRun(START, es, 2, GetCall(key), false, false);
    threads := threads[2 := Done(key, Found(row))];
    assert After(START, es) == Sys(Codes(map[key := row], map[]), later, threads);
    es := AloneIsRun(START, es, 3, InvalidateCall(key), false, false);
    assert After(START, es).threads == threads[3 := Done(key, Used(row.expires))];
  }

  function EmptyRun(): (es: seq<Event>)
    ensures Valid(START, es) && After(START, es) == START
  {
    []
  }

  // ----- the store -----

  /** The code and JTI operations of OAuth2Store, on tables updated in place. `fails` and `fails'` make
      the first and the second database access fail. Each operation does what its call does by itself,
      which is a run of the system. */
  class AuthCodeStore {
    const prefix: string
    var codes: map<Key, CodeRow>
    var jtis: map<Key, int>

    ghost function Tables(): Codes
      reads this
    {
      Codes(codes, jtis)
    }

    constructor (prefix: string)
      ensures this.prefix == prefix && Tables() == START.db
    {
      this.prefix := prefix;
      codes, jtis := map[], map[];
    }

    method CreateAuthorizeCodeSession(code: string, row: CodeRow, fails: bool) returns (ok: bool)
      modifies this`codes
      ensures ok == (!fails && RefreshDb.Key(prefix, code) !in old(codes))
      ensures codes == if ok then old(codes)[RefreshDb.Key(prefix, code) := row] else old(codes)
      ensures var key := RefreshDb.Key(prefix, code);
              Alone(old(Tables()), CreateCall(key, row), fails, false) == (Tables(), Done(key, if ok then Stored else Failed))
    {
      ok := !fails && RefreshDb.Key(prefix, code) !in codes;
      if ok { codes := codes[RefreshDb.Key(prefix, code) := row]; }
    }

    method GetAuthorizeCodeSession(code: string, fails: bool, fails': bool) returns (reply: Reply)
      ensures var key := RefreshDb.Key(prefix, code);
              Alone(Tables(), GetCall(key), fails, fails') == (Tables(), Done(key, reply))
      ensures var key := RefreshDb.Key(prefix, code);
              && (!fails ==> (reply.NotFound? <==> key !in codes))
              && (!fails && !fails' && key in codes ==> reply == if key in jtis then Invalidated(codes[key]) else Found(codes[key]))
              && (reply.Found? ==> key in codes && key !in jtis && reply.row == codes[key])
              && (reply.Failed? <==> fails || (key in codes && fails'))
    {
      var key := RefreshDb.Key(prefix, code);
      if fails { return Failed; }
      if key !in codes { return NotFound; }
      var known := HasJTIModel(code, fails');
      return match known case None => Failed case Some(hit) => if hit then Invalidated(codes[key]) else Found(codes[key]);
    }

    method InvalidateAuthorizeCodeSession(code: string, fails: bool, fails': bool) returns (reply: Reply)
      modifies this`jtis
      ensures var key := RefreshDb.Key(prefix, code);
              Alone(old(Tables()), InvalidateCall(key), fails, fails') == (Tables(), Done(key, reply))
      ensures var key := RefreshDb.Key(prefix, code);
              && (!fails ==> (reply.Gone? <==> key !in codes))
              && (!fails && !fails' && key in codes ==> reply == if key in old(jtis) then Failed else Used(codes[key].expires))
              && (reply.Gone? || reply.Used? || reply.Failed?)
              && (reply.Used? ==> key in codes && key !in old(jtis) && jtis == old(jtis)[key := codes[key].expires])
              && (!reply.Used? ==> jtis == old(jtis))
    {
      var key := RefreshDb.Key(prefix, code);
      if fails { return Failed; }
      if key !in codes { return Gone; }
      var ok := NewJTIModel(code, codes[key].expires, fails');
      return if ok then Used(codes[key].expires) else Failed;
    }

    /** The unique index lets only an absent JTI be inserted. */
    method NewJTIModel(jti: string, expires: int, fails: bool) returns (ok: bool)
      modifies this`jtis
      ensures ok == (!fails && RefreshDb.Key(prefix, jti) !in old(jtis))
      ensures jtis == if ok then old(jtis)[RefreshDb.Key(prefix, jti) := expires] else old(jtis)
    {
      ok := !fails && RefreshDb.Key(prefix, jti) !in jtis;
      if ok { jtis := jtis[RefreshDb.Key(prefix, jti) := expires]; }
    }

    method HasJTIModel(jti: string, fails: bool) returns (known: Option<bool>)
      ensures known == if fails then None else Some(RefreshDb.Key(prefix, jti) in jtis)
    {
      known := if fails then None else Some(RefreshDb.Key(prefix, jti) in jtis);
    }

    /** ClientAssertionJWTValid: ErrJTIKnown exactly for a JTI in the table. */
    method ClientAssertionJWTValid(jti: string, fails: bool) returns (reply: Reply)
      ensures var key := RefreshDb.Key(prefix, jti);
              Alone(Tables(), CheckAssertionCall(key), fails, false) == (Tables(), Done(key, reply))
      ensures if fails then reply.Failed? else (reply.Known? || reply.Unused?) && (reply.Known? <==> RefreshDb.Key(prefix, jti) in jtis)
    {
      var known := HasJTIModel(jti, fails);
      return match known case None => Failed case Some(hit) => if hit then Known else Unused;
    }

    /** SetClientAssertionJWT. */
    method SetClientAssertionJWT(jti: string, expires: int, fails: bool) returns (reply: Reply)
      modifies this`jtis
      ensures var key := RefreshDb.Key(prefix, jti);
              Alone(old(Tables()), SetAssertionCall(key, expires), fails, false) == (Tables(), Done(key, reply))
      ensures var key := RefreshDb.Key(prefix, jti);
              && reply == (if fails || key in old(jtis) then Failed else Claimed(expires))
              && jtis == if reply.Failed? then old(jtis) else old(jtis)[key := expires]
    {
      var ok := NewJTIModel(jti, expires, fails);
      return if ok then Claimed(expires) else Failed;
    }

    /** The cleanup loops over the code rows and the JTI rows; deletions of `stuck` rows fail. Rows go exactly
        when they have expired and can be deleted. */
    method CleanExpired(now: int, stuck: set<Key>)
      modifies this`codes, this`jtis
      ensures codes == map k | k in old(codes) && (old(codes)[k].expires >= now || k in stuck) :: old(codes)[k]
      ensures jtis == map k | k in old(jtis) && (old(jtis)[k] >= now || k in stuck) :: old(jtis)[k]
    {
      var expired := set k | k in codes && codes[k].expires < now;
      var todo := expired;
      while todo != {}
        invariant todo <= expired && jtis == old(jtis)
        invariant codes == map k | k in old(codes) && (k !in expired || k in todo || k in stuck) :: old(codes)[k]
      {
        var k :| k in todo;
        if k !in stuck { codes := codes - {k}; }
        todo := todo - {k};
      }
      CleanExpiredJtis(now, stuck);
    }

    method CleanExpiredJtis(now: int, stuck: set<Key>)
      modifies this`jtis
      ensures jtis == map k | k in old(jtis) && (old(jtis)[k] >= now || k in stuck) :: old(jtis)[k]
    {
      var expired := set k | k in jtis && jtis[k] < now;
      var todo := expired;
      while todo != {}
        invariant todo <= expired
        invariant jtis == map k | k in old(jtis) && (k !in expired || k in todo || k in stuck) :: old(jtis)[k]
      {
        var k :| k in todo;
        if k !in stuck { jtis := jtis - {k}; }
        todo := todo - {k};
      }
    }
  }
}
