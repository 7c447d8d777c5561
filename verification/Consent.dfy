/**
Interactions and consent: what stands behind the scopes of an authorization code
(oauth2_login.go, storage_interactions.go).

A pending authorization is a row under a fresh id. Completing a login claims that row by deleting it,
reads the consent stored for (provider, user collection, user, client), demands that it and the scopes
just approved cover the request, writes the merged consent back, and issues a code for the requested
scopes. Completions run concurrently, one database access a step. Consent is best effort: where reading
or writing it fails the completion goes on, so updates get lost. Times are Unix seconds.
*/
module Consent {
  import opened Options
  import opened Scopes

  datatype Interaction = Interaction(prefix: string, client: string, collection: string, scopes: seq<string>, expires: int)

  datatype ConsentKey = ConsentKey(prefix: string, collection: string, user: string, client: string)

  /** `drawn` holds every interaction id handed out so far. */
  datatype Tables = Tables(interactions: map<string, Interaction>, drawn: set<string>, consents: map<ConsentKey, seq<string>>)

  datatype Decision = Approve | Deny | Neither

  /** Whom the PocketBase token stands for, if anybody. */
  datatype Token = NoToken | Unknown | Broken | Of(collection: string, user: string)

  datatype Request = Request(prefix: string, id: string, decision: Decision, token: Token, consented: seq<string>)

  datatype Refusal = Denied | BadDecision | LoginRequired | LookupFailed | WrongCollection | ConsentRequired | NotIssued

  datatype Stage =
    | Find
    | Consume(pending: Interaction)
    | ReadPrior(pending: Interaction)
    | ReadStored(pending: Interaction, available: seq<string>)
    | Reload(pending: Interaction, merged: seq<string>)
    | Update(pending: Interaction, merged: seq<string>)
    | Insert(pending: Interaction, merged: seq<string>)
    | Issue(pending: Interaction)
    | Issued(pending: Interaction, scopes: seq<string>)
    | Refused(pending: Interaction, why: Refusal)
    | NotFound

  datatype Login = Login(req: Request, stage: Stage)

  /** The caller whose delete claimed the interaction. */
  predicate HasClaimed(l: Login) { !l.stage.Find? && !l.stage.Consume? && !l.stage.NotFound? }

  /** The checks between the claim and the consent. */
  function Gate(req: Request, pending: Interaction): Stage {
    match req.decision
    case Deny => Refused(pending, Denied)
    case Neither => Refused(pending, BadDecision)
    case Approve =>
      match req.token
      case NoToken => Refused(pending, LoginRequired)
      case Unknown => Refused(pending, LoginRequired)
      case Broken => Refused(pending, LookupFailed)
      case Of(collection, _) => if collection != pending.collection then Refused(pending, WrongCollection) else ReadPrior(pending)
  }

  function KeyOf(req: Request, pending: Interaction): ConsentKey {
    ConsentKey(req.prefix, pending.collection, if req.token.Of? then req.token.user else "", pending.client)
  }

  function AfterPrior(req: Request, pending: Interaction, prior: Option<seq<string>>): Stage {
    var available := if prior.Some? then Merged(prior.value, req.consented) else req.consented;
    if Covers(available, pending.scopes) then ReadStored(pending, available) else Refused(pending, ConsentRequired)
  }

  /** One step of a completion at time `now`; `fails` makes its database access fail, or the issuing. */
  function Exec(db: Tables, now: int, l: Login, fails: bool): (Tables, Stage)
    requires !l.stage.Issued? && !l.stage.Refused? && !l.stage.NotFound?
  {
    var id := l.req.id;
    if l.stage.Find? then
      (db, if !fails && id != "" && id in db.interactions && db.interactions[id].prefix == l.req.prefix && now <= db.interactions[id].expires
           then Consume(db.interactions[id]) else NotFound)
    else
      var pending := l.stage.pending;
      var key := KeyOf(l.req, pending);
      match l.stage
      case Consume(_) =>
        if fails || id !in db.interactions || db.interactions[id].prefix != l.req.prefix then (db, NotFound)
        else (db.(interactions := db.interactions - {id}), Gate(l.req, pending))
      case ReadPrior(_) => (db, AfterPrior(l.req, pending, if !fails && key in db.consents then Some(db.consents[key]) else None))
      case ReadStored(_, available) =>
        (db, if fails then Issue(pending)
             else if key in db.consents then Reload(pending, Merged(db.consents[key], available))
             else Insert(pending, Merged([], available)))
      case Reload(_, merged) => (db, if fails || key !in db.consents then Issue(pending) else Update(pending, merged))
      case Update(_, merged) =>
        (if fails || key !in db.consents then db else db.(consents := db.consents[key := merged]), Issue(pending))
      case Insert(_, merged) =>
        (if fails || key in db.consents then db else db.(consents := db.consents[key := merged]), Issue(pending))
      case Issue(_) => (db, if fails then Refused(pending, NotIssued) else Issued(pending, pending.scopes))
  }

  predicate IsOver(stage: Stage) { stage.Issued? || stage.Refused? || stage.NotFound? }

  // ----- the system -----

  datatype Sys = Sys(db: Tables, clock: nat, logins: map<nat, Login>)

  /** Interactions come into being under fresh ids and go by completion, by cleanup once expired, or by
      plain deletion. */
  datatype Event =
    | Tick(to: nat)
    | Create(id: string, pending: Interaction)
    | Delete(id: string)
    | Begin(tid: nat, req: Request)
    | Run(tid: nat, fails: bool)

  predicate Enabled(s: Sys, e: Event) {
    match e
    case Tick(to) => s.clock <= to
    case Create(id, _) => id !in s.db.drawn
    case Delete(_) => true
    case Begin(tid, _) => tid !in s.logins
    case Run(tid, _) => tid in s.logins && !IsOver(s.logins[tid].stage)
  }

  function Step(s: Sys, e: Event): Sys
    requires Enabled(s, e)
  {
    match e
    case Tick(to) => s.(clock := to)
    case Create(id, pending) =>
      s.(db := s.db.(interactions := s.db.interactions[id := pending], drawn := s.db.drawn + {id}))
    case Delete(id) => s.(db := s.db.(interactions := s.db.interactions - {id}))
    case Begin(tid, req) => s.(logins := s.logins[tid := Login(req, Find)])
    case Run(tid, fails) =>
      var (db', stage') := Exec(s.db, s.clock, s.logins[tid], fails);
      s.(db := db', logins := s.logins[tid := Login(s.logins[tid].req, stage')])
  }

  predicate Valid(s: Sys, es: seq<Event>)
    decreases |es|, 0
  {
    es != [] ==> Valid(s, es[..|es|-1]) && Enabled(After(s, es[..|es|-1]), es[|es|-1])
  }

  function After(s: Sys, es: seq<Event>): Sys
    requires Valid(s, es)
    decreases |es|, 1
  {
    if es == [] then s else Step(After(s, es[..|es|-1]), es[|es|-1])
  }

  /** A system at rest: stored consents, no pending interaction, no completion. */
  function Rest(consents: map<ConsentKey, seq<string>>): Sys { Sys(Tables(map[], {}, consents), 0, map[]) }

  // ----- one claim per interaction -----

  ghost predicate OneClaimEach(s: Sys) {
    forall t, u ::
      (t in s.logins && u in s.logins && HasClaimed(s.logins[t]) && HasClaimed(s.logins[u]) && s.logins[t].req.id == s.logins[u].req.id) ==>
        t == u
  }

  ghost predicate ClaimsInv(s: Sys) {
    && s.db.interactions.Keys <= s.db.drawn
    && (forall t :: t in s.logins && (HasClaimed(s.logins[t]) || s.logins[t].stage.Consume?) ==> s.logins[t].req.id in s.db.drawn)
    && (forall t :: t in s.logins && HasClaimed(s.logins[t]) ==> s.logins[t].req.id !in s.db.interactions)
    && OneClaimEach(s)
  }

  lemma StepClaims(s: Sys, e: Event)
    requires ClaimsInv(s) && Enabled(s, e)
    ensures ClaimsInv(Step(s, e))
  {
    hide Merged, Covers;
  }

  /** Each interaction is claimed at most once, so it yields at most one code. */
  lemma {:induction false} InteractionClaimedOnce(consents: map<ConsentKey, seq<string>>, es: seq<Event>)
    requires Valid(Rest(consents), es)
    ensures ClaimsInv(After(Rest(consents), es)) && OneClaimEach(After(Rest(consents), es))
    decreases |es|
  {
    if es != [] {
      InteractionClaimedOnce(consents, es[..|es|-1]);
      StepClaims(After(Rest(consents), es[..|es|-1]), es[|es|-1]);
    }
  }

  // ----- no scope without consent -----

  /** A completion in which that user approved for that client. */
  predicate Approves(l: Login, key: ConsentKey) {
    && HasClaimed(l) && l.req.decision.Approve? && l.req.token.Of?
    && l.req.token.collection == l.stage.pending.collection && KeyOf(l.req, l.stage.pending) == key
  }

  /** The scope was granted to begin with, or the user approved it for this client. */
  ghost predicate IsBacked(first: map<ConsentKey, seq<string>>, s: Sys, key: ConsentKey, scope: string) {
    || (key in first && scope in first[key])
    || exists t :: t in s.logins && Approves(s.logins[t], key) && scope in s.logins[t].req.consented
  }

  ghost predicate AllBacked(first: map<ConsentKey, seq<string>>, s: Sys, key: ConsentKey, scopes: seq<string>) {
    forall x :: x in scopes ==> IsBacked(first, s, key, x)
  }

  ghost predicate LoginBacked(first: map<ConsentKey, seq<string>>, s: Sys, l: Login) {
    match l.stage
    case ReadPrior(pending) => Approves(l, KeyOf(l.req, pending))
    case ReadStored(pending, available) =>
      Approves(l, KeyOf(l.req, pending)) && AllBacked(first, s, KeyOf(l.req, pending), available) && Covers(available, pending.scopes)
    case Reload(pending, merged) =>
      AllBacked(first, s, KeyOf(l.req, pending), merged) && AllBacked(first, s, KeyOf(l.req, pending), pending.scopes)
    case Update(pending, merged) =>
      AllBacked(first, s, KeyOf(l.req, pending), merged) && AllBacked(first, s, KeyOf(l.req, pending), pending.scopes)
    case Insert(pending, merged) =>
      AllBacked(first, s, KeyOf(l.req, pending), merged) && AllBacked(first, s, KeyOf(l.req, pending), pending.scopes)
    case Issue(pending) => AllBacked(first, s, KeyOf(l.req, pending), pending.scopes)
    case Issued(pending, scopes) => scopes == pending.scopes && AllBacked(first, s, KeyOf(l.req, pending), scopes)
    case _ => true
  }

  ghost predicate BackedInv(first: map<ConsentKey, seq<string>>, s: Sys) {
    && (forall key :: key in s.db.consents ==> AllBacked(first, s, key, s.db.consents[key]))
    && (forall t :: t in s.logins ==> LoginBacked(first, s, s.logins[t]))
  }

  /** Approvals stay on record. */
  ghost predicate Remembers(s: Sys, s': Sys) {
    forall t, key :: t in s.logins && Approves(s.logins[t], key) ==>
      t in s'.logins && Approves(s'.logins[t], key) && s'.logins[t].req == s.logins[t].req
  }

  lemma StepRemembers(s: Sys, e: Event)
    requires Enabled(s, e)
    ensures Remembers(s, Step(s, e))
  {
    hide Merged, Covers;
  }

  lemma BackingStays(first: map<ConsentKey, seq<string>>, s: Sys, s': Sys, key: ConsentKey, scopes: seq<string>)
    requires Remembers(s, s') && AllBacked(first, s, key, scopes)
    ensures AllBacked(first, s', key, scopes)
  {}

  lemma LoginStaysBacked(first: map<ConsentKey, seq<string>>, s: Sys, s': Sys, l: Login)
    requires Remembers(s, s') && LoginBacked(first, s, l)
    ensures LoginBacked(first, s', l)
  {
    hide Remembers, AllBacked;
    forall key, scopes | AllBacked(first, s, key, scopes) ensures AllBacked(first, s', key, scopes) {
      BackingStays(first, s, s', key, scopes);
    }
  }

  lemma MergedBacked(first: map<ConsentKey, seq<string>>, s: Sys, key: ConsentKey, existing: seq<string>, additions: seq<string>)
    requires AllBacked(first, s, key, existing) && AllBacked(first, s, key, additions)
    ensures AllBacked(first, s, key, Merged(existing, additions))
  {
    MergedExtends(existing, additions);
  }

  lemma MergedNewBacked(first: map<ConsentKey, seq<string>>, s: Sys, key: ConsentKey, additions: seq<string>)
    requires AllBacked(first, s, key, additions)
    ensures AllBacked(first, s, key, Merged([], additions))
  {
    MergedExtends([], additions);
  }

  lemma CoveredBacked(first: map<ConsentKey, seq<string>>, s: Sys, key: ConsentKey, granted: seq<string>, requested: seq<string>)
    requires AllBacked(first, s, key, granted) && Covers(granted, requested)
    ensures AllBacked(first, s, key, requested)
  {}

  lemma OwnApproval(first: map<ConsentKey, seq<string>>, s: Sys, tid: nat, key: ConsentKey)
    requires tid in s.logins && Approves(s.logins[tid], key)
    ensures AllBacked(first, s, key, s.logins[tid].req.consented)
  {}

  /** The completion that moves has what it needs, and what it writes is backed. */
  lemma ExecBacked(first: map<ConsentKey, seq<string>>, s: Sys, tid: nat, fails: bool)
    requires BackedInv(first, s) && Enabled(s, Run(tid, fails))
    ensures var s' := Step(s, Run(tid, fails));
            && LoginBacked(first, s', s'.logins[tid])
            && forall key :: key in s'.db.consents ==> AllBacked(first, s', key, s'.db.consents[key])
  {
    hide AllBacked, Covers, Merged, Approves, Remembers;
    var l, s' := s.logins[tid], Step(s, Run(tid, fails));
    StepRemembers(s, Run(tid, fails));
    assert LoginBacked(first, s, l);
    LoginStaysBacked(first, s, s', l);
    forall key | key in s.db.consents ensures AllBacked(first, s', key, s.db.consents[key]) {
      BackingStays(first, s, s', key, s.db.consents[key]);
    }
    if !l.stage.Find? {
      var key := KeyOf(l.req, l.stage.pending);
      match l.stage
      case Consume(_) => GateApproves(l.req, l.stage.pending);
      case ReadPrior(pending) =>
        ReadPriorApproves(l, s'.logins[tid], key);
        if s'.logins[tid].stage.ReadStored? {
          OwnApproval(first, s', tid, key);
          if key in s.db.consents { MergedBacked(first, s', key, s.db.consents[key], l.req.consented); }
        }
      case ReadStored(pending, available) =>
        CoveredBacked(first, s', key, available, pending.scopes);
        MergedNewBacked(first, s', key, available);
        if key in s.db.consents { MergedBacked(first, s', key, s.db.consents[key], available); }
      case _ =>
    }
  }

  lemma GateApproves(req: Request, pending: Interaction)
    ensures var stage := Gate(req, pending);
            && (stage.Refused? || stage == ReadPrior(pending))
            && (stage.ReadPrior? ==> Approves(Login(req, stage), KeyOf(req, pending)))
  {}

  lemma ReadPriorApproves(l: Login, l': Login, key: ConsentKey)
    requires Approves(l, key) && l'.req == l.req && HasClaimed(l') && l'.stage.pending == l.stage.pending
    ensures Approves(l', key)
  {}

  lemma StepBacked(first: map<ConsentKey, seq<string>>, s: Sys, e: Event)
    requires BackedInv(first, s) && Enabled(s, e)
    ensures BackedInv(first, Step(s, e))
  {
    hide AllBacked, LoginBacked, Remembers, Exec;
    var s' := Step(s, e);
    StepRemembers(s, e);
    if e.Run? {
      ExecBacked(first, s, e.tid, e.fails);
    } else {
      forall key | key in s.db.consents ensures AllBacked(first, s', key, s.db.consents[key]) {
        BackingStays(first, s, s', key, s.db.consents[key]);
      }
    }
    if e.Begin? { NewLogin(first, s', e.req); }
    forall t | t in s.logins && !(e.Run? && e.tid == t) ensures LoginBacked(first, s', s.logins[t]) {
      LoginStaysBacked(first, s, s', s.logins[t]);
    }
  }

  lemma NewLogin(first: map<ConsentKey, seq<string>>, s: Sys, req: Request)
    ensures LoginBacked(first, s, Login(req, Find))
  {}

  lemma {:induction false} RunBacked(first: map<ConsentKey, seq<string>>, es: seq<Event>)
    requires Valid(Rest(first), es)
    ensures BackedInv(first, After(Rest(first), es))
    decreases |es|
  {
    hide LoginBacked;
    if es != [] {
      RunBacked(first, es[..|es|-1]);
      StepBacked(first, After(Rest(first), es[..|es|-1]), es[|es|-1]);
    }
  }

  /** No scope without consent: whatever completions run together and whichever consent updates are lost,
      every scope of an issued code was in the consent stored at first, or was approved by that same user
      for that same client under that same provider. */
  lemma NoScopeWithoutConsent(first: map<ConsentKey, seq<string>>, es: seq<Event>, tid: nat, scope: string)
    requires Valid(Rest(first), es)
    requires tid in After(Rest(first), es).logins && After(Rest(first), es).logins[tid].stage.Issued?
    requires scope in After(Rest(first), es).logins[tid].stage.scopes
    ensures var s := After(Rest(first), es);
            var l := s.logins[tid];
            && l.stage.scopes == l.stage.pending.scopes
            && IsBacked(first, s, KeyOf(l.req, l.stage.pending), scope)
  {
    RunBacked(first, es);
    assert LoginBacked(first, After(Rest(first), es), After(Rest(first), es).logins[tid]);
  }

  // ----- the stored consent -----

  ghost predicate DistinctInv(s: Sys) {
    && (forall key :: key in s.db.consents ==> IsDuplicateFree(s.db.consents[key]))
    && (forall t :: t in s.logins && (s.logins[t].stage.Reload? || s.logins[t].stage.Update? || s.logins[t].stage.Insert?) ==>
          IsDuplicateFree(s.logins[t].stage.merged))
  }

  /** Stored consent never lists a scope twice, in any run. */
  lemma {:induction false} ConsentStaysDistinct(first: map<ConsentKey, seq<string>>, es: seq<Event>)
    requires Valid(Rest(first), es) && forall key :: key in first ==> IsDuplicateFree(first[key])
    ensures DistinctInv(After(Rest(first), es))
    decreases |es|
  {
    hide IsDuplicateFree, Covers, Merged;
    if es != [] {
      ConsentStaysDistinct(first, es[..|es|-1]);
      var s, e := After(Rest(first), es[..|es|-1]), es[|es|-1];
      assert Enabled(s, e);
      forall existing, additions | IsDuplicateFree(existing) ensures IsDuplicateFree(Merged(existing, additions)) {
        MergedExtends(existing, additions);
      }
      assert IsDuplicateFree([]) by { EmptyIsDistinct(); }
    }
  }

  lemma EmptyIsDistinct()
    ensures IsDuplicateFree([])
  {}

  // ----- concurrent updates -----

  function Stored(db: Tables, key: ConsentKey): seq<string> { if key in db.consents then db.consents[key] else [] }

  /** The step with which some completion writes the consent. */
  predicate WritesConsent(s: Sys, e: Event, key: ConsentKey)
    requires Enabled(s, e)
  {
    && e.Run? && !e.fails && (s.logins[e.tid].stage.Update? || s.logins[e.tid].stage.Insert?)
    && KeyOf(s.logins[e.tid].req, s.logins[e.tid].stage.pending) == key
  }

  predicate NoWriter(s: Sys, es: seq<Event>, key: ConsentKey)
    requires Valid(s, es)
    decreases |es|
  {
    es == [] || (NoWriter(s, es[..|es|-1], key) && !WritesConsent(After(s, es[..|es|-1]), es[|es|-1], key))
  }

  lemma {:induction false} QuietConsent(s: Sys, es: seq<Event>, key: ConsentKey)
    requires Valid(s, es) && NoWriter(s, es, key)
    ensures Stored(After(s, es).db, key) == Stored(s.db, key) && (key in After(s, es).db.consents <==> key in s.db.consents)
    decreases |es|
  {
    hide Merged, Covers;
    if es != [] { QuietConsent(s, es[..|es|-1], key); }
  }

  /** What a completion carries from its read of the stored consent to its write. */
  predicate Carries(stage: Stage, pending: Interaction, existed: bool, merged: seq<string>) {
    match stage
    case Reload(p, m) => existed && p == pending && m == merged
    case Update(p, m) => existed && p == pending && m == merged
    case Insert(p, m) => !existed && p == pending && m == merged
    case Issue(p) => p == pending
    case Issued(p, _) => p == pending
    case Refused(p, _) => p == pending
    case _ => false
  }

  lemma {:induction false} CarriedAlong(s: Sys, es: seq<Event>, t: nat)
    requires Valid(s, es) && es != [] && es[0] == Run(t, false) && t in s.logins && s.logins[t].stage.ReadStored?
    ensures var l := s.logins[t];
            var key := KeyOf(l.req, l.stage.pending);
            && t in After(s, es).logins && After(s, es).logins[t].req == l.req
            && Carries(After(s, es).logins[t].stage, l.stage.pending, key in s.db.consents,
                       Merged(Stored(s.db, key), l.stage.available))
    decreases |es|
  {
    hide Merged, Covers;
    if |es| == 1 {
      assert es[..0] == [] && After(s, es) == Step(s, es[0]);
    } else {
      CarriedAlong(s, es[..|es|-1], t);
    }
  }

  /** When an update extends the stored list. It writes the list it read, merged with what it has available,
      so it extends the list then stored if and only if that is a prefix of what it carries; and it is if no
      completion for the same user and client wrote in between. A completion that found no consent inserts
      one and so extends nothing but an absent list; where another came first its insert leaves that list. */
  lemma UpdateExtendsExactly(s: Sys, es: seq<Event>, t: nat)
    requires Valid(s, es) && es != [] && es[0] == Run(t, false) && t in s.logins && s.logins[t].stage.ReadStored?
    requires t in After(s, es).logins && (After(s, es).logins[t].stage.Update? || After(s, es).logins[t].stage.Insert?)
    ensures var l, s1 := s.logins[t], After(s, es);
            var s2 := Step(s1, Run(t, false));
            var key, merged := KeyOf(l.req, l.stage.pending), s1.logins[t].stage.merged;
            && merged == Merged(Stored(s.db, key), l.stage.available)
            && (Stored(s1.db, key) <= Stored(s2.db, key) <==> s1.logins[t].stage.Insert? || Stored(s1.db, key) <= merged)
            && (NoWriter(s, es, key) ==> Stored(s1.db, key) <= merged && Stored(s2.db, key) == merged)
            && (s1.logins[t].stage.Insert? ==> Stored(s2.db, key) == if key in s1.db.consents then Stored(s1.db, key) else merged)
  {
    hide Merged, Covers;
    CarriedAlong(s, es, t);
    var l := s.logins[t];
    var key := KeyOf(l.req, l.stage.pending);
    if NoWriter(s, es, key) { QuietConsent(s, es, key); }
    MergedExtends(Stored(s.db, key), l.stage.available);
  }

  lemma Extend(s: Sys, es: seq<Event>, e: Event)
    requires Valid(s, es) && Enabled(After(s, es), e)
    ensures Valid(s, es + [e]) && After(s, es + [e]) == Step(After(s, es), e)
  {
    assert (es + [e])[..|es + [e]|-1] == es;
  }

  /** Two completions of one user and client, under ids "x" and "y", at one stage each. */
  function Pair(consents: map<ConsentKey, seq<string>>, interactions: map<string, Interaction>, key: ConsentKey,
                a: string, b: string, at: Stage, bt: Stage): Sys
  {
    Sys(Tables(interactions, {"x", "y"}, consents), 0, map[0 := Login(AskFor(key, "x", a), at), 1 := Login(AskFor(key, "y", b), bt)])
  }

  function AskFor(key: ConsentKey, id: string, scope: string): Request {
    Request(key.prefix, id, Approve, Of(key.collection, key.user), [scope])
  }

  function PendingFor(key: ConsentKey, scope: string): Interaction { Interaction(key.prefix, key.client, key.collection, [scope], 0) }

  /** Both take a step, the first one first. */
  lemma Round(s: Sys, es: seq<Event>) returns (all: seq<Event>)
    requires Valid(s, es) && Enabled(After(s, es), Run(0, false)) && Enabled(Step(After(s, es), Run(0, false)), Run(1, false))
    ensures Valid(s, all) && After(s, all) == Step(Step(After(s, es), Run(0, false)), Run(1, false))
  {
    hide Step;
    Extend(s, es, Run(0, false));
    Extend(s, es + [Run(0, false)], Run(1, false));
    all := es + [Run(0, false)] + [Run(1, false)];
  }

  lemma BothBegun(first: map<ConsentKey, seq<string>>, key: ConsentKey, a: string, b: string) returns (es: seq<Event>)
    ensures Valid(Rest(first), es)
    ensures After(Rest(first), es)
         == Pair(first, map["x" := PendingFor(key, a), "y" := PendingFor(key, b)], key, a, b, Find, Find)
  {
    hide Valid, After;
    var x, y := PendingFor(key, a), PendingFor(key, b);
    es := EmptyRun(first);
    Extend(Rest(first), es, Create("x", x));
    es := es + [Create("x", x)];
    Extend(Rest(first), es, Create("y", y));
    es := es + [Create("y", y)];
    Extend(Rest(first), es, Begin(0, AskFor(key, "x", a)));
    es := es + [Begin(0, AskFor(key, "x", a))];
    Extend(Rest(first), es, Begin(1, AskFor(key, "y", b)));
    es := es + [Begin(1, AskFor(key, "y", b))];
  }

  lemma BothClaim(first: map<ConsentKey, seq<string>>, key: ConsentKey, a: string, b: string) returns (es: seq<Event>)
    ensures Valid(Rest(first), es)
    ensures After(Rest(first), es) == Pair(first, map[], key, a, b, ReadPrior(PendingFor(key, a)), ReadPrior(PendingFor(key, b)))
  {
    hide Valid, After;
    var x, y := PendingFor(key, a), PendingFor(key, b);
    es := BothBegun(first, key, a, b);
    es := Round(Rest(first), es);
    assert After(Rest(first), es) == Pair(first, map["x" := x, "y" := y], key, a, b, Consume(x), Consume(y));
    es := Round(Rest(first), es);
    assert map["x" := x, "y" := y] - {"x"} - {"y"} == map[];
  }

  /** Both have read the consent and carry it, each with its own scope added. */
  lemma BothRead(first: map<ConsentKey, seq<string>>, key: ConsentKey, a: string, b: string) returns (es: seq<Event>)
    requires key in first && a !in first[key] && b !in first[key]
    ensures Valid(Rest(first), es)
    ensures After(Rest(first), es)
         == Pair(first, map[], key, a, b, Reload(PendingFor(key, a), first[key] + [a]), Reload(PendingFor(key, b), first[key] + [b]))
  {
    hide Valid, After, Merged, Covers;
    var x, y := PendingFor(key, a), PendingFor(key, b);
    MergedOne(first[key], a);
    MergedOne(first[key], b);
    MergedAgain(first[key], a);
    MergedAgain(first[key], b);
    es := BothClaim(first, key, a, b);
    es := Round(Rest(first), es);
    assert After(Rest(first), es)
        == Pair(first, map[], key, a, b, ReadStored(x, first[key] + [a]), ReadStored(y, first[key] + [b]));
    es := Round(Rest(first), es);
  }

  function EmptyRun(first: map<ConsentKey, seq<string>>): (es: seq<Event>)
    ensures Valid(Rest(first), es) && After(Rest(first), es) == Rest(first)
  {
    []
  }

  /** From any stored consents: two completions for one user and client each approve and get a scope not yet
      granted, and the run ends with a stored consent that has lost the scope of the first. */
  lemma ConcurrentUpdateLosesGrant(first: map<ConsentKey, seq<string>>, key: ConsentKey, a: string, b: string) returns (es: seq<Event>)
    requires key in first && a !in first[key] && b !in first[key] && a != b
    ensures Valid(Rest(first), es)
    ensures var s, x, y := After(Rest(first), es), PendingFor(key, a), PendingFor(key, b);
            && s.logins.Keys == {0, 1} && s.logins[0].stage == Issued(x, [a]) && s.logins[1].stage == Issued(y, [b])
            && KeyOf(s.logins[0].req, x) == KeyOf(s.logins[1].req, y) == key
            && s.db.consents == first[key := first[key] + [b]] && a !in s.db.consents[key]
  {
    hide Valid, After;
    var x, y := PendingFor(key, a), PendingFor(key, b);
    var ga, gb := first[key] + [a], first[key] + [b];
    es := BothRead(first, key, a, b);
    es := Round(Rest(first), es);
    assert After(Rest(first), es) == Pair(first, map[], key, a, b, Update(x, ga), Update(y, gb));
    es := Round(Rest(first), es);
    assert After(Rest(first), es) == Pair(first[key := gb], map[], key, a, b, Issue(x), Issue(y));
    es := Round(Rest(first), es);
  }

  lemma MergedOne(granted: seq<string>, scope: string)
    requires scope !in granted
    ensures Merged(granted, [scope]) == granted + [scope] && Covers(granted + [scope], [scope])
  {
    assert [scope][1..] == [];
  }

  lemma MergedAgain(granted: seq<string>, scope: string)
    requires scope !in granted
    ensures Merged(granted, granted + [scope]) == granted + [scope]
  {
    MergedTwice(granted, granted, [scope]);
    MergedExtends(granted, granted);
    MergedOne(granted, scope);
  }

  lemma {:induction false} MergedTwice(existing: seq<string>, xs: seq<string>, ys: seq<string>)
    ensures Merged(existing, xs + ys) == Merged(Merged(existing, xs), ys)
    decreases |xs|
  {
    if xs == [] {
      assert xs + ys == ys;
    } else {
      assert (xs + ys)[1..] == xs[1..] + ys;
      MergedTwice(if xs[0] in existing then existing else existing + [xs[0]], xs[1..], ys);
    }
  }

  // ----- one completion by itself -----

  /** The accesses at which a completion can fail. */
  datatype Access = FindInteraction | ClaimInteraction | FindPrior | FindStored | ReloadConsent | SaveConsent | IssueCode | NoAccess

  function AccessOf(stage: Stage): Access {
    match stage
    case Find => FindInteraction
    case Consume(_) => ClaimInteraction
    case ReadPrior(_) => FindPrior
    case ReadStored(_, _) => FindStored
    case Reload(_, _) => ReloadConsent
    case Update(_, _) => SaveConsent
    case Insert(_, _) => SaveConsent
    case Issue(_) => IssueCode
    case _ => NoAccess
  }

  function Rank(access: Access): nat {
    match access
    case FindInteraction => 7
    case ClaimInteraction => 6
    case FindPrior => 5
    case FindStored => 4
    case ReloadConsent => 3
    case SaveConsent => 2
    case IssueCode => 1
    case NoAccess => 0
  }

  lemma StepsEnd(db: Tables, now: int, l: Login, fails: bool)
    requires !IsOver(l.stage)
    ensures Rank(AccessOf(Exec(db, now, l, fails).1)) < Rank(AccessOf(l.stage))
  {
    hide Merged, Covers;
  }

  /** The completion run to its end at one time, with the given accesses failing. */
  function Alone(db: Tables, now: int, l: Login, failing: set<Access>): (Tables, Stage)
    decreases Rank(AccessOf(l.stage))
  {
    if IsOver(l.stage) then (db, l.stage)
    else
      StepsEnd(db, now, l, AccessOf(l.stage) in failing);
      var (db', stage') := Exec(db, now, l, AccessOf(l.stage) in failing);
      Alone(db', now, l.(stage := stage'), failing)
  }

  lemma AloneUnfolds(db: Tables, now: int, l: Login, failing: set<Access>)
    requires !IsOver(l.stage)
    ensures var (db', stage') := Exec(db, now, l, AccessOf(l.stage) in failing);
            Alone(db, now, l, failing) == Alone(db', now, l.(stage := stage'), failing)
  {
    hide Exec;
  }

  lemma AloneEnds(db: Tables, now: int, l: Login, failing: set<Access>)
    requires IsOver(l.stage)
    ensures Alone(db, now, l, failing) == (db, l.stage)
  {}

  /** When nothing fails, a completion that issues a code extends the stored consent as a prefix, adds
      exactly the scopes approved, leaves every other consent alone, and the stored consent then covers
      the code's scopes. */
  lemma CompletionExtendsConsent(db: Tables, now: int, req: Request)
    requires Alone(db, now, Login(req, Find), {}).1.Issued?
    ensures var (db', stage') := Alone(db, now, Login(req, Find), {});
            var key := KeyOf(req, stage'.pending);
            var old_ := if key in db.consents then db.consents[key] else [];
            && key in db'.consents && old_ <= db'.consents[key] && Covers(db'.consents[key], stage'.scopes)
            && (forall x :: x in db'.consents[key] <==> x in old_ || x in req.consented)
            && (IsDuplicateFree(old_) ==> IsDuplicateFree(db'.consents[key]))
            && db'.consents - {key} == db.consents - {key}
            && req.id in db.interactions && db.interactions[req.id] == stage'.pending
            && db'.interactions == db.interactions - {req.id}
  {
    hide Alone, Merged, Covers, IsDuplicateFree;
    forall db, l: Login | IsOver(l.stage) ensures Alone(db, now, l, {}) == (db, l.stage) { AloneEnds(db, now, l, {}); }
    AloneUnfolds(db, now, Login(req, Find), {});
    var pending := db.interactions[req.id];
    AloneUnfolds(db, now, Login(req, Consume(pending)), {});
    var db1 := db.(interactions := db.interactions - {req.id});
    AloneUnfolds(db1, now, Login(req, ReadPrior(pending)), {});
    var key := KeyOf(req, pending);
    var prior := if key in db.consents then Some(db.consents[key]) else None;
    var available := if prior.Some? then Merged(prior.value, req.consented) else req.consented;
    var old_ := if key in db.consents then db.consents[key] else [];
    assert AfterPrior(req, pending, prior).ReadStored?;
    AloneUnfolds(db1, now, Login(req, ReadStored(pending, available)), {});
    var merged := Merged(old_, available);
    AloneUnfolds(db1, now, Login(req, Reload(pending, merged)), {});
    AloneUnfolds(db1, now, Login(req, Update(pending, merged)), {});
    AloneUnfolds(db1, now, Login(req, Insert(pending, merged)), {});
    var db2 := db1.(consents := db1.consents[key := merged]);
    AloneUnfolds(db2, now, Login(req, Issue(pending)), {});
    MergedExtends(old_, available);
    MergedExtends(old_, req.consented);
    assert Covers(merged, pending.scopes) by { WiderCovers(available, merged, pending.scopes); }
  }

  lemma WiderCovers(granted: seq<string>, wider: seq<string>, requested: seq<string>)
    requires Covers(granted, requested) && forall x :: x in granted ==> x in wider
    ensures Covers(wider, requested)
  {}

  /** A completion run by itself from where it stands continues any run. */
  lemma {:induction false} AloneIsRun(s: Sys, es: seq<Event>, tid: nat, failing: set<Access>) returns (all: seq<Event>)
    requires Valid(s, es) && tid in After(s, es).logins
    ensures Valid(s, all) && es <= all
    ensures var l := After(s, es).logins[tid];
            var (db', stage') := Alone(After(s, es).db, After(s, es).clock, l, failing);
            After(s, all) == After(s, es).(db := db', logins := After(s, es).logins[tid := l.(stage := stage')])
    decreases Rank(AccessOf(After(s, es).logins[tid].stage))
  {
    hide Exec;
    var here := After(s, es);
    var l := here.logins[tid];
    if IsOver(l.stage) {
      all := es;
      assert here.logins[tid := l] == here.logins;
    } else {
      var e := Run(tid, AccessOf(l.stage) in failing);
      StepsEnd(here.db, here.clock, l, e.fails);
      Extend(s, es, e);
      var next := Step(here, e);
      assert next.logins[tid].req == l.req;
      all := AloneIsRun(s, es + [e], tid, failing);
      var l' := next.logins[tid];
      var stage' := Alone(next.db, next.clock, l', failing).1;
      assert here.logins[tid := l'][tid := l'.(stage := stage')] == here.logins[tid := l.(stage := stage')];
    }
  }
}
