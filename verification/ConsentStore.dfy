/**
Interactions and consents updated in place (storage_interactions.go), and the gate of
api_OAuth2LoginComplete over them. A completion is proved to do exactly what the steps of Consent.Alone
do, which continue any run of the system (Consent.AloneIsRun). `failing` names the database accesses that
fail.
*/
module ConsentStore {
  import opened Options
  import opened Scopes
  import opened Consent

  /** The consent of the completion's user and client once scopes have been approved: the old list extended by
      exactly these, unless an access fails. */
  ghost predicate ConsentUpdated(db: Tables, db': Tables, key: ConsentKey, approved: seq<string>, failing: set<Access>) {
    var granted := if key in db.consents then db.consents[key] else [];
    if FindStored in failing || SaveConsent in failing || (key in db.consents && ReloadConsent in failing) then db'.consents == db.consents
    else
      && key in db'.consents && db'.consents == db.consents[key := db'.consents[key]]
      && granted <= db'.consents[key]
      && (forall x :: x in db'.consents[key] <==> x in granted || x in approved)
      && (IsDuplicateFree(granted) ==> IsDuplicateFree(db'.consents[key]))
  }

  /** The interaction is there for this provider, not expired, and can be claimed. */
  predicate IsClaimable(db: Tables, req: Request, now: int, failing: set<Access>) {
    && FindInteraction !in failing && ClaimInteraction !in failing && req.id != ""
    && req.id in db.interactions && db.interactions[req.id].prefix == req.prefix && now <= db.interactions[req.id].expires
  }

  /** Every scope asked for was approved now or is granted already. */
  predicate IsConsented(db: Tables, key: ConsentKey, asked: seq<string>, approved: seq<string>, failing: set<Access>) {
    forall x :: x in asked ==> x in approved || (FindPrior !in failing && key in db.consents && x in db.consents[key])
  }

  /** What a completion does and how it ends, told from the tables and the request. */
  ghost predicate LoginEnds(db: Tables, req: Request, now: int, failing: set<Access>, db': Tables, stage: Stage) {
    if !IsClaimable(db, req, now, failing) then db' == db && stage == NotFound
    else
      var pending := db.interactions[req.id];
      && db'.interactions == db.interactions - {req.id} && db'.drawn == db.drawn
      && match (req.decision, req.token)
         case (Deny, _) => db'.consents == db.consents && stage == Refused(pending, Denied)
         case (Neither, _) => db'.consents == db.consents && stage == Refused(pending, BadDecision)
         case (Approve, NoToken) => db'.consents == db.consents && stage == Refused(pending, LoginRequired)
         case (Approve, Unknown) => db'.consents == db.consents && stage == Refused(pending, LoginRequired)
         case (Approve, Broken) => db'.consents == db.consents && stage == Refused(pending, LookupFailed)
         case (Approve, Of(collection, user)) =>
           var key := ConsentKey(req.prefix, collection, user, pending.client);
           if collection != pending.collection then db'.consents == db.consents && stage == Refused(pending, WrongCollection)
           else if !IsConsented(db, key, pending.scopes, req.consented, failing) then
             db'.consents == db.consents && stage == Refused(pending, ConsentRequired)
           else
             && ConsentUpdated(db, db', key, req.consented, failing)
             && stage == if IssueCode in failing then Refused(pending, NotIssued) else Issued(pending, pending.scopes)
  }

  class LoginStore {
    var interactions: map<string, Interaction>
    ghost var drawn: set<string>
    var consents: map<ConsentKey, seq<string>>

    ghost function State(): Tables
      reads this
    {
      Tables(interactions, drawn, consents)
    }

    /** Every pending interaction has a drawn id, and no consent lists a scope twice. */
    ghost predicate Sound()
      reads this
    {
      interactions.Keys <= drawn && forall key :: key in consents ==> IsDuplicateFree(consents[key])
    }

    constructor ()
      ensures Sound() && State() == Rest(map[]).db
    {
      interactions, drawn, consents := map[], {}, map[];
    }

    /** CreateInteractionAt, under a fresh id. */
    method CreateInteractionAt(id: string, pending: Interaction)
      requires Sound() && id !in drawn
      modifies this`interactions, this`drawn
      ensures Sound()
      ensures interactions == old(interactions)[id := pending] && drawn == old(drawn) + {id}
    {
      interactions, drawn := interactions[id := pending], drawn + {id};
    }

    /** FindInteractionAt: the provider's own row, up to and including the second it expires. */
    method FindInteractionAt(prefix: string, id: string, now: int, failing: set<Access>) returns (found: Option<Interaction>)
      ensures found.Some? <==> FindInteraction !in failing && id != "" && id in interactions
                               && interactions[id].prefix == prefix && now <= interactions[id].expires
      ensures found.Some? ==> found.value == interactions[id]
    {
      if id == "" || FindInteraction in failing || id !in interactions || interactions[id].prefix != prefix { return None; }
      if now > interactions[id].expires { return None; }
      return Some(interactions[id]);
    }

    /** ConsumeInteractionAt: whoever deletes the row has claimed it. */
    method ConsumeInteractionAt(req: Request, now: int, failing: set<Access>) returns (claimed: Option<Interaction>)
      requires Sound()
      modifies this`interactions
      ensures Sound()
      ensures interactions == if claimed.Some? then old(interactions) - {req.id} else old(interactions)
      ensures claimed.Some? ==> req.id in old(interactions) && claimed.value == old(interactions)[req.id]
      ensures Alone(old(State()), now, Login(req, Find), failing)
           == Alone(State(), now, Login(req, if claimed.Some? then Gate(req, claimed.value) else NotFound), failing)
    {
      AloneUnfolds(State(), now, Login(req, Find), failing);
      var found := FindInteractionAt(req.prefix, req.id, now, failing);
      if found.None? { return None; }
      AloneUnfolds(State(), now, Login(req, Consume(found.value)), failing);
      if ClaimInteraction in failing { return None; }
      interactions := interactions - {req.id};
      return found;
    }

    /** FindConsentAt. */
    method FindConsentAt(key: ConsentKey, fails: bool) returns (ok: bool, found: Option<seq<string>>)
      ensures ok == !fails
      ensures found == if !fails && key in consents then Some(consents[key]) else None
    {
      ok, found := !fails, if !fails && key in consents then Some(consents[key]) else None;
    }

    /** UpsertConsentAt: on success the stored list is the merged one, otherwise nothing changes. */
    method UpsertConsentAt(key: ConsentKey, newScopes: seq<string>, failing: set<Access>) returns (merged: Option<seq<string>>)
      requires Sound()
      modifies this`consents
      ensures Sound()
      ensures merged.Some? <==> FindStored !in failing && SaveConsent !in failing && (key in old(consents) ==> ReloadConsent !in failing)
      ensures merged.Some? ==> merged.value == Merged(if key in old(consents) then old(consents)[key] else [], newScopes)
      ensures consents == if merged.Some? then old(consents)[key := merged.value] else old(consents)
    {
      var ok, existing := FindConsentAt(key, FindStored in failing);
      if !ok { return None; }
      var list := MergeScopes([], newScopes);
      if existing.Some? {
        list := MergeScopes(existing.value, newScopes);
        if ReloadConsent in failing { return None; }
      }
      if SaveConsent in failing { return None; }
      EmptyIsDistinct();
      MergedExtends(if existing.Some? then existing.value else [], newScopes);
      consents := consents[key := list];
      return Some(list);
    }

    /** api_OAuth2LoginComplete, from the claim to the code. */
    method LoginComplete(req: Request, now: int, failing: set<Access>) returns (stage: Stage)
      requires Sound()
      modifies this
      ensures Sound()
      ensures LoginEnds(old(State()), req, now, failing, State(), stage)
      ensures (State(), stage) == Alone(old(State()), now, Login(req, Find), failing)
      ensures stage.Issued? ==>
                && req.decision.Approve? && req.token.Of? && req.token.collection == stage.pending.collection
                && stage.scopes == stage.pending.scopes
                && (var key := KeyOf(req, stage.pending);
                    forall x :: x in stage.scopes ==> x in req.consented || (key in old(consents) && x in old(consents)[key]))
    {
      hide Alone, Merged, Exec, LoginEnds;
      CompletionEnds(State(), now, req, failing);
      forall db, l: Login | IsOver(l.stage) ensures Alone(db, now, l, failing) == (db, l.stage) { AloneEnds(db, now, l, failing); }
      var claimed := ConsumeInteractionAt(req, now, failing);
      if claimed.None? { return NotFound; }
      var pending := claimed.value;
      stage := Gate(req, pending);
      if stage.Refused? { return; }
      var key := KeyOf(req, pending);
      AloneUnfolds(State(), now, Login(req, ReadPrior(pending)), failing);
      ReadPriorStep(State(), now, req, pending, failing);
      var _, prior := FindConsentAt(key, FindPrior in failing);
      var available := req.consented;
      if prior.Some? {
        available := MergeScopes(prior.value, available);
        MergedExtends(prior.value, req.consented);
      }
      var covers := ConsentCovers(available, pending.scopes);
      if !covers { return Refused(pending, ConsentRequired); }
      UpsertStep(State(), now, req, pending, available, failing);
      var _ := UpsertConsentAt(key, available, failing);
      AloneUnfolds(State(), now, Login(req, Issue(pending)), failing);
      IssueStep(State(), now, req, pending, failing);
      stage := if IssueCode in failing then Refused(pending, NotIssued) else Issued(pending, pending.scopes);
    }
  }

  lemma ReadPriorStep(db: Tables, now: int, req: Request, pending: Interaction, failing: set<Access>)
    ensures var key := KeyOf(req, pending);
            Exec(db, now, Login(req, ReadPrior(pending)), FindPrior in failing)
            == (db, AfterPrior(req, pending, if FindPrior !in failing && key in db.consents then Some(db.consents[key]) else None))
  {}

  lemma IssueStep(db: Tables, now: int, req: Request, pending: Interaction, failing: set<Access>)
    ensures Exec(db, now, Login(req, Issue(pending)), IssueCode in failing)
         == (db, if IssueCode in failing then Refused(pending, NotIssued) else Issued(pending, pending.scopes))
  {}

  /** The steps of an update by itself. */
  lemma UpsertStep(db: Tables, now: int, req: Request, pending: Interaction, available: seq<string>, failing: set<Access>)
    ensures var key := KeyOf(req, pending);
            var done := FindStored !in failing && SaveConsent !in failing && (key in db.consents ==> ReloadConsent !in failing);
            var merged := Merged(if key in db.consents then db.consents[key] else [], available);
            Alone(db, now, Login(req, ReadStored(pending, available)), failing)
            == Alone(if done then db.(consents := db.consents[key := merged]) else db, now, Login(req, Issue(pending)), failing)
  {
    hide Alone, Merged;
    var key := KeyOf(req, pending);
    var merged := Merged(if key in db.consents then db.consents[key] else [], available);
    AloneUnfolds(db, now, Login(req, ReadStored(pending, available)), failing);
    AloneUnfolds(db, now, Login(req, Reload(pending, merged)), failing);
    AloneUnfolds(db, now, Login(req, Update(pending, merged)), failing);
    AloneUnfolds(db, now, Login(req, Insert(pending, merged)), failing);
  }

  /** A completion by itself issues a code exactly when the interaction is the provider's own, not expired and
      claimed, the user approves with a token of the pending collection, every scope asked for was approved now
      or is granted already, and issuing does not fail; every other case has its own refusal. */
  lemma CompletionEnds(db: Tables, now: int, req: Request, failing: set<Access>)
    ensures var (db', stage) := Alone(db, now, Login(req, Find), failing);
            LoginEnds(db, req, now, failing, db', stage)
  {
    hide Alone, Merged, ConsentUpdated;
    forall db, l: Login | IsOver(l.stage) ensures Alone(db, now, l, failing) == (db, l.stage) { AloneEnds(db, now, l, failing); }
    AloneUnfolds(db, now, Login(req, Find), failing);
    if req.id in db.interactions {
      var pending := db.interactions[req.id];
      AloneUnfolds(db, now, Login(req, Consume(pending)), failing);
      var db1 := db.(interactions := db.interactions - {req.id});
      if IsClaimable(db, req, now, failing) && Gate(req, pending).ReadPrior? {
        ConsentDecides(db1, now, req, pending, failing);
        SameConsents(db, db1, Alone(db1, now, Login(req, ReadPrior(pending)), failing).0, KeyOf(req, pending), req, failing);
      }
    }
  }

  lemma SameConsents(db: Tables, db1: Tables, db': Tables, key: ConsentKey, req: Request, failing: set<Access>)
    requires db1.consents == db.consents
    ensures ConsentUpdated(db1, db', key, req.consented, failing) == ConsentUpdated(db, db', key, req.consented, failing)
  {}

  /** The gate past the token. */
  lemma ConsentDecides(db: Tables, now: int, req: Request, pending: Interaction, failing: set<Access>)
    requires req.token.Of?
    ensures var (db', stage) := Alone(db, now, Login(req, ReadPrior(pending)), failing);
            var key := KeyOf(req, pending);
            && db'.interactions == db.interactions && db'.drawn == db.drawn
            && if !IsConsented(db, key, pending.scopes, req.consented, failing)
               then db'.consents == db.consents && stage == Refused(pending, ConsentRequired)
               else ConsentUpdated(db, db', key, req.consented, failing)
                    && stage == if IssueCode in failing then Refused(pending, NotIssued) else Issued(pending, pending.scopes)
  {
    hide Alone, Merged, Exec, IsDuplicateFree;
    forall db, l: Login | IsOver(l.stage) ensures Alone(db, now, l, failing) == (db, l.stage) { AloneEnds(db, now, l, failing); }
    var key := KeyOf(req, pending);
    var granted := if key in db.consents then db.consents[key] else [];
    var prior := if FindPrior !in failing && key in db.consents then Some(db.consents[key]) else None;
    var available := if prior.Some? then Merged(prior.value, req.consented) else req.consented;
    AloneUnfolds(db, now, Login(req, ReadPrior(pending)), failing);
    ReadPriorStep(db, now, req, pending, failing);
    if prior.Some? { MergedExtends(prior.value, req.consented); }
    if Covers(available, pending.scopes) {
      UpsertStep(db, now, req, pending, available, failing);
      MergedExtends(granted, available);
      var saved := FindStored !in failing && SaveConsent !in failing && (key in db.consents ==> ReloadConsent !in failing);
      var db' := if saved then db.(consents := db.consents[key := Merged(granted, available)]) else db;
      AloneUnfolds(db', now, Login(req, Issue(pending)), failing);
      IssueStep(db', now, req, pending, failing);
    }
  }
}
