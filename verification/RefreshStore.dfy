/**
OAuth2Store of storage.go, updating its tables in place. What an operation does and answers is stated
from the tables (RefreshEffects). Each operation is also proved to leave the tables and to answer exactly
as its call does when it runs alone (RefreshSequential.Alone), and that to be the end of a run of the
system (RefreshRuns.Answers), so what is proved about runs holds of these methods and they keep the
invariant of the tables. The clock and the generated ids are parameters, and `failing` are
the record ids of existing rows whose save or deletion the database refuses. `drawn` only records the ids
handed out.
*/
module RefreshStore {
  import opened Options
  import opened RefreshDb
  import opened RefreshInvariant
  import opened RefreshProtocol
  import opened RefreshSequential
  import opened RefreshOutcomes
  import opened RefreshRuns
  import opened RefreshEffects

  /** A query result in order: the keys of the map, latest row first. */
  predicate Lists(ks: seq<Key>, m: map<Key, RefreshRow>) {
    && (forall i :: 0 <= i < |ks| ==> ks[i] in m)
    && (forall k :: k in m ==> k in ks)
    && (forall i, j :: 0 <= i < j < |ks| ==> !Later(m[ks[j]], m[ks[i]]))
  }

  /** A row that cannot belong to a sound family of that id. */
  predicate Odd(row: RefreshRow, family: Id) {
    row.family == NO_ID || row.status.Unknown? || row.family != family
  }

  /** Some write of the transaction that condemns the families fails. */
  ghost predicate Breaks(db: Db, prefix: string, families: set<Id>, failing: set<Id>) {
    || (exists k :: k in db.refresh && k.prefix == prefix && db.refresh[k].family in families && db.refresh[k].id in failing)
    || (exists k :: k in db.access && k.prefix == prefix && db.access[k].request in RequestsOf(db, prefix, families)
                    && db.access[k].id in failing)
  }

  ghost predicate SomeFails(access: map<Key, AccessRow>, failing: set<Id>) { exists k :: k in access && access[k].id in failing }

  /** Some row that would go refuses to. */
  ghost predicate SomeLost(access: map<Key, AccessRow>, access': map<Key, AccessRow>, failing: set<Id>) {
    exists k :: k in access && k !in access' && access[k].id in failing
  }

  /** What deleting the access rows of a request leaves: every one is gone, or one refuses to go and some
      others may be gone. */
  ghost predicate Swept(db: Db, db': Db, rq: Request, failing: set<Id>, ok: bool) {
    ok == !SomeFails(AccessOf(db, rq), failing) && exists gone: set<Key> :: Deletes(db, db', rq, failing, ok, gone)
  }

  ghost predicate Deletes(db: Db, db': Db, rq: Request, failing: set<Id>, ok: bool, gone: set<Key>) {
    && gone <= AccessOf(db, rq).Keys && (ok ==> gone == AccessOf(db, rq).Keys)
    && db' == db.(access := db.access - gone) && forall k :: k in gone ==> db.access[k].id !in failing
  }

  /** What a failing deletion leaves of a call that otherwise leaves `want`: some access rows of the request
      in addition, one of which refuses to go. */
  ghost predicate LeftOver(db: Db, want: Db, got: Db, rq: Request, failing: set<Id>) {
    && got == want.(access := got.access)
    && (forall k :: k in want.access ==> k in got.access && got.access[k] == want.access[k])
    && (forall k :: k in got.access && k !in want.access ==> k in AccessOf(db, rq) && got.access[k] == db.access[k])
    && SomeFails(AccessOf(got, rq), failing)
  }

  /** After `n` rows: the first family id met, if any, and whether a row cannot belong to it. */
  ghost predicate FamilySeen(m: map<Key, RefreshRow>, ks: seq<Key>, n: nat, family: Id, corrupt: bool)
    requires n <= |ks| && forall i :: 0 <= i < |ks| ==> ks[i] in m
  {
    && (family == NO_ID <==> forall j :: 0 <= j < n ==> m[ks[j]].family == NO_ID)
    && (family != NO_ID ==> exists j :: 0 <= j < n && m[ks[j]].family == family)
    && (corrupt <==> exists j :: 0 <= j < n && Odd(m[ks[j]], family))
  }

  lemma NoFamilySeen(m: map<Key, RefreshRow>, ks: seq<Key>)
    requires forall i :: 0 <= i < |ks| ==> ks[i] in m
    ensures FamilySeen(m, ks, 0, NO_ID, false)
  {}

  lemma FamilySeenNext(m: map<Key, RefreshRow>, ks: seq<Key>, n: nat, family: Id, corrupt: bool)
    requires n < |ks| && (forall i :: 0 <= i < |ks| ==> ks[i] in m) && FamilySeen(m, ks, n, family, corrupt)
    ensures var row := m[ks[n]];
            var family' := if family == NO_ID then row.family else family;
            FamilySeen(m, ks, n + 1, family', corrupt || Odd(row, family'))
  {
    var family' := if family == NO_ID then m[ks[n]].family else family;
    if family == NO_ID && n > 0 { assert Odd(m[ks[0]], family) && Odd(m[ks[0]], family'); }
  }

  class OAuth2Store {
    const prefix: string
    var refresh: map<Key, RefreshRow>
    var access: map<Key, AccessRow>
    var tombs: map<Request, Tombstone>
    ghost var drawn: map<Id, string>

    ghost function Tables(): Db
      reads this
    {
      Db(refresh, access, tombs, drawn)
    }

    constructor (prefix: string)
      ensures this.prefix == prefix && Tables() == EMPTY
    {
      this.prefix := prefix;
      refresh, access, tombs, drawn := map[], map[], map[], map[];
    }

    // ----- queries -----

    /** The row that comes first in ORDER BY rotated_at DESC, id DESC. */
    method First(todo: set<Key>) returns (k: Key)
      requires todo != {} && todo <= refresh.Keys
      ensures IsLatest(refresh, todo, k)
    {
      k :| k in todo;
      var rest := todo - {k};
      while rest != {}
        invariant rest <= todo && k in todo - rest
        invariant forall j :: j in todo - rest ==> !Later(refresh[j], refresh[k])
      {
        var j :| j in rest;
        if Later(refresh[j], refresh[k]) { k := j; }
        rest := rest - {j};
      }
    }

    method SelectRefresh(requestId: string) returns (ks: seq<Key>)
      ensures Lists(ks, RefreshOf(Tables(), Request(prefix, requestId)))
    {
      ghost var m := RefreshOf(Tables(), Request(prefix, requestId));
      var todo := set k | k in refresh && k.prefix == prefix && refresh[k].request == requestId;
      ks := [];
      while todo != {}
        invariant todo <= m.Keys
        invariant forall i :: 0 <= i < |ks| ==> ks[i] in m
        invariant forall k :: k in m && k !in todo ==> k in ks
        invariant forall i, k :: 0 <= i < |ks| && k in todo ==> !Later(m[k], m[ks[i]])
        invariant forall i, j :: 0 <= i < j < |ks| ==> !Later(m[ks[j]], m[ks[i]])
      {
        var k := First(todo);
        ks := ks + [k];
        todo := todo - {k};
      }
    }

    // ----- resolveRefreshLineage -----

    /** The loop over the request's rows: the first family id, the most recently rotated row, and whether a
        terminal, an active or a corrupt row was seen. */
    method ScanLineage(ks: seq<Key>)
      returns (family: Id, parent: Option<Key>, terminalRow: bool, active: bool, corrupt: bool)
      requires forall i :: 0 <= i < |ks| ==> ks[i] in refresh
      ensures terminalRow <==> exists j :: 0 <= j < |ks| && IsTerminal(refresh[ks[j]].status)
      ensures active <==> exists j :: 0 <= j < |ks| && refresh[ks[j]].status.Active?
      ensures parent.None? <==> forall j :: 0 <= j < |ks| ==> !refresh[ks[j]].status.Rotated?
      ensures parent.Some? ==> exists i :: 0 <= i < |ks| && ks[i] == parent.value && refresh[ks[i]].status.Rotated?
                                           && forall j :: 0 <= j < i ==> !refresh[ks[j]].status.Rotated?
      ensures FamilySeen(refresh, ks, |ks|, family, corrupt)
    {
      hide FamilySeen;
      NoFamilySeen(refresh, ks);
      family, parent, terminalRow, active, corrupt := NO_ID, None, false, false, false;
      for i := 0 to |ks|
        invariant terminalRow <==> exists j :: 0 <= j < i && IsTerminal(refresh[ks[j]].status)
        invariant active <==> exists j :: 0 <= j < i && refresh[ks[j]].status.Active?
        invariant parent.None? <==> forall j :: 0 <= j < i ==> !refresh[ks[j]].status.Rotated?
        invariant parent.Some? ==> exists h :: 0 <= h < i && ks[h] == parent.value && refresh[ks[h]].status.Rotated?
                                               && forall j :: 0 <= j < h ==> !refresh[ks[j]].status.Rotated?
        invariant FamilySeen(refresh, ks, i, family, corrupt)
      {
        var row := refresh[ks[i]];
        FamilySeenNext(refresh, ks, i, family, corrupt);
        if row.family == NO_ID {
          corrupt := true;
        } else if family == NO_ID {
          family := row.family;
        } else if family != row.family {
          corrupt := true;
        }
        match row.status {
          case Reused => terminalRow := true;
          case Revoked => terminalRow := true;
          case Rotated => if parent == None { parent := Some(ks[i]); }
          case Active => active := true;
          case Unknown(_) => corrupt := true;
        }
        assert terminalRow <==> exists j :: 0 <= j < i + 1 && IsTerminal(refresh[ks[j]].status);
      }
    }

    method ResolveRefreshLineage(requestId: string, uuid: Id) returns (l: Lineage)
      requires Inv(Tables())
      ensures l == ResolveLineage(Tables(), Request(prefix, requestId), uuid)
    {
      if requestId == "" { return Corrupt; }
      if Request(prefix, requestId) in tombs { return Terminal; }
      var ks := SelectRefresh(requestId);
      ghost var m := RefreshOf(Tables(), Request(prefix, requestId));
      if ks == [] {
        assert m == map[];
        return Root(uuid);
      }
      assert ks[0] in m;
      var family, parent, terminalRow, active, corrupt := ScanLineage(ks);
      assert forall i :: 0 <= i < |ks| ==> ks[i] in m && m[ks[i]] == refresh[ks[i]];
      RowsDecide(ks, m, family);
      if terminalRow { return Terminal; }
      if corrupt { return Corrupt; }
      if active { return Busy; }
      if parent == None { return Corrupt; }
      FirstIsLatest(Tables(), Request(prefix, requestId), ks, parent.value);
      return Child(family, refresh[parent.value].id);
    }

    // ----- scopedRefreshArtifactAuthority -----

    /** `ok` is false where the source reports a request id spanning several families. */
    method ScopedRefreshArtifactAuthority(rq: Request) returns (ok: bool, family: Id, expires: int, count: nat)
      ensures var rows, own := RefreshOf(Tables(), rq), AccessOf(Tables(), rq);
              && ok == !Spans(rows)
              && (ok ==> family == ArtifactFamily(rows) && expires == ArtifactExpiry(rows, own)
                         && count == |rows.Keys| + |own.Keys|)
    {
      ghost var rows, own := RefreshOf(Tables(), rq), AccessOf(Tables(), rq);
      ok, family, expires, count := ScanRefresh(rq);
      if !ok { return false, NO_ID, 0, 0; }
      var left := set k | k in access && k.prefix == rq.prefix && access[k].request == rq.id;
      assert left == own.Keys;
      while left != {}
        invariant left <= own.Keys
        invariant expires >= 0 && forall k :: k in rows ==> rows[k].expires <= expires
        invariant forall k :: k in own && k !in left ==> own[k].expires <= expires
        invariant expires == 0 || (exists k :: k in rows && rows[k].expires == expires) || (exists k :: k in own && own[k].expires == expires)
        invariant count == |rows.Keys| + |own.Keys| - |left|
      {
        var k :| k in left;
        count := count + 1;
        if access[k].expires > expires { expires := access[k].expires; }
        left := left - {k};
      }
    }

    method ScanRefresh(rq: Request) returns (ok: bool, family: Id, expires: int, count: nat)
      ensures var rows := RefreshOf(Tables(), rq);
              && ok == !Spans(rows)
              && (ok ==> family == ArtifactFamily(rows) && expires >= 0 && count == |rows.Keys|
                         && (forall k :: k in rows ==> rows[k].expires <= expires)
                         && (expires == 0 || exists k :: k in rows && rows[k].expires == expires))
    {
      ghost var rows := RefreshOf(Tables(), rq);
      family, expires, count := NO_ID, 0, 0;
      var todo := set k | k in refresh && k.prefix == rq.prefix && refresh[k].request == rq.id;
      assert todo == rows.Keys;
      while todo != {}
        invariant todo <= rows.Keys
        invariant family == NO_ID <==> forall k :: k in rows && k !in todo ==> rows[k].family == NO_ID
        invariant forall k :: k in rows && k !in todo ==> rows[k].family == NO_ID || rows[k].family == family
        invariant family != NO_ID ==> exists k :: k in rows && rows[k].family == family
        invariant expires >= 0 && forall k :: k in rows && k !in todo ==> rows[k].expires <= expires
        invariant expires == 0 || exists k :: k in rows && rows[k].expires == expires
        invariant count == |rows.Keys| - |todo|
      {
        var k :| k in todo;
        count := count + 1;
        var candidate := refresh[k].family;
        if candidate != NO_ID {
          if family != NO_ID && family != candidate { return false, NO_ID, 0, 0; }
          family := candidate;
        }
        if refresh[k].expires > expires { expires := refresh[k].expires; }
        todo := todo - {k};
      }
      ok := true;
    }

    // ----- transactions -----

    method CommitRefreshTerminalAuthority(requestId: string, family: Id, expires: int, now: nat, id: Id) returns (done: bool)
      modifies this
      ensures (Tables(), done) == Commit(old(Tables()), Request(prefix, requestId), family,
                                         Max(expires, Seconds(now) + TOMBSTONE_LIFETIME), id)
      ensures AuthorityCommitted(old(Tables()), Request(prefix, requestId), family, expires, now, id, Tables(), done)
    {
      CommitEffectExact(Tables(), Request(prefix, requestId), family, expires, now, id);
      hide RefreshOf, AccessOf, Spans, ArtifactExpiry, ArtifactFamily, AuthorityCommitted;
      var rq := Request(prefix, requestId);
      if requestId == "" { return false; }
      var expiresAt := expires;
      if expiresAt < Seconds(now) + TOMBSTONE_LIFETIME { expiresAt := Seconds(now) + TOMBSTONE_LIFETIME; }
      var ok, found, artifactExpiry, _ := ScopedRefreshArtifactAuthority(rq);
      if !ok { return false; }
      if family != NO_ID && found != NO_ID && family != found { return false; }
      var familyId := if family == NO_ID then found else family;
      if expiresAt < artifactExpiry { expiresAt := artifactExpiry; }
      if rq in tombs {
        var record := tombs[rq];
        if record.family != NO_ID && familyId != NO_ID && record.family != familyId { return false; }
        if record.family == NO_ID && familyId != NO_ID { record := record.(family := familyId); }
        if record.expires < expiresAt { record := record.(expires := expiresAt); }
        tombs := tombs[rq := record];
      } else {
        tombs := tombs[rq := Tombstone(id, familyId, expiresAt)];
        drawn := drawn[id := prefix];
      }
      done := true;
    }

    /** The transaction of mutateRefreshFamily and revokeRefreshFamilyByRequestID: a write that fails rolls
        everything back. */
    method CondemnFamilies(families: set<Id>, status: Status, now: int, failing: set<Id>) returns (ok: bool)
      modifies this
      ensures Tables() == if ok then MutateFamilies(old(Tables()), prefix, families, status, now) else old(Tables())
      ensures ok <==> !Breaks(old(Tables()), prefix, families, failing)
    {
      var refresh0, access0 := refresh, access;
      ghost var db := Tables();
      var seen: set<string>;
      var rows := set k | k in refresh && k.prefix == prefix && refresh[k].family in families;
      ok, seen := CondemnRows(rows, status, now, failing);
      if ok {
        assert seen == RequestsOf(db, prefix, families);
        ok := DeleteAccessOf(seen, failing);
      }
      if !ok { refresh, access := refresh0, access0; }
    }

    /** The loop over the family's rows; `seen` collects their request ids. */
    method CondemnRows(rows: set<Key>, status: Status, now: int, failing: set<Id>) returns (ok: bool, seen: set<string>)
      requires rows <= refresh.Keys
      modifies this`refresh
      ensures ok ==> refresh.Keys == old(refresh).Keys
      ensures ok ==> forall k :: k in refresh ==> refresh[k] == if k in rows then Condemn(old(refresh)[k], status, now) else old(refresh)[k]
      ensures ok ==> seen == set k | k in rows && old(refresh)[k].request != "" :: old(refresh)[k].request
      ensures ok <==> forall k :: k in rows ==> old(refresh)[k].id !in failing
    {
      var refresh0, todo := refresh, rows;
      seen := {};
      while todo != {}
        invariant todo <= rows && refresh.Keys == refresh0.Keys
        invariant forall k :: k in refresh0 ==>
                    refresh[k] == if k in rows && k !in todo then Condemn(refresh0[k], status, now) else refresh0[k]
        invariant seen == set k | k in rows - todo && refresh0[k].request != "" :: refresh0[k].request
        invariant forall k :: k in rows - todo ==> refresh0[k].id !in failing
      {
        var k :| k in todo;
        var row := refresh[k];
        if row.request != "" { seen := seen + {row.request}; }
        row := row.(status := status);
        if status == Reused && row.reusedAt == 0 { row := row.(reusedAt := now); }
        if row.id in failing { return false, {}; }
        refresh, todo := refresh[k := row], todo - {k};
      }
      ok := true;
    }

    /** The loops over the requests seen and their access rows. */
    method DeleteAccessOf(seen: set<string>, failing: set<Id>) returns (ok: bool)
      modifies this`access
      ensures ok ==> access == map k | k in old(access) && !(k.prefix == prefix && old(access)[k].request in seen) :: old(access)[k]
      ensures ok <==> forall k :: k in old(access) && k.prefix == prefix && old(access)[k].request in seen ==>
                                    old(access)[k].id !in failing
    {
      var access0, requests := access, seen;
      while requests != {}
        invariant requests <= seen
        invariant access == map k | k in access0 && !(k.prefix == prefix && access0[k].request in seen - requests) :: access0[k]
        invariant forall k :: k in access0 && k.prefix == prefix && access0[k].request in seen - requests ==> access0[k].id !in failing
      {
        var r :| r in requests;
        ok := DeleteAccessRows(r, failing);
        if !ok { return false; }
        requests := requests - {r};
      }
      ok := true;
    }

    method DeleteAccessRows(requestId: string, failing: set<Id>) returns (ok: bool)
      modifies this`access
      ensures ok ==> access == map k | k in old(access) && !(k.prefix == prefix && old(access)[k].request == requestId) :: old(access)[k]
      ensures ok <==> forall k :: k in old(access) && k.prefix == prefix && old(access)[k].request == requestId ==>
                                    old(access)[k].id !in failing
    {
      var rows := set k | k in access && k.prefix == prefix && access[k].request == requestId;
      var todo := rows;
      while todo != {}
        invariant todo <= rows && access == old(access) - (rows - todo)
        invariant forall k :: k in rows - todo ==> old(access)[k].id !in failing
      {
        var k :| k in todo;
        if access[k].id in failing { return false; }
        access, todo := access - {k}, todo - {k};
      }
      ok := true;
    }

    method MutateRefreshFamily(family: Id, status: Status, now: int, failing: set<Id>) returns (ok: bool)
      modifies this
      ensures Tables() == if ok && family != NO_ID then MutateFamilies(old(Tables()), prefix, {family}, status, now) else old(Tables())
      ensures ok <==> family == NO_ID || !Breaks(old(Tables()), prefix, {family}, failing)
    {
      if family == NO_ID { return true; }
      ok := CondemnFamilies({family}, status, now, failing);
    }

    /** `broke` tells a failed row write from a row without family. */
    method RevokeRefreshFamilyByRequestID(requestId: string, now: int, failing: set<Id>) returns (ok: bool, broke: bool)
      modifies this
      ensures (Tables(), ok) == if broke then (old(Tables()), false) else RevokeByRequest(old(Tables()), Request(prefix, requestId), now)
      ensures var families := FamiliesOf(RefreshOf(old(Tables()), Request(prefix, requestId)));
              broke <==> NO_ID !in families && Breaks(old(Tables()), prefix, families, failing)
    {
      ghost var rows := RefreshOf(Tables(), Request(prefix, requestId));
      var todo := set k | k in refresh && k.prefix == prefix && refresh[k].request == requestId;
      var families: set<Id> := {};
      while todo != {}
        invariant todo <= rows.Keys
        invariant families == set k | k in rows && k !in todo :: rows[k].family
        invariant NO_ID !in families
      {
        var k :| k in todo;
        if refresh[k].family == NO_ID {
          assert rows[k].family in FamiliesOf(rows);
          return false, false;
        }
        families, todo := families + {refresh[k].family}, todo - {k};
      }
      assert families == FamiliesOf(rows);
      ok := CondemnFamilies(families, Revoked, now, failing);
      broke := !ok;
    }

    /** deleteSessionModelsByRequestID for access rows, one lone delete after the other, up to the first that
        fails. */
    method DeleteAccessByRequestID(requestId: string, failing: set<Id>) returns (ok: bool)
      modifies this`access
      ensures Swept(old(Tables()), Tables(), Request(prefix, requestId), failing, ok)
      ensures ok ==> Tables() == WithoutAccessOf(old(Tables()), Request(prefix, requestId))
    {
      ghost var own := AccessOf(Tables(), Request(prefix, requestId));
      var todo := set k | k in access && k.prefix == prefix && access[k].request == requestId;
      ghost var gone: set<Key> := {};
      assert todo == own.Keys;
      ok := true;
      while todo != {}
        invariant todo + gone == own.Keys
        invariant access == old(access) - gone
        invariant forall k :: k in gone ==> own[k].id !in failing
        invariant forall k :: k in todo ==> k in access && access[k] == own[k]
      {
        var k :| k in todo;
        if access[k].id in failing {
          assert Deletes(old(Tables()), Tables(), Request(prefix, requestId), failing, false, gone);
          return false;
        }
        access, todo, gone := access - {k}, todo - {k}, gone + {k};
      }
      assert Deletes(old(Tables()), Tables(), Request(prefix, requestId), failing, true, gone);
    }

    // ----- the store's operations -----

    method CreateAccessTokenSession(signature: string, requestId: string, expires: int, id: Id) returns (reply: Reply)
      requires Inv(Tables()) && Fresh(Tables(), id)
      modifies this
      ensures Inv(Tables())
      ensures AccessCreated(old(Tables()), Request(prefix, requestId), signature, expires, id, Tables(), reply)
      ensures (Tables(), reply) == CreateAccess(old(Tables()), Request(prefix, requestId), signature, expires, id)
      ensures forall now: nat ::
                Answers(old(Tables()), now, CreateAccessCall(Request(prefix, requestId), signature, expires), Tables(), reply)
    {
      CreateAccessKeepsInv(Tables(), Request(prefix, requestId), signature, expires, id);
      CreationAnswers(Tables(), CreateAccessCall(Request(prefix, requestId), signature, expires), id, NO_ID);
      var k := Key(prefix, signature);
      if requestId != "" && Request(prefix, requestId) in tombs { return Inactive; }
      if k in access { return Failed; }
      access := access[k := AccessRow(id, requestId, expires)];
      drawn := drawn[id := prefix];
      reply := Ok;
    }

    /** All or nothing: when a deletion of the clean-up fails nothing changes. */
    method CreateRefreshTokenSession(signature: string, accessSignature: string, requestId: string, expires: int, id: Id, uuid: Id,
                                     failing: set<Id>)
      returns (reply: Reply, stuck: bool)
      requires Inv(Tables()) && Fresh(Tables(), id) && Fresh(Tables(), uuid) && id != uuid
      modifies this
      ensures Inv(Tables())
      ensures (Tables(), reply)
              == if stuck then (old(Tables()), Failed)
                 else CreateRefresh(old(Tables()), Request(prefix, requestId), signature, accessSignature, expires, id, uuid)
      ensures RefreshCreated(old(Tables()), Request(prefix, requestId), signature, accessSignature, expires, id, uuid,
                             Tables(), reply, stuck)
      ensures stuck <==> CleanUpFails(old(Tables()), Request(prefix, requestId), accessSignature, failing)
      ensures forall now: nat ::
                Answers(old(Tables()), now, CreateRefreshCall(Request(prefix, requestId), signature, accessSignature, expires),
                        Tables(), reply)
    {
      ghost var rq := Request(prefix, requestId);
      ghost var call := CreateRefreshCall(rq, signature, accessSignature, expires);
      CreateRefreshKeepsInv(Tables(), rq, signature, accessSignature, expires, id, uuid);
      CreationAnswers(Tables(), call, id, uuid);
      RefreshCreationEffect(Tables(), rq, signature, accessSignature, expires, id, uuid);
      WhatCleanUpFails(Tables(), rq, signature, accessSignature, expires, id, uuid, failing);
      hide RefreshCreated, CleanUpFails;
      StuckCreation(Tables(), rq, signature, accessSignature, expires, id, uuid);
      var access0 := access;
      var l := ResolveRefreshLineage(requestId, uuid);
      if l.Terminal? {
        var ok := DeleteAccessByRequestID(requestId, failing);
        if !ok {
          access := access0;
          return Failed, true;
        }
        return Inactive, false;
      }
      if l.Busy? || l.Corrupt? {
        var candidate := Key(prefix, accessSignature);
        if accessSignature != "" && candidate in access && access[candidate].id in failing { return Failed, true; }
        if accessSignature != "" { access := access - {candidate}; }
        return if l.Busy? then Conflict else Failed, false;
      }
      var k := Key(prefix, signature);
      if k in refresh { return Failed, false; }
      var parent := if l.Child? then l.parent else NO_ID;
      refresh := refresh[k := RefreshRow(id, requestId, l.family, parent, Active, 0, 0, expires)];
      drawn := drawn[id := prefix];
      if l.Root? { drawn := drawn[l.family := prefix]; }
      reply, stuck := Ok, false;
    }

    /** `broke` tells whether the invalidating transaction failed, which it does exactly when the call detects
        reuse and some write of that transaction fails. */
    method GetRefreshTokenSession(signature: string, now: nat, id: Id, failing: set<Id>) returns (reply: Reply, broke: bool)
      requires Inv(Tables()) && Fresh(Tables(), id)
      modifies this
      ensures Inv(Tables())
      ensures RefreshGot(old(Tables()), Key(prefix, signature), now, Tables(), reply, broke)
      ensures var (db', t) := Alone(old(Tables()), now, GetRefreshCall(Key(prefix, signature)), id, NO_ID, broke);
              Tables() == db' && t.Done? && t.reply == reply
      ensures broke <==> DetectsReuse(old(Tables()), Key(prefix, signature))
                         && Breaks(old(Tables()), prefix, {old(refresh)[Key(prefix, signature)].family}, failing)
      ensures Answers(old(Tables()), now, GetRefreshCall(Key(prefix, signature)), Tables(), reply)
    {
      hide Alone, Commit, Invalidate, MutateFamilies, Breaks, Inv, Answers, RefreshOf, CanEnd, RefreshGot;
      ghost var db := Tables();
      broke := false;
      var key := Key(prefix, signature);
      GetRefreshBoth(db, now, key, id);
      GetRefreshAnswers(db, now, key, id);
      if key !in refresh {
        reply := NotFound;
      } else {
        var row := refresh[key];
        if row.request != "" && Request(prefix, row.request) in tombs {
          reply := Inactive;
        } else if row.status == Active {
          reply := Found(row);
        } else {
          OneFamily(db, key);
          CommitSucceeds(db, RequestOfRow(key, row), row.family, Max(row.expires, Seconds(now) + TOMBSTONE_LIFETIME), id);
          var stuck;
          reply, broke, stuck := CommitAndInvalidate(row.request, row.family, row.expires, false, now, id, failing);
        }
      }
      GetConcludes(db, now, key, id, broke);
    }

    /** The common end of a detected reuse: the tombstone first, then the family, then, after a lost
        rotation, the access rows once more. `stuck` tells whether one of these last deletions failed. */
    method CommitAndInvalidate(requestId: string, family: Id, expires: int, sweep: bool, now: nat, id: Id, failing: set<Id>)
      returns (reply: Reply, broke: bool, stuck: bool)
      requires Inv(Tables()) && Fresh(Tables(), id) && family != NO_ID
      modifies this
      ensures Inv(Tables())
      ensures var call := CommitClock(Request(prefix, requestId), family, expires, ThenInvalidate(family, sweep));
              var (db', t) := Alone(old(Tables()), now, call, id, NO_ID, broke);
              && t.Done? && Answers(old(Tables()), now, call, Tables(), reply)
              && (if stuck then reply.Failed? && LeftOver(old(Tables()), db', Tables(), Request(prefix, requestId), failing)
                  else Tables() == db' && reply == t.reply)
              && (stuck <==> !broke && sweep && t.reply.Inactive? && SomeFails(AccessOf(old(Tables()), Request(prefix, requestId)), failing))
      ensures broke <==> Commit(old(Tables()), Request(prefix, requestId), family, Max(expires, Seconds(now) + TOMBSTONE_LIFETIME), id).1
                         && Breaks(old(Tables()), prefix, {family}, failing)
    {
      hide Alone, Commit, Inv, Answers, Breaks, RefreshOf, CanEnd, Swept, MutateFamilies, LeftOver;
      ghost var db, rq := Tables(), Request(prefix, requestId);
      ghost var call := CommitClock(rq, family, expires, ThenInvalidate(family, sweep));
      ghost var until := Max(expires, Seconds(now) + TOMBSTONE_LIFETIME);
      CommitBoth(db, now, rq, family, expires, ThenInvalidate(family, sweep), id);
      var done := CommitRefreshTerminalAuthority(requestId, family, expires, now, id);
      stuck := false;
      CommitTouchesTombstones(db, rq, family, until, id);
      if !done {
        AnswersCommitted(db, now, rq, family, expires, ThenInvalidate(family, sweep), id, Tables(), Failed);
        CommitKeepsInv(db, rq, family, until, id);
        return Failed, false, false;
      }
      ghost var db1 := Tables();
      SameBreaks(db, db1, prefix, {family}, failing);
      var ok := MutateRefreshFamily(family, Reused, now, failing);
      InvalidateAlone(db1, now, rq, family, sweep, until, id, NO_ID, !ok);
      if !ok {
        AnswersFailed(db1, now, InvalidateTx(rq, family, sweep, until));
        AnswersCommitted(db, now, rq, family, expires, ThenInvalidate(family, sweep), id, Tables(), Failed);
        CommitKeepsInv(db, rq, family, until, id);
        return Failed, true, false;
      }
      ghost var db2 := Tables();
      if sweep {
        ok := DeleteAccessByRequestID(requestId, failing);
        stuck := !ok;
        SweptAnswers(db2, Tables(), now, rq, Inactive, Marked(rq, until), failing, ok);
        SweepAfterMutation(db, db1, db2, Tables(), rq, family, now, failing, ok);
      }
      reply := if stuck then Failed else Inactive;
      AnswersInvalidated(db1, now, rq, family, sweep, until, Tables(), reply);
      AnswersCommitted(db, now, rq, family, expires, ThenInvalidate(family, sweep), id, Tables(), reply);
      AnswersKeepInv(db, now, call, Tables(), reply);
      broke := false;
    }

    /** The status-flipping UPDATE ... WHERE status = active. */
    method UpdateToRotated(signature: string, at: int) returns (affected: bool)
      modifies this`refresh
      ensures (Tables(), affected) == MarkRotated(old(Tables()), Key(prefix, signature), at)
    {
      var k := Key(prefix, signature);
      affected := k in refresh && refresh[k].status == Active;
      if affected { refresh := refresh[k := refresh[k].(status := Rotated, rotatedAt := at)]; }
    }

    /** `broke` tells whether the transaction that invalidates a reused family failed, `stuck` whether one of
        the lone deletions of access rows at the end did; both exactly when they are reached and meet a row
        that refuses. */
    method RotateRefreshToken(requestId: string, signature: string, now: nat, id: Id, failing: set<Id>)
      returns (reply: Reply, broke: bool, stuck: bool)
      requires Inv(Tables()) && Fresh(Tables(), id)
      modifies this
      ensures Inv(Tables())
      ensures var rq := Request(prefix, requestId);
              var (db', t) := Alone(old(Tables()), now, RotateCall(rq, signature), id, NO_ID, broke);
              && t.Done? && Answers(old(Tables()), now, RotateCall(rq, signature), Tables(), reply)
              && (if stuck then reply.Failed? && LeftOver(old(Tables()), db', Tables(), rq, failing)
                  else Tables() == db' && reply == t.reply)
              && (stuck <==> !broke && (t.reply.Ok? || t.reply.Inactive?) && SomeFails(AccessOf(old(Tables()), rq), failing))
      ensures RefreshRotated(old(Tables()), Request(prefix, requestId), signature, now, Tables(), reply, broke, stuck)
      ensures stuck ==> SomeFails(AccessOf(old(Tables()), Request(prefix, requestId)), failing)
      ensures reply.Ok? || reply.Inactive? ==> !SomeFails(AccessOf(old(Tables()), Request(prefix, requestId)), failing)
      ensures broke <==> IsReplay(old(Tables()), Request(prefix, requestId), Key(prefix, signature))
                         && Breaks(old(Tables()), prefix, {old(refresh)[Key(prefix, signature)].family}, failing)
    {
      hide Alone, Commit, Invalidate, MutateFamilies, MarkRotated, Breaks, Inv, Answers, RefreshOf, CanEnd, Swept, LeftOver;
      hide RefreshRotated, IsReplay;
      ghost var db, rq := Tables(), Request(prefix, requestId);
      LosesIsReplay(db, rq, signature, now, id);
      RotateBoth(db, now, rq, signature, id);
      broke := false;
      if requestId != "" && Request(prefix, requestId) in tombs {
        var ok := DeleteAccessByRequestID(requestId, failing);
        SweptAnswers(db, Tables(), now, rq, Inactive, Unmarked, failing, ok);
        SweepAtEnd(db, db, Tables(), rq, failing, ok);
        reply, stuck := if ok then Inactive else Failed, !ok;
        AnswersRefused(db, now, rq, signature, Tables(), reply);
        AnswersKeepInv(db, now, RotateCall(rq, signature), Tables(), reply);
      } else {
        var affected := UpdateToRotated(signature, now);
        if affected {
          ghost var db1 := Tables();
          RotationTouchesOneRow(db, Key(prefix, signature), now);
          var ok := DeleteAccessByRequestID(requestId, failing);
          SweptAnswers(db1, Tables(), now, rq, Ok, Unmarked, failing, ok);
          SweepAtEnd(db, db1, Tables(), rq, failing, ok);
          reply, stuck := if ok then Ok else Failed, !ok;
          AnswersUpdated(db, now, rq, signature, Tables(), reply);
          AnswersKeepInv(db, now, RotateCall(rq, signature), Tables(), reply);
        } else {
          NotAffected(db, Key(prefix, signature), now);
          reply, broke, stuck := AnswerLostRotation(requestId, signature, now, id, failing);
          AnswersLost(db, now, rq, signature, Tables(), reply);
        }
      }
      RotateConcludes(db, now, rq, signature, id, Tables(), reply, broke, stuck, failing);
    }

    /** What markRefreshRotated does when its UPDATE has affected no row. */
    method AnswerLostRotation(requestId: string, signature: string, now: nat, id: Id, failing: set<Id>)
      returns (reply: Reply, broke: bool, stuck: bool)
      requires Inv(Tables()) && Fresh(Tables(), id)
      modifies this
      ensures Inv(Tables())
      ensures var rq := Request(prefix, requestId);
              var call := AfterLookup(old(Tables()), rq, signature);
              var (db', t) := Alone(old(Tables()), now, call, id, NO_ID, broke);
              && t.Done? && Answers(old(Tables()), now, call, Tables(), reply)
              && (if stuck then reply.Failed? && LeftOver(old(Tables()), db', Tables(), rq, failing)
                  else Tables() == db' && reply == t.reply)
              && (stuck <==> !broke && (t.reply.Ok? || t.reply.Inactive?) && SomeFails(AccessOf(old(Tables()), rq), failing))
      ensures broke <==> IsLateRotation(old(Tables()), Request(prefix, requestId), signature, now, id)
                         && Breaks(old(Tables()), prefix, {old(refresh)[Key(prefix, signature)].family}, failing)
    {
      hide Alone, Commit, Invalidate, MutateFamilies, Breaks, Inv, Answers, RefreshOf, CanEnd, Swept, LeftOver;
      ghost var db, rq := Tables(), Request(prefix, requestId);
      var key := Key(prefix, signature);
      if key in refresh && refresh[key].status == Rotated {
        OneFamily(db, key);
        InvalidationNeverOk(db, now, rq, refresh[key].family, refresh[key].expires, id);
        reply, broke, stuck := CommitAndInvalidate(requestId, refresh[key].family, refresh[key].expires, true, now, id, failing);
        return;
      }
      broke, stuck := false, false;
      var family, expires := NO_ID, 0;
      if key in refresh { family, expires := refresh[key].family, refresh[key].expires; }
      ghost var until := Max(expires, Seconds(now) + TOMBSTONE_LIFETIME);
      CommitBoth(db, now, rq, family, expires, ThenSweep, id);
      var done := CommitRefreshTerminalAuthority(requestId, family, expires, now, id);
      ghost var db1 := Tables();
      CommitKeepsInv(db, rq, family, until, id);
      CommitTouchesTombstones(db, rq, family, until, id);
      if !done {
        AnswersCommitted(db, now, rq, family, expires, ThenSweep, id, Tables(), Failed);
        return Failed, false, false;
      }
      SweepFindAlone(db1, now, rq, Inactive, Marked(rq, until), id, NO_ID, false);
      var ok := DeleteAccessByRequestID(requestId, failing);
      SweptAnswers(db1, Tables(), now, rq, Inactive, Marked(rq, until), failing, ok);
      SweepAtEnd(db, db1, Tables(), rq, failing, ok);
      reply, stuck := if ok then Inactive else Failed, !ok;
      AnswersCommitted(db, now, rq, family, expires, ThenSweep, id, Tables(), reply);
      AnswersKeepInv(db, now, AfterLookup(db, rq, signature), Tables(), reply);
    }

    /** `broke` tells whether the revoking transaction failed: the call reached it, and some write failed. */
    method RevokeRefreshToken(requestId: string, now: nat, id: Id, failing: set<Id>) returns (reply: Reply, broke: bool)
      requires Inv(Tables()) && Fresh(Tables(), id)
      modifies this
      ensures Inv(Tables())
      ensures RefreshRevoked(old(Tables()), Request(prefix, requestId), now, Tables(), reply, broke)
      ensures var (db', t) := Alone(old(Tables()), now, RevokeRefreshCall(Request(prefix, requestId)), id, NO_ID, broke);
              Tables() == db' && t.Done? && t.reply == reply
      ensures broke <==> requestId != ""
                         && Breaks(old(Tables()), prefix, FamiliesOf(RefreshOf(old(Tables()), Request(prefix, requestId))), failing)
      ensures Answers(old(Tables()), now, RevokeRefreshCall(Request(prefix, requestId)), Tables(), reply)
    {
      hide Alone, Commit, RevokeByRequest, Inv, Answers, Breaks, CanEnd, RefreshRevoked, AuthorityCommitted;
      ghost var db, rq := Tables(), Request(prefix, requestId);
      ghost var until := Max(0, Seconds(now) + TOMBSTONE_LIFETIME);
      CommitBoth(db, now, rq, NO_ID, 0, ThenRevoke, id);
      if requestId == "" { NothingCommitted(db, rq, NO_ID, until, id); } else { CommitSucceeds(db, rq, NO_ID, until, id); }
      var done := CommitRefreshTerminalAuthority(requestId, NO_ID, 0, now, id);
      if done {
        ghost var db1 := Tables();
        SameQueries(db, db1, rq);
        SameBreaks(db, db1, prefix, FamiliesOf(RefreshOf(db, rq)), failing);
        NoEmptyFamily(db, rq);
        var ok;
        ok, broke := RevokeRefreshFamilyByRequestID(requestId, now, failing);
        RevokeTxAlone(db1, now, rq, until, id, NO_ID, broke);
        reply := if ok then Ok else Failed;
      } else {
        reply, broke := Failed, false;
      }
      RevokeEffect(db, now, rq, id, broke);
      AnswersAlone(db, now, RevokeRefreshCall(rq), id, NO_ID, broke);
      AnswersKeepInv(db, now, RevokeRefreshCall(rq), Tables(), reply);
    }

    /** RevokeAccessToken: every access row of the request goes, or a deletion fails. */
    method RevokeAccessToken(requestId: string, failing: set<Id>) returns (reply: Reply)
      requires Inv(Tables())
      modifies this`access
      ensures Inv(Tables())
      ensures (reply.Ok? || reply.Failed?) && Swept(old(Tables()), Tables(), Request(prefix, requestId), failing, reply.Ok?)
      ensures forall now: nat :: Answers(old(Tables()), now, RevokeAccessCall(Request(prefix, requestId)), Tables(), reply)
    {
      hide Inv, Answers, Swept;
      ghost var db, rq := Tables(), Request(prefix, requestId);
      var ok := DeleteAccessByRequestID(requestId, failing);
      reply := if ok then Ok else Failed;
      forall now: nat ensures Answers(db, now, RevokeAccessCall(rq), Tables(), reply) {
        SweptAnswers(db, Tables(), now, rq, Ok, Unmarked, failing, ok);
      }
      AnswersKeepInv(db, 0, RevokeAccessCall(rq), Tables(), reply);
    }

    /** assertRefreshFamilyAllowsAccess: nothing is answered when access is allowed. */
    method AssertRefreshFamilyAllowsAccess(requestId: string) returns (refusal: Option<Reply>)
      ensures var rq := Request(prefix, requestId);
              refusal.None? <==> requestId == "" || (rq !in tombs && forall k :: k in RefreshOf(Tables(), rq) ==>
                                    refresh[k].status.Active? || refresh[k].status.Rotated?)
      ensures refusal.Some? ==> refusal.value.Inactive? || refusal.value.Failed?
      ensures refusal == Some(Failed) ==> HasUnknown(RefreshOf(Tables(), Request(prefix, requestId)))
    {
      if requestId == "" { return None; }
      if Request(prefix, requestId) in tombs { return Some(Inactive); }
      ghost var rows := RefreshOf(Tables(), Request(prefix, requestId));
      var todo := set k | k in refresh && k.prefix == prefix && refresh[k].request == requestId;
      while todo != {}
        invariant todo <= rows.Keys
        invariant forall k :: k in rows && k !in todo ==> rows[k].status.Active? || rows[k].status.Rotated?
      {
        var k :| k in todo;
        match refresh[k].status {
          case Active =>
          case Rotated =>
          case Reused => return Some(Inactive);
          case Revoked => return Some(Inactive);
          case Unknown(_) =>
            assert rows[k].status.Unknown?;
            return Some(Failed);
        }
        todo := todo - {k};
      }
      refusal := None;
    }

    /** What lets an access token of a stored row through. */
    ghost predicate AllowsAccess(row: AccessRow)
      reads this
    {
      var rq := Request(prefix, row.request);
      row.request == "" || (rq !in tombs && forall k :: k in RefreshOf(Tables(), rq) ==>
                              refresh[k].status.Active? || refresh[k].status.Rotated?)
    }

    /** The store's part of GetAccessTokenSession, ValidateAccessToken and RevokedTokenGuardAt, and with
        `attest` of ValidateAccessTokenAuthorityAt, which also looks at the row's expiry. */
    method CheckAccess(signature: string, attest: bool, now: nat) returns (reply: Reply)
      requires Inv(Tables())
      ensures var key := Key(prefix, signature);
              && (reply.Accepted? <==> !attest && key in access && AllowsAccess(access[key]))
              && (reply.Attested? <==> attest && key in access && AllowsAccess(access[key]) && access[key].expires * 1_000_000 > now)
              && (reply.Accepted? || reply.Attested? ==> reply.access == access[key])
              && (reply.NotFound? <==> key !in access)
              && (reply.Accepted? || reply.Attested? || reply.NotFound? || reply.Inactive?)
      ensures Answers(Tables(), now, CheckCall(Key(prefix, signature), attest), Tables(), reply)
    {
      hide Inv, Answers;
      var key := Key(prefix, signature);
      CheckAnswers(Tables(), now, key, attest);
      if key !in access { return NotFound; }
      NoUnknownRow(Tables(), Request(prefix, access[key].request));
      var refusal := AssertRefreshFamilyAllowsAccess(access[key].request);
      if refusal.Some? { return refusal.value; }
      if !attest { return Accepted(access[key]); }
      return if access[key].expires * 1_000_000 > now then Attested(access[key]) else Inactive;
    }

    /** DeleteRefreshTokenSession keeps terminal rows. */
    method DeleteRefreshTokenSession(signature: string, failing: set<Id>) returns (reply: Reply)
      requires Inv(Tables())
      modifies this`refresh
      ensures Inv(Tables())
      ensures var key := Key(prefix, signature);
              var doomed := key in old(refresh) && old(refresh)[key].status != Reused && old(refresh)[key].status != Revoked;
              && reply == (if doomed && old(refresh)[key].id in failing then Failed else Ok)
              && refresh == if doomed && reply.Ok? then old(refresh) - {key} else old(refresh)
      ensures forall now: nat :: Answers(old(Tables()), now, DeleteRefreshCall(Key(prefix, signature)), Tables(), reply)
    {
      ghost var db := Tables();
      var key := Key(prefix, signature);
      reply := Ok;
      if key in refresh && refresh[key].status != Reused && refresh[key].status != Revoked {
        if refresh[key].id in failing { reply := Failed; } else { refresh := refresh - {key}; }
      }
      forall now: nat ensures Answers(db, now, DeleteRefreshCall(key), Tables(), reply) { DeletionAnswers(db, now, key, Tables(), reply); }
      AnswersKeepInv(db, 0, DeleteRefreshCall(key), Tables(), reply);
    }

    /** DeleteAccessTokenSession. */
    method DeleteAccessTokenSession(signature: string, failing: set<Id>) returns (reply: Reply)
      requires Inv(Tables())
      modifies this`access
      ensures Inv(Tables())
      ensures var key := Key(prefix, signature);
              && reply == (if key in old(access) && old(access)[key].id in failing then Failed else Ok)
              && access == if reply.Ok? then old(access) - {key} else old(access)
      ensures forall now: nat :: Answers(old(Tables()), now, DeleteAccessCall(Key(prefix, signature)), Tables(), reply)
    {
      ghost var db := Tables();
      var key := Key(prefix, signature);
      reply := Ok;
      if key in access && access[key].id in failing { reply := Failed; } else { access := access - {key}; }
      forall now: nat ensures Answers(db, now, DeleteAccessCall(key), Tables(), reply) {
        AccessDeletionAnswers(db, now, key, Tables(), reply);
      }
      AnswersKeepInv(db, 0, DeleteAccessCall(key), Tables(), reply);
    }

    // ----- the cleanup job -----

    /** The cleanup job: expired rows go unless they refuse to; then an expired tombstone goes if its request
        has no row left, and is extended if it has; and a tombstone that refuses stays as it is. */
    method CleanupExpired(now: nat, failing: set<Id>)
      requires Inv(Tables())
      modifies this`refresh, this`access, this`tombs
      ensures Inv(Tables())
      ensures refresh == map k | k in old(refresh) && (old(refresh)[k].expires >= Seconds(now) || old(refresh)[k].id in failing)
                           :: old(refresh)[k]
      ensures access == map k | k in old(access) && (old(access)[k].expires >= Seconds(now) || old(access)[k].id in failing)
                          :: old(access)[k]
      ensures tombs.Keys <= old(tombs).Keys
      ensures forall rq :: rq in old(tombs) ==> IsCleaned(old(tombs)[rq], Tables(), rq, now, failing)
    {
      hide CleanTombstone, Inv, RefreshOf, AccessOf, IsCleaned;
      ghost var db := Tables();
      DeleteExpiredRows(now, failing);
      ghost var db1 := Tables();
      DeletionKeepsInv(db, db1);
      var stale := set rq | rq in tombs && tombs[rq].expires < Seconds(now);
      var todo := stale;
      forall rq | rq in tombs && rq !in stale ensures IsCleaned(db1.tombs[rq], Tables(), rq, now, failing) {
        NotStale(Tables(), rq, now, failing);
      }
      while todo != {}
        invariant todo <= stale <= db1.tombs.Keys && tombs.Keys <= db1.tombs.Keys
        invariant refresh == db1.refresh && access == db1.access && drawn == db1.drawn && Inv(Tables())
        invariant forall rq :: rq in db1.tombs && (rq !in stale || rq in todo) ==> rq in tombs && tombs[rq] == db1.tombs[rq]
        invariant forall rq :: rq in db1.tombs && rq !in todo ==> IsCleaned(db1.tombs[rq], Tables(), rq, now, failing)
      {
        var rq :| rq in todo;
        ghost var db2 := Tables();
        CleaningOne(db2, rq, now, failing);
        if tombs[rq].id !in failing {
          CleanTombstoneKeepsInv(db2, rq, tombs[rq].id, now, now);
          CleanTombstoneOf(rq, tombs[rq].id, now, now);
        }
        forall q | q in db1.tombs && q !in todo ensures IsCleaned(db1.tombs[q], Tables(), q, now, failing) {
          if q != rq { StaysCleaned(db1.tombs[q], db2, Tables(), q, now, failing); }
        }
        todo := todo - {rq};
      }
    }

    method DeleteExpiredRows(now: int, failing: set<Id>)
      modifies this`refresh, this`access
      ensures refresh == map k | k in old(refresh) && (old(refresh)[k].expires >= Seconds(now) || old(refresh)[k].id in failing)
                           :: old(refresh)[k]
      ensures access == map k | k in old(access) && (old(access)[k].expires >= Seconds(now) || old(access)[k].id in failing)
                          :: old(access)[k]
    {
      var expired := set k | k in access && access[k].expires < Seconds(now);
      var todo := expired;
      while todo != {}
        invariant todo <= expired && refresh == old(refresh)
        invariant access == map k | k in old(access) && (k !in expired || k in todo || old(access)[k].id in failing) :: old(access)[k]
      {
        var k :| k in todo;
        if access[k].id !in failing { access := access - {k}; }
        todo := todo - {k};
      }
      expired := set k | k in refresh && refresh[k].expires < Seconds(now);
      todo := expired;
      while todo != {}
        invariant todo <= expired
        invariant refresh == map k | k in old(refresh) && (k !in expired || k in todo || old(refresh)[k].id in failing) :: old(refresh)[k]
        invariant access == map k | k in old(access) && (old(access)[k].expires >= Seconds(now) || old(access)[k].id in failing)
                              :: old(access)[k]
      {
        var k :| k in todo;
        if refresh[k].id !in failing { refresh := refresh - {k}; }
        todo := todo - {k};
      }
    }

    /** One transaction of cleanupExpiredRefreshTombstones. */
    method CleanTombstoneOf(rq: Request, id: Id, at: int, now: int)
      modifies this`tombs
      ensures Tables() == CleanTombstone(old(Tables()), rq, id, at, now)
    {
      hide RefreshOf, AccessOf, Spans, ArtifactExpiry;
      if rq !in tombs || tombs[rq].id != id { return; }
      if tombs[rq].expires >= Seconds(at) { return; }
      var ok, _, artifactExpiry, count := ScopedRefreshArtifactAuthority(rq);
      CountsNothing(RefreshOf(Tables(), rq), AccessOf(Tables(), rq));
      if !ok { return; }
      if count > 0 {
        var retry := Seconds(now) + TOMBSTONE_LIFETIME;
        if artifactExpiry > retry { retry := artifactExpiry; }
        tombs := tombs[rq := tombs[rq].(expires := retry)];
      } else {
        tombs := tombs - {rq};
      }
    }
  }

  // ----- calls run alone, whether or not their clean-up breaks -----

  lemma GetRefreshBoth(db: Db, now: int, key: Key, id: Id)
    ensures forall breaks ::
              Alone(db, now, GetRefreshCall(key), id, NO_ID, breaks)
              == if key !in db.refresh then (db, Done(key.prefix, NotFound, Unmarked))
                 else if HasAuthority(db, RequestOfRow(key, db.refresh[key])) then (db, Done(key.prefix, Inactive, Unmarked))
                 else if db.refresh[key].status.Active? then (db, Done(key.prefix, Found(db.refresh[key]), Unmarked))
                 else Alone(db, now, CommitClock(RequestOfRow(key, db.refresh[key]), db.refresh[key].family, db.refresh[key].expires,
                                                 ThenInvalidate(db.refresh[key].family, false)), id, NO_ID, breaks)
  {
    hide Alone;
    GetRefreshAlone(db, now, key, id, NO_ID, false);
    GetRefreshAlone(db, now, key, id, NO_ID, true);
  }

  lemma CommitBoth(db: Db, now: int, rq: Request, family: Id, expires: int, next: Next, id: Id)
    ensures forall breaks ::
              Alone(db, now, CommitClock(rq, family, expires, next), id, NO_ID, breaks)
              == var until := Max(expires, Seconds(now) + TOMBSTONE_LIFETIME);
                 var (db', done) := Commit(db, rq, family, until, id);
                 if done then Alone(db', now, AfterCommit(rq, until, next), id, NO_ID, breaks)
                 else (db', Done(rq.prefix, Failed, Unmarked))
  {
    hide Alone, Commit;
    CommitAlone(db, now, rq, family, expires, next, id, NO_ID, false);
    CommitAlone(db, now, rq, family, expires, next, id, NO_ID, true);
  }

  lemma RotateBoth(db: Db, now: int, rq: Request, signature: string, id: Id)
    ensures forall breaks ::
              Alone(db, now, RotateCall(rq, signature), id, NO_ID, breaks)
              == var (db', hit) := MarkRotated(db, Key(rq.prefix, signature), now);
                 if HasAuthority(db, rq) then (WithoutAccessOf(db, rq), Done(rq.prefix, Inactive, Unmarked))
                 else if hit then (WithoutAccessOf(db', rq), Done(rq.prefix, Ok, Unmarked))
                 else Alone(db, now, AfterLookup(db, rq, signature), id, NO_ID, breaks)
  {
    hide Alone, MarkRotated;
    RotateAlone(db, now, rq, signature, id, NO_ID, false);
    RotateAlone(db, now, rq, signature, id, NO_ID, true);
  }

  lemma NotAffected(db: Db, k: Key, at: int)
    requires !MarkRotated(db, k, at).1
    ensures MarkRotated(db, k, at).0 == db
  {}

  // ----- what the operations add up to -----

  /** GetRefreshTokenSession answers this row with reuse detection. */
  ghost predicate DetectsReuse(db: Db, key: Key) {
    key in db.refresh && !HasAuthority(db, RequestOfRow(key, db.refresh[key])) && !db.refresh[key].status.Active?
  }

  /** The row has been rotated before, and its tombstone can be committed for the caller's request. */
  ghost predicate IsLateRotation(db: Db, rq: Request, signature: string, now: int, id: Id) {
    var key := Key(rq.prefix, signature);
    && key in db.refresh && db.refresh[key].status.Rotated?
    && Commit(db, rq, db.refresh[key].family, Max(db.refresh[key].expires, Seconds(now) + TOMBSTONE_LIFETIME), id).1
  }

  ghost predicate LosesToRotation(db: Db, rq: Request, signature: string, now: int, id: Id) {
    !HasAuthority(db, rq) && IsLateRotation(db, rq, signature, now, id)
  }

  /** The transaction of a creating call. */
  ghost function Created(db: Db, call: Task, id: Id, uuid: Id): (Db, Reply)
    requires call.CreateAccessCall? || call.CreateRefreshCall?
  {
    if call.CreateAccessCall? then CreateAccess(db, call.rq, call.signature, call.expires, id)
    else CreateRefresh(db, call.rq, call.signature, call.accessSignature, call.expires, id, uuid)
  }

  lemma CreationAnswers(db: Db, call: Task, id: Id, uuid: Id)
    requires call.CreateAccessCall? || (call.CreateRefreshCall? && Fresh(db, uuid) && id != uuid)
    requires Fresh(db, id)
    ensures forall now: nat, db', reply :: (db', reply) == Created(db, call, id, uuid) || (db', reply) == (db, Failed) ==>
              Answers(db, now, call, db', reply)
  {
    hide Answers, CreateAccess, CreateRefresh, CanEnd;
    var other := FreshId(db, id);
    var c := Choice(id, if call.CreateRefreshCall? then uuid else other, Record(Key("", ""), NO_ID), NoFault);
    var (db', reply) := Created(db, call, id, uuid);
    forall now: nat ensures Answers(db, now, call, db', reply) && Answers(db, now, call, db, Failed) {
      assert Exec(db, now, call, c) == (db', Done(call.rq.prefix, reply, Unmarked));
      AnswersDone(db', now, call.rq.prefix, reply, Unmarked);
      AnswersBefore(db, now, call, c, db', reply);
      AnswersFailed(db, now, call);
    }
  }

  /** The rows whose deletion can fail are those that would go. */
  lemma WhatCleanUpFails(db: Db, rq: Request, signature: string, accessSignature: string, expires: int, id: Id, uuid: Id, failing: set<Id>)
    requires Inv(db) && Fresh(db, uuid)
    ensures var db' := CreateRefresh(db, rq, signature, accessSignature, expires, id, uuid).0;
            SomeLost(db.access, db'.access, failing) <==> CleanUpFails(db, rq, accessSignature, failing)
  {
    hide CreateRefresh, CleansUp, RefreshCreated, Inv;
    RefreshCreationEffect(db, rq, signature, accessSignature, expires, id, uuid);
    var (db', reply) := CreateRefresh(db, rq, signature, accessSignature, expires, id, uuid);
    forall k ensures CleansUp(db, rq, accessSignature, k) <==> k in db.access && k !in db'.access {
      CleanUpIsWhatGoes(db, rq, signature, accessSignature, expires, id, uuid, db', reply, k);
    }
    if CleanUpFails(db, rq, accessSignature, failing) {
      var k :| CleansUp(db, rq, accessSignature, k) && db.access[k].id in failing;
      assert k in db.access && k !in db'.access;
    }
  }

  lemma StuckCreation(db: Db, rq: Request, signature: string, accessSignature: string, expires: int, id: Id, uuid: Id)
    ensures RefreshCreated(db, rq, signature, accessSignature, expires, id, uuid, db, Failed, true)
  {}

  lemma GetConcludes(db: Db, now: int, key: Key, id: Id, broke: bool)
    requires Inv(db) && Fresh(db, id) && (broke ==> DetectsReuse(db, key))
    ensures var (db', t) := Alone(db, now, GetRefreshCall(key), id, NO_ID, broke);
            t.Done? && RefreshGot(db, key, now, db', t.reply, broke)
  {
    hide Alone, RefreshGot, Inv;
    if broke { OneFamily(db, key); }
    GetEffect(db, now, key, id, broke);
  }

  lemma LosesIsReplay(db: Db, rq: Request, signature: string, now: int, id: Id)
    requires Inv(db)
    ensures LosesToRotation(db, rq, signature, now, id) <==> IsReplay(db, rq, Key(rq.prefix, signature))
  {
    hide Commit, IsForeign, Inv;
    var key := Key(rq.prefix, signature);
    if key in db.refresh {
      var until := Max(db.refresh[key].expires, Seconds(now) + TOMBSTONE_LIFETIME);
      if rq.id == "" { NothingCommitted(db, rq, db.refresh[key].family, until, id); }
      else if rq !in db.tombs { LostCommit(db, rq, key, until, id); }
    }
  }

  /** The effect of a rotation, from what its call does by itself and what a failing deletion leaves. */
  lemma RotateConcludes(db: Db, now: int, rq: Request, signature: string, id: Id, got: Db, reply: Reply, broke: bool, stuck: bool,
                        failing: set<Id>)
    requires Inv(db) && Fresh(db, id) && (broke ==> IsReplay(db, rq, Key(rq.prefix, signature)))
    requires var (want, t) := Alone(db, now, RotateCall(rq, signature), id, NO_ID, broke);
             && t.Done?
             && (if stuck then reply.Failed? && LeftOver(db, want, got, rq, failing) else got == want && reply == t.reply)
             && (stuck <==> !broke && (t.reply.Ok? || t.reply.Inactive?) && SomeFails(AccessOf(db, rq), failing))
    ensures RefreshRotated(db, rq, signature, now, got, reply, broke, stuck)
    ensures stuck ==> SomeFails(AccessOf(db, rq), failing)
    ensures reply.Ok? || reply.Inactive? ==> !SomeFails(AccessOf(db, rq), failing)
  {
    hide Alone, Inv, LeftOver, SomeFails, SweepsBoth, FamilyTurned, Entombs;
    RotateEffect(db, now, rq, signature, id, broke);
    var (want, t) := Alone(db, now, RotateCall(rq, signature), id, NO_ID, broke);
    if stuck { StuckEffect(db, rq, signature, now, want, t.reply, got, failing); }
  }

  /** A rotation whose last deletions fail has done all the rest. */
  lemma StuckEffect(db: Db, rq: Request, signature: string, now: int, want: Db, reply: Reply, got: Db, failing: set<Id>)
    requires RefreshRotated(db, rq, signature, now, want, reply, false, false) && (reply.Ok? || reply.Inactive?)
    requires LeftOver(db, want, got, rq, failing)
    ensures RefreshRotated(db, rq, signature, now, got, Failed, false, true)
  {
    hide Entombs, FamilyTurned, SweepsBoth, IsForeign, LeftOver;
    forall owner: Request ensures SweepsBoth(db, want, rq, owner, false) ==> SweepsBoth(db, got, rq, owner, true) {
      LeftOverSweeps(db, want, got, rq, owner, failing);
    }
    LeftOverTables(db, want, got, rq, failing);
    forall q, least ensures Entombs(db, want, q, least) ==> Entombs(db, got, q, least) { SameEntombs(db, want, got, q, least); }
    forall q ensures FamilyTurned(db, want, q, Reused, now) ==> FamilyTurned(db, got, q, Reused, now) { SameTurned(db, want, got, q, now); }
  }

  lemma LeftOverTables(db: Db, want: Db, got: Db, rq: Request, failing: set<Id>)
    requires LeftOver(db, want, got, rq, failing)
    ensures got.refresh == want.refresh && got.tombs == want.tombs
  {}

  lemma LeftOverSweeps(db: Db, want: Db, got: Db, rq: Request, owner: Request, failing: set<Id>)
    requires LeftOver(db, want, got, rq, failing)
    ensures SweepsBoth(db, want, rq, owner, false) ==> SweepsBoth(db, got, rq, owner, true)
  {}

  lemma SameEntombs(db: Db, want: Db, got: Db, rq: Request, least: int)
    requires got.tombs == want.tombs
    ensures Entombs(db, want, rq, least) ==> Entombs(db, got, rq, least)
  {}

  lemma SameTurned(db: Db, want: Db, got: Db, rq: Request, now: int)
    requires got.refresh == want.refresh
    ensures FamilyTurned(db, want, rq, Reused, now) ==> FamilyTurned(db, got, rq, Reused, now)
  {}

  lemma AccessDeletionAnswers(db: Db, now: nat, key: Key, db': Db, reply: Reply)
    requires (db' == db && key in db.access && reply == Failed) || (db' == db.(access := db.access - {key}) && reply == Ok)
    ensures Answers(db, now, DeleteAccessCall(key), db', reply)
  {
    hide Answers;
    var c := NewChoice(db);
    if key in db.access {
      var t := DeleteAccessRow(key, db.access[key].id);
      if reply.Ok? {
        AnswersDone(db', now, key.prefix, Ok, Unmarked);
        AnswersBefore(db, now, t, c, db', Ok);
      } else {
        AnswersFailed(db, now, t);
      }
    } else {
      assert db.access - {key} == db.access;
      AnswersDone(db, now, key.prefix, Ok, Unmarked);
    }
    AnswersBefore(db, now, DeleteAccessCall(key), c, db', reply);
  }

  lemma GetRefreshAnswers(db: Db, now: nat, key: Key, id: Id)
    requires Fresh(db, id)
    ensures forall breaks ::
              var (db', t) := Alone(db, now, GetRefreshCall(key), id, NO_ID, breaks);
              t.Done? && Answers(db, now, GetRefreshCall(key), db', t.reply)
  {
    hide Alone, Answers;
    AnswersAlone(db, now, GetRefreshCall(key), id, NO_ID, false);
    AnswersAlone(db, now, GetRefreshCall(key), id, NO_ID, true);
  }

  lemma CountsNothing(rows: map<Key, RefreshRow>, own: map<Key, AccessRow>)
    ensures |rows.Keys| + |own.Keys| == 0 <==> rows == map[] && own == map[]
  {}

  lemma CommitTouchesTombstones(db: Db, rq: Request, family: Id, expires: int, id: Id)
    ensures var (db', done) := Commit(db, rq, family, expires, id);
            db'.refresh == db.refresh && db'.access == db.access && (!done ==> db' == db)
  {}

  lemma NothingCommitted(db: Db, rq: Request, family: Id, expires: int, id: Id)
    requires rq.id == ""
    ensures !Commit(db, rq, family, expires, id).1
  {}

  lemma NoEmptyFamily(db: Db, rq: Request)
    requires Inv(db)
    ensures NO_ID !in FamiliesOf(RefreshOf(db, rq))
  {
    forall k | k in RefreshOf(db, rq) ensures db.refresh[k].family != NO_ID { assert RowInv(db, k); }
  }

  lemma NoUnknownRow(db: Db, rq: Request)
    requires Inv(db)
    ensures !HasUnknown(RefreshOf(db, rq))
  {
    forall k | k in RefreshOf(db, rq) ensures !db.refresh[k].status.Unknown? { assert RowInv(db, k); }
  }

  lemma SameBreaks(db: Db, db': Db, prefix: string, families: set<Id>, failing: set<Id>)
    requires db'.refresh == db.refresh && db'.access == db.access
    ensures Breaks(db', prefix, families, failing) == Breaks(db, prefix, families, failing)
  {
    assert RequestsOf(db', prefix, families) == RequestsOf(db, prefix, families);
  }

  lemma RotationTouchesOneRow(db: Db, k: Key, at: int)
    ensures MarkRotated(db, k, at).0.access == db.access
    ensures MarkRotated(db, k, at).1 ==> k in db.refresh && db.refresh[k].status.Active?
  {}

  lemma SweptAnswers(db: Db, db': Db, now: nat, rq: Request, reply: Reply, mark: Mark, failing: set<Id>, ok: bool)
    requires Swept(db, db', rq, failing, ok)
    ensures Answers(db, now, SweepFind(rq, reply, mark), db', if ok then reply else Failed)
  {
    hide Answers;
    var gone: set<Key> :| Deletes(db, db', rq, failing, ok, gone);
    AnswersSwept(db, now, rq, reply, mark, gone, ok);
  }

  /** A sweep at the end of a call that has not touched the access rows before. */
  lemma SweepAtEnd(db: Db, mid: Db, got: Db, rq: Request, failing: set<Id>, ok: bool)
    requires mid.access == db.access && Swept(mid, got, rq, failing, ok)
    ensures ok <==> !SomeFails(AccessOf(db, rq), failing)
    ensures ok ==> got == WithoutAccessOf(mid, rq)
    ensures !ok ==> LeftOver(db, WithoutAccessOf(mid, rq), got, rq, failing)
  {
    assert AccessOf(mid, rq) == AccessOf(db, rq);
    var gone: set<Key> :| Deletes(mid, got, rq, failing, ok, gone);
    if !ok {
      var k :| k in AccessOf(db, rq) && db.access[k].id in failing;
      assert k in AccessOf(got, rq);
    }
  }

  /** A sweep after a family was condemned without a failure. */
  lemma SweepAfterMutation(db: Db, db1: Db, db2: Db, got: Db, rq: Request, family: Id, now: int, failing: set<Id>, ok: bool)
    requires db1.access == db.access && db2 == MutateFamilies(db1, rq.prefix, {family}, Reused, now)
    requires !Breaks(db1, rq.prefix, {family}, failing) && Swept(db2, got, rq, failing, ok)
    ensures ok <==> !SomeFails(AccessOf(db, rq), failing)
    ensures ok ==> got == WithoutAccessOf(db2, rq)
    ensures !ok ==> LeftOver(db, WithoutAccessOf(db2, rq), got, rq, failing)
  {
    hide Swept, LeftOver;
    var seen := RequestsOf(db1, rq.prefix, {family});
    if SomeFails(AccessOf(db, rq), failing) {
      var k :| k in AccessOf(db, rq) && db.access[k].id in failing;
      assert k in AccessOf(db2, rq);
    }
    if SomeFails(AccessOf(db2, rq), failing) {
      var k :| k in AccessOf(db2, rq) && db2.access[k].id in failing;
      assert k in AccessOf(db, rq);
    }
    SweepAtEnd(db2, db2, got, rq, failing, ok);
    if !ok { LeftOverOfMore(db, db2, WithoutAccessOf(db2, rq), got, rq, failing); }
  }

  lemma LeftOverOfMore(db: Db, db2: Db, want: Db, got: Db, rq: Request, failing: set<Id>)
    requires LeftOver(db2, want, got, rq, failing)
    requires forall k :: k in db2.access ==> k in db.access && db2.access[k] == db.access[k]
    ensures LeftOver(db, want, got, rq, failing)
  {}

  lemma InvalidationNeverOk(db: Db, now: int, rq: Request, family: Id, expires: int, id: Id)
    ensures forall breaks :: !Alone(db, now, CommitClock(rq, family, expires, ThenInvalidate(family, true)), id, NO_ID, breaks).1.Done?
                             || !Alone(db, now, CommitClock(rq, family, expires, ThenInvalidate(family, true)), id, NO_ID, breaks).1.reply.Ok?
  {
    hide Alone, Commit, Invalidate, WithoutAccessOf;
    CommitBoth(db, now, rq, family, expires, ThenInvalidate(family, true), id);
    var until := Max(expires, Seconds(now) + TOMBSTONE_LIFETIME);
    var db1 := Commit(db, rq, family, until, id).0;
    InvalidateAlone(db1, now, rq, family, true, until, id, NO_ID, false);
    InvalidateAlone(db1, now, rq, family, true, until, id, NO_ID, true);
  }

  /** What an acceptance check answers by itself. */
  ghost function CheckReply(db: Db, now: int, key: Key, attest: bool): Reply {
    if key !in db.access then NotFound
    else
      var row := db.access[key];
      var rows := RefreshOf(db, Request(key.prefix, row.request));
      if HasAuthority(db, Request(key.prefix, row.request)) then Inactive
      else if row.request != "" && HasTerminal(rows) then Inactive
      else if row.request != "" && HasUnknown(rows) then Failed
      else if !attest then Accepted(row)
      else if row.expires * 1_000_000 > now then Attested(row) else Inactive
  }

  lemma CheckAnswers(db: Db, now: nat, key: Key, attest: bool)
    ensures Answers(db, now, CheckCall(key, attest), db, CheckReply(db, now, key, attest))
  {
    hide Answers, Alone, RefreshOf;
    var id := FreshId(db, NO_ID);
    AnswersAlone(db, now, CheckCall(key, attest), id, NO_ID, false);
    AloneUnfolds(db, now, CheckCall(key, attest), id, NO_ID, false);
    forall reply ensures Alone(db, now, Done(key.prefix, reply, Unmarked), id, NO_ID, false) == (db, Done(key.prefix, reply, Unmarked)) {
      AloneEnds(db, now, Done(key.prefix, reply, Unmarked), id, NO_ID, false);
    }
    if key in db.access {
      var row := db.access[key];
      AloneUnfolds(db, now, CheckAuthority(key, row, attest), id, NO_ID, false);
      AloneUnfolds(db, now, CheckFamily(key, row, attest), id, NO_ID, false);
      AloneUnfolds(db, now, CheckExpiry(key, row), id, NO_ID, false);
    }
  }

  lemma DeletionAnswers(db: Db, now: nat, key: Key, db': Db, reply: Reply)
    requires var doomed := key in db.refresh && !IsTerminal(db.refresh[key].status);
             || (db' == db && reply == if doomed then Failed else Ok)
             || (doomed && db' == db.(refresh := db.refresh - {key}) && reply == Ok)
    ensures Answers(db, now, DeleteRefreshCall(key), db', reply)
  {
    hide Answers;
    var c := NewChoice(db);
    if key in db.refresh && !IsTerminal(db.refresh[key].status) {
      var t := DeleteRefreshRow(key, db.refresh[key].id);
      if reply.Ok? {
        AnswersDone(db', now, key.prefix, Ok, Unmarked);
        AnswersBefore(db, now, t, c, db', Ok);
      } else {
        AnswersFailed(db, now, t);
      }
    } else {
      AnswersDone(db, now, key.prefix, Ok, Unmarked);
    }
    AnswersBefore(db, now, DeleteRefreshCall(key), c, db', reply);
  }

  /** The tombstone `t` of the request is as the cleanup job leaves it. */
  ghost predicate IsCleaned(t: Tombstone, db: Db, rq: Request, now: int, failing: set<Id>) {
    var rows, own := RefreshOf(db, rq), AccessOf(db, rq);
    if t.expires >= now / 1_000_000 || t.id in failing then rq in db.tombs && db.tombs[rq] == t
    else if rows != map[] || own != map[] then
      rq in db.tombs && db.tombs[rq] == t.(expires := Max(now / 1_000_000 + 86_400, ArtifactExpiry(rows, own)))
    else rq !in db.tombs
  }

  lemma NotStale(db: Db, rq: Request, now: int, failing: set<Id>)
    requires rq in db.tombs && db.tombs[rq].expires >= Seconds(now)
    ensures IsCleaned(db.tombs[rq], db, rq, now, failing)
  {}

  lemma StaysCleaned(t: Tombstone, db: Db, db': Db, rq: Request, now: int, failing: set<Id>)
    requires IsCleaned(t, db, rq, now, failing) && db'.refresh == db.refresh && db'.access == db.access
    requires (rq in db.tombs <==> rq in db'.tombs) && (rq in db.tombs ==> db'.tombs[rq] == db.tombs[rq])
    ensures IsCleaned(t, db', rq, now, failing)
  {
    hide RefreshOf, AccessOf;
    SameQueries(db, db', rq);
  }

  lemma CleaningOne(db: Db, rq: Request, now: int, failing: set<Id>)
    requires Inv(db) && rq in db.tombs && db.tombs[rq].expires < Seconds(now)
    ensures db.tombs[rq].id in failing ==> IsCleaned(db.tombs[rq], db, rq, now, failing)
    ensures var db' := CleanTombstone(db, rq, db.tombs[rq].id, now, now);
            && (db.tombs[rq].id !in failing ==> IsCleaned(db.tombs[rq], db', rq, now, failing))
            && db'.tombs.Keys <= db.tombs.Keys && db' == db.(tombs := db'.tombs)
            && forall q :: q in db.tombs && q != rq ==> q in db'.tombs && db'.tombs[q] == db.tombs[q]
  {
    hide ArtifactExpiry;
    var db' := CleanTombstone(db, rq, db.tombs[rq].id, now, now);
    SameQueries(db, db', rq);
    forall j, k | j in RefreshOf(db, rq) && k in RefreshOf(db, rq) ensures db.refresh[j].family == db.refresh[k].family {
      assert PairInv(db, j, k);
    }
  }

  // ----- facts about query results -----

  /** The scan of the listed rows decides what the rows themselves decide. */
  lemma RowsDecide(ks: seq<Key>, m: map<Key, RefreshRow>, family: Id)
    requires Lists(ks, m) && ks != []
    requires family == NO_ID <==> forall j :: 0 <= j < |ks| ==> m[ks[j]].family == NO_ID
    requires family != NO_ID ==> exists j :: 0 <= j < |ks| && m[ks[j]].family == family
    ensures HasTerminal(m) <==> exists j :: 0 <= j < |ks| && IsTerminal(m[ks[j]].status)
    ensures HasActive(m) <==> exists j :: 0 <= j < |ks| && m[ks[j]].status.Active?
    ensures RotatedKeys(m) == {} <==> forall j :: 0 <= j < |ks| ==> !m[ks[j]].status.Rotated?
    ensures IsCorrupt(m) <==> exists j :: 0 <= j < |ks| && Odd(m[ks[j]], family)
    ensures !IsCorrupt(m) ==> forall j :: 0 <= j < |ks| ==> m[ks[j]].family == family
  {
    if j :| 0 <= j < |ks| && m[ks[j]].status.Rotated? { assert ks[j] in RotatedKeys(m); }
    if j :| 0 <= j < |ks| && Odd(m[ks[j]], family) {
      assert IsCorrupt(m) by {
        if m[ks[j]].family != NO_ID && !m[ks[j]].status.Unknown? {
          var w :| 0 <= w < |ks| && m[ks[w]].family == family;
          assert Spans(m);
        }
      }
    } else {
      forall k | k in m ensures m[k].family == family != NO_ID && !m[k].status.Unknown? {
        var j :| 0 <= j < |ks| && ks[j] == k;
        assert !Odd(m[ks[j]], family);
      }
    }
  }

  lemma FirstIsLatest(db: Db, rq: Request, ks: seq<Key>, k: Key)
    requires Inv(db) && Lists(ks, RefreshOf(db, rq))
    requires exists i :: 0 <= i < |ks| && ks[i] == k && RefreshOf(db, rq)[k].status.Rotated?
                         && forall j :: 0 <= j < i ==> !RefreshOf(db, rq)[ks[j]].status.Rotated?
    ensures RotatedKeys(RefreshOf(db, rq)) != {}
    ensures LatestRotated(RefreshOf(db, rq)) == k
  {
    var m := RefreshOf(db, rq);
    assert k in RotatedKeys(m);
    var p := LatestRotated(m);
    var i :| 0 <= i < |ks| && ks[i] == k && forall j :: 0 <= j < i ==> !m[ks[j]].status.Rotated?;
    var j :| 0 <= j < |ks| && ks[j] == p;
    assert !Later(m[k], m[p]);
    assert PairInv(db, k, p);
  }
}
