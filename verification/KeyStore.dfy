/**
The key-material part of the `_params` table, updated in place as params.go does. A whole load is proved
to leave the table and to answer exactly as the loader run alone (KeyLoader.Alone), which continues any
run (KeyLoader.AloneIsRun). What a load draws, and what fails where, are parameters.
*/
module KeyStore {
  import opened Options
  import opened StoredForms
  import opened KeyEnvelope
  import opened KeyLoader
  import opened KeyOutcomes

  class ParamStore {
    var fingerprint: Option<string>
    var context: Option<string>
    var rows: map<string, string>
    var boxes: Boxes

    ghost function Table(): Params
      reads this
    {
      Params(fingerprint, context, rows, boxes)
    }

    constructor ()
      ensures Table() == Params(None, None, map[], map[])
    {
      fingerprint, context, rows, boxes := None, None, map[], map[];
    }

    /** updateParamValueCAS: the row changes only if it still holds the expected text. None is an error. */
    method UpdateParamValueCAS(param: string, raw: string, expected: string, fails: bool) returns (swapped: Option<bool>)
      modifies this`rows
      ensures swapped == if fails then None else Some(param in old(rows) && old(rows)[param] == expected)
      ensures rows == if swapped == Some(true) then old(rows)[param := raw] else old(rows)
    {
      if fails { return None; }
      if param in rows && rows[param] == expected {
        rows := rows[param := raw];
        return Some(true);
      }
      return Some(false);
    }

    /** saveParamValue inserts, and never replaces. */
    method SaveParamValue(param: string, raw: string, fails: bool) returns (ok: bool)
      modifies this`rows
      ensures ok == (!fails && param !in old(rows))
      ensures rows == if ok then old(rows)[param := raw] else old(rows)
    {
      ok := !fails && param !in rows;
      if ok { rows := rows[param := raw]; }
    }

    /** verifyOrWriteFingerprint. It lets a load go on exactly when it could read the row and the row was
        absent and could be written, named the active master, or named a keyring master; the row then
        names the active master, unless only promoting it failed. */
    method VerifyOrWriteFingerprint(config: Config, luck: Luck) returns (ok: bool)
      requires config.master.Some?
      modifies this`fingerprint
      ensures ok && fingerprint != Some(FingerprintOf(config.master.value)) ==>
                Query in luck.faults(AtFingerprintPromote) && fingerprint == old(fingerprint)
                && fingerprint.Some? && fingerprint.value in config.ring
      ensures !ok ==> fingerprint == old(fingerprint)
      ensures Alone(old(Table()), Start(config), luck)
           == Alone(Table(), Loader(config, "", if ok then ContextRead else Failed), luck)
    {
      ghost var p := Table();
      var l := Start(config);
      AloneUnfolds(p, l, luck);
      var expected := FingerprintOf(config.master.value);
      if Query in luck.faults(AtFingerprintRead) { return false; }
      if fingerprint.None? {
        AloneUnfolds(p, l.(stage := FingerprintInsert), luck);
        if Query in luck.faults(AtFingerprintInsert) { return false; }
        fingerprint := Some(expected);
        return true;
      }
      var stored := fingerprint.value;
      if stored == expected { return true; }
      if Ring in luck.faults(AtFingerprintRead) || stored !in config.ring { return false; }
      AloneUnfolds(p, l.(stage := FingerprintPromote(stored)), luck);
      if Query !in luck.faults(AtFingerprintPromote) && fingerprint == Some(stored) { fingerprint := Some(expected); }
      return true;
    }

    /** getOrCreateEnvelopeContext: the stored id if there is one, otherwise a new one, never overwritten. */
    method GetOrCreateEnvelopeContext(config: Config, luck: Luck) returns (ctx: Option<string>)
      requires luck.uuid != ""
      modifies this`context
      ensures ctx.Some? ==> ctx.value != "" && context == ctx
      ensures old(context).Some? ==> context == old(context)
      ensures Alone(old(Table()), Loader(config, "", ContextRead), luck)
           == Alone(Table(), if ctx.Some? then Loader(config, ctx.value, ParamRead) else Loader(config, "", Failed), luck)
    {
      ghost var p := Table();
      var l := Loader(config, "", ContextRead);
      AloneUnfolds(p, l, luck);
      if Query in luck.faults(AtContextRead) { return None; }
      if context.Some? { return if context.value == "" then None else context; }
      AloneUnfolds(p, l.(stage := ContextInsert), luck);
      if Query in luck.faults(AtContextInsert) {
        ctx := RereadContext(config, luck);
        return;
      }
      context := Some(luck.uuid);
      return context;
    }

    method RereadContext(config: Config, luck: Luck) returns (ctx: Option<string>)
      ensures ctx.Some? ==> ctx.value != "" && context == ctx
      ensures Alone(Table(), Loader(config, "", ContextReread), luck)
           == Alone(Table(), if ctx.Some? then Loader(config, ctx.value, ParamRead) else Loader(config, "", Failed), luck)
    {
      AloneUnfolds(Table(), Loader(config, "", ContextReread), luck);
      if Query in luck.faults(AtContextReread) || context.None? || context.value == "" { return None; }
      return context;
    }

    /** Opening an envelope with what the provider and the store hold. */
    method OpenRow(l: Loader, m: Master, env: Envelope) returns (plaintext: Option<string>, needsRewrap: bool)
      requires IsKeyring(l.config.ring)
      ensures OpenedBy(Table(), l, m, env) == if plaintext.Some? then Some((plaintext.value, needsRewrap)) else None
    {
      plaintext, needsRewrap :=
        OpenEnvelopeWithKeyring(boxes, l.config.ring, FingerprintOf(m), l.ctx, l.config.dataDir, l.config.param, env);
    }

    /** loadDecodedParam. */
    method LoadDecodedParam(l: Loader, raw: string, faults: set<Fault>) returns (value: Option<Value>)
      requires IsKeyring(l.config.ring)
      ensures forall c: Chance :: c.faults == faults ==> Decoded(Table(), l, raw, c) == value
    {
      var env := LooksLikeEnvelope(raw);
      if env.Some? {
        if l.config.master.None? || Ring in faults { return None; }
        var plaintext, _ := OpenRow(l, l.config.master.value, env.value);
        if plaintext.None? { return None; }
        return DecodePlaintext(KindOf(l.config.param), plaintext.value);
      }
      return DecodePlaintext(KindOf(l.config.param), raw);
    }

    method Seal(l: Loader, m: Master, plaintext: string, cipher: Cipher) returns (sealed: string)
      modifies this`boxes
      ensures Table() == SealInto(old(Table()), l, m, plaintext, cipher) && sealed == SealText(m, cipher)
    {
      boxes := boxes[cipher := Box(m, Info(l.ctx, l.config.param), plaintext)];
      sealed := SealText(m, cipher);
    }

    /** loadParamFromAppStorageAt. Whatever fails, a load that succeeds returns a byte secret for the global
        secret and a signing key for every other parameter, and the row then reads as that value. Where nothing
        fails it returns a value exactly when the row, the keyring and the fingerprint let it. */
    method LoadParamFromAppStorageAt(config: Config, luck: Luck) returns (value: Option<Value>)
      requires IsConfig(config) && luck.uuid != ""
      modifies this
      ensures var (p', l') := Alone(old(Table()), Start(config), luck);
              Table() == p' && l'.stage == Outcome(value)
      ensures MayDraw(old(Table()), config.param, luck) && value.Some? ==>
                && (if config.param == "oauth2_global_secret" then value.value.Secret? else value.value.SigningKey?)
                && RowReads(Table(), config.param, value.value)
      ensures MayDraw(old(Table()), config.param, luck) && IsFaultless(luck) ==>
                forall v :: value == Some(v) <==> CanLoad(old(Table()), config, luck, v)
      ensures forall param :: param in old(rows) ==> param in rows && (param != config.param ==> rows[param] == old(rows)[param])
    {
      hide Alone, Exec, MayDraw, CanLoad, RowReads, IsFaultless, IsConfig;
      FailedStays(config, luck);
      LoadAnswers(Table(), config, luck);
      var ctx := "";
      if config.master.Some? {
        var ok := VerifyOrWriteFingerprint(config, luck);
        if !ok { return None; }
        var found := GetOrCreateEnvelopeContext(config, luck);
        if found.None? { return None; }
        ctx := found.value;
      }
      value := LoadRow(Loader(config, ctx, ParamRead), luck);
    }

    /** The part of a load that deals with the row itself. */
    method LoadRow(l: Loader, luck: Luck) returns (value: Option<Value>)
      requires IsConfig(l.config) && l.stage.ParamRead?
      modifies this
      ensures Table() == Alone(old(Table()), l, luck).0 && Alone(old(Table()), l, luck).1.stage == Outcome(value)
      ensures forall param :: param in old(rows) ==> param in rows && (param != l.config.param ==> rows[param] == old(rows)[param])
    {
      hide Alone, Exec, Decoded, ToSeal, SealText, EncodePlaintext;
      ghost var p := Table();
      forall p, l: Loader | PointOf(l.stage) == AtEnd ensures Alone(p, l, luck) == (p, l) { AloneEnds(p, l, luck); }
      var faults := luck.faults(AtParamRead);
      AloneUnfolds(p, l, luck);
      ReadStep(p, l, Draw(l, luck));
      if Query in faults { return None; }
      if l.config.param !in rows {
        value := CreateRow(l, luck);
        return;
      }
      var raw := rows[l.config.param];
      value := LoadDecodedParam(l, raw, faults);
      var plaintext := PlaintextToSeal(l, raw, value, faults);
      if l.config.master.None? || Sealing in faults || plaintext.None? { return; }
      var sealed := Seal(l, l.config.master.value, plaintext.value, luck.cipher);
      var l' := l.(stage := ParamSwap(raw, sealed, value));
      AloneUnfolds(Table(), l', luck);
      SwapStep(Table(), l', Draw(l', luck));
      var _ := UpdateParamValueCAS(l.config.param, sealed, raw, Query in luck.faults(AtParamSwap));
    }

    /** What migration or a rewrap seals. */
    method PlaintextToSeal(l: Loader, raw: string, value: Option<Value>, faults: set<Fault>) returns (plaintext: Option<string>)
      requires IsConfig(l.config)
      requires forall c: Chance :: c.faults == faults ==> Decoded(Table(), l, raw, c) == value
      ensures l.config.master.Some? ==>
                forall c: Chance :: c.faults == faults ==> ToSeal(Table(), l, l.config.master.value, raw, c) == plaintext
    {
      hide Decoded;
      var env := LooksLikeEnvelope(raw);
      if env.None? { return if value.Some? then Some(EncodePlaintext(value.value)) else None; }
      if l.config.master.None? || Ring in faults { return None; }
      var needsRewrap;
      plaintext, needsRewrap := OpenRow(l, l.config.master.value, env.value);
      if !needsRewrap { plaintext := None; }
    }

    /** The row does not exist: generate a value and insert it, or take over the value of whoever was first. */
    method CreateRow(l: Loader, luck: Luck) returns (value: Option<Value>)
      requires IsConfig(l.config) && l.stage.ParamRead? && l.config.param !in rows && Query !in luck.faults(AtParamRead)
      modifies this
      ensures Table() == Alone(old(Table()), l, luck).0 && Alone(old(Table()), l, luck).1.stage == Outcome(value)
      ensures forall param :: param in old(rows) ==> param in rows && (param != l.config.param ==> rows[param] == old(rows)[param])
    {
      hide Alone, Exec, Decoded, SealText, EncodePlaintext;
      forall p, l: Loader | PointOf(l.stage) == AtEnd ensures Alone(p, l, luck) == (p, l) { AloneEnds(p, l, luck); }
      var faults := luck.faults(AtParamRead);
      AloneUnfolds(Table(), l, luck);
      ReadStep(Table(), l, Draw(l, luck));
      if Generator in faults { return None; }
      var stored := EncodePlaintext(luck.value);
      if l.config.master.Some? {
        if Sealing in faults { return None; }
        stored := Seal(l, l.config.master.value, stored, luck.cipher);
      }
      var l' := l.(stage := ParamInsert(luck.value, stored));
      AloneUnfolds(Table(), l', luck);
      InsertStep(Table(), l', Draw(l', luck));
      var ok := SaveParamValue(l.config.param, stored, Query in luck.faults(AtParamInsert));
      if ok { return Some(luck.value); }
      value := RereadRow(l.(stage := ParamReread), luck);
    }

    /** Another loader may have inserted the row first: take over what it wrote. */
    method RereadRow(l: Loader, luck: Luck) returns (value: Option<Value>)
      requires IsConfig(l.config) && l.stage.ParamReread?
      ensures Alone(Table(), l, luck).0 == Table() && Alone(Table(), l, luck).1.stage == Outcome(value)
    {
      hide Alone, Exec, Decoded;
      forall p, l: Loader | PointOf(l.stage) == AtEnd ensures Alone(p, l, luck) == (p, l) { AloneEnds(p, l, luck); }
      AloneUnfolds(Table(), l, luck);
      RereadStep(Table(), l, Draw(l, luck));
      var faults := luck.faults(AtParamReread);
      if Query in faults || l.config.param !in rows { return None; }
      value := LoadDecodedParam(l, rows[l.config.param], faults);
    }
  }

  lemma LoadAnswers(p: Params, config: Config, luck: Luck)
    requires IsConfig(config)
    ensures var (p', l') := Alone(p, Start(config), luck);
            && (MayDraw(p, config.param, luck) && l'.stage.Loaded? ==>
                  && (if config.param == "oauth2_global_secret" then l'.stage.value.Secret? else l'.stage.value.SigningKey?)
                  && RowReads(p', config.param, l'.stage.value))
            && (MayDraw(p, config.param, luck) && IsFaultless(luck) ==>
                  forall v :: l'.stage == Loaded(v) <==> CanLoad(p, config, luck, v))
  {
    hide Alone, MayDraw, CanLoad, RowReads;
    var (p', l') := Alone(p, Start(config), luck);
    if MayDraw(p, config.param, luck) && l'.stage.Loaded? {
      LoadedReads(p, config, luck);
      ReadsKind(p', config.param, l'.stage.value);
    }
    if MayDraw(p, config.param, luck) && IsFaultless(luck) { LoadEnds(p, config, luck); }
  }

  lemma SwapStep(p: Params, l: Loader, c: Chance)
    requires l.stage.ParamSwap?
    ensures var param := l.config.param;
            Exec(p, l, c)
            == (if Query in c.faults || param !in p.rows || p.rows[param] != l.stage.raw then p
                else p.(rows := p.rows[param := l.stage.sealed]), l.(stage := Outcome(l.stage.outcome)))
  {}

  lemma InsertStep(p: Params, l: Loader, c: Chance)
    requires l.stage.ParamInsert?
    ensures Exec(p, l, c) == if Query in c.faults || l.config.param in p.rows then (p, l.(stage := ParamReread))
                             else (p.(rows := p.rows[l.config.param := l.stage.text]), l.(stage := Loaded(l.stage.made)))
  {}

  lemma RereadStep(p: Params, l: Loader, c: Chance)
    requires l.stage.ParamReread?
    ensures Exec(p, l, c) == (p, l.(stage := if Query in c.faults || l.config.param !in p.rows then Failed
                                             else Outcome(Decoded(p, l, p.rows[l.config.param], c))))
  {
    hide Decoded;
  }
}
