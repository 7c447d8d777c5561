/**
What a load by itself returns and leaves when nothing fails, told from the table and the provider.
*/
module KeyOutcomes {
  import opened Options
  import opened StoredForms
  import opened KeyEnvelope
  import opened KeyLoader
  import opened KeyCell

  /** The text holds the value: hex for the global secret, JSON for every other parameter. */
  predicate Reads(param: string, text: string, v: Value) {
    if param == "oauth2_global_secret" then v.Secret? && HexDecode(text) == Some(v.bytes)
    else v.SigningKey? && ParseDoc(text) == Some(v.doc)
  }

  /** The row stands for the value, in either form. */
  predicate RowReads(p: Params, param: string, v: Value) {
    param in p.rows
    && match LooksLikeEnvelope(p.rows[param])
       case None => Reads(param, p.rows[param], v)
       case Some(env) => CipherOf(env) in p.boxes && Reads(param, p.boxes[CipherOf(env)].plaintext, v)
  }

  /** Encryption is off, or the fingerprint row is absent or names a master the provider knows, and the context
      row is absent or not empty. */
  predicate Passes(p: Params, config: Config) {
    config.master.None?
    || ((p.fingerprint.None? || p.fingerprint.value == FingerprintOf(config.master.value) || p.fingerprint.value in config.ring)
        && p.context != Some(""))
  }

  /** The context a load works with, once it has one. */
  function ContextOf(p: Params, luck: Luck): string { if p.context.Some? then p.context.value else luck.uuid }

  /** The load can return the value: it generates it where there is no row, and otherwise reads it, which takes
      a master that opens the row if it is an envelope. */
  ghost predicate CanLoad(p: Params, config: Config, luck: Luck, v: Value) {
    Passes(p, config)
    && if config.param !in p.rows then v == luck.value
       else
         match LooksLikeEnvelope(p.rows[config.param])
         case None => RowReads(p, config.param, v)
         case Some(env) =>
           && config.master.Some? && RowReads(p, config.param, v)
           && KeyringOpens(p.boxes, config.ring, ContextOf(p, luck), config.dataDir, config.param, env)
  }

  /** What the generator of the parameter and the sealing may draw: a byte secret for the global secret, an RS256
      key for every other parameter, a context id, and a ciphertext not used before. */
  ghost predicate MayDraw(p: Params, param: string, luck: Luck) {
    && luck.uuid != "" && IsCipher(luck.cipher) && luck.cipher !in p.boxes
    && if param == "oauth2_global_secret" then luck.value.Secret?
       else luck.value.SigningKey? && IsSoundDoc(luck.value.doc) && TextOf(Get(luck.value.doc, "alg")) == "RS256"
  }

  lemma DrawsAreSupplied(p: Params, config: Config, luck: Luck)
    requires MayDraw(p, config.param, luck)
    ensures Supplied(p, Start(config), luck)
  {
    hide IsCipher, IsSoundDoc, Get;
  }

  predicate IsFaultless(luck: Luck) { forall point: Point :: luck.faults(point) == {} }

  // ----- which kind of value -----

  lemma KindsOfValues(param: string, text: string, v: Value)
    ensures DecodePlaintext(KindOf(param), text) == Some(v) <==> Reads(param, text, v)
  {
    hide HexDecode, ParseDoc;
  }

  lemma MeaningIsRead(p: Params, param: string, v: Value)
    ensures Meaning(p, param) == Some(v) <==> RowReads(p, param, v)
  {
    hide LooksLikeEnvelope, DecodePlaintext, Reads;
    if param in p.rows {
      KindsOfValues(param, p.rows[param], v);
      match LooksLikeEnvelope(p.rows[param])
      case None =>
      case Some(env) => if CipherOf(env) in p.boxes { KindsOfValues(param, p.boxes[CipherOf(env)].plaintext, v); }
    }
  }

  /** In every run, faults and all: a load that succeeds returns a byte secret for the global secret and a
      signing key for every other parameter, and the row then reads as that value. */
  lemma LoadsReturnTheirKind(p: Params, es: seq<Event>, id: nat)
    requires Valid(Sys(p, map[]), es)
    requires var s := After(Sys(p, map[]), es); id in s.loaders && s.loaders[id].stage.Loaded?
    ensures var s := After(Sys(p, map[]), es);
            var l := s.loaders[id];
            && (if l.config.param == "oauth2_global_secret" then l.stage.value.Secret? else l.stage.value.SigningKey?)
            && RowReads(s.params, l.config.param, l.stage.value)
  {
    hide Reads, LooksLikeEnvelope, Agrees;
    var s := After(Sys(p, map[]), es);
    var param := s.loaders[id].config.param;
    OneValueForever(Sys(p, map[]), es, param);
    LoadedIsMeaning(s, param);
    MeaningIsRead(s.params, param, s.loaders[id].stage.value);
    ReadsKind(s.params, param, s.loaders[id].stage.value);
  }

  lemma ReadsKind(p: Params, param: string, v: Value)
    requires RowReads(p, param, v)
    ensures if param == "oauth2_global_secret" then v.Secret? else v.SigningKey?
  {
    hide LooksLikeEnvelope, HexDecode, ParseDoc;
  }

  // ----- a load by itself -----

  /** The way to the row. */
  lemma HeadEnds(p: Params, config: Config, luck: Luck)
    requires IsConfig(config) && IsFaultless(luck) && luck.uuid != ""
    ensures var ctx := ContextOf(p, luck);
            var p1 := if config.master.None? then p
                      else p.(fingerprint := Some(FingerprintOf(config.master.value)), context := Some(ctx));
            if Passes(p, config) then
              Alone(p, Start(config), luck) == Alone(p1, Loader(config, if config.master.None? then "" else ctx, ParamRead), luck)
            else Alone(p, Start(config), luck).1.stage == Failed
  {
    hide Alone, ReadParam;
    FailedStays(config, luck);
    if config.master.Some? {
      var l0 := Start(config);
      AloneUnfolds(p, l0, luck);
      var p1 := p.(fingerprint := Some(FingerprintOf(config.master.value)));
      if p.fingerprint.None? {
        AloneUnfolds(p, l0.(stage := FingerprintInsert), luck);
        ContextEnds(p1, config, luck);
      } else if p.fingerprint == Some(FingerprintOf(config.master.value)) {
        ContextEnds(p, config, luck);
      } else if p.fingerprint.value in config.ring {
        AloneUnfolds(p, l0.(stage := FingerprintPromote(p.fingerprint.value)), luck);
        ContextEnds(p1, config, luck);
      }
    }
  }

  lemma ContextEnds(p: Params, config: Config, luck: Luck)
    requires IsFaultless(luck) && luck.uuid != ""
    ensures var l := Loader(config, "", ContextRead);
            var ctx := ContextOf(p, luck);
            if p.context == Some("") then Alone(p, l, luck).1.stage == Failed
            else Alone(p, l, luck) == Alone(p.(context := Some(ctx)), Loader(config, ctx, ParamRead), luck)
  {
    hide Alone, ReadParam;
    FailedStays(config, luck);
    AloneUnfolds(p, Loader(config, "", ContextRead), luck);
    AloneUnfolds(p, Loader(config, "", ContextInsert), luck);
    if p.context.Some? { assert p.(context := Some(p.context.value)) == p; }
  }

  lemma DecodedIsRead(p: Params, l: Loader, c: Chance, v: Value)
    requires l.config.param in p.rows && c.faults == {}
    ensures Decoded(p, l, p.rows[l.config.param], c) == Some(v) <==>
              match LooksLikeEnvelope(p.rows[l.config.param])
              case None => RowReads(p, l.config.param, v)
              case Some(env) =>
                && l.config.master.Some? && RowReads(p, l.config.param, v)
                && KeyringOpens(p.boxes, l.config.ring, l.ctx, l.config.dataDir, l.config.param, env)
  {
    hide LooksLikeEnvelope, DecodePlaintext, Reads;
    var raw := p.rows[l.config.param];
    match LooksLikeEnvelope(raw)
    case None => KindsOfValues(l.config.param, raw, v);
    case Some(env) => if CipherOf(env) in p.boxes { KindsOfValues(l.config.param, p.boxes[CipherOf(env)].plaintext, v); }
  }

  /** From the row on: an existing row. */
  lemma ExistingRowEnds(p: Params, l: Loader, luck: Luck)
    requires l.stage.ParamRead? && IsFaultless(luck) && l.config.param in p.rows
    ensures Alone(p, l, luck).1.stage == Outcome(Decoded(p, l, p.rows[l.config.param], Draw(l, luck)))
  {
    hide Alone, Decoded, ToSeal, SealText;
    AloneUnfolds(p, l, luck);
    var c := Draw(l, luck);
    ReadStep(p, l, c);
    var (p2, l2) := Exec(p, l, c);
    if l2.stage.ParamSwap? {
      AloneUnfolds(p2, l2, luck);
      AloneEnds(Exec(p2, l2, Draw(l2, luck)).0, Exec(p2, l2, Draw(l2, luck)).1, luck);
    } else {
      AloneEnds(p2, l2, luck);
    }
  }

  /** From the row on: no row yet. */
  lemma NewRowEnds(p: Params, l: Loader, luck: Luck)
    requires l.stage.ParamRead? && IsFaultless(luck) && l.config.param !in p.rows
    ensures Alone(p, l, luck).1.stage == Loaded(luck.value)
  {
    hide Alone, EncodePlaintext, SealText;
    AloneUnfolds(p, l, luck);
    var c := Draw(l, luck);
    ReadStep(p, l, c);
    var (p2, l2) := Exec(p, l, c);
    AloneUnfolds(p2, l2, luck);
    AloneEnds(Exec(p2, l2, Draw(l2, luck)).0, Exec(p2, l2, Draw(l2, luck)).1, luck);
  }

  /** A load by itself that meets no fault returns a value exactly when it can load it, and fails otherwise;
      where it succeeds the row then reads as that value. */
  lemma LoadEnds(p: Params, config: Config, luck: Luck)
    requires IsConfig(config) && IsFaultless(luck) && MayDraw(p, config.param, luck)
    ensures var (p', l') := Alone(p, Start(config), luck);
            && (l'.stage.Loaded? || l'.stage == Failed)
            && (forall v :: l'.stage == Loaded(v) <==> CanLoad(p, config, luck, v))
            && (l'.stage.Loaded? ==> RowReads(p', config.param, l'.stage.value))
  {
    hide Alone, Decoded, RowReads, KeyringOpens, LooksLikeEnvelope, Supplied, IsSoundDoc, IsCipher;
    HeadEnds(p, config, luck);
    if Passes(p, config) {
      var ctx := ContextOf(p, luck);
      var p1 := if config.master.None? then p
                else p.(fingerprint := Some(FingerprintOf(config.master.value)), context := Some(ctx));
      var l := Loader(config, if config.master.None? then "" else ctx, ParamRead);
      if config.param in p.rows {
        ExistingRowEnds(p1, l, luck);
        forall v ensures Decoded(p1, l, p1.rows[config.param], Draw(l, luck)) == Some(v) <==> CanLoad(p, config, luck, v) {
          DecodedIsRead(p1, l, Draw(l, luck), v);
          SameRow(p, p1, config.param, v);
        }
      } else {
        NewRowEnds(p1, l, luck);
      }
    }
    if Alone(p, Start(config), luck).1.stage.Loaded? { LoadedReads(p, config, luck); }
  }

  lemma SameRow(p: Params, p1: Params, param: string, v: Value)
    requires p1.rows == p.rows && p1.boxes == p.boxes
    ensures RowReads(p1, param, v) == RowReads(p, param, v)
  {}

  /** Faults or not: a load by itself that succeeds leaves a row that reads as its value. */
  lemma LoadedReads(p: Params, config: Config, luck: Luck)
    requires IsConfig(config) && MayDraw(p, config.param, luck) && Alone(p, Start(config), luck).1.stage.Loaded?
    ensures var (p', l') := Alone(p, Start(config), luck); RowReads(p', config.param, l'.stage.value)
  {
    hide Alone, RowReads, Supplied, MayDraw;
    DrawsAreSupplied(p, config, luck);
    var s0 := Sys(p, map[]);
    var es: seq<Event> := [];
    Extend(s0, es, Begin(0, config));
    es := es + [Begin(0, config)];
    var all := KeyLoader.AloneIsRun(s0, es, 0, luck);
    ConfigStays(p, Start(config), luck);
    LoadsReturnTheirKind(p, all, 0);
  }

  lemma {:induction false} ConfigStays(p: Params, l: Loader, luck: Luck)
    ensures Alone(p, l, luck).1.config == l.config
    decreases Rank(PointOf(l.stage))
  {
    hide Exec;
    if PointOf(l.stage) != AtEnd {
      StepsEnd(p, l, Draw(l, luck));
      var (p', l') := Exec(p, l, Draw(l, luck));
      assert l'.config == l.config by { StepKeepsConfig(p, l, Draw(l, luck)); }
      ConfigStays(p', l', luck);
    }
  }

  lemma StepKeepsConfig(p: Params, l: Loader, c: Chance)
    ensures Exec(p, l, c).1.config == l.config
  {
    hide ReadParam, Decoded;
  }

  /** The legacy rows: a byte secret in hex, and for every other parameter an RS256 key as its JSON document,
      load as what they hold, with or without a master. */
  lemma LegacyRowsLoad(p: Params, config: Config, luck: Luck, b: seq<byte>, doc: Doc)
    requires IsConfig(config) && IsFaultless(luck) && MayDraw(p, config.param, luck) && Passes(p, config)
    requires IsSoundDoc(doc) && TextOf(Get(doc, "alg")) == "RS256" && config.param in p.rows
    requires p.rows[config.param] == if config.param == "oauth2_global_secret" then HexEncode(b) else DocText(doc)
    ensures Alone(p, Start(config), luck).1.stage
         == Loaded(if config.param == "oauth2_global_secret" then Secret(b) else SigningKey(doc))
  {
    hide Alone, MayDraw, LooksLikeEnvelope, HexEncode, HexDecode, DocText, ParseDoc, Get, IsSoundDoc;
    var v := if config.param == "oauth2_global_secret" then Secret(b) else SigningKey(doc);
    if config.param == "oauth2_global_secret" {
      HexRoundTrip(b);
      HexIsNoEnvelope(HexEncode(b));
    } else {
      DocRoundTrip(doc);
      DocIsEnvelope(doc);
    }
    LoadEnds(p, config, luck);
    assert CanLoad(p, config, luck, v);
  }
}
