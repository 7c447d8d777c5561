/**
Retiring an old master key. While all loaders have one active master and nothing fails, every row is
rewritten at most once, and a row that has been loaded once opens under that master alone. One failed
rewrap, which the load itself does not report, is enough to lose this.
*/
module KeyRetirement {
  import opened Options
  import opened StoredForms
  import opened KeyEnvelope
  import opened KeyLoader
  import opened KeyCell

  /** Sealed by master `m` for context `ctx`, and labelled so. */
  predicate IsSettledText(boxes: Boxes, m: Master, ctx: string, param: string, raw: string) {
    match LooksLikeEnvelope(raw)
    case None => false
    case Some(env) => CipherOf(env) in boxes && IsCurrent(boxes[CipherOf(env)], env, FingerprintOf(m), ctx, param)
  }

  predicate IsSettled(p: Params, m: Master, param: string) {
    p.context.Some? && param in p.rows && IsSettledText(p.boxes, m, p.context.value, param, p.rows[param])
  }

  predicate NamesMaster(p: Params, m: Master) { p.fingerprint == Some(FingerprintOf(m)) }

  predicate IsVerified(stage: Stage) {
    !stage.FingerprintRead? && !stage.FingerprintInsert? && !stage.FingerprintPromote? && !stage.Failed?
  }

  predicate HasContext(stage: Stage) {
    stage.ParamRead? || stage.ParamInsert? || stage.ParamReread? || stage.ParamSwap? || stage.Loaded?
  }

  /** What a loader with active master `m` knows when nothing fails. */
  ghost predicate Follows(p: Params, m: Master, l: Loader) {
    var param := l.config.param;
    && l.config.master == Some(m)
    && (IsVerified(l.stage) ==> NamesMaster(p, m))
    && (HasContext(l.stage) ==> l.ctx != "" && p.context == Some(l.ctx))
    && match l.stage
       case FingerprintPromote(stored) => p.fingerprint == Some(stored) || NamesMaster(p, m)
       case ParamInsert(_, text) =>
         IsSettledText(p.boxes, m, l.ctx, param, text) && (param in p.rows ==> IsSettled(p, m, param))
       case ParamReread => IsSettled(p, m, param)
       case ParamSwap(raw, sealed, _) =>
         && Anchored(p.boxes, raw) && !IsSettledText(p.boxes, m, l.ctx, param, raw)
         && IsSettledText(p.boxes, m, l.ctx, param, sealed)
         && param in p.rows && (p.rows[param] == raw || IsSettled(p, m, param))
       case Loaded(_) => IsSettled(p, m, param)
       case _ => true
  }

  ghost predicate AllFollow(s: Sys, m: Master) { forall id :: id in s.loaders ==> Follows(s.params, m, s.loaders[id]) }

  /** No store, keyring, generator or seal operation fails, and every loader's active master is `m`. */
  predicate IsSmooth(e: Event, m: Master) {
    match e
    case Begin(_, config) => config.master == Some(m)
    case Advance(_, c) => c.faults == {}
  }

  /** What such a step does to the table. */
  ghost predicate Advances(p: Params, p': Params, m: Master) {
    && (p'.fingerprint == p.fingerprint || NamesMaster(p', m))
    && (p.context.Some? ==> p'.context == p.context)
    && (forall c :: c in p.boxes ==> c in p'.boxes && p'.boxes[c] == p.boxes[c])
    && (forall param :: param in p.rows ==> param in p'.rows)
    && (forall param :: param in p'.rows && (param !in p.rows || p'.rows[param] != p.rows[param]) ==>
          IsSettled(p', m, param) && !IsSettled(p, m, param))
  }

  lemma SettledStays(p: Params, p': Params, m: Master, param: string)
    requires Advances(p, p', m) && IsSettled(p, m, param)
    ensures IsSettled(p', m, param) && p'.rows[param] == p.rows[param]
  {}

  lemma TextStays(p: Params, p': Params, m: Master, ctx: string, param: string, raw: string)
    requires Advances(p, p', m)
    ensures IsSettledText(p.boxes, m, ctx, param, raw) ==> IsSettledText(p'.boxes, m, ctx, param, raw)
    ensures Anchored(p.boxes, raw) ==>
              Anchored(p'.boxes, raw)
              && (IsSettledText(p'.boxes, m, ctx, param, raw) <==> IsSettledText(p.boxes, m, ctx, param, raw))
  {}

  lemma OthersStillFollow(p: Params, p': Params, m: Master, l: Loader)
    requires Advances(p, p', m) && Follows(p, m, l)
    ensures Follows(p', m, l)
  {
    hide IsSettledText, Anchored;
    var param := l.config.param;
    if IsSettled(p, m, param) { SettledStays(p, p', m, param); }
    match l.stage
    case ParamInsert(_, text) => TextStays(p, p', m, l.ctx, param, text);
    case ParamSwap(raw, sealed, _) =>
      TextStays(p, p', m, l.ctx, param, raw);
      TextStays(p, p', m, l.ctx, param, sealed);
    case _ =>
  }

  /** What is sealed now is settled. */
  lemma SealedIsSettled(p: Params, l: Loader, m: Master, plaintext: string, cipher: Cipher)
    requires IsCipher(cipher) && IsParamId(l.config.param) && cipher !in p.boxes
    ensures var p' := SealInto(p, l, m, plaintext, cipher);
            Advances(p, p', m) && IsSettledText(p'.boxes, m, l.ctx, l.config.param, SealText(m, cipher))
  {
    SealRoundTrip(p.boxes, m, l.ctx, l.config.param, plaintext, cipher, m, l.ctx, l.config.param);
  }

  /** Without faults a row is either settled, or cannot be read, or is about to be swapped. */
  lemma ReadDecides(p: Params, l: Loader, raw: string, c: Chance, m: Master)
    requires l.config.master == Some(m) && c.faults == {}
    ensures ToSeal(p, l, m, raw, c).Some? ==>
              Anchored(p.boxes, raw) && !IsSettledText(p.boxes, m, l.ctx, l.config.param, raw)
    ensures ToSeal(p, l, m, raw, c).None? && Decoded(p, l, raw, c).Some? ==>
              IsSettledText(p.boxes, m, l.ctx, l.config.param, raw)
  {
    hide DecodePlaintext, EncodePlaintext, LooksLikeEnvelope, OpenedBy, IsCurrent;
    match LooksLikeEnvelope(raw)
    case None =>
    case Some(env) => OpenedDecides(p, l, m, env);
  }

  lemma OpenedDecides(p: Params, l: Loader, m: Master, env: Envelope)
    ensures OpenedBy(p, l, m, env).Some? ==>
              CipherOf(env) in p.boxes
              && OpenedBy(p, l, m, env).value.1 == !IsCurrent(p.boxes[CipherOf(env)], env, FingerprintOf(m), l.ctx, l.config.param)
  {
    hide IsCurrent, FingerprintOf, Info;
  }

  lemma AdvancesItself(p: Params, m: Master)
    ensures Advances(p, p, m)
  {}

  lemma ReadParamFollows(p: Params, l: Loader, c: Chance, m: Master)
    requires Follows(p, m, l) && l.stage.ParamRead? && IsChance(p, l, c) && c.faults == {} && IsParamId(l.config.param)
    ensures var (p', stage) := ReadParam(p, l, c);
            Advances(p, p', m) && Follows(p', m, l.(stage := stage))
  {
    hide IsSettledText, Anchored, ToSeal, Decoded, SealText, EncodePlaintext, LooksLikeEnvelope, Advances;
    AdvancesItself(p, m);
    var param := l.config.param;
    if param in p.rows {
      var raw := p.rows[param];
      ReadDecides(p, l, raw, c, m);
      if ToSeal(p, l, m, raw, c).Some? {
        var plaintext := ToSeal(p, l, m, raw, c).value;
        SealedIsSettled(p, l, m, plaintext, c.cipher);
        TextStays(p, SealInto(p, l, m, plaintext, c.cipher), m, l.ctx, param, raw);
      }
    } else {
      SealedIsSettled(p, l, m, EncodePlaintext(c.value), c.cipher);
    }
  }

  lemma ExecFollows(p: Params, l: Loader, c: Chance, m: Master)
    requires Follows(p, m, l) && IsChance(p, l, c) && c.faults == {} && IsParamId(l.config.param)
    ensures var (p', l') := Exec(p, l, c);
            Advances(p, p', m) && Follows(p', m, l')
  {
    hide Follows, Advances, Exec;
    match l.stage
    case ParamRead => ReadStep(p, l, c); ReadParamFollows(p, l, c, m);
    case ParamInsert(_, _) => RowWriteFollows(p, l, c, m);
    case ParamSwap(_, _, _) => RowWriteFollows(p, l, c, m);
    case _ => HeaderFollows(p, l, c, m);
  }

  lemma RowWriteFollows(p: Params, l: Loader, c: Chance, m: Master)
    requires Follows(p, m, l) && c.faults == {} && (l.stage.ParamInsert? || l.stage.ParamSwap?)
    ensures var (p', l') := Exec(p, l, c);
            Advances(p, p', m) && Follows(p', m, l')
  {
    hide IsSettledText, Anchored, FingerprintOf;
  }

  lemma HeaderFollows(p: Params, l: Loader, c: Chance, m: Master)
    requires Follows(p, m, l) && c.faults == {} && c.uuid != ""
    requires !l.stage.ParamRead? && !l.stage.ParamInsert? && !l.stage.ParamSwap?
    ensures var (p', l') := Exec(p, l, c);
            Advances(p, p', m) && Follows(p', m, l')
  {
    hide IsSettledText, Anchored, Decoded, FingerprintOf;
    assert Exec(p, l, c).0.rows == p.rows && Exec(p, l, c).0.boxes == p.boxes;
  }

  lemma StepFollows(s: Sys, e: Event, m: Master)
    requires Inv(s) && AllFollow(s, m) && Enabled(s, e) && IsSmooth(e, m)
    ensures AllFollow(Step(s, e), m) && Advances(s.params, Step(s, e).params, m)
  {
    hide Exec, Advances;
    AdvancesItself(s.params, m);
    match e
    case Begin(id, config) => assert Follows(s.params, m, Start(config));
    case Advance(id, c) =>
      assert Agrees(s.params, s.loaders[id]);
      ExecFollows(s.params, s.loaders[id], c, m);
      forall other | other in s.loaders ensures Follows(Step(s, e).params, m, s.loaders[other]) {
        OthersStillFollow(s.params, Step(s, e).params, m, s.loaders[other]);
      }
  }

  ghost predicate AllSmooth(es: seq<Event>, m: Master) { forall i :: 0 <= i < |es| ==> IsSmooth(es[i], m) }

  lemma {:induction false} RunFollows(p: Params, es: seq<Event>, m: Master)
    requires Valid(Sys(p, map[]), es) && AllSmooth(es, m)
    ensures var s := After(Sys(p, map[]), es);
            Inv(s) && AllFollow(s, m)
    decreases |es|
  {
    hide Follows, Agrees;
    if es != [] {
      RunFollows(p, es[..|es|-1], m);
      assert IsSmooth(es[|es|-1], m);
      StepAgrees(After(Sys(p, map[]), es[..|es|-1]), es[|es|-1]);
      StepFollows(After(Sys(p, map[]), es[..|es|-1]), es[|es|-1], m);
    }
  }

  /** How often a run changes the text of an existing row. */
  ghost function Rewrites(s: Sys, es: seq<Event>, param: string): nat
    requires Valid(s, es)
    decreases |es|
  {
    if es == [] then 0
    else
      var before, after := After(s, es[..|es|-1]).params, After(s, es).params;
      Rewrites(s, es[..|es|-1], param)
      + if param in before.rows && param in after.rows && after.rows[param] != before.rows[param] then 1 else 0
  }

  /** Each row is rewritten at most once, and not at all if the run itself inserted it; afterwards it is
      settled and stays as it is. */
  lemma {:induction false} RewrittenAtMostOnce(p: Params, es: seq<Event>, m: Master, param: string)
    requires Valid(Sys(p, map[]), es) && AllSmooth(es, m)
    ensures var p' := After(Sys(p, map[]), es).params;
            && Rewrites(Sys(p, map[]), es, param) <= 1
            && (param in p.rows ==> param in p'.rows)
            && (param !in p.rows || IsSettled(p, m, param) ==> Rewrites(Sys(p, map[]), es, param) == 0)
            && (Rewrites(Sys(p, map[]), es, param) == 1 || (param !in p.rows && param in p'.rows) ==> IsSettled(p', m, param))
            && (IsSettled(p, m, param) ==> IsSettled(p', m, param) && p'.rows[param] == p.rows[param])
    decreases |es|
  {
    hide Follows, Agrees, IsSettledText;
    if es != [] {
      var s, e := After(Sys(p, map[]), es[..|es|-1]), es[|es|-1];
      RewrittenAtMostOnce(p, es[..|es|-1], m, param);
      RunFollows(p, es[..|es|-1], m);
      assert IsSmooth(e, m);
      StepFollows(s, e, m);
      if IsSettled(s.params, m, param) { SettledStays(s.params, Step(s, e).params, m, param); }
    }
  }

  function OnlyMaster(param: string, m: Master, dataDir: string): Config {
    Config(param, Some(m), map[FingerprintOf(m) := m], dataDir)
  }

  /** Safe retirement: once a load of a parameter has succeeded in such a run, the fingerprint row names
      the active master, and any later load whose provider knows only that master, wherever its data
      directory is, returns the same value and leaves the table alone. */
  lemma RetirementIsSafe(p: Params, es: seq<Event>, m: Master, id: nat, dataDir: string, luck: Luck)
    requires Valid(Sys(p, map[]), es) && AllSmooth(es, m)
    requires var s := After(Sys(p, map[]), es); id in s.loaders && s.loaders[id].stage.Loaded?
    requires forall point :: luck.faults(point) == {}
    ensures var s := After(Sys(p, map[]), es);
            var (p', l') := Alone(s.params, Start(OnlyMaster(s.loaders[id].config.param, m, dataDir)), luck);
            && NamesMaster(s.params, m) && IsSettled(s.params, m, s.loaders[id].config.param)
            && p' == s.params && l'.stage == s.loaders[id].stage
  {
    hide IsSettledText, MeaningOf, Anchored, Alone;
    var s := After(Sys(p, map[]), es);
    RunFollows(p, es, m);
    var l := s.loaders[id];
    assert Agrees(s.params, l) && Follows(s.params, m, l);
    LoneLoad(s.params, l.config.param, m, l.ctx, dataDir, luck, l.stage.value);
  }

  lemma LoneLoad(p: Params, param: string, m: Master, ctx: string, dataDir: string, luck: Luck, v: Value)
    requires NamesMaster(p, m) && ctx != "" && p.context == Some(ctx) && IsSettled(p, m, param)
    requires MeaningOf(p.boxes, param, p.rows[param]) == Some(v) && IsParamId(param)
    requires forall point :: luck.faults(point) == {}
    ensures Alone(p, Start(OnlyMaster(param, m, dataDir)), luck).0 == p
    ensures Alone(p, Start(OnlyMaster(param, m, dataDir)), luck).1.stage == Loaded(v)
  {
    hide Alone, IsSettledText, MeaningOf, Exec;
    var config := OnlyMaster(param, m, dataDir);
    var l := Loader(config, ctx, ParamRead);
    HeadOfLoad(p, config, m, luck);
    SettledReads(p, l, m, Draw(l, luck), v);
    AloneUnfolds(p, l, luck);
    AloneEnds(p, l.(stage := Loaded(v)), luck);
  }

  /** Where the fingerprint and the context are in place, a load soon comes to the row itself. */
  lemma HeadOfLoad(p: Params, config: Config, m: Master, luck: Luck)
    requires config.master == Some(m) && NamesMaster(p, m) && p.context.Some? && p.context.value != ""
    requires luck.faults(AtFingerprintRead) == luck.faults(AtContextRead) == {}
    ensures Alone(p, Start(config), luck) == Alone(p, Loader(config, p.context.value, ParamRead), luck)
  {
    hide Alone, ReadParam;
    AloneUnfolds(p, Start(config), luck);
    AloneUnfolds(p, Start(config).(stage := ContextRead), luck);
  }

  /** The active master alone reads a settled row and finds nothing to seal anew. */
  lemma SettledReads(p: Params, l: Loader, m: Master, c: Chance, v: Value)
    requires l.config == OnlyMaster(l.config.param, m, l.config.dataDir) && IsParamId(l.config.param)
    requires p.context == Some(l.ctx) && IsSettled(p, m, l.config.param) && l.stage.ParamRead? && c.faults == {}
    requires MeaningOf(p.boxes, l.config.param, p.rows[l.config.param]) == Some(v)
    ensures Exec(p, l, c) == (p, l.(stage := Loaded(v)))
  {
    hide LooksLikeEnvelope, DecodePlaintext;
    var param, raw := l.config.param, p.rows[l.config.param];
    var env := LooksLikeEnvelope(raw).value;
    var box := p.boxes[CipherOf(env)];
    FingerprintsTellMastersApart(box.master, m);
    assert OpenEnvelope(p.boxes, l.config.ring[FingerprintOf(m)], l.ctx, param, env) == Some(box.plaintext);
    assert OpenedBy(p, l, m, env) == Some((box.plaintext, false));
    assert ToSeal(p, l, m, raw, c) == None;
    assert Decoded(p, l, raw, c) == Some(v);
  }

  // ----- what a failure costs -----

  /** The row is an envelope that another master sealed. */
  predicate IsUnderOther(p: Params, m: Master, param: string) {
    param in p.rows
    && match LooksLikeEnvelope(p.rows[param])
       case None => false
       case Some(env) => CipherOf(env) in p.boxes && p.boxes[CipherOf(env)].master != m
  }

  /** Nothing failed that the load itself swallows: sealing anew, the swap of the row, and where the
      fingerprint row named another master its promotion. */
  predicate RewrapSucceeds(p: Params, m: Master, luck: Luck) {
    && Sealing !in luck.faults(AtParamRead) && Query !in luck.faults(AtParamSwap)
    && (p.fingerprint.None? || NamesMaster(p, m) || Query !in luck.faults(AtFingerprintPromote))
  }

  /** A load that comes to the row has passed the fingerprint and the context. */
  lemma LoadReachesRow(p: Params, config: Config, m: Master, luck: Luck) returns (p1: Params, ctx: string)
    requires config.master == Some(m) && luck.uuid != "" && Alone(p, Start(config), luck).1.stage.Loaded?
    ensures p1.rows == p.rows && p1.boxes == p.boxes && p1.context == Some(ctx) && ctx != ""
    ensures NamesMaster(p1, m) <==> p.fingerprint.None? || NamesMaster(p, m) || Query !in luck.faults(AtFingerprintPromote)
    ensures p1.fingerprint.Some?
    ensures Alone(p, Start(config), luck) == Alone(p1, Loader(config, ctx, ParamRead), luck)
  {
    hide Alone, ReadParam;
    var l0 := Start(config);
    FailedStays(config, luck);
    AloneUnfolds(p, l0, luck);
    p1 := p;
    if p.fingerprint.None? {
      AloneUnfolds(p, l0.(stage := FingerprintInsert), luck);
      p1 := p.(fingerprint := Some(FingerprintOf(m)));
    } else if !NamesMaster(p, m) {
      AloneUnfolds(p, l0.(stage := FingerprintPromote(p.fingerprint.value)), luck);
      if Query !in luck.faults(AtFingerprintPromote) { p1 := p.(fingerprint := Some(FingerprintOf(m))); }
    }
    assert Alone(p, l0, luck) == Alone(p1, l0.(stage := ContextRead), luck);
    p1, ctx := LoadReachesRow2(p1, config, luck);
  }

  lemma LoadReachesRow2(p: Params, config: Config, luck: Luck) returns (p1: Params, ctx: string)
    requires luck.uuid != "" && Alone(p, Loader(config, "", ContextRead), luck).1.stage.Loaded?
    ensures p1 == p.(context := Some(ctx)) && ctx != ""
    ensures Alone(p, Loader(config, "", ContextRead), luck) == Alone(p1, Loader(config, ctx, ParamRead), luck)
  {
    hide Alone, ReadParam;
    FailedStays(config, luck);
    var l := Loader(config, "", ContextRead);
    AloneUnfolds(p, l, luck);
    if p.context.None? {
      AloneUnfolds(p, l.(stage := ContextInsert), luck);
      AloneUnfolds(p, l.(stage := ContextReread), luck);
      ctx := luck.uuid;
    } else {
      ctx := p.context.value;
    }
    p1 := p.(context := Some(ctx));
  }

  /** A load that makes a value of a row under another master had it opened, and asks to seal it anew. */
  lemma OtherRowIsResealed(p: Params, l: Loader, m: Master, c: Chance, v: Value)
    requires l.config.master == Some(m) && IsUnderOther(p, m, l.config.param)
    requires Decoded(p, l, p.rows[l.config.param], c) == Some(v)
    ensures var sealed := ToSeal(p, l, m, p.rows[l.config.param], c);
            sealed.Some? && DecodePlaintext(KindOf(l.config.param), sealed.value) == Some(v)
  {
    hide LooksLikeEnvelope, DecodePlaintext;
    var env := LooksLikeEnvelope(p.rows[l.config.param]).value;
    FingerprintsTellMastersApart(p.boxes[CipherOf(env)].master, m);
  }

  /** Reading and resealing a row that another master sealed: what the load leaves. */
  lemma OtherRowLoaded(p: Params, l: Loader, m: Master, luck: Luck, v: Value)
    requires l.config.master == Some(m) && l.stage.ParamRead? && p.context == Some(l.ctx) && IsParamId(l.config.param)
    requires IsUnderOther(p, m, l.config.param) && IsCipher(luck.cipher) && luck.cipher !in p.boxes
    requires Alone(p, l, luck).1.stage == Loaded(v)
    ensures var p' := Alone(p, l, luck).0;
            && p'.fingerprint == p.fingerprint && p'.context == p.context && l.config.param in p'.rows
            && (if Sealing in luck.faults(AtParamRead) || Query in luck.faults(AtParamSwap) then IsUnderOther(p', m, l.config.param)
                else IsSettled(p', m, l.config.param) && MeaningOf(p'.boxes, l.config.param, p'.rows[l.config.param]) == Some(v))
  {
    hide Alone, LooksLikeEnvelope, DecodePlaintext, Decoded, ToSeal, SealText, IsSettledText;
    var param, c := l.config.param, Draw(l, luck);
    var raw := p.rows[param];
    LoadedIsDecoded(p, l, m, luck, v);
    OtherRowIsResealed(p, l, m, c, v);
    AloneUnfolds(p, l, luck);
    ReadStep(p, l, c);
    if Sealing !in c.faults {
      var plaintext := ToSeal(p, l, m, raw, c).value;
      var p2 := SealInto(p, l, m, plaintext, luck.cipher);
      var l2 := l.(stage := ParamSwap(raw, SealText(m, luck.cipher), Some(v)));
      AloneUnfolds(p2, l2, luck);
      AloneEnds(Exec(p2, l2, Draw(l2, luck)).0, l2.(stage := Loaded(v)), luck);
      SealedIsSettled(p, l, m, plaintext, luck.cipher);
      SealedMeans(p, l, m, plaintext, luck.cipher);
    } else {
      AloneEnds(p, l.(stage := Loaded(v)), luck);
    }
  }

  lemma LoadedIsDecoded(p: Params, l: Loader, m: Master, luck: Luck, v: Value)
    requires l.config.master == Some(m) && l.stage.ParamRead? && l.config.param in p.rows
    requires Alone(p, l, luck).1.stage == Loaded(v)
    ensures Query !in luck.faults(AtParamRead) && Decoded(p, l, p.rows[l.config.param], Draw(l, luck)) == Some(v)
  {
    hide Alone, Decoded, ToSeal, SealText;
    var c := Draw(l, luck);
    AloneUnfolds(p, l, luck);
    ReadStep(p, l, c);
    var (p2, l2) := Exec(p, l, c);
    if l2.stage.ParamSwap? {
      AloneUnfolds(p2, l2, luck);
      AloneEnds(Exec(p2, l2, Draw(l2, luck)).0, Exec(p2, l2, Draw(l2, luck)).1, luck);
    } else {
      AloneEnds(p2, l2, luck);
    }
  }

  /** A provider that knows only `m` cannot load under a fingerprint or a row of another master. */
  lemma OtherRowFails(p: Params, m: Master, param: string, dataDir: string, luck: Luck)
    requires p.fingerprint.Some? && p.context.Some? && p.context.value != "" && param in p.rows
    requires !NamesMaster(p, m) || IsUnderOther(p, m, param)
    ensures Alone(p, Start(OnlyMaster(param, m, dataDir)), luck).1.stage == Failed
  {
    hide Alone, LooksLikeEnvelope, ReadRow;
    var config := OnlyMaster(param, m, dataDir);
    var l0 := Start(config);
    var l1, l2 := l0.(stage := ContextRead), l0.(ctx := p.context.value, stage := ParamRead);
    FailedStays(config, luck);
    AloneUnfolds(p, l0, luck);
    AloneUnfolds(p, l1, luck);
    AloneUnfolds(p, l2, luck);
    if NamesMaster(p, m) { StaleRowIsNotRead(p, l2, m, Draw(l2, luck)); }
  }

  lemma StaleRowIsNotRead(p: Params, l: Loader, m: Master, c: Chance)
    requires l.stage.ParamRead? && l.config == OnlyMaster(l.config.param, m, l.config.dataDir) && IsUnderOther(p, m, l.config.param)
    ensures Exec(p, l, c) == (p, l.(stage := Failed))
  {
    hide LooksLikeEnvelope;
    assert OpenedBy(p, l, m, LooksLikeEnvelope(p.rows[l.config.param]).value) == None;
  }

  /** When the old master can go: after any load that succeeded on a row which another master had sealed, a
      later load that knows only the new master, and meets no fault, succeeds if and only if neither sealing
      the row anew, nor swapping it, nor a promotion of the fingerprint that was due had failed. The first
      load reports success in any case. */
  lemma NewMasterSufficesExactly(p: Params, config: Config, m: Master, v: Value, luck: Luck, dataDir: string, later: Luck)
    requires IsConfig(config) && config.master == Some(m) && IsUnderOther(p, m, config.param)
    requires luck.uuid != "" && IsCipher(luck.cipher) && luck.cipher !in p.boxes
    requires Alone(p, Start(config), luck).1.stage == Loaded(v)
    requires forall point :: later.faults(point) == {}
    ensures Alone(Alone(p, Start(config), luck).0, Start(OnlyMaster(config.param, m, dataDir)), later).1.stage
         == if RewrapSucceeds(p, m, luck) then Loaded(v) else Failed
  {
    hide Alone, LooksLikeEnvelope, MeaningOf, IsSettledText;
    var p1, ctx := LoadReachesRow(p, config, m, luck);
    var l := Loader(config, ctx, ParamRead);
    OtherRowLoaded(p1, l, m, luck, v);
    var p' := Alone(p1, l, luck).0;
    if RewrapSucceeds(p, m, luck) {
      LoneLoad(p', config.param, m, ctx, dataDir, later, v);
    } else {
      OtherRowFails(p', m, config.param, dataDir, later);
    }
  }

  /** The failures that a load swallows. */
  function Swallowed(point: Point): set<Fault> {
    match point
    case AtFingerprintPromote => {Query}
    case AtParamRead => {Sealing}
    case AtParamSwap => {Query}
    case _ => {}
  }

  /** Whichever of these happen, a load of a row sealed by another master of the ring returns its value. */
  lemma FailuresAreSilent(p: Params, config: Config, m: Master, old_: Master, v: Value, luck: Luck)
    requires IsConfig(config) && config.master == Some(m) && IsUnderOther(p, m, config.param)
    requires FingerprintOf(old_) in config.ring && p.fingerprint == Some(FingerprintOf(old_))
    requires p.context.Some? && p.context.value != ""
    requires p.boxes[CipherOf(LooksLikeEnvelope(p.rows[config.param]).value)].master == old_
    requires p.boxes[CipherOf(LooksLikeEnvelope(p.rows[config.param]).value)].info == Info(p.context.value, config.param)
    requires MeaningOf(p.boxes, config.param, p.rows[config.param]) == Some(v)
    requires forall point :: luck.faults(point) <= Swallowed(point)
    ensures Alone(p, Start(config), luck).1.stage == Loaded(v)
  {
    hide Alone, LooksLikeEnvelope, MeaningOf, Exec, Start;
    var p1, l := PassesOldFingerprint(p, config, m, old_, luck);
    assert luck.faults(AtParamRead) <= {Sealing};
    OldRowIsRead(p1, l, old_, Draw(l, luck), v);
    AloneUnfolds(p1, l, luck);
    var (p2, l2) := Exec(p1, l, Draw(l, luck));
    if l2.stage.ParamSwap? {
      AloneUnfolds(p2, l2, luck);
      SwapEnds(p2, l2, Draw(l2, luck));
      AloneEnds(Exec(p2, l2, Draw(l2, luck)).0, Exec(p2, l2, Draw(l2, luck)).1, luck);
    } else {
      AloneEnds(p2, l2, luck);
    }
  }

  lemma SwapEnds(p: Params, l: Loader, c: Chance)
    requires l.stage.ParamSwap?
    ensures Exec(p, l, c).1.stage == Outcome(l.stage.outcome)
  {}

  lemma PassesOldFingerprint(p: Params, config: Config, m: Master, old_: Master, luck: Luck) returns (p1: Params, l: Loader)
    requires config.master == Some(m) && FingerprintOf(old_) in config.ring && p.fingerprint == Some(FingerprintOf(old_)) && old_ != m
    requires p.context.Some? && p.context.value != "" && forall point :: luck.faults(point) <= Swallowed(point)
    ensures p1.rows == p.rows && p1.boxes == p.boxes && l == Loader(config, p.context.value, ParamRead)
    ensures Alone(p, Start(config), luck) == Alone(p1, l, luck)
  {
    hide Alone, ReadParam;
    FingerprintsTellMastersApart(old_, m);
    var l0 := Start(config);
    l := l0.(ctx := p.context.value, stage := ParamRead);
    assert luck.faults(AtFingerprintRead) == luck.faults(AtContextRead) == {};
    AloneUnfolds(p, l0, luck);
    AloneUnfolds(p, l0.(stage := FingerprintPromote(p.fingerprint.value)), luck);
    p1 := if Query in luck.faults(AtFingerprintPromote) then p else p.(fingerprint := Some(FingerprintOf(m)));
    AloneUnfolds(p1, l0.(stage := ContextRead), luck);
  }

  lemma OldRowIsRead(p: Params, l: Loader, old_: Master, c: Chance, v: Value)
    requires IsConfig(l.config) && l.config.master.Some? && l.stage.ParamRead? && c.faults <= {Sealing}
    requires l.config.param in p.rows && LooksLikeEnvelope(p.rows[l.config.param]).Some?
    requires var cipher := CipherOf(LooksLikeEnvelope(p.rows[l.config.param]).value);
             cipher in p.boxes && p.boxes[cipher].master == old_ && p.boxes[cipher].info == Info(l.ctx, l.config.param)
    requires FingerprintOf(old_) in l.config.ring && MeaningOf(p.boxes, l.config.param, p.rows[l.config.param]) == Some(v)
    ensures var stage := Exec(p, l, c).1.stage; stage == Loaded(v) || (stage.ParamSwap? && stage.outcome == Some(v))
    ensures Exec(p, l, c).1.config == l.config
  {
    hide LooksLikeEnvelope, DecodePlaintext, ToSeal;
    var raw := p.rows[l.config.param];
    var env := LooksLikeEnvelope(raw).value;
    FingerprintsTellMastersApart(old_, l.config.ring[FingerprintOf(old_)]);
    assert OpenEnvelope(p.boxes, l.config.ring[FingerprintOf(old_)], l.ctx, l.config.param, env) == Some(p.boxes[CipherOf(env)].plaintext);
    assert OpenedBy(p, l, l.config.master.value, env).Some?;
    assert Decoded(p, l, raw, c) == Some(v);
    ReadStep(p, l, c);
  }

  /** Such a state exists for any two masters: the empty secret, sealed by the old one. */
  lemma SilentFailureHappens(m: Master, old_: Master, cipher: Cipher, luck: Luck, dataDir: string, later: Luck)
    requires old_ != m && IsCipher(cipher) && IsCipher(luck.cipher) && cipher != luck.cipher && luck.uuid != ""
    requires (forall point :: luck.faults(point) <= Swallowed(point)) && forall point :: later.faults(point) == {}
    ensures var p := OldSecret(old_, cipher);
            var both := Config(GLOBAL_SECRET, Some(m), map[FingerprintOf(m) := m, FingerprintOf(old_) := old_], "");
            var (p', l') := Alone(p, Start(both), luck);
            && IsConfig(both) && l'.stage == Loaded(Secret([]))
            && Alone(p', Start(OnlyMaster(GLOBAL_SECRET, m, dataDir)), later).1.stage
               == if forall point :: luck.faults(point) == {} then Loaded(Secret([])) else Failed
  {
    hide Alone, LooksLikeEnvelope, SealText;
    FingerprintsTellMastersApart(old_, m);
    var empty: Boxes := map[];
    var p := OldSecret(old_, cipher);
    assert IsParamId(GLOBAL_SECRET);
    assert empty[cipher := Box(old_, Info("c", GLOBAL_SECRET), "")] == p.boxes;
    SealRoundTrip(empty, old_, "c", GLOBAL_SECRET, "", cipher, old_, "c", GLOBAL_SECRET);
    var both := Config(GLOBAL_SECRET, Some(m), map[FingerprintOf(m) := m, FingerprintOf(old_) := old_], "");
    assert MeaningOf(p.boxes, GLOBAL_SECRET, p.rows[GLOBAL_SECRET]) == Some(Secret([]));
    FailuresAreSilent(p, both, m, old_, Secret([]), luck);
    NewMasterSufficesExactly(p, both, m, Secret([]), luck, dataDir, later);
    NoFaultAnywhere(luck);
  }

  function OldSecret(old_: Master, cipher: Cipher): Params {
    Params(Some(FingerprintOf(old_)), Some("c"), map[GLOBAL_SECRET := SealText(old_, cipher)],
           map[cipher := Box(old_, Info("c", GLOBAL_SECRET), "")])
  }

  lemma NoFaultAnywhere(luck: Luck)
    requires forall point :: luck.faults(point) <= Swallowed(point)
    ensures (forall point :: luck.faults(point) == {})
       <==> Sealing !in luck.faults(AtParamRead) && Query !in luck.faults(AtParamSwap) && Query !in luck.faults(AtFingerprintPromote)
  {
    forall point ensures luck.faults(point) <= Swallowed(point) {}
  }
}
