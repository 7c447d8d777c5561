/**
Key material is a write-once cell: whatever loaders run together, every load that succeeds returns the
value the row had first, through lost inserts, migrations and rewraps.
*/
module KeyCell {
  import opened Options
  import opened StoredForms
  import opened KeyEnvelope
  import opened KeyLoader

  /** The value a row's text stands for, whoever can open it. */
  ghost function MeaningOf(boxes: Boxes, param: string, raw: string): Option<Value> {
    match LooksLikeEnvelope(raw)
    case None => DecodePlaintext(KindOf(param), raw)
    case Some(env) =>
      if CipherOf(env) in boxes then DecodePlaintext(KindOf(param), boxes[CipherOf(env)].plaintext) else None
  }

  ghost function Meaning(p: Params, param: string): Option<Value> {
    if param in p.rows then MeaningOf(p.boxes, param, p.rows[param]) else None
  }

  /** Text whose meaning no later sealing can change. */
  predicate Anchored(boxes: Boxes, raw: string) {
    match LooksLikeEnvelope(raw)
    case None => true
    case Some(env) => CipherOf(env) in boxes
  }

  ghost predicate Means(boxes: Boxes, param: string, raw: string, v: Option<Value>) {
    Anchored(boxes, raw) && MeaningOf(boxes, param, raw) == v
  }

  /** What a loader has in hand agrees with the row. */
  ghost predicate Agrees(p: Params, l: Loader) {
    var param := l.config.param;
    && IsParamId(param)
    && IsKeyring(l.config.ring)
    && match l.stage
       case ParamInsert(made, text) => Means(p.boxes, param, text, Some(made))
       case ParamSwap(raw, sealed, outcome) =>
         && param in p.rows
         && Means(p.boxes, param, raw, outcome) && Means(p.boxes, param, sealed, outcome)
         && Means(p.boxes, param, p.rows[param], outcome)
       case Loaded(v) => param in p.rows && Means(p.boxes, param, p.rows[param], Some(v))
       case _ => true
  }

  ghost predicate Inv(s: Sys) { forall id :: id in s.loaders ==> Agrees(s.params, s.loaders[id]) }

  /** What a step does to the table, as far as meanings go. */
  ghost predicate Keeps(p: Params, p': Params) {
    && (forall c :: c in p.boxes ==> c in p'.boxes && p'.boxes[c] == p.boxes[c])
    && (forall param :: param in p.rows ==>
          && param in p'.rows
          && (p'.rows[param] == p.rows[param]
              || exists v :: Means(p'.boxes, param, p.rows[param], v) && Means(p'.boxes, param, p'.rows[param], v)))
  }

  lemma MeaningsLast(p: Params, p': Params, param: string, raw: string, v: Option<Value>)
    requires Keeps(p, p')
    ensures Means(p.boxes, param, raw, v) ==> Means(p'.boxes, param, raw, v)
  {}

  lemma RowsKeepMeaning(p: Params, p': Params, param: string, v: Option<Value>)
    requires Keeps(p, p')
    ensures param in p.rows && Means(p.boxes, param, p.rows[param], v) ==>
              param in p'.rows && Means(p'.boxes, param, p'.rows[param], v)
  {
    if param in p.rows { MeaningsLast(p, p', param, p.rows[param], v); }
  }

  lemma OthersStillAgree(p: Params, p': Params, l: Loader)
    requires Keeps(p, p') && Agrees(p, l)
    ensures Agrees(p', l)
  {
    hide Keeps, Means;
    var param := l.config.param;
    match l.stage
    case ParamInsert(made, text) => MeaningsLast(p, p', param, text, Some(made));
    case ParamSwap(raw, sealed, outcome) =>
      MeaningsLast(p, p', param, raw, outcome);
      MeaningsLast(p, p', param, sealed, outcome);
      RowsKeepMeaning(p, p', param, outcome);
    case Loaded(v) => RowsKeepMeaning(p, p', param, Some(v));
    case _ =>
  }

  /** What is sealed means what its plaintext decodes to. */
  lemma SealedMeans(p: Params, l: Loader, m: Master, plaintext: string, cipher: Cipher)
    requires IsCipher(cipher) && IsParamId(l.config.param) && cipher !in p.boxes
    ensures var p' := SealInto(p, l, m, plaintext, cipher);
            Keeps(p, p') && Means(p'.boxes, l.config.param, SealText(m, cipher), DecodePlaintext(KindOf(l.config.param), plaintext))
  {
    SealRoundTrip(p.boxes, m, l.ctx, l.config.param, plaintext, cipher, m, l.ctx, l.config.param);
  }

  /** A loader that makes a value of a row's text makes the value it means. */
  lemma DecodedIsMeaning(p: Params, l: Loader, raw: string, c: Chance)
    requires Decoded(p, l, raw, c).Some?
    ensures Means(p.boxes, l.config.param, raw, Decoded(p, l, raw, c))
  {
    hide LooksLikeEnvelope, DecodePlaintext;
  }

  /** Opening a row that does not decode still anchors it. */
  lemma OpenedIsMeaning(p: Params, l: Loader, raw: string, c: Chance)
    requires LooksLikeEnvelope(raw).Some? && l.config.master.Some? && Ring !in c.faults
    requires OpenedBy(p, l, l.config.master.value, LooksLikeEnvelope(raw).value).Some?
    ensures Means(p.boxes, l.config.param, raw, Decoded(p, l, raw, c))
    ensures Decoded(p, l, raw, c)
         == DecodePlaintext(KindOf(l.config.param), OpenedBy(p, l, l.config.master.value, LooksLikeEnvelope(raw).value).value.0)
  {
    hide LooksLikeEnvelope, DecodePlaintext;
  }

  /** A generated value in plaintext is never mistaken for an envelope. */
  lemma GeneratedIsPlaintext(param: string, boxes: Boxes, v: Value)
    requires IsGenerated(KindOf(param), v)
    ensures Means(boxes, param, EncodePlaintext(v), Some(v))
  {
    hide LooksLikeEnvelope, HexEncode, HexDecode, DocText, ParseDoc;
    PlaintextRoundTrip(KindOf(param), v);
    if v.Secret? { HexRoundTrip(v.bytes); HexIsNoEnvelope(HexEncode(v.bytes)); } else { DocIsEnvelope(v.doc); }
  }

  lemma ReadRowAgrees(p: Params, l: Loader, raw: string, c: Chance)
    requires Agrees(p, l) && IsChance(p, l, c) && l.config.param in p.rows && p.rows[l.config.param] == raw
    ensures var (p', stage) := ReadRow(p, l, raw, c);
            Keeps(p, p') && Agrees(p', l.(stage := stage))
  {
    hide DecodePlaintext, SealText, Keeps, Means, Decoded, ToSeal;
    var param, outcome := l.config.param, Decoded(p, l, raw, c);
    if outcome.Some? { DecodedIsMeaning(p, l, raw, c); }
    KeepsItself(p);
    if l.config.master.Some? && ToSeal(p, l, l.config.master.value, raw, c).Some? {
      var m := l.config.master.value;
      var plaintext := ToSeal(p, l, m, raw, c).value;
      SealingKeepsMeaning(p, l, raw, c);
      SealedMeans(p, l, m, plaintext, c.cipher);
      MeaningsLast(p, SealInto(p, l, m, plaintext, c.cipher), param, raw, outcome);
    }
  }

  /** What is sealed anew decodes to what the row means. */
  lemma SealingKeepsMeaning(p: Params, l: Loader, raw: string, c: Chance)
    requires l.config.master.Some? && ToSeal(p, l, l.config.master.value, raw, c).Some?
    ensures Means(p.boxes, l.config.param, raw, Decoded(p, l, raw, c))
    ensures DecodePlaintext(KindOf(l.config.param), ToSeal(p, l, l.config.master.value, raw, c).value) == Decoded(p, l, raw, c)
  {
    hide LooksLikeEnvelope, DecodePlaintext, EncodePlaintext, Means;
    match LooksLikeEnvelope(raw)
    case None =>
      DecodedIsMeaning(p, l, raw, c);
      ReencodingKeepsValue(KindOf(l.config.param), raw);
    case Some(env) => OpenedIsMeaning(p, l, raw, c);
  }

  lemma KeepsItself(p: Params)
    ensures Keeps(p, p)
  {}

  lemma ReadParamAgrees(p: Params, l: Loader, c: Chance)
    requires Agrees(p, l) && IsChance(p, l, c)
    ensures var (p', stage) := ReadParam(p, l, c);
            Keeps(p, p') && Agrees(p', l.(stage := stage))
  {
    hide LooksLikeEnvelope, DecodePlaintext, EncodePlaintext, SealText, Keeps, Means, ReadRow;
    KeepsItself(p);
    var text := EncodePlaintext(c.value);
    if l.config.param in p.rows {
      ReadRowAgrees(p, l, p.rows[l.config.param], c);
    } else {
      GeneratedIsPlaintext(l.config.param, p.boxes, c.value);
      PlaintextRoundTrip(KindOf(l.config.param), c.value);
      if l.config.master.Some? { SealedMeans(p, l, l.config.master.value, text, c.cipher); }
    }
  }

  /** One step of a loader keeps every meaning and its own agreement. */
  lemma ExecAgrees(p: Params, l: Loader, c: Chance)
    requires Agrees(p, l) && IsChance(p, l, c)
    ensures var (p', l') := Exec(p, l, c);
            Keeps(p, p') && Agrees(p', l') && l'.config == l.config
  {
    hide ReadParam, Means, Keeps, Decoded;
    KeepsItself(p);
    var param := l.config.param;
    match l.stage
    case ParamRead => ReadParamAgrees(p, l, c);
    case ParamReread =>
      if param in p.rows && Decoded(p, l, p.rows[param], c).Some? { DecodedIsMeaning(p, l, p.rows[param], c); }
    case ParamInsert(made, text) =>
      if param !in p.rows { KeepsInsert(p, param, text); }
    case ParamSwap(raw, sealed, outcome) =>
      KeepsSwap(p, param, sealed, outcome);
    case FingerprintInsert => KeepsHeader(p, Exec(p, l, c).0);
    case FingerprintPromote(_) => KeepsHeader(p, Exec(p, l, c).0);
    case ContextInsert => KeepsHeader(p, Exec(p, l, c).0);
    case _ =>
  }

  lemma KeepsHeader(p: Params, p': Params)
    requires p'.rows == p.rows && p'.boxes == p.boxes
    ensures Keeps(p, p')
  {}

  lemma KeepsInsert(p: Params, param: string, text: string)
    requires param !in p.rows
    ensures Keeps(p, p.(rows := p.rows[param := text]))
  {}

  lemma KeepsSwap(p: Params, param: string, sealed: string, v: Option<Value>)
    requires param in p.rows
    ensures Means(p.boxes, param, p.rows[param], v) && Means(p.boxes, param, sealed, v) ==>
              Keeps(p, p.(rows := p.rows[param := sealed]))
  {}

  lemma StepAgrees(s: Sys, e: Event)
    requires Inv(s) && Enabled(s, e)
    ensures Inv(Step(s, e)) && Keeps(s.params, Step(s, e).params)
  {
    hide Exec, Agrees, Keeps;
    KeepsItself(s.params);
    match e
    case Begin(id, config) => StartAgrees(s.params, config);
    case Advance(id, c) =>
      ExecAgrees(s.params, s.loaders[id], c);
      forall other | other in s.loaders ensures Agrees(Step(s, e).params, s.loaders[other]) {
        OthersStillAgree(s.params, Step(s, e).params, s.loaders[other]);
      }
  }

  lemma StartAgrees(p: Params, config: Config)
    requires IsConfig(config)
    ensures Agrees(p, Start(config))
  {}

  /** Whatever the table holds at first and whatever loaders then run together: a value that a row stands
      for at some moment is the value it stands for ever after, and the one every load returns. */
  lemma {:induction false} OneValueForever(s: Sys, es: seq<Event>, param: string)
    requires Inv(s) && Valid(s, es)
    ensures Inv(After(s, es))
    ensures Meaning(s.params, param).Some? ==>
              && Meaning(After(s, es).params, param) == Meaning(s.params, param)
              && forall id :: id in After(s, es).loaders && After(s, es).loaders[id].config.param == param
                              && After(s, es).loaders[id].stage.Loaded? ==>
                   After(s, es).loaders[id].stage.value == Meaning(s.params, param).value
    decreases |es|
  {
    hide Agrees;
    if es == [] {
      LoadedIsMeaning(s, param);
    } else {
      var s' := After(s, es[..|es|-1]);
      OneValueForever(s, es[..|es|-1], param);
      StepAgrees(s', es[|es|-1]);
      MeaningStays(s'.params, After(s, es).params, param);
      LoadedIsMeaning(After(s, es), param);
    }
  }

  lemma MeaningStays(p: Params, p': Params, param: string)
    requires Keeps(p, p')
    ensures Meaning(p, param).Some? ==> Meaning(p', param) == Meaning(p, param)
  {
    hide LooksLikeEnvelope, DecodePlaintext;
    if Meaning(p, param).Some? { RowsKeepMeaning(p, p', param, Meaning(p, param)); }
  }

  lemma LoadedIsMeaning(s: Sys, param: string)
    requires Inv(s)
    ensures forall id :: id in s.loaders && s.loaders[id].config.param == param && s.loaders[id].stage.Loaded? ==>
              Meaning(s.params, param) == Some(s.loaders[id].stage.value)
  {
    hide LooksLikeEnvelope, DecodePlaintext;
    forall id | id in s.loaders && s.loaders[id].config.param == param && s.loaders[id].stage.Loaded?
      ensures Meaning(s.params, param) == Some(s.loaders[id].stage.value)
    {
      assert Agrees(s.params, s.loaders[id]);
    }
  }

  /** Any two successful loads of one parameter return the same value, at any two moments of a run that
      starts with no loader, and that is the value the row then stands for. */
  lemma LoadsAgree(p: Params, es: seq<Event>, more: seq<Event>, id: nat, id': nat)
    requires Valid(Sys(p, map[]), es) && Valid(After(Sys(p, map[]), es), more)
    requires var s := After(Sys(p, map[]), es); id in s.loaders && s.loaders[id].stage.Loaded?
    requires var s := After(After(Sys(p, map[]), es), more);
             id' in s.loaders && s.loaders[id'].stage.Loaded?
             && s.loaders[id'].config.param == After(Sys(p, map[]), es).loaders[id].config.param
    ensures var l := After(Sys(p, map[]), es).loaders[id];
            var s' := After(After(Sys(p, map[]), es), more);
            s'.loaders[id'].stage.value == l.stage.value && Meaning(s'.params, l.config.param) == Some(l.stage.value)
  {
    var s := After(Sys(p, map[]), es);
    var param := s.loaders[id].config.param;
    OneValueForever(Sys(p, map[]), es, param);
    LoadedIsMeaning(s, param);
    OneValueForever(s, more, param);
  }

  /** The value first inserted: a step that creates the row makes it stand for the value its loader
      generated and then returns. */
  lemma FirstInsertDecides(s: Sys, id: nat, c: Chance, param: string)
    requires Inv(s) && Enabled(s, Advance(id, c))
    ensures var s' := Step(s, Advance(id, c));
            param !in s.params.rows && param in s'.params.rows ==>
              && s.loaders[id].config.param == param && s.loaders[id].stage.ParamInsert?
              && s'.loaders[id].stage == Loaded(s.loaders[id].stage.made)
              && Meaning(s'.params, param) == Some(s.loaders[id].stage.made)
  {
    hide LooksLikeEnvelope, DecodePlaintext;
    assert Agrees(s.params, s.loaders[id]);
  }
}
