/**
Loading key material as concurrent loaders over the `_params` table (params.go).

Three kinds of row matter: the fingerprint of the master key in use, the envelope context id, and the
key material itself, whose text is kept as it is stored. One step of a loader is one access to the
database; whatever the loader computes from what it read belongs to the same step. Loaders may differ
in master, keyring and data directory, and a loader without a master runs in plaintext mode. Rows are
never deleted.
*/
module KeyLoader {
  import opened Options
  import opened StoredForms
  import opened KeyEnvelope

  const GLOBAL_SECRET := "oauth2_global_secret"

  /** Byte slices are kept for the global secret, JSON Web Keys for every other parameter. */
  function KindOf(param: string): Kind { if param == GLOBAL_SECRET then Bytes else Jwk }

  datatype Params = Params(fingerprint: Option<string>, context: Option<string>, rows: map<string, string>, boxes: Boxes)

  /** `master` is the provider's active master, None in plaintext mode. */
  datatype Config = Config(param: string, master: Option<Master>, ring: Keyring, dataDir: string)

  predicate IsConfig(c: Config) {
    IsParamId(c.param) && IsKeyring(c.ring) && (c.master.Some? ==> FingerprintOf(c.master.value) in c.ring)
  }

  datatype Stage =
    | FingerprintRead
    | FingerprintInsert
    | FingerprintPromote(stored: string)
    | ContextRead
    | ContextInsert
    | ContextReread
    | ParamRead
    | ParamInsert(made: Value, text: string)
    | ParamReread
    | ParamSwap(raw: string, sealed: string, outcome: Option<Value>)
    | Loaded(value: Value)
    | Failed

  datatype Loader = Loader(config: Config, ctx: string, stage: Stage)

  /** What can go wrong at a loader's step: a database access, resolving the keyring, generating the
      value, or sealing it. */
  datatype Fault = Query | Ring | Generator | Sealing

  /** What a step may draw: a context id, a value and a ciphertext; and what fails in it. */
  datatype Chance = Chance(uuid: string, value: Value, cipher: Cipher, faults: set<Fault>)

  const NO_FAULTS: set<Fault> := {}

  /** The generators produce secrets and signing keys for RS256. */
  ghost predicate IsGenerated(kind: Kind, v: Value) {
    IsValue(kind, v) && (v.SigningKey? ==> TextOf(Get(v.doc, "alg")) == "RS256")
  }

  ghost predicate IsChance(p: Params, l: Loader, c: Chance) {
    c.uuid != "" && IsCipher(c.cipher) && c.cipher !in p.boxes && IsGenerated(KindOf(l.config.param), c.value)
  }

  function Start(c: Config): Loader { Loader(c, "", if c.master.Some? then FingerprintRead else ParamRead) }

  function Outcome(v: Option<Value>): Stage { match v case Some(value) => Loaded(value) case None => Failed }

  function SealInto(p: Params, l: Loader, m: Master, plaintext: string, cipher: Cipher): Params {
    p.(boxes := p.boxes[cipher := Box(m, Info(l.ctx, l.config.param), plaintext)])
  }

  // ----- the steps -----

  /** verifyOrWriteFingerprint, its first read. */
  function ReadFingerprint(p: Params, l: Loader, m: Master, c: Chance): Stage {
    if Query in c.faults then Failed
    else
      match p.fingerprint
      case None => FingerprintInsert
      case Some(stored) =>
        if stored == FingerprintOf(m) then ContextRead
        else if Ring in c.faults || stored !in l.config.ring then Failed
        else FingerprintPromote(stored)
  }

  /** openEnvelopeWithKeyring with what the loader holds. */
  ghost function OpenedBy(p: Params, l: Loader, m: Master, env: Envelope): Option<(string, bool)> {
    Opened(p.boxes, l.config.ring, FingerprintOf(m), l.ctx, l.config.dataDir, l.config.param, env)
  }

  /** The value a loader makes of a row's text, as loadDecodedParam does; None is an error. */
  ghost function Decoded(p: Params, l: Loader, raw: string, c: Chance): Option<Value> {
    match LooksLikeEnvelope(raw)
    case None => DecodePlaintext(KindOf(l.config.param), raw)
    case Some(env) =>
      if l.config.master.None? || Ring in c.faults then None
      else
        match OpenedBy(p, l, l.config.master.value, env)
        case None => None
        case Some((plaintext, _)) => DecodePlaintext(KindOf(l.config.param), plaintext)
  }

  /** The plaintext to seal anew, for a row that is not sealed as it should be. */
  ghost function ToSeal(p: Params, l: Loader, m: Master, raw: string, c: Chance): Option<string> {
    match LooksLikeEnvelope(raw)
    case None =>
      var outcome := Decoded(p, l, raw, c);
      if outcome.Some? then Some(EncodePlaintext(outcome.value)) else None
    case Some(env) =>
      if Ring in c.faults || OpenedBy(p, l, m, env).None? then None
      else
        var (plaintext, needsRewrap) := OpenedBy(p, l, m, env).value;
        if needsRewrap then Some(plaintext) else None
  }

  /** An existing row: open or decode it, and prepare to swap it for a fresh envelope where needed. */
  ghost function ReadRow(p: Params, l: Loader, raw: string, c: Chance): (Params, Stage) {
    var outcome := Decoded(p, l, raw, c);
    if l.config.master.None? || Sealing in c.faults || ToSeal(p, l, l.config.master.value, raw, c).None? then (p, Outcome(outcome))
    else
      var m := l.config.master.value;
      (SealInto(p, l, m, ToSeal(p, l, m, raw, c).value, c.cipher), ParamSwap(raw, SealText(m, c.cipher), outcome))
  }

  ghost function ReadParam(p: Params, l: Loader, c: Chance): (Params, Stage) {
    if Query in c.faults then (p, Failed)
    else if l.config.param in p.rows then ReadRow(p, l, p.rows[l.config.param], c)
    else if Generator in c.faults then (p, Failed)
    else
      var text := EncodePlaintext(c.value);
      match l.config.master
      case None => (p, ParamInsert(c.value, text))
      case Some(m) =>
        if Sealing in c.faults then (p, Failed)
        else (SealInto(p, l, m, text, c.cipher), ParamInsert(c.value, SealText(m, c.cipher)))
  }

  /** One step of a loader. */
  ghost function Exec(p: Params, l: Loader, c: Chance): (Params, Loader) {
    var param, failed := l.config.param, Query in c.faults;
    match l.stage
    case FingerprintRead =>
      if l.config.master.None? then (p, l.(stage := ParamRead))
      else (p, l.(stage := ReadFingerprint(p, l, l.config.master.value, c)))
    case FingerprintInsert =>
      if failed || p.fingerprint.Some? || l.config.master.None? then (p, l.(stage := Failed))
      else (p.(fingerprint := Some(FingerprintOf(l.config.master.value))), l.(stage := ContextRead))
    case FingerprintPromote(stored) =>
      if failed || p.fingerprint != Some(stored) || l.config.master.None? then (p, l.(stage := ContextRead))
      else (p.(fingerprint := Some(FingerprintOf(l.config.master.value))), l.(stage := ContextRead))
    case ContextRead =>
      if failed || p.context == Some("") then (p, l.(stage := Failed))
      else if p.context.None? then (p, l.(stage := ContextInsert))
      else (p, l.(ctx := p.context.value, stage := ParamRead))
    case ContextInsert =>
      if failed || p.context.Some? then (p, l.(stage := ContextReread))
      else (p.(context := Some(c.uuid)), l.(ctx := c.uuid, stage := ParamRead))
    case ContextReread =>
      if failed || p.context.None? || p.context.value == "" then (p, l.(stage := Failed))
      else (p, l.(ctx := p.context.value, stage := ParamRead))
    case ParamRead =>
      var (p', stage) := ReadParam(p, l, c);
      (p', l.(stage := stage))
    case ParamInsert(made, text) =>
      if failed || param in p.rows then (p, l.(stage := ParamReread))
      else (p.(rows := p.rows[param := text]), l.(stage := Loaded(made)))
    case ParamReread =>
      (p, l.(stage := if failed || param !in p.rows then Failed else Outcome(Decoded(p, l, p.rows[param], c))))
    case ParamSwap(raw, sealed, outcome) =>
      if failed || param !in p.rows || p.rows[param] != raw then (p, l.(stage := Outcome(outcome)))
      else (p.(rows := p.rows[param := sealed]), l.(stage := Outcome(outcome)))
    case Loaded(_) => (p, l)
    case Failed => (p, l)
  }

  /** The step that reads the row. */
  lemma ReadStep(p: Params, l: Loader, c: Chance)
    requires l.stage.ParamRead?
    ensures Exec(p, l, c) == (ReadParam(p, l, c).0, l.(stage := ReadParam(p, l, c).1))
  {}

  // ----- runs -----

  datatype Sys = Sys(params: Params, loaders: map<nat, Loader>)

  datatype Event = Begin(id: nat, config: Config) | Advance(id: nat, chance: Chance)

  ghost predicate Enabled(s: Sys, e: Event) {
    match e
    case Begin(id, config) => id !in s.loaders && IsConfig(config)
    case Advance(id, c) => id in s.loaders && IsChance(s.params, s.loaders[id], c)
  }

  ghost function Step(s: Sys, e: Event): Sys
    requires Enabled(s, e)
  {
    match e
    case Begin(id, config) => s.(loaders := s.loaders[id := Start(config)])
    case Advance(id, c) =>
      var (p', l') := Exec(s.params, s.loaders[id], c);
      Sys(p', s.loaders[id := l'])
  }

  ghost predicate Valid(s: Sys, es: seq<Event>)
    decreases |es|, 0
  {
    es != [] ==> Valid(s, es[..|es|-1]) && Enabled(After(s, es[..|es|-1]), es[|es|-1])
  }

  /** The state after a run. */
  ghost function After(s: Sys, es: seq<Event>): Sys
    requires Valid(s, es)
    decreases |es|, 1
  {
    if es == [] then s else Step(After(s, es[..|es|-1]), es[|es|-1])
  }

  // ----- one loader by itself -----

  /** The statements at which a load can fail. */
  datatype Point = AtFingerprintRead | AtFingerprintInsert | AtFingerprintPromote | AtContextRead | AtContextInsert
                 | AtContextReread | AtParamRead | AtParamInsert | AtParamReread | AtParamSwap | AtEnd

  function PointOf(stage: Stage): Point {
    match stage
    case FingerprintRead => AtFingerprintRead
    case FingerprintInsert => AtFingerprintInsert
    case FingerprintPromote(_) => AtFingerprintPromote
    case ContextRead => AtContextRead
    case ContextInsert => AtContextInsert
    case ContextReread => AtContextReread
    case ParamRead => AtParamRead
    case ParamInsert(_, _) => AtParamInsert
    case ParamReread => AtParamReread
    case ParamSwap(_, _, _) => AtParamSwap
    case _ => AtEnd
  }

  function Rank(point: Point): nat {
    match point
    case AtFingerprintRead => 9
    case AtFingerprintInsert => 8
    case AtFingerprintPromote => 8
    case AtContextRead => 7
    case AtContextInsert => 6
    case AtContextReread => 5
    case AtParamRead => 4
    case AtParamInsert => 3
    case AtParamReread => 2
    case AtParamSwap => 1
    case AtEnd => 0
  }

  /** What a whole load draws, and what fails where. */
  datatype Luck = Luck(uuid: string, value: Value, cipher: Cipher, faults: Point -> set<Fault>)

  function Draw(l: Loader, luck: Luck): Chance { Chance(luck.uuid, luck.value, luck.cipher, luck.faults(PointOf(l.stage))) }

  lemma StepsEnd(p: Params, l: Loader, c: Chance)
    requires PointOf(l.stage) != AtEnd
    ensures Rank(PointOf(Exec(p, l, c).1.stage)) < Rank(PointOf(l.stage))
  {
    hide Decoded, ToSeal;
  }

  /** The load run to its end with nothing in between. */
  ghost function Alone(p: Params, l: Loader, luck: Luck): (Params, Loader)
    decreases Rank(PointOf(l.stage))
  {
    if PointOf(l.stage) == AtEnd then (p, l)
    else
      StepsEnd(p, l, Draw(l, luck));
      var (p', l') := Exec(p, l, Draw(l, luck));
      Alone(p', l', luck)
  }

  /** A step of a load run alone. */
  lemma AloneUnfolds(p: Params, l: Loader, luck: Luck)
    requires PointOf(l.stage) != AtEnd
    ensures var (p', l') := Exec(p, l, Draw(l, luck));
            Alone(p, l, luck) == Alone(p', l', luck)
  {
    hide Exec;
  }

  lemma AloneEnds(p: Params, l: Loader, luck: Luck)
    requires PointOf(l.stage) == AtEnd
    ensures Alone(p, l, luck) == (p, l)
  {}

  lemma FailedStays(config: Config, luck: Luck)
    ensures forall p, ctx :: Alone(p, Loader(config, ctx, Failed), luck) == (p, Loader(config, ctx, Failed))
  {}

  // ----- a load by itself is a run -----

  lemma Extend(s: Sys, es: seq<Event>, e: Event)
    requires Valid(s, es) && Enabled(After(s, es), e)
    ensures Valid(s, es + [e]) && After(s, es + [e]) == Step(After(s, es), e)
  {
    assert (es + [e])[..|es + [e]|-1] == es;
  }

  predicate IsSealed(stage: Stage) { stage.ParamInsert? || stage.ParamReread? || stage.ParamSwap? || stage.Loaded? || stage.Failed? }

  /** What the load may still draw is fit to be drawn. */
  ghost predicate Supplied(p: Params, l: Loader, luck: Luck) {
    && luck.uuid != "" && IsCipher(luck.cipher) && IsGenerated(KindOf(l.config.param), luck.value)
    && (!IsSealed(l.stage) ==> luck.cipher !in p.boxes)
  }

  lemma {:induction false} LongerThan(ciphers: set<Cipher>) returns (n: nat)
    ensures forall c :: c in ciphers ==> |c.ct| < n
    decreases |ciphers|
  {
    if ciphers == {} {
      n := 1;
    } else {
      var c :| c in ciphers;
      var m := LongerThan(ciphers - {c});
      n := if |c.ct| < m then m else |c.ct| + 1;
      assert forall d :: d in ciphers ==> d == c || d in ciphers - {c};
    }
  }

  lemma FreshCipher(p: Params) returns (c: Cipher)
    ensures IsCipher(c) && c !in p.boxes
  {
    var n := LongerThan(p.boxes.Keys);
    c := Cipher("a", seq(n + 1, _ => 'a'));
  }

  /** The same step with a ciphertext that is new. */
  lemma Redraw(p: Params, l: Loader, luck: Luck) returns (c: Chance)
    requires Supplied(p, l, luck)
    ensures IsChance(p, l, c) && Exec(p, l, c) == Exec(p, l, Draw(l, luck)) && c.faults == Draw(l, luck).faults
  {
    hide LooksLikeEnvelope, DecodePlaintext, IsCipher, IsGenerated;
    c := Draw(l, luck);
    if IsSealed(l.stage) {
      var other := FreshCipher(p);
      c := c.(cipher := other);
      if l.stage.ParamReread? && l.config.param in p.rows { SameDecoding(p, l, p.rows[l.config.param], c, Draw(l, luck)); }
    }
  }

  lemma SameDecoding(p: Params, l: Loader, raw: string, c: Chance, c': Chance)
    requires c.faults == c'.faults
    ensures Decoded(p, l, raw, c) == Decoded(p, l, raw, c')
  {
    hide LooksLikeEnvelope, DecodePlaintext;
  }

  lemma StaysSupplied(p: Params, l: Loader, luck: Luck)
    requires Supplied(p, l, luck)
    ensures var (p', l') := Exec(p, l, Draw(l, luck)); Supplied(p', l', luck) && l'.config == l.config
  {
    hide Decoded, ToSeal, IsCipher, IsGenerated;
  }

  /** A load run by itself from where it stands continues any run. */
  lemma {:induction false} AloneIsRun(s: Sys, es: seq<Event>, id: nat, luck: Luck) returns (all: seq<Event>)
    requires Valid(s, es) && id in After(s, es).loaders && Supplied(After(s, es).params, After(s, es).loaders[id], luck)
    ensures Valid(s, all) && es <= all
    ensures var (p', l') := Alone(After(s, es).params, After(s, es).loaders[id], luck);
            After(s, all) == Sys(p', After(s, es).loaders[id := l'])
    decreases Rank(PointOf(After(s, es).loaders[id].stage))
  {
    hide Exec, Supplied, IsChance;
    var here := After(s, es);
    var l := here.loaders[id];
    if PointOf(l.stage) == AtEnd {
      all := es;
      assert here.loaders[id := l] == here.loaders;
    } else {
      var c := Redraw(here.params, l, luck);
      StaysSupplied(here.params, l, luck);
      StepsEnd(here.params, l, Draw(l, luck));
      Extend(s, es, Advance(id, c));
      var next := Step(here, Advance(id, c));
      all := AloneIsRun(s, es + [Advance(id, c)], id, luck);
      var l', l'' := next.loaders[id], Alone(next.params, next.loaders[id], luck).1;
      assert here.loaders[id := l'][id := l''] == here.loaders[id := l''];
    }
  }
}
