/**
Envelope encryption of key material with a keyring of master keys (crypto.go).

Encryption is ideal: `Boxes` records what has been sealed under which ciphertext, and a ciphertext opens
only under the master and the HKDF info it was sealed under. A fingerprint stands for the truncated
SHA-256 of a master and is taken to tell masters apart.
*/
module KeyEnvelope {
  import opened Options
  import opened StoredForms

  type Master = m: seq<byte> | |m| == 32 witness seq(32, _ => 0)

  function FingerprintOf(m: Master): string { HexEncode(m) }

  type Keyring = map<string, Master>

  /** The shape that MasterKeyringProvider promises. */
  predicate IsKeyring(ring: Keyring) { forall kid :: kid in ring ==> kid == FingerprintOf(ring[kid]) }

  datatype Cipher = Cipher(nonce: string, ct: string)

  datatype Box = Box(master: Master, info: string, plaintext: string)

  type Boxes = map<Cipher, Box>

  function CipherOf(env: Envelope): Cipher { Cipher(env.nonce, env.ct) }

  /** The HKDF info input that binds a data key to its context and parameter. */
  function Info(ctx: string, param: string): string { "pbo2/v1/" + ctx + "/" + param }

  predicate IsParamId(param: string) { '/' !in param }

  function OpenEnvelope(boxes: Boxes, m: Master, ctx: string, param: string, env: Envelope): Option<string> {
    if CipherOf(env) !in boxes then None
    else
      var box := boxes[CipherOf(env)];
      if box.master == m && box.info == Info(ctx, param) then Some(box.plaintext) else None
  }

  /** Fingerprints name masters, and are never empty. */
  lemma FingerprintsTellMastersApart(m: Master, m': Master)
    ensures FingerprintOf(m) == FingerprintOf(m') <==> m == m'
    ensures FingerprintOf(m) != ""
  {
    HexRoundTrip(m); HexRoundTrip(m');
    HexLength(m);
  }

  /** Although info only joins context and parameter with a slash, no two pairs share one as long as
      parameter ids hold no slash; a context may (a data directory does). */
  lemma InfoTellsContextsApart(ctx: string, param: string, ctx': string, param': string)
    requires IsParamId(param) && IsParamId(param')
    requires Info(ctx, param) == Info(ctx', param')
    ensures ctx == ctx' && param == param'
  {
    var head, head' := "pbo2/v1/" + ctx, "pbo2/v1/" + ctx';
    LastSlash(head, param);
    LastSlash(head', param');
    var info := Info(ctx, param);
    assert info == head + "/" + param == head' + "/" + param';
    assert info[..|head|] == head && info[..|head'|] == head';
    assert info[|head| + 1..] == param && info[|head'| + 1..] == param';
    assert head[8..] == ctx && head'[8..] == ctx';
  }

  lemma LastSlash(head: string, param: string)
    requires IsParamId(param)
    ensures var info := head + "/" + param;
            info[|head|] == '/' && forall i :: |head| < i < |info| ==> info[i] != '/'
  {}

  /** Some master of the ring opens the envelope under the current context, or under a legacy one. */
  ghost predicate KeyringOpens(boxes: Boxes, ring: Keyring, ctx: string, legacy: string, param: string, env: Envelope) {
    exists kid :: kid in ring && (|| OpenEnvelope(boxes, ring[kid], ctx, param, env).Some?
                                  || (legacy != "" && OpenEnvelope(boxes, ring[kid], legacy, param, env).Some?))
  }

  /** Sealed by the active master for this context, and labelled so or not at all. */
  predicate IsCurrent(box: Box, env: Envelope, activeKid: string, ctx: string, param: string) {
    && FingerprintOf(box.master) == activeKid
    && box.info == Info(ctx, param)
    && (env.kid == "" || env.kid == activeKid)
  }

  /** openEnvelopeWithKeyring: the advertised master first, then every master in whatever order the map
      yields them. It succeeds exactly when some master opens the envelope. On a keyring of the promised
      shape the order shows in neither result, and without a rewrap flag the active master alone, under
      the current context, opens the envelope. */
  method OpenEnvelopeWithKeyring(boxes: Boxes, ring: Keyring, activeKid: string, ctx: string, legacy: string,
                                 param: string, env: Envelope)
    returns (plaintext: Option<string>, needsRewrap: bool)
    ensures plaintext.Some? <==> KeyringOpens(boxes, ring, ctx, legacy, param, env)
    ensures plaintext.Some? ==> plaintext.value == boxes[CipherOf(env)].plaintext
    ensures plaintext.Some? && IsKeyring(ring) ==>
              (needsRewrap <==>
                 || FingerprintOf(boxes[CipherOf(env)].master) != activeKid
                 || boxes[CipherOf(env)].info != "pbo2/v1/" + ctx + "/" + param
                 || (env.kid != "" && env.kid != activeKid))
    ensures plaintext.Some? && !needsRewrap ==>
              activeKid in ring && OpenEnvelope(boxes, ring[activeKid], ctx, param, env) == plaintext
  {
    var fallback := legacy != "" && legacy != ctx;
    SameParamInfo(legacy, ctx, param);
    if env.kid != "" && env.kid in ring {
      FingerprintsDecide(boxes, ring, env.kid, env);
      plaintext := OpenEnvelope(boxes, ring[env.kid], ctx, param, env);
      if plaintext.Some? { return plaintext, env.kid != activeKid; }
      if fallback {
        plaintext := OpenEnvelope(boxes, ring[env.kid], legacy, param, env);
        if plaintext.Some? { return plaintext, true; }
      }
    }
    var todo := ring.Keys;
    while todo != {}
      invariant todo <= ring.Keys
      invariant forall kid :: kid in ring.Keys - todo ==>
                  && OpenEnvelope(boxes, ring[kid], ctx, param, env).None?
                  && (legacy != "" ==> OpenEnvelope(boxes, ring[kid], legacy, param, env).None?)
    {
      var kid :| kid in todo;
      FingerprintsDecide(boxes, ring, kid, env);
      plaintext := OpenEnvelope(boxes, ring[kid], ctx, param, env);
      if plaintext.Some? { return plaintext, kid != activeKid || (env.kid != "" && env.kid != activeKid); }
      if fallback {
        plaintext := OpenEnvelope(boxes, ring[kid], legacy, param, env);
        if plaintext.Some? { return plaintext, true; }
      }
      todo := todo - {kid};
    }
    plaintext, needsRewrap := None, false;
  }

  lemma SameParamInfo(ctx: string, ctx': string, param: string)
    ensures Info(ctx, param) == Info(ctx', param) <==> ctx == ctx'
  {
    assert |Info(ctx, param)| == |ctx| + 9 + |param| && |Info(ctx', param)| == |ctx'| + 9 + |param|;
    assert Info(ctx, param)[8..8 + |ctx|] == ctx && Info(ctx', param)[8..8 + |ctx'|] == ctx';
  }

  /** In a ring of the promised shape the master that opens an envelope sits under its own fingerprint. */
  lemma FingerprintsDecide(boxes: Boxes, ring: Keyring, kid: string, env: Envelope)
    requires kid in ring
    ensures IsKeyring(ring) && CipherOf(env) in boxes ==>
              (kid == FingerprintOf(boxes[CipherOf(env)].master) <==> ring[kid] == boxes[CipherOf(env)].master)
  {
    if CipherOf(env) in boxes { FingerprintsTellMastersApart(ring[kid], boxes[CipherOf(env)].master); }
  }

  /** What openEnvelopeWithKeyring answers on a keyring of the promised shape: the plaintext and the flag. */
  ghost function Opened(boxes: Boxes, ring: Keyring, activeKid: string, ctx: string, legacy: string,
                        param: string, env: Envelope): Option<(string, bool)>
  {
    if KeyringOpens(boxes, ring, ctx, legacy, param, env)
    then Some((boxes[CipherOf(env)].plaintext, !IsCurrent(boxes[CipherOf(env)], env, activeKid, ctx, param)))
    else None
  }

  /** sealEnvelope with the nonce and ciphertext that the draw produced. */
  function SealedEnvelope(m: Master, cipher: Cipher): Envelope {
    Envelope(FingerprintOf(m), cipher.nonce, cipher.ct)
  }

  /** The text sealEnvelope returns. */
  function SealText(m: Master, cipher: Cipher): string { EnvelopeText(SealedEnvelope(m, cipher)) }

  ghost predicate IsCipher(cipher: Cipher) {
    cipher.nonce != "" && cipher.ct != "" && All(cipher.nonce, Plain) && All(cipher.ct, Plain)
  }

  lemma {:induction false} HexIsPlain(b: seq<byte>)
    ensures All(HexEncode(b), Plain)
  {
    if b != [] { HexIsPlain(b[1..]); }
  }

  /** What is sealed opens again under its own master, context and parameter, and under nothing else. */
  lemma SealRoundTrip(boxes: Boxes, m: Master, ctx: string, param: string, plaintext: string, cipher: Cipher,
                      m': Master, ctx': string, param': string)
    requires IsCipher(cipher) && IsParamId(param) && IsParamId(param')
    ensures LooksLikeEnvelope(SealText(m, cipher)) == Some(SealedEnvelope(m, cipher))
    ensures OpenEnvelope(boxes[cipher := Box(m, Info(ctx, param), plaintext)], m', ctx', param', SealedEnvelope(m, cipher))
            == if m' == m && ctx' == ctx && param' == param then Some(plaintext) else None
  {
    HexIsPlain(m);
    EnvelopeRoundTrip(SealedEnvelope(m, cipher));
    if Info(ctx', param') == Info(ctx, param) { InfoTellsContextsApart(ctx', param', ctx, param); }
  }
}
