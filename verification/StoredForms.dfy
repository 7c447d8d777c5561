/**
The two forms in which a `_params` row keeps key material, as text.

The legacy form is hex for the global secret and JSON for the signing key (encodePlaintext). The new
form is a JSON envelope with the members v, alg, kid, nonce and ct (sealEnvelope). A loader tells them
apart by looking at the text alone (looksLikeEnvelope). JSON is modelled for the documents in use: one
flat object of strings without escapes and of natural numbers.
*/
module StoredForms {
  import opened Options

  type byte = x: int | 0 <= x < 256

  // ----- hex -----

  const HEX := "0123456789abcdef"

  function HexEncode(b: seq<byte>): string {
    if b == [] then "" else [HEX[b[0] / 16], HEX[b[0] % 16]] + HexEncode(b[1..])
  }

  function HexDigit(c: char): Option<nat> {
    if '0' <= c <= '9' then Some(c as int - '0' as int)
    else if 'a' <= c <= 'f' then Some(c as int - 'a' as int + 10)
    else if 'A' <= c <= 'F' then Some(c as int - 'A' as int + 10)
    else None
  }

  lemma DigitsAreSmall(c: char)
    ensures HexDigit(c).Some? ==> HexDigit(c).value < 16
  {}

  /** hex.DecodeString: an odd length or a character that is no hex digit is an error. */
  function HexDecode(s: string): Option<seq<byte>> {
    if s == "" then Some([])
    else if |s| == 1 then None
    else
      DigitsAreSmall(s[0]); DigitsAreSmall(s[1]);
      match (HexDigit(s[0]), HexDigit(s[1]), HexDecode(s[2..]))
      case (Some(high), Some(low), Some(rest)) => Some([high * 16 + low] + rest)
      case _ => None
  }

  lemma HexDigitsRoundTrip(d: nat)
    requires d < 16
    ensures HexDigit(HEX[d]) == Some(d)
  {}

  /** Every byte string survives hex encoding. */
  lemma {:induction false} HexRoundTrip(b: seq<byte>)
    ensures HexDecode(HexEncode(b)) == Some(b)
  {
    hide HexDigit;
    if b != [] {
      HexRoundTrip(b[1..]);
      HexEncodeUnfolds(b);
      HexDigitsRoundTrip(b[0] / 16);
      HexDigitsRoundTrip(b[0] % 16);
      HexDecodeUnfolds(HexEncode(b), b[0] / 16, b[0] % 16, b[1..]);
      assert b == [b[0]] + b[1..];
    }
  }

  lemma {:induction false} HexEncodeUnfolds(b: seq<byte>)
    requires b != []
    ensures |HexEncode(b)| >= 2 && HexEncode(b)[0] == HEX[b[0] / 16] && HexEncode(b)[1] == HEX[b[0] % 16]
    ensures HexEncode(b)[2..] == HexEncode(b[1..])
  {}

  lemma {:induction false} HexDecodeUnfolds(text: string, high: nat, low: nat, rest: seq<byte>)
    requires |text| >= 2 && HexDigit(text[0]) == Some(high) && HexDigit(text[1]) == Some(low) && HexDecode(text[2..]) == Some(rest)
    requires high < 16 && low < 16
    ensures HexDecode(text) == Some([high * 16 + low] + rest)
  {
    hide HexDigit;
  }

  lemma {:induction false} HexLength(b: seq<byte>)
    ensures |HexEncode(b)| == 2 * |b|
  {
    if b != [] { HexLength(b[1..]); }
  }

  // ----- JSON -----

  datatype Json = Str(text: string) | Num(digits: string)

  datatype Member = Member(key: string, value: Json)

  type Doc = seq<Member>

  datatype Parsed<T> = Parsed(value: T, rest: string)

  /** JSON white space, what strings.TrimSpace removes, digits, and the characters that stand for
      themselves inside a JSON string. */
  datatype Class = Space | Blank | Digit | Plain

  predicate Is(c: char, k: Class) {
    match k
    case Space => c == ' ' || c == '\t' || c == '\n' || c == '\r'
    case Blank => c == ' ' || 9 as char <= c <= 13 as char || c == 0x85 as char || c == 0xA0 as char
    case Digit => '0' <= c <= '9'
    case Plain => c >= ' ' && c != '\"' && c != '\\' && c != '<' && c != '>' && c != '&'
  }

  ghost predicate All(s: string, k: Class) { forall i :: 0 <= i < |s| ==> Is(s[i], k) }

  /** How many characters at the start of `s` satisfy `p`. */
  function Span(s: string, k: Class): (n: nat)
    ensures n <= |s|
  {
    if s == "" || !Is(s[0], k) then 0 else 1 + Span(s[1..], k)
  }

  lemma {:induction false} SpanIsMaximal(s: string, k: Class)
    ensures var n := Span(s, k); All(s[..n], k) && (n < |s| ==> !Is(s[n], k))
  {
    if s != "" && Is(s[0], k) {
      SpanIsMaximal(s[1..], k);
      assert s[..Span(s, k)] == [s[0]] + s[1..][..Span(s[1..], k)];
    }
  }

  lemma {:induction false} SpanStops(x: string, rest: string, k: Class)
    requires All(x, k) && (rest != "" ==> !Is(rest[0], k))
    ensures Span(x + rest, k) == |x| && (x + rest)[..|x|] == x && (x + rest)[|x|..] == rest
  {
    if x == "" {
      assert x + rest == rest;
    } else {
      assert (x + rest)[1..] == x[1..] + rest;
      SpanStops(x[1..], rest, k);
    }
  }

  function Skip(s: string): (rest: string)
    ensures |rest| <= |s|
  {
    s[Span(s, Space)..]
  }

  predicate IsNumber(digits: string) {
    digits != "" && Span(digits, Digit) == |digits| && (digits[0] == '0' ==> |digits| == 1)
  }

  function ParseString(s: string): (r: Option<Parsed<string>>)
    ensures r.Some? ==> |r.value.rest| < |s|
  {
    if s == "" || s[0] != '\"' then None
    else
      var n := Span(s[1..], Plain);
      if 1 + n < |s| && s[1 + n] == '\"' then Some(Parsed(s[1..][..n], s[2 + n..])) else None
  }

  ghost predicate IsSound(v: Json) { if v.Str? then All(v.text, Plain) else IsNumber(v.digits) }

  function ParseValue(s: string): (r: Option<Parsed<Json>>)
    ensures r.Some? ==> |r.value.rest| < |s|
  {
    if s == "" then None
    else if s[0] == '\"' then
      match ParseString(s)
      case None => None
      case Some(p) => Some(Parsed(Str(p.value), p.rest))
    else
      var n := Span(s, Digit);
      if IsNumber(s[..n]) then Some(Parsed(Num(s[..n]), s[n..])) else None
  }

  ghost predicate IsSoundDoc(doc: Doc) {
    forall i :: 0 <= i < |doc| ==> All(doc[i].key, Plain) && IsSound(doc[i].value)
  }

  function ParseMember(s: string): (r: Option<Parsed<Member>>)
    ensures r.Some? ==> |r.value.rest| < |s|
  {
    match ParseString(s)
    case None => None
    case Some(key) =>
      var colon := Skip(key.rest);
      if colon == "" || colon[0] != ':' then None
      else
        match ParseValue(Skip(colon[1..]))
        case None => None
        case Some(v) => Some(Parsed(Member(key.value, v.value), v.rest))
  }

  /** The members after an opening brace, up to and including the closing one. */
  function ParseMembers(s: string): Option<Parsed<Doc>>
    decreases |s|
  {
    match ParseMember(s)
    case None => None
    case Some(m) =>
      var next := Skip(m.rest);
      if next == "" then None
      else if next[0] == '}' then Some(Parsed([m.value], next[1..]))
      else if next[0] != ',' then None
      else
        match ParseMembers(Skip(next[1..]))
        case None => None
        case Some(more) => Some(Parsed([m.value] + more.value, more.rest))
  }

  function ParseDoc(s: string): Option<Doc>
  {
    var open := Skip(s);
    if open == "" || open[0] != '{' then None
    else
      var first := Skip(open[1..]);
      if first != "" && first[0] == '}' then (if Skip(first[1..]) == "" then Some([]) else None)
      else
        match ParseMembers(first)
        case None => None
        case Some(p) => if Skip(p.rest) == "" then Some(p.value) else None
  }

  lemma StringIsPlain(s: string)
    ensures ParseString(s).Some? ==> All(ParseString(s).value.value, Plain)
  {
    if s != "" { SpanIsMaximal(s[1..], Plain); }
  }

  lemma ValueIsSound(s: string)
    ensures ParseValue(s).Some? ==> IsSound(ParseValue(s).value.value)
  {
    hide ParseString;
    StringIsPlain(s);
  }

  /** What is parsed can be marshalled again. */
  lemma MemberIsSound(s: string)
    ensures ParseMember(s).Some? ==> IsSoundDoc([ParseMember(s).value.value])
  {
    hide ParseString, ParseValue, Skip, All, IsSound;
    StringIsPlain(s);
    if ParseString(s).Some? && Skip(ParseString(s).value.rest) != "" {
      ValueIsSound(Skip(Skip(ParseString(s).value.rest)[1..]));
    }
  }

  lemma {:induction false} MembersAreSound(s: string)
    ensures ParseMembers(s).Some? ==> IsSoundDoc(ParseMembers(s).value.value)
    decreases |s|
  {
    hide ParseMember, Skip;
    if ParseMembers(s).Some? {
      var m := ParseMember(s).value;
      MemberIsSound(s);
      assert [m.value][0] == m.value;
      var next := Skip(m.rest);
      if next[0] == ',' { MembersAreSound(Skip(next[1..])); }
    }
  }

  lemma DocIsSound(s: string)
    ensures ParseDoc(s).Some? ==> IsSoundDoc(ParseDoc(s).value)
  {
    hide ParseMembers;
    var open := Skip(s);
    if open != "" { MembersAreSound(Skip(open[1..])); }
  }

  function Quote(s: string): string { "\"" + s + "\"" }

  function ValueText(v: Json): string { if v.Str? then Quote(v.text) else v.digits }

  function MemberText(m: Member): string { Quote(m.key) + ":" + ValueText(m.value) }

  /** json.Marshal, from the first member on. */
  function MembersText(doc: Doc): string
    requires doc != []
  {
    if |doc| == 1 then MemberText(doc[0]) + "}" else MemberText(doc[0]) + "," + MembersText(doc[1..])
  }

  function DocText(doc: Doc): string { if doc == [] then "{}" else "{" + MembersText(doc) }

  lemma StringParses(x: string, rest: string)
    requires All(x, Plain)
    ensures ParseString(Quote(x) + rest) == Some(Parsed(x, rest))
  {
    var s := Quote(x) + rest;
    assert s[1..] == x + ("\"" + rest);
    SpanStops(x, "\"" + rest, Plain);
    assert s[2 + |x|..] == rest;
  }

  lemma ValueParses(v: Json, rest: string)
    requires IsSound(v) && rest != "" && !Is(rest[0], Digit)
    ensures ParseValue(ValueText(v) + rest) == Some(Parsed(v, rest))
    ensures Skip(ValueText(v) + rest) == ValueText(v) + rest
  {
    if v.Str? {
      StringParses(v.text, rest);
    } else {
      assert v.digits[..|v.digits|] == v.digits;
      SpanIsMaximal(v.digits, Digit);
      SpanStops(v.digits, rest, Digit);
    }
  }

  lemma {:induction false} MemberParses(m: Member, rest: string)
    requires IsSoundDoc([m]) && rest != "" && !Is(rest[0], Digit)
    ensures ParseMember(MemberText(m) + rest) == Some(Parsed(m, rest))
    ensures Skip(MemberText(m) + rest) == MemberText(m) + rest
  {
    hide ParseString, ParseValue, Skip, ValueText, IsSound, All, Is;
    assert [m][0] == m;
    var text := ValueText(m.value) + rest;
    var tail := ":" + text;
    assert MemberText(m) + rest == Quote(m.key) + tail;
    assert tail[0] == ':' && tail[1..] == text;
    StringParses(m.key, tail);
    ValueParses(m.value, rest);
    ColonIsNoSpace();
    NothingToSkip(tail);
    NothingToSkip(Quote(m.key) + tail);
  }

  lemma ColonIsNoSpace()
    ensures !Is(':', Space) && !Is('\"', Space)
  {}

  lemma NothingToSkip(s: string)
    ensures s == "" || !Is(s[0], Space) ==> Skip(s) == s
  {}

  lemma {:induction false} MembersParse(doc: Doc)
    requires doc != [] && IsSoundDoc(doc)
    ensures ParseMembers(MembersText(doc)) == Some(Parsed(doc, ""))
    ensures Skip(MembersText(doc)) == MembersText(doc) && MembersText(doc)[0] == '\"'
  {
    hide ParseMember, IsSound, All, Skip, ValueText, ParseMembers;
    assert IsSoundDoc([doc[0]]) by { assert [doc[0]][0] == doc[0]; }
    if |doc| == 1 {
      assert MembersText(doc) == MemberText(doc[0]) + "}" && [doc[0]] == doc;
      MemberParses(doc[0], "}");
      NothingToSkip("}");
      assert "}"[1..] == "";
      MembersUnfold(MembersText(doc), doc[0], "}");
    } else {
      var more := MembersText(doc[1..]);
      var tail := "," + more;
      MembersParse(doc[1..]);
      assert MembersText(doc) == MemberText(doc[0]) + tail && tail[1..] == more;
      MemberParses(doc[0], tail);
      NothingToSkip(tail);
      MembersUnfold(MembersText(doc), doc[0], tail);
      assert doc == [doc[0]] + doc[1..];
    }
  }

  lemma {:induction false} MembersUnfold(s: string, m: Member, tail: string)
    ensures ParseMember(s) == Some(Parsed(m, tail)) && Skip(tail) == tail && tail != "" && tail[0] == '}' ==>
              ParseMembers(s) == Some(Parsed([m], tail[1..]))
    ensures ParseMember(s) == Some(Parsed(m, tail)) && Skip(tail) == tail && tail != "" && tail[0] == ','
            && ParseMembers(Skip(tail[1..])).Some? ==>
              var more := ParseMembers(Skip(tail[1..])).value;
              ParseMembers(s) == Some(Parsed([m] + more.value, more.rest))
  {
    hide ParseMember, Skip, IsSoundDoc, Span, All;
  }

  /** A marshalled document reads back as it was. */
  lemma DocRoundTrip(doc: Doc)
    requires IsSoundDoc(doc)
    ensures ParseDoc(DocText(doc)) == Some(doc)
  {
    hide ParseMembers, MembersText, IsSoundDoc, Skip;
    var s := DocText(doc);
    NothingToSkip(s);
    NothingToSkip("");
    if doc == [] {
      assert s[1..] == "}" && "}"[1..] == "";
      NothingToSkip("}");
    } else {
      assert s[1..] == MembersText(doc);
      MembersParse(doc);
    }
  }

  // ----- envelopes -----

  /** The members of a v1 envelope that vary: `kid`, and the nonce and ciphertext in base64. */
  datatype Envelope = Envelope(kid: string, nonce: string, ct: string)

  const ENVELOPE_ALG := "AES-256-GCM"

  function Lower(c: char): char { if 'A' <= c <= 'Z' then (c as int + 32) as char else c }

  /** Go matches member names without regard to case. */
  predicate Names(key: string, name: string) {
    |key| == |name| && forall i :: 0 <= i < |key| ==> Lower(key[i]) == name[i]
  }

  /** The last member of that name, as json.Unmarshal leaves it in the field. */
  function Get(doc: Doc, name: string): Option<Json> {
    if doc == [] then None
    else if Names(doc[|doc|-1].key, name) then Some(doc[|doc|-1].value)
    else Get(doc[..|doc|-1], name)
  }

  function TextOf(v: Option<Json>): string { if v.Some? && v.value.Str? then v.value.text else "" }

  /** json.Unmarshal into the envelope struct fails on a member of the wrong type. */
  predicate Fits(doc: Doc) {
    forall i :: 0 <= i < |doc| ==>
      var m := doc[i];
      && (Names(m.key, "v") ==> m.value.Num?)
      && (Names(m.key, "alg") || Names(m.key, "kid") || Names(m.key, "nonce") || Names(m.key, "ct") ==> m.value.Str?)
  }

  function TrimRight(s: string): string {
    if s != "" && Is(s[|s|-1], Blank) then TrimRight(s[..|s|-1]) else s
  }

  /** strings.TrimSpace. */
  function TrimSpace(s: string): string { TrimRight(s[Span(s, Blank)..]) }

  function LooksLikeEnvelope(raw: string): (env: Option<Envelope>) {
    var trimmed := TrimSpace(raw);
    if trimmed == "" || trimmed[0] != '{' then None
    else
      match ParseDoc(trimmed)
      case None => None
      case Some(doc) =>
        if !Fits(doc) then None
        else
          var nonce, ct := TextOf(Get(doc, "nonce")), TextOf(Get(doc, "ct"));
          if Get(doc, "v") != Some(Num("1")) || TextOf(Get(doc, "alg")) != ENVELOPE_ALG || ct == "" || nonce == "" then None
          else Some(Envelope(TextOf(Get(doc, "kid")), nonce, ct))
  }

  function EnvelopeDoc(env: Envelope): Doc {
    [Member("v", Num("1")), Member("alg", Str(ENVELOPE_ALG)), Member("kid", Str(env.kid)),
     Member("nonce", Str(env.nonce)), Member("ct", Str(env.ct))]
  }

  /** What sealEnvelope marshals. */
  function EnvelopeText(env: Envelope): string { DocText(EnvelopeDoc(env)) }

  lemma TextUnfolds(doc: Doc)
    requires doc != []
    ensures MembersText(doc) == MemberText(doc[0]) + if |doc| == 1 then "}" else "," + MembersText(doc[1..])
  {}

  lemma Regroup(front: string, quote: string, text: string, tail: string)
    ensures (front + ((quote + text) + quote)) + tail == (front + quote) + (text + (quote + tail))
  {}

  lemma StringMember(doc: Doc)
    requires doc != [] && doc[0].value.Str?
    ensures MembersText(doc) == (Quote(doc[0].key) + ":" + "\"")
                                + (doc[0].value.text + ("\"" + if |doc| == 1 then "}" else "," + MembersText(doc[1..])))
  {
    hide MembersText;
    TextUnfolds(doc);
    Regroup(Quote(doc[0].key) + ":", "\"", doc[0].value.text, if |doc| == 1 then "}" else "," + MembersText(doc[1..]));
  }

  lemma NamesQuoted()
    ensures Quote("alg") + ":" + "\"" == "\"alg\":\"" && Quote("kid") + ":" + "\"" == "\"kid\":\""
    ensures Quote("nonce") + ":" + "\"" == "\"nonce\":\"" && Quote("ct") + ":" + "\"" == "\"ct\":\""
  {}

  /** The text of an envelope, character by character. */
  lemma EnvelopeLayout(env: Envelope)
    ensures EnvelopeText(env)
         == "{" + ("\"v\":1" + ("," + ("\"alg\":\"" + ("AES-256-GCM" + ("\"" + ("," + ("\"kid\":\"" + (env.kid + ("\"" + ("," +
            ("\"nonce\":\"" + (env.nonce + ("\"" + ("," + ("\"ct\":\"" + (env.ct + ("\"" + "}")))))))))))))))))
  {
    hide MembersText;
    var doc := EnvelopeDoc(env);
    assert doc[1..][1..] == doc[2..] && doc[2..][1..] == doc[3..] && doc[3..][1..] == doc[4..];
    NamesQuoted();
    TextUnfolds(doc);
    assert MemberText(doc[0]) == "\"v\":1";
    hide MemberText, Quote;
    StringMember(doc[1..]);
    StringMember(doc[2..]);
    StringMember(doc[3..]);
    StringMember(doc[4..]);
  }

  ghost predicate IsSealable(env: Envelope) {
    env.nonce != "" && env.ct != "" && All(env.kid, Plain) && All(env.nonce, Plain) && All(env.ct, Plain)
  }

  lemma {:induction false} MembersEnd(doc: Doc)
    requires doc != []
    ensures MembersText(doc) != "" && MembersText(doc)[|MembersText(doc)|-1] == '}'
  {
    if |doc| > 1 { MembersEnd(doc[1..]); }
  }

  lemma NothingToTrim(doc: Doc)
    ensures TrimSpace(DocText(doc)) == DocText(doc)
  {
    if doc != [] { MembersEnd(doc); }
    assert Span(DocText(doc), Blank) == 0;
  }

  lemma GetSkips(doc: Doc, m: Member, name: string)
    ensures Get(doc + [m], name) == if Names(m.key, name) then Some(m.value) else Get(doc, name)
  {
    assert (doc + [m])[..|doc|] == doc;
  }

  lemma EnvelopeMembers(env: Envelope)
    requires IsSealable(env)
    ensures var doc := EnvelopeDoc(env);
            && Get(doc, "v") == Some(Num("1"))
            && TextOf(Get(doc, "alg")) == ENVELOPE_ALG && TextOf(Get(doc, "kid")) == env.kid
            && TextOf(Get(doc, "nonce")) == env.nonce && TextOf(Get(doc, "ct")) == env.ct
  {
    hide Get, Names;
    NamesDiffer();
    var doc := EnvelopeDoc(env);
    var d0: Doc := [];
    var d1, d2, d3, d4 := d0 + [doc[0]], d0 + [doc[0]] + [doc[1]], doc[..3], doc[..4];
    assert d3 == d2 + [doc[2]] && d4 == d3 + [doc[3]] && doc == d4 + [doc[4]];
    GetSkips(d0, doc[0], "v"); GetSkips(d1, doc[1], "v"); GetSkips(d2, doc[2], "v"); GetSkips(d3, doc[3], "v"); GetSkips(d4, doc[4], "v");
    GetSkips(d1, doc[1], "alg"); GetSkips(d2, doc[2], "alg"); GetSkips(d3, doc[3], "alg"); GetSkips(d4, doc[4], "alg");
    GetSkips(d2, doc[2], "kid"); GetSkips(d3, doc[3], "kid"); GetSkips(d4, doc[4], "kid");
    GetSkips(d3, doc[3], "nonce"); GetSkips(d4, doc[4], "nonce");
    GetSkips(d4, doc[4], "ct");
  }

  /** The five member names are told apart. */
  lemma NamesDiffer()
    ensures Names("v", "v") && Names("alg", "alg") && Names("kid", "kid") && Names("nonce", "nonce") && Names("ct", "ct")
    ensures !Names("alg", "v") && !Names("kid", "v") && !Names("nonce", "v") && !Names("ct", "v") && !Names("v", "alg")
    ensures !Names("v", "kid") && !Names("v", "nonce") && !Names("v", "ct")
    ensures !Names("kid", "alg") && !Names("nonce", "alg") && !Names("ct", "alg")
    ensures !Names("alg", "kid") && !Names("nonce", "kid") && !Names("ct", "kid") && !Names("ct", "nonce")
  {
    assert "kid"[0] == 'k' && "alg"[0] == 'a' && Lower('k') == 'k' && Lower('a') == 'a';
  }

  lemma EnvelopeFits(env: Envelope)
    requires IsSealable(env)
    ensures IsSoundDoc(EnvelopeDoc(env)) && Fits(EnvelopeDoc(env))
  {
    hide Names;
    NamesDiffer();
    assert IsNumber("1");
  }

  /** Every sealed value is taken for the envelope it is. */
  lemma EnvelopeRoundTrip(env: Envelope)
    requires IsSealable(env)
    ensures LooksLikeEnvelope(EnvelopeText(env)) == Some(env)
  {
    hide Get, Fits, IsSoundDoc, DocText, ParseDoc;
    EnvelopeMembers(env);
    EnvelopeFits(env);
    DocRoundTrip(EnvelopeDoc(env));
    NothingToTrim(EnvelopeDoc(env));
    StartsWithBrace(EnvelopeDoc(env));
  }

  lemma StartsWithBrace(doc: Doc)
    ensures DocText(doc) != "" && DocText(doc)[0] == '{'
  {}

  predicate IsHexDigit(c: char) { HexDigit(c).Some? }

  lemma {:induction false} TrimKeeps(s: string)
    requires s != "" && !Is(s[0], Blank)
    ensures TrimRight(s) != "" && TrimRight(s)[0] == s[0]
  {
    if Is(s[|s|-1], Blank) { TrimKeeps(s[..|s|-1]); }
  }

  /** No text that decodes as hex is taken for an envelope. */
  lemma HexIsNoEnvelope(s: string)
    requires HexDecode(s).Some?
    ensures LooksLikeEnvelope(s) == None
  {
    if s != "" {
      assert Span(s, Blank) == 0;
      TrimKeeps(s);
    }
  }

  /** A document is taken for an envelope exactly when its members say so; a signing key, whose
      algorithm is RS256, never is. */
  lemma DocIsEnvelope(doc: Doc)
    requires IsSoundDoc(doc)
    ensures LooksLikeEnvelope(DocText(doc)).Some?
       <==> Fits(doc) && Get(doc, "v") == Some(Num("1")) && TextOf(Get(doc, "alg")) == ENVELOPE_ALG
            && TextOf(Get(doc, "nonce")) != "" && TextOf(Get(doc, "ct")) != ""
    ensures TextOf(Get(doc, "alg")) == "RS256" ==> LooksLikeEnvelope(DocText(doc)) == None
  {
    hide Get, Fits, IsSoundDoc, DocText, ParseDoc;
    DocRoundTrip(doc);
    NothingToTrim(doc);
    StartsWithBrace(doc);
  }

  // ----- key material -----

  /** The two kinds of key material: the global secret and the RSA signing key as a JSON Web Key. */
  datatype Kind = Bytes | Jwk

  datatype Value = Secret(bytes: seq<byte>) | SigningKey(doc: Doc)

  function EncodePlaintext(v: Value): string { if v.Secret? then HexEncode(v.bytes) else DocText(v.doc) }

  function DecodePlaintext(kind: Kind, raw: string): Option<Value> {
    match kind
    case Bytes => (match HexDecode(raw) case None => None case Some(b) => Some(Secret(b)))
    case Jwk => (match ParseDoc(raw) case None => None case Some(doc) => Some(SigningKey(doc)))
  }

  ghost predicate IsValue(kind: Kind, v: Value) {
    match kind
    case Bytes => v.Secret?
    case Jwk => v.SigningKey? && IsSoundDoc(v.doc)
  }

  /** decodePlaintext inverts encodePlaintext. */
  lemma PlaintextRoundTrip(kind: Kind, v: Value)
    requires IsValue(kind, v)
    ensures DecodePlaintext(kind, EncodePlaintext(v)) == Some(v)
  {
    hide HexEncode, HexDecode, DocText, ParseDoc;
    if v.Secret? { HexRoundTrip(v.bytes); } else { DocRoundTrip(v.doc); }
  }

  /** Decoding a row and encoding it again, as migration does, keeps its value; the text itself may
      change (upper-case hex, white space). */
  lemma ReencodingKeepsValue(kind: Kind, raw: string)
    requires DecodePlaintext(kind, raw).Some?
    ensures var v := DecodePlaintext(kind, raw).value;
            IsValue(kind, v) && DecodePlaintext(kind, EncodePlaintext(v)) == Some(v)
  {
    DocIsSound(raw);
    PlaintextRoundTrip(kind, DecodePlaintext(kind, raw).value);
  }
}
