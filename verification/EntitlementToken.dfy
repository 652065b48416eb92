/** The wire format of the entitlement token: what the server signs
    (packages/entitlement/src/server.ts) and what the client makes of it
    (packages/entitlement/src/client.ts).  JSON and Ed25519 are functions with the laws they
    are chosen for. */
module EntitlementToken {
  import opened Options
  import opened Strings
  import opened Utf8
  import opened Base64Url
  import opened Entitlement

  type Text = seq<Scalar>

  // ---------------------------------------------------------------------
  // What is taken on trust
  // ---------------------------------------------------------------------

  /** JSON as the two sides use it: claims to text and back, the two header texts, and the key
      id of a header object with exactly the expected fields. */
  datatype Json = Json(write: Claims -> Text, parse: Text -> Option<Claims>,
                       plainHeader: Text, keyHeader: string -> Text, headerKid: Text -> Option<string>)

  ghost predicate Faithful(json: Json) {
    && (forall c: Claims :: c.fieldsWellFormed ==> json.parse(json.write(c)) == Some(c))
    && (forall kid: string :: KeyIdValid(kid) ==>
          json.headerKid(json.keyHeader(kid)) == Some(kid) && json.keyHeader(kid) != json.plainHeader)
  }

  /** Ed25519 over the text of the signing input; keys by their published form. */
  datatype Scheme = Scheme(sign: (string, string) -> seq<Byte>, verify: (string, string, seq<Byte>) -> bool)

  ghost predicate Sound(scheme: Scheme) {
    forall key: string, m: string :: scheme.verify(key, m, scheme.sign(key, m))
  }

  // ---------------------------------------------------------------------
  // Signing
  // ---------------------------------------------------------------------

  predicate KeyIdStart(c: char) {
    'a' <= c <= 'z' || '0' <= c <= '9'
  }

  /** `/^[a-z0-9][a-z0-9._-]{0,63}$/` */
  predicate KeyIdValid(kid: string) {
    && 1 <= |kid| <= 64 && KeyIdStart(kid[0])
    && forall i :: 0 <= i < |kid| ==> KeyIdStart(kid[i]) || kid[i] == '.' || kid[i] == '_' || kid[i] == '-'
  }

  function HeaderText(json: Json, kid: Option<string>): Text {
    if kid.None? then json.plainHeader else json.keyHeader(kid.value)
  }

  function Segment(text: Text): string {
    UrlEncode(Encode(text))
  }

  function SigningInput(json: Json, claims: Claims, kid: Option<string>): string {
    Segment(HeaderText(json, kid)) + "." + Segment(json.write(claims))
  }

  /** `signEntitlement` on complete claims; an ill-formed key id is refused. */
  function Sign(json: Json, scheme: Scheme, claims: Claims, key: string, kid: Option<string>): Option<string> {
    if kid.Some? && !KeyIdValid(kid.value) then None
    else
      var input := SigningInput(json, claims, kid);
      Some(input + "." + UrlEncode(scheme.sign(key, input)))
  }

  /** The timestamps the server puts in when the caller gives none. */
  predicate IssuedAt(claims: Claims, now: int) {
    claims.iat == NowSeconds(now) && claims.exp == claims.iat + DEFAULT_TTL_SECONDS
  }

  // ---------------------------------------------------------------------
  // Verifying
  // ---------------------------------------------------------------------

  /** The keys a client trusts: compiled in, by key id, and the overrides of a caller or of
      the environment. */
  datatype Pins = Pins(compiled: seq<string>, compiledById: map<string, string>,
                       keys: Option<seq<string>>, byId: map<string, string>, env: string)

  /** The slot of a key id: 0 for `legacy-v1`, 1 for `successor-v1`. */
  function Slot(kid: string): Option<nat> {
    if kid == "legacy-v1" then Some(0) else if kid == "successor-v1" then Some(1) else None
  }

  /** The keys a signature is tried against. */
  function KeysFor(pins: Pins, kid: Option<string>): seq<string> {
    if kid.None? then
      if pins.keys.Some? then pins.keys.value else if pins.env != "" then [pins.env] else pins.compiled
    else
      var slot := Slot(kid.value);
      if kid.value in pins.byId then [pins.byId[kid.value]]
      else if slot.Some? && pins.keys.Some? && slot.value < |pins.keys.value| then [pins.keys.value[slot.value]]
      else if kid.value in pins.compiledById then [pins.compiledById[kid.value]]
      else []
  }

  datatype Header = Refused | Accepted(kid: Option<string>)

  /** A header is the plain one, or the exact text of a key-id header. */
  function ReadHeader(json: Json, segment: string): Header {
    if segment == Segment(json.plainHeader) then Accepted(None)
    else
      var text := Decode(UrlDecode(segment));
      var kid := json.headerKid(text);
      if kid.Some? && KeyIdValid(kid.value) && json.keyHeader(kid.value) == text then Accepted(kid) else Refused
  }

  predicate AnyKeyVerifies(scheme: Scheme, keys: seq<string>, input: string, signature: seq<Byte>) {
    exists i :: 0 <= i < |keys| && scheme.verify(keys[i], input, signature)
  }

  /** `verifyEntitlement` up to and including the signature check. */
  function Open(json: Json, scheme: Scheme, pins: Pins, token: string): Option<Claims> {
    var parts := SplitOn('.', token);
    if |parts| != 3 then None
    else
      var header := ReadHeader(json, parts[0]);
      var claims := json.parse(Decode(UrlDecode(parts[1])));
      if header.Refused? || claims.None? then None
      else if AnyKeyVerifies(scheme, KeysFor(pins, header.kid), parts[0] + "." + parts[1], UrlDecode(parts[2])) then claims
      else None
  }

  // ---------------------------------------------------------------------
  // Opening, told from the token
  // ---------------------------------------------------------------------

  /** Up to 64 lower-case letters, digits, `.`, `_` and `-`, with a letter or digit in front. */
  predicate KeyIdText(kid: string) {
    && 0 < |kid| < 65 && kid[0] != '.' && kid[0] != '_' && kid[0] != '-'
    && forall i :: 0 <= i < |kid| ==>
         97 <= kid[i] as int < 123 || 48 <= kid[i] as int < 58 || kid[i] as int == 45 || kid[i] as int == 46 || kid[i] as int == 95
  }

  lemma KeyIdAsText(kid: string)
    ensures KeyIdValid(kid) <==> KeyIdText(kid)
  {
  }

  /** The key a key id stands for, first by id, then by slot, then compiled in. */
  predicate StandsFor(pins: Pins, kid: string, key: string) {
    || (kid in pins.byId && key == pins.byId[kid])
    || (kid !in pins.byId && InSlot(pins, kid, key))
    || (kid !in pins.byId && !HasSlot(pins, kid) && kid in pins.compiledById && key == pins.compiledById[kid])
  }

  predicate HasSlot(pins: Pins, kid: string) {
    pins.keys.Some? && ((kid == "legacy-v1" && |pins.keys.value| > 0) || (kid == "successor-v1" && |pins.keys.value| > 1))
  }

  predicate InSlot(pins: Pins, kid: string, key: string) {
    HasSlot(pins, kid) && key == pins.keys.value[if kid == "legacy-v1" then 0 else 1]
  }

  /** A signature is tried against the one key of its key id; without a key id against the caller's
      keys, or else the one of the environment, or else those compiled in. */
  predicate Tried(pins: Pins, kid: Option<string>, key: string) {
    if kid.Some? then StandsFor(pins, kid.value, key)
    else if pins.keys.Some? then key in pins.keys.value
    else if pins.env != "" then key == pins.env
    else key in pins.compiled
  }

  lemma KeysAsTold(pins: Pins, kid: Option<string>, key: string)
    ensures key in KeysFor(pins, kid) <==> Tried(pins, kid, key)
  {
  }

  /** The header segment is the plain one, or decodes to the exact text for a well-formed key id. */
  predicate NamesKey(json: Json, segment: string, kid: Option<string>) {
    if segment == UrlEncode(Encode(json.plainHeader)) then kid == None
    else
      && kid.Some? && KeyIdText(kid.value)
      && Decode(UrlDecode(segment)) == json.keyHeader(kid.value) && json.headerKid(json.keyHeader(kid.value)) == kid
  }

  lemma HeaderAsTold(json: Json, segment: string, kid: Option<string>)
    ensures ReadHeader(json, segment) == Accepted(kid) <==> NamesKey(json, segment, kid)
  {
    if kid.Some? { KeyIdAsText(kid.value); }
  }

  /** Three segments: a header that names `kid`, claims, and a signature of the first two that a key
      tried for `kid` verifies. */
  ghost predicate OpensAs(json: Json, scheme: Scheme, pins: Pins, token: string, c: Claims,
                          header: string, body: string, signature: string, kid: Option<string>, key: string) {
    && token == header + "." + body + "." + signature && '.' !in header && '.' !in body && '.' !in signature
    && NamesKey(json, header, kid) && json.parse(Decode(UrlDecode(body))) == Some(c)
    && Tried(pins, kid, key) && scheme.verify(key, header + "." + body, UrlDecode(signature))
  }

  lemma SplitsInThree(token: string, a: string, b: string, c: string)
    requires '.' !in a && '.' !in b && '.' !in c
    ensures token == a + "." + b + "." + c <==> SplitOn('.', token) == [a, b, c]
  {
    JoinThree(a, b, c);
    SplitOnJoin('.', [a, b, c]);
  }

  /** A token opens to claims exactly when it is put together like that. */
  lemma OpenIff(json: Json, scheme: Scheme, pins: Pins, token: string, c: Claims)
    ensures Open(json, scheme, pins, token) == Some(c) <==>
            exists header, body, signature, kid, key :: OpensAs(json, scheme, pins, token, c, header, body, signature, kid, key)
  {
    if Open(json, scheme, pins, token) == Some(c) {
      var parts := SplitOn('.', token);
      var kid := ReadHeader(json, parts[0]).kid;
      var keys := KeysFor(pins, kid);
      var i :| 0 <= i < |keys| && scheme.verify(keys[i], parts[0] + "." + parts[1], UrlDecode(parts[2]));
      HeaderAsTold(json, parts[0], kid);
      KeysAsTold(pins, kid, keys[i]);
      assert parts == [parts[0], parts[1], parts[2]];
      SplitsInThree(token, parts[0], parts[1], parts[2]);
      assert OpensAs(json, scheme, pins, token, c, parts[0], parts[1], parts[2], kid, keys[i]);
    }
    if header, body, signature, kid, key :| OpensAs(json, scheme, pins, token, c, header, body, signature, kid, key) {
      SplitsInThree(token, header, body, signature);
      HeaderAsTold(json, header, kid);
      KeysAsTold(pins, kid, key);
      var keys := KeysFor(pins, kid);
      var i :| 0 <= i < |keys| && keys[i] == key;
      assert scheme.verify(keys[i], header + "." + body, UrlDecode(signature));
    }
  }

  // ---------------------------------------------------------------------
  // Round trip
  // ---------------------------------------------------------------------

  lemma SegmentDecodes(text: Text)
    ensures Decode(UrlDecode(Segment(text))) == text
    ensures '.' !in Segment(text)
  {
    DecodeInvertsEncode(Encode(text));
    DecodeEncode(text);
    EncodeIsUrlSafe(Encode(text));
  }

  lemma JoinThree(a: string, b: string, c: string)
    ensures JoinWith('.', [a, b, c]) == a + "." + b + "." + c
  {
    assert [a, b, c][1..] == [b, c] && [b, c][1..] == [c];
    assert JoinWith('.', [b, c]) == b + ['.'] + c;
    assert JoinWith('.', [a, b, c]) == a + ['.'] + (b + ['.'] + c);
  }

  /** A signed token splits into exactly the three segments it was built from. */
  lemma SignedTokenSplits(json: Json, scheme: Scheme, claims: Claims, key: string, kid: Option<string>)
    requires Sign(json, scheme, claims, key, kid).Some?
    ensures SplitOn('.', Sign(json, scheme, claims, key, kid).value) ==
              [Segment(HeaderText(json, kid)), Segment(json.write(claims)), UrlEncode(scheme.sign(key, SigningInput(json, claims, kid)))]
  {
    var a, b := Segment(HeaderText(json, kid)), Segment(json.write(claims));
    var c := UrlEncode(scheme.sign(key, SigningInput(json, claims, kid)));
    SegmentDecodes(HeaderText(json, kid));
    SegmentDecodes(json.write(claims));
    EncodeIsUrlSafe(scheme.sign(key, SigningInput(json, claims, kid)));
    JoinThree(a, b, c);
    SplitOnJoin('.', [a, b, c]);
  }

  lemma HeaderIsRead(json: Json, kid: Option<string>)
    requires Faithful(json) && (kid.Some? ==> KeyIdValid(kid.value))
    ensures ReadHeader(json, Segment(HeaderText(json, kid))) == Accepted(kid)
  {
    SegmentDecodes(HeaderText(json, kid));
    SegmentDecodes(json.plainHeader);
  }

  /** Signing succeeds for every well-formed key id, and the token opens to the original claims
      exactly when one of the keys tried accepts the signature. */
  lemma SignedTokenOpens(json: Json, scheme: Scheme, pins: Pins, claims: Claims, key: string, kid: Option<string>)
    requires Faithful(json) && claims.fieldsWellFormed
    ensures Sign(json, scheme, claims, key, kid).Some? <==> (kid.Some? ==> KeyIdValid(kid.value))
    ensures var token, input := Sign(json, scheme, claims, key, kid), SigningInput(json, claims, kid);
            token.Some? ==>
              Open(json, scheme, pins, token.value) ==
                if AnyKeyVerifies(scheme, KeysFor(pins, kid), input, scheme.sign(key, input)) then Some(claims) else None
  {
    if Sign(json, scheme, claims, key, kid).Some? {
      SignedTokenSplits(json, scheme, claims, key, kid);
      HeaderIsRead(json, kid);
      SegmentDecodes(json.write(claims));
      DecodeInvertsEncode(scheme.sign(key, SigningInput(json, claims, kid)));
    }
  }

  /** The world the verifier of module Entitlement sees through this format. */
  function Trusted(json: Json, scheme: Scheme, pins: Pins, sha256: string -> string): World {
    World((token: string) => Open(json, scheme, pins, token), sha256)
  }

  /** With the key pinned, a signed token opens to the original claims. */
  lemma PinnedTokenOpens(json: Json, scheme: Scheme, pins: Pins, claims: Claims, key: string, kid: Option<string>)
    requires Faithful(json) && Sound(scheme) && claims.fieldsWellFormed
    requires kid.Some? ==> KeyIdValid(kid.value)
    requires key in KeysFor(pins, kid)
    ensures Sign(json, scheme, claims, key, kid).Some?
    ensures Open(json, scheme, pins, Sign(json, scheme, claims, key, kid).value) == Some(claims)
  {
    SignedTokenOpens(json, scheme, pins, claims, key, kid);
    var input, keys := SigningInput(json, claims, kid), KeysFor(pins, kid);
    var i :| 0 <= i < |keys| && keys[i] == key;
    assert scheme.verify(keys[i], input, scheme.sign(key, input));
  }

  /** A token issued with the default lifetime is fresh exactly from five minutes before its
      issue to the last second of its lifetime, and is then remembered. */
  lemma AcceptanceWindow(w: World, token: string, claims: Claims, issued: int,
                         now: int, cache: Option<GraceEntry>, files: Files)
    requires w.opens(token) == Some(claims) && claims.fieldsWellFormed && IssuedAt(claims, issued)
    ensures var (result, after) := Verify(w, token, now, cache, files);
            && (result == Valid(claims, false) <==>
                  issued / 1000 - 300 <= now / 1000 <= issued / 1000 + 86_400)
            && (result == Valid(claims, false) && files.writable ==> after == Some(GraceEntry(token, now)))
  {
  }

  /** Signing and verifying compose: with the key pinned, the server's token for well-formed
      claims is accepted with those claims exactly inside that window. */
  lemma SignedThenVerified(json: Json, scheme: Scheme, pins: Pins, sha256: string -> string,
                           claims: Claims, key: string, kid: Option<string>, issued: int,
                           now: int, cache: Option<GraceEntry>, files: Files) returns (token: string)
    requires Faithful(json) && Sound(scheme) && claims.fieldsWellFormed && IssuedAt(claims, issued)
    requires kid.Some? ==> KeyIdValid(kid.value)
    requires key in KeysFor(pins, kid)
    ensures Sign(json, scheme, claims, key, kid) == Some(token)
    ensures Verify(Trusted(json, scheme, pins, sha256), token, now, cache, files).0 == Valid(claims, false) <==>
              issued / 1000 - 300 <= now / 1000 <= issued / 1000 + 86_400
  {
    PinnedTokenOpens(json, scheme, pins, claims, key, kid);
    token := Sign(json, scheme, claims, key, kid).value;
    AcceptanceWindow(Trusted(json, scheme, pins, sha256), token, claims, issued, now, cache, files);
  }

  // ---------------------------------------------------------------------
  // Nothing but what was signed
  // ---------------------------------------------------------------------

  /** The trusted keys verify only signing inputs of issued claims. */
  ghost predicate Unforgeable(json: Json, scheme: Scheme, pins: Pins, issued: (Claims, Option<string>) -> bool) {
    forall kid: Option<string>, i: nat, m: string, s: seq<Byte> ::
      i < |KeysFor(pins, kid)| && scheme.verify(KeysFor(pins, kid)[i], m, s) ==> IsIssued(json, issued, m)
  }

  ghost predicate IsIssued(json: Json, issued: (Claims, Option<string>) -> bool, m: string) {
    exists c: Claims, kid: Option<string> ::
      issued(c, kid) && (kid.Some? ==> KeyIdValid(kid.value)) && m == SigningInput(json, c, kid)
  }

  /** The dot makes the signing input unambiguous: equal inputs have equal segments. */
  lemma InputIsUnambiguous(a: string, b: string, c: string, d: string)
    requires '.' !in a && '.' !in b && '.' !in c && '.' !in d
    requires a + "." + b == c + "." + d
    ensures a == c && b == d
  {
    SplitOnConcat('.', a, b);
    SplitOnConcat('.', c, d);
    SplitOnAtom('.', a);
    SplitOnAtom('.', b);
    SplitOnAtom('.', c);
    SplitOnAtom('.', d);
    assert [a] + [b] == [c] + [d];
    assert ([a] + [b])[0] == a && ([c] + [d])[0] == c && ([a] + [b])[1] == b && ([c] + [d])[1] == d;
  }

  /** Whatever token is presented: the claims it opens to are claims that were issued, under
      the very key id it names. */
  lemma OnlyIssuedClaimsOpen(json: Json, scheme: Scheme, pins: Pins, issued: (Claims, Option<string>) -> bool, token: string)
    returns (c: Claims, kid: Option<string>)
    requires Faithful(json) && Unforgeable(json, scheme, pins, issued)
    requires Open(json, scheme, pins, token).Some?
    ensures issued(c, kid) && json.parse(json.write(c)) == Open(json, scheme, pins, token)
    ensures c.fieldsWellFormed ==> Open(json, scheme, pins, token) == Some(c)
    ensures ReadHeader(json, SplitOn('.', token)[0]) == Accepted(kid)
  {
    var parts := SplitOn('.', token);
    var keys := KeysFor(pins, ReadHeader(json, parts[0]).kid);
    var i: nat :| i < |keys| && scheme.verify(keys[i], parts[0] + "." + parts[1], UrlDecode(parts[2]));
    assert IsIssued(json, issued, parts[0] + "." + parts[1]);
    c, kid :| issued(c, kid) && (kid.Some? ==> KeyIdValid(kid.value)) && parts[0] + "." + parts[1] == SigningInput(json, c, kid);
    SegmentDecodes(HeaderText(json, kid));
    SegmentDecodes(json.write(c));
    InputIsUnambiguous(parts[0], parts[1], Segment(HeaderText(json, kid)), Segment(json.write(c)));
    HeaderIsRead(json, kid);
  }
}
