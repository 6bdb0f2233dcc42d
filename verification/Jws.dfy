/** Detached EdDSA JWS, and the Agent Card signatures made with it. */
module Jws {
  import opened Json
  import opened Options
  import opened Crypto

  datatype Jws = Jws(protected: string, signature: string)

  datatype Error = Alg | Typ | KeyId | Base64(field: string) | Header | BadSignature

  datatype Result = Ok | Err(error: Error)

  /** The alphabet of section 5 of RFC 4648. */
  predicate UrlChar(c: char) {
    'A' <= c <= 'Z' || 'a' <= c <= 'z' || '0' <= c <= '9' || c == '-' || c == '_'
  }

  predicate UrlText(s: string) { forall i :: 0 <= i < |s| ==> UrlChar(s[i]) }

  /** What unpadded base64url guarantees: a strict codec over its own alphabet. */
  ghost predicate Base64Url(c: Codec) {
    Strict(c) && forall b :: UrlText(c.encode(b))
  }

  function SigningInput(lib: Lib, protected: string, payload: string): string {
    protected + "." + lib.urlSafeNoPad.encode(payload)
  }

  /** The input determines its two halves. */
  lemma SigningInputIsInjective(lib: Lib, a: string, p: string, b: string, q: string)
    requires Base64Url(lib.urlSafeNoPad) && UrlText(a) && UrlText(b)
    requires SigningInput(lib, a, p) == SigningInput(lib, b, q)
    ensures a == b && p == q
  {
    var x, y := lib.urlSafeNoPad.encode(p), lib.urlSafeNoPad.encode(q);
    var s := SigningInput(lib, a, p);
    assert s[|a|] == '.' && s[|b|] == '.';
    assert forall i :: 0 <= i < |a| ==> s[i] == a[i] != '.';
    assert forall i :: 0 <= i < |b| ==> s[i] == b[i] != '.';
    assert a == s[..|a|] == b;
    assert x == s[|a| + 1..] == y;
    assert lib.urlSafeNoPad.decode(x) == Some(p) && lib.urlSafeNoPad.decode(y) == Some(q);
  }

  // ---- Signing and verifying ----

  function HeaderJson(h: ProtectedHeader): Json {
    Obj(map["alg" := Str(h.alg), "typ" := Str(h.typ), "kid" := Str(h.kid)])
  }

  function OwnHeader(lib: Lib, key: Key): ProtectedHeader {
    ProtectedHeader("EdDSA", "JOSE", Thumbprint(lib, FromKey(lib, key)))
  }

  function OwnProtected(lib: Lib, key: Key): string {
    lib.urlSafeNoPad.encode(Canonical(HeaderJson(OwnHeader(lib, key))))
  }

  function SignDetached(lib: Lib, payload: string, key: Key): Jws {
    var protected := OwnProtected(lib, key);
    Jws(protected, lib.urlSafeNoPad.encode(lib.sigBytes(Signature(key, SigningInput(lib, protected, payload)))))
  }

  function ReadSignature(lib: Lib, s: string): Option<Signature> {
    var bytes := lib.urlSafeNoPad.decode(s);
    if bytes.Some? then lib.sigFrom(bytes.value) else None
  }

  function VerifyDetached(lib: Lib, jws: Jws, payload: string, key: Key): Result {
    var bytes := lib.urlSafeNoPad.decode(jws.protected);
    if bytes.None? then Err(Base64("protected"))
    else if lib.header(bytes.value).None? then Err(Header)
    else
      var header := lib.header(bytes.value).value;
      var signature := ReadSignature(lib, jws.signature);
      if header.alg != "EdDSA" then Err(Alg)
      else if header.typ != "JOSE" then Err(Typ)
      else if header.kid != Thumbprint(lib, FromKey(lib, key)) then Err(KeyId)
      else if signature.None? then Err(Base64("signature"))
      else if !VerifyStrict(lib, key, SigningInput(lib, jws.protected, payload), signature.value) then Err(BadSignature)
      else Ok
  }

  /** The header's members, and nothing else. */
  lemma HeaderMembers(h: ProtectedHeader)
    ensures HeaderJson(h).Obj? && HeaderJson(h).members.Keys == {"alg", "typ", "kid"}
    ensures Get(HeaderJson(h), "alg") == Str(h.alg) && Get(HeaderJson(h), "typ") == Str(h.typ)
    ensures Get(HeaderJson(h), "kid") == Str(h.kid)
  {
  }

  /** A detached signature verifies exactly when its protected header reads as EdDSA over JOSE under the
      key's thumbprint, and the key made it over header and payload. */
  lemma VerifiesExactly(lib: Lib, jws: Jws, payload: string, key: Key)
    ensures VerifyDetached(lib, jws, payload, key) == Ok <==>
      && lib.urlSafeNoPad.decode(jws.protected).Some?
      && lib.header(lib.urlSafeNoPad.decode(jws.protected).value) ==
           Some(ProtectedHeader("EdDSA", "JOSE", KeyIdOf(lib, key)))
      && ReadSignature(lib, jws.signature) ==
           Some(Signature(key, jws.protected + "." + lib.urlSafeNoPad.encode(payload)))
      && lib.strong(key)
  {
  }

  /** Which check refuses a readable header. */
  lemma RefusesExactly(lib: Lib, jws: Jws, payload: string, key: Key, h: ProtectedHeader)
    requires lib.urlSafeNoPad.decode(jws.protected).Some?
    requires lib.header(lib.urlSafeNoPad.decode(jws.protected).value) == Some(h)
    ensures VerifyDetached(lib, jws, payload, key) == Err(Alg) <==> h.alg != "EdDSA"
    ensures VerifyDetached(lib, jws, payload, key) == Err(Typ) <==> h.alg == "EdDSA" && h.typ != "JOSE"
    ensures VerifyDetached(lib, jws, payload, key) == Err(KeyId) <==>
      h.alg == "EdDSA" && h.typ == "JOSE" && h.kid != KeyIdOf(lib, key)
    ensures VerifyDetached(lib, jws, payload, key) == Err(Base64("signature")) <==>
      h == ProtectedHeader("EdDSA", "JOSE", KeyIdOf(lib, key)) && ReadSignature(lib, jws.signature).None?
  {
  }

  lemma UnreadableHeaderIsRefused(lib: Lib, jws: Jws, payload: string, key: Key)
    ensures VerifyDetached(lib, jws, payload, key) == Err(Base64("protected")) <==>
      lib.urlSafeNoPad.decode(jws.protected).None?
    ensures VerifyDetached(lib, jws, payload, key) == Err(Header) <==>
      && lib.urlSafeNoPad.decode(jws.protected).Some?
      && lib.header(lib.urlSafeNoPad.decode(jws.protected).value).None?
  {
  }

  /** The holder's signature over a payload verifies under its key, and over no other payload or key. */
  lemma SignThenVerify(lib: Lib, payload: string, key: Key, other: string, otherKey: Key)
    requires Base64Url(lib.urlSafeNoPad) && SignaturesSurvive(lib) && lib.strong(key)
    requires lib.header(Canonical(HeaderJson(OwnHeader(lib, key)))) == Some(OwnHeader(lib, key))
    ensures VerifyDetached(lib, SignDetached(lib, payload, key), other, otherKey) == Ok <==>
      other == payload && otherKey == key
  {
    var codec, protected := lib.urlSafeNoPad, OwnProtected(lib, key);
    var s := Signature(key, SigningInput(lib, protected, payload));
    assert codec.decode(protected) == Some(Canonical(HeaderJson(OwnHeader(lib, key))));
    assert codec.decode(codec.encode(lib.sigBytes(s))) == Some(lib.sigBytes(s));
    if SigningInput(lib, protected, payload) == SigningInput(lib, protected, other) {
      SigningInputIsInjective(lib, protected, payload, protected, other);
    }
  }

  // ---- Agent Cards ----

  /** A card's JSON members, with its signatures kept apart. */
  datatype AgentCard = AgentCard(fields: map<string, Json>, signatures: seq<Jws>)

  function CardPayload(card: AgentCard): string { Canonical(Obj(card.fields)) }

  function SignCard(lib: Lib, card: AgentCard, key: Key): Jws {
    SignDetached(lib, CardPayload(card), key)
  }

  predicate VerifyCard(lib: Lib, card: AgentCard, key: Key) {
    exists jws :: jws in card.signatures && VerifyDetached(lib, jws, CardPayload(card), key) == Ok
  }
}
