/** The primitives the protocol is built on, and Ed25519 keys as JWKs.

    Byte strings are `string`, one `char` per byte. Hashes, base64, curve-point decoding and the
    64-byte signature layout are parameters. Ed25519 is ideal: a signature is the pair of the key
    and the message it was made from. */
module Crypto {
  import opened Json
  import opened Options

  /** A raw 32-byte public key. */
  type Key = string

  datatype Signature = Signature(key: Key, message: string)

  datatype Codec = Codec(encode: string -> string, decode: string -> Option<string>)

  datatype ProtectedHeader = ProtectedHeader(alg: string, typ: string, kid: string)

  datatype Lib = Lib(
    sha: string -> string,                     // SHA-256, lowercase hex
    thumb: string -> string,                   // SHA-256, unpadded base64url
    standard: Codec,
    standardNoPad: Codec,
    urlSafe: Codec,
    urlSafeNoPad: Codec,
    sigBytes: Signature -> string,             // the 64 raw bytes
    sigFrom: string -> Option<Signature>,      // `Signature::from_slice`
    point: Key -> bool,                        // decompresses to a curve point
    strong: Key -> bool,                       // not of small order
    header: string -> Option<ProtectedHeader>, // JSON parsing of exactly these three members
    schema: (string, Json) -> bool,            // JSON Schema validation, by schema name
    time: string -> Option<int>                // RFC 3339 instants, in nanoseconds
  )

  /** `verify_strict`: the key is not weak and the signature was made by it over the message. */
  predicate VerifyStrict(lib: Lib, key: Key, message: string, s: Signature) {
    lib.strong(key) && s == Signature(key, message)
  }

  /** Two inputs of a hash with one digest. */
  predicate Collision(h: string -> string, x: string, y: string) {
    x != y && h(x) == h(y)
  }

  /** A codec whose decoder accepts exactly the encoder's output. */
  ghost predicate Strict(c: Codec) {
    forall s, b :: c.decode(s) == Some(b) <==> s == c.encode(b)
  }

  /** Signatures keep their identity through their byte form. */
  ghost predicate SignaturesSurvive(lib: Lib) {
    forall s :: lib.sigFrom(lib.sigBytes(s)) == Some(s)
  }

  // ---- Purposes ----

  datatype KeyPurpose = TlsEndpoint | AgentCard | ContractProposal | ContractDecision | TaskResult
    | Evidence | RequesterOutcome | LocalAuthority

  /** The kebab-case spelling. */
  function PurposeName(p: KeyPurpose): string {
    match p
    case TlsEndpoint => "tls-endpoint"
    case AgentCard => "agent-card"
    case ContractProposal => "contract-proposal"
    case ContractDecision => "contract-decision"
    case TaskResult => "task-result"
    case Evidence => "evidence"
    case RequesterOutcome => "requester-outcome"
    case LocalAuthority => "local-authority"
  }

  /** Reading a purpose; unknown names are refused. */
  function PurposeOf(name: string): (r: Option<KeyPurpose>)
    ensures r.Some? ==> PurposeName(r.value) == name
    ensures r.None? ==> forall p :: PurposeName(p) != name
  {
    if name == "tls-endpoint" then Some(TlsEndpoint)
    else if name == "agent-card" then Some(AgentCard)
    else if name == "contract-proposal" then Some(ContractProposal)
    else if name == "contract-decision" then Some(ContractDecision)
    else if name == "task-result" then Some(TaskResult)
    else if name == "evidence" then Some(Evidence)
    else if name == "requester-outcome" then Some(RequesterOutcome)
    else if name == "local-authority" then Some(LocalAuthority)
    else None
  }

  /** A public key pinned for one purpose. */
  datatype PurposeVerifyingKey = PurposeVerifyingKey(purpose: KeyPurpose, key: Key)

  // ---- JWK ----

  datatype Jwk = Jwk(kty: string, crv: string, x: string)

  function FromKey(lib: Lib, key: Key): Jwk {
    Jwk("OKP", "Ed25519", lib.urlSafeNoPad.encode(key))
  }

  function ToKey(lib: Lib, jwk: Jwk): (r: Option<Key>)
    ensures r.Some? ==> |r.value| == 32 && lib.point(r.value)
  {
    if jwk.kty != "OKP" || jwk.crv != "Ed25519" then None
    else
      var bytes := lib.urlSafeNoPad.decode(jwk.x);
      if bytes.Some? && |bytes.value| == 32 && lib.point(bytes.value) then bytes else None
  }

  /** The members a thumbprint covers. */
  function JwkJson(jwk: Jwk): (v: Json)
    ensures WellFormed(v)
  {
    Obj(map["crv" := Str(jwk.crv), "kty" := Str(jwk.kty), "x" := Str(jwk.x)])
  }

  /** Exactly the required members of RFC 7638 for an octet key pair. */
  lemma JwkMembers(jwk: Jwk)
    ensures JwkJson(jwk).Obj? && JwkJson(jwk).members.Keys == {"crv", "kty", "x"}
    ensures Get(JwkJson(jwk), "crv") == Str(jwk.crv) && Get(JwkJson(jwk), "kty") == Str(jwk.kty)
    ensures Get(JwkJson(jwk), "x") == Str(jwk.x)
  {
  }

  /** A JWK names a key exactly when it is an Ed25519 octet key pair whose `x` decodes to 32 bytes that
      are a curve point; the JWK of a key names that key. */
  lemma JwkNamesKey(lib: Lib, jwk: Jwk, key: Key)
    ensures ToKey(lib, jwk) == Some(key) <==>
      && jwk.kty == "OKP" && jwk.crv == "Ed25519" && lib.urlSafeNoPad.decode(jwk.x) == Some(key)
      && |key| == 32 && lib.point(key)
    ensures Strict(lib.urlSafeNoPad) && |key| == 32 && lib.point(key) ==> ToKey(lib, FromKey(lib, key)) == Some(key)
  {
    if Strict(lib.urlSafeNoPad) {
      assert lib.urlSafeNoPad.decode(lib.urlSafeNoPad.encode(key)) == Some(key);
    }
  }

  /** RFC 7638 thumbprint. */
  function Thumbprint(lib: Lib, jwk: Jwk): string {
    lib.thumb(Canonical(JwkJson(jwk)))
  }

  /** The thumbprint of a raw key. */
  function KeyIdOf(lib: Lib, key: Key): string {
    Thumbprint(lib, FromKey(lib, key))
  }

  lemma JwkJsonIsInjective(a: Jwk, b: Jwk)
    requires JwkJson(a) == JwkJson(b)
    ensures a == b
  {
    assert Get(JwkJson(a), "crv") == Str(a.crv) && Get(JwkJson(a), "kty") == Str(a.kty) &&
      Get(JwkJson(a), "x") == Str(a.x);
  }

  /** A thumbprint names one JWK, short of a hash collision. */
  lemma ThumbprintNamesJwk(lib: Lib, a: Jwk, b: Jwk)
    requires Thumbprint(lib, a) == Thumbprint(lib, b)
    ensures a == b || Collision(lib.thumb, Canonical(JwkJson(a)), Canonical(JwkJson(b)))
  {
    if Canonical(JwkJson(a)) == Canonical(JwkJson(b)) {
      CanonicalIsInjective(JwkJson(a), JwkJson(b));
      JwkJsonIsInjective(a, b);
    }
  }
}
