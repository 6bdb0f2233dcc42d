/** The pinned identity of a peer, and whether a re-presented identity changed. */
module Session {
  import opened Json
  import opened Ordering
  import opened Options
  import opened Crypto
  import opened KeyBinding

  datatype FingerprintKind = CertSha256 | Jwk7638 | JsonSha256

  datatype Fingerprint = Fingerprint(kind: FingerprintKind, value: string)

  datatype PurposeBinding = PurposeBinding(purpose: KeyPurpose, thumbprint: Fingerprint)

  datatype PeerIdentity = PeerIdentity(issuer: Option<string>, agentId: string, endpointId: string,
                                       tlsCert: Fingerprint, agentCardKey: Fingerprint,
                                       keyBindings: seq<PurposeBinding>,
                                       securityProjection: Fingerprint, fullCard: Fingerprint)

  datatype PeerResult = Peer(identity: PeerIdentity) | UnknownPurpose(name: string)

  // ---- The security projection ----

  /** The URI of an extension entry that is marked required. */
  function RequiredUri(e: Json): Option<string> {
    if Get(e, "required") == Bool(true) && Get(e, "uri").Str? then Some(Get(e, "uri").s) else None
  }

  function RequiredUris(items: seq<Json>): seq<string> {
    if items == [] then []
    else
      var rest := RequiredUris(items[1..]);
      if RequiredUri(items[0]).Some? then [RequiredUri(items[0]).value] + rest else rest
  }

  /** The card's required extension URIs, as listed. */
  function Required(card: Json): seq<string> {
    var extensions := Get(Get(card, "capabilities"), "extensions");
    if extensions.Arr? then RequiredUris(extensions.items) else []
  }

  /** The entry names `uri` and marks it required. */
  predicate Requires(e: Json, uri: string) {
    && e.Obj? && "required" in e.members && e.members["required"] == Bool(true)
    && "uri" in e.members && e.members["uri"] == Str(uri)
  }

  /** How many entries require `uri`. */
  function Requiring(items: seq<Json>, uri: string): nat {
    if items == [] then 0 else (if Requires(items[0], uri) then 1 else 0) + Requiring(items[1..], uri)
  }

  /** A URI is listed as often as entries require it. */
  lemma {:induction false} RequiredExactly(items: seq<Json>, uri: string)
    ensures multiset(RequiredUris(items))[uri] == Requiring(items, uri)
    ensures uri in RequiredUris(items) <==> exists e :: e in items && Requires(e, uri)
  {
    if items != [] {
      RequiredExactly(items[1..], uri);
      assert forall e :: e in items <==> e == items[0] || e in items[1..];
    }
  }

  /** `capabilities.extensions`, if there is such a list. */
  function Extensions(card: Json): seq<Json> {
    if card.Obj? && "capabilities" in card.members then
      var c := card.members["capabilities"];
      if c.Obj? && "extensions" in c.members && c.members["extensions"].Arr? then c.members["extensions"].items else []
    else []
  }

  lemma RequiredOfExtensions(card: Json)
    ensures Required(card) == RequiredUris(Extensions(card))
  {
  }

  /** The cards require every extension equally often. */
  ghost predicate SameExtensions(c: Json, d: Json) {
    forall uri :: Requiring(Extensions(c), uri) == Requiring(Extensions(d), uri)
  }

  lemma SameExtensionsMeans(c: Json, d: Json)
    ensures SameExtensions(c, d) <==> multiset(Required(c)) == multiset(Required(d))
  {
    RequiredOfExtensions(c);
    RequiredOfExtensions(d);
    forall uri
      ensures multiset(Required(c))[uri] == Requiring(Extensions(c), uri)
      ensures multiset(Required(d))[uri] == Requiring(Extensions(d), uri)
    {
      RequiredExactly(Extensions(c), uri);
      RequiredExactly(Extensions(d), uri);
    }
  }

  function UriKey(uri: string): seq<Atom> { [Text(uri)] }

  function SortedUris(uris: seq<string>): seq<string> { SortBy(UriKey, uris) }

  function Quoted(text: string): (v: Json)
    ensures WellFormed(v)
  {
    Str(text)
  }

  function Projected(interfaces: Json, requirements: Json, schemes: Json, required: Json, binding: Json): Json {
    Obj(map["supportedInterfaces" := interfaces, "securityRequirements" := requirements, "securitySchemes" := schemes,
            "requiredExtensions" := required, "keyBinding" := binding])
  }

  function Projection(card: Json, bindings: KeyBindingSet): Json {
    Projected(Get(card, "supportedInterfaces"), Get(card, "securityRequirements"), Get(card, "securitySchemes"),
                 ArrayOf(SortedUris(Required(card)), Quoted), SetJson(bindings))
  }

  lemma ProjectionFields(card: Json, bindings: KeyBindingSet)
    ensures Get(Projection(card, bindings), "supportedInterfaces") == Get(card, "supportedInterfaces")
    ensures Get(Projection(card, bindings), "securityRequirements") == Get(card, "securityRequirements")
    ensures Get(Projection(card, bindings), "securitySchemes") == Get(card, "securitySchemes")
    ensures Get(Projection(card, bindings), "requiredExtensions") == ArrayOf(SortedUris(Required(card)), Quoted)
    ensures Get(Projection(card, bindings), "keyBinding") == SetJson(bindings)
  {
  }

  lemma PartsMakeItWellFormed(interfaces: Json, requirements: Json, schemes: Json, required: Json, binding: Json)
    requires WellFormed(interfaces) && WellFormed(requirements) && WellFormed(schemes)
    requires WellFormed(required) && WellFormed(binding)
    ensures WellFormed(Projected(interfaces, requirements, schemes, required, binding))
  {
  }

  lemma ProjectionIsWellFormed(card: Json, bindings: KeyBindingSet)
    requires WellFormed(card)
    ensures WellFormed(Projection(card, bindings))
  {
    ArrayOfIsWellFormed(SortedUris(Required(card)), Quoted);
    PartsMakeItWellFormed(Get(card, "supportedInterfaces"), Get(card, "securityRequirements"),
                          Get(card, "securitySchemes"), ArrayOf(SortedUris(Required(card)), Quoted), SetJson(bindings));
  }

  // ---- Assembling an identity ----

  function JwkPrint(thumbprint: string): Fingerprint { Fingerprint(Jwk7638, thumbprint) }

  function JsonPrint(lib: Lib, v: Json): Fingerprint { Fingerprint(JsonSha256, lib.sha(Canonical(v))) }

  /** `supportedInterfaces[0].url`, or empty. */
  function EndpointOf(card: Json): string {
    var interfaces := Get(card, "supportedInterfaces");
    if interfaces.Arr? && |interfaces.items| > 0 && Get(interfaces.items[0], "url").Str?
    then Get(interfaces.items[0], "url").s else ""
  }

  /** The bindings of `order`, or the first purpose outside the closed set. */
  function BindingsIn(keys: map<string, KeyEntry>, order: seq<string>): (seq<PurposeBinding>, Option<string>)
    requires forall p :: p in order ==> p in keys
  {
    if order == [] then ([], None)
    else if PurposeOf(order[0]).None? then ([], Some(order[0]))
    else
      var (rest, bad) := BindingsIn(keys, order[1..]);
      ([PurposeBinding(PurposeOf(order[0]).value, JwkPrint(keys[order[0]].thumbprint))] + rest, bad)
  }

  function IdentityWith(lib: Lib, bindings: KeyBindingSet, fields: map<string, Json>,
                        keyBindings: seq<PurposeBinding>): PeerIdentity {
    var card := Obj(fields);
    PeerIdentity(Some(bindings.subject.issuer), bindings.subject.agent, EndpointOf(card),
                 Fingerprint(CertSha256, bindings.tls),
                 JwkPrint(if "agent-card" in bindings.keys then bindings.keys["agent-card"].thumbprint else ""),
                 keyBindings, JsonPrint(lib, Projection(card, bindings)), JsonPrint(lib, card))
  }

  /** `fields` are the card's members without its signatures. */
  function PeerIdentityFrom(lib: Lib, bindings: KeyBindingSet, fields: map<string, Json>): PeerResult {
    var (listed, bad) := BindingsIn(bindings.keys, SortedKeys(bindings.keys.Keys));
    if bad.Some? then UnknownPurpose(bad.value) else Peer(IdentityWith(lib, bindings, fields, listed))
  }

  method AssembleIdentity(lib: Lib, bindings: KeyBindingSet, fields: map<string, Json>) returns (r: PeerResult)
    ensures r == PeerIdentityFrom(lib, bindings, fields)
  {
    var listed, bad := ListBindings(bindings.keys, SortedKeys(bindings.keys.Keys));
    r := if bad.Some? then UnknownPurpose(bad.value) else Peer(IdentityWith(lib, bindings, fields, listed));
  }

  method ListBindings(keys: map<string, KeyEntry>, order: seq<string>)
      returns (listed: seq<PurposeBinding>, bad: Option<string>)
    requires forall p :: p in order ==> p in keys
    ensures bad == BindingsIn(keys, order).1 && (bad.None? ==> listed == BindingsIn(keys, order).0)
  {
    listed := [];
    for i := 0 to |order|
      invariant BindingsIn(keys, order[i..]).1 == BindingsIn(keys, order).1
      invariant listed + BindingsIn(keys, order[i..]).0 == BindingsIn(keys, order).0
    {
      var purpose := PurposeOf(order[i]);
      if purpose.None? {
        return listed, Some(order[i]);
      }
      listed := listed + [PurposeBinding(purpose.value, JwkPrint(keys[order[i]].thumbprint))];
    }
    bad := None;
  }

  /** What a pinned identity says of the peer. */
  lemma IdentitySays(lib: Lib, bindings: KeyBindingSet, fields: map<string, Json>)
    requires PeerIdentityFrom(lib, bindings, fields).Peer?
    ensures var p := PeerIdentityFrom(lib, bindings, fields).identity;
      && p.issuer == Some(bindings.subject.issuer) && p.agentId == bindings.subject.agent
      && p.tlsCert == Fingerprint(CertSha256, bindings.tls)
      && p.agentCardKey.kind == Jwk7638
      && (if "agent-card" in bindings.keys then p.agentCardKey.value == bindings.keys["agent-card"].thumbprint
          else p.agentCardKey.value == "")
      && p.fullCard == Fingerprint(JsonSha256, lib.sha(Canonical(Obj(fields))))
  {
  }

  /** The card's first interface has this URL. */
  predicate FirstUrl(card: Json, url: string) {
    && card.Obj? && "supportedInterfaces" in card.members && card.members["supportedInterfaces"].Arr?
    && var items := card.members["supportedInterfaces"].items;
      |items| > 0 && items[0].Obj? && "url" in items[0].members && items[0].members["url"] == Str(url)
  }

  /** The endpoint is the first interface's URL, and empty when there is none. */
  lemma EndpointIsFirstUrl(card: Json, url: string)
    ensures FirstUrl(card, url) ==> EndpointOf(card) == url
    ensures EndpointOf(card) == "" || FirstUrl(card, EndpointOf(card))
  {
  }

  /** The listed bindings are the record's, purpose by purpose in the order of their names. */
  lemma {:induction false} BindingsListed(keys: map<string, KeyEntry>, order: seq<string>)
    requires forall p :: p in order ==> p in keys
    ensures BindingsIn(keys, order).1.None? <==> forall p :: p in order ==> PurposeOf(p).Some?
    ensures BindingsIn(keys, order).1.None? ==>
      && |BindingsIn(keys, order).0| == |order|
      && forall i :: 0 <= i < |order| ==>
           && PurposeName(BindingsIn(keys, order).0[i].purpose) == order[i]
           && BindingsIn(keys, order).0[i].thumbprint == Fingerprint(Jwk7638, keys[order[i]].thumbprint)
  {
    if order != [] {
      var rest := order[1..];
      BindingsListed(keys, rest);
      assert forall p :: p in order <==> p == order[0] || p in rest;
      assert forall i :: 0 < i < |order| ==> order[i] == rest[i - 1];
    }
  }

  // ---- Change detection ----

  datatype SuspendReason = IssuerChanged | EndpointChanged | KeyChanged | ProjectionChanged

  function DetectChange(pinned: PeerIdentity, presented: PeerIdentity): Option<SuspendReason> {
    if pinned.issuer != presented.issuer then Some(IssuerChanged)
    else if pinned.tlsCert != presented.tlsCert then Some(EndpointChanged)
    else if pinned.agentCardKey != presented.agentCardKey ||
      pinned.keyBindings != presented.keyBindings then Some(KeyChanged)
    else if pinned.securityProjection != presented.securityProjection then Some(ProjectionChanged)
    else None
  }

  /** The first of issuer, certificate, keys and projection that differs is the reason given. */
  lemma ReasonIsFirst(p: PeerIdentity, q: PeerIdentity)
    ensures DetectChange(p, q) == Some(IssuerChanged) <==> p.issuer != q.issuer
    ensures DetectChange(p, q) == Some(EndpointChanged) <==> p.issuer == q.issuer && p.tlsCert != q.tlsCert
    ensures DetectChange(p, q) == Some(KeyChanged) <==>
      && p.issuer == q.issuer && p.tlsCert == q.tlsCert
      && !(p.agentCardKey == q.agentCardKey && p.keyBindings == q.keyBindings)
    ensures DetectChange(p, q) == None <==>
      && p.issuer == q.issuer && p.tlsCert == q.tlsCert && p.agentCardKey == q.agentCardKey
      && p.keyBindings == q.keyBindings && p.securityProjection == q.securityProjection
  {
  }

  /** The two cards agree on everything policy pins. */
  ghost predicate SamePosture(c: Json, d: Json) {
    && Get(c, "supportedInterfaces") == Get(d, "supportedInterfaces")
    && Get(c, "securityRequirements") == Get(d, "securityRequirements")
    && Get(c, "securitySchemes") == Get(d, "securitySchemes")
    && SameExtensions(c, d)
  }

  lemma SortedUrisAgree(a: seq<string>, b: seq<string>)
    ensures SortedUris(a) == SortedUris(b) <==> multiset(a) == multiset(b)
  {
    SortByOrders(UriKey, a);
    SortByOrders(UriKey, b);
    if multiset(a) == multiset(b) {
      assert KeyDetermines(UriKey, a) by {
        forall x, y | UriKey(x) == UriKey(y) ensures x == y { assert UriKey(x)[0] == UriKey(y)[0]; }
      }
      SortBlind(UriKey, a, b);
    }
  }

  lemma SetJsonIsInjective(a: KeyBindingSet, b: KeyBindingSet)
    requires Fits(a) && Fits(b) && SetJson(a) == SetJson(b)
    ensures a == b
  {
    ParseOfSet(a);
    ParseOfSet(b);
  }

  lemma FieldsDecideProjection(v: Json, w: Json, c: Json, d: Json, a: KeyBindingSet, b: KeyBindingSet)
    requires Fits(a) && Fits(b) && v == Projection(c, a) && w == Projection(d, b) && v == w
    ensures a == b && SamePosture(c, d)
  {
    ProjectionFields(c, a);
    ProjectionFields(d, b);
    SetJsonIsInjective(a, b);
    ArrayOfIsInjective(SortedUris(Required(c)), SortedUris(Required(d)), Quoted);
    SortedUrisAgree(Required(c), Required(d));
    SameExtensionsMeans(c, d);
  }

  lemma PostureDecidesProjection(c: Json, d: Json, a: KeyBindingSet)
    requires SamePosture(c, d)
    ensures Projection(c, a) == Projection(d, a)
  {
    SortedUrisAgree(Required(c), Required(d));
    SameExtensionsMeans(c, d);
  }

  /** The digest of the projection moves exactly with what it projects. */
  lemma ProjectionDigest(lib: Lib, c: Json, d: Json, a: KeyBindingSet, b: KeyBindingSet)
    requires Fits(a) && Fits(b) && WellFormed(c) && WellFormed(d)
    requires !Collision(lib.sha, Canonical(Projection(c, a)), Canonical(Projection(d, b)))
    ensures JsonPrint(lib, Projection(c, a)) == JsonPrint(lib, Projection(d, b)) <==> a == b && SamePosture(c, d)
  {
    ProjectionIsWellFormed(c, a);
    ProjectionIsWellFormed(d, b);
    if Canonical(Projection(c, a)) == Canonical(Projection(d, b)) {
      CanonicalIsInjective(Projection(c, a), Projection(d, b));
      FieldsDecideProjection(Projection(c, a), Projection(d, b), c, d, a, b);
    }
    if a == b && SamePosture(c, d) {
      PostureDecidesProjection(c, d, a);
    }
  }

  lemma SameBindingsSameKeys(lib: Lib, a: KeyBindingSet, c: map<string, Json>, d: map<string, Json>)
    requires PeerIdentityFrom(lib, a, c).Peer? && PeerIdentityFrom(lib, a, d).Peer?
    ensures var p, q := PeerIdentityFrom(lib, a, c).identity, PeerIdentityFrom(lib, a, d).identity;
      && DetectChange(p, q) == (if p.securityProjection == q.securityProjection then None else Some(ProjectionChanged))
      && p.agentId == q.agentId
      && (Get(Obj(c), "supportedInterfaces") == Get(Obj(d), "supportedInterfaces") ==> p.endpointId == q.endpointId)
  {
  }

  lemma ChangeIsDecided(p: PeerIdentity, q: PeerIdentity, sameKeys: bool, samePosture: bool)
    requires p.securityProjection == q.securityProjection <==> sameKeys && samePosture
    requires sameKeys ==> DetectChange(p, q) == if p.securityProjection == q.securityProjection then None
      else Some(ProjectionChanged)
    ensures DetectChange(p, q) == None <==> sameKeys && samePosture
  {
  }

  lemma ProjectionOf(lib: Lib, a: KeyBindingSet, c: map<string, Json>)
    requires PeerIdentityFrom(lib, a, c).Peer?
    ensures PeerIdentityFrom(lib, a, c).identity.securityProjection == JsonPrint(lib, Projection(Obj(c), a))
  {
  }

  /** No silent change: two assembled identities compare as unchanged exactly when their key bindings
      are equal and their cards agree on everything pinned. Names, endpoint and order of extensions follow. */
  lemma NoSilentChange(lib: Lib, a: KeyBindingSet, c: map<string, Json>, b: KeyBindingSet, d: map<string, Json>)
    requires Fits(a) && Fits(b) && WellFormed(Obj(c)) && WellFormed(Obj(d))
    requires PeerIdentityFrom(lib, a, c).Peer? && PeerIdentityFrom(lib, b, d).Peer?
    requires !Collision(lib.sha, Canonical(Projection(Obj(c), a)), Canonical(Projection(Obj(d), b)))
    ensures var p, q := PeerIdentityFrom(lib, a, c).identity, PeerIdentityFrom(lib, b, d).identity;
      && (DetectChange(p, q) == None <==> a == b && SamePosture(Obj(c), Obj(d)))
      && (DetectChange(p, q) == None ==> p.agentId == q.agentId && p.endpointId == q.endpointId)
  {
    ProjectionDigest(lib, Obj(c), Obj(d), a, b);
    ProjectionOf(lib, a, c);
    ProjectionOf(lib, b, d);
    if a == b {
      SameBindingsSameKeys(lib, a, c, d);
    }
    ChangeIsDecided(PeerIdentityFrom(lib, a, c).identity, PeerIdentityFrom(lib, b, d).identity, a == b,
      SamePosture(Obj(c), Obj(d)));
  }
}
